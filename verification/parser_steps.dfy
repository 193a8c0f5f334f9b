/**
 One-step equations of the parser: what each routine of bencode_parser.cpp
 does with the byte under the cursor. Proofs about whole parses are built
 from these steps so that each proof unfolds the parser only once.
 */
module BencodeParserSteps {
  import opened Bencode
  import opened Decimal
  import opened BencodeParser

  lemma OneDict(s: Bytes, pos: nat)
    requires pos < |s| && s[pos] == DICT_START
    ensures ParseOne(s, pos) == ParseDictEntries(s, pos + 1, [])
  {
    assert ParseOne(s, pos) == ParseDict(s, pos);
  }

  lemma OneList(s: Bytes, pos: nat)
    requires pos < |s| && s[pos] == LIST_START
    ensures ParseOne(s, pos) == ParseListItems(s, pos + 1, [])
  {
    assert ParseOne(s, pos) == ParseList(s, pos);
  }

  lemma OneInt(s: Bytes, pos: nat)
    requires pos < |s| && s[pos] == INT_START
    ensures ParseOne(s, pos) == ParseInt(s, pos)
  {
  }

  lemma OneString(s: Bytes, pos: nat)
    requires pos < |s| && IsDigit(s[pos])
    ensures ParseOne(s, pos) == ParseString(s, pos)
  {
  }

  lemma StringStep(s: Bytes, pos: nat, b: Bytes, e: nat)
    requires ReadLengthPrefixed(s, pos, StringBeyondBuffer) == Success((b, e))
    ensures ParseString(s, pos) == Success((Str(b), e))
  {
  }

  lemma ItemsEnd(s: Bytes, p: nat, acc: seq<BNode>)
    requires p < |s| && s[p] == END
    ensures ParseListItems(s, p, acc) == Success((List(acc), p + 1))
  {
  }

  lemma ItemsStep(s: Bytes, p: nat, acc: seq<BNode>, v: BNode, q: nat)
    requires p < |s| && s[p] != END
    requires ParseOne(s, p) == Success((v, q))
    ensures ParseListItems(s, p, acc) == ParseListItems(s, q, acc + [v])
  {
  }

  lemma EntriesEnd(s: Bytes, p: nat, acc: seq<Entry>)
    requires p < |s| && s[p] == END
    ensures ParseDictEntries(s, p, acc) == Success((Dict(acc), p + 1))
  {
  }

  lemma EntryStep(s: Bytes, p: nat, acc: seq<Entry>, key: Bytes, q: nat, v: BNode, e: nat)
    requires p < |s| && IsDigit(s[p])
    requires ReadLengthPrefixed(s, p, KeyBeyondBuffer) == Success((key, q))
    requires ParseOne(s, q) == Success((v, e))
    ensures ParseEntry(s, p, acc) == Success((Emplace(acc, key, v), e))
  {
  }

  lemma EntriesStep(s: Bytes, p: nat, acc: seq<Entry>, acc': seq<Entry>, e: nat)
    requires p < |s| && s[p] != END
    requires ParseEntry(s, p, acc) == Success((acc', e))
    ensures ParseDictEntries(s, p, acc) == ParseDictEntries(s, e, acc')
  {
  }

  /** The parts of a successful dict-loop iteration: key, value and the emplace. */
  lemma EntryParts(s: Bytes, p: nat, acc: seq<Entry>) returns (key: Bytes, q: nat, v: BNode)
    requires p < |s| && ParseEntry(s, p, acc).Success?
    ensures IsDigit(s[p])
    ensures ReadLengthPrefixed(s, p, KeyBeyondBuffer) == Success((key, q))
    ensures p < q && ParseOne(s, q) == Success((v, ParseEntry(s, p, acc).value.1))
    ensures ParseEntry(s, p, acc).value.0 == Emplace(acc, key, v)
  {
    var (k, q') := ReadLengthPrefixed(s, p, KeyBeyondBuffer).value;
    key, q := k, q';
    v := ParseOne(s, q).value.0;
  }

  /** No production of `parseOne` starts with the byte `b`. */
  predicate StartsNoValue(b: byte) {
    b != DICT_START && b != LIST_START && b != INT_START && !IsDigit(b)
  }

  /**
   `parseOne` chooses the production by the first byte: at the end of the
   buffer it fails with `UnexpectedEnd`, on a byte that starts no value with
   `InvalidStart`, and a value it returns has the type that byte announces.
   */
  lemma ParseOneDispatch(s: Bytes, pos: nat)
    ensures pos >= |s| ==> ParseOne(s, pos) == Failure(UnexpectedEnd)
    ensures pos < |s| && StartsNoValue(s[pos]) ==> ParseOne(s, pos) == Failure(InvalidStart(s[pos]))
    ensures ParseOne(s, pos).Success? ==>
      var v := ParseOne(s, pos).value.0;
      && pos < |s|
      && (v.Dict? <==> s[pos] == DICT_START)
      && (v.List? <==> s[pos] == LIST_START)
      && (v.Int? <==> s[pos] == INT_START)
      && (v.Str? <==> IsDigit(s[pos]))
  {
  }
}
