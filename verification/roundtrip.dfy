/**
 The writer and the parser are inverse: parsing the bytes `writeBNode`
 produces for a tree with distinct keys in every dictionary gives the same
 tree back and consumes exactly those bytes, wherever in a buffer they sit
 and whatever follows them. The round trip holds for the stored entry
 order, whatever that order is.

 Each proof is split into a layout lemma (where the writer put which bytes)
 and parser steps (what the parser does with those bytes).
 */
module BencodeRoundTrip {
  import opened Bencode
  import opened Decimal
  import opened BencodeParser
  import opened BencodeWriter
  import opened BencodeParserSteps
  import opened BencodeGrammar

  /** No written value starts with the terminator 'e'. */
  lemma FirstByteNotEnd(n: BNode, s: Bytes, pos: nat)
    requires Occurs(WriteBNode(n), s, pos)
    ensures pos < |s| && s[pos] != END
  {
    assert WriteBNode(n)[0] == s[pos];
  }

  /** A written byte string is read back by `ReadLengthPrefixed`. */
  lemma ReadWrittenString(b: Bytes, s: Bytes, p: nat, overrun: BtError)
    requires Occurs(WriteString(b), s, p)
    ensures p < |s| && IsDigit(s[p])
    ensures ReadLengthPrefixed(s, p, overrun) == Success((b, p + |WriteString(b)|))
  {
    NatToDecimalValue(|b|);
    OccursAt(WriteString(b), s, p, 0);
    ReadDigitsString(s, p, NatToDecimal(|b|), b, overrun);
  }

  lemma IntLayout(i: int, s: Bytes, pos: nat)
    requires Occurs(WriteBNode(Int(i)), s, pos)
    ensures pos + 1 < |s| && s[pos] == INT_START
    ensures i < 0 <==> s[pos + 1] == MINUS
    ensures Occurs(NatToDecimal(if i < 0 then -i else i) + [END], s, if i < 0 then pos + 2 else pos + 1)
    ensures |WriteBNode(Int(i))| == (if i < 0 then 2 else 1) + |NatToDecimal(if i < 0 then -i else i)| + 1
  {
    var ds := IntToDecimal(i);
    var m := NatToDecimal(if i < 0 then -i else i);
    assert WriteBNode(Int(i)) == [INT_START] + (ds + [END]);
    OccursSplit([INT_START], ds + [END], s, pos);
    OccursAt([INT_START], s, pos, 0);
    OccursAt(ds + [END], s, pos + 1, 0);
    if i < 0 {
      assert ds + [END] == [MINUS] + (m + [END]);
      OccursSplit([MINUS], m + [END], s, pos + 1);
    }
  }

  lemma ParseWrittenInt(i: int, s: Bytes, pos: nat)
    requires Occurs(WriteBNode(Int(i)), s, pos)
    ensures ParseOne(s, pos) == Success((Int(i), pos + |WriteBNode(Int(i))|))
  {
    IntLayout(i, s, pos);
    OneInt(s, pos);
    NatToDecimalValue(if i < 0 then -i else i);
    ParseIntDigits(s, pos, i < 0, NatToDecimal(if i < 0 then -i else i));
  }

  lemma ParseWrittenStr(b: Bytes, s: Bytes, pos: nat)
    requires Occurs(WriteBNode(Str(b)), s, pos)
    ensures ParseOne(s, pos) == Success((Str(b), pos + |WriteBNode(Str(b))|))
  {
    ReadWrittenString(b, s, pos, StringBeyondBuffer);
    OneString(s, pos);
    StringStep(s, pos, b, pos + |WriteString(b)|);
  }

  /**
   Round trip of one node at position `pos` of any buffer; `end` is the
   position right after its written form.
   */
  lemma {:induction false} ParseWritten(n: BNode, s: Bytes, pos: nat, end: nat)
    requires WellFormed(n)
    requires Occurs(WriteBNode(n), s, pos)
    requires end == pos + |WriteBNode(n)|
    ensures ParseOne(s, pos) == Success((n, end))
    decreases n, 2
  {
    match n
    case Str(b) => ParseWrittenStr(b, s, pos);
    case Int(i) => ParseWrittenInt(i, s, pos);
    case List(_) => ParseWrittenList(n, s, pos, end);
    case Dict(_) => ParseWrittenDict(n, s, pos, end);
  }

  lemma ContainerLayout(n: BNode, s: Bytes, pos: nat, end: nat)
    requires n.List? || n.Dict?
    requires Occurs(WriteBNode(n), s, pos)
    requires end == pos + |WriteBNode(n)|
    ensures pos < |s| && s[pos] == (if n.List? then LIST_START else DICT_START)
    ensures n.List? ==> Occurs(WriteItems(n.items) + [END], s, pos + 1)
    ensures n.List? ==> end == pos + 1 + |WriteItems(n.items)| + 1
    ensures n.Dict? ==> Occurs(WriteEntries(n.entries) + [END], s, pos + 1)
    ensures n.Dict? ==> end == pos + 1 + |WriteEntries(n.entries)| + 1
  {
    var open := if n.List? then LIST_START else DICT_START;
    var body := if n.List? then WriteItems(n.items) else WriteEntries(n.entries);
    assert WriteBNode(n) == [open] + (body + [END]);
    OccursSplit([open], body + [END], s, pos);
    OccursAt([open], s, pos, 0);
  }

  lemma {:induction false} ParseWrittenList(n: BNode, s: Bytes, pos: nat, end: nat)
    requires n.List? && WellFormed(n)
    requires Occurs(WriteBNode(n), s, pos)
    requires end == pos + |WriteBNode(n)|
    ensures ParseOne(s, pos) == Success((n, end))
    decreases n, 1
  {
    ContainerLayout(n, s, pos, end);
    OneList(s, pos);
    ParseWrittenItems(n.items, s, pos + 1, [], end);
    AppendToNothing(n.items);
  }

  lemma {:induction false} ParseWrittenDict(n: BNode, s: Bytes, pos: nat, end: nat)
    requires n.Dict? && WellFormed(n)
    requires Occurs(WriteBNode(n), s, pos)
    requires end == pos + |WriteBNode(n)|
    ensures ParseOne(s, pos) == Success((n, end))
    decreases n, 1
  {
    ContainerLayout(n, s, pos, end);
    OneDict(s, pos);
    ParseWrittenEntries(n.entries, s, pos + 1, [], end);
    AppendToNothing(n.entries);
  }

  /** The closing 'e' right after an empty run of items or entries. */
  lemma EndLayout(w: Bytes, s: Bytes, p: nat, end: nat)
    requires |w| == 0 && Occurs(w + [END], s, p)
    requires end == p + |w| + 1
    ensures p < |s| && s[p] == END
    ensures end == p + 1
  {
    OccursAt(w + [END], s, p, 0);
  }

  lemma ItemsLayout(items: seq<BNode>, s: Bytes, p: nat, end: nat) returns (e: nat)
    requires |items| > 0
    requires Occurs(WriteItems(items) + [END], s, p)
    requires end == p + |WriteItems(items)| + 1
    ensures e == p + |WriteBNode(items[0])|
    ensures Occurs(WriteBNode(items[0]), s, p)
    ensures Occurs(WriteItems(items[1..]) + [END], s, e)
    ensures end == e + |WriteItems(items[1..])| + 1
  {
    var w := WriteBNode(items[0]);
    var rest := WriteItems(items[1..]) + [END];
    assert WriteItems(items) + [END] == w + rest;
    OccursSplit(w, rest, s, p);
    e := p + |w|;
  }

  /** The loop of `parseList` reads back the written items and the closing 'e'. */
  lemma {:induction false} ParseWrittenItems(items: seq<BNode>, s: Bytes, p: nat, acc: seq<BNode>, end: nat)
    requires forall i :: 0 <= i < |items| ==> WellFormed(items[i])
    requires Occurs(WriteItems(items) + [END], s, p)
    requires end == p + |WriteItems(items)| + 1
    ensures ParseListItems(s, p, acc) == Success((List(acc + items), end))
    decreases items, 0
  {
    if |items| == 0 {
      EndLayout(WriteItems(items), s, p, end);
      ItemsEnd(s, p, acc);
      AppendNothing(acc, items);
    } else {
      var v := items[0];
      var e := ItemsLayout(items, s, p, end);
      FirstByteNotEnd(v, s, p);
      ParseWritten(v, s, p, e);
      ItemsStep(s, p, acc, v, e);
      ParseWrittenItems(items[1..], s, e, acc + [v], end);
      AppendHead(acc, items);
    }
  }

  lemma EntriesLayout(es: seq<Entry>, s: Bytes, p: nat, end: nat) returns (q: nat, e: nat)
    requires |es| > 0
    requires Occurs(WriteEntries(es) + [END], s, p)
    requires end == p + |WriteEntries(es)| + 1
    ensures q == p + |WriteString(es[0].0)|
    ensures e == q + |WriteBNode(es[0].1)|
    ensures Occurs(WriteString(es[0].0), s, p)
    ensures Occurs(WriteBNode(es[0].1), s, q)
    ensures Occurs(WriteEntries(es[1..]) + [END], s, e)
    ensures end == e + |WriteEntries(es[1..])| + 1
  {
    var wk := WriteString(es[0].0);
    var wv := WriteBNode(es[0].1);
    var rest := WriteEntries(es[1..]) + [END];
    assert WriteEntries(es) + [END] == wk + (wv + rest);
    OccursSplit(wk, wv + rest, s, p);
    OccursSplit(wv, rest, s, p + |wk|);
    q := p + |wk|;
    e := q + |wv|;
  }

  /** The loop of `parseDict` reads back the written entries and the closing 'e'. */
  lemma {:induction false} ParseWrittenEntries(es: seq<Entry>, s: Bytes, p: nat, acc: seq<Entry>, end: nat)
    requires forall i :: 0 <= i < |es| ==> WellFormed(es[i].1)
    requires DistinctKeys(acc + es)
    requires Occurs(WriteEntries(es) + [END], s, p)
    requires end == p + |WriteEntries(es)| + 1
    ensures ParseDictEntries(s, p, acc) == Success((Dict(acc + es), end))
    decreases es, 1
  {
    if |es| == 0 {
      EndLayout(WriteEntries(es), s, p, end);
      EntriesEnd(s, p, acc);
      AppendNothing(acc, es);
    } else {
      var q, e := EntriesLayout(es, s, p, end);
      ParseWrittenEntry(es, s, p, acc, q, e);
      NextDistinct(acc, es);
      ParseWrittenEntries(es[1..], s, e, acc + [es[0]], end);
      AppendHead(acc, es);
    }
  }

  /** One iteration of the `parseDict` loop over a written entry whose key is new. */
  lemma {:induction false} ParseWrittenEntry(es: seq<Entry>, s: Bytes, p: nat, acc: seq<Entry>, q: nat, e: nat)
    requires |es| > 0 && WellFormed(es[0].1)
    requires DistinctKeys(acc + es)
    requires q == p + |WriteString(es[0].0)|
    requires e == q + |WriteBNode(es[0].1)|
    requires Occurs(WriteString(es[0].0), s, p)
    requires Occurs(WriteBNode(es[0].1), s, q)
    ensures ParseDictEntries(s, p, acc) == ParseDictEntries(s, e, acc + [es[0]])
    decreases es, 0
  {
    var (key, v) := es[0];
    assert v < es[0];
    ReadWrittenString(key, s, p, KeyBeyondBuffer);
    ParseWritten(v, s, q, e);
    EntryStep(s, p, acc, key, q, v, e);
    FreshKey(acc, es);
    EmplaceFresh(acc, key, v);
    EntriesStep(s, p, acc, acc + [es[0]], e);
  }

  lemma AppendHead<T>(acc: seq<T>, xs: seq<T>)
    requires |xs| > 0
    ensures (acc + [xs[0]]) + xs[1..] == acc + xs
  {
  }

  lemma AppendNothing<T>(acc: seq<T>, xs: seq<T>)
    requires |xs| == 0
    ensures acc + xs == acc
  {
  }

  lemma AppendToNothing<T>(xs: seq<T>)
    ensures [] + xs == xs
  {
  }

  lemma FreshKey(acc: seq<Entry>, es: seq<Entry>)
    requires |es| > 0 && DistinctKeys(acc + es)
    ensures es[0].0 !in KeysOf(acc)
  {
    forall i | 0 <= i < |acc|
      ensures acc[i].0 != es[0].0
    {
      assert (acc + es)[i] == acc[i] && (acc + es)[|acc|] == es[0];
    }
  }

  lemma NextDistinct(acc: seq<Entry>, es: seq<Entry>)
    requires |es| > 0 && DistinctKeys(acc + es)
    ensures DistinctKeys((acc + [es[0]]) + es[1..])
  {
    assert (acc + [es[0]]) + es[1..] == acc + es;
  }

  /**
   Parsing the written form of a well-formed tree, followed by any bytes,
   succeeds, yields the same tree and stops right after the written form.
   */
  lemma RoundTrip(n: BNode, rest: Bytes)
    requires WellFormed(n)
    ensures Parse(WriteBNode(n) + rest) == Success((n, |WriteBNode(n)|))
  {
    var s := WriteBNode(n) + rest;
    assert Occurs(WriteBNode(n), s, 0);
    ParseWritten(n, s, 0, |WriteBNode(n)|);
  }
}
