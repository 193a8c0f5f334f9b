/**
 The parser reads nothing beyond the end of the value it returns: a
 successful parse depends only on the bytes before its end position. Two
 consequences for `parse`: bytes after the value are ignored, and cutting
 the buffer anywhere before the end of the value makes it fail.
 */
module BencodeLocality {
  import opened Bencode
  import opened Decimal
  import opened BencodeParser
  import opened BencodeParserSteps

  /** `s` and `t` both have at least `n` bytes and agree on the first `n`. */
  predicate SamePrefix(s: Bytes, t: Bytes, n: nat) {
    && n <= |s| && n <= |t|
    && forall k :: 0 <= k < n ==> s[k] == t[k]
  }

  lemma SamePrefixShrink(s: Bytes, t: Bytes, n: nat, m: nat)
    requires SamePrefix(s, t, n) && m <= n
    ensures SamePrefix(s, t, m)
  {
  }

  lemma SamePrefixSlice(s: Bytes, t: Bytes, n: nat, i: nat, j: nat)
    requires SamePrefix(s, t, n) && i <= j <= n
    ensures s[i..j] == t[i..j]
  {
    assert forall k :: 0 <= k < j - i ==> s[i..j][k] == s[i + k];
  }

  /** A digit run that stops before the end of `s` stops at the same place in `t`. */
  lemma {:induction false} DigitRunLocal(s: Bytes, t: Bytes, p: nat, q: nat)
    requires p <= q < |s| && DigitRunEnd(s, p) == q
    requires SamePrefix(s, t, q + 1)
    ensures DigitRunEnd(t, p) == q
    decreases q - p
  {
    if p < q {
      DigitRunLocal(s, t, p + 1, q);
    }
  }

  lemma ReadLocal(s: Bytes, t: Bytes, p: nat, overrun: BtError, b: Bytes, e: nat)
    requires ReadLengthPrefixed(s, p, overrun) == Success((b, e))
    requires SamePrefix(s, t, e)
    ensures ReadLengthPrefixed(t, p, overrun) == Success((b, e))
  {
    var q := DigitRunEnd(s, p);
    DigitRunLocal(s, t, p, q);
    SamePrefixSlice(s, t, e, p, q);
    SamePrefixSlice(s, t, e, q + 1, e);
  }

  lemma IntLocal(s: Bytes, t: Bytes, pos: nat, v: BNode, e: nat)
    requires ParseInt(s, pos) == Success((v, e))
    requires SamePrefix(s, t, e)
    ensures ParseInt(t, pos) == Success((v, e))
  {
    var d := if s[pos + 1] == MINUS then pos + 2 else pos + 1;
    var q := DigitRunEnd(s, d);
    DigitRunLocal(s, t, d, q);
    SamePrefixSlice(s, t, e, d, q);
  }

  /** `parseOne` on a buffer that agrees with `s` up to the end of the value. */
  lemma {:induction false} OneLocal(s: Bytes, t: Bytes, pos: nat, v: BNode, e: nat)
    requires ParseOne(s, pos) == Success((v, e))
    requires SamePrefix(s, t, e)
    ensures ParseOne(t, pos) == Success((v, e))
    decreases |s| - pos, 2
  {
    assert t[pos] == s[pos];
    if s[pos] == DICT_START {
      OneDict(s, pos);
      OneDict(t, pos);
      EntriesLocal(s, t, pos + 1, [], v, e);
    } else if s[pos] == LIST_START {
      OneList(s, pos);
      OneList(t, pos);
      ItemsLocal(s, t, pos + 1, [], v, e);
    } else if s[pos] == INT_START {
      OneInt(s, pos);
      OneInt(t, pos);
      IntLocal(s, t, pos, v, e);
    } else {
      OneString(s, pos);
      OneString(t, pos);
      var (b, e') := ReadLengthPrefixed(s, pos, StringBeyondBuffer).value;
      ReadLocal(s, t, pos, StringBeyondBuffer, b, e');
      StringStep(t, pos, b, e');
    }
  }

  lemma {:induction false} EntriesLocal(s: Bytes, t: Bytes, p: nat, acc: seq<Entry>, v: BNode, end: nat)
    requires ParseDictEntries(s, p, acc) == Success((v, end))
    requires SamePrefix(s, t, end)
    ensures ParseDictEntries(t, p, acc) == Success((v, end))
    decreases |s| - p, 3
  {
    assert t[p] == s[p];
    if s[p] == END {
      EntriesEnd(s, p, acc);
      EntriesEnd(t, p, acc);
    } else {
      var key, q, x := EntryParts(s, p, acc);
      var (acc', e) := ParseEntry(s, p, acc).value;
      EntriesStep(s, p, acc, acc', e);
      SamePrefixShrink(s, t, end, e);
      ReadLocal(s, t, p, KeyBeyondBuffer, key, q);
      OneLocal(s, t, q, x, e);
      EntryStep(t, p, acc, key, q, x, e);
      EntriesStep(t, p, acc, acc', e);
      EntriesLocal(s, t, e, acc', v, end);
    }
  }

  lemma {:induction false} ItemsLocal(s: Bytes, t: Bytes, p: nat, acc: seq<BNode>, v: BNode, end: nat)
    requires ParseListItems(s, p, acc) == Success((v, end))
    requires SamePrefix(s, t, end)
    ensures ParseListItems(t, p, acc) == Success((v, end))
    decreases |s| - p, 3
  {
    assert t[p] == s[p];
    if s[p] == END {
      ItemsEnd(s, p, acc);
      ItemsEnd(t, p, acc);
    } else {
      var (x, q) := ParseOne(s, p).value;
      ItemsStep(s, p, acc, x, q);
      SamePrefixShrink(s, t, end, q);
      OneLocal(s, t, p, x, q);
      ItemsStep(t, p, acc, x, q);
      ItemsLocal(s, t, q, acc + [x], v, end);
    }
  }

  /** `parse` ignores whatever follows the value it returns. */
  lemma ParseIgnoresTrailing(s: Bytes, rest: Bytes)
    requires Parse(s).Success?
    ensures Parse(s + rest) == Parse(s)
  {
    var (v, e) := Parse(s).value;
    OneLocal(s, s + rest, 0, v, e);
  }

  /**
   A buffer cut anywhere before the end of the value fails to parse: the
   parser never returns a value it has not read to the end.
   */
  lemma ParseTruncatedFails(s: Bytes, k: nat)
    requires Parse(s).Success? && k < Parse(s).value.1
    ensures Parse(s[..k]).Failure?
  {
    if Parse(s[..k]).Success? {
      var (v, e) := Parse(s[..k]).value;
      OneLocal(s[..k], s, 0, v, e);
    }
  }
}
