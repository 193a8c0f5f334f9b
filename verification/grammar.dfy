/**
 The exact grammar the parser accepts for integers and length-prefixed
 byte strings, in both directions: every byte sequence of the right shape
 is read to the value it spells (leading zeros and "-0" included), and
 everything the parser reads successfully has that shape.
 */
module BencodeGrammar {
  import opened Bencode
  import opened Decimal
  import opened BencodeParser

  /**
   `parseInt` on 'i', an optional '-', the digits `ds` and 'e' yields the
   decimal value of the digits, negated after a '-'.
   */
  lemma ParseIntDigits(s: Bytes, pos: nat, negative: bool, ds: Bytes)
    requires pos + 1 < |s| && s[pos] == INT_START
    requires negative <==> s[pos + 1] == MINUS
    requires |ds| > 0 && AllDigits(ds)
    requires Occurs(ds + [END], s, if negative then pos + 2 else pos + 1)
    ensures var d := if negative then pos + 2 else pos + 1;
      ParseInt(s, pos) == Success((Int(if negative then -(DecimalValue(ds) as int) else DecimalValue(ds)), d + |ds| + 1))
  {
    var d := if negative then pos + 2 else pos + 1;
    OccursSplit(ds, [END], s, d);
    OccursAt([END], s, d + |ds|, 0);
    DigitRunOver(s, d, ds);
  }

  /**
   A successful `parseInt` read 'i', an optional '-', a non-empty run of
   digits and 'e', and its value is the decimal value of the digits,
   negated after a '-'.
   */
  lemma ParseIntShape(s: Bytes, pos: nat) returns (negative: bool, ds: Bytes)
    ensures ParseInt(s, pos).Success? ==>
      var d := if negative then pos + 2 else pos + 1;
      && pos + 1 < |s| && s[pos] == INT_START
      && (negative <==> s[pos + 1] == MINUS)
      && |ds| > 0 && AllDigits(ds)
      && Occurs(ds + [END], s, d)
      && ParseInt(s, pos).value
         == (Int(if negative then -(DecimalValue(ds) as int) else DecimalValue(ds)), d + |ds| + 1)
  {
    negative, ds := false, [];
    if ParseInt(s, pos).Success? {
      negative := s[pos + 1] == MINUS;
      var d := if negative then pos + 2 else pos + 1;
      var q := DigitRunEnd(s, d);
      DigitRunIsDigits(s, d);
      ds := s[d..q];
      forall k | 0 <= k < |ds + [END]|
        ensures s[d + k] == (ds + [END])[k]
      {
        if k < |ds| {
          assert ds[k] == s[d + k];
        }
      }
    }
  }

  /** Where the parts of `ds`, ':' and `b` lie in the buffer. */
  lemma LengthPrefixedLayout(s: Bytes, p: nat, ds: Bytes, b: Bytes)
    requires AllDigits(ds)
    requires Occurs(ds + [COLON] + b, s, p)
    ensures DigitRunEnd(s, p) == p + |ds|
    ensures s[p..p + |ds|] == ds
    ensures s[p + |ds|] == COLON
    ensures p + |ds| + 1 + |b| <= |s|
    ensures s[p + |ds| + 1..p + |ds| + 1 + |b|] == b
  {
    OccursSplit(ds + [COLON], b, s, p);
    OccursSplit(ds, [COLON], s, p);
    OccursAt([COLON], s, p + |ds|, 0);
    DigitRunOver(s, p, ds);
    var q := p + |ds|;
    forall k | 0 <= k < |b|
      ensures s[q + 1..q + 1 + |b|][k] == b[k]
    {
      OccursAt(b, s, q + 1, k);
    }
  }

  /**
   A decimal length `ds` (leading zeros allowed), ':', and exactly that many
   bytes `b` are read as `b`, and the cursor advances by the digits, the
   colon and the bytes.
   */
  lemma ReadDigitsString(s: Bytes, p: nat, ds: Bytes, b: Bytes, overrun: BtError)
    requires AllDigits(ds) && DecimalValue(ds) == |b|
    requires Occurs(ds + [COLON] + b, s, p)
    ensures ReadLengthPrefixed(s, p, overrun) == Success((b, p + |ds| + 1 + |b|))
  {
    LengthPrefixedLayout(s, p, ds, b);
  }

  /** A successful length-prefixed read has exactly that shape. */
  lemma ReadLengthPrefixedShape(s: Bytes, p: nat, overrun: BtError) returns (ds: Bytes)
    ensures ReadLengthPrefixed(s, p, overrun).Success? ==>
      var (b, e) := ReadLengthPrefixed(s, p, overrun).value;
      && AllDigits(ds) && DecimalValue(ds) == |b|
      && Occurs(ds + [COLON] + b, s, p)
      && e == p + |ds| + 1 + |b|
  {
    ds := [];
    if ReadLengthPrefixed(s, p, overrun).Success? {
      var (b, e) := ReadLengthPrefixed(s, p, overrun).value;
      var q := DigitRunEnd(s, p);
      DigitRunIsDigits(s, p);
      ds := s[p..q];
      var w := ds + [COLON] + b;
      forall k | 0 <= k < |w|
        ensures s[p + k] == w[k]
      {
        if k < |ds| {
          assert w[k] == ds[k];
        } else if k > |ds| {
          assert w[k] == b[k - |ds| - 1];
        }
      }
    }
  }

  /**
   A decimal length followed by ':' that promises more bytes than the
   buffer holds fails with the overrun error of the caller.
   */
  lemma ReadOverrun(s: Bytes, p: nat, ds: Bytes, overrun: BtError)
    requires AllDigits(ds) && Occurs(ds + [COLON], s, p)
    requires p + |ds| + 1 + DecimalValue(ds) > |s|
    ensures ReadLengthPrefixed(s, p, overrun) == Failure(overrun)
  {
    OccursSplit(ds, [COLON], s, p);
    OccursAt([COLON], s, p + |ds|, 0);
    DigitRunOver(s, p, ds);
  }
}
