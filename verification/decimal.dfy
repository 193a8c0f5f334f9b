/**
 Decimal digit runs: how the C++ parser reads them (the accumulator
 `v = v * 10 + (c - '0')` of bencode_parser.cpp) and how `operator<<` on an
 `std::ostringstream` prints an integer (torrent_info.cpp). The C++ `long`
 accumulator can overflow; here integers are unbounded.
 */
module Decimal {
  import opened Bencode

  predicate AllDigits(ds: Bytes) {
    forall i :: 0 <= i < |ds| ==> IsDigit(ds[i])
  }

  /** The value the accumulator holds after reading the digits `ds` left to right. */
  function DecimalValue(ds: Bytes): nat
    requires AllDigits(ds)
  {
    if |ds| == 0 then 0
    else DecimalValue(ds[..|ds| - 1]) * 10 + (ds[|ds| - 1] - ZERO)
  }

  /** The shortest decimal spelling of `n`, as `operator<<` prints it. */
  function NatToDecimal(n: nat): (ds: Bytes)
    ensures |ds| > 0 && IsDigit(ds[0])
  {
    var last: byte := ZERO + n % 10;
    if n < 10 then [last] else NatToDecimal(n / 10) + [last]
  }

  /**
   The spelling consists of digits, reads back as `n`, and has no leading
   zero unless it is the single digit "0".
   */
  lemma {:induction false} NatToDecimalValue(n: nat)
    ensures AllDigits(NatToDecimal(n))
    ensures DecimalValue(NatToDecimal(n)) == n
    ensures NatToDecimal(n)[0] == ZERO ==> n == 0 && |NatToDecimal(n)| == 1
  {
    var ds := NatToDecimal(n);
    if n >= 10 {
      NatToDecimalValue(n / 10);
      assert ds[..|ds| - 1] == NatToDecimal(n / 10);
      assert ds[0] == NatToDecimal(n / 10)[0];
    }
  }

  /** `operator<<` on a signed integer: a '-' before the magnitude when negative. */
  function IntToDecimal(i: int): (ds: Bytes)
    ensures |ds| > 0
    ensures i < 0 <==> ds[0] == MINUS
  {
    if i < 0 then [MINUS] + NatToDecimal(-i) else NatToDecimal(i)
  }

  /** After the optional '-', the spelling of a signed integer reads back as its magnitude. */
  lemma IntToDecimalValue(i: int)
    ensures var ds := IntToDecimal(i);
      && (i < 0 ==> |ds| > 1 && AllDigits(ds[1..]) && DecimalValue(ds[1..]) == -i)
      && (i >= 0 ==> AllDigits(ds) && DecimalValue(ds) == i)
  {
    if i < 0 {
      NatToDecimalValue(-i);
      assert IntToDecimal(i)[1..] == NatToDecimal(-i);
    } else {
      NatToDecimalValue(i);
    }
  }

  /**
   Where the run of digits starting at `p` ends: the first position at or
   after `p` that is the end of the buffer or holds a non-digit.
   */
  function DigitRunEnd(s: Bytes, p: nat): (q: nat)
    ensures p <= q
    ensures p <= |s| ==> q <= |s|
    ensures q < |s| ==> !IsDigit(s[q])
    decreases |s| - p
  {
    if p >= |s| || !IsDigit(s[p]) then p else DigitRunEnd(s, p + 1)
  }

  /** The run found by `DigitRunEnd` consists of digits. */
  lemma {:induction false} DigitRunIsDigits(s: Bytes, p: nat)
    requires p <= |s|
    ensures AllDigits(s[p..DigitRunEnd(s, p)])
    decreases |s| - p
  {
    var q := DigitRunEnd(s, p);
    if q > p {
      DigitRunIsDigits(s, p + 1);
      forall i | 0 <= i < q - p
        ensures IsDigit(s[p..q][i])
      {
        if i > 0 {
          assert s[p..q][i] == s[p + 1..q][i - 1];
        }
      }
    }
  }

  /** A run of digits followed by a non-digit ends exactly there. */
  lemma {:induction false} DigitRunOver(s: Bytes, p: nat, ds: Bytes)
    requires AllDigits(ds)
    requires Occurs(ds, s, p) && p + |ds| < |s|
    requires !IsDigit(s[p + |ds|])
    ensures DigitRunEnd(s, p) == p + |ds|
    ensures s[p..p + |ds|] == ds
    decreases |ds|
  {
    if |ds| > 0 {
      assert s[p + 0] == ds[0];
      assert Occurs(ds[1..], s, p + 1) by {
        forall k | 0 <= k < |ds[1..]|
          ensures s[p + 1 + k] == ds[1..][k]
        {
          assert s[p + (k + 1)] == ds[k + 1];
        }
      }
      DigitRunOver(s, p + 1, ds[1..]);
    }
  }
}
