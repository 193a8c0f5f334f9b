/**
 `BencodeParser` of bencode_parser.cpp: a recursive-descent parser over a
 byte buffer and a cursor. The C++ object state `(m_data, m_length, m_pos)`
 becomes the arguments `(s, pos)`; each parsing routine returns the node it
 built together with the cursor after it, or the error it would have thrown.

 `peekChar` fails with `UnexpectedEnd` when `pos >= |s|` (`atEnd`), and
 `expectChar(c)` fails with `UnexpectedEnd` at the end and with
 `UnexpectedByte(c, actual)` on a mismatch; each routine below inlines those
 checks where the C++ code calls them. There is no nesting-depth bound;
 the native stack the C++ recursion runs on is not modelled.
 */
module BencodeParser {
  import opened Bencode
  import opened Decimal

  /** `parse`: one value starting at position 0; any bytes after it are ignored. */
  function Parse(s: Bytes): (r: Result<(BNode, nat)>)
    ensures r.Success? ==> 0 < r.value.1 <= |s|
    ensures |s| == 0 ==> r == Failure(UnexpectedEnd)
  {
    ParseOne(s, 0)
  }

  /** `parseOne`: the production is chosen by the byte under the cursor. */
  function ParseOne(s: Bytes, pos: nat): (r: Result<(BNode, nat)>)
    ensures r.Success? ==> pos < r.value.1 <= |s|
    decreases |s| - pos, 2
  {
    if pos >= |s| then Failure(UnexpectedEnd)
    else if s[pos] == DICT_START then ParseDict(s, pos)
    else if s[pos] == LIST_START then ParseList(s, pos)
    else if s[pos] == INT_START then ParseInt(s, pos)
    else if IsDigit(s[pos]) then ParseString(s, pos)
    else Failure(InvalidStart(s[pos]))
  }

  /** `parseDict`: 'd', then key/value pairs until 'e'. */
  function ParseDict(s: Bytes, pos: nat): (r: Result<(BNode, nat)>)
    ensures r.Success? ==> pos < r.value.1 <= |s| && r.value.0.Dict?
    ensures r.Success? ==> s[pos] == DICT_START && s[r.value.1 - 1] == END
    decreases |s| - pos, 1
  {
    if pos >= |s| then Failure(UnexpectedEnd)
    else if s[pos] != DICT_START then Failure(UnexpectedByte(DICT_START, s[pos]))
    else ParseDictEntries(s, pos + 1, NewNode(DICT).entries)
  }

  /**
   The loop of `parseDict` from cursor `p`, with the entries `acc` read so
   far. A key is a length-prefixed byte string; a repeated key is dropped
   (`emplace`), after its value has been parsed.
   */
  function ParseDictEntries(s: Bytes, p: nat, acc: seq<Entry>): (r: Result<(BNode, nat)>)
    ensures r.Success? ==> p < r.value.1 <= |s| && r.value.0.Dict?
    ensures r.Success? ==> s[r.value.1 - 1] == END && acc <= r.value.0.entries
    decreases |s| - p, 3
  {
    if p >= |s| then Failure(UnexpectedEnd)
    else if s[p] == END then Success((Dict(acc), p + 1))
    else
      var (acc', e) :- ParseEntry(s, p, acc);
      ParseDictEntries(s, e, acc')
  }

  /**
   One iteration of the `parseDict` loop at a byte other than 'e': the key
   (which must start with a digit), then its value, then `emplace` into the
   entries `acc`. Returns the new entries and the cursor after the value.
   */
  function ParseEntry(s: Bytes, p: nat, acc: seq<Entry>): (r: Result<(seq<Entry>, nat)>)
    requires p < |s|
    ensures r.Success? ==> p < r.value.1 <= |s| && acc <= r.value.0
    decreases |s| - p, 2
  {
    if !IsDigit(s[p]) then Failure(KeyNotDigitString)
    else
      var (key, q) :- ReadLengthPrefixed(s, p, KeyBeyondBuffer);
      var (v, e) :- ParseOne(s, q);
      EmplaceExtends(acc, key, v);
      Success((Emplace(acc, key, v), e))
  }

  /** `parseList`: 'l', then values until 'e'. */
  function ParseList(s: Bytes, pos: nat): (r: Result<(BNode, nat)>)
    ensures r.Success? ==> pos < r.value.1 <= |s| && r.value.0.List?
    ensures r.Success? ==> s[pos] == LIST_START && s[r.value.1 - 1] == END
    decreases |s| - pos, 1
  {
    if pos >= |s| then Failure(UnexpectedEnd)
    else if s[pos] != LIST_START then Failure(UnexpectedByte(LIST_START, s[pos]))
    else ParseListItems(s, pos + 1, NewNode(LIST).items)
  }

  /** The loop of `parseList` from cursor `p`, with the items `acc` read so far. */
  function ParseListItems(s: Bytes, p: nat, acc: seq<BNode>): (r: Result<(BNode, nat)>)
    ensures r.Success? ==> p < r.value.1 <= |s| && r.value.0.List?
    ensures r.Success? ==> s[r.value.1 - 1] == END && acc <= r.value.0.items
    decreases |s| - p, 3
  {
    if p >= |s| then Failure(UnexpectedEnd)
    else if s[p] == END then Success((List(acc), p + 1))
    else
      var (v, q) :- ParseOne(s, p);
      ParseListItems(s, q, acc + [v])
  }

  /**
   `parseInt`: 'i', an optional '-', a run of digits (possibly with leading
   zeros, and "-0" is accepted), then 'e'.
   */
  function ParseInt(s: Bytes, pos: nat): (r: Result<(BNode, nat)>)
    ensures r.Success? ==> pos + 3 <= r.value.1 <= |s| && r.value.0.Int?
  {
    if pos >= |s| then Failure(UnexpectedEnd)
    else if s[pos] != INT_START then Failure(UnexpectedByte(INT_START, s[pos]))
    else if pos + 1 >= |s| then Failure(UnexpectedEnd)
    else
      var negative := s[pos + 1] == MINUS;
      var d := if negative then pos + 2 else pos + 1;
      var q := DigitRunEnd(s, d);
      if q == d then Failure(IntegerNoDigits)
      else if q >= |s| then Failure(UnexpectedEnd)
      else if s[q] != END then Failure(UnexpectedByte(END, s[q]))
      else
        DigitRunIsDigits(s, d);
        var magnitude: int := DecimalValue(s[d..q]);
        Success((Int(if negative then -magnitude else magnitude), q + 1))
  }

  /** `parseString`: a length-prefixed byte string. */
  function ParseString(s: Bytes, pos: nat): (r: Result<(BNode, nat)>)
    ensures r.Success? ==> pos < r.value.1 <= |s| && r.value.0.Str?
  {
    var (bytes, e) :- ReadLengthPrefixed(s, pos, StringBeyondBuffer);
    Success((Str(bytes), e))
  }

  /**
   A decimal length `n`, ':', then exactly `n` raw bytes, as `parseString`
   and the key part of `parseDict` read it; `overrun` is the error thrown
   when the `n` bytes run past the end of the buffer.
   */
  function ReadLengthPrefixed(s: Bytes, p: nat, overrun: BtError): (r: Result<(Bytes, nat)>)
    ensures r.Success? ==> p < r.value.1 <= |s|
  {
    var q := DigitRunEnd(s, p);
    if q >= |s| then Failure(UnexpectedEnd)
    else if s[q] != COLON then Failure(UnexpectedByte(COLON, s[q]))
    else
      DigitRunIsDigits(s, p);
      var n := DecimalValue(s[p..q]);
      if q + 1 + n > |s| then Failure(overrun)
      else Success((s[q + 1..q + 1 + n], q + 1 + n))
  }
}
