/**
 The re-encoder of torrent_info.cpp: `writeBNode` serialises a tree back to
 bencode, and `reencodeDict` does the same for a node that must be a
 dictionary. Dictionary entries are written in the stored order of the
 association sequence; the C++ code iterates an `std::unordered_map`, so its
 order is unspecified and in general not the sorted-key order that section
 "Bencoding" of BEP 3 asks for.
 */
module BencodeWriter {
  import opened Bencode
  import opened Decimal

  /** `<len>:<bytes>`, the form of both a STRING node and a dictionary key. */
  function WriteString(b: Bytes): (out: Bytes)
    ensures |out| > |b| && IsDigit(out[0])
  {
    NatToDecimal(|b|) + [COLON] + b
  }

  /** `writeBNode`. */
  function WriteBNode(n: BNode): (out: Bytes)
    ensures |out| > 0
    ensures n.Dict? <==> out[0] == DICT_START
    ensures n.List? <==> out[0] == LIST_START
    ensures n.Int? <==> out[0] == INT_START
    ensures n.Str? <==> IsDigit(out[0])
    decreases n, 1
  {
    match n
    case Dict(es) => [DICT_START] + WriteEntries(es) + [END]
    case List(items) => [LIST_START] + WriteItems(items) + [END]
    case Int(i) => [INT_START] + IntToDecimal(i) + [END]
    case Str(b) => WriteString(b)
  }

  /** The list items in stored order, each written by `WriteBNode`. */
  function WriteItems(items: seq<BNode>): (out: Bytes)
    ensures |items| == 0 <==> |out| == 0
    decreases items, 0
  {
    if |items| == 0 then []
    else WriteBNode(items[0]) + WriteItems(items[1..])
  }

  /** The dictionary entries in stored order, each as `<keylen>:<key><value>`. */
  function WriteEntries(es: seq<Entry>): (out: Bytes)
    ensures |es| == 0 <==> |out| == 0
    decreases es, 0
  {
    if |es| == 0 then []
    else
      var (key, v) := es[0];
      assert v < es[0];
      WriteString(key) + WriteBNode(v) + WriteEntries(es[1..])
  }

  /** `reencodeDict`: the bytes of `writeBNode`, or an error for a non-dictionary. */
  function ReencodeDict(n: BNode): (r: Result<Bytes>)
    ensures r.Success? <==> n.Dict?
    ensures r.Failure? ==> r.error == NotADictionary
    ensures r.Success? ==> r.value == WriteBNode(n)
  {
    match n
    case Dict(es) => Success([DICT_START] + WriteEntries(es) + [END])
    case _ => Failure(NotADictionary)
  }
}
