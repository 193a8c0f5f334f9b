/**
 The bencode parse tree of bencode_parser.h, the error the C++ code throws
 (`BtException`) and the result type that replaces the throw.

 A `BNode` in the C++ code carries a type tag and four payload fields of
 which only the one matching the tag is used. Here the tag and the payload
 are one sum type, so "exactly one of four types, and only the matching
 payload is meaningful" holds by construction.

 The C++ dictionary is a `std::unordered_map`, whose iteration order is
 unspecified. It is modelled as an association sequence in insertion order
 with pairwise distinct keys (`WellFormed`).
 */
module Bencode {

  /** One byte of the buffer (the C++ `char`, read as unsigned). */
  type byte = x: int | 0 <= x < 256

  type Bytes = seq<byte>

  const DICT_START: byte := 100 // 'd'
  const LIST_START: byte := 108 // 'l'
  const INT_START: byte := 105  // 'i'
  const END: byte := 101        // 'e'
  const COLON: byte := 58       // ':'
  const MINUS: byte := 45       // '-'
  const ZERO: byte := 48        // '0'

  /** `std::isdigit` on an unsigned byte in the "C" locale. */
  predicate IsDigit(b: byte) {
    ZERO <= b <= ZERO + 9
  }

  /** The bytes `w` appear in `s` starting at position `pos`. */
  predicate Occurs(w: Bytes, s: Bytes, pos: nat) {
    && pos + |w| <= |s|
    && forall k :: 0 <= k < |w| ==> s[pos + k] == w[k]
  }

  /** Bytes `u + v` at `pos` are `u` at `pos` followed by `v`. */
  lemma OccursSplit(u: Bytes, v: Bytes, s: Bytes, pos: nat)
    requires Occurs(u + v, s, pos)
    ensures Occurs(u, s, pos) && Occurs(v, s, pos + |u|)
  {
    forall k | 0 <= k < |u|
      ensures s[pos + k] == u[k]
    {
      assert (u + v)[k] == u[k];
    }
    forall k | 0 <= k < |v|
      ensures s[pos + |u| + k] == v[k]
    {
      assert (u + v)[|u| + k] == v[k];
    }
  }

  /** One byte of an occurrence. */
  lemma OccursAt(w: Bytes, s: Bytes, pos: nat, k: nat)
    requires Occurs(w, s, pos) && k < |w|
    ensures s[pos + k] == w[k]
  {
  }

  /** The tag `BNodeType` of a node. */
  datatype NodeType = DICT | LIST | INT | STRING

  /** One entry of a dictionary: a raw byte-string key and its value. */
  type Entry = (Bytes, BNode)

  datatype BNode =
    | Dict(entries: seq<Entry>)
    | List(items: seq<BNode>)
    | Int(intValue: int)
    | Str(bytes: Bytes)
  {
    function Type(): NodeType {
      match this
      case Dict(_) => DICT
      case List(_) => LIST
      case Int(_) => INT
      case Str(_) => STRING
    }
  }

  /**
   A freshly constructed node of the given type, `BNode(BNodeType t)`:
   the integer payload is 0 and the string and container payloads are empty.
   */
  function NewNode(t: NodeType): (n: BNode)
    ensures n.Type() == t
    ensures n.Int? ==> n.intValue == 0
    ensures n.Str? ==> |n.bytes| == 0
    ensures n.List? ==> |n.items| == 0
    ensures n.Dict? ==> |n.entries| == 0
  {
    match t
    case DICT => Dict([])
    case LIST => List([])
    case INT => Int(0)
    case STRING => Str([])
  }

  /** The keys of an association sequence, in order. */
  function KeysOf(es: seq<Entry>): (ks: seq<Bytes>)
    ensures |ks| == |es|
    ensures forall i :: 0 <= i < |es| ==> ks[i] == es[i].0
  {
    if |es| == 0 then [] else [es[0].0] + KeysOf(es[1..])
  }

  /** No key occurs twice, as in a `std::unordered_map`. */
  predicate DistinctKeys(es: seq<Entry>) {
    forall i, j :: 0 <= i < j < |es| ==> es[i].0 != es[j].0
  }

  /** Every dictionary in the tree, at any depth, has distinct keys. */
  predicate WellFormed(n: BNode) {
    match n
    case Dict(es) =>
      && DistinctKeys(es)
      && forall i :: 0 <= i < |es| ==> WellFormed(es[i].1)
    case List(items) => forall i :: 0 <= i < |items| ==> WellFormed(items[i])
    case Int(_) => true
    case Str(_) => true
  }

  /**
   The value stored under `key`, as `unordered_map::find` gives it; with
   distinct keys the first match is the only match.
   */
  function Find(es: seq<Entry>, key: Bytes): (r: Option<BNode>)
    ensures r.None? <==> key !in KeysOf(es)
    ensures r.Some? ==> (key, r.value) in es
  {
    if |es| == 0 then None
    else if es[0].0 == key then Some(es[0].1)
    else Find(es[1..], key)
  }

  /**
   `unordered_map::emplace`: inserts the entry only when the key is not yet
   present, so the first occurrence of a key wins. The walk stops at an
   entry with the same key and otherwise appends at the end.
   */
  function Emplace(es: seq<Entry>, key: Bytes, v: BNode): seq<Entry> {
    if |es| == 0 then [(key, v)]
    else if es[0].0 == key then es
    else [es[0]] + Emplace(es[1..], key, v)
  }

  /** `emplace` never removes or reorders entries: it adds at most one, at the end. */
  lemma {:induction false} EmplaceExtends(es: seq<Entry>, key: Bytes, v: BNode)
    ensures es <= Emplace(es, key, v)
    ensures |Emplace(es, key, v)| <= |es| + 1
  {
    if |es| > 0 && es[0].0 != key {
      EmplaceExtends(es[1..], key, v);
      assert es == [es[0]] + es[1..];
    }
  }

  /** A fresh key is appended after the existing entries. */
  lemma {:induction false} EmplaceFresh(es: seq<Entry>, key: Bytes, v: BNode)
    requires key !in KeysOf(es)
    ensures Emplace(es, key, v) == es + [(key, v)]
  {
    if |es| > 0 {
      assert KeysOf(es)[0] == es[0].0;
      assert KeysOf(es[1..]) == KeysOf(es)[1..];
      EmplaceFresh(es[1..], key, v);
      assert [es[0]] + (es[1..] + [(key, v)]) == es + [(key, v)];
    }
  }

  /** A key that is already present leaves the entries unchanged. */
  lemma {:induction false} EmplacePresent(es: seq<Entry>, key: Bytes, v: BNode)
    requires key in KeysOf(es)
    ensures Emplace(es, key, v) == es
  {
    assert |es| > 0;
    if es[0].0 != key {
      assert KeysOf(es) == [es[0].0] + KeysOf(es[1..]);
      EmplacePresent(es[1..], key, v);
      assert [es[0]] + es[1..] == es;
    }
  }

  /**
   What `emplace` promises: afterwards the key is present; its value is the
   one already stored if there was one and `v` otherwise; every other key
   finds what it found before; and keys stay pairwise distinct.
   */
  lemma EmplaceFind(es: seq<Entry>, key: Bytes, v: BNode)
    ensures key in KeysOf(Emplace(es, key, v))
    ensures Find(es, key).Some? ==> Find(Emplace(es, key, v), key) == Find(es, key)
    ensures Find(es, key).None? ==> Find(Emplace(es, key, v), key) == Some(v)
    ensures forall k :: k != key ==> Find(Emplace(es, key, v), k) == Find(es, k)
    ensures DistinctKeys(es) ==> DistinctKeys(Emplace(es, key, v))
  {
    if key in KeysOf(es) {
      EmplacePresent(es, key, v);
    } else {
      EmplaceFresh(es, key, v);
      AppendFresh(es, (key, v));
      if DistinctKeys(es) {
        var r := es + [(key, v)];
        forall i, j | 0 <= i < j < |r|
          ensures r[i].0 != r[j].0
        {
          if j == |es| {
            assert KeysOf(es)[i] == es[i].0;
          }
        }
      }
    }
  }

  /** Appending an entry under a fresh key makes it findable and hides nothing. */
  lemma AppendFresh(es: seq<Entry>, e: Entry)
    requires e.0 !in KeysOf(es)
    ensures Find(es + [e], e.0) == Some(e.1)
    ensures forall k :: k != e.0 ==> Find(es + [e], k) == Find(es, k)
    ensures KeysOf(es + [e]) == KeysOf(es) + [e.0]
  {
    FindAppendNew(es, e);
    forall k | k != e.0
      ensures Find(es + [e], k) == Find(es, k)
    {
      FindAppendOther(es, e, k);
    }
  }

  lemma {:induction false} FindAppendNew(es: seq<Entry>, e: Entry)
    requires e.0 !in KeysOf(es)
    ensures Find(es + [e], e.0) == Some(e.1)
  {
    if |es| > 0 {
      assert (es + [e])[1..] == es[1..] + [e];
      assert KeysOf(es)[0] == es[0].0;
      assert KeysOf(es[1..]) == KeysOf(es)[1..];
      FindAppendNew(es[1..], e);
    }
  }

  lemma {:induction false} FindAppendOther(es: seq<Entry>, e: Entry, k: Bytes)
    requires k != e.0
    ensures Find(es + [e], k) == Find(es, k)
  {
    if |es| > 0 {
      assert (es + [e])[1..] == es[1..] + [e];
      FindAppendOther(es[1..], e, k);
    }
  }

  /** With distinct keys, the lookup finds the one entry under the key. */
  lemma {:induction false} FindDistinct(es: seq<Entry>, i: nat)
    requires DistinctKeys(es) && i < |es|
    ensures Find(es, es[i].0) == Some(es[i].1)
  {
    if i > 0 {
      assert es[0].0 != es[i].0;
      assert es[1..][i - 1] == es[i];
      FindDistinct(es[1..], i - 1);
    }
  }

  /**
   Two dictionaries with distinct keys that hold the same entries, in any
   order, answer every lookup alike: the stored order, which the C++
   `unordered_map` leaves unspecified, is invisible to lookups.
   */
  lemma LookupOrderIndependent(es: seq<Entry>, es': seq<Entry>, key: Bytes)
    requires DistinctKeys(es) && DistinctKeys(es')
    requires forall e :: e in es <==> e in es'
    ensures Find(es, key) == Find(es', key)
  {
    if Find(es, key).Some? {
      var i :| 0 <= i < |es'| && es'[i] == (key, Find(es, key).value);
      FindDistinct(es', i);
    }
  }

  datatype Option<+T> = None | Some(value: T)

  /** Every way the C++ code throws `BtException` in the modelled core. */
  datatype BtError =
    | UnexpectedEnd                                  // peekChar at or past the end
    | UnexpectedByte(expected: byte, actual: byte)   // expectChar mismatch
    | InvalidStart(actual: byte)                     // parseOne: no production starts with it
    | KeyNotDigitString                              // parseDict: key does not start with a digit
    | KeyBeyondBuffer                                // parseDict: key length runs past the end
    | IntegerNoDigits                                // parseInt: no digit after 'i' / "i-"
    | StringBeyondBuffer                             // parseString: length runs past the end
    | NotADictionary                                 // reencodeDict on a non-dict
    | TopLevelNotDict                                // loadTorrentInfo: root is not a dict
    | MissingInfoDict                                // loadTorrentInfo: no "info" dict

  /** Either a value or the exception that aborted the computation. */
  datatype Result<+T> = Success(value: T) | Failure(error: BtError) {
    predicate IsFailure() {
      Failure?
    }

    function PropagateFailure<U>(): Result<U>
      requires Failure?
    {
      Failure(error)
    }

    function Extract(): T
      requires Success?
    {
      value
    }
  }
}
