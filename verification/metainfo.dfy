/**
 The metainfo extractor of torrent_info.cpp (`loadTorrentInfo` after the
 file has been read): the root must be a dictionary holding an `info`
 dictionary; the other fields are copied only when present with the
 expected node type and otherwise keep their defaults; the info hash is the
 SHA-1 digest of the re-encoded `info` dictionary.

 SHA-1 (OpenSSL, `computeSha1`) is a parameter: any function that returns
 a 20-byte digest. Reading the file is left out; the extractor starts from
 the bytes of the file.
 */
module TorrentMetainfo {
  import opened Bencode
  import opened BencodeParser
  import opened BencodeWriter
  import opened BencodeWellFormed
  import opened BencodeRoundTrip

  /** `SHA_DIGEST_LENGTH`. */
  const SHA_DIGEST_LENGTH: nat := 20

  type Digest = d: Bytes | |d| == SHA_DIGEST_LENGTH witness seq(SHA_DIGEST_LENGTH, _ => 0)

  /** `TorrentFileInfo`: what the extractor reads from the `info` dictionary. */
  datatype TorrentFileInfo = TorrentFileInfo(
    infoHash: Bytes,
    pieceLength: int,
    pieceHashes: Bytes,
    fileName: Bytes,
    fileSize: int,
    pieceCount: int)

  /** `TorrentInfo`: the descriptor `loadTorrentInfo` returns. */
  datatype TorrentInfo = TorrentInfo(
    announceUrl: Bytes,
    fileData: TorrentFileInfo,
    creationTime: int,
    comments: Bytes,
    createdBy: Bytes,
    encoding: Bytes)

  /** The member initialisers of torrent_info.h: zero and empty. */
  const DEFAULT_FILE_INFO := TorrentFileInfo([], 0, [], [], 0, 0)
  const DEFAULT_TORRENT_INFO := TorrentInfo([], DEFAULT_FILE_INFO, 0, [], [], [])

  const ANNOUNCE: Bytes := [97, 110, 110, 111, 117, 110, 99, 101] // "announce"
  const CREATION_DATE: Bytes := [99, 114, 101, 97, 116, 105, 111, 110, 32, 100, 97, 116, 101] // "creation date"
  const COMMENT: Bytes := [99, 111, 109, 109, 101, 110, 116] // "comment"
  const CREATED_BY: Bytes := [99, 114, 101, 97, 116, 101, 100, 32, 98, 121] // "created by"
  const ENCODING: Bytes := [101, 110, 99, 111, 100, 105, 110, 103] // "encoding"
  const INFO: Bytes := [105, 110, 102, 111] // "info"
  const PIECE_LENGTH: Bytes := [112, 105, 101, 99, 101, 32, 108, 101, 110, 103, 116, 104] // "piece length"
  const PIECES: Bytes := [112, 105, 101, 99, 101, 115] // "pieces"
  const NAME: Bytes := [110, 97, 109, 101] // "name"
  const LENGTH: Bytes := [108, 101, 110, 103, 116, 104] // "length"

  const INT_MIN: int := -0x8000_0000
  const INT_MAX: int := 0x7FFF_FFFF

  /**
   The `(int)` conversion of the parsed integer to a 32-bit `int`: the one
   value in range that is congruent to `x` modulo 2^32.
   */
  function ToInt(x: int): (r: int)
    ensures INT_MIN <= r <= INT_MAX
    ensures (x - r) % 0x1_0000_0000 == 0
    ensures INT_MIN <= x <= INT_MAX ==> r == x
  {
    (x - INT_MIN) % 0x1_0000_0000 + INT_MIN
  }

  /**
   `dictLookup`: nothing for a missing or non-dictionary node or an absent
   key, otherwise the value stored under the key.
   */
  function DictLookup(node: Option<BNode>, key: Bytes): (r: Option<BNode>)
    ensures r.Some? <==> node.Some? && node.value.Dict? && key in KeysOf(node.value.entries)
    ensures r.Some? ==> (key, r.value) in node.value.entries
  {
    match node
    case Some(Dict(es)) => Find(es, key)
    case _ => None
  }

  /** A string field: copied when the key holds a STRING node, `otherwise` if not. */
  function StringField(d: BNode, key: Bytes, otherwise: Bytes): Bytes {
    match DictLookup(Some(d), key)
    case Some(Str(b)) => b
    case _ => otherwise
  }

  /** An integer field: converted to `int` when the key holds an INT node, `otherwise` if not. */
  function IntField(d: BNode, key: Bytes, otherwise: int): int {
    match DictLookup(Some(d), key)
    case Some(Int(i)) => ToInt(i)
    case _ => otherwise
  }

  /**
   `value` is what a permissive reader takes from `key` in the entries `es`:
   the payload of the entry under `key` when that entry is a STRING node,
   and `otherwise` when the key is absent or holds another type.
   */
  predicate ReadsString(es: seq<Entry>, key: Bytes, value: Bytes, otherwise: Bytes) {
    && (key !in KeysOf(es) ==> value == otherwise)
    && forall i :: 0 <= i < |es| && es[i].0 == key ==>
         value == (if es[i].1.Str? then es[i].1.bytes else otherwise)
  }

  /** The same for an integer field, with the `(int)` conversion. */
  predicate ReadsInt(es: seq<Entry>, key: Bytes, value: int, otherwise: int) {
    && (key !in KeysOf(es) ==> value == otherwise)
    && forall i :: 0 <= i < |es| && es[i].0 == key ==>
         value == (if es[i].1.Int? then ToInt(es[i].1.intValue) else otherwise)
  }

  /**
   `ceil(a / b)` for a positive `b`, computed exactly: the smallest `r` with
   `a <= r * b`.
   */
  function CeilDiv(a: int, b: int): (r: int)
    requires b > 0
    ensures (r - 1) * b < a <= r * b
  {
    -((-a) / b)
  }

  /**
   `pieceCount` is the number of pieces of `pieceLength` bytes needed to
   hold `fileSize` bytes when the piece length is positive, and stays at
   its default 0 otherwise.
   */
  predicate CountsPieces(pieceLength: int, fileSize: int, pieceCount: int) {
    && (pieceLength > 0 ==> (pieceCount - 1) * pieceLength < fileSize <= pieceCount * pieceLength)
    && (pieceLength <= 0 ==> pieceCount == 0)
  }

  /** `pieceCount`: `ceil(fileSize / pieceLength)` when the piece length is positive. */
  function PieceCount(pieceLength: int, fileSize: int): (n: int)
    ensures CountsPieces(pieceLength, fileSize, n)
  {
    if pieceLength > 0 then CeilDiv(fileSize, pieceLength) else DEFAULT_FILE_INFO.pieceCount
  }

  /** The root is a dictionary whose `info` entry is a dictionary. */
  predicate HasInfoDict(root: BNode) {
    root.Dict? && Find(root.entries, INFO).Some? && Find(root.entries, INFO).value.Dict?
  }

  /** The extraction part of `loadTorrentInfo`, from the parsed root node. */
  function ExtractTorrentInfo(root: BNode, sha1: Bytes -> Digest): (r: Result<TorrentInfo>)
    ensures r.Success? <==> HasInfoDict(root)
    ensures !root.Dict? ==> r == Failure(TopLevelNotDict)
    ensures root.Dict? && !HasInfoDict(root) ==> r == Failure(MissingInfoDict)
    ensures r.Success? ==> |r.value.fileData.infoHash| == SHA_DIGEST_LENGTH
    ensures r.Success? ==>
      r.value.fileData.infoHash == sha1(WriteBNode(Find(root.entries, INFO).value))
    ensures r.Success? ==>
      var f := r.value.fileData;
      CountsPieces(f.pieceLength, f.fileSize, f.pieceCount)
  {
    if !root.Dict? then Failure(TopLevelNotDict)
    else
      var info := DictLookup(Some(root), INFO);
      if info.None? || !info.value.Dict? then Failure(MissingInfoDict)
      else
        var infoData := ReencodeDict(info.value).value;
        var d := DEFAULT_TORRENT_INFO;
        var pieceLength := IntField(info.value, PIECE_LENGTH, d.fileData.pieceLength);
        var fileSize := IntField(info.value, LENGTH, d.fileData.fileSize);
        var fileData := TorrentFileInfo(
          infoHash := sha1(infoData),
          pieceLength := pieceLength,
          pieceHashes := StringField(info.value, PIECES, d.fileData.pieceHashes),
          fileName := StringField(info.value, NAME, d.fileData.fileName),
          fileSize := fileSize,
          pieceCount := PieceCount(pieceLength, fileSize));
        Success(TorrentInfo(
          announceUrl := StringField(root, ANNOUNCE, d.announceUrl),
          fileData := fileData,
          creationTime := IntField(root, CREATION_DATE, d.creationTime),
          comments := StringField(root, COMMENT, d.comments),
          createdBy := StringField(root, CREATED_BY, d.createdBy),
          encoding := StringField(root, ENCODING, d.encoding)))
  }

  /**
   `loadTorrentInfo` on the bytes of a torrent file: parse them (bytes after
   the root value are ignored), then extract. Fails with the parse error or
   the extraction error.
   */
  function LoadTorrentInfo(data: Bytes, sha1: Bytes -> Digest): (r: Result<TorrentInfo>)
    ensures Parse(data).Failure? ==> r == Failure(Parse(data).error)
    ensures r.Success? <==> Parse(data).Success? && HasInfoDict(Parse(data).value.0)
  {
    var (root, _) :- Parse(data);
    ExtractTorrentInfo(root, sha1)
  }

  lemma StringFieldReads(d: BNode, key: Bytes, otherwise: Bytes)
    requires d.Dict? && DistinctKeys(d.entries)
    ensures ReadsString(d.entries, key, StringField(d, key, otherwise), otherwise)
  {
    forall i | 0 <= i < |d.entries| && d.entries[i].0 == key {
      FindDistinct(d.entries, i);
    }
  }

  lemma IntFieldReads(d: BNode, key: Bytes, otherwise: int)
    requires d.Dict? && DistinctKeys(d.entries)
    ensures ReadsInt(d.entries, key, IntField(d, key, otherwise), otherwise)
  {
    forall i | 0 <= i < |d.entries| && d.entries[i].0 == key {
      FindDistinct(d.entries, i);
    }
  }

  /**
   Every field of the descriptor is read permissively from the root or the
   `info` dictionary, keeping its default when absent or of another type.
   */
  predicate FieldsRead(root: BNode, info: BNode, t: TorrentInfo)
    requires root.Dict? && info.Dict?
  {
    && ReadsString(root.entries, ANNOUNCE, t.announceUrl, [])
    && ReadsInt(root.entries, CREATION_DATE, t.creationTime, 0)
    && ReadsString(root.entries, COMMENT, t.comments, [])
    && ReadsString(root.entries, CREATED_BY, t.createdBy, [])
    && ReadsString(root.entries, ENCODING, t.encoding, [])
    && ReadsInt(info.entries, PIECE_LENGTH, t.fileData.pieceLength, 0)
    && ReadsString(info.entries, PIECES, t.fileData.pieceHashes, [])
    && ReadsString(info.entries, NAME, t.fileData.fileName, [])
    && ReadsInt(info.entries, LENGTH, t.fileData.fileSize, 0)
  }

  /** On a tree with distinct keys, extraction reads every field as `FieldsRead` says. */
  lemma ExtractedFields(root: BNode, sha1: Bytes -> Digest)
    requires WellFormed(root) && HasInfoDict(root)
    ensures var info := Find(root.entries, INFO).value;
      && (INFO, info) in root.entries
      && FieldsRead(root, info, ExtractTorrentInfo(root, sha1).value)
  {
    var info := Find(root.entries, INFO).value;
    assert WellFormed(info) by {
      var i :| 0 <= i < |root.entries| && root.entries[i] == (INFO, info);
    }
    var t := ExtractTorrentInfo(root, sha1).value;
    assert t.announceUrl == StringField(root, ANNOUNCE, []);
    assert t.creationTime == IntField(root, CREATION_DATE, 0);
    assert t.comments == StringField(root, COMMENT, []);
    assert t.createdBy == StringField(root, CREATED_BY, []);
    assert t.encoding == StringField(root, ENCODING, []);
    assert t.fileData.pieceLength == IntField(info, PIECE_LENGTH, 0);
    assert t.fileData.pieceHashes == StringField(info, PIECES, []);
    assert t.fileData.fileName == StringField(info, NAME, []);
    assert t.fileData.fileSize == IntField(info, LENGTH, 0);
    StringFieldReads(root, ANNOUNCE, []);
    IntFieldReads(root, CREATION_DATE, 0);
    StringFieldReads(root, COMMENT, []);
    StringFieldReads(root, CREATED_BY, []);
    StringFieldReads(root, ENCODING, []);
    IntFieldReads(info, PIECE_LENGTH, 0);
    StringFieldReads(info, PIECES, []);
    StringFieldReads(info, NAME, []);
    IntFieldReads(info, LENGTH, 0);
  }

  /**
   What a successful load promises about the file: it parses to a root
   dictionary whose `info` entry is a dictionary; every field is read as
   `FieldsRead` says; and the hashed bytes are an encoding of that `info`
   dictionary that parses back to it.
   */
  lemma LoadedTorrent(data: Bytes, sha1: Bytes -> Digest)
    ensures LoadTorrentInfo(data, sha1).Success? ==>
      var t := LoadTorrentInfo(data, sha1).value;
      var root := Parse(data).value.0;
      var info := Find(root.entries, INFO).value;
      && info.Dict? && (INFO, info) in root.entries
      && FieldsRead(root, info, t)
      && t.fileData.infoHash == sha1(WriteBNode(info))
      && Parse(WriteBNode(info)) == Success((info, |WriteBNode(info)|))
  {
    if LoadTorrentInfo(data, sha1).Success? {
      var root := Parse(data).value.0;
      var info := Find(root.entries, INFO).value;
      ParseWellFormed(data);
      ExtractedFields(root, sha1);
      assert WellFormed(info) by {
        var i :| 0 <= i < |root.entries| && root.entries[i] == (INFO, info);
      }
      RoundTrip(info, []);
      assert WriteBNode(info) + [] == WriteBNode(info);
    }
  }

  /**
   Loading the encoding of a tree with distinct keys, followed by any bytes,
   extracts exactly what the tree holds.
   */
  lemma LoadWrittenTorrent(root: BNode, rest: Bytes, sha1: Bytes -> Digest)
    requires WellFormed(root)
    ensures LoadTorrentInfo(WriteBNode(root) + rest, sha1) == ExtractTorrentInfo(root, sha1)
  {
    RoundTrip(root, rest);
  }
}
