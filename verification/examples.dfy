/**
 Concrete inputs and what the model does with them: the worked examples
 of section "Bencoding" of BEP 3, edge cases the C++ parser accepts, and
 the errors it throws. Byte strings are written as numbers with their
 ASCII text in a comment.
 */
module BencodeExamples {
  import opened Bencode
  import opened Decimal
  import opened BencodeParser
  import opened BencodeParserSteps
  import opened BencodeWriter
  import opened BencodeRoundTrip
  import opened TorrentMetainfo

  /** "4:spam" is the byte string "spam". */
  lemma ParseStringExample()
    ensures Parse([52, 58, 115, 112, 97, 109]) == Success((Str([115, 112, 97, 109]), 6))
  {
    var s: Bytes := [52, 58, 115, 112, 97, 109];
    assert DigitRunEnd(s, 0) == 1;
    assert s[0..1] == [52];
    assert DecimalValue([52]) == 4 by { assert [52][..0] == []; }
    assert s[2..6] == [115, 112, 97, 109];
  }

  /** "i-42e" is the integer -42. */
  lemma ParseNegativeIntExample()
    ensures Parse([105, 45, 52, 50, 101]) == Success((Int(-42), 5))
  {
    var s: Bytes := [105, 45, 52, 50, 101];
    assert DigitRunEnd(s, 2) == 4;
    assert s[2..4] == [52, 50];
    assert DecimalValue([52, 50]) == 42 by {
      assert [52, 50][..1] == [52];
      assert [52][..0] == [];
    }
  }

  /** Leading zeros are accepted: "i007e" is 7. */
  lemma ParseLeadingZerosExample()
    ensures Parse([105, 48, 48, 55, 101]) == Success((Int(7), 5))
  {
    var s: Bytes := [105, 48, 48, 55, 101];
    assert DigitRunEnd(s, 1) == 4;
    assert s[1..4] == [48, 48, 55];
    assert DecimalValue([48, 48, 55]) == 7 by {
      assert [48, 48, 55][..2] == [48, 48];
      assert [48, 48][..1] == [48];
      assert [48][..0] == [];
    }
  }

  /** Negative zero is accepted: "i-0e" is 0. */
  lemma ParseNegativeZeroExample()
    ensures Parse([105, 45, 48, 101]) == Success((Int(0), 4))
  {
    var s: Bytes := [105, 45, 48, 101];
    assert DigitRunEnd(s, 2) == 3;
    assert s[2..3] == [48];
    assert DecimalValue([48]) == 0 by { assert [48][..0] == []; }
  }

  /** "ie" and "i-e" have no digits. */
  lemma ParseIntegerNoDigitsExamples()
    ensures Parse([105, 101]) == Failure(IntegerNoDigits)
    ensures Parse([105, 45, 101]) == Failure(IntegerNoDigits)
  {
    assert DigitRunEnd([105, 101], 1) == 1;
    assert DigitRunEnd([105, 45, 101], 2) == 2;
  }

  /** "i12" ends inside the digit run, before the closing 'e'. */
  lemma ParseUnterminatedIntExample()
    ensures Parse([105, 49, 50]) == Failure(UnexpectedEnd)
  {
    var s: Bytes := [105, 49, 50];
    assert DigitRunEnd(s, 3) == 3;
    assert DigitRunEnd(s, 1) == 3;
  }

  /**
   "12" ends inside the length digits, where `peekChar` runs off the buffer;
   "1x" has a non-digit where the ':' is expected.
   */
  lemma ParseUnterminatedLengthExamples()
    ensures Parse([49, 50]) == Failure(UnexpectedEnd)
    ensures Parse([49, 120]) == Failure(UnexpectedByte(COLON, 120))
  {
    assert DigitRunEnd([49, 50], 0) == 2;
    assert DigitRunEnd([49, 120], 0) == 1;
  }

  /** "5:abc" declares more bytes than the buffer holds. */
  lemma ParseStringOverrunExample()
    ensures Parse([53, 58, 97, 98, 99]) == Failure(StringBeyondBuffer)
  {
    var s: Bytes := [53, 58, 97, 98, 99];
    assert DigitRunEnd(s, 0) == 1;
    assert s[0..1] == [53];
    assert DecimalValue([53]) == 5 by { assert [53][..0] == []; }
  }

  /** The empty buffer, an unterminated list "l", and a byte no value starts with, "x". */
  lemma ParseEndAndStartErrorExamples()
    ensures Parse([]) == Failure(UnexpectedEnd)
    ensures Parse([108]) == Failure(UnexpectedEnd)
    ensures Parse([120]) == Failure(InvalidStart(120))
  {
    OneList([108], 0);
  }

  /** "le" is the empty list, "de" the empty dictionary. */
  lemma ParseEmptyContainersExample()
    ensures Parse([108, 101]) == Success((List([]), 2))
    ensures Parse([100, 101]) == Success((Dict([]), 2))
  {
    OneList([108, 101], 0);
    OneDict([100, 101], 0);
  }

  /** "d3:cowe": a key with no value fails where the value should start, at 'e'. */
  lemma ParseMissingValueExample()
    ensures Parse([100, 51, 58, 99, 111, 119, 101]) == Failure(InvalidStart(101))
  {
    var s: Bytes := [100, 51, 58, 99, 111, 119, 101];
    OneDict(s, 0);
    assert DigitRunEnd(s, 1) == 2;
    assert s[1..2] == [51];
    assert DecimalValue([51]) == 3 by { assert [51][..0] == []; }
    assert ParseOne(s, 6) == Failure(InvalidStart(101));
  }

  /** "di1ei2ee": an integer key is rejected. */
  lemma ParseIntegerKeyExample()
    ensures Parse([100, 105, 49, 101, 105, 50, 101, 101]) == Failure(KeyNotDigitString)
  {
    OneDict([100, 105, 49, 101, 105, 50, 101, 101], 0);
  }

  /** "d9:ae": the key length runs past the end of the buffer. */
  lemma ParseKeyOverrunExample()
    ensures Parse([100, 57, 58, 97, 101]) == Failure(KeyBeyondBuffer)
  {
    var s: Bytes := [100, 57, 58, 97, 101];
    OneDict(s, 0);
    assert DigitRunEnd(s, 1) == 2;
    assert s[1..2] == [57];
    assert DecimalValue([57]) == 9 by { assert [57][..0] == []; }
  }

  /** "d1:ai1e1:ai2ee": the key "a" twice, first with 1, then with 2. */
  const DUPLICATE_KEY: Bytes := [100, 49, 58, 97, 105, 49, 101, 49, 58, 97, 105, 50, 101, 101]

  lemma DuplicateKeyParts()
    ensures ReadLengthPrefixed(DUPLICATE_KEY, 1, KeyBeyondBuffer) == Success(([97], 4))
    ensures ReadLengthPrefixed(DUPLICATE_KEY, 7, KeyBeyondBuffer) == Success(([97], 10))
    ensures ParseOne(DUPLICATE_KEY, 4) == Success((Int(1), 7))
    ensures ParseOne(DUPLICATE_KEY, 10) == Success((Int(2), 13))
  {
    var s := DUPLICATE_KEY;
    assert DecimalValue([49]) == 1 by { assert [49][..0] == []; }
    assert DecimalValue([50]) == 2 by { assert [50][..0] == []; }
    assert DigitRunEnd(s, 1) == 2 && s[1..2] == [49] && s[3..4] == [97];
    assert DigitRunEnd(s, 7) == 8 && s[7..8] == [49] && s[9..10] == [97];
    assert DigitRunEnd(s, 5) == 6 && s[5..6] == [49];
    assert DigitRunEnd(s, 11) == 12 && s[11..12] == [50];
  }

  /** The first value under a repeated key is kept. */
  lemma ParseDuplicateKeyExample()
    ensures Parse(DUPLICATE_KEY) == Success((Dict([([97], Int(1))]), 14))
  {
    var s := DUPLICATE_KEY;
    var a: Bytes := [97];
    var kept := [(a, Int(1))];
    DuplicateKeyParts();
    OneDict(s, 0);
    EntryStep(s, 1, [], a, 4, Int(1), 7);
    assert Emplace([], a, Int(1)) == kept;
    EntriesStep(s, 1, [], kept, 7);
    EntryStep(s, 7, kept, a, 10, Int(2), 13);
    assert Emplace(kept, a, Int(2)) == kept;
    EntriesStep(s, 7, kept, kept, 13);
    EntriesEnd(s, 13, kept);
  }

  /** The integer -42 is written "i-42e". */
  lemma WriteIntExample()
    ensures WriteBNode(Int(-42)) == [105, 45, 52, 50, 101]
  {
    assert NatToDecimal(42) == [52, 50] by {
      assert NatToDecimal(4) == [52];
    }
  }

  const COW: Bytes := [99, 111, 119]       // "cow"
  const MOO: Bytes := [109, 111, 111]      // "moo"
  const SPAM: Bytes := [115, 112, 97, 109] // "spam"
  const EGGS: Bytes := [101, 103, 103, 115] // "eggs"

  /** The dictionary {"cow": "moo", "spam": "eggs"}, entries in that order. */
  const COW_MOO: BNode := Dict([(COW, Str(MOO)), (SPAM, Str(EGGS))])

  /** Its encoding "d3:cow3:moo4:spam4:eggse". */
  const COW_MOO_BYTES: Bytes :=
    [DICT_START] + [51, COLON] + COW + [51, COLON] + MOO + [52, COLON] + SPAM + [52, COLON] + EGGS + [END]

  lemma CowMooParts()
    ensures WriteString(COW) == [51, COLON] + COW
    ensures WriteBNode(Str(MOO)) == [51, COLON] + MOO
    ensures WriteString(SPAM) == [52, COLON] + SPAM
    ensures WriteBNode(Str(EGGS)) == [52, COLON] + EGGS
  {
    assert NatToDecimal(3) == [51];
    assert NatToDecimal(4) == [52];
  }

  /** The dictionary is written "d3:cow3:moo4:spam4:eggse". */
  lemma WriteDictExample()
    ensures WriteBNode(COW_MOO) == COW_MOO_BYTES
  {
    var es := COW_MOO.entries;
    CowMooParts();
    var first := WriteString(COW) + WriteBNode(Str(MOO));
    var second := WriteString(SPAM) + WriteBNode(Str(EGGS));
    assert WriteEntries(es[1..]) == second + WriteEntries(es[1..][1..]);
    assert WriteEntries(es) == first + second;
  }

  /** And those bytes parse back to the dictionary. */
  lemma ParseDictExample()
    ensures Parse(COW_MOO_BYTES) == Success((COW_MOO, |COW_MOO_BYTES|))
  {
    WriteDictExample();
    assert DistinctKeys(COW_MOO.entries) by {
      assert COW[0] != SPAM[0];
    }
    RoundTrip(COW_MOO, []);
    assert WriteBNode(COW_MOO) + [] == WriteBNode(COW_MOO);
  }

  /** A 1000-byte file in 256-byte pieces has 4 pieces; a non-positive piece length gives 0. */
  lemma PieceCountExamples()
    ensures PieceCount(256, 1000) == 4
    ensures PieceCount(256, 1024) == 4
    ensures PieceCount(256, 0) == 0
    ensures PieceCount(0, 1000) == 0
  {
  }

  /** The `(int)` conversion wraps values outside the 32-bit range. */
  lemma ToIntExamples()
    ensures ToInt(0x8000_0000) == INT_MIN
    ensures ToInt(0x1_0000_0005) == 5
    ensures ToInt(-1) == -1
  {
  }

  /** An info dictionary with piece length 256, length 1000 and an integer `name`. */
  function SampleInfo(name: int): BNode {
    Dict([(PIECE_LENGTH, Int(256)), (LENGTH, Int(1000)), (NAME, Int(name))])
  }

  /** A root with the announce URL `url` and that info dictionary. */
  function SampleRoot(url: Bytes, name: int): BNode {
    Dict([(ANNOUNCE, Str(url)), (INFO, SampleInfo(name))])
  }

  lemma SampleLookups(url: Bytes, name: int)
    ensures Find(SampleRoot(url, name).entries, INFO) == Some(SampleInfo(name))
    ensures Find(SampleRoot(url, name).entries, ANNOUNCE) == Some(Str(url))
    ensures Find(SampleRoot(url, name).entries, COMMENT) == None
    ensures Find(SampleRoot(url, name).entries, CREATION_DATE) == None
    ensures Find(SampleInfo(name).entries, PIECE_LENGTH) == Some(Int(256))
    ensures Find(SampleInfo(name).entries, LENGTH) == Some(Int(1000))
    ensures Find(SampleInfo(name).entries, NAME) == Some(Int(name))
  {
    assert ANNOUNCE[0] != INFO[0] && ANNOUNCE[0] != COMMENT[0] && INFO[0] != COMMENT[0];
    assert ANNOUNCE[0] != CREATION_DATE[0] && INFO[0] != CREATION_DATE[0];
    assert PIECE_LENGTH[0] != LENGTH[0] && PIECE_LENGTH[0] != NAME[0] && LENGTH[0] != NAME[0];
  }

  /** The announce URL is copied; the absent comment and creation date keep their defaults. */
  lemma ExtractTopLevelExample(sha1: Bytes -> Digest, url: Bytes, name: int)
    ensures var r := ExtractTorrentInfo(SampleRoot(url, name), sha1);
      && r.Success?
      && r.value.announceUrl == url
      && r.value.comments == [] && r.value.creationTime == 0
  {
    var root := SampleRoot(url, name);
    SampleLookups(url, name);
    assert StringField(root, ANNOUNCE, []) == url;
    assert StringField(root, COMMENT, []) == [];
    assert IntField(root, CREATION_DATE, 0) == 0;
  }

  /** The piece length and file length are copied and give 4 pieces. */
  lemma ExtractFileDataExample(sha1: Bytes -> Digest, url: Bytes, name: int)
    ensures var r := ExtractTorrentInfo(SampleRoot(url, name), sha1);
      && r.Success?
      && r.value.fileData.pieceLength == 256 && r.value.fileData.fileSize == 1000
      && r.value.fileData.pieceCount == 4
  {
    SampleLookups(url, name);
    assert IntField(SampleInfo(name), PIECE_LENGTH, 0) == 256;
    assert IntField(SampleInfo(name), LENGTH, 0) == 1000;
    assert PieceCount(256, 1000) == 4;
  }

  /**
   The integer name keeps the default empty file name, and the hash is
   taken of the info dictionary.
   */
  lemma ExtractNameAndHashExample(sha1: Bytes -> Digest, url: Bytes, name: int)
    ensures var r := ExtractTorrentInfo(SampleRoot(url, name), sha1);
      && r.Success?
      && r.value.fileData.fileName == []
      && r.value.fileData.infoHash == sha1(WriteBNode(SampleInfo(name)))
  {
    SampleLookups(url, name);
    assert StringField(SampleInfo(name), NAME, []) == [];
  }

  /** A root that is not a dictionary, and one whose "info" is a list. */
  lemma ExtractErrorExamples(sha1: Bytes -> Digest)
    ensures ExtractTorrentInfo(List([]), sha1) == Failure(TopLevelNotDict)
    ensures ExtractTorrentInfo(Dict([(INFO, List([]))]), sha1) == Failure(MissingInfoDict)
    ensures ExtractTorrentInfo(Dict([]), sha1) == Failure(MissingInfoDict)
  {
  }
}
