# Bencode codec and torrent metainfo extractor

A Dafny model of two parts of a small C++ BitTorrent client:

- **Decoder.** The `BencodeParser` of bencode_parser.cpp is a recursive-descent parser. It reads one bencoded value (dictionary, list, integer or byte string) from a byte buffer into a `BNode` tree. Every `BtException` it throws becomes a `Failure` result.
- **Re-encoder.** `writeBNode` and `reencodeDict` (torrent_info.cpp) write a tree back to bencode.
- **Metainfo extractor.** `loadTorrentInfo` (torrent_info.cpp) works on the bytes of a `.torrent` file. It parses them and checks that the root and its `info` entry are dictionaries. It copies the descriptor fields permissively, derives the piece count, and hashes the re-encoded `info` dictionary.

The model is functional. A `BNode` is a sum type with one variant per `BNodeType`. The C++ `std::unordered_map` becomes an association sequence of `(key, value)` entries in insertion order, with pairwise distinct keys. The parser is a set of pure functions of the buffer and a cursor that return the node and the cursor after it. The C++ object state `m_data`/`m_length`/`m_pos` becomes those arguments. `peekChar`, `getChar`, `atEnd` and `expectChar` are inlined as the end-of-buffer and mismatch checks of each routine.

Main results:
- **Round trip.** Any tree with unique dictionary keys, written by `writeBNode` and followed by any bytes, parses back to the same tree. The parse ends exactly after the written bytes.
- **Parsed trees are well formed.** Every tree the parser returns has unique keys in every dictionary, because `emplace` keeps the first value under a repeated key.
- **Grammar.** Integers and byte strings are read exactly when they have the shape the parser accepts, leading zeros included. Both directions are stated.
- **Locality.** A successful parse depends only on the bytes before its end. So bytes after the root value are ignored, and a buffer cut anywhere before the end of the value fails.
- **Extraction.** Extraction succeeds exactly when the root is a dictionary whose `info` entry is a dictionary. Every field is copied only when present with the expected type and otherwise keeps its default. The piece count is the ceiling of file size over piece length. The info hash is the digest of an encoding of the `info` dictionary that parses back to it.

Choices the code makes, which the model follows:
- **Duplicate keys.** A repeated dictionary key keeps its first value, because `emplace` does not overwrite (bencode_parser.cpp:86). The value after the repeated key is still parsed, so its errors are still raised.
- **Nesting depth.** There is no nesting-depth bound and no nesting-too-deep error. `parseOne`, `parseList` and `parseDict` recurse on the native stack, one frame per level, so deeply nested input can exhaust the stack instead of throwing a `BtException`.
- **Leading zeros.** `i007e` reads as 7 and `i-0e` as 0. The "bencoding" section of BEP 3 calls both encodings invalid; the parser accepts them.
- **Writer key order.** The writer emits entries in the map's iteration order. The "bencoding" section of BEP 3 requires keys in sorted order; the writer does not sort, and the parser does not check the order either.
- **Field types.** Extraction raises no field-type error. A wrong-typed or missing field keeps its default.
- **Piece hashes and layouts.** The "metainfo files" section of BEP 3 makes `pieces` a string whose length is a multiple of 20 and allows a multi-file `files` list. The code checks neither: only `name` and `length` are read, and the length of `pieces` is not checked.

## Model

| member | source | states |
|---|---|---|
| `Bencode.NewNode` | bencode_parser.h:37-44 | a node constructed for a type tag has that tag, integer payload 0, and empty string, list and dictionary payloads |
| `Bencode.Find` | torrent_info.cpp:22-26 | `find` comes back empty exactly when the key is not among the dictionary's keys; a value it finds is stored under that key |
| `Bencode.FindDistinct` | bencode_parser.h:42 | in a dictionary with unique keys, looking up the key of any entry yields that entry's value |
| `Bencode.LookupOrderIndependent` | bencode_parser.h:42 | two unique-key dictionaries holding the same entries in different orders answer every lookup alike, so the unspecified iteration order is invisible to lookups |
| `Bencode.EmplaceExtends` | bencode_parser.cpp:86 | `emplace` (modelled by `Emplace`) never removes or reorders entries and adds at most one |
| `Bencode.EmplaceFresh` | bencode_parser.cpp:86 | of `Emplace`: emplacing a key that is absent adds exactly that entry and keeps the others |
| `Bencode.EmplacePresent` | bencode_parser.cpp:86 | of `Emplace`: emplacing a key that is already present changes nothing: the later value is dropped |
| `Bencode.EmplaceFind` | bencode_parser.cpp:86 | of `Emplace`: after `emplace` the key is present, mapped to the earlier value if there was one and to the new value otherwise; every other key finds what it found before; unique keys stay unique |
| `Decimal.NatToDecimalValue` | torrent_info.cpp:155 | of `NatToDecimal` and `DecimalValue`: the decimal length the writer prints is all digits, reads back as the number, and has no leading zero unless it is "0" |
| `Decimal.IntToDecimalValue` | torrent_info.cpp:168 | of `IntToDecimal`: an integer is printed as '-' followed by the digits of its magnitude when negative, and as digits alone otherwise; the digits read back as the magnitude |
| `Decimal.DigitRunEnd` | bencode_parser.cpp:115-118 | the digit loop stops inside the buffer, at its end or at the first non-digit byte |
| `Decimal.DigitRunIsDigits` | bencode_parser.cpp:115-118 | every byte the digit loop consumed is a decimal digit |
| `Decimal.DigitRunOver` | bencode_parser.cpp:134-137 | of `DigitRunEnd`: a run of digits followed by a non-digit is consumed exactly, no more and no less |
| `BencodeParser.Parse` | bencode_parser.cpp:5-11 | a successful parse ends strictly after position 0 and within the buffer; an empty buffer fails with an unexpected end |
| `BencodeParser.ParseOne` | bencode_parser.cpp:44-60 | a value consumes at least one byte and never reads past the buffer |
| `BencodeParser.ParseDict` | bencode_parser.cpp:62-90 | a dictionary parse starts at a 'd', stays in the buffer, yields a DICT node and ends right after a closing 'e' |
| `BencodeParser.ParseDictEntries` | bencode_parser.cpp:67-88 | the entry loop ends inside the buffer, right after a closing 'e', with a DICT node whose entries begin with the entries already read |
| `BencodeParser.ParseEntry` | bencode_parser.cpp:68-86 | one key/value iteration consumes at least one byte, stays in the buffer and keeps the entries already read as a prefix |
| `BencodeParser.ParseList` | bencode_parser.cpp:92-103 | a list parse starts at an 'l', stays in the buffer, yields a LIST node and ends right after a closing 'e' |
| `BencodeParser.ParseListItems` | bencode_parser.cpp:97-101 | the item loop ends inside the buffer, right after a closing 'e', with a LIST node whose items begin with the items already read |
| `BencodeParser.ParseInt` | bencode_parser.cpp:105-130 | an integer consumes at least 'i', one digit and 'e' and yields an INT node |
| `BencodeParser.ParseString` | bencode_parser.cpp:132-149 | a byte string consumes at least one byte, stays in the buffer and yields a STRING node |
| `BencodeParser.ReadLengthPrefixed` | bencode_parser.cpp:134-144 | a length-prefixed read consumes at least one byte and stays in the buffer |
| `BencodeParserSteps.ParseOneDispatch` | bencode_parser.cpp:44-60 | at the end of the buffer `parseOne` fails with an unexpected end; on a byte that starts no value it fails with an invalid start naming that byte; a value it returns has the type its first byte announces ('d' dict, 'l' list, 'i' integer, digit string) |
| `BencodeWriter.WriteString` | torrent_info.cpp:170-173 | a written byte string starts with a digit and is longer than its payload |
| `BencodeWriter.WriteBNode` | torrent_info.cpp:149-176 | the output is non-empty and its first byte identifies the node type: 'd' exactly for a dictionary, 'l' for a list, 'i' for an integer, a digit for a string |
| `BencodeWriter.WriteItems` | torrent_info.cpp:162-164 | the items of a list write nothing exactly when there are none |
| `BencodeWriter.WriteEntries` | torrent_info.cpp:154-157 | the entries of a dictionary write nothing exactly when there are none |
| `BencodeWriter.ReencodeDict` | torrent_info.cpp:133-147 | re-encoding succeeds exactly on a dictionary, with the same bytes `writeBNode` writes, and fails with not-a-dictionary otherwise |
| `BencodeRoundTrip.ReadWrittenString` | bencode_parser.cpp:132-149 | reading a written byte string anywhere in a buffer yields exactly its bytes and ends right after them |
| `BencodeRoundTrip.ParseWrittenInt` | bencode_parser.cpp:105-130 | parsing a written integer yields the same integer, negative ones included, and consumes exactly the written bytes |
| `BencodeGrammar.ParseIntDigits` | bencode_parser.cpp:105-130 | of `ParseInt` and `DecimalValue`: 'i', an optional '-', any non-empty run of digits (leading zeros included) and 'e' are read as the decimal value of the digits, negated after the '-', ending right after the 'e' |
| `BencodeGrammar.ParseIntShape` | bencode_parser.cpp:105-130 | conversely, every integer the parser reads successfully consists of 'i', an optional '-', a non-empty digit run and 'e', and has the value of those digits, negated after the '-' |
| `BencodeGrammar.LengthPrefixedLayout` | bencode_parser.cpp:134-143 | in a buffer holding digits, ':' and a payload, the digit loop stops at the ':' and the payload lies right after it |
| `BencodeGrammar.ReadDigitsString` | bencode_parser.cpp:132-144 | a decimal length (leading zeros allowed), ':' and exactly that many bytes are read as those bytes, and the cursor advances by the digits, the colon and the bytes |
| `BencodeGrammar.ReadLengthPrefixedShape` | bencode_parser.cpp:132-144 | conversely, every successful length-prefixed read consumed digits whose value is the payload length, then ':', then the payload |
| `BencodeGrammar.ReadOverrun` | bencode_parser.cpp:138-141 | a decimal length and ':' that promise more bytes than the buffer holds fail with the caller's overrun error (string or key beyond buffer) |
| `BencodeRoundTrip.ParseWrittenStr` | bencode_parser.cpp:132-149 | parsing a written STRING node yields the same node and consumes exactly the written bytes |
| `BencodeRoundTrip.ParseWrittenItems` | bencode_parser.cpp:97-101 | the list loop over written items followed by 'e' appends exactly those items, in order, and ends after the 'e' |
| `BencodeRoundTrip.ParseWrittenEntries` | bencode_parser.cpp:67-88 | the dictionary loop over written unique-key entries followed by 'e' appends exactly those entries, in order, and ends after the 'e' |
| `BencodeRoundTrip.ParseWritten` | torrent_info.cpp:149-176 | a tree with unique keys written at any position of a buffer parses back from there to the same tree, ending right after the written bytes |
| `BencodeRoundTrip.RoundTrip` | torrent_info.cpp:149-176 | parsing the bytes of a unique-key tree followed by any other bytes yields that tree and stops at the end of its bytes |
| `BencodeWellFormed.EmplaceWellFormed` | bencode_parser.cpp:86 | emplacing a well-formed value into entries with unique keys and well-formed values keeps both properties |
| `BencodeWellFormed.ParsedWellFormed` | bencode_parser.cpp:44-60 | every value `parseOne` returns has unique keys in every dictionary, at any depth |
| `BencodeWellFormed.EntriesWellFormed` | bencode_parser.cpp:67-88 | the dictionary loop, started from unique-key well-formed entries, returns a well-formed dictionary |
| `BencodeWellFormed.ItemsWellFormed` | bencode_parser.cpp:97-101 | the list loop, started from well-formed items, returns a well-formed list |
| `BencodeWellFormed.ParseWellFormed` | bencode_parser.cpp:5-11 | every tree `parse` returns has unique keys in every dictionary |
| `BencodeLocality.DigitRunLocal` | bencode_parser.cpp:115-118 | a digit run that stops inside the buffer stops at the same place in any buffer that agrees up to and including the stopping byte |
| `BencodeLocality.ReadLocal` | bencode_parser.cpp:134-144 | a length-prefixed read gives the same bytes and cursor in any buffer that agrees up to its end |
| `BencodeLocality.IntLocal` | bencode_parser.cpp:105-130 | an integer parse gives the same result in any buffer that agrees up to its end |
| `BencodeLocality.OneLocal` | bencode_parser.cpp:44-60 | a value parse gives the same value and end in any buffer that agrees with the original up to that end |
| `BencodeLocality.EntriesLocal` | bencode_parser.cpp:67-88 | the dictionary loop gives the same result in any buffer that agrees up to its end |
| `BencodeLocality.ItemsLocal` | bencode_parser.cpp:97-101 | the list loop gives the same result in any buffer that agrees up to its end |
| `BencodeLocality.ParseIgnoresTrailing` | bencode_parser.cpp:5-11 | bytes appended after a successfully parsed root value change nothing |
| `BencodeLocality.ParseTruncatedFails` | bencode_parser.cpp:13-19 | a buffer cut anywhere before the end of a successfully parsed value fails to parse |
| `TorrentMetainfo.ToInt` | torrent_info.cpp:72 | the `(int)` conversion yields a 32-bit value congruent to the parsed integer modulo 2^32, and leaves values already in range unchanged |
| `TorrentMetainfo.DictLookup` | torrent_info.cpp:17-27 | the lookup yields nothing for a missing or non-dictionary node or an absent key, and otherwise the value stored under the key |
| `TorrentMetainfo.CeilDiv` | torrent_info.cpp:125-127 | the result is the smallest count of divisor-sized pieces that covers the dividend |
| `TorrentMetainfo.PieceCount` | torrent_info.cpp:123-128 | with a positive piece length, the piece count is the fewest pieces covering the file; otherwise it stays 0 |
| `TorrentMetainfo.ExtractTorrentInfo` | torrent_info.cpp:55-130 | extraction succeeds exactly when the root is a dictionary whose `info` entry is a dictionary; a non-dictionary root fails with top-level-not-dict, a missing or wrong-typed `info` with missing-info-dict; the info hash has 20 bytes and is the digest of the `info` dictionary's encoding; the piece count covers the file size |
| `TorrentMetainfo.LoadTorrentInfo` | torrent_info.cpp:55-60 | a parse error is passed through unchanged; loading succeeds exactly when the bytes parse to a root dictionary with an `info` dictionary |
| `TorrentMetainfo.StringFieldReads` | torrent_info.cpp:65-69 | of `StringField`: in a unique-key dictionary, a string field is the payload of the entry under its key when that entry is a string, and the default when the key is absent or holds another type |
| `TorrentMetainfo.IntFieldReads` | torrent_info.cpp:70-74 | of `IntField`: in a unique-key dictionary, an integer field is the converted integer under its key when that entry is an integer, and the default otherwise |
| `TorrentMetainfo.ExtractedFields` | torrent_info.cpp:65-121 | on a tree with unique keys, all nine descriptor fields are read permissively from the root or the `info` dictionary, each keeping its default when absent or wrong-typed |
| `TorrentMetainfo.LoadedTorrent` | torrent_info.cpp:92-121 | a successful load comes from a root dictionary with an `info` dictionary; every field is read permissively; the info hash is the digest of an encoding of that `info` dictionary, and that encoding parses back to it |
| `TorrentMetainfo.LoadWrittenTorrent` | torrent_info.cpp:55-60 | loading the encoding of a unique-key tree, followed by any bytes, extracts exactly what the tree holds |
| `BencodeExamples.ParseStringExample` | bencode_parser.cpp:132-149 | "4:spam" is the byte string "spam" |
| `BencodeExamples.ParseNegativeIntExample` | bencode_parser.cpp:105-130 | "i-42e" is the integer -42 |
| `BencodeExamples.ParseLeadingZerosExample` | bencode_parser.cpp:113-118 | leading zeros are accepted: "i007e" is 7 |
| `BencodeExamples.ParseNegativeZeroExample` | bencode_parser.cpp:108-124 | negative zero is accepted: "i-0e" is 0 |
| `BencodeExamples.ParseIntegerNoDigitsExamples` | bencode_parser.cpp:119-121 | "ie" and "i-e" fail because the integer has no digits |
| `BencodeExamples.ParseUnterminatedIntExample` | bencode_parser.cpp:125 | "i12" fails with an unexpected end where 'e' is expected |
| `BencodeExamples.ParseUnterminatedLengthExamples` | bencode_parser.cpp:135-138 | "12" fails with an unexpected end inside the length digits; "1x" fails with an unexpected byte, 'x' where ':' is expected |
| `BencodeExamples.ParseStringOverrunExample` | bencode_parser.cpp:139-141 | "5:abc" fails because the string runs past the buffer |
| `BencodeExamples.ParseEndAndStartErrorExamples` | bencode_parser.cpp:13-19 | the empty buffer and the unterminated list "l" fail with an unexpected end; "x" fails with an invalid start |
| `BencodeExamples.ParseEmptyContainersExample` | bencode_parser.cpp:92-103 | "le" is the empty list and "de" the empty dictionary |
| `BencodeExamples.ParseMissingValueExample` | bencode_parser.cpp:85 | "d3:cowe" fails with an invalid start at the 'e' where the value should begin |
| `BencodeExamples.ParseIntegerKeyExample` | bencode_parser.cpp:69-71 | "di1ei2ee" fails because a key must be a byte string |
| `BencodeExamples.ParseKeyOverrunExample` | bencode_parser.cpp:77-79 | "d9:ae" fails because the key runs past the buffer |
| `BencodeExamples.ParseDuplicateKeyExample` | bencode_parser.cpp:86 | "d1:ai1e1:ai2ee" keeps the first value: the dictionary {"a": 1} |
| `BencodeExamples.WriteIntExample` | torrent_info.cpp:168 | the integer -42 is written "i-42e" |
| `BencodeExamples.WriteDictExample` | torrent_info.cpp:152-159 | {"cow": "moo", "spam": "eggs"}, stored in that order, is written "d3:cow3:moo4:spam4:eggse" |
| `BencodeExamples.ParseDictExample` | bencode_parser.cpp:62-90 | "d3:cow3:moo4:spam4:eggse" parses to {"cow": "moo", "spam": "eggs"} |
| `BencodeExamples.PieceCountExamples` | torrent_info.cpp:123-128 | 1000 bytes in 256-byte pieces is 4 pieces, so is 1024; a piece length of 0 gives 0 |
| `BencodeExamples.ToIntExamples` | torrent_info.cpp:72 | 2^31 converts to the most negative `int`, 2^32 + 5 to 5, and -1 stays -1 |
| `BencodeExamples.ExtractTopLevelExample` | torrent_info.cpp:65-79 | a present announce URL is copied; an absent comment and creation date keep their defaults |
| `BencodeExamples.ExtractFileDataExample` | torrent_info.cpp:102-128 | piece length 256 and length 1000 are copied and give 4 pieces |
| `BencodeExamples.ExtractNameAndHashExample` | torrent_info.cpp:98-116 | an integer `name` leaves the file name empty; the hash is taken of the `info` dictionary |
| `BencodeExamples.ExtractErrorExamples` | torrent_info.cpp:58-60 | a non-dictionary root fails with top-level-not-dict; a root whose `info` is a list, or that has no `info`, fails with missing-info-dict |

## Left out

- File I/O in `loadTorrentInfo` (`stat`, `open`, `read`, `close`, torrent_info.cpp:40-53). The model starts from the bytes of the file, and the I/O errors are not modelled.
- SHA-1 (`computeSha1`, torrent_info.cpp:29-35). It is a function parameter returning 20 bytes; the OpenSSL implementation is outside the model.
- Overflow of the `long` digit accumulators (bencode_parser.cpp:74, 117, 136) and of `m_pos + lengthNum`. Integers are unbounded. The `(int)` narrowing of the extracted fields (torrent_info.cpp:72, 104, 119) is modelled as 32-bit wrap-around, as C++20 defines it.
- The `double` arithmetic and `std::ceil` of the piece count (torrent_info.cpp:125-127) are replaced by exact integer ceiling division. For 32-bit operands the correctly rounded quotient never crosses an integer, so both give the same count.
- The iteration order of `std::unordered_map` (torrent_info.cpp:140, 154). Entries are kept in insertion order, and the writer emits that order. The round trip holds for every order. A sorted-key canonical writer is not modelled, because the C++ code has none.
- Stack exhaustion on deeply nested input (bencode_parser.cpp:44-103). The model gives the result an unbounded stack would give: `Failure(UnexpectedEnd)` for a long run of `l` bytes, and success for a closed nest.
- The text of the `BtException` messages. Each throw site is one `BtError` variant, and `expectChar` failures carry the expected and actual bytes.
- Null `BNode` pointers. `parse` never returns null on success, and `dictLookup`'s null input is the `None` argument of `DictLookup`.
- peer_network.cpp, peer_network.h, main.cpp, bt_messages.cpp and bt_messages.h are not part of this model: socket I/O, command-line handling and fixed-size message builders.
- BencodeParser.ParseOne: its own contract states only the cursor bounds that termination needs; its exact results are stated by `BencodeParserSteps.ParseOneDispatch`, the round-trip, well-formedness and locality lemmas, and the examples.
- BencodeParser.ParseDict: its own contract states cursor bounds, the node type and the opening and closing bytes, not the entries; exact results as for `ParseOne`.
- BencodeParser.ParseList: its own contract states cursor bounds, the node type and the opening and closing bytes, not the items; exact results as for `ParseOne`.
- BencodeParser.ParseInt: its own contract states only cursor bounds and the node type; the value read is stated by `BencodeGrammar.ParseIntDigits` and `BencodeGrammar.ParseIntShape`.
- BencodeParser.ParseString: its own contract states only cursor bounds and the node type; the bytes read are stated by `BencodeGrammar.ReadDigitsString` and `BencodeGrammar.ReadLengthPrefixedShape`.
