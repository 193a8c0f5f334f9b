/**
 Every tree the parser returns is well formed: because `parseDict` inserts
 with `emplace`, no dictionary at any depth holds a key twice.
 */
module BencodeWellFormed {
  import opened Bencode
  import opened BencodeParser
  import opened BencodeParserSteps

  /** Every value stored in the entries is well formed. */
  predicate ValuesWellFormed(es: seq<Entry>) {
    forall i :: 0 <= i < |es| ==> WellFormed(es[i].1)
  }

  /** `emplace` of a well-formed value keeps the entries a well-formed dictionary. */
  lemma EmplaceWellFormed(es: seq<Entry>, key: Bytes, v: BNode)
    requires DistinctKeys(es) && ValuesWellFormed(es) && WellFormed(v)
    ensures DistinctKeys(Emplace(es, key, v)) && ValuesWellFormed(Emplace(es, key, v))
  {
    EmplaceFind(es, key, v);
    if key in KeysOf(es) {
      EmplacePresent(es, key, v);
    } else {
      EmplaceFresh(es, key, v);
      var r := es + [(key, v)];
      forall i | 0 <= i < |r|
        ensures WellFormed(r[i].1)
      {
        if i < |es| {
          assert r[i] == es[i];
        }
      }
    }
  }

  /** A value returned by `parseOne` is well formed. */
  lemma {:induction false} ParsedWellFormed(s: Bytes, pos: nat)
    requires ParseOne(s, pos).Success?
    ensures WellFormed(ParseOne(s, pos).value.0)
    decreases |s| - pos, 2
  {
    if s[pos] == DICT_START {
      OneDict(s, pos);
      EntriesWellFormed(s, pos + 1, []);
    } else if s[pos] == LIST_START {
      OneList(s, pos);
      ItemsWellFormed(s, pos + 1, []);
    }
  }

  /** The dictionary built by the `parseDict` loop from well-formed entries is well formed. */
  lemma {:induction false} EntriesWellFormed(s: Bytes, p: nat, acc: seq<Entry>)
    requires DistinctKeys(acc) && ValuesWellFormed(acc)
    requires ParseDictEntries(s, p, acc).Success?
    ensures WellFormed(ParseDictEntries(s, p, acc).value.0)
    decreases |s| - p, 3
  {
    if s[p] == END {
      EntriesEnd(s, p, acc);
    } else {
      var key, q, v := EntryParts(s, p, acc);
      var (acc', e) := ParseEntry(s, p, acc).value;
      EntriesStep(s, p, acc, acc', e);
      ParsedWellFormed(s, q);
      EmplaceWellFormed(acc, key, v);
      EntriesWellFormed(s, e, acc');
    }
  }

  /** The list built by the `parseList` loop from well-formed items is well formed. */
  lemma {:induction false} ItemsWellFormed(s: Bytes, p: nat, acc: seq<BNode>)
    requires forall i :: 0 <= i < |acc| ==> WellFormed(acc[i])
    requires ParseListItems(s, p, acc).Success?
    ensures WellFormed(ParseListItems(s, p, acc).value.0)
    decreases |s| - p, 3
  {
    if s[p] == END {
      ItemsEnd(s, p, acc);
    } else {
      var (v, q) := ParseOne(s, p).value;
      ItemsStep(s, p, acc, v, q);
      ParsedWellFormed(s, p);
      var acc' := acc + [v];
      assert forall i :: 0 <= i < |acc'| ==> WellFormed(acc'[i]) by {
        forall i | 0 <= i < |acc'|
          ensures WellFormed(acc'[i])
        {
          if i < |acc| {
            assert acc'[i] == acc[i];
          }
        }
      }
      ItemsWellFormed(s, q, acc');
    }
  }

  /** `parse` returns a tree whose dictionaries have distinct keys at every depth. */
  lemma ParseWellFormed(s: Bytes)
    ensures Parse(s).Success? ==> WellFormed(Parse(s).value.0)
  {
    if Parse(s).Success? {
      ParsedWellFormed(s, 0);
    }
  }
}
