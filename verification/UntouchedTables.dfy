/** What the decimal keys do to a first pass over a table nobody touched. */
module UntouchedTables {
  import opened ByteStrings
  import opened Buckets
  import opened ChainHashes
  import opened DecimalKeys
  import opened Detection
  import opened Handlers
  import opened Hashing
  import opened MapValues
  import opened Numbering
  import opened Options
  import opened StoredPasses
  import opened Storages
  import opened TableViews
  import opened VerificationPass

  lemma {:induction false} DistinctFit(order: seq<nat>, numbers: set<nat>)
    requires forall i, j :: 0 <= i < j < |order| ==> order[i] != order[j]
    requires forall i :: 0 <= i < |order| ==> order[i] in numbers
    ensures |order| <= |numbers|
  {
    if order != [] {
      DistinctFit(order[1..], numbers - {order[0]});
    }
  }

  lemma {:induction false} ChainMapSize(entries: seq<HashEntry>)
    ensures |ChainMap(entries)| <= |entries|
  {
    if entries != [] {
      ChainMapSize(entries[..|entries| - 1]);
    }
  }

  lemma ScanOfStuckChain(inserts: seq<Insertion>, t: string)
    requires NamesAreValid(inserts) && IsTableName(t) && |ForTable(inserts, t)| > 10
    ensures 0 < |Scan(AfterInserts(inserts), t + ":")| <= 10
  {
    var bucket := AfterInserts(inserts);
    TableChainGrows(inserts, t);
    HandlerRuns(inserts, t);
    var order := PrefixScanIsTable(bucket, t);
    forall i, j | 0 <= i < j < |order| ensures order[i] != order[j] {
      assert Less(Decimal(order[i]), Decimal(order[j]));
    }
    DistinctFit(order, UpTo(10));
    UpToSize(10);
    assert 1 in UpTo(10) && 1 in order;
  }

  lemma LongChainIsReported(h: Hasher, inserts: seq<Insertion>, t: string, rows: seq<Row>, cp: Option<MerkleCheckpoint>)
    requires NamesAreValid(inserts) && IsTableName(t) && |ForTable(inserts, t)| > 10
    requires |rows| == |ForTable(inserts, t)| && forall i, j :: 0 <= i < j < |rows| ==> rows[i].id != rows[j].id
    requires !HasLeafMap(cp)
    ensures Judge(h, rows, Scan(AfterInserts(inserts), t + ":"), cp).Tampered?
  {
    var entries := Scan(AfterInserts(inserts), t + ":");
    ScanOfStuckChain(inserts, t);
    ChainMapSize(entries);
    RowMapValues(h, rows);
    ValuesOfSize(RowMap(h, rows));
    assert |RowMap(h, rows)| == |multiset(RowLeaves(h, rows))| == |rows|;
  }

  /** The rows' hashes are those the inserts recorded. */
  ghost predicate ShowsInserts(h: Hasher, rows: seq<Row>, inserts: seq<Insertion>) {
    && (forall i, j :: 0 <= i < j < |rows| ==> rows[i].id != rows[j].id)
    && multiset(RowLeaves(h, rows)) == multiset(InsertLeaves(inserts))
  }

  function InsertLeaves(inserts: seq<Insertion>): (r: seq<string>)
    ensures |r| == |inserts| && forall i :: 0 <= i < |inserts| ==> r[i] == inserts[i].dataHash
  {
    seq(|inserts|, i requires 0 <= i < |inserts| => inserts[i].dataHash)
  }

  function EntriesFor(inserts: seq<Insertion>): (r: seq<HashEntry>)
    ensures |r| == |inserts| && forall i :: 0 <= i < |inserts| ==> r[i] == EntryFor(inserts[i], i + 1)
  {
    seq(|inserts|, i requires 0 <= i < |inserts| => EntryFor(inserts[i], i + 1))
  }

  lemma GaplessHolds(chain: Chain, inserts: seq<Insertion>)
    requires IsGapless(chain, inserts)
    ensures HoldsChain(chain, EntriesFor(inserts)) && Numbered(EntriesFor(inserts))
  {
    forall n: nat ensures n in chain <==> 1 <= n <= |inserts| {
      assert n in chain <==> InRange(n, |inserts|);
    }
  }

  lemma ScanShowsInserts(bucket: map<string, HashEntry>, t: string, inserts: seq<Insertion>)
    requires IsTableName(t) && KeysArePrinted(bucket.Keys) && IsGapless(View(bucket, t), inserts)
    ensures multiset(EntryLeaves(Scan(bucket, t + ":"))) == multiset(InsertLeaves(inserts))
  {
    var chain := EntriesFor(inserts);
    GaplessHolds(View(bucket, t), inserts);
    ScanPermutesChain(bucket, t, chain);
    AllHashesInAnyOrder(Scan(bucket, t + ":"), chain, |chain|);
    assert EntryLeaves(chain) == InsertLeaves(inserts);
  }

  lemma MatchingLeavesPass(h: Hasher, rows: seq<Row>, entries: seq<HashEntry>, cp: Option<MerkleCheckpoint>)
    requires multiset(RowLeaves(h, rows)) == multiset(EntryLeaves(entries)) && !HasLeafMap(cp)
    ensures !Judge(h, rows, entries, cp).Tampered?
  {
    SameMultisetSameRoot(h, RowLeaves(h, rows), EntryLeaves(entries));
  }

  /** A pass without a leaf map over an untouched table reports tampering exactly when the table had
      more than ten inserts. */
  lemma UntouchedTableIsReportedIff(h: Hasher, inserts: seq<Insertion>, t: string, rows: seq<Row>, cp: Option<MerkleCheckpoint>)
    requires NamesAreValid(inserts) && IsTableName(t) && !HasLeafMap(cp)
    requires ShowsInserts(h, rows, ForTable(inserts, t))
    ensures Judge(h, rows, Scan(AfterInserts(inserts), t + ":"), cp).Tampered? <==> |ForTable(inserts, t)| > 10
  {
    var own := ForTable(inserts, t);
    if |own| > 10 {
      assert |rows| == |multiset(RowLeaves(h, rows))| == |multiset(InsertLeaves(own))| == |own|;
      LongChainIsReported(h, inserts, t, rows, cp);
    } else {
      TableChainGrows(inserts, t);
      HandlerRuns(inserts, t);
      ScanShowsInserts(AfterInserts(inserts), t, own);
      MatchingLeavesPass(h, rows, Scan(AfterInserts(inserts), t + ":"), cp);
    }
  }
}
