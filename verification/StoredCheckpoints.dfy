/** What the checkpoint says that a passing verification stores, told from the rows it read. */
module StoredCheckpoints {
  import opened Buckets
  import opened Detection
  import opened Hashing
  import opened MapValues
  import opened MerkleShape
  import opened MerkleWalks
  import opened Options
  import opened Storages
  import opened VerificationPass

  ghost predicate DistinctIds(rows: seq<Row>) {
    forall i, j :: 0 <= i < j < |rows| ==> rows[i].id != rows[j].id
  }

  ghost function Ids(rows: seq<Row>): (ids: set<string>)
    ensures forall id :: id in ids <==> exists i :: 0 <= i < |rows| && rows[i].id == id
  {
    set i | 0 <= i < |rows| :: rows[i].id
  }

  /** One checkpoint is written, under the table's name and its latest entry's number. Its root is the
      root over all the rows' hashes. */
  lemma PassStores(h: Hasher, algorithm: string, table: string, now: int, rows: seq<Row>, entries: seq<HashEntry>,
                   before: map<string, MerkleCheckpoint>, after: map<string, MerkleCheckpoint>)
    requires PassResult(h, algorithm, table, now, rows, entries, before, Passed, after)
    ensures var n := if entries == [] then 0 else entries[|entries| - 1].sequenceNum;
      var key := RecordKey(table, n);
      && key in after && after == before[key := after[key]]
      && after[key].tableName == table && after[key].sequenceNum == n
      && after[key].timestamp == now && after[key].hashAlgorithm == algorithm
      && after[key].merkleRoot ==
         if rows == [] then ""
         else BuildTree(h, seq(|rows|, i requires 0 <= i < |rows| => h.digest(rows[i].text))).hash
  {
    assert RowLeaves(h, rows) == seq(|rows|, i requires 0 <= i < |rows| => h.digest(rows[i].text));
  }

  lemma RowMapHasIds(h: Hasher, rows: seq<Row>)
    ensures RowMap(h, rows).Keys == Ids(rows)
  {
    RowMapCovers(h, rows);
    forall id | id in RowMap(h, rows) ensures id in Ids(rows) {
      RowMapIds(h, rows, id);
    }
  }

  lemma {:induction false} RowMapCovers(h: Hasher, rows: seq<Row>)
    ensures forall i :: 0 <= i < |rows| ==> rows[i].id in RowMap(h, rows)
  {
    if rows != [] {
      var n := |rows| - 1;
      RowMapCovers(h, rows[..n]);
      assert forall i :: 0 <= i < n ==> rows[..n][i] == rows[i];
    }
  }

  lemma RowMapReads(h: Hasher, rows: seq<Row>)
    requires DistinctIds(rows)
    ensures forall i :: 0 <= i < |rows| ==> rows[i].id in RowMap(h, rows) && RowMap(h, rows)[rows[i].id] == h.digest(rows[i].text)
  {
    forall i | 0 <= i < |rows|
      ensures rows[i].id in RowMap(h, rows) && RowMap(h, rows)[rows[i].id] == h.digest(rows[i].text)
    {
      RowMapTakesLast(h, rows, i);
    }
  }

  lemma RowMapSize(h: Hasher, rows: seq<Row>)
    requires DistinctIds(rows)
    ensures |RowMap(h, rows)| == |rows|
  {
    ValuesOfSize(RowMap(h, rows));
    RowMapValues(h, rows);
    assert |multiset(RowLeaves(h, rows))| == |rows|;
  }

  lemma VerdictCounts(h: Hasher, algorithm: string, table: string, now: int, rows: seq<Row>, entries: seq<HashEntry>,
                      cp: Option<MerkleCheckpoint>)
    requires !Judge(h, rows, entries, cp).Tampered?
    ensures var made := CheckpointFor(Judge(h, rows, entries, cp), table, LastOf(entries), algorithm, now);
      made.recordCount == if made.leafMap == map[] then |RowMap(h, rows)| else |rows|
  {
    RowMapIsEmptyIff(h, rows);
  }

  /** The checkpoint counts the rows it covers: all of them, or after a detailed comparison, which keeps
      no tree data, their ids. */
  lemma StoredCountIs(h: Hasher, algorithm: string, table: string, now: int, rows: seq<Row>, entries: seq<HashEntry>,
                      before: map<string, MerkleCheckpoint>, after: map<string, MerkleCheckpoint>)
    requires PassResult(h, algorithm, table, now, rows, entries, before, Passed, after)
    ensures var n := if entries == [] then 0 else entries[|entries| - 1].sequenceNum;
      var key := RecordKey(table, n);
      && key in after
      && after[key].recordCount == (if after[key].leafMap == map[] then |Ids(rows)| else |rows|)
      && (DistinctIds(rows) ==> after[key].recordCount == |rows|)
  {
    VerdictCounts(h, algorithm, table, now, rows, entries, LastOf(Scan(before, table + ":")));
    RowMapHasIds(h, rows);
    assert |RowMap(h, rows)| == |RowMap(h, rows).Keys| == |Ids(rows)|;
    if DistinctIds(rows) {
      RowMapSize(h, rows);
    }
  }

  /** Tree data is kept exactly when there are rows and the fast comparison, or an empty chain, let them pass. */
  lemma StoresTreeIff(h: Hasher, algorithm: string, table: string, now: int, rows: seq<Row>, entries: seq<HashEntry>,
                      before: map<string, MerkleCheckpoint>, after: map<string, MerkleCheckpoint>)
    requires PassResult(h, algorithm, table, now, rows, entries, before, Passed, after)
    ensures var n := if entries == [] then 0 else entries[|entries| - 1].sequenceNum;
      var key, expected := RecordKey(table, n), ExpectedLeaves(entries, LastOf(Scan(before, table + ":")));
      && key in after
      && (after[key].leafMap == map[] <==> after[key].internalNodes == map[])
      && (after[key].leafMap != map[] <==>
            rows != [] && (expected == [] || SameRootAndSize(h, RowLeaves(h, rows), expected)))
  {
    RowMapIsEmptyIff(h, rows);
    if rows != [] {
      assert "root" in PgTree(h, rows).internalNodes;
    }
  }

  /** The tree data of a checkpoint agrees with the rest of it: the root is the stored node "root" and
      the root over the leaf map's values, every stored node hashes its stored children, and the leaf
      map has as many ids as rows were counted. */
  ghost predicate AgreesWithItself(h: Hasher, cp: MerkleCheckpoint) {
    && "root" in cp.internalNodes && cp.merkleRoot == cp.internalNodes["root"]
    && (forall k :: k in cp.internalNodes ==> NodeEquation(h, cp.internalNodes, k))
    && Collect(cp.leafMap, cp.leafMap.Keys) != []
    && cp.merkleRoot == BuildTree(h, Collect(cp.leafMap, cp.leafMap.Keys)).hash
    && cp.recordCount == |cp.leafMap|
  }

  ghost predicate HashesRows(h: Hasher, m: map<string, string>, rows: seq<Row>) {
    && (forall i :: 0 <= i < |rows| ==> rows[i].id in m && m[rows[i].id] == h.digest(rows[i].text))
    && (forall id :: id in m ==> exists i :: 0 <= i < |rows| && rows[i].id == id)
  }

  lemma TreeAgrees(h: Hasher, rows: seq<Row>, cp: MerkleCheckpoint)
    requires rows != [] && DistinctIds(rows)
    requires cp.leafMap == PgTree(h, rows).leafMap && cp.internalNodes == PgTree(h, rows).internalNodes
    requires cp.merkleRoot == RootOver(h, RowLeaves(h, rows)) && cp.recordCount == |rows|
    ensures AgreesWithItself(h, cp) && HashesRows(h, cp.leafMap, rows)
  {
    RowMapSize(h, rows);
    RowMapReads(h, rows);
    RowMapValues(h, rows);
    RowMapHasIds(h, rows);
    LeavesAreTheMap(h, RowLeaves(h, rows), cp.leafMap);
    CollectHasValues(cp.leafMap, cp.leafMap.Keys);
    BuildTreeShape(h, RowLeaves(h, rows));
    NodeEquationsHold(h, BuildTree(h, RowLeaves(h, rows)), "root");
  }

  lemma StoredTreeAgrees(h: Hasher, algorithm: string, table: string, now: int, rows: seq<Row>, entries: seq<HashEntry>,
                         before: map<string, MerkleCheckpoint>, after: map<string, MerkleCheckpoint>)
    requires PassResult(h, algorithm, table, now, rows, entries, before, Passed, after) && DistinctIds(rows)
    ensures var n := if entries == [] then 0 else entries[|entries| - 1].sequenceNum;
      var key := RecordKey(table, n);
      && key in after
      && (after[key].leafMap != map[] ==> AgreesWithItself(h, after[key]) && HashesRows(h, after[key].leafMap, rows))
  {
    var cp := after[RecordKey(table, NumberOf(LastOf(entries)))];
    if cp.leafMap != map[] {
      RowMapIsEmptyIff(h, rows);
      TreeAgrees(h, rows, cp);
    }
  }

  lemma {:induction false} NothingAfter(leafMap: map<string, string>, entries: seq<HashEntry>, last: nat)
    requires forall e :: e in entries ==> e.sequenceNum <= last
    ensures Overlay(leafMap, entries, last) == leafMap
  {
    if entries != [] {
      NothingAfter(leafMap, entries[..|entries| - 1], last);
    }
  }

  /** The next pass expects of the table, as long as nothing new was recorded, exactly what the
      checkpoint says: its root and its count. */
  lemma StoredRootIsExpectedNext(h: Hasher, cp: MerkleCheckpoint, entries: seq<HashEntry>)
    requires AgreesWithItself(h, cp) && cp.leafMap != map[]
    requires forall e :: e in entries ==> e.sequenceNum <= cp.sequenceNum
    ensures var expected := ExpectedLeaves(entries, Some(cp));
      RootOver(h, expected) == cp.merkleRoot && |expected| == cp.recordCount
  {
    NothingAfter(cp.leafMap, entries, cp.sequenceNum);
    CollectHasValues(cp.leafMap, cp.leafMap.Keys);
    ValuesOfSize(cp.leafMap);
    var listed := Collect(cp.leafMap, cp.leafMap.Keys);
    assert |multiset(listed)| == |listed|;
  }
}
