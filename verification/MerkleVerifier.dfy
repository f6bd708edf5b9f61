/** internal/verify/merkle_verifier.go: the verifier object and its passes over a table. */
module MerkleVerifiers {
  import opened Buckets
  import Fsms
  import opened Hashing
  import opened LeafMaps
  import opened MapValues
  import opened MerkleTreeBuilders
  import opened Options
  import opened RaftNodes
  import opened RecordIds
  import opened Storages
  import opened VerificationPass

  /** The detailed comparison: ids only in the table, ids only in the chain, then the two maps with
      those ids taken out. It amounts to one plain comparison of the unadjusted maps.

      A finding stands for one printed line: a phantom insert is a record missing in the expected
      map, a deleted record is one missing in the actual map. */
  method FindTampering(expected: LeafMap, actual: LeafMap) returns (findings: seq<DifferingRecord>)
    ensures Reports(findings, expected, actual)
    ensures findings == [] <==> expected == actual
  {
    var phantomInserts: set<string>;
    var deletedRecords: set<string>;
    findings, phantomInserts := FindPhantoms(expected, actual);
    findings, deletedRecords := FindDeleted(expected, actual, findings);
    var adjustedActual := map id | id in actual && id !in phantomInserts :: actual[id];
    var adjustedExpected := map id | id in expected && id !in deletedRecords :: expected[id];
    var differing := CompareLeafMaps(adjustedExpected, adjustedActual);
    findings := FindModified(expected, actual, adjustedExpected, adjustedActual, differing, findings);
    EmptyReport(findings, expected, actual);
  }

  method FindPhantoms(expected: LeafMap, actual: LeafMap)
    returns (findings: seq<DifferingRecord>, phantomInserts: set<string>)
    ensures phantomInserts == actual.Keys - expected.Keys
    ensures ReportsOn(findings, expected, actual, phantomInserts)
  {
    findings, phantomInserts := [], {};
    var todo := actual.Keys;
    while todo != {}
      invariant todo <= actual.Keys && phantomInserts !! todo
      invariant forall id :: id in phantomInserts <==> id in actual && id !in todo && id !in expected
      invariant ReportsOn(findings, expected, actual, phantomInserts)
      decreases |todo|
    {
      var id :| id in todo;
      todo := todo - {id};
      if id !in expected {
        var longer := findings + [DifferingRecord(id, "", actual[id], MissingInExpected)];
        ReportGrows(findings, longer, expected, actual, phantomInserts, id);
        findings, phantomInserts := longer, phantomInserts + {id};
      }
    }
  }

  method FindDeleted(expected: LeafMap, actual: LeafMap, found: seq<DifferingRecord>)
    returns (findings: seq<DifferingRecord>, deletedRecords: set<string>)
    requires ReportsOn(found, expected, actual, actual.Keys - expected.Keys)
    ensures deletedRecords == expected.Keys - actual.Keys
    ensures ReportsOn(findings, expected, actual, (actual.Keys - expected.Keys) + deletedRecords)
  {
    findings, deletedRecords := found, {};
    ghost var phantoms := actual.Keys - expected.Keys;
    ghost var seen := phantoms;
    var todo := expected.Keys;
    while todo != {}
      invariant todo <= expected.Keys
      invariant forall id :: id in deletedRecords <==> id in expected && id !in todo && id !in actual
      invariant forall id :: id in seen <==> id in phantoms || id in deletedRecords
      invariant ReportsOn(findings, expected, actual, seen)
      decreases |todo|
    {
      var id :| id in todo;
      todo := todo - {id};
      if id !in actual {
        var longer := findings + [DifferingRecord(id, expected[id], "", MissingInActual)];
        ReportGrows(findings, longer, expected, actual, seen, id);
        findings, deletedRecords, seen := longer, deletedRecords + {id}, seen + {id};
      }
    }
    assert seen == phantoms + deletedRecords;
  }

  method FindModified(expected: LeafMap, actual: LeafMap, ghost adjustedExpected: LeafMap, ghost adjustedActual: LeafMap,
                      differing: seq<DifferingRecord>, found: seq<DifferingRecord>)
    returns (findings: seq<DifferingRecord>)
    requires adjustedExpected.Keys == adjustedActual.Keys == expected.Keys * actual.Keys
    requires forall id :: id in adjustedExpected ==>
      adjustedExpected[id] == expected[id] && adjustedActual[id] == actual[id]
    requires Reports(differing, adjustedExpected, adjustedActual)
    requires ReportsOn(found, expected, actual, (actual.Keys - expected.Keys) + (expected.Keys - actual.Keys))
    ensures Reports(findings, expected, actual)
  {
    findings := found;
    ghost var seen := (actual.Keys - expected.Keys) + (expected.Keys - actual.Keys);
    for i := 0 to |differing|
      invariant ReportsOn(findings, expected, actual, seen)
      invariant forall id :: id in seen <==>
        (id in actual && id !in expected) || (id in expected && id !in actual)
        || exists j :: 0 <= j < i && differing[j].recordID == id
    {
      var diff := differing[i];
      OnlyModified(expected, actual, adjustedExpected, adjustedActual, diff.recordID);
      if diff.kind == Modified {
        var longer := findings + [DifferingRecord(diff.recordID, diff.expectedHash, diff.actualHash, Modified)];
        ReportGrows(findings, longer, expected, actual, seen, diff.recordID);
        findings := longer;
      }
      seen := seen + {diff.recordID};
    }
    forall id | id in expected.Keys + actual.Keys && Differs(expected, actual, id) ensures id in seen {
      if id in expected && id in actual {
        assert Differs(adjustedExpected, adjustedActual, id);
      }
    }
  }

  /** With the ids that only one map has taken out of both, all that is left is modified records. */
  lemma OnlyModified(expected: LeafMap, actual: LeafMap, adjustedExpected: LeafMap, adjustedActual: LeafMap, id: string)
    requires adjustedExpected.Keys == adjustedActual.Keys == expected.Keys * actual.Keys
    requires forall k :: k in adjustedExpected ==>
      adjustedExpected[k] == expected[k] && adjustedActual[k] == actual[k]
    requires Differs(adjustedExpected, adjustedActual, id)
    ensures Differs(expected, actual, id) && id in expected && id in actual
    ensures Difference(adjustedExpected, adjustedActual, id) == Difference(expected, actual, id)
    ensures Difference(expected, actual, id).kind == Modified
  {
  }

  /** A node that applies the log entry of a checkpoint has what a local pass would have saved. */
  lemma CheckpointLands(before: map<string, MerkleCheckpoint>, cp: MerkleCheckpoint)
    ensures Fsms.WriteCheckpoint(before, Fsms.Command(CheckpointEntry(cp))) == Saved(before, cp)
  {
    CheckpointTravels(cp);
  }

  /** The rows of the table are read once per pass. */
  class MerkleVerifier {
    const storage: Storage
    const hasher: Hasher
    const algorithm: string
    const raftNode: Node?

    constructor (store: Storage, h: Hasher, algorithm: string, node: Node?)
      ensures storage == store && hasher == h && this.algorithm == algorithm && raftNode == node
    {
      storage, hasher, this.algorithm, raftNode := store, h, algorithm, node;
    }

    function Shared(): set<Raft> {
      if raftNode == null then {} else {raftNode.raft}
    }

    ghost function Log(): seq<Fsms.LogEntry>
      reads Shared()
    {
      if raftNode == null then [] else raftNode.raft.committed
    }

    /** A node that does not lead saves its checkpoint. The leader appends it to the log instead, and fails
        only if the log does not take it. */
    method VerifyTable(tableName: string, rows: seq<Row>, now: int, commits: bool, next: Option<nat>)
      returns (report: Report, ok: bool)
      modifies storage`merkleCheckpoints, Shared()
      ensures var leads := old(raftNode != null && raftNode.raft.leader == Some(raftNode.id));
        var entries, before := Scan(storage.hashChain, tableName + ":"), old(storage.merkleCheckpoints);
        && (report.Passed? <==> !Judge(hasher, rows, entries, LastOf(Scan(before, tableName + ":"))).Tampered?)
        && (report.TamperingDetected? ==>
              && ok && storage.merkleCheckpoints == before && Log() == old(Log())
              && report.findings != [] && Reports(report.findings, ChainMap(entries), RowMap(hasher, rows)))
      ensures var leads := old(raftNode != null && raftNode.raft.leader == Some(raftNode.id));
        var entries, before := Scan(storage.hashChain, tableName + ":"), old(storage.merkleCheckpoints);
        !leads ==>
          && ok && Log() == old(Log())
          && PassResult(hasher, algorithm, tableName, now, rows, entries, before, report, storage.merkleCheckpoints)
      ensures var leads := old(raftNode != null && raftNode.raft.leader == Some(raftNode.id));
        var entries, before := Scan(storage.hashChain, tableName + ":"), old(storage.merkleCheckpoints);
        leads && report.Passed? ==>
          && storage.merkleCheckpoints == before && ok == commits
          && |Log()| == |old(Log())| + (if commits then 1 else 0) && old(Log()) <= Log()
          && (commits ==> PassResult(hasher, algorithm, tableName, now, rows, entries, before, report,
                                     Fsms.WriteCheckpoint(before, Fsms.Command(Log()[|old(Log())|]))))
      ensures raftNode != null ==>
        raftNode.raft.leader ==
          if old(raftNode.raft.leader) == Some(raftNode.id) && report.Passed? then next else old(raftNode.raft.leader)
    {
      ghost var entries, before := Scan(storage.hashChain, tableName + ":"), storage.merkleCheckpoints;
      ghost var checkpoint := LastOf(Scan(before, tableName + ":"));
      var actualMerkleRoot, pgRecordCount, pgTree := CalculateCurrentMerkleRootFromPG(rows);
      var expectedMerkleRoot, boltdbRecordCount := CalculateMerkleRootFromBoltDB(tableName);
      if boltdbRecordCount == 0 {
        FastPassConcludes(hasher, algorithm, tableName, now, rows, entries, checkpoint);
        ok := CreateCheckpoint(tableName, actualMerkleRoot, pgRecordCount, pgTree, now, commits, next);
        CheckpointLands(before, NewCheckpoint(tableName, LastOf(entries), actualMerkleRoot, |rows|, pgTree, algorithm, now));
        return Passed, ok;
      }
      if actualMerkleRoot == expectedMerkleRoot && pgRecordCount == boltdbRecordCount {
        FastPassConcludes(hasher, algorithm, tableName, now, rows, entries, checkpoint);
        ok := CreateCheckpoint(tableName, actualMerkleRoot, pgRecordCount, pgTree, now, commits, next);
        CheckpointLands(before, NewCheckpoint(tableName, LastOf(entries), actualMerkleRoot, |rows|, pgTree, algorithm, now));
        return Passed, ok;
      }
      DetailedResultConcludes(hasher, algorithm, tableName, now, rows, entries, checkpoint);
      report, ok := PerformDetailedVerification(tableName, rows, now, commits, next);
      if report.Passed? {
        CheckpointLands(before, DetailedCheckpoint(hasher, algorithm, tableName, now, rows, entries));
      }
    }

    method PerformDetailedVerification(tableName: string, rows: seq<Row>, now: int, commits: bool, next: Option<nat>)
      returns (report: Report, ok: bool)
      modifies storage`merkleCheckpoints, Shared()
      ensures var entries := Scan(storage.hashChain, tableName + ":");
        Finds(hasher, rows, entries, ChainMap(entries) != RowMap(hasher, rows), report)
      ensures report.TamperingDetected? ==>
        ok && storage.merkleCheckpoints == old(storage.merkleCheckpoints) && Log() == old(Log())
      ensures var leads := old(raftNode != null && raftNode.raft.leader == Some(raftNode.id));
        var entries, before := Scan(storage.hashChain, tableName + ":"), old(storage.merkleCheckpoints);
        var made := DetailedCheckpoint(hasher, algorithm, tableName, now, rows, entries);
        report.Passed? ==>
          && storage.merkleCheckpoints == (if leads then before else Saved(before, made))
          && Log() == old(Log()) + (if leads && commits then [CheckpointEntry(made)] else [])
          && ok == (!leads || commits)
      ensures raftNode != null ==>
        raftNode.raft.leader ==
          if old(raftNode.raft.leader) == Some(raftNode.id) && report.Passed? then next else old(raftNode.raft.leader)
    {
      var expectedLeafMap := BuildLeafMapFromBoltDB(tableName);
      var actualLeafMap, newMerkleRoot := BuildLeafMapFromPostgreSQL(rows);
      var tamperedRecords := FindTampering(expectedLeafMap, actualLeafMap);
      if |tamperedRecords| > 0 {
        return TamperingDetected(tamperedRecords), true;
      }
      report := Passed;
      ok := CreateCheckpoint(tableName, newMerkleRoot, |actualLeafMap|, TreeData(map[], map[]), now, commits, next);
    }

    method BuildLeafMapFromBoltDB(tableName: string) returns (leafMap: LeafMap)
      ensures leafMap == ChainMap(Scan(storage.hashChain, tableName + ":"))
    {
      var entries := storage.GetAllHashEntries(tableName);
      leafMap := map[];
      for i := 0 to |entries|
        invariant leafMap == ChainMap(entries[..i])
      {
        var id := ExtractIDFromRecordID(entries[i].recordID);
        leafMap := leafMap[id := entries[i].dataHash];
        assert entries[..i + 1][..i] == entries[..i];
      }
      assert entries[..|entries|] == entries;
    }

    /** The builder here is keyed by whole rows, printed; only its root is used. */
    method BuildLeafMapFromPostgreSQL(rows: seq<Row>) returns (leafMap: LeafMap, merkleRoot: string)
      ensures leafMap == RowMap(hasher, rows)
      ensures merkleRoot == RootOver(hasher, RowLeaves(hasher, rows))
    {
      leafMap, merkleRoot := map[], "";
      var builder := new MerkleTreeBuilder(hasher);
      for i := 0 to |rows|
        invariant leafMap == RowMap(hasher, rows[..i])
        invariant fresh(builder) && builder.Valid() && builder.leaves == RowLeaves(hasher, rows)[..i]
      {
        var dataHash := hasher.digest(rows[i].text);
        leafMap := leafMap[rows[i].id := dataHash];
        assert rows[..i + 1][..i] == rows[..i];
        builder.AddLeafHash(rows[i].text, dataHash);
      }
      assert rows[..|rows|] == rows && RowLeaves(hasher, rows)[..|rows|] == RowLeaves(hasher, rows);
      RowMapIsEmptyIff(hasher, rows);
      if |leafMap| > 0 {
        var _ := builder.Build();
        merkleRoot := builder.GetRoot();
      }
    }

    /** The tree data is what a checkpoint keeps of the builder. */
    method CalculateCurrentMerkleRootFromPG(rows: seq<Row>) returns (root: string, count: nat, tree: TreeData)
      ensures root == RootOver(hasher, RowLeaves(hasher, rows)) && count == |rows|
      ensures tree == PgTree(hasher, rows)
    {
      var builder;
      builder, count := BuilderOfRows(rows);
      if count == 0 {
        return "", 0, TreeData(map[], map[]);
      }
      var _ := builder.Build();
      root := builder.GetRoot();
      var leafMap := builder.GetLeafMap();
      var internalNodes := builder.GetInternalNodes();
      tree := TreeData(leafMap, internalNodes);
    }

    method BuilderOfRows(rows: seq<Row>) returns (builder: MerkleTreeBuilder, count: nat)
      ensures fresh(builder) && builder.Valid() && builder.hasher == hasher && count == |rows|
      ensures builder.leaves == RowLeaves(hasher, rows) && builder.leafDataMap == RowMap(hasher, rows)
    {
      builder := new MerkleTreeBuilder(hasher);
      count := 0;
      for i := 0 to |rows|
        invariant fresh(builder) && builder.Valid() && builder.hasher == hasher && count == i
        invariant builder.leaves == RowLeaves(hasher, rows)[..i]
        invariant builder.leafDataMap == RowMap(hasher, rows[..i])
      {
        builder.AddLeaf(rows[i].id, rows[i].text);
        count := count + 1;
        assert rows[..i + 1][..i] == rows[..i];
      }
      assert rows[..|rows|] == rows && RowLeaves(hasher, rows)[..|rows|] == RowLeaves(hasher, rows);
    }

    method CalculateMerkleRootFromBoltDB(tableName: string) returns (root: string, count: nat)
      ensures var expected := ExpectedLeaves(Scan(storage.hashChain, tableName + ":"),
                                             LastOf(Scan(storage.merkleCheckpoints, tableName + ":")));
        root == RootOver(hasher, expected) && count == |expected|
    {
      var checkpoint := storage.GetLatestMerkleCheckpoint(tableName);
      if checkpoint.Some? && |checkpoint.value.leafMap| > 0 {
        root, count := CalculateMerkleRootFromCheckpoint(tableName, checkpoint.value);
        return;
      }
      var entries := storage.GetAllHashEntries(tableName);
      if |entries| == 0 {
        return "", 0;
      }
      var builder := BuilderOfEntries(entries);
      var _ := builder.Build();
      root := builder.GetRoot();
      count := |entries|;
    }

    method BuilderOfEntries(entries: seq<HashEntry>) returns (builder: MerkleTreeBuilder)
      ensures fresh(builder) && builder.Valid() && builder.hasher == hasher
      ensures builder.leaves == EntryLeaves(entries)
    {
      builder := new MerkleTreeBuilder(hasher);
      for i := 0 to |entries|
        invariant fresh(builder) && builder.Valid() && builder.hasher == hasher
        invariant builder.leaves == EntryLeaves(entries)[..i]
      {
        builder.AddLeafHash(entries[i].recordID, entries[i].dataHash);
      }
      assert EntryLeaves(entries)[..|entries|] == EntryLeaves(entries);
    }

    /** The leaf map is walked in any order; the tree sorts it out. */
    method CalculateMerkleRootFromCheckpoint(tableName: string, checkpoint: MerkleCheckpoint)
      returns (root: string, count: nat)
      requires checkpoint.leafMap != map[]
      ensures var m := Overlay(checkpoint.leafMap, Scan(storage.hashChain, tableName + ":"), checkpoint.sequenceNum);
        && root == RootOver(hasher, Collect(m, m.Keys)) && count == |m| == |Collect(m, m.Keys)|
        && Collect(m, m.Keys) != []
    {
      var leafMap := checkpoint.leafMap;
      var entries := storage.GetAllHashEntries(tableName);
      for i := 0 to |entries|
        invariant leafMap == Overlay(checkpoint.leafMap, entries[..i], checkpoint.sequenceNum)
      {
        if entries[i].sequenceNum > checkpoint.sequenceNum {
          leafMap := leafMap[entries[i].recordID := entries[i].dataHash];
        }
        assert entries[..i + 1][..i] == entries[..i];
      }
      assert entries[..|entries|] == entries;
      OverlayKeepsKeys(checkpoint.leafMap, entries, checkpoint.sequenceNum);
      root := RootOfMap(leafMap);
      count := |leafMap|;
      CollectHasValues(leafMap, leafMap.Keys);
      ValuesOfSize(leafMap);
    }

    method RootOfMap(leafMap: LeafMap) returns (root: string)
      requires leafMap != map[]
      ensures root == RootOver(hasher, Collect(leafMap, leafMap.Keys))
    {
      var builder := BuilderOfMap(leafMap);
      LeavesAreTheMap(hasher, builder.leaves, leafMap);
      var _ := builder.Build();
      root := builder.GetRoot();
    }

    method BuilderOfMap(leafMap: LeafMap) returns (builder: MerkleTreeBuilder)
      ensures fresh(builder) && builder.Valid() && builder.hasher == hasher
      ensures multiset(builder.leaves) == ValuesOf(leafMap)
    {
      builder := new MerkleTreeBuilder(hasher);
      var todo := leafMap.Keys;
      while todo != {}
        invariant todo <= leafMap.Keys
        invariant fresh(builder) && builder.Valid() && builder.hasher == hasher
        invariant multiset(builder.leaves) + ValuesIn(leafMap, todo) == ValuesOf(leafMap)
        decreases |todo|
      {
        var recordID :| recordID in todo;
        TakeOut(leafMap, todo, recordID);
        todo := todo - {recordID};
        builder.AddLeafHash(recordID, leafMap[recordID]);
      }
    }

    /** `next` is whoever leads when the call is over. */
    method CreateCheckpoint(tableName: string, merkleRoot: string, recordCount: nat, tree: TreeData, now: int,
                            commits: bool, next: Option<nat>) returns (ok: bool)
      modifies storage`merkleCheckpoints, Shared()
      ensures var leads := old(raftNode != null && raftNode.raft.leader == Some(raftNode.id));
        var entries, before := Scan(storage.hashChain, tableName + ":"), old(storage.merkleCheckpoints);
        var n := NumberOf(LastOf(entries));
        var made := MerkleCheckpoint(tableName, n, merkleRoot, now, recordCount, algorithm, tree.leafMap, tree.internalNodes);
        && storage.merkleCheckpoints == (if leads then before else before[RecordKey(tableName, n) := made])
        && Log() == old(Log()) + (if leads && commits then [CheckpointEntry(made)] else [])
        && ok == (!leads || commits)
      ensures raftNode != null ==>
        raftNode.raft.leader == if old(raftNode.raft.leader) == Some(raftNode.id) then next else old(raftNode.raft.leader)
    {
      var latestEntry := storage.GetLatestHashEntry(tableName);
      var seqNum := 0;
      if latestEntry.Some? {
        seqNum := latestEntry.value.sequenceNum;
      }
      var checkpoint := MerkleCheckpoint(tableName, seqNum, merkleRoot, now, recordCount, algorithm,
                                         tree.leafMap, tree.internalNodes);
      if raftNode != null && raftNode.IsLeader() {
        var err := raftNode.ApplyCheckpoint(checkpoint, commits, next);
        return err.NoApplyError?;
      }
      storage.SaveMerkleCheckpoint(checkpoint);
      ok := true;
    }
  }
}
