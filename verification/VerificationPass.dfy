/** internal/verify/merkle_verifier.go, as functions of what one verification pass reads:
    the table's rows, its hash entries in scan order, and its newest checkpoint. */
module VerificationPass {
  import opened Buckets
  import opened ByteStrings
  import opened Hashing
  import opened LeafMaps
  import opened MapValues
  import opened MerkleShape
  import opened MerkleWalks
  import opened Options
  import opened RecordIds
  import opened Storages

  /** A row as a query returns it: its printed id and its serialised text. */
  datatype Row = Row(id: string, text: string)

  function RowLeaves(h: Hasher, rows: seq<Row>): (r: seq<string>)
    ensures |r| == |rows|
    ensures forall i :: 0 <= i < |rows| ==> r[i] == h.digest(rows[i].text)
  {
    seq(|rows|, i requires 0 <= i < |rows| => h.digest(rows[i].text))
  }

  /** Row id to row hash; a later row with the same id replaces an earlier one. */
  function RowMap(h: Hasher, rows: seq<Row>): LeafMap {
    if rows == [] then map[]
    else
      var last := rows[|rows| - 1];
      RowMap(h, rows[..|rows| - 1])[last.id := h.digest(last.text)]
  }

  function EntryLeaves(entries: seq<HashEntry>): (r: seq<string>)
    ensures |r| == |entries|
    ensures forall i :: 0 <= i < |entries| ==> r[i] == entries[i].dataHash
  {
    seq(|entries|, i requires 0 <= i < |entries| => entries[i].dataHash)
  }

  /** Extracted id to recorded hash, as the detailed verification sees the chain. */
  function ChainMap(entries: seq<HashEntry>): LeafMap {
    if entries == [] then map[]
    else
      var last := entries[|entries| - 1];
      ChainMap(entries[..|entries| - 1])[ExtractID(last.recordID) := last.dataHash]
  }

  /** Of the rows with one id the last one counts. */
  lemma {:induction false} RowMapTakesLast(h: Hasher, rows: seq<Row>, i: nat)
    requires i < |rows| && forall j :: i < j < |rows| ==> rows[j].id != rows[i].id
    ensures rows[i].id in RowMap(h, rows) && RowMap(h, rows)[rows[i].id] == h.digest(rows[i].text)
  {
    var n := |rows| - 1;
    if i < n {
      RowMapTakesLast(h, rows[..n], i);
    }
  }

  /** Of the entries from whose record ids one id is read the one listed last counts. */
  lemma {:induction false} ChainMapTakesLast(entries: seq<HashEntry>, i: nat, id: string)
    requires i < |entries| && ExtractID(entries[i].recordID) == id
    requires forall j :: i < j < |entries| ==> ExtractID(entries[j].recordID) != id
    ensures id in ChainMap(entries) && ChainMap(entries)[id] == entries[i].dataHash
  {
    var n := |entries| - 1;
    if i < n {
      assert ExtractID(entries[n].recordID) != id;
      ChainMapTakesLast(entries[..n], i, id);
    }
  }

  /** A checkpoint's leaf map with the entries after it written on top, by record id. */
  function Overlay(leafMap: LeafMap, entries: seq<HashEntry>, after: nat): LeafMap {
    if entries == [] then leafMap
    else
      var last := entries[|entries| - 1];
      var before := Overlay(leafMap, entries[..|entries| - 1], after);
      if last.sequenceNum > after then before[last.recordID := last.dataHash] else before
  }

  lemma {:induction false} OverlayKeepsKeys(leafMap: LeafMap, entries: seq<HashEntry>, after: nat)
    ensures leafMap.Keys <= Overlay(leafMap, entries, after).Keys
  {
    if entries != [] {
      OverlayKeepsKeys(leafMap, entries[..|entries| - 1], after);
    }
  }

  /** Of the entries after the checkpoint with one record id the one listed last counts. */
  lemma {:induction false} OverlayTakesLast(leafMap: LeafMap, entries: seq<HashEntry>, after: nat, i: nat)
    requires i < |entries| && entries[i].sequenceNum > after
    requires forall j :: i < j < |entries| && entries[j].sequenceNum > after ==> entries[j].recordID != entries[i].recordID
    ensures var m := Overlay(leafMap, entries, after);
      entries[i].recordID in m && m[entries[i].recordID] == entries[i].dataHash
  {
    var n := |entries| - 1;
    if i < n {
      OverlayTakesLast(leafMap, entries[..n], after, i);
    }
  }

  /** Without such an entry the checkpoint's leaf map decides. */
  lemma {:induction false} OverlayLeavesOthers(leafMap: LeafMap, entries: seq<HashEntry>, after: nat, id: string)
    requires forall j :: 0 <= j < |entries| && entries[j].sequenceNum > after ==> entries[j].recordID != id
    ensures var m := Overlay(leafMap, entries, after);
      (id in m <==> id in leafMap) && (id in m ==> m[id] == leafMap[id])
  {
    if entries != [] {
      OverlayLeavesOthers(leafMap, entries[..|entries| - 1], after, id);
    }
  }

  /** The root over a list of leaf hashes, the empty string for none. */
  function RootOver(h: Hasher, leaves: seq<string>): string {
    if leaves == [] then "" else BuildTree(h, leaves).hash
  }

  ghost predicate HasLeafMap(cp: Option<MerkleCheckpoint>) {
    cp.Some? && cp.value.leafMap != map[]
  }

  /** The leaves the expected root is built over: the checkpoint's leaf map and the entries after
      it, or every entry when there is no such map. */
  ghost function ExpectedLeaves(entries: seq<HashEntry>, cp: Option<MerkleCheckpoint>): seq<string> {
    if HasLeafMap(cp) then
      var m := Overlay(cp.value.leafMap, entries, cp.value.sequenceNum);
      Collect(m, m.Keys)
    else EntryLeaves(entries)
  }

  datatype TreeData = TreeData(leafMap: LeafMap, internalNodes: LeafMap)

  /** What `createCheckpointWithTree` stores of the table's tree; nothing for an empty table. */
  function PgTree(h: Hasher, rows: seq<Row>): TreeData {
    if rows == [] then TreeData(map[], map[])
    else TreeData(RowMap(h, rows), CollectNodes(BuildTree(h, RowLeaves(h, rows)), "root"))
  }

  datatype Report = Passed | TamperingDetected(findings: seq<DifferingRecord>)

  datatype Verdict =
    | Initial(root: string, count: nat, tree: TreeData)
    | RootsMatch(root: string, count: nat, tree: TreeData)
    | DetailsMatch(root: string, count: nat)
    | Tampered

  /** The comparison the fast path makes. */
  predicate SameRootAndSize(h: Hasher, actual: seq<string>, expected: seq<string>) {
    RootOver(h, actual) == RootOver(h, expected) && |actual| == |expected|
  }

  /** The outcome of a verification pass. */
  ghost function Judge(h: Hasher, rows: seq<Row>, entries: seq<HashEntry>, cp: Option<MerkleCheckpoint>): Verdict {
    var expected := ExpectedLeaves(entries, cp);
    var actual := RowLeaves(h, rows);
    if expected == [] then
      Initial(RootOver(h, actual), |rows|, PgTree(h, rows))
    else if SameRootAndSize(h, actual, expected) then
      RootsMatch(RootOver(h, actual), |rows|, PgTree(h, rows))
    else if ChainMap(entries) == RowMap(h, rows) then
      DetailsMatch(RootOver(h, actual), |RowMap(h, rows)|)
    else Tampered
  }

  /** A table without entries counts from 0. */
  function NumberOf(latest: Option<HashEntry>): nat {
    if latest.Some? then latest.value.sequenceNum else 0
  }

  function NewCheckpoint(table: string, latest: Option<HashEntry>, root: string, count: nat, tree: TreeData,
                         algorithm: string, now: int): MerkleCheckpoint {
    MerkleCheckpoint(table, NumberOf(latest), root, now, count, algorithm, tree.leafMap, tree.internalNodes)
  }

  /** The checkpoint a passing verification writes; after a detailed one it holds no tree data. */
  function CheckpointFor(v: Verdict, table: string, latest: Option<HashEntry>, algorithm: string, now: int): MerkleCheckpoint
    requires !v.Tampered?
  {
    NewCheckpoint(table, latest, v.root, v.count, if v.DetailsMatch? then TreeData(map[], map[]) else v.tree, algorithm, now)
  }

  /** The checkpoints of a table after a passing verification. */
  function Saved(checkpoints: map<string, MerkleCheckpoint>, cp: MerkleCheckpoint): map<string, MerkleCheckpoint> {
    checkpoints[RecordKey(cp.tableName, cp.sequenceNum) := cp]
  }

  /** What a comparison of the table with the chain finds: record by record how their leaf maps
      differ, if the table counts as tampered with, and nothing otherwise. */
  ghost predicate Finds(h: Hasher, rows: seq<Row>, entries: seq<HashEntry>, tampered: bool, report: Report) {
    match report
    case Passed => !tampered
    case TamperingDetected(findings) => tampered && findings != [] && Reports(findings, ChainMap(entries), RowMap(h, rows))
  }

  /** A verification pass does what its verdict says: it saves the verdict's checkpoint, or reports
      the differing records and leaves the checkpoints alone. */
  ghost predicate PassResult(h: Hasher, algorithm: string, table: string, now: int, rows: seq<Row>,
                             entries: seq<HashEntry>, before: map<string, MerkleCheckpoint>,
                             report: Report, after: map<string, MerkleCheckpoint>) {
    var verdict := Judge(h, rows, entries, LastOf(Scan(before, table + ":")));
    match report
    case Passed =>
      !verdict.Tampered? && after == Saved(before, CheckpointFor(verdict, table, LastOf(entries), algorithm, now))
    case TamperingDetected(findings) =>
      && verdict.Tampered? && findings != [] && after == before
      && Reports(findings, ChainMap(entries), RowMap(h, rows))
  }

  lemma FastPassConcludes(h: Hasher, algorithm: string, table: string, now: int, rows: seq<Row>, entries: seq<HashEntry>,
                          cp: Option<MerkleCheckpoint>)
    requires var expected := ExpectedLeaves(entries, cp);
      expected == [] || SameRootAndSize(h, RowLeaves(h, rows), expected)
    ensures var verdict := Judge(h, rows, entries, cp);
      && !verdict.Tampered?
      && CheckpointFor(verdict, table, LastOf(entries), algorithm, now) ==
         NewCheckpoint(table, LastOf(entries), RootOver(h, RowLeaves(h, rows)), |rows|, PgTree(h, rows), algorithm, now)
  {
  }

  /** The checkpoint a detailed verification makes if it finds nothing. */
  function DetailedCheckpoint(h: Hasher, algorithm: string, table: string, now: int, rows: seq<Row>,
                              entries: seq<HashEntry>): MerkleCheckpoint {
    NewCheckpoint(table, LastOf(entries), RootOver(h, RowLeaves(h, rows)), |RowMap(h, rows)|, TreeData(map[], map[]),
                  algorithm, now)
  }

  /** After a failed fast comparison the detailed one decides. */
  lemma DetailedResultConcludes(h: Hasher, algorithm: string, table: string, now: int, rows: seq<Row>,
                                entries: seq<HashEntry>, cp: Option<MerkleCheckpoint>)
    requires var expected := ExpectedLeaves(entries, cp);
      expected != [] && !SameRootAndSize(h, RowLeaves(h, rows), expected)
    ensures var verdict := Judge(h, rows, entries, cp);
      && (verdict.Tampered? <==> ChainMap(entries) != RowMap(h, rows))
      && (!verdict.Tampered? ==> CheckpointFor(verdict, table, LastOf(entries), algorithm, now) ==
                                 DetailedCheckpoint(h, algorithm, table, now, rows, entries))
  {
  }

  lemma RowMapIsEmptyIff(h: Hasher, rows: seq<Row>)
    ensures RowMap(h, rows) == map[] <==> rows == []
  {
    if rows != [] {
      assert rows[|rows| - 1].id in RowMap(h, rows);
    }
  }

  /** Leaves added in any order over the whole map give the root over the values in key order. */
  lemma LeavesAreTheMap(h: Hasher, leaves: seq<string>, leafMap: LeafMap)
    requires multiset(leaves) == ValuesOf(leafMap) && leafMap != map[]
    ensures leaves != [] && RootOver(h, leaves) == RootOver(h, Collect(leafMap, leafMap.Keys))
  {
    CollectHasValues(leafMap, leafMap.Keys);
    ValuesOfSize(leafMap);
    assert |multiset(leaves)| == |leafMap|;
    SameMultisetSameRoot(h, leaves, Collect(leafMap, leafMap.Keys));
  }

  lemma SameMultisetSameRoot(h: Hasher, a: seq<string>, b: seq<string>)
    requires multiset(a) == multiset(b)
    ensures RootOver(h, a) == RootOver(h, b) && |a| == |b|
  {
    SortForgetsOrder(a, b);
    assert |a| == |SortStrings(a)| == |b|;
  }
}
