/** internal/hash/merkle.go: comparing two leaf maps, with and without the root shortcut. */
module LeafMaps {
  import opened Hashing
  import opened MerkleBinding
  import opened MerkleShape
  import opened MerkleTreeBuilders
  import opened MerkleWalks
  import opened Options

  datatype Kind = Modified | MissingInActual | MissingInExpected
  datatype DifferingRecord = DifferingRecord(recordID: string, expectedHash: string, actualHash: string, kind: Kind)

  type LeafMap = map<string, string>

  predicate Differs(expected: LeafMap, actual: LeafMap, id: string) {
    (id in expected) != (id in actual) || (id in expected && expected[id] != actual[id])
  }

  function Difference(expected: LeafMap, actual: LeafMap, id: string): DifferingRecord
    requires Differs(expected, actual, id)
  {
    if id !in actual then DifferingRecord(id, expected[id], "", MissingInActual)
    else if id !in expected then DifferingRecord(id, "", actual[id], MissingInExpected)
    else DifferingRecord(id, expected[id], actual[id], Modified)
  }

  /** r holds one record, correctly classified, for each of the ids on which the maps differ. */
  ghost predicate ReportsOn(r: seq<DifferingRecord>, expected: LeafMap, actual: LeafMap, ids: set<string>) {
    && (forall i, j :: 0 <= i < j < |r| ==> r[i].recordID != r[j].recordID)
    && (forall i :: 0 <= i < |r| ==>
          && r[i].recordID in ids
          && Differs(expected, actual, r[i].recordID)
          && r[i] == Difference(expected, actual, r[i].recordID))
    && (forall id :: id in ids && Differs(expected, actual, id) ==> exists i :: 0 <= i < |r| && r[i].recordID == id)
  }

  ghost predicate Reports(r: seq<DifferingRecord>, expected: LeafMap, actual: LeafMap) {
    ReportsOn(r, expected, actual, expected.Keys + actual.Keys)
  }

  /** A complete report is empty exactly when the maps are equal. */
  lemma EmptyReport(r: seq<DifferingRecord>, expected: LeafMap, actual: LeafMap)
    requires Reports(r, expected, actual)
    ensures r == [] <==> expected == actual
  {
    if r == [] {
      forall id | id in expected || id in actual
        ensures id in expected && id in actual && expected[id] == actual[id]
      {
        assert !Differs(expected, actual, id);
      }
    } else {
      assert Differs(expected, actual, r[0].recordID);
    }
  }

  lemma ReportGrows(r: seq<DifferingRecord>, longer: seq<DifferingRecord>,
                    expected: LeafMap, actual: LeafMap, ids: set<string>, id: string)
    requires ReportsOn(r, expected, actual, ids) && id !in ids
    requires longer == if Differs(expected, actual, id) then r + [Difference(expected, actual, id)] else r
    ensures ReportsOn(longer, expected, actual, ids + {id})
  {
    forall x | x in ids + {id} && Differs(expected, actual, x)
      ensures exists i :: 0 <= i < |longer| && longer[i].recordID == x
    {
      if x == id {
        assert longer[|r|].recordID == x;
      } else {
        var i :| 0 <= i < |r| && r[i].recordID == x;
        assert longer[i].recordID == x;
      }
    }
  }

  /** Go iterates maps in any order; so does this loop. */
  method CompareLeafMaps(expected: LeafMap, actual: LeafMap) returns (differing: seq<DifferingRecord>)
    ensures Reports(differing, expected, actual)
  {
    differing := [];
    ghost var done: set<string> := {};
    var todo := expected.Keys;
    while todo != {}
      invariant todo !! done && todo + done == expected.Keys
      invariant ReportsOn(differing, expected, actual, done)
      decreases |todo|
    {
      var recordID :| recordID in todo;
      todo := todo - {recordID};
      ghost var before := differing;
      if recordID !in actual {
        differing := differing + [DifferingRecord(recordID, expected[recordID], "", MissingInActual)];
      } else if expected[recordID] != actual[recordID] {
        differing := differing + [DifferingRecord(recordID, expected[recordID], actual[recordID], Modified)];
      }
      ReportGrows(before, differing, expected, actual, done, recordID);
      done := done + {recordID};
    }
    differing := AddMissingInExpected(expected, actual, differing);
  }

  /** The second pass, over the ids of the actual map. */
  method AddMissingInExpected(expected: LeafMap, actual: LeafMap, found: seq<DifferingRecord>)
    returns (differing: seq<DifferingRecord>)
    requires ReportsOn(found, expected, actual, expected.Keys)
    ensures Reports(differing, expected, actual)
  {
    differing := found;
    ghost var done := expected.Keys;
    var todo := actual.Keys;
    while todo != {}
      invariant todo <= actual.Keys
      invariant forall id :: id in done <==> id in expected || (id in actual && id !in todo)
      invariant ReportsOn(differing, expected, actual, done)
      decreases |todo|
    {
      var recordID :| recordID in todo;
      todo := todo - {recordID};
      if recordID !in expected {
        ghost var before := differing;
        differing := differing + [DifferingRecord(recordID, "", actual[recordID], MissingInExpected)];
        ReportGrows(before, differing, expected, actual, done, recordID);
        done := done + {recordID};
      }
    }
    assert done == expected.Keys + actual.Keys;
  }

  /** A missing builder is nil in the source; None is Go's nil slice. */
  method CompareTreesDetailed(expected: MerkleTreeBuilder?, actual: MerkleTreeBuilder?)
    returns (r: Option<seq<DifferingRecord>>)
    requires expected != null ==> expected.Valid()
    requires actual != null ==> actual.Valid()
    ensures r.None? <==> expected == null || actual == null
    ensures r.Some? ==>
      if expected.root != null && actual.root != null && expected.root.shape.hash == actual.root.shape.hash
      then r.value == []
      else Reports(r.value, expected.leafDataMap, actual.leafDataMap)
  {
    if expected == null || actual == null {
      return None;
    }
    if expected.root != null && actual.root != null && expected.root.hash == actual.root.hash {
      return Some([]);
    }
    var differing := CompareLeafMaps(expected.leafDataMap, actual.leafDataMap);
    r := Some(differing);
  }

  /** Node maps may be absent; present ones are consulted for their root entry only. */
  method CompareLeafMapsWithNodes(expected: LeafMap, actual: LeafMap,
                                  expectedNodes: Option<LeafMap>, actualNodes: Option<LeafMap>)
    returns (r: seq<DifferingRecord>)
    ensures if SameStoredRoot(expectedNodes, actualNodes) then r == [] else Reports(r, expected, actual)
  {
    if expectedNodes.Some? && actualNodes.Some? {
      if "root" in expectedNodes.value && "root" in actualNodes.value
         && expectedNodes.value["root"] == actualNodes.value["root"] {
        return [];
      }
    }
    r := CompareLeafMaps(expected, actual);
  }

  predicate SameStoredRoot(a: Option<LeafMap>, b: Option<LeafMap>) {
    && a.Some? && b.Some? && "root" in a.value && "root" in b.value
    && a.value["root"] == b.value["root"]
  }

  /** The builder's records are exactly these rows, each added once. */
  ghost predicate HoldsRows(b: MerkleTreeBuilder, rows: map<string, string>)
    reads b
  {
    b.leafDataMap == RowHashes(b.hasher, rows) && LeavesOf(b.hasher, b.leaves, rows)
  }

  /** The root shortcut gives what the full comparison of the leaf maps would have given, or the
      two trees hashed two different strings to one digest. */
  method CompareBuiltTrees(expected: MerkleTreeBuilder, rowsE: map<string, string>,
                           actual: MerkleTreeBuilder, rowsA: map<string, string>, ghost idOf: string -> string)
    returns (r: seq<DifferingRecord>)
    requires expected.Valid() && expected.Fresh() && HoldsRows(expected, rowsE) && RowsReadBack(rowsE, idOf)
    requires actual.Valid() && actual.Fresh() && HoldsRows(actual, rowsA) && RowsReadBack(rowsA, idOf)
    requires expected.hasher == actual.hasher
    ensures var h := expected.hasher;
      || Reports(r, RowHashes(h, rowsE), RowHashes(h, rowsA))
      || Collides(h, rowsE.Values + rowsA.Values + BuildTexts(h, expected.leaves) + BuildTexts(h, actual.leaves))
  {
    if expected.root.hash == actual.root.hash {
      RootAloneBinds(expected.hasher, expected.leaves, rowsE, actual.leaves, rowsA, idOf);
    }
    var detailed := CompareTreesDetailed(expected, actual);
    r := detailed.value;
  }

  /** A fresh tree's rows, as a checkpoint keeps them: the id-to-hash map and the node map. */
  ghost predicate StoresTree(h: Hasher, rows: map<string, string>, leaves: seq<string>, leafMap: LeafMap, nodes: LeafMap) {
    && leaves != [] && LeavesOf(h, leaves, rows)
    && leafMap == RowHashes(h, rows) && nodes == CollectNodes(BuildTree(h, leaves), "root")
  }

  lemma StoredRoots(h: Hasher, rowsE: map<string, string>, leavesE: seq<string>, nodesE: LeafMap,
                    rowsA: map<string, string>, leavesA: seq<string>, nodesA: LeafMap)
    requires leavesE != [] && leavesA != []
    requires nodesE == CollectNodes(BuildTree(h, leavesE), "root") && nodesA == CollectNodes(BuildTree(h, leavesA), "root")
    ensures SameStoredRoot(Some(nodesE), Some(nodesA)) <==> BuildTree(h, leavesE).hash == BuildTree(h, leavesA).hash
  {
  }

  /** So is the shortcut on stored node maps: its empty answer is the correct report on the two leaf
      maps, or two different strings hashed for the trees collide. */
  method CompareStoredTrees(expected: LeafMap, actual: LeafMap, expectedNodes: LeafMap, actualNodes: LeafMap,
                            ghost h: Hasher, ghost rowsE: map<string, string>, ghost leavesE: seq<string>,
                            ghost rowsA: map<string, string>, ghost leavesA: seq<string>, ghost idOf: string -> string)
    returns (r: seq<DifferingRecord>)
    requires StoresTree(h, rowsE, leavesE, expected, expectedNodes) && RowsReadBack(rowsE, idOf)
    requires StoresTree(h, rowsA, leavesA, actual, actualNodes) && RowsReadBack(rowsA, idOf)
    ensures || Reports(r, expected, actual)
            || Collides(h, rowsE.Values + rowsA.Values + BuildTexts(h, leavesE) + BuildTexts(h, leavesA))
  {
    StoredRoots(h, rowsE, leavesE, expectedNodes, rowsA, leavesA, actualNodes);
    if BuildTree(h, leavesE).hash == BuildTree(h, leavesA).hash {
      RootAloneBinds(h, leavesE, rowsE, leavesA, rowsA, idOf);
    }
    r := CompareLeafMapsWithNodes(expected, actual, Some(expectedNodes), Some(actualNodes));
  }
}
