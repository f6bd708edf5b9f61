/** internal/hash/merkle.go: the heap nodes, the builder that owns them, and its proofs. */
module MerkleTreeBuilders {
  import opened ByteStrings
  import opened Hashing
  import opened Powers
  import opened MerkleShape
  import opened MerkleProofs
  import opened MerkleWalks

  /** A tree node. Nothing assigns to a node after it is made; an odd last node is the left and the
      right child of its parent at once. `shape` is the finished tree below the node. */
  class MerkleNode {
    const hash: string
    const left: MerkleNode?
    const right: MerkleNode?
    ghost const shape: Tree

    constructor ForLeaf(hash: string)
      ensures this.hash == hash && left == null && right == null && shape == Leaf(hash)
    {
      this.hash := hash;
      left, right := null, null;
      shape := Leaf(hash);
    }

    constructor ForPair(hash: string, left: MerkleNode, right: MerkleNode)
      ensures this.hash == hash && this.left == left && this.right == right
      ensures shape == Node(hash, left.shape, right.shape, left == right)
    {
      this.hash, this.left, this.right := hash, left, right;
      shape := Node(hash, left.shape, right.shape, left == right);
    }
  }

  /** The pointers below a node spell out its shape, shared pointers included. */
  ghost predicate Linked(node: MerkleNode)
    decreases node.shape
  {
    match node.shape
    case Leaf(hash) => node.hash == hash && node.left == null && node.right == null
    case Node(hash, l, r, shared) =>
      && node.hash == hash && node.left != null && node.right != null
      && node.left.shape == l && node.right.shape == r
      && (shared <==> node.left == node.right)
      && Linked(node.left) && Linked(node.right)
  }

  ghost function Shapes(nodes: seq<MerkleNode>): (r: seq<Tree>)
    ensures |r| == |nodes|
    ensures forall i :: 0 <= i < |nodes| ==> r[i] == nodes[i].shape
  {
    seq(|nodes|, i requires 0 <= i < |nodes| => nodes[i].shape)
  }

  /** A level of the tree under construction: linked nodes, no two the same object. */
  ghost predicate Level(nodes: seq<MerkleNode>) {
    && (forall i :: 0 <= i < |nodes| ==> Linked(nodes[i]))
    && (forall i, j :: 0 <= i < j < |nodes| ==> nodes[i] != nodes[j])
  }

  function AppendNode(nodes: seq<MerkleNode>, node: MerkleNode): (r: seq<MerkleNode>)
    requires Level(nodes) && Linked(node) && node !in nodes
    ensures r == nodes + [node] && Level(r) && Shapes(r) == Shapes(nodes) + [node.shape]
  {
    nodes + [node]
  }

  class MerkleProof {
    var leafHash: string
    var leafIndex: int
    var siblings: seq<string>
    var directions: seq<bool>

    constructor (leafHash: string, leafIndex: int)
      ensures this.leafHash == leafHash && this.leafIndex == leafIndex
      ensures siblings == [] && directions == []
    {
      this.leafHash, this.leafIndex := leafHash, leafIndex;
      siblings, directions := [], [];
    }

    /** Indexing `directions` past its end panics, so callers pass at least one per sibling. */
    method Verify(h: Hasher, expectedRoot: string) returns (ok: bool)
      requires |siblings| <= |directions|
      ensures ok <==> Climb(h, leafHash, siblings, directions) == expectedRoot
    {
      var currentHash := leafHash;
      var i := 0;
      while i < |siblings|
        invariant 0 <= i <= |siblings|
        invariant Climb(h, currentHash, siblings[i..], directions[i..])
                  == Climb(h, leafHash, siblings, directions)
      {
        var sibling, isRight := siblings[i], directions[i];
        var combined := if isRight then currentHash + sibling else sibling + currentHash;
        currentHash := h.digest(combined);
        assert siblings[i..][1..] == siblings[i + 1..] && directions[i..][1..] == directions[i + 1..];
        i := i + 1;
      }
      ok := currentHash == expectedRoot;
    }
  }

  datatype Failure = NoLeaves | RecordNotFound(id: string) | TreeNotBuilt | LeafNotInTree
  datatype Result<T> = Ok(value: T) | Err(error: Failure)

  class MerkleTreeBuilder {
    const hasher: Hasher
    var leaves: seq<string>
    var leafDataMap: map<string, string>
    var hashToID: map<string, string>
    var root: MerkleNode?

    ghost predicate Valid()
      reads this
    {
      && (root != null ==> Linked(root) && leaves != [])
      && (forall id :: id in leafDataMap ==> leafDataMap[id] in leaves)
    }

    /** The tree was built and no leaf was added since. */
    ghost predicate Fresh()
      reads this
    {
      leaves != [] && root != null && root.shape == BuildTree(hasher, leaves)
    }

    constructor (h: Hasher)
      ensures Valid() && hasher == h
      ensures leaves == [] && leafDataMap == map[] && hashToID == map[] && root == null
    {
      hasher, leaves, leafDataMap, hashToID, root := h, [], map[], map[], null;
    }

    /** `rowText` stands for the serialised row that is hashed. */
    method AddLeaf(recordID: string, rowText: string)
      requires Valid()
      modifies this
      ensures Valid() && root == old(root)
      ensures leaves == old(leaves) + [hasher.digest(rowText)]
      ensures leafDataMap == old(leafDataMap)[recordID := hasher.digest(rowText)]
      ensures hashToID == old(hashToID)[hasher.digest(rowText) := recordID]
    {
      AddLeafHash(recordID, hasher.digest(rowText));
    }

    method AddLeafHash(recordID: string, hash: string)
      requires Valid()
      modifies this
      ensures Valid() && root == old(root)
      ensures leaves == old(leaves) + [hash]
      ensures leafDataMap == old(leafDataMap)[recordID := hash]
      ensures hashToID == old(hashToID)[hash := recordID]
    {
      leaves := leaves + [hash];
      leafDataMap := leafDataMap[recordID := hash];
      hashToID := hashToID[hash := recordID];
    }

    method Build() returns (r: Result<()>)
      requires Valid()
      modifies this`root
      ensures Valid()
      ensures r == if leaves == [] then Err(NoLeaves) else Ok(())
      ensures leaves == [] ==> root == old(root)
      ensures leaves != [] ==> Fresh() && root != null && root.shape == BuildTree(hasher, leaves)
    {
      if |leaves| == 0 {
        return Err(NoLeaves);
      }
      var sortedLeaves := SortStrings(leaves);
      var nodes: seq<MerkleNode> := [];
      for i := 0 to |sortedLeaves|
        invariant |nodes| == i && Level(nodes)
        invariant forall j :: 0 <= j < i ==> nodes[j].shape == Leaf(sortedLeaves[j])
      {
        var node := new MerkleNode.ForLeaf(sortedLeaves[i]);
        nodes := nodes + [node];
      }
      assert Shapes(nodes) == Leaves(sortedLeaves);
      root := BuildLevels(nodes);
      r := Ok(());
    }

    method BuildLevels(nodes: seq<MerkleNode>) returns (top: MerkleNode)
      requires nodes != [] && Level(nodes)
      ensures Linked(top) && top.shape == Assemble(hasher, Shapes(nodes))
      decreases |nodes|
    {
      if |nodes| == 1 {
        return nodes[0];
      }
      var nextLevel: seq<MerkleNode> := [];
      ghost var shapes := Shapes(nodes);
      var i := 0;
      while i < |nodes|
        invariant i <= |nodes| + 1 && i == 2 * |nextLevel|
        invariant Level(nextLevel)
        invariant Shapes(nextLevel) == PairUp(hasher, shapes[..if i <= |nodes| then i else |nodes|])
      {
        var left := nodes[i];
        var right := if i + 1 < |nodes| then nodes[i + 1] else nodes[i];
        var combined := left.hash + right.hash;
        var parent := new MerkleNode.ForPair(hasher.digest(combined), left, right);
        PairUpNext(hasher, shapes, i);
        nextLevel := AppendNode(nextLevel, parent);
        i := i + 2;
      }
      assert shapes[..|nodes|] == shapes;
      top := BuildLevels(nextLevel);
    }

    method GetRoot() returns (r: string)
      requires Valid()
      ensures r == if root == null then "" else root.shape.hash
    {
      if root == null {
        return "";
      }
      return root.hash;
    }

    method GetProof(recordID: string) returns (r: Result<MerkleProof>)
      requires Valid()
      ensures recordID !in leafDataMap ==> r == Err(RecordNotFound(recordID))
      ensures recordID in leafDataMap && root == null ==> r == Err(TreeNotBuilt)
      ensures recordID in leafDataMap && root != null ==>
        && r.Ok? && fresh(r.value)
        && r.value.leafHash == leafDataMap[recordID]
        && r.value.leafIndex == FirstIndex(SortStrings(leaves), leafDataMap[recordID]) < |leaves|
        && var found := Path(root.shape, leafDataMap[recordID]);
           var steps := if found.Some? then found.value else Steps([], []);
           r.value.siblings == steps.siblings && r.value.directions == steps.directions
    {
      if recordID !in leafDataMap {
        return Err(RecordNotFound(recordID));
      }
      if root == null {
        return Err(TreeNotBuilt);
      }
      var leafHash := leafDataMap[recordID];
      var sortedLeaves := SortStrings(leaves);
      var leafIndex := -1;
      var i := 0;
      while i < |sortedLeaves|
        invariant 0 <= i <= |sortedLeaves| && leafIndex == -1
        invariant forall j :: 0 <= j < i ==> sortedLeaves[j] != leafHash
      {
        if sortedLeaves[i] == leafHash {
          leafIndex := i;
          break;
        }
        i := i + 1;
      }
      SortKeepsElements(leaves);
      assert leafIndex != -1;
      FirstIndexIs(sortedLeaves, leafHash, leafIndex);
      var proof := new MerkleProof(leafHash, leafIndex);
      var _ := BuildProof(root, leafHash, proof, 0, |sortedLeaves| - 1);
      r := Ok(proof);
    }

    method BuildProof(node: MerkleNode?, targetHash: string, proof: MerkleProof, start: int, end: int)
      returns (found: bool)
      requires node != null ==> Linked(node)
      modifies proof`siblings, proof`directions
      ensures found <==> node != null && Path(node.shape, targetHash).Some?
      ensures var steps := if found then Path(node.shape, targetHash).value else Steps([], []);
        && proof.siblings == old(proof.siblings) + steps.siblings
        && proof.directions == old(proof.directions) + steps.directions
      decreases node != null, if node != null then node.shape else Leaf("")
    {
      if node == null {
        return false;
      }
      if node.left == null && node.right == null {
        return node.hash == targetHash;
      }
      var mid := Half(start + end);
      found := BuildProof(node.left, targetHash, proof, start, mid);
      if found {
        if node.right != null {
          proof.siblings := proof.siblings + [node.right.hash];
          proof.directions := proof.directions + [true];
        }
        return true;
      }
      found := BuildProof(node.right, targetHash, proof, mid + 1, end);
      if found {
        if node.left != null {
          proof.siblings := proof.siblings + [node.left.hash];
          proof.directions := proof.directions + [false];
        }
        return true;
      }
      return false;
    }

    method FindTamperedLeaves(storedRoot: string) returns (r: Result<seq<int>>)
      requires Valid()
      ensures r ==
        if root == null then Err(TreeNotBuilt)
        else if root.shape.hash == storedRoot then Ok([])
        else Ok(TamperedWalk(root.shape, 0, |leaves| - 1))
    {
      if root == null {
        return Err(TreeNotBuilt);
      }
      if root.hash == storedRoot {
        return Ok([]);
      }
      var tamperedIndices := FindTamperedLeavesRecursive(root, 0, |leaves| - 1, []);
      assert tamperedIndices == TamperedWalk(root.shape, 0, |leaves| - 1);
      r := Ok(tamperedIndices);
    }

    /** The slice the indices are appended to is passed in and handed back. */
    method FindTamperedLeavesRecursive(node: MerkleNode?, start: int, end: int, tamperedIndices: seq<int>)
      returns (r: seq<int>)
      requires node != null ==> Linked(node)
      ensures r == tamperedIndices + if node == null then [] else TamperedWalk(node.shape, start, end)
      decreases node != null, if node != null then node.shape else Leaf("")
    {
      r := tamperedIndices;
      if node == null {
        return;
      }
      if node.left == null && node.right == null {
        r := r + [start];
        return;
      }
      var mid := Half(start + end);
      if node.left != null {
        r := FindTamperedLeavesRecursive(node.left, start, mid, r);
      }
      ghost var left := TamperedWalk(node.left.shape, start, mid);
      if node.right != null && node.right != node.left {
        r := FindTamperedLeavesRecursive(node.right, mid + 1, end, r);
        assert r == tamperedIndices + (left + TamperedWalk(node.right.shape, mid + 1, end));
      } else {
        assert TamperedWalk(node.shape, start, end) == left;
      }
    }

    method GetLeafMap() returns (m: map<string, string>)
      ensures m == leafDataMap
    {
      m := leafDataMap;
    }

    method GetInternalNodes() returns (m: map<string, string>)
      requires Valid()
      ensures m == if root == null then map[] else CollectNodes(root.shape, "root")
    {
      if root == null {
        return map[];
      }
      m := CollectInternalNodes(root, "root", map[]);
      assert map[] + CollectNodes(root.shape, "root") == CollectNodes(root.shape, "root");
    }

    /** The map the hashes are stored in is passed in and handed back. */
    method CollectInternalNodes(node: MerkleNode?, path: string, nodes: map<string, string>)
      returns (m: map<string, string>)
      requires node != null ==> Linked(node)
      ensures m == nodes + if node == null then map[] else CollectNodes(node.shape, path)
      decreases node != null, if node != null then node.shape else Leaf("")
    {
      m := nodes;
      if node == null {
        return;
      }
      m := m[path := node.hash];
      if node.left != null {
        m := CollectInternalNodes(node.left, path + "/L", m);
      }
      if node.right != null && node.right != node.left {
        m := CollectInternalNodes(node.right, path + "/R", m);
      }
      CollectInOrder(node.shape, path, nodes);
    }
  }

  // ---------------------------------------------------------------- what a freshly built tree promises

  /** Every leaf hash of a freshly built tree has a proof that climbs to the root, one step per
      level, and its directions are the binary digits of the leaf index `GetProof` reports. */
  lemma ProofsAreComplete(h: Hasher, leaves: seq<string>, leafHash: string)
    requires leafHash in leaves
    ensures Path(BuildTree(h, leaves), leafHash).Some?
    ensures var steps := Path(BuildTree(h, leaves), leafHash).value;
      && |steps.siblings| == |steps.directions| == Height(|leaves|)
      && Climb(h, leafHash, steps.siblings, steps.directions) == BuildTree(h, leaves).hash
      && NumeralValue(steps.directions) == FirstIndex(SortStrings(leaves), leafHash) < |leaves|
  {
    BuildTreeShape(h, leaves);
    SortKeepsElements(leaves);
    PathIsComplete(h, BuildTree(h, leaves), SortStrings(leaves), Height(|leaves|), leafHash);
  }

  /** On a differing root every leaf is reported once; the indices are 0..n-1 exactly when n is a
      power of two or one less. */
  lemma TamperedReport(h: Hasher, leaves: seq<string>)
    requires leaves != []
    ensures var n, indices := |leaves|, TamperedWalk(BuildTree(h, leaves), 0, |leaves| - 1);
      && |indices| == n
      && (indices == Range(0, n) <==> n == Pow2(Height(n)) || n == Pow2(Height(n)) - 1)
  {
    BuildTreeShape(h, leaves);
    WalkMeetsEachLeafOnce(h, BuildTree(h, leaves), SortStrings(leaves), Height(|leaves|), 0, |leaves| - 1);
    WalkIsExactIff(h, BuildTree(h, leaves), SortStrings(leaves));
  }

  /** The stored node map of n leaves has n + ceil(n/2) + ceil(n/4) + ... paths, and each node's
      hash can be recomputed from the paths below it. */
  lemma StoredNodeMap(h: Hasher, leaves: seq<string>)
    requires leaves != []
    ensures var m := CollectNodes(BuildTree(h, leaves), "root");
      && |m| == LevelSum(|leaves|, Height(|leaves|)) <= 2 * |leaves| + Height(|leaves|) - 1
      && m["root"] == BuildTree(h, leaves).hash
      && forall k :: k in m ==> NodeEquation(h, m, k)
  {
    BuildTreeShape(h, leaves);
    NodeMapSize(h, BuildTree(h, leaves), SortStrings(leaves), "root");
    NodeEquationsHold(h, BuildTree(h, leaves), "root");
  }
}
