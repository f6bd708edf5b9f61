/** The tree that the level-by-level construction of internal/hash/merkle.go leaves behind,
    and a top-down description of the same tree. */
module MerkleShape {
  import opened ByteStrings
  import opened Hashing
  import opened Powers

  /** A finished tree. `shared` records that both child pointers of a node are the same pointer. */
  datatype Tree =
    | Leaf(hash: string)
    | Node(hash: string, left: Tree, right: Tree, shared: bool)

  function Join(h: Hasher, left: Tree, right: Tree, shared: bool): Tree {
    Node(h.digest(left.hash + right.hash), left, right, shared)
  }

  /** One level of the construction: neighbours are paired, an odd last node is paired with itself. */
  function PairUp(h: Hasher, nodes: seq<Tree>): (r: seq<Tree>)
    ensures |r| == (|nodes| + 1) / 2
  {
    if nodes == [] then []
    else if |nodes| == 1 then [Join(h, nodes[0], nodes[0], true)]
    else [Join(h, nodes[0], nodes[1], false)] + PairUp(h, nodes[2..])
  }

  /** Level after level until one node is left. */
  function Assemble(h: Hasher, nodes: seq<Tree>): Tree
    requires nodes != []
    decreases |nodes|
  {
    if |nodes| == 1 then nodes[0] else Assemble(h, PairUp(h, nodes))
  }

  function Leaves(s: seq<string>): (r: seq<Tree>)
    ensures |r| == |s|
    ensures forall i :: 0 <= i < |s| ==> r[i] == Leaf(s[i])
  {
    seq(|s|, i requires 0 <= i < |s| => Leaf(s[i]))
  }

  /** The tree `Build` makes out of the leaf hashes added so far. */
  function BuildTree(h: Hasher, leaves: seq<string>): Tree
    requires leaves != []
  {
    Assemble(h, Leaves(SortStrings(leaves)))
  }

  /** The tree of height d over nodes: a half that would be empty repeats the other half. */
  function TopDown(h: Hasher, nodes: seq<Tree>, d: nat): Tree
    requires 0 < |nodes| <= Pow2(d)
  {
    if d == 0 then nodes[0]
    else if |nodes| <= Pow2(d - 1) then
      var half := TopDown(h, nodes, d - 1);
      Join(h, half, half, true)
    else
      Join(h, TopDown(h, nodes[..Pow2(d - 1)], d - 1), TopDown(h, nodes[Pow2(d - 1)..], d - 1), false)
  }

  lemma {:induction false} PairUpConcat(h: Hasher, a: seq<Tree>, b: seq<Tree>)
    requires |a| % 2 == 0
    ensures PairUp(h, a + b) == PairUp(h, a) + PairUp(h, b)
  {
    if a == [] {
      assert a + b == b;
    } else {
      assert (a + b)[2..] == a[2..] + b;
      PairUpConcat(h, a[2..], b);
    }
  }

  /** What one turn of the level loop adds. */
  lemma PairUpNext(h: Hasher, nodes: seq<Tree>, i: nat)
    requires i % 2 == 0 && i < |nodes|
    ensures var last := i + 1 == |nodes|;
      PairUp(h, nodes[..if last then i + 1 else i + 2])
      == PairUp(h, nodes[..i]) + [Join(h, nodes[i], if last then nodes[i] else nodes[i + 1], last)]
  {
    var pair := if i + 1 == |nodes| then [nodes[i]] else [nodes[i], nodes[i + 1]];
    assert nodes[..i + |pair|] == nodes[..i] + pair;
    PairUpConcat(h, nodes[..i], pair);
    if |pair| == 2 {
      assert PairUp(h, pair[2..]) == [];
    }
  }

  lemma PairUpSplits(h: Hasher, nodes: seq<Tree>, k: nat)
    requires 2 * k <= |nodes|
    ensures PairUp(h, nodes)[..k] == PairUp(h, nodes[..2 * k])
    ensures PairUp(h, nodes)[k..] == PairUp(h, nodes[2 * k..])
  {
    assert nodes == nodes[..2 * k] + nodes[2 * k..];
    PairUpConcat(h, nodes[..2 * k], nodes[2 * k..]);
  }

  /** One level up, the top-down tree has one level less. */
  lemma {:induction false} TopDownOfPairUp(h: Hasher, nodes: seq<Tree>, d: nat)
    requires 0 < |nodes| <= Pow2(d + 1)
    ensures TopDown(h, nodes, d + 1) == TopDown(h, PairUp(h, nodes), d)
  {
    if d == 0 {
      if |nodes| == 2 {
        assert nodes[..1][0] == nodes[0] && nodes[1..][0] == nodes[1];
      }
    } else if |nodes| <= Pow2(d) {
      TopDownOfPairUp(h, nodes, d - 1);
    } else {
      TopDownOfPairUp(h, nodes[..Pow2(d)], d - 1);
      TopDownOfPairUp(h, nodes[Pow2(d)..], d - 1);
      PairUpSplits(h, nodes, Pow2(d - 1));
    }
  }

  /** The level-by-level construction and the top-down one give the same tree, sharing included. */
  lemma {:induction false} AssembleIsTopDown(h: Hasher, nodes: seq<Tree>)
    requires nodes != []
    ensures |nodes| <= Pow2(Height(|nodes|))
    ensures Assemble(h, nodes) == TopDown(h, nodes, Height(|nodes|))
    decreases |nodes|
  {
    HeightIsCeilingLog(|nodes|);
    if |nodes| > 1 {
      AssembleIsTopDown(h, PairUp(h, nodes));
      TopDownOfPairUp(h, nodes, Height(|nodes|) - 1);
    }
  }

  // ---------------------------------------------------------------- what every tree satisfies

  /** Every inner node carries the digest of its children's hashes; shared children are equal. */
  ghost predicate Hashed(h: Hasher, t: Tree) {
    match t
    case Leaf(_) => true
    case Node(hash, l, r, shared) =>
      && hash == h.digest(l.hash + r.hash)
      && (shared ==> l == r)
      && Hashed(h, l) && Hashed(h, r)
  }

  ghost predicate Perfect(t: Tree, d: nat) {
    match t
    case Leaf(_) => d == 0
    case Node(_, l, r, _) => d > 0 && Perfect(l, d - 1) && Perfect(r, d - 1)
  }

  ghost predicate LeavesHaveWidth(t: Tree, width: nat) {
    match t
    case Leaf(hash) => |hash| == width
    case Node(_, l, r, _) => LeavesHaveWidth(l, width) && LeavesHaveWidth(r, width)
  }

  /** The leaf hashes from left to right, every repeated half written out. */
  ghost function Flat(t: Tree): (s: seq<string>)
    ensures s != []
  {
    match t
    case Leaf(hash) => [hash]
    case Node(_, l, r, _) => Flat(l) + Flat(r)
  }

  lemma {:induction false} PerfectFlat(t: Tree, d: nat)
    requires Perfect(t, d)
    ensures |Flat(t)| == Pow2(d)
  {
    if t.Node? {
      PerfectFlat(t.left, d - 1);
      PerfectFlat(t.right, d - 1);
    }
  }

  /** t is the tree of height d over the leaf row s: the left half is full before the right half
      starts, and a half with nothing of its own is the other half, shared. */
  ghost predicate Covers(h: Hasher, t: Tree, s: seq<string>, d: nat) {
    match t
    case Leaf(hash) => d == 0 && s == [hash]
    case Node(hash, l, r, shared) =>
      && d > 0 && 0 < |s| <= Pow2(d)
      && hash == h.digest(l.hash + r.hash)
      && (shared <==> |s| <= Pow2(d - 1))
      && (if shared then l == r && Covers(h, l, s, d - 1)
          else Covers(h, l, s[..Pow2(d - 1)], d - 1) && Covers(h, r, s[Pow2(d - 1)..], d - 1))
  }

  lemma {:induction false} TopDownCovers(h: Hasher, s: seq<string>, d: nat)
    requires 0 < |s| <= Pow2(d)
    ensures Covers(h, TopDown(h, Leaves(s), d), s, d)
  {
    if d == 0 {
    } else if |s| <= Pow2(d - 1) {
      TopDownCovers(h, s, d - 1);
    } else {
      var k := Pow2(d - 1);
      assert Leaves(s)[..k] == Leaves(s[..k]) && Leaves(s)[k..] == Leaves(s[k..]);
      TopDownCovers(h, s[..k], d - 1);
      TopDownCovers(h, s[k..], d - 1);
    }
  }

  lemma {:induction false} CoversPadsLeaves(h: Hasher, t: Tree, s: seq<string>, d: nat)
    requires Covers(h, t, s, d)
    ensures 0 < |s| <= Pow2(d) == |Flat(t)|
    ensures Hashed(h, t) && Perfect(t, d)
    ensures Flat(t)[..|s|] == s
    ensures forall x :: x in Flat(t) ==> x in s
  {
    if t.Node? {
      if t.shared {
        CoversPadsLeaves(h, t.left, s, d - 1);
      } else {
        var a, b := s[..Pow2(d - 1)], s[Pow2(d - 1)..];
        CoversPadsLeaves(h, t.left, a, d - 1);
        CoversPadsLeaves(h, t.right, b, d - 1);
        assert Flat(t.left) == a && s == a + b;
      }
    }
  }

  /** What every tree `Build` makes shows of its leaves: it covers the sorted leaves at the least
      possible height, and its padded leaf row starts with them and repeats nothing else. */
  lemma BuildTreeShape(h: Hasher, leaves: seq<string>)
    requires leaves != []
    ensures var t, s, d := BuildTree(h, leaves), SortStrings(leaves), Height(|leaves|);
      && Covers(h, t, s, d) && Hashed(h, t) && Perfect(t, d)
      && |s| <= Pow2(d) == |Flat(t)| && Flat(t)[..|s|] == s
      && (forall x :: x in Flat(t) <==> x in leaves)
  {
    var t, s, d := BuildTree(h, leaves), SortStrings(leaves), Height(|leaves|);
    AssembleIsTopDown(h, Leaves(s));
    TopDownCovers(h, s, d);
    CoversPadsLeaves(h, t, s, d);
    SortKeepsElements(leaves);
    forall x | x in s ensures x in Flat(t) {
      assert x in Flat(t)[..|s|];
    }
  }

  lemma {:induction false} FlatWidths(t: Tree, width: nat)
    ensures LeavesHaveWidth(t, width) <==> forall x :: x in Flat(t) ==> |x| == width
  {
    if t.Node? {
      FlatWidths(t.left, width);
      FlatWidths(t.right, width);
    }
  }
}
