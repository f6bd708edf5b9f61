/** The two recursive walks that skip a right child sharing its left sibling's pointer. */
module MerkleWalks {
  import opened Hashing
  import opened Powers
  import opened MerkleShape

  /** Integer division by two as Go does it, towards zero. */
  function Half(x: int): int {
    if x >= 0 then x / 2 else -((-x) / 2)
  }

  function TamperedWalk(t: Tree, start: int, end: int): (r: seq<int>)
    ensures r != [] && r[0] == start
  {
    match t
    case Leaf(_) => [start]
    case Node(_, l, r, shared) =>
      var mid := Half(start + end);
      TamperedWalk(l, start, mid) + (if shared then [] else TamperedWalk(r, mid + 1, end))
  }

  function Range(lo: int, hi: int): (r: seq<int>)
    requires lo <= hi
    ensures |r| == hi - lo
    ensures forall i :: 0 <= i < |r| ==> r[i] == lo + i
  {
    seq(hi - lo, i => lo + i)
  }

  /** The walk meets every leaf once, however many halves are shared. */
  lemma {:induction false} WalkMeetsEachLeafOnce(h: Hasher, t: Tree, s: seq<string>, d: nat, start: int, end: int)
    requires Covers(h, t, s, d)
    ensures |TamperedWalk(t, start, end)| == |s|
  {
    if t.Node? {
      var mid := Half(start + end);
      if t.shared {
        WalkMeetsEachLeafOnce(h, t.left, s, d - 1, start, mid);
      } else {
        WalkMeetsEachLeafOnce(h, t.left, s[..Pow2(d - 1)], d - 1, start, mid);
        WalkMeetsEachLeafOnce(h, t.right, s[Pow2(d - 1)..], d - 1, mid + 1, end);
      }
    }
  }

  /** Given a row of `size` positions from `start`, the walk reports n indices from `start` on. */
  ghost predicate WalksInOrder(t: Tree, start: nat, size: nat, n: nat) {
    TamperedWalk(t, start, start + size - 1) == Range(start, start + n)
  }

  lemma WalkOfJoin(t: Tree, start: nat, k: nat, size: nat, n: nat)
    requires t.Node? && !t.shared && 0 < k < n && k - 1 <= size - k <= k
    requires WalksInOrder(t.left, start, k, k)
    requires WalksInOrder(t.right, start + k, size - k, n - k)
    ensures WalksInOrder(t, start, size, n)
  {
    assert Half(start + (start + size - 1)) == start + k - 1;
    assert start + k + (size - k) - 1 == start + size - 1;
  }

  /** Over a full or nearly full row of leaves the midpoints follow the tree. */
  lemma {:induction false} WalkOverFullRow(h: Hasher, t: Tree, s: seq<string>, d: nat, start: nat, size: nat)
    requires Covers(h, t, s, d)
    requires |s| == Pow2(d) || |s| == size == Pow2(d) - 1
    requires size == Pow2(d) || size == Pow2(d) - 1
    ensures WalksInOrder(t, start, size, |s|)
  {
    if t.Node? {
      var k := Pow2(d - 1);
      if t.shared {
        assert |s| == k == 1 && t.left.Leaf?;
        assert Half(start + start) == start;
      } else {
        WalkOverFullRow(h, t.left, s[..k], d - 1, start, k);
        WalkOverFullRow(h, t.right, s[k..], d - 1, start + k, size - k);
        WalkOfJoin(t, start, k, size, |s|);
      }
    }
  }

  /** The indices reported for a tree of n leaves are 0..n-1 exactly when n is a power of two or
      one less than one. */
  lemma WalkIsExactIff(h: Hasher, t: Tree, s: seq<string>)
    requires s != [] && Covers(h, t, s, Height(|s|))
    ensures TamperedWalk(t, 0, |s| - 1) == Range(0, |s|) <==>
            |s| == Pow2(Height(|s|)) || |s| == Pow2(Height(|s|)) - 1
  {
    var n, d := |s|, Height(|s|);
    HeightIsCeilingLog(n);
    if n == Pow2(d) || n == Pow2(d) - 1 {
      WalkOverFullRow(h, t, s, d, 0, n);
      assert WalksInOrder(t, 0, n, n);
    } else {
      var k := Pow2(d - 1);
      var mid := Half(0 + (n - 1));
      WalkMeetsEachLeafOnce(h, t.left, s[..k], d - 1, 0, mid);
      assert TamperedWalk(t, 0, n - 1)[k] == mid + 1 != k;
    }
  }

  // ---------------------------------------------------------------- node paths

  function CollectNodes(t: Tree, path: string): (m: map<string, string>)
    ensures path in m && m[path] == t.hash
    decreases t
  {
    match t
    case Leaf(hash) => map[path := hash]
    case Node(hash, l, r, shared) =>
      CollectNodes(l, path + "/L")
      + (if shared then map[] else CollectNodes(r, path + "/R"))
      + map[path := hash]
  }

  lemma {:induction false} PathsExtend(t: Tree, path: string)
    ensures forall k :: k in CollectNodes(t, path) ==> path <= k
    decreases t
  {
    if t.Node? {
      PathsExtend(t.left, path + "/L");
      PathsExtend(t.right, path + "/R");
    }
  }

  /** Below different children there are different paths, none of them the parent's. */
  lemma ChildPathsAreApart(t: Tree, path: string)
    requires t.Node?
    ensures CollectNodes(t.left, path + "/L").Keys !! CollectNodes(t.right, path + "/R").Keys
    ensures path !in CollectNodes(t.left, path + "/L") && path !in CollectNodes(t.right, path + "/R")
  {
    PathsExtend(t.left, path + "/L");
    PathsExtend(t.right, path + "/R");
    forall k | k in CollectNodes(t.left, path + "/L") ensures k[|path| + 1] == 'L' && k != path {
      assert k[|path| + 1] == (path + "/L")[|path| + 1];
    }
    forall k | k in CollectNodes(t.right, path + "/R") ensures k[|path| + 1] == 'R' && k != path {
      assert k[|path| + 1] == (path + "/R")[|path| + 1];
    }
  }

  /** Storing the parent's hash before the children's gives the same map. */
  lemma CollectInOrder(t: Tree, path: string, nodes: map<string, string>)
    ensures nodes + CollectNodes(t, path) ==
      match t
      case Leaf(hash) => nodes[path := hash]
      case Node(hash, l, r, shared) =>
        nodes[path := hash] + CollectNodes(l, path + "/L") + (if shared then map[] else CollectNodes(r, path + "/R"))
  {
    if t.Node? {
      ChildPathsAreApart(t, path);
      var r := if t.shared then map[] else CollectNodes(t.right, path + "/R");
      ParentFirst(nodes, CollectNodes(t.left, path + "/L"), r, path, t.hash);
    }
  }

  lemma ParentFirst(m: map<string, string>, a: map<string, string>, b: map<string, string>, k: string, v: string)
    requires k !in a && k !in b
    ensures m + (a + b + map[k := v]) == m[k := v] + a + b
  {
  }

  /** Nodes per level, added up: n + ceil(n/2) + ... + ceil(n/2^d). */
  function LevelSum(n: nat, d: nat): nat {
    n + (if d == 0 then 0 else LevelSum((n + 1) / 2, d - 1))
  }

  lemma {:induction false} LevelSumTop(n: nat, d: nat)
    requires 0 < n <= Pow2(d) && d > 0
    ensures LevelSum(n, d) == LevelSum(n, d - 1) + 1
  {
    if d == 1 {
      assert LevelSum(n, 1) == n + LevelSum((n + 1) / 2, 0);
    } else {
      LevelSumTop((n + 1) / 2, d - 1);
    }
  }

  lemma {:induction false} LevelSumSplit(m: nat, j: nat)
    ensures LevelSum(Pow2(j) + m, j) == LevelSum(Pow2(j), j) + LevelSum(m, j)
  {
    if j > 0 {
      assert (Pow2(j) + m + 1) / 2 == Pow2(j - 1) + (m + 1) / 2;
      assert (Pow2(j) + 1) / 2 == Pow2(j - 1);
      LevelSumSplit((m + 1) / 2, j - 1);
    }
  }

  lemma LevelSumJoin(n: nat, d: nat)
    requires 0 < n <= Pow2(d) && d > 0
    ensures LevelSum(n, d) == 1 +
      (if n <= Pow2(d - 1) then LevelSum(n, d - 1)
       else LevelSum(Pow2(d - 1), d - 1) + LevelSum(n - Pow2(d - 1), d - 1))
  {
    LevelSumTop(n, d);
    if n > Pow2(d - 1) {
      LevelSumSplit(n - Pow2(d - 1), d - 1);
    }
  }

  lemma {:induction false} LevelSumBound(n: nat, d: nat)
    requires n > 0
    ensures LevelSum(n, d) <= 2 * n + d - 1
  {
    if d > 0 {
      LevelSumBound((n + 1) / 2, d - 1);
    }
  }

  lemma DisjointUnionSize(a: map<string, string>, b: map<string, string>)
    requires a.Keys !! b.Keys
    ensures |a + b| == |a| + |b|
  {
    assert (a + b).Keys == a.Keys + b.Keys;
    assert |a.Keys + b.Keys| == |a.Keys| + |b.Keys|;
  }

  /** Nodes that are not reached a second time through a shared pointer. */
  ghost function OwnNodes(t: Tree): nat {
    match t
    case Leaf(_) => 1
    case Node(_, l, r, shared) => 1 + OwnNodes(l) + (if shared then 0 else OwnNodes(r))
  }

  /** No path is written twice. */
  lemma {:induction false} EachNodeHasItsPath(t: Tree, path: string)
    ensures |CollectNodes(t, path)| == OwnNodes(t)
    decreases t
  {
    if t.Node? {
      ChildPathsAreApart(t, path);
      EachNodeHasItsPath(t.left, path + "/L");
      EachNodeHasItsPath(t.right, path + "/R");
      var l := CollectNodes(t.left, path + "/L");
      var r := if t.shared then map[] else CollectNodes(t.right, path + "/R");
      DisjointUnionSize(l, r);
      DisjointUnionSize(l + r, map[path := t.hash]);
    }
  }

  lemma {:induction false} OwnNodesPerLevel(h: Hasher, t: Tree, s: seq<string>, d: nat)
    requires Covers(h, t, s, d)
    ensures OwnNodes(t) == LevelSum(|s|, d)
  {
    if t.Node? {
      LevelSumJoin(|s|, d);
      if t.shared {
        OwnNodesPerLevel(h, t.left, s, d - 1);
      } else {
        OwnNodesPerLevel(h, t.left, s[..Pow2(d - 1)], d - 1);
        OwnNodesPerLevel(h, t.right, s[Pow2(d - 1)..], d - 1);
      }
    }
  }

  /** The stored node map of a tree of n leaves has n + ceil(n/2) + ceil(n/4) + ... entries: one
      path per node that is not reached a second time. */
  lemma NodeMapSize(h: Hasher, t: Tree, s: seq<string>, path: string)
    requires s != [] && Covers(h, t, s, Height(|s|))
    ensures |CollectNodes(t, path)| == LevelSum(|s|, Height(|s|)) <= 2 * |s| + Height(|s|) - 1
  {
    EachNodeHasItsPath(t, path);
    OwnNodesPerLevel(h, t, s, Height(|s|));
    LevelSumBound(|s|, Height(|s|));
  }

  /** The hash equation read off the stored paths: a missing right path means "same as left". */
  ghost predicate NodeEquation(h: Hasher, m: map<string, string>, k: string)
    requires k in m
  {
    && (k + "/R" in m ==> k + "/L" in m)
    && (k + "/L" in m ==>
          m[k] == h.digest(m[k + "/L"] + m[if k + "/R" in m then k + "/R" else k + "/L"]))
  }

  lemma {:induction false} NodeEquationsHold(h: Hasher, t: Tree, path: string)
    requires Hashed(h, t)
    ensures forall k :: k in CollectNodes(t, path) ==> NodeEquation(h, CollectNodes(t, path), k)
    decreases t
  {
    var m := CollectNodes(t, path);
    if t.Leaf? {
      assert |path + "/L"| != |path| && |path + "/R"| != |path|;
    } else {
      var left, right := CollectNodes(t.left, path + "/L"), CollectNodes(t.right, path + "/R");
      NodeEquationsHold(h, t.left, path + "/L");
      NodeEquationsHold(h, t.right, path + "/R");
      ChildPathsAreApart(t, path);
      forall k | k in m ensures NodeEquation(h, m, k) {
        if k == path {
          assert m[path + "/L"] == left[path + "/L"];
          assert path + "/R" !in left by {
            PathsExtend(t.left, path + "/L");
            assert (path + "/R")[|path| + 1] != (path + "/L")[|path| + 1];
          }
        } else if k in left {
          ChildPathsStay(t.left, t.right, path, k, "/L", "/R");
        } else {
          ChildPathsStay(t.right, t.left, path, k, "/R", "/L");
        }
      }
    }
  }

  /** One step below a path of one child is never a path of the other child or of the parent. */
  lemma ChildPathsStay(child: Tree, other: Tree, path: string, k: string, step: string, otherStep: string)
    requires step in ["/L", "/R"] && otherStep in ["/L", "/R"] && step != otherStep
    requires k in CollectNodes(child, path + step)
    ensures k + "/L" !in CollectNodes(other, path + otherStep) && k + "/L" != path
    ensures k + "/R" !in CollectNodes(other, path + otherStep) && k + "/R" != path
    ensures k !in CollectNodes(other, path + otherStep) && k != path
  {
    PathsExtend(child, path + step);
    PathsExtend(other, path + otherStep);
    assert k[|path| + 1] == (path + step)[|path| + 1] == step[1];
    forall q | q in CollectNodes(other, path + otherStep) ensures q[|path| + 1] == otherStep[1] {
      assert q[|path| + 1] == (path + otherStep)[|path| + 1];
    }
    assert step[1] != otherStep[1];
  }
}
