/** Which index `findTamperedLeavesRecursive` reports for a leaf, whatever the number of leaves. */
module WalkIndices {
  import opened ByteStrings
  import opened Hashing
  import opened MerkleShape
  import opened MerkleWalks
  import opened Powers

  /** The numeral of d binary digits for i, read backwards. */
  function Reversed(d: nat, i: nat): nat {
    if d == 0 then 0
    else if i < Pow2(d - 1) then 2 * Reversed(d - 1, i)
    else 2 * Reversed(d - 1, i - Pow2(d - 1)) + 1
  }

  /** How many of the first j positions have a reversed numeral below n. */
  function Below(d: nat, n: nat, j: nat): nat
    decreases j
  {
    if j == 0 then 0 else Below(d, n, j - 1) + if Reversed(d, j - 1) < n then 1 else 0
  }

  /** Half of the positions, rounded up. */
  function LeftHalf(size: nat): (left: nat)
    ensures 2 * left == size || 2 * left == size + 1
  {
    (size + 1) / 2
  }

  lemma {:induction false} BelowInLowHalf(d: nat, n: nat, j: nat)
    requires d > 0 && j <= Pow2(d - 1)
    ensures Below(d, n, j) == Below(d - 1, LeftHalf(n), j)
    decreases j
  {
    if j > 0 {
      BelowInLowHalf(d, n, j - 1);
    }
  }

  lemma {:induction false} BelowInHighHalf(d: nat, n: nat, j: nat)
    requires d > 0 && j <= Pow2(d - 1)
    ensures Below(d, n, Pow2(d - 1) + j) == Below(d, n, Pow2(d - 1)) + Below(d - 1, n / 2, j)
    decreases j
  {
    if j > 0 {
      BelowInHighHalf(d, n, j - 1);
    }
  }

  /** Of all positions, just n are below n. */
  lemma {:induction false} BelowAll(d: nat, n: nat)
    requires n <= Pow2(d)
    ensures Below(d, n, Pow2(d)) == n
  {
    if d == 0 {
      assert Below(0, n, 1) == Below(0, n, 0) + if Reversed(0, 0) < n then 1 else 0;
    } else {
      BelowInLowHalf(d, n, Pow2(d - 1));
      BelowInHighHalf(d, n, Pow2(d - 1));
      BelowAll(d - 1, LeftHalf(n));
      BelowAll(d - 1, n / 2);
    }
  }

  /** The walk, told by how many positions are left instead of by the last one. */
  function Positions(t: Tree, start: nat, size: nat): seq<int> {
    match t
    case Leaf(_) => [start]
    case Node(_, l, r, shared) =>
      var left := LeftHalf(size);
      Positions(l, start, left) + (if shared then [] else Positions(r, start + left, size - left))
  }

  lemma MiddleOfRow(start: nat, size: nat)
    requires start > 0 || size > 0
    ensures Half(start + (start + size - 1)) == start + LeftHalf(size) - 1
  {
  }

  lemma {:induction false} WalkIsPositions(t: Tree, start: nat, size: nat, end: int)
    requires (start > 0 || size > 0) && end == start + size - 1
    ensures TamperedWalk(t, start, end) == Positions(t, start, size)
  {
    if t.Node? {
      var left := LeftHalf(size);
      MiddleOfRow(start, size);
      WalkIsPositions(t.left, start, left, start + left - 1);
      WalkIsPositions(t.right, start + left, size - left, end);
    }
  }

  /** The j-th index is the start plus the number of positions before j that are below `size` when read
      backwards. */
  ghost predicate ByReversal(walk: seq<int>, start: nat, size: nat, d: nat) {
    forall j :: 0 <= j < |walk| ==> walk[j] == start + Below(d, size, j)
  }

  lemma SharedIndices(l: seq<int>, start: nat, size: nat, left: nat, d: nat)
    requires d > 0 && |l| <= Pow2(d - 1) && left == LeftHalf(size) && ByReversal(l, start, left, d - 1)
    ensures ByReversal(l, start, size, d)
  {
    forall j | 0 <= j < |l| ensures l[j] == start + Below(d, size, j) {
      BelowInLowHalf(d, size, j);
    }
  }

  lemma BelowSplits(d: nat, size: nat, left: nat, j: nat)
    requires d > 0 && size <= Pow2(d) && j <= Pow2(d) && left == LeftHalf(size)
    ensures Below(d, size, j) ==
            if j < Pow2(d - 1) then Below(d - 1, left, j) else left + Below(d - 1, size - left, j - Pow2(d - 1))
  {
    var k := Pow2(d - 1);
    assert size / 2 == size - left;
    if j < k {
      BelowInLowHalf(d, size, j);
    } else {
      BelowInLowHalf(d, size, k);
      BelowAll(d - 1, left);
      BelowInHighHalf(d, size, j - k);
    }
  }

  lemma JoinedIndices(l: seq<int>, r: seq<int>, start: nat, size: nat, left: nat, d: nat)
    requires d > 0 && size <= Pow2(d) && |l| == Pow2(d - 1) && |l| + |r| <= Pow2(d) && left == LeftHalf(size)
    requires ByReversal(l, start, left, d - 1) && ByReversal(r, start + left, size - left, d - 1)
    ensures ByReversal(l + r, start, size, d)
  {
    forall j | 0 <= j < |l + r| ensures (l + r)[j] == start + Below(d, size, j) {
      BelowSplits(d, size, left, j);
    }
  }

  lemma PairByReversal(t: Tree, start: nat, size: nat, left: nat, d: nat)
    requires t.Node? && !t.shared && d > 0 && size <= Pow2(d) && left == LeftHalf(size)
    requires |Positions(t.left, start, left)| == Pow2(d - 1) && |Positions(t.right, start + left, size - left)| <= Pow2(d - 1)
    requires ByReversal(Positions(t.left, start, left), start, left, d - 1)
    requires ByReversal(Positions(t.right, start + left, size - left), start + left, size - left, d - 1)
    ensures Positions(t, start, size) == Positions(t.left, start, left) + Positions(t.right, start + left, size - left)
    ensures ByReversal(Positions(t, start, size), start, size, d)
  {
    JoinedIndices(Positions(t.left, start, left), Positions(t.right, start + left, size - left), start, size, left, d);
  }

  lemma SharedByReversal(t: Tree, start: nat, size: nat, left: nat, d: nat)
    requires t.Node? && t.shared && d > 0 && left == LeftHalf(size) && |Positions(t.left, start, left)| <= Pow2(d - 1)
    requires ByReversal(Positions(t.left, start, left), start, left, d - 1)
    ensures Positions(t, start, size) == Positions(t.left, start, left)
    ensures ByReversal(Positions(t, start, size), start, size, d)
  {
    SharedIndices(Positions(t.left, start, left), start, size, left, d);
  }

  lemma {:induction false} PositionsByReversal(h: Hasher, t: Tree, s: seq<string>, d: nat, start: nat, size: nat)
    requires Covers(h, t, s, d) && size <= Pow2(d)
    ensures |Positions(t, start, size)| == |s| && ByReversal(Positions(t, start, size), start, size, d)
  {
    if t.Node? {
      var k, left := Pow2(d - 1), LeftHalf(size);
      if t.shared {
        PositionsByReversal(h, t.left, s, d - 1, start, left);
        SharedByReversal(t, start, size, left, d);
      } else {
        PositionsByReversal(h, t.left, s[..k], d - 1, start, left);
        PositionsByReversal(h, t.right, s[k..], d - 1, start + left, size - left);
        PairByReversal(t, start, size, left, d);
      }
    }
  }

  lemma WalkOfTree(h: Hasher, t: Tree, s: seq<string>, n: nat, d: nat)
    requires 0 < n == |s| && n <= Pow2(d) && Covers(h, t, s, d)
    ensures |TamperedWalk(t, 0, n - 1)| == n && ByReversal(TamperedWalk(t, 0, n - 1), 0, n, d)
  {
    WalkIsPositions(t, 0, n, n - 1);
    PositionsByReversal(h, t, s, d, 0, n);
  }

  lemma BuildTreeCovers(h: Hasher, leaves: seq<string>)
    requires leaves != []
    ensures |SortStrings(leaves)| == |leaves| && Covers(h, BuildTree(h, leaves), SortStrings(leaves), Height(|leaves|))
  {
    BuildTreeShape(h, leaves);
  }

  /** On a differing root, the index reported for the j-th leaf of n is the number of earlier leaves whose
      position, written in binary and read backwards, is below n. */
  lemma TamperedIndices(h: Hasher, leaves: seq<string>, t: Tree, n: nat)
    requires leaves != [] && t == BuildTree(h, leaves) && n == |leaves|
    ensures |TamperedWalk(t, 0, n - 1)| == n
    ensures forall j :: 0 <= j < n ==> TamperedWalk(t, 0, n - 1)[j] == Below(Height(n), n, j)
  {
    BuildTreeCovers(h, leaves);
    HeightIsCeilingLog(n);
    WalkOfTree(h, t, SortStrings(leaves), n, Height(n));
    assert ByReversal(TamperedWalk(t, 0, n - 1), 0, n, Height(n));
  }

  lemma {:induction false} BelowGrows(d: nat, n: nat, i: nat, j: nat)
    requires i <= j
    ensures Below(d, n, i) <= Below(d, n, j) <= Below(d, n, i) + (j - i)
    decreases j
  {
    if i < j {
      BelowGrows(d, n, i, j - 1);
    }
  }

  /** The first j positions, read backwards, are all below n. */
  ghost predicate AllBelow(d: nat, n: nat, j: nat) {
    forall i: nat :: i < j ==> Reversed(d, i) < n
  }

  lemma {:induction false} BelowIsAllIff(d: nat, n: nat, j: nat)
    ensures Below(d, n, j) == j <==> AllBelow(d, n, j)
    decreases j
  {
    if j > 0 {
      BelowIsAllIff(d, n, j - 1);
      BelowGrows(d, n, 0, j - 1);
      assert AllBelow(d, n, j) <==> AllBelow(d, n, j - 1) && Reversed(d, j - 1) < n;
    }
  }

  /** No index points past the leaves, none is greater than the leaf's own, and it is the leaf's own
      exactly while every earlier position is below n when read backwards. */
  lemma IndexIsRightIff(h: Hasher, leaves: seq<string>, t: Tree, n: nat, j: nat)
    requires leaves != [] && t == BuildTree(h, leaves) && n == |leaves| && j < n
    ensures |TamperedWalk(t, 0, n - 1)| == n && 0 <= TamperedWalk(t, 0, n - 1)[j] <= j
    ensures TamperedWalk(t, 0, n - 1)[j] == j <==> AllBelow(Height(n), n, j)
  {
    TamperedIndices(h, leaves, t, n);
    BelowGrows(Height(n), n, 0, j);
    BelowIsAllIff(Height(n), n, j);
  }
}
