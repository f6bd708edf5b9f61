/** What a proof of any length means that climbs to the root. */
module ProofMeaning {
  import opened ByteStrings
  import opened Hashing
  import opened MerkleBinding
  import opened MerkleProofs
  import opened MerkleShape
  import opened Powers

  /** The node reached from the root by going, for each direction from the last to the first, to the
      child that has its sibling on that side. */
  function NodeAt(t: Tree, directions: seq<bool>): Tree {
    if directions == [] || t.Leaf? then t
    else
      var n := |directions| - 1;
      NodeAt(if directions[n] then t.left else t.right, directions[..n])
  }

  /** The string hashed in step i of a climb. */
  function TextOfStep(h: Hasher, leaf: string, siblings: seq<string>, directions: seq<bool>, i: nat): string
    requires i < |siblings| <= |directions|
  {
    StepText(Climb(h, leaf, siblings[..i], directions[..i]), siblings[i], directions[i])
  }

  lemma {:induction false} ExtraDirectionsDoNotMatter(h: Hasher, leaf: string, siblings: seq<string>, directions: seq<bool>)
    requires |siblings| <= |directions|
    ensures Climb(h, leaf, siblings, directions) == Climb(h, leaf, siblings, directions[..|siblings|])
    ensures ClimbTexts(h, leaf, siblings, directions) == ClimbTexts(h, leaf, siblings, directions[..|siblings|])
    decreases siblings
  {
    if siblings != [] {
      var up := h.digest(StepText(leaf, siblings[0], directions[0]));
      ExtraDirectionsDoNotMatter(h, up, siblings[1..], directions[1..]);
      assert directions[1..][..|siblings| - 1] == directions[..|siblings|][1..];
    }
  }

  lemma {:induction false} ClimbInTurn(h: Hasher, leaf: string, siblings: seq<string>, directions: seq<bool>, k: nat)
    requires k <= |siblings| == |directions|
    ensures var middle := Climb(h, leaf, siblings[..k], directions[..k]);
      && Climb(h, leaf, siblings, directions) == Climb(h, middle, siblings[k..], directions[k..])
      && ClimbTexts(h, leaf, siblings, directions)
         == ClimbTexts(h, leaf, siblings[..k], directions[..k]) + ClimbTexts(h, middle, siblings[k..], directions[k..])
    decreases siblings
  {
    if k == 0 {
      assert siblings[0..] == siblings && directions[0..] == directions;
    } else {
      var up := h.digest(StepText(leaf, siblings[0], directions[0]));
      ClimbInTurn(h, up, siblings[1..], directions[1..], k - 1);
      assert siblings[1..][..k - 1] == siblings[..k][1..] && siblings[1..][k - 1..] == siblings[k..];
      assert directions[1..][..k - 1] == directions[..k][1..] && directions[1..][k - 1..] == directions[k..];
    }
  }

  /** The hashes met on the way up: each step hashes the last one and the sibling, on its right if the
      direction is true and on its left otherwise. */
  lemma {:induction false} ClimbFollows(h: Hasher, siblings: seq<string>, directions: seq<bool>, hashes: seq<string>)
    requires |hashes| == |siblings| + 1 && |siblings| <= |directions|
    requires forall i :: 0 <= i < |siblings| ==>
      hashes[i + 1] == h.digest(if directions[i] then hashes[i] + siblings[i] else siblings[i] + hashes[i])
    ensures Climb(h, hashes[0], siblings, directions) == hashes[|siblings|]
    decreases siblings
  {
    if siblings != [] {
      ClimbFollows(h, siblings[1..], directions[1..], hashes[1..]);
    }
  }

  // ---------------------------------------------------------------- down the tree

  lemma {:induction false} NodeAtDepth(t: Tree, d: nat, directions: seq<bool>)
    requires Perfect(t, d) && |directions| <= d
    ensures Perfect(NodeAt(t, directions), d - |directions|)
  {
    if directions != [] {
      var n := |directions| - 1;
      NodeAtDepth(if directions[n] then t.left else t.right, d - 1, directions[..n]);
    }
  }

  lemma {:induction false} NodeAtIsHashed(h: Hasher, t: Tree, directions: seq<bool>)
    requires Hashed(h, t) && LeavesHaveWidth(t, h.width)
    ensures Hashed(h, NodeAt(t, directions)) && LeavesHaveWidth(NodeAt(t, directions), h.width)
    decreases |directions|
  {
    if directions != [] && t.Node? {
      var n := |directions| - 1;
      NodeAtIsHashed(h, if directions[n] then t.left else t.right, directions[..n]);
    }
  }

  lemma ChildrenHaveWidth(h: Hasher, t: Tree, directions: seq<bool>)
    requires Hashed(h, t) && LeavesHaveWidth(t, h.width) && NodeAt(t, directions).Node?
    ensures |NodeAt(t, directions).left.hash| == |NodeAt(t, directions).right.hash| == h.width
  {
    NodeAtIsHashed(h, t, directions);
    NodeWidth(h, NodeAt(t, directions).left);
    NodeWidth(h, NodeAt(t, directions).right);
  }

  /** The first direction names the last child on the way down. */
  lemma {:induction false} FirstDirectionNamesChild(t: Tree, d: nat, directions: seq<bool>)
    requires Perfect(t, d) && 0 < |directions| <= d
    ensures var parent := NodeAt(t, directions[1..]);
      parent.Node? && NodeAt(t, directions) == if directions[0] then parent.left else parent.right
  {
    var n := |directions| - 1;
    if n > 0 {
      FirstDirectionNamesChild(if directions[n] then t.left else t.right, d - 1, directions[..n]);
      assert directions[..n][1..] == directions[1..][..n - 1];
    }
  }

  lemma PositionInChild(t: Tree, n: nat, directions: seq<bool>)
    requires Perfect(t, n + 1) && |directions| == n + 1
    ensures var child := if directions[n] then t.left else t.right;
      && NumeralValue(directions[..n]) < |Flat(child)| && NumeralValue(directions) < |Flat(t)|
      && Flat(t)[NumeralValue(directions)] == Flat(child)[NumeralValue(directions[..n])]
  {
    assert directions == directions[..n] + [directions[n]];
    NumeralAppend(directions[..n], directions[n]);
    NumeralBound(directions[..n]);
    PerfectFlat(t.left, n);
    PerfectFlat(t.right, n);
  }

  /** All the way down stands the leaf at the position the directions spell in binary. */
  lemma {:induction false} LeafAtPosition(t: Tree, d: nat, directions: seq<bool>)
    requires Perfect(t, d) && |directions| == d
    ensures NumeralValue(directions) < |Flat(t)| && NodeAt(t, directions) == Leaf(Flat(t)[NumeralValue(directions)])
  {
    if d == 0 {
      assert NumeralValue(directions) == 0;
    } else {
      var n := d - 1;
      LeafAtPosition(if directions[n] then t.left else t.right, n, directions[..n]);
      PositionInChild(t, n, directions);
    }
  }

  // ---------------------------------------------------------------- climbs within the tree

  /** The last step of a climb that ends in a node hashed that node's children, if nothing collides. */
  lemma LastStepHashedChildren(h: Hasher, t: Tree, leaf: string, siblings: seq<string>, directions: seq<bool>, all: set<string>)
    requires t.Node? && Hashed(h, t)
    requires 0 < |siblings| == |directions| && Climb(h, leaf, siblings, directions) == t.hash
    requires ClimbTexts(h, leaf, siblings, directions) + InnerTexts(t) <= all && !Collides(h, all)
    ensures TextOfStep(h, leaf, siblings, directions, |siblings| - 1) == t.left.hash + t.right.hash
  {
    ClimbLastStep(h, leaf, siblings, directions);
    assert TextOfStep(h, leaf, siblings, directions, |siblings| - 1) in all;
    assert t.left.hash + t.right.hash in all;
  }

  /** Splitting what a step hashed where the children's hashes meet. */
  lemma StepNamesChild(h: Hasher, t: Tree, current: string, sibling: string, isRight: bool)
    requires t.Node? && |t.left.hash| == |t.right.hash| == |current|
    requires StepText(current, sibling, isRight) == t.left.hash + t.right.hash
    ensures current == (if isRight then t.left else t.right).hash
  {
    if isRight {
      SplitEqualConcats(current, sibling, t.left.hash, t.right.hash);
    } else {
      SplitEqualConcats(sibling, current, t.left.hash, t.right.hash);
    }
  }

  lemma ClimbHasWidth(h: Hasher, leaf: string, siblings: seq<string>, directions: seq<bool>)
    requires 0 < |siblings| == |directions|
    ensures |Climb(h, leaf, siblings, directions)| == h.width
  {
    ClimbLastStep(h, leaf, siblings, directions);
  }

  /** A climb to a node, of more than one step, passed through the child its last direction names. */
  lemma ClimbPassesChild(h: Hasher, t: Tree, leaf: string, siblings: seq<string>, directions: seq<bool>,
                         child: Tree, all: set<string>)
    requires t.Node? && Hashed(h, t) && LeavesHaveWidth(t, h.width)
    requires 1 < |siblings| == |directions| && Climb(h, leaf, siblings, directions) == t.hash
    requires child == if directions[|siblings| - 1] then t.left else t.right
    requires ClimbTexts(h, leaf, siblings, directions) + InnerTexts(t) <= all && !Collides(h, all)
    ensures var n := |siblings| - 1;
      && Climb(h, leaf, siblings[..n], directions[..n]) == child.hash
      && ClimbTexts(h, leaf, siblings[..n], directions[..n]) + InnerTexts(child) <= all
  {
    var n := |siblings| - 1;
    LastStepHashedChildren(h, t, leaf, siblings, directions, all);
    NodeWidth(h, t.left);
    NodeWidth(h, t.right);
    ClimbHasWidth(h, leaf, siblings[..n], directions[..n]);
    StepNamesChild(h, t, Climb(h, leaf, siblings[..n], directions[..n]), siblings[n], directions[n]);
    ClimbLastStep(h, leaf, siblings, directions);
  }

  /** The first step of a climb to the root, of at most as many steps as the tree is high, hashed the
      children of the node that the other directions lead to, if nothing collides. */
  lemma {:induction false} FirstStepHashedChildren(h: Hasher, t: Tree, d: nat, leaf: string, siblings: seq<string>,
                                                   directions: seq<bool>, all: set<string>)
    requires Hashed(h, t) && Perfect(t, d) && LeavesHaveWidth(t, h.width)
    requires 0 < |siblings| == |directions| <= d && Climb(h, leaf, siblings, directions) == t.hash
    requires ClimbTexts(h, leaf, siblings, directions) + InnerTexts(t) <= all && !Collides(h, all)
    ensures var node := NodeAt(t, directions[1..]);
      node.Node? && StepText(leaf, siblings[0], directions[0]) == node.left.hash + node.right.hash
    decreases d
  {
    FirstDirectionNamesChild(t, d, directions);
    var n := |siblings| - 1;
    if n == 0 {
      LastStepHashedChildren(h, t, leaf, siblings, directions, all);
    } else {
      var child := if directions[n] then t.left else t.right;
      ClimbPassesChild(h, t, leaf, siblings, directions, child, all);
      FirstStepHashedChildren(h, child, d - 1, leaf, siblings[..n], directions[..n], all);
      assert directions[1..][..n - 1] == directions[..n][1..];
    }
  }

  lemma StartIsChild(h: Hasher, t: Tree, d: nat, leaf: string, sibling: string, directions: seq<bool>, node: Tree)
    requires Hashed(h, t) && Perfect(t, d) && LeavesHaveWidth(t, h.width) && |leaf| == h.width
    requires 0 < |directions| <= d && node == NodeAt(t, directions[1..]) && node.Node?
    requires StepText(leaf, sibling, directions[0]) == node.left.hash + node.right.hash
    ensures leaf == NodeAt(t, directions).hash
  {
    FirstDirectionNamesChild(t, d, directions);
    ChildrenHaveWidth(h, t, directions[1..]);
    StepNamesChild(h, node, leaf, sibling, directions[0]);
  }

  /** A climb to the root, of at most as many steps as the tree is high, starts at the hash of the node
      its directions lead to, if nothing collides; only its start need have a digest's width. */
  lemma ClimbIsSound(h: Hasher, t: Tree, d: nat, leaf: string, siblings: seq<string>, directions: seq<bool>, all: set<string>)
    requires Hashed(h, t) && Perfect(t, d) && LeavesHaveWidth(t, h.width) && |leaf| == h.width
    requires |siblings| == |directions| <= d && Climb(h, leaf, siblings, directions) == t.hash
    requires ClimbTexts(h, leaf, siblings, directions) + InnerTexts(t) <= all && !Collides(h, all)
    ensures leaf == NodeAt(t, directions).hash
  {
    if siblings != [] {
      FirstStepHashedChildren(h, t, d, leaf, siblings, directions, all);
      StartIsChild(h, t, d, leaf, siblings[0], directions, NodeAt(t, directions[1..]));
    }
  }

  // ---------------------------------------------------------------- verified proofs

  /** What a verified proof says, whatever its length n, over a tree of height d. */
  ghost predicate ProofMeans(h: Hasher, t: Tree, d: nat, leaf: string, siblings: seq<string>, directions: seq<bool>)
    requires |siblings| == |directions| && Perfect(t, d)
  {
    var n := |siblings|;
    if n == 0 then leaf == t.hash
    else if n <= d then
      var node := NodeAt(t, directions[1..]);
      node.Node? && StepText(leaf, siblings[0], directions[0]) == node.left.hash + node.right.hash
    else
      var position := NumeralValue(directions[n - d..]);
      position < |Flat(t)| && h.digest(TextOfStep(h, leaf, siblings, directions, n - d - 1)) == Flat(t)[position]
  }

  lemma StepOfPrefix(h: Hasher, leaf: string, siblings: seq<string>, directions: seq<bool>, k: nat)
    requires 0 < k <= |siblings| == |directions|
    ensures Climb(h, leaf, siblings[..k], directions[..k]) == h.digest(TextOfStep(h, leaf, siblings, directions, k - 1))
  {
    var sibs, dirs := siblings[..k], directions[..k];
    ClimbLastStep(h, leaf, sibs, dirs);
    assert sibs[..k - 1] == siblings[..k - 1] && dirs[..k - 1] == directions[..k - 1];
  }

  lemma StepIsHashed(h: Hasher, leaf: string, siblings: seq<string>, directions: seq<bool>, i: nat)
    requires i < |siblings| == |directions|
    ensures TextOfStep(h, leaf, siblings, directions, i) in ClimbTexts(h, leaf, siblings, directions)
  {
    var sibs, dirs := siblings[..i + 1], directions[..i + 1];
    ClimbInTurn(h, leaf, siblings, directions, i + 1);
    ClimbLastStep(h, leaf, sibs, dirs);
    assert sibs[..i] == siblings[..i] && dirs[..i] == directions[..i];
  }

  /** A climb of more steps than the tree is high hashed, in the step before the last d, a text whose
      digest is the leaf those last steps lead to, if nothing collides. */
  lemma LongClimbHashesLeaf(h: Hasher, t: Tree, d: nat, leaf: string, siblings: seq<string>, directions: seq<bool>, all: set<string>)
    requires Hashed(h, t) && Perfect(t, d) && LeavesHaveWidth(t, h.width)
    requires d < |siblings| == |directions| && Climb(h, leaf, siblings, directions) == t.hash
    requires ClimbTexts(h, leaf, siblings, directions) + InnerTexts(t) <= all && !Collides(h, all)
    ensures ProofMeans(h, t, d, leaf, siblings, directions)
  {
    var k := |siblings| - d;
    ClimbInTurn(h, leaf, siblings, directions, k);
    StepOfPrefix(h, leaf, siblings, directions, k);
    ClimbIsSound(h, t, d, Climb(h, leaf, siblings[..k], directions[..k]), siblings[k..], directions[k..], all);
    LeafAtPosition(t, d, directions[k..]);
  }

  lemma ClimbMeans(h: Hasher, t: Tree, d: nat, leaf: string, siblings: seq<string>, directions: seq<bool>, all: set<string>)
    requires Hashed(h, t) && Perfect(t, d) && LeavesHaveWidth(t, h.width)
    requires |siblings| == |directions| && Climb(h, leaf, siblings, directions) == t.hash
    requires ClimbTexts(h, leaf, siblings, directions) + InnerTexts(t) <= all && !Collides(h, all)
    ensures ProofMeans(h, t, d, leaf, siblings, directions)
  {
    if |siblings| > d {
      LongClimbHashesLeaf(h, t, d, leaf, siblings, directions, all);
    } else if siblings != [] {
      FirstStepHashedChildren(h, t, d, leaf, siblings, directions, all);
    }
  }

  /** Every proof that verifies against a built tree's root, of any length and with any strings in it:
      with no steps it starts at the root; with at most as many as the tree is high its first step
      hashed the two children of a node of the tree, the one its other directions lead to; with more, a
      step hashed a text whose digest is the leaf at the position the last directions spell. Otherwise
      it exposes a collision. */
  lemma VerifiedProofMeans(h: Hasher, leaves: seq<string>, leafHash: string, siblings: seq<string>, directions: seq<bool>)
    requires leaves != [] && AllWidth(h, leaves) && |siblings| <= |directions|
    requires Climb(h, leafHash, siblings, directions) == BuildTree(h, leaves).hash
    ensures Perfect(BuildTree(h, leaves), Height(|leaves|))
    ensures ProofMeans(h, BuildTree(h, leaves), Height(|leaves|), leafHash, siblings, directions[..|siblings|])
            || Collides(h, ClimbTexts(h, leafHash, siblings, directions) + BuildTexts(h, leaves))
  {
    var all := ClimbTexts(h, leafHash, siblings, directions) + BuildTexts(h, leaves);
    BuildTreeShape(h, leaves);
    BuildTreeWidths(h, leaves);
    ExtraDirectionsDoNotMatter(h, leafHash, siblings, directions);
    if !Collides(h, all) {
      ClimbMeans(h, BuildTree(h, leaves), Height(|leaves|), leafHash, siblings, directions[..|siblings|], all);
    }
  }

  /** A proof as long as the tree is high that verifies against its root is about a real leaf: the
      one at the position the directions spell, which is the leaf itself or the padding's repeat. */
  lemma VerifiedProofIsSound(h: Hasher, leaves: seq<string>, leafHash: string,
                             siblings: seq<string>, directions: seq<bool>)
    requires leaves != [] && AllWidth(h, leaves) && |leafHash| == h.width
    requires |siblings| == Height(|leaves|) <= |directions|
    requires Climb(h, leafHash, siblings, directions) == BuildTree(h, leaves).hash
    ensures
      var position := NumeralValue(directions[..|siblings|]);
      var row := Flat(BuildTree(h, leaves));
      && position < |row|
      && (|| (leafHash == row[position] && leafHash in leaves
              && (position < |leaves| ==> leafHash == SortStrings(leaves)[position]))
          || Collides(h, ClimbTexts(h, leafHash, siblings, directions) + BuildTexts(h, leaves)))
  {
    var t, ds := BuildTree(h, leaves), directions[..|siblings|];
    var all := ClimbTexts(h, leafHash, siblings, directions) + BuildTexts(h, leaves);
    BuildTreeShape(h, leaves);
    BuildTreeWidths(h, leaves);
    ExtraDirectionsDoNotMatter(h, leafHash, siblings, directions);
    LeafAtPosition(t, Height(|leaves|), ds);
    if !Collides(h, all) {
      ClimbIsSound(h, t, Height(|leaves|), leafHash, siblings, ds, all);
    }
    LeafInRow(h, leaves, NumeralValue(ds));
  }

  lemma LeafInRow(h: Hasher, leaves: seq<string>, position: nat)
    requires leaves != [] && position < |Flat(BuildTree(h, leaves))|
    ensures var row := Flat(BuildTree(h, leaves));
      row[position] in leaves && |SortStrings(leaves)| == |leaves| && (position < |leaves| ==> row[position] == SortStrings(leaves)[position])
  {
    BuildTreeShape(h, leaves);
    SortKeepsElements(leaves);
    var row := Flat(BuildTree(h, leaves));
    assert row[position] in row;
    if position < |leaves| {
      assert row[position] == row[..|leaves|][position];
    }
  }

  lemma RowBehindLeaf(h: Hasher, t: Tree, texts: set<string>, position: nat) returns (text: string)
    requires LeavesComeFrom(h, t, texts) && position < |Flat(t)|
    ensures text in texts && h.digest(text) == Flat(t)[position]
  {
    assert Flat(t)[position] in Flat(t);
    text :| text in texts && h.digest(text) == Flat(t)[position];
  }

  lemma LongClimbHashesRow(h: Hasher, t: Tree, d: nat, texts: set<string>, leaf: string, siblings: seq<string>,
                           directions: seq<bool>, all: set<string>)
    requires Hashed(h, t) && Perfect(t, d) && LeavesHaveWidth(t, h.width) && LeavesComeFrom(h, t, texts)
    requires d < |siblings| == |directions| && Climb(h, leaf, siblings, directions) == t.hash
    requires texts + ClimbTexts(h, leaf, siblings, directions) + InnerTexts(t) <= all && !Collides(h, all)
    ensures TextOfStep(h, leaf, siblings, directions, |siblings| - d - 1) in texts
  {
    var i := |siblings| - d - 1;
    LongClimbHashesLeaf(h, t, d, leaf, siblings, directions, all);
    var text := RowBehindLeaf(h, t, texts, NumeralValue(directions[i + 1..]));
    StepIsHashed(h, leaf, siblings, directions, i);
    assert text in all && TextOfStep(h, leaf, siblings, directions, i) in all;
  }

  /** A longer proof over a tree of rows hashed some row's very text in one of its steps, or it exposes
      a collision. */
  lemma LongProofHashesRow(h: Hasher, leaves: seq<string>, texts: set<string>, leafHash: string,
                           siblings: seq<string>, directions: seq<bool>)
    requires leaves != [] && AllWidth(h, leaves) && LeavesComeFrom(h, BuildTree(h, leaves), texts)
    requires Height(|leaves|) < |siblings| == |directions|
    requires Climb(h, leafHash, siblings, directions) == BuildTree(h, leaves).hash
    ensures || TextOfStep(h, leafHash, siblings, directions, |siblings| - Height(|leaves|) - 1) in texts
            || Collides(h, texts + ClimbTexts(h, leafHash, siblings, directions) + BuildTexts(h, leaves))
  {
    var all := texts + ClimbTexts(h, leafHash, siblings, directions) + BuildTexts(h, leaves);
    BuildTreeShape(h, leaves);
    BuildTreeWidths(h, leaves);
    if !Collides(h, all) {
      LongClimbHashesRow(h, BuildTree(h, leaves), Height(|leaves|), texts, leafHash, siblings, directions, all);
    }
  }

  lemma StepIsHex(h: Hasher, leaf: string, siblings: seq<string>, directions: seq<bool>, i: nat)
    requires i < |siblings| == |directions|
    requires IsHexText(leaf) && forall j :: 0 <= j < |siblings| ==> IsHexText(siblings[j])
    ensures IsHexText(TextOfStep(h, leaf, siblings, directions, i))
  {
    if i > 0 { ClimbLastStep(h, leaf, siblings[..i], directions[..i]); }
    assert IsHexText(Climb(h, leaf, siblings[..i], directions[..i]));
  }

  lemma RowTextIsNotHex(text: string)
    requires IsRowText(text)
    ensures !IsHexText(text)
  {
    assert !IsHexDigit(text[0]);
  }

  /** If everything in such a proof is hex text, as digests are, it exposes a collision: no row text is
      a string of hex digits. */
  lemma LongProofCollides(h: Hasher, leaves: seq<string>, texts: set<string>, leafHash: string,
                          siblings: seq<string>, directions: seq<bool>)
    requires leaves != [] && AllWidth(h, leaves) && LeavesComeFrom(h, BuildTree(h, leaves), texts)
    requires forall text :: text in texts ==> IsRowText(text)
    requires Height(|leaves|) < |siblings| == |directions|
    requires IsHexText(leafHash) && forall i :: 0 <= i < |siblings| ==> IsHexText(siblings[i])
    requires Climb(h, leafHash, siblings, directions) == BuildTree(h, leaves).hash
    ensures Collides(h, texts + ClimbTexts(h, leafHash, siblings, directions) + BuildTexts(h, leaves))
  {
    var i := |siblings| - Height(|leaves|) - 1;
    LongProofHashesRow(h, leaves, texts, leafHash, siblings, directions);
    StepIsHex(h, leafHash, siblings, directions, i);
    if TextOfStep(h, leafHash, siblings, directions, i) in texts {
      RowTextIsNotHex(TextOfStep(h, leafHash, siblings, directions, i));
    }
  }

  /** Without that a longer proof need not: the two halves of a row's own text verify as a leaf hash and
      its sibling. */
  lemma HalvedRowVerifies(h: Hasher, text: string, k: nat)
    requires k <= |text|
    ensures Climb(h, text[k..], [text[..k]], [false]) == BuildTree(h, [h.digest(text)]).hash
    ensures Height(1) == 0
  {
    assert text[..k] + text[k..] == text;
    BuildTreeShape(h, [h.digest(text)]);
    assert Flat(BuildTree(h, [h.digest(text)]))[0] == h.digest(text);
  }
}
