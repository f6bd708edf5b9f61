/** What equal Merkle roots force. Digests may collide, so each result reads "the inputs agree,
    or two different strings that were hashed while building these very trees collide". */
module MerkleBinding {
  import opened ByteStrings
  import opened Hashing
  import opened Options
  import opened Powers
  import opened MerkleShape


  /** The strings hashed to obtain the inner nodes of a tree. */
  ghost function InnerTexts(t: Tree): set<string> {
    match t
    case Leaf(_) => {}
    case Node(_, l, r, _) => {l.hash + r.hash} + InnerTexts(l) + InnerTexts(r)
  }

  /** Walks two trees down in step and returns the first pair of different node texts it meets. */
  function FindClash(a: Tree, b: Tree): Option<(string, string)> {
    if a.Leaf? || b.Leaf? then None
    else if a.left.hash + a.right.hash != b.left.hash + b.right.hash then
      Some((a.left.hash + a.right.hash, b.left.hash + b.right.hash))
    else
      match FindClash(a.left, b.left)
      case Some(pair) => Some(pair)
      case None => FindClash(a.right, b.right)
  }

  lemma NodeWidth(h: Hasher, t: Tree)
    requires Hashed(h, t) && LeavesHaveWidth(t, h.width)
    ensures |t.hash| == h.width
  {
  }

  lemma SplitEqualConcats(a: string, b: string, c: string, d: string)
    requires a + b == c + d && |a| == |c|
    ensures a == c && b == d
  {
    assert a == (a + b)[..|a|] && c == (c + d)[..|c|];
    assert b == (a + b)[|a|..] && d == (c + d)[|c|..];
  }

  /** Two trees of one depth with the same root: the walk down either finds two colliding strings
      that really were hashed in these trees, or the padded leaf rows are the same. */
  lemma {:induction false} ClashOrSameLeaves(h: Hasher, a: Tree, b: Tree, d: nat)
    requires Hashed(h, a) && Perfect(a, d) && LeavesHaveWidth(a, h.width)
    requires Hashed(h, b) && Perfect(b, d) && LeavesHaveWidth(b, h.width)
    requires a.hash == b.hash
    ensures FindClash(a, b).None? ==> Flat(a) == Flat(b)
    ensures FindClash(a, b).Some? ==>
      var (x, y) := FindClash(a, b).value;
      x != y && h.digest(x) == h.digest(y) && x in InnerTexts(a) && y in InnerTexts(b)
  {
    if a.Node? && a.left.hash + a.right.hash == b.left.hash + b.right.hash {
      NodeWidth(h, a.left);
      NodeWidth(h, b.left);
      SplitEqualConcats(a.left.hash, a.right.hash, b.left.hash, b.right.hash);
      ClashOrSameLeaves(h, a.left, b.left, d - 1);
      ClashOrSameLeaves(h, a.right, b.right, d - 1);
    }
  }

  /** The strings hashed for the inner nodes of the tree over these leaf hashes. */
  ghost function BuildTexts(h: Hasher, leaves: seq<string>): set<string> {
    if leaves == [] then {} else InnerTexts(BuildTree(h, leaves))
  }

  ghost predicate AllWidth(h: Hasher, leaves: seq<string>) {
    forall x :: x in leaves ==> |x| == h.width
  }

  lemma BuildTreeWidths(h: Hasher, leaves: seq<string>)
    requires leaves != [] && AllWidth(h, leaves)
    ensures LeavesHaveWidth(BuildTree(h, leaves), h.width)
  {
    BuildTreeShape(h, leaves);
    FlatWidths(BuildTree(h, leaves), h.width);
  }

  lemma SameRootAndCount(h: Hasher, a: seq<string>, b: seq<string>)
    requires a != [] && AllWidth(h, a) && AllWidth(h, b) && |a| == |b|
    requires BuildTree(h, a).hash == BuildTree(h, b).hash
    ensures multiset(a) == multiset(b) || Collides(h, BuildTexts(h, a) + BuildTexts(h, b))
  {
    var s, t := BuildTree(h, a), BuildTree(h, b);
    BuildTreeShape(h, a);
    BuildTreeShape(h, b);
    BuildTreeWidths(h, a);
    BuildTreeWidths(h, b);
    ClashOrSameLeaves(h, s, t, Height(|a|));
    if FindClash(s, t).None? {
      assert SortStrings(a) == Flat(s)[..|a|] == SortStrings(b);
      SortForgetsOrder(a, b);
    } else {
      var (x, y) := FindClash(s, t).value;
      assert x in BuildTexts(h, a) + BuildTexts(h, b) && y in BuildTexts(h, a) + BuildTexts(h, b);
    }
  }

  /** The root together with the number of leaves determines the leaves, and nothing less does:
      see `CountIsNeeded`. */
  lemma RootAndCountBind(h: Hasher, a: seq<string>, b: seq<string>)
    requires a != [] && b != [] && AllWidth(h, a) && AllWidth(h, b)
    ensures
      || ((BuildTree(h, a).hash == BuildTree(h, b).hash && |a| == |b|) <==> multiset(a) == multiset(b))
      || Collides(h, BuildTexts(h, a) + BuildTexts(h, b))
  {
    if multiset(a) == multiset(b) {
      SortForgetsOrder(a, b);
      assert |a| == |SortStrings(a)| == |b|;
    }
    if BuildTree(h, a).hash == BuildTree(h, b).hash && |a| == |b| {
      SameRootAndCount(h, a, b);
    }
  }

  lemma PairRoot(h: Hasher, t: Tree, s: seq<string>)
    requires Covers(h, t, s, 1)
    ensures 1 <= |s| <= 2 && t.hash == h.digest(s[0] + s[|s| - 1])
  {
    assert Pow2(0) == 1 && Pow2(1) == 2;
    assert t.left.Leaf? && t.right.Leaf?;
  }

  lemma ThreeLeafRoot(h: Hasher, s: seq<string>)
    requires Sorted(s) && (|s| == 3 || (|s| == 4 && s[3] == s[2]))
    ensures BuildTree(h, s).hash == h.digest(h.digest(s[0] + s[1]) + h.digest(s[2] + s[2]))
  {
    var t := BuildTree(h, s);
    assert Pow2(0) == 1 && Pow2(1) == 2 && Pow2(2) == 4;
    HeightIsUnique(|s|, 2);
    SortIsSorted(s);
    SortedIsUnique(SortStrings(s), s);
    BuildTreeShape(h, s);
    PairRoot(h, t.left, s[..2]);
    PairRoot(h, t.right, s[2..]);
  }

  /** Without the count a repeated last leaf goes unseen. */
  lemma CountIsNeeded(h: Hasher, s: seq<string>)
    requires Sorted(s) && |s| == 3
    ensures BuildTree(h, s).hash == BuildTree(h, s + [s[2]]).hash
    ensures multiset(s) != multiset(s + [s[2]])
  {
    var longer := s + [s[2]];
    LeqReflexive(s[2]);
    assert Sorted(longer);
    ThreeLeafRoot(h, s);
    ThreeLeafRoot(h, longer);
    assert |multiset(s)| == 3 && |multiset(longer)| == 4;
  }

  // ---------------------------------------------------------------- roots alone

  /** Serialised rows are JSON objects (RFC 8259, section 4), so they begin with a brace. */
  ghost predicate IsRowText(text: string) {
    text != [] && text[0] == '{'
  }

  ghost predicate LeavesComeFrom(h: Hasher, t: Tree, texts: set<string>) {
    forall x :: x in Flat(t) ==> exists text :: text in texts && h.digest(text) == x
  }

  lemma NodeHashIsHex(h: Hasher, t: Tree, texts: set<string>)
    requires Hashed(h, t) && LeavesComeFrom(h, t, texts)
    ensures |t.hash| == h.width && IsHexText(t.hash)
  {
    if t.Leaf? {
      assert t.hash in Flat(t);
    }
  }

  lemma ChildLeavesComeFrom(h: Hasher, t: Tree, texts: set<string>)
    requires t.Node? && Hashed(h, t) && LeavesComeFrom(h, t, texts)
    ensures LeavesComeFrom(h, t.left, texts) && LeavesComeFrom(h, t.right, texts)
    ensures |t.left.hash| == |t.right.hash| == h.width && IsHexText(t.left.hash)
  {
    assert forall x :: x in Flat(t.left) || x in Flat(t.right) ==> x in Flat(t);
    NodeHashIsHex(h, t.left, texts);
    NodeHashIsHex(h, t.right, texts);
  }

  /** Trees of any two shapes with the same root have the same padded leaf row: a leaf cannot pass
      for an inner node, because one hashes a brace and the other hex digits. */
  lemma {:induction false} SameRootSameLeaves(h: Hasher, a: Tree, b: Tree, texts: set<string>)
    requires Hashed(h, a) && LeavesComeFrom(h, a, texts)
    requires Hashed(h, b) && LeavesComeFrom(h, b, texts)
    requires forall text :: text in texts ==> IsRowText(text)
    requires a.hash == b.hash
    ensures Flat(a) == Flat(b) || Collides(h, texts + InnerTexts(a) + InnerTexts(b))
    decreases a, b
  {
    var all := texts + InnerTexts(a) + InnerTexts(b);
    if a.Node? {
      ChildLeavesComeFrom(h, a, texts);
    }
    if b.Node? {
      ChildLeavesComeFrom(h, b, texts);
    }
    if a.Leaf? && b.Node? {
      assert a.hash in Flat(a);
      LeafCannotBeNode(h, a.hash, b, texts);
      CollidesIsMonotone(h, texts + {b.left.hash + b.right.hash}, all);
    } else if a.Node? && b.Leaf? {
      assert b.hash in Flat(b);
      LeafCannotBeNode(h, b.hash, a, texts);
      CollidesIsMonotone(h, texts + {a.left.hash + a.right.hash}, all);
    } else if a.Node? && b.Node? {
      var x, y := a.left.hash + a.right.hash, b.left.hash + b.right.hash;
      if x != y {
        assert x in all && y in all;
      } else {
        SplitEqualConcats(a.left.hash, a.right.hash, b.left.hash, b.right.hash);
        SameRootSameLeaves(h, a.left, b.left, texts);
        SameRootSameLeaves(h, a.right, b.right, texts);
        if Flat(a.left) != Flat(b.left) {
          CollidesIsMonotone(h, texts + InnerTexts(a.left) + InnerTexts(b.left), all);
        } else if Flat(a.right) != Flat(b.right) {
          CollidesIsMonotone(h, texts + InnerTexts(a.right) + InnerTexts(b.right), all);
        }
      }
    }
  }

  lemma LeafCannotBeNode(h: Hasher, leaf: string, node: Tree, texts: set<string>)
    requires node.Node? && node.hash == h.digest(node.left.hash + node.right.hash) == leaf
    requires |node.left.hash| == h.width && IsHexText(node.left.hash)
    requires forall text :: text in texts ==> IsRowText(text)
    requires exists text :: text in texts && h.digest(text) == leaf
    ensures Collides(h, texts + {node.left.hash + node.right.hash})
  {
    var text :| text in texts && h.digest(text) == leaf;
    var inner := node.left.hash + node.right.hash;
    assert inner[0] == node.left.hash[0] && IsHexDigit(node.left.hash[0]);
    assert text in texts + {inner} && inner in texts + {inner};
  }

  /** The rows behind one tree: record id to row text. `idOf` reads the record id back out of a row. */
  ghost predicate RowsReadBack(rows: map<string, string>, idOf: string -> string) {
    forall id :: id in rows ==> IsRowText(rows[id]) && idOf(rows[id]) == id
  }

  ghost function RowHashes(h: Hasher, rows: map<string, string>): map<string, string> {
    map id | id in rows :: h.digest(rows[id])
  }

  /** Every leaf is the hash of one of the rows and every row has its leaf. */
  ghost predicate LeavesOf(h: Hasher, leaves: seq<string>, rows: map<string, string>) {
    forall x :: x in leaves <==> exists id :: id in rows && h.digest(rows[id]) == x
  }

  lemma RowLeavesComeFrom(h: Hasher, leaves: seq<string>, rows: map<string, string>, texts: set<string>)
    requires leaves != [] && LeavesOf(h, leaves, rows) && rows.Values <= texts
    ensures LeavesComeFrom(h, BuildTree(h, leaves), texts)
  {
    BuildTreeShape(h, leaves);
    forall x | x in Flat(BuildTree(h, leaves))
      ensures exists text :: text in texts && h.digest(text) == x
    {
      assert x in leaves;
      var id :| id in rows && h.digest(rows[id]) == x;
      assert rows[id] in rows.Values;
    }
  }

  lemma SameRootSameSet(h: Hasher, a: seq<string>, b: seq<string>, texts: set<string>)
    requires a != [] && LeavesComeFrom(h, BuildTree(h, a), texts)
    requires b != [] && LeavesComeFrom(h, BuildTree(h, b), texts)
    requires forall text :: text in texts ==> IsRowText(text)
    requires BuildTree(h, a).hash == BuildTree(h, b).hash
    ensures (forall x :: x in a <==> x in b) || Collides(h, texts + BuildTexts(h, a) + BuildTexts(h, b))
  {
    BuildTreeShape(h, a);
    BuildTreeShape(h, b);
    SameRootSameLeaves(h, BuildTree(h, a), BuildTree(h, b), texts);
  }

  /** Comparing roots alone is safe: equal roots of two trees, whatever their sizes, mean the same
      record ids with the same hashes. */
  lemma RootAloneBinds(h: Hasher, a: seq<string>, rowsA: map<string, string>,
                       b: seq<string>, rowsB: map<string, string>, idOf: string -> string)
    requires a != [] && LeavesOf(h, a, rowsA) && RowsReadBack(rowsA, idOf)
    requires b != [] && LeavesOf(h, b, rowsB) && RowsReadBack(rowsB, idOf)
    requires BuildTree(h, a).hash == BuildTree(h, b).hash
    ensures || RowHashes(h, rowsA) == RowHashes(h, rowsB)
            || Collides(h, rowsA.Values + rowsB.Values + BuildTexts(h, a) + BuildTexts(h, b))
  {
    var texts := rowsA.Values + rowsB.Values;
    var all := texts + BuildTexts(h, a) + BuildTexts(h, b);
    RowLeavesComeFrom(h, a, rowsA, texts);
    RowLeavesComeFrom(h, b, rowsB, texts);
    SameRootSameSet(h, a, b, texts);
    if !Collides(h, all) {
      if Collides(h, texts) { CollidesIsMonotone(h, texts, all); }
      SameSetSameRows(h, a, rowsA, rowsB, idOf);
    }
  }

  lemma SameSetSameRows(h: Hasher, leaves: seq<string>, rowsA: map<string, string>,
                        rowsB: map<string, string>, idOf: string -> string)
    requires RowsReadBack(rowsA, idOf) && RowsReadBack(rowsB, idOf)
    requires LeavesOf(h, leaves, rowsA) && LeavesOf(h, leaves, rowsB)
    requires !Collides(h, rowsA.Values + rowsB.Values)
    ensures rowsA == rowsB
  {
    RowsInOther(h, leaves, rowsA, rowsB, idOf);
    assert rowsB.Values + rowsA.Values == rowsA.Values + rowsB.Values;
    RowsInOther(h, leaves, rowsB, rowsA, idOf);
  }

  lemma RowsInOther(h: Hasher, leaves: seq<string>, rows: map<string, string>,
                    others: map<string, string>, idOf: string -> string)
    requires RowsReadBack(rows, idOf) && RowsReadBack(others, idOf)
    requires LeavesOf(h, leaves, rows) && LeavesOf(h, leaves, others)
    requires !Collides(h, rows.Values + others.Values)
    ensures forall id :: id in rows ==> id in others && others[id] == rows[id]
  {
    forall id | id in rows ensures id in others && others[id] == rows[id] {
      assert h.digest(rows[id]) in leaves;
      var id2 :| id2 in others && h.digest(others[id2]) == h.digest(rows[id]);
      assert rows[id] in rows.Values + others.Values && others[id2] in rows.Values + others.Values;
    }
  }
}
