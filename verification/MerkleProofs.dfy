/** Inclusion proofs: how a proof is read out of a finished tree and what a verified proof means. */
module MerkleProofs {
  import opened Hashing
  import opened Options
  import opened Powers
  import opened MerkleShape

  /** Siblings from the leaf upward; a direction is true when the sibling is on the right. */
  datatype Steps = Steps(siblings: seq<string>, directions: seq<bool>)

  function Extend(steps: Steps, sibling: string, isRight: bool): Steps {
    Steps(steps.siblings + [sibling], steps.directions + [isRight])
  }

  /** The steps a depth-first search for a leaf hash leaves behind. */
  function Path(t: Tree, target: string): Option<Steps> {
    match t
    case Leaf(hash) => if hash == target then Some(Steps([], [])) else None
    case Node(_, l, r, _) =>
      match Path(l, target)
      case Some(steps) => Some(Extend(steps, r.hash, true))
      case None =>
        match Path(r, target)
        case Some(steps) => Some(Extend(steps, l.hash, false))
        case None => None
  }

  function StepText(current: string, sibling: string, isRight: bool): string {
    if isRight then current + sibling else sibling + current
  }

  /** The hash reached from a leaf hash after all steps. */
  function Climb(h: Hasher, leaf: string, siblings: seq<string>, directions: seq<bool>): string
    requires |siblings| <= |directions|
    decreases siblings
  {
    if siblings == [] then leaf
    else Climb(h, h.digest(StepText(leaf, siblings[0], directions[0])), siblings[1..], directions[1..])
  }

  /** The strings hashed on the way up. */
  ghost function ClimbTexts(h: Hasher, leaf: string, siblings: seq<string>, directions: seq<bool>): set<string>
    requires |siblings| <= |directions|
    decreases siblings
  {
    if siblings == [] then {}
    else
      var text := StepText(leaf, siblings[0], directions[0]);
      {text} + ClimbTexts(h, h.digest(text), siblings[1..], directions[1..])
  }

  lemma {:induction false} ClimbLastStep(h: Hasher, leaf: string, siblings: seq<string>, directions: seq<bool>)
    requires 0 < |siblings| == |directions|
    ensures var n := |siblings| - 1;
      var before := Climb(h, leaf, siblings[..n], directions[..n]);
      var text := StepText(before, siblings[n], directions[n]);
      && Climb(h, leaf, siblings, directions) == h.digest(text)
      && ClimbTexts(h, leaf, siblings, directions)
         == ClimbTexts(h, leaf, siblings[..n], directions[..n]) + {text}
    decreases siblings
  {
    var n := |siblings| - 1;
    if n > 0 {
      var up := h.digest(StepText(leaf, siblings[0], directions[0]));
      ClimbLastStep(h, up, siblings[1..], directions[1..]);
      assert siblings[1..][..n - 1] == siblings[..n][1..];
      assert directions[1..][..n - 1] == directions[..n][1..];
    }
  }

  /** Where a string first occurs in a list; the length of the list if nowhere. */
  function FirstIndex(s: seq<string>, x: string): (i: nat)
    ensures i <= |s|
    ensures forall j :: 0 <= j < i ==> s[j] != x
    ensures i < |s| ==> s[i] == x
    ensures x in s <==> i < |s|
  {
    if s == [] then 0
    else if s[0] == x then 0
    else 1 + FirstIndex(s[1..], x)
  }

  lemma FirstIndexIs(s: seq<string>, x: string, i: nat)
    requires i < |s| && s[i] == x && forall j :: 0 <= j < i ==> s[j] != x
    ensures FirstIndex(s, x) == i
  {
    var k := FirstIndex(s, x);
    assert !(k < i) && !(i < k);
  }

  lemma {:induction false} PathMissesAbsent(t: Tree, target: string)
    requires target !in Flat(t)
    ensures Path(t, target) == None
  {
    if t.Node? {
      PathMissesAbsent(t.left, target);
      PathMissesAbsent(t.right, target);
    }
  }

  lemma ExtendClimbs(h: Hasher, t: Tree, target: string, steps: Steps, onLeft: bool)
    requires t.Node? && t.hash == h.digest(t.left.hash + t.right.hash)
    requires |steps.siblings| == |steps.directions|
    requires Climb(h, target, steps.siblings, steps.directions) == (if onLeft then t.left else t.right).hash
    ensures var longer := Extend(steps, (if onLeft then t.right else t.left).hash, onLeft);
      && Climb(h, target, longer.siblings, longer.directions) == t.hash
      && NumeralValue(longer.directions)
         == NumeralValue(steps.directions) + (if onLeft then 0 else Pow2(|steps.directions|))
  {
    var longer := Extend(steps, (if onLeft then t.right else t.left).hash, onLeft);
    ClimbLastStep(h, target, longer.siblings, longer.directions);
    var n := |steps.siblings|;
    assert longer.siblings[..n] == steps.siblings && longer.directions[..n] == steps.directions;
    NumeralAppend(steps.directions, onLeft);
  }

  /** The search finds `target`; the proof has one step per level, climbs to the root, and its
      directions spell in binary the first index of `target` among the leaves. */
  ghost predicate HasProof(h: Hasher, t: Tree, s: seq<string>, d: nat, target: string) {
    Path(t, target).Some? &&
    var steps := Path(t, target).value;
    && |steps.siblings| == |steps.directions| == d
    && Climb(h, target, steps.siblings, steps.directions) == t.hash
    && NumeralValue(steps.directions) == FirstIndex(s, target)
  }

  lemma ProofInLeft(h: Hasher, t: Tree, a: seq<string>, b: seq<string>, d: nat, target: string)
    requires t.Node? && t.hash == h.digest(t.left.hash + t.right.hash)
    requires HasProof(h, t.left, a, d, target) && target in a
    ensures HasProof(h, t, a + b, d + 1, target)
  {
    ExtendClimbs(h, t, target, Path(t.left, target).value, true);
    FirstIndexIs(a + b, target, FirstIndex(a, target));
  }

  lemma ProofInRight(h: Hasher, t: Tree, a: seq<string>, b: seq<string>, d: nat, target: string)
    requires t.Node? && t.hash == h.digest(t.left.hash + t.right.hash)
    requires HasProof(h, t.right, b, d, target) && target !in a && target in b
    requires target !in Flat(t.left) && |a| == Pow2(d)
    ensures HasProof(h, t, a + b, d + 1, target)
  {
    PathMissesAbsent(t.left, target);
    ExtendClimbs(h, t, target, Path(t.right, target).value, false);
    FirstIndexIs(a + b, target, |a| + FirstIndex(b, target));
  }

  lemma ProofInShared(h: Hasher, t: Tree, s: seq<string>, d: nat, target: string)
    requires t.Node? && t.hash == h.digest(t.left.hash + t.right.hash)
    requires target in s && HasProof(h, t.left, s, d, target)
    ensures HasProof(h, t, s, d + 1, target)
  {
    ProofInLeft(h, t, s, [], d, target);
    assert s + [] == s;
  }

  lemma ProofInHalf(h: Hasher, t: Tree, s: seq<string>, d: nat, target: string)
    requires t.Node? && t.hash == h.digest(t.left.hash + t.right.hash)
    requires target in s && Pow2(d) <= |s| && Covers(h, t.left, s[..Pow2(d)], d)
    requires target in s[..Pow2(d)] ==> HasProof(h, t.left, s[..Pow2(d)], d, target)
    requires target !in s[..Pow2(d)] ==> HasProof(h, t.right, s[Pow2(d)..], d, target)
    ensures HasProof(h, t, s, d + 1, target)
  {
    var a, b := s[..Pow2(d)], s[Pow2(d)..];
    assert s == a + b;
    if target in a {
      ProofInLeft(h, t, a, b, d, target);
    } else {
      CoversPadsLeaves(h, t.left, a, d);
      ProofInRight(h, t, a, b, d, target);
    }
  }

  lemma {:induction false} PathIsComplete(h: Hasher, t: Tree, s: seq<string>, d: nat, target: string)
    requires Covers(h, t, s, d) && target in s
    ensures HasProof(h, t, s, d, target)
  {
    if t.Leaf? {
      assert Path(t, target) == Some(Steps([], []));
    } else if t.shared {
      PathIsComplete(h, t.left, s, d - 1, target);
      ProofInShared(h, t, s, d - 1, target);
    } else {
      var a, b := s[..Pow2(d - 1)], s[Pow2(d - 1)..];
      assert target in a || target in b by { assert s == a + b; }
      if target in a {
        PathIsComplete(h, t.left, a, d - 1, target);
      } else {
        PathIsComplete(h, t.right, b, d - 1, target);
      }
      ProofInHalf(h, t, s, d - 1, target);
    }
  }
}
