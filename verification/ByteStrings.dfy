/** Byte strings and their lexicographic order, the order of bbolt's keys and of Go's `sort.Strings`.
    A byte string is a `string`; every character stands for one byte. */
module ByteStrings {

  /** `a` is not after `b` in byte order. */
  predicate Leq(a: string, b: string) {
    a == [] || (b != [] && (a[0] < b[0] || (a[0] == b[0] && Leq(a[1..], b[1..]))))
  }

  predicate Less(a: string, b: string) {
    a != b && Leq(a, b)
  }

  lemma {:induction false} LeqReflexive(a: string)
    ensures Leq(a, a)
  {
    if a != [] {
      LeqReflexive(a[1..]);
    }
  }

  lemma {:induction false} LeqTotal(a: string, b: string)
    ensures Leq(a, b) || Leq(b, a)
  {
    if a != [] && b != [] {
      LeqTotal(a[1..], b[1..]);
    }
  }

  lemma {:induction false} LeqAntisymmetric(a: string, b: string)
    requires Leq(a, b) && Leq(b, a)
    ensures a == b
  {
    if a != [] && b != [] {
      LeqAntisymmetric(a[1..], b[1..]);
      assert a == [a[0]] + a[1..] && b == [b[0]] + b[1..];
    }
  }

  lemma {:induction false} LeqTransitive(a: string, b: string, c: string)
    requires Leq(a, b) && Leq(b, c)
    ensures Leq(a, c)
  {
    if a != [] && a[0] == b[0] == c[0] {
      LeqTransitive(a[1..], b[1..], c[1..]);
    }
  }

  lemma LessTransitive(a: string, b: string, c: string)
    requires (Less(a, b) && Leq(b, c)) || (Leq(a, b) && Less(b, c))
    ensures Less(a, c)
  {
    LeqTransitive(a, b, c);
    if a == c {
      LeqAntisymmetric(a, b);
    }
  }

  lemma {:induction false} PrefixIsLeq(p: string, k: string)
    requires p <= k
    ensures Leq(p, k)
  {
    if p != [] {
      assert p[1..] <= k[1..];
      PrefixIsLeq(p[1..], k[1..]);
    }
  }

  /** The keys that carry a prefix form one interval that starts at the prefix itself. */
  lemma {:induction false} PrefixInterval(p: string, j: string, k: string)
    requires p <= k && Leq(p, j) && Leq(j, k)
    ensures p <= j
  {
    if p != [] {
      assert j != [] && p[0] == k[0] == j[0];
      assert p[1..] <= k[1..];
      PrefixInterval(p[1..], j[1..], k[1..]);
      assert p == [p[0]] + p[1..] && j == [j[0]] + j[1..];
    }
  }

  /** A common prefix does not change the order. */
  lemma {:induction false} LeqUnderPrefix(p: string, a: string, b: string)
    ensures Leq(p + a, p + b) <==> Leq(a, b)
  {
    if p == [] {
      assert p + a == a && p + b == b;
    } else {
      assert (p + a)[1..] == p[1..] + a && (p + b)[1..] == p[1..] + b;
      LeqUnderPrefix(p[1..], a, b);
    }
  }

  /** Among strings of one length the last character decides only when the rest is equal. */
  lemma {:induction false} LeqOfLastChar(x: string, y: string, c: char, d: char)
    requires |x| == |y|
    ensures Leq(x + [c], y + [d]) <==> (if x == y then c <= d else Leq(x, y))
  {
    if x != [] {
      assert (x + [c])[1..] == x[1..] + [c] && (y + [d])[1..] == y[1..] + [d];
      LeqOfLastChar(x[1..], y[1..], c, d);
      assert x == y <==> x[0] == y[0] && x[1..] == y[1..] by {
        assert x == [x[0]] + x[1..] && y == [y[0]] + y[1..];
      }
    }
  }

  // ---------------------------------------------------------------- sorting

  ghost predicate Sorted(s: seq<string>) {
    forall i, j :: 0 <= i < j < |s| ==> Leq(s[i], s[j])
  }

  /** Sorted without repeats. */
  ghost predicate Ascending(s: seq<string>) {
    forall i, j :: 0 <= i < j < |s| ==> Less(s[i], s[j])
  }

  function Insert(x: string, s: seq<string>): (r: seq<string>)
    ensures |r| == |s| + 1
    ensures multiset(r) == multiset(s) + multiset{x}
  {
    if s == [] || Leq(x, s[0]) then
      [x] + s
    else
      assert s == [s[0]] + s[1..];
      [s[0]] + Insert(x, s[1..])
  }

  lemma {:induction false} InsertKeepsSorted(x: string, s: seq<string>)
    requires Sorted(s)
    ensures Sorted(Insert(x, s))
  {
    if s == [] {
    } else if Leq(x, s[0]) {
      forall j | 0 <= j < |s| ensures Leq(x, s[j]) {
        LeqReflexive(s[0]);
        LeqTransitive(x, s[0], s[j]);
      }
    } else {
      InsertKeepsSorted(x, s[1..]);
      var r := Insert(x, s[1..]);
      LeqTotal(x, s[0]);
      forall j | 0 <= j < |r| ensures Leq(s[0], r[j]) {
        assert r[j] in multiset(r);
        assert r[j] == x || r[j] in s[1..];
      }
    }
  }

  /** What `sort.Strings` leaves behind: the same strings, in byte order. */
  function SortStrings(s: seq<string>): (r: seq<string>)
    ensures |r| == |s|
    ensures multiset(r) == multiset(s)
  {
    if s == [] then [] else
      assert s == [s[0]] + s[1..];
      Insert(s[0], SortStrings(s[1..]))
  }

  lemma {:induction false} SortIsSorted(s: seq<string>)
    ensures Sorted(SortStrings(s))
  {
    if s != [] {
      SortIsSorted(s[1..]);
      InsertKeepsSorted(s[0], SortStrings(s[1..]));
    }
  }

  lemma SortKeepsElements(s: seq<string>)
    ensures forall x :: x in SortStrings(s) <==> x in s
  {
    forall x ensures x in SortStrings(s) <==> x in s {
      assert x in SortStrings(s) <==> x in multiset(SortStrings(s));
      assert x in s <==> x in multiset(s);
    }
  }

  lemma SortedHeadIsLeast(s: seq<string>, x: string)
    requires Sorted(s) && x in multiset(s)
    ensures s != [] && Leq(s[0], x)
  {
    var i :| 0 <= i < |s| && s[i] == x;
    LeqReflexive(s[0]);
  }

  /** A multiset of strings has one sorted arrangement. */
  lemma {:induction false} SortedIsUnique(a: seq<string>, b: seq<string>)
    requires Sorted(a) && Sorted(b) && multiset(a) == multiset(b)
    ensures a == b
  {
    assert |a| == |multiset(a)| == |multiset(b)| == |b|;
    if a != [] {
      assert a[0] in multiset(b) && b[0] in multiset(a);
      SortedHeadIsLeast(a, b[0]);
      SortedHeadIsLeast(b, a[0]);
      LeqAntisymmetric(a[0], b[0]);
      MultisetOfTail(a);
      MultisetOfTail(b);
      SortedIsUnique(a[1..], b[1..]);
      assert a == [a[0]] + a[1..] && b == [b[0]] + b[1..];
    }
  }

  lemma MultisetOfTail(s: seq<string>)
    requires s != []
    ensures multiset(s[1..]) == multiset(s) - multiset{s[0]}
  {
    assert s == [s[0]] + s[1..];
  }

  /** Sorting forgets the order of insertion. */
  lemma SortForgetsOrder(s: seq<string>, t: seq<string>)
    ensures multiset(s) == multiset(t) <==> SortStrings(s) == SortStrings(t)
  {
    if multiset(s) == multiset(t) {
      SortIsSorted(s);
      SortIsSorted(t);
      SortedIsUnique(SortStrings(s), SortStrings(t));
    } else {
      assert multiset(SortStrings(s)) == multiset(s) && multiset(SortStrings(t)) == multiset(t);
    }
  }
}
