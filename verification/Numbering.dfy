/** How a table's entries are numbered: each insert takes the number after the latest entry's.
    "Latest" is meant to be the greatest number; the decimal keys make it the numeral that comes
    last in byte order. */
module Numbering {
  import opened ByteStrings
  import opened DecimalKeys
  import opened Storages
  import opened TableViews

  /** What an insert event contributes to its entry, besides the number. */
  datatype Insertion = Insertion(tableName: string, dataHash: string, recordID: string, operation: string, now: int)

  function EntryFor(x: Insertion, seqNum: nat): HashEntry {
    HashEntry(x.tableName, seqNum, x.dataHash, x.now, x.operation, x.recordID)
  }

  type Chain = map<nat, HashEntry>

  datatype Latest = ByNumber | ByNumeral

  ghost predicate IsLatest(rule: Latest, n: nat, numbers: set<nat>) {
    match rule
    case ByNumber => IsMax(n, numbers)
    case ByNumeral => IsDecimalLast(n, numbers)
  }

  ghost predicate IsNext(rule: Latest, n: nat, numbers: set<nat>) {
    if numbers == {} then n == 1 else n > 0 && IsLatest(rule, n - 1, numbers)
  }

  predicate InRange(i: nat, n: nat) {
    1 <= i <= n
  }

  /** The numbers 1 to n. */
  ghost function UpTo(n: nat): (s: set<nat>)
    ensures forall i: nat :: i in s <==> InRange(i, n)
  {
    set i: nat | i <= n && InRange(i, n)
  }

  lemma {:induction false} UpToSize(n: nat)
    ensures |UpTo(n)| == n
  {
    if n == 0 {
      assert UpTo(0) == {};
    } else {
      UpToSize(n - 1);
      assert UpTo(n) == UpTo(n - 1) + {n};
    }
  }

  /** A chain grows from nothing by one insert after the other. */
  ghost predicate Grows(rule: Latest, chain: Chain, inserts: seq<Insertion>)
    decreases |inserts|, 1
  {
    if inserts == [] then chain == map[] else exists before, n :: GrowsFrom(rule, chain, inserts, before, n)
  }

  ghost predicate GrowsFrom(rule: Latest, chain: Chain, inserts: seq<Insertion>, before: Chain, n: nat)
    requires inserts != []
    decreases |inserts|, 0
  {
    var last := |inserts| - 1;
    Grows(rule, before, inserts[..last]) && IsNext(rule, n, before.Keys) && chain == before[n := EntryFor(inserts[last], n)]
  }

  /** Every insert has its own entry, numbered in order. */
  ghost predicate IsGapless(chain: Chain, inserts: seq<Insertion>) {
    && chain.Keys == UpTo(|inserts|)
    && forall i :: 1 <= i <= |inserts| ==> chain[i] == EntryFor(inserts[i - 1], i)
  }

  /** Ten entries; the tenth is the last insert's, whatever came between. */
  ghost predicate IsStuckAtTen(chain: Chain, inserts: seq<Insertion>)
    requires |inserts| >= 10
  {
    && chain.Keys == UpTo(10)
    && (forall i :: 1 <= i < 10 ==> chain[i] == EntryFor(inserts[i - 1], i))
    && chain[10] == EntryFor(inserts[|inserts| - 1], 10)
  }

  lemma GaplessGrows(chain: Chain, before: Chain, inserts: seq<Insertion>)
    requires inserts != [] && IsGapless(before, inserts[..|inserts| - 1])
    requires chain == before[|inserts| := EntryFor(inserts[|inserts| - 1], |inserts|)]
    ensures IsGapless(chain, inserts)
  {
    var init := inserts[..|inserts| - 1];
    assert forall i :: 0 <= i < |init| ==> init[i] == inserts[i];
  }

  /** Numbering by the greatest number gives entries 1 to n for every n. */
  lemma {:induction false} ByNumberIsGapless(chain: Chain, inserts: seq<Insertion>)
    requires Grows(ByNumber, chain, inserts)
    ensures IsGapless(chain, inserts)
  {
    if inserts != [] {
      var last := |inserts| - 1;
      var before, n :| GrowsFrom(ByNumber, chain, inserts, before, n);
      ByNumberIsGapless(before, inserts[..last]);
      assert n == last + 1 by {
        if last > 0 { assert last in before.Keys; }
      }
      GaplessGrows(chain, before, inserts);
    }
  }

  lemma {:induction false} LastNumeral(n: nat)
    requires 1 <= n <= 10
    ensures IsDecimalLast(if n < 10 then n else 9, UpTo(n))
  {
    var top: nat := if n < 10 then n else 9;
    forall m | m in UpTo(n) ensures Leq(Decimal(m), Decimal(top)) {
      if m < 10 {
        SameLengthOrder(m, top);
      } else {
        assert Decimal(10) == ['1', '0'] && Decimal(9) == ['9'];
      }
    }
  }

  lemma NextByNumeral(n: nat, k: nat)
    requires n <= 10 && IsNext(ByNumeral, k, UpTo(n))
    ensures k == if n < 10 then n + 1 else 10
  {
    if n == 0 {
      assert UpTo(n) == {};
    } else {
      assert n in UpTo(n);
      LastNumeral(n);
      DecimalLastIsUnique(UpTo(n), k - 1, if n < 10 then n else 9);
    }
  }

  lemma StaysAtTen(chain: Chain, before: Chain, inserts: seq<Insertion>)
    requires |inserts| > 10 && IsStuckAtTen(before, inserts[..|inserts| - 1])
    requires chain == before[10 := EntryFor(inserts[|inserts| - 1], 10)]
    ensures IsStuckAtTen(chain, inserts)
  {
    var init := inserts[..|inserts| - 1];
    assert forall i :: 0 <= i < |init| ==> init[i] == inserts[i];
  }

  /** Numbering by the last numeral does so up to ten inserts; after that the chain holds exactly the
      entries 1 to 10, and the tenth is overwritten by every further insert. */
  lemma {:induction false} ByNumeralStopsAtTen(chain: Chain, inserts: seq<Insertion>)
    requires Grows(ByNumeral, chain, inserts)
    ensures |inserts| <= 10 ==> IsGapless(chain, inserts)
    ensures |inserts| >= 10 ==> IsStuckAtTen(chain, inserts)
  {
    if inserts != [] {
      var last := |inserts| - 1;
      var before, n :| GrowsFrom(ByNumeral, chain, inserts, before, n);
      ByNumeralStopsAtTen(before, inserts[..last]);
      if last < 10 {
        NextByNumeral(last, n);
        GaplessGrows(chain, before, inserts);
      } else {
        NextByNumeral(10, n);
        StaysAtTen(chain, before, inserts);
      }
    }
  }

  /** Hence the decimal keys keep every insert's entry exactly up to ten inserts. */
  lemma ByNumeralIsGaplessIff(chain: Chain, inserts: seq<Insertion>)
    requires Grows(ByNumeral, chain, inserts)
    ensures IsGapless(chain, inserts) <==> |inserts| <= 10
  {
    ByNumeralStopsAtTen(chain, inserts);
    if |inserts| > 10 {
      assert 11 in UpTo(|inserts|) && 11 !in UpTo(10);
    }
  }
}
