/** What a report on two leaf maps says, told by what it is good for: it turns either map into the
    other. */
module ReportMeanings {
  import opened LeafMaps

  /** The expected map, corrected by the records' actual side. */
  function WithActual(m: LeafMap, r: seq<DifferingRecord>): LeafMap {
    if r == [] then m
    else
      var before, last := WithActual(m, r[..|r| - 1]), r[|r| - 1];
      if last.kind == MissingInActual then before - {last.recordID} else before[last.recordID := last.actualHash]
  }

  /** The actual map, corrected by the records' expected side. */
  function WithExpected(m: LeafMap, r: seq<DifferingRecord>): LeafMap {
    if r == [] then m
    else
      var before, last := WithExpected(m, r[..|r| - 1]), r[|r| - 1];
      if last.kind == MissingInExpected then before - {last.recordID} else before[last.recordID := last.expectedHash]
  }

  ghost predicate Names(r: seq<DifferingRecord>, id: string) {
    exists i :: 0 <= i < |r| && r[i].recordID == id
  }

  /** A map that agrees with `to` on some ids and with `from` on all others. */
  ghost predicate IsBetween(m: LeafMap, from: LeafMap, to: LeafMap, r: seq<DifferingRecord>) {
    && (forall id :: Names(r, id) ==> (id in m <==> id in to) && (id in m ==> m[id] == to[id]))
    && (forall id :: !Names(r, id) ==> (id in m <==> id in from) && (id in m ==> m[id] == from[id]))
  }

  lemma NamesOneMore(r: seq<DifferingRecord>, id: string)
    requires r != []
    ensures Names(r, id) <==> Names(r[..|r| - 1], id) || r[|r| - 1].recordID == id
  {
    var n := |r| - 1;
    if Names(r, id) && r[n].recordID != id {
      var i :| 0 <= i < |r| && r[i].recordID == id;
      assert r[..n][i].recordID == id;
    }
    if Names(r[..n], id) {
      var i :| 0 <= i < n && r[..n][i].recordID == id;
      assert r[i].recordID == id;
    }
  }

  /** Every record tells both sides of its id truly. */
  ghost predicate TellsSides(r: seq<DifferingRecord>, expected: LeafMap, actual: LeafMap) {
    forall i :: 0 <= i < |r| ==> SidesAre(r[i], expected, actual)
  }

  ghost predicate SidesAre(d: DifferingRecord, expected: LeafMap, actual: LeafMap) {
    && (d.kind == MissingInActual <==> d.recordID !in actual)
    && (d.kind == MissingInExpected <==> d.recordID !in expected)
    && (d.recordID in actual ==> d.actualHash == actual[d.recordID])
    && (d.recordID in expected ==> d.expectedHash == expected[d.recordID])
  }

  lemma {:induction false} ActualIsBetween(r: seq<DifferingRecord>, expected: LeafMap, actual: LeafMap)
    requires TellsSides(r, expected, actual)
    ensures IsBetween(WithActual(expected, r), expected, actual, r)
  {
    if r != [] {
      var n := |r| - 1;
      assert forall i :: 0 <= i < n ==> r[..n][i] == r[i];
      ActualIsBetween(r[..n], expected, actual);
      assert SidesAre(r[n], expected, actual);
      forall id ensures Names(r, id) <==> Names(r[..n], id) || r[n].recordID == id {
        NamesOneMore(r, id);
      }
    }
  }

  lemma {:induction false} ExpectedIsBetween(r: seq<DifferingRecord>, expected: LeafMap, actual: LeafMap)
    requires TellsSides(r, expected, actual)
    ensures IsBetween(WithExpected(actual, r), actual, expected, r)
  {
    if r != [] {
      var n := |r| - 1;
      assert forall i :: 0 <= i < n ==> r[..n][i] == r[i];
      ExpectedIsBetween(r[..n], expected, actual);
      assert SidesAre(r[n], expected, actual);
      forall id ensures Names(r, id) <==> Names(r[..n], id) || r[n].recordID == id {
        NamesOneMore(r, id);
      }
    }
  }

  lemma ReportTellsSides(r: seq<DifferingRecord>, expected: LeafMap, actual: LeafMap)
    requires Reports(r, expected, actual)
    ensures TellsSides(r, expected, actual)
    ensures forall id :: (id in expected || id in actual) && !Names(r, id) ==>
      id in expected && id in actual && expected[id] == actual[id]
  {
  }

  lemma BetweenIsThere(m: LeafMap, from: LeafMap, to: LeafMap, r: seq<DifferingRecord>)
    requires IsBetween(m, from, to, r)
    requires forall id :: !Names(r, id) ==> (id in from <==> id in to) && (id in from ==> from[id] == to[id])
    ensures m == to
  {
    forall id ensures (id in m <==> id in to) && (id in m ==> m[id] == to[id]) {
      assert Names(r, id) || !Names(r, id);
    }
  }

  lemma KindsAre(r: seq<DifferingRecord>, expected: LeafMap, actual: LeafMap, i: nat)
    requires Reports(r, expected, actual) && i < |r|
    ensures var id := r[i].recordID;
      && (r[i].kind == MissingInActual <==> id in expected && id !in actual)
      && (r[i].kind == MissingInExpected <==> id !in expected && id in actual)
      && (id !in actual ==> r[i].actualHash == "") && (id !in expected ==> r[i].expectedHash == "")
      && (r[i].kind == Modified <==> id in expected && id in actual && r[i].expectedHash != r[i].actualHash)
  {
    assert Differs(expected, actual, r[i].recordID);
    assert r[i] == Difference(expected, actual, r[i].recordID);
  }

  lemma EachIdOnce(r: seq<DifferingRecord>, expected: LeafMap, actual: LeafMap)
    requires Reports(r, expected, actual)
    ensures forall i, j :: 0 <= i < j < |r| ==> r[i].recordID != r[j].recordID
  {
  }

  /** A complete report corrects either map into the other, names each id once, and its kinds say which
      map lacks the id; that side's hash is empty, and a modified record has two different hashes. */
  lemma ReportCorrects(r: seq<DifferingRecord>, expected: LeafMap, actual: LeafMap)
    requires Reports(r, expected, actual)
    ensures WithActual(expected, r) == actual && WithExpected(actual, r) == expected
    ensures forall i, j :: 0 <= i < j < |r| ==> r[i].recordID != r[j].recordID
    ensures forall i :: 0 <= i < |r| ==>
      var id := r[i].recordID;
      && (r[i].kind == MissingInActual <==> id in expected && id !in actual)
      && (r[i].kind == MissingInExpected <==> id !in expected && id in actual)
      && (id !in actual ==> r[i].actualHash == "") && (id !in expected ==> r[i].expectedHash == "")
      && (r[i].kind == Modified <==> id in expected && id in actual && r[i].expectedHash != r[i].actualHash)
  {
    ReportTellsSides(r, expected, actual);
    ActualIsBetween(r, expected, actual);
    ExpectedIsBetween(r, expected, actual);
    BetweenIsThere(WithActual(expected, r), expected, actual, r);
    BetweenIsThere(WithExpected(actual, r), actual, expected, r);
    EachIdOnce(r, expected, actual);
    forall i | 0 <= i < |r|
      ensures var id := r[i].recordID;
        && (r[i].kind == MissingInActual <==> id in expected && id !in actual)
        && (r[i].kind == MissingInExpected <==> id !in expected && id in actual)
        && (id !in actual ==> r[i].actualHash == "") && (id !in expected ==> r[i].expectedHash == "")
        && (r[i].kind == Modified <==> id in expected && id in actual && r[i].expectedHash != r[i].actualHash)
    {
      KindsAre(r, expected, actual, i);
    }
  }
}
