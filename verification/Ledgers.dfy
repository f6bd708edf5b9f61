/** What a pass decides, in plain terms: a list of recorded rows, the rows of the last leaf map and the
    rows of the table. Nothing is asked of ids, record ids or their order. */
module Ledgers {
  import opened Buckets
  import opened Detection
  import opened DetectionRuns
  import opened Hashing
  import opened MapValues
  import opened MerkleBinding
  import opened Options
  import opened RecordIds
  import opened Storages
  import opened VerificationPass

  /** What one entry of the chain is about. */
  datatype Slot = Slot(number: nat, recordID: string, text: string)

  /** The rows a leaf map was taken from, and the number of the entry that was the latest then. */
  datatype Base = Base(rows: Table, after: nat)

  datatype Finding = NothingToCompare | SameTexts | SameRecords | Different

  // ---------------------------------------------------------------- the rule

  /** Extracted id to row text; a slot listed later replaces an earlier one. */
  function RecordedRows(listed: seq<Slot>): Table {
    if listed == [] then map[]
    else
      var last := listed[|listed| - 1];
      RecordedRows(listed[..|listed| - 1])[ExtractID(last.recordID) := last.text]
  }

  /** The base with the later slots written over it, by record id. */
  function OverlayRows(rows: Table, listed: seq<Slot>, after: nat): Table {
    if listed == [] then rows
    else
      var last := listed[|listed| - 1];
      var before := OverlayRows(rows, listed[..|listed| - 1], after);
      if last.number > after then before[last.recordID := last.text] else before
  }

  function SlotTexts(listed: seq<Slot>): (r: seq<string>)
    ensures |r| == |listed|
    ensures forall i :: 0 <= i < |listed| ==> r[i] == listed[i].text
  {
    seq(|listed|, i requires 0 <= i < |listed| => listed[i].text)
  }

  /** The texts of a table, in the order of its ids. */
  ghost function Texts(rows: Table): seq<string> {
    Collect(rows, rows.Keys)
  }

  ghost function ExpectedTexts(listed: seq<Slot>, base: Option<Base>): seq<string> {
    match base
    case None => SlotTexts(listed)
    case Some(b) => Texts(OverlayRows(b.rows, listed, b.after))
  }

  /** The verdict of a pass, without hashes, roots and stored records. */
  ghost function Rule(listed: seq<Slot>, base: Option<Base>, table: Table): Finding {
    var expected := ExpectedTexts(listed, base);
    if expected == [] then NothingToCompare
    else if multiset(Texts(table)) == multiset(expected) then SameTexts
    else if table == RecordedRows(listed) then SameRecords
    else Different
  }

  // ---------------------------------------------------------------- what the verifier reads

  ghost predicate Matches(h: Hasher, e: HashEntry, s: Slot) {
    e.sequenceNum == s.number && e.recordID == s.recordID && e.dataHash == h.digest(s.text)
  }

  ghost predicate AllMatch(h: Hasher, entries: seq<HashEntry>, listed: seq<Slot>) {
    |entries| == |listed| && forall i :: 0 <= i < |listed| ==> Matches(h, entries[i], listed[i])
  }

  ghost predicate ShowsBase(h: Hasher, cp: Option<MerkleCheckpoint>, base: Option<Base>) {
    match base
    case None => !HasLeafMap(cp)
    case Some(b) => HasLeafMap(cp) && cp.value.leafMap == RowHashes(h, b.rows) && cp.value.sequenceNum == b.after
  }

  function Digests(h: Hasher, texts: seq<string>): (r: seq<string>)
    ensures |r| == |texts|
    ensures forall i :: 0 <= i < |texts| ==> r[i] == h.digest(texts[i])
  {
    seq(|texts|, i requires 0 <= i < |texts| => h.digest(texts[i]))
  }

  lemma PutRow(h: Hasher, rows: Table, id: string, text: string)
    ensures RowHashes(h, rows[id := text]) == RowHashes(h, rows)[id := h.digest(text)]
  {
  }

  lemma {:induction false} ChainMapShows(h: Hasher, entries: seq<HashEntry>, listed: seq<Slot>)
    requires AllMatch(h, entries, listed)
    ensures ChainMap(entries) == RowHashes(h, RecordedRows(listed))
  {
    if listed != [] {
      var n := |listed| - 1;
      ChainMapShows(h, entries[..n], listed[..n]);
      assert Matches(h, entries[n], listed[n]);
      PutRow(h, RecordedRows(listed[..n]), ExtractID(listed[n].recordID), listed[n].text);
    }
  }

  lemma {:induction false} OverlayShows(h: Hasher, rows: Table, entries: seq<HashEntry>, listed: seq<Slot>, after: nat)
    requires AllMatch(h, entries, listed)
    ensures Overlay(RowHashes(h, rows), entries, after) == RowHashes(h, OverlayRows(rows, listed, after))
  {
    if listed != [] {
      var n := |listed| - 1;
      OverlayShows(h, rows, entries[..n], listed[..n], after);
      assert Matches(h, entries[n], listed[n]);
      PutRow(h, OverlayRows(rows, listed[..n], after), listed[n].recordID, listed[n].text);
    }
  }

  lemma {:induction false} CollectDigests(h: Hasher, rows: Table, keys: set<string>)
    requires keys <= rows.Keys
    ensures keys <= RowHashes(h, rows).Keys && Collect(RowHashes(h, rows), keys) == Digests(h, Collect(rows, keys))
    decreases |keys|
  {
    assert RowHashes(h, rows).Keys == rows.Keys;
    if keys != {} {
      CollectDigests(h, rows, keys - {Least(keys)});
    }
  }

  lemma DigestsOfTexts(h: Hasher, rows: Table)
    ensures Collect(RowHashes(h, rows), RowHashes(h, rows).Keys) == Digests(h, Texts(rows))
    ensures Hashes(h, rows) == multiset(Digests(h, Texts(rows)))
  {
    assert RowHashes(h, rows).Keys == rows.Keys;
    CollectDigests(h, rows, rows.Keys);
    CollectHasValues(RowHashes(h, rows), rows.Keys);
  }

  lemma ExpectedAreDigests(h: Hasher, entries: seq<HashEntry>, cp: Option<MerkleCheckpoint>, listed: seq<Slot>, base: Option<Base>)
    requires AllMatch(h, entries, listed) && ShowsBase(h, cp, base)
    ensures ExpectedLeaves(entries, cp) == Digests(h, ExpectedTexts(listed, base))
  {
    match base {
      case None =>
        forall i | 0 <= i < |listed| ensures EntryLeaves(entries)[i] == h.digest(SlotTexts(listed)[i]) {
          assert Matches(h, entries[i], listed[i]);
        }
      case Some(b) =>
        OverlayShows(h, b.rows, entries, listed, b.after);
        DigestsOfTexts(h, OverlayRows(b.rows, listed, b.after));
    }
  }

  // ---------------------------------------------------------------- comparing digests is comparing texts

  lemma CountsOneMore(a: seq<string>, x: string, y: string)
    ensures multiset(a + [y])[x] == multiset(a)[x] + if x == y then 1 else 0
  {
  }

  lemma DigestsOneMore(h: Hasher, list: seq<string>)
    requires list != []
    ensures var n := |list| - 1;
      list == list[..n] + [list[n]] && Digests(h, list) == Digests(h, list[..n]) + [h.digest(list[n])]
  {
  }

  lemma {:induction false} DigestCounts(h: Hasher, list: seq<string>, texts: set<string>, x: string)
    requires !Collides(h, texts) && x in texts && forall t :: t in list ==> t in texts
    ensures multiset(Digests(h, list))[h.digest(x)] == multiset(list)[x]
  {
    if list != [] {
      var n := |list| - 1;
      DigestCounts(h, list[..n], texts, x);
      DigestsOneMore(h, list);
      CountsOneMore(list[..n], x, list[n]);
      CountsOneMore(Digests(h, list[..n]), h.digest(x), h.digest(list[n]));
      assert list[n] in texts;
    }
  }

  lemma SameDigestsIff(h: Hasher, a: seq<string>, b: seq<string>, texts: set<string>)
    requires !Collides(h, texts) && (forall t :: t in a ==> t in texts) && forall t :: t in b ==> t in texts
    ensures multiset(Digests(h, a)) == multiset(Digests(h, b)) <==> multiset(a) == multiset(b)
  {
    forall x | x in texts
      ensures multiset(Digests(h, a))[h.digest(x)] == multiset(a)[x] && multiset(Digests(h, b))[h.digest(x)] == multiset(b)[x]
    {
      DigestCounts(h, a, texts, x);
      DigestCounts(h, b, texts, x);
    }
    if multiset(a) == multiset(b) {
      SameDigests(h, a, b, texts);
    }
    if multiset(Digests(h, a)) == multiset(Digests(h, b)) {
      forall x ensures multiset(a)[x] == multiset(b)[x] {
        if x !in texts {
          assert x !in multiset(a) && x !in multiset(b);
        }
      }
    }
  }

  lemma SameDigests(h: Hasher, a: seq<string>, b: seq<string>, texts: set<string>)
    requires multiset(a) == multiset(b) && (forall t :: t in a ==> t in texts) && forall t :: t in b ==> t in texts
    requires forall x :: x in texts ==>
      multiset(Digests(h, a))[h.digest(x)] == multiset(a)[x] && multiset(Digests(h, b))[h.digest(x)] == multiset(b)[x]
    ensures multiset(Digests(h, a)) == multiset(Digests(h, b))
  {
    forall y ensures multiset(Digests(h, a))[y] == multiset(Digests(h, b))[y] {
      if x :| x in texts && h.digest(x) == y {
        assert multiset(a)[x] == multiset(b)[x];
      } else {
        assert y !in Digests(h, a) && y !in Digests(h, b);
      }
    }
  }

  /** The strings hashed for a pass and for the rows it is about. */
  ghost function PassTextsOf(h: Hasher, rows: seq<Row>, listed: seq<Slot>, base: Option<Base>, table: Table): set<string> {
    table.Values + RecordedRows(listed).Values + (set t | t in ExpectedTexts(listed, base))
    + BuildTexts(h, RowLeaves(h, rows)) + BuildTexts(h, Digests(h, ExpectedTexts(listed, base)))
  }

  lemma TextsAreValues(rows: Table)
    ensures forall t :: t in Texts(rows) <==> t in rows.Values
    ensures |Texts(rows)| == |rows|
  {
    CollectHasValues(rows, rows.Keys);
    ValuesOfSize(rows);
    assert |Texts(rows)| == |multiset(Texts(rows))|;
    forall t ensures t in Texts(rows) <==> t in rows.Values {
      assert t in Texts(rows) <==> t in multiset(Texts(rows));
    }
  }

  lemma DigestsHaveWidth(h: Hasher, texts: seq<string>)
    ensures AllWidth(h, Digests(h, texts))
  {
    forall x | x in Digests(h, texts) ensures |x| == h.width {
      var i :| 0 <= i < |texts| && Digests(h, texts)[i] == x;
      assert x == h.digest(texts[i]);
    }
  }

  lemma LeavesTellTexts(h: Hasher, actual: seq<string>, shown: seq<string>, expected: seq<string>, texts: set<string>)
    requires expected != [] && !Collides(h, texts) && AllWidth(h, actual)
    requires multiset(actual) == multiset(Digests(h, shown))
    requires (forall t :: t in shown ==> t in texts) && forall t :: t in expected ==> t in texts
    requires BuildTexts(h, actual) + BuildTexts(h, Digests(h, expected)) <= texts
    ensures SameRootAndSize(h, actual, Digests(h, expected)) <==> multiset(shown) == multiset(expected)
  {
    var built := BuildTexts(h, actual) + BuildTexts(h, Digests(h, expected));
    if Collides(h, built) { CollidesIsMonotone(h, built, texts); }
    DigestsHaveWidth(h, expected);
    RootsTellLeaves(h, actual, Digests(h, expected));
    SameDigestsIff(h, shown, expected, texts);
  }

  lemma RowsAreDigests(h: Hasher, rows: seq<Row>, table: Table)
    requires Lists(rows, table)
    ensures multiset(RowLeaves(h, rows)) == multiset(Digests(h, Texts(table))) && AllWidth(h, RowLeaves(h, rows))
  {
    RowsShowTable(h, rows, table);
    DigestsOfTexts(h, table);
  }

  /** Comparing roots and sizes is comparing texts. */
  lemma RootsTellTexts(h: Hasher, rows: seq<Row>, table: Table, expected: seq<string>, texts: set<string>)
    requires Lists(rows, table) && expected != [] && !Collides(h, texts)
    requires table.Values <= texts && forall t :: t in expected ==> t in texts
    requires BuildTexts(h, RowLeaves(h, rows)) + BuildTexts(h, Digests(h, expected)) <= texts
    ensures SameRootAndSize(h, RowLeaves(h, rows), Digests(h, expected)) <==> multiset(Texts(table)) == multiset(expected)
  {
    RowsAreDigests(h, rows, table);
    TextsAreValues(table);
    LeavesTellTexts(h, RowLeaves(h, rows), Texts(table), expected, texts);
  }

  /** Comparing the maps of the detailed verification is comparing rows. */
  lemma MapsTellRows(h: Hasher, rows: seq<Row>, table: Table, entries: seq<HashEntry>, listed: seq<Slot>, texts: set<string>)
    requires Lists(rows, table) && AllMatch(h, entries, listed) && !Collides(h, texts)
    requires table.Values + RecordedRows(listed).Values <= texts
    ensures ChainMap(entries) == RowMap(h, rows) <==> table == RecordedRows(listed)
  {
    RowsShowTable(h, rows, table);
    ChainMapShows(h, entries, listed);
    var two := RecordedRows(listed).Values + table.Values;
    if Collides(h, two) { CollidesIsMonotone(h, two, texts); }
    SameRowHashesIff(h, RecordedRows(listed), table);
  }

  predicate Says(verdict: Verdict, f: Finding) {
    && (verdict.Initial? <==> f.NothingToCompare?)
    && (verdict.RootsMatch? <==> f.SameTexts?)
    && (verdict.DetailsMatch? <==> f.SameRecords?)
  }

  /** The verifier decides by the rule, whatever rows were recorded under whatever ids and in whatever
      order they are listed, unless strings hashed for it collide. */
  lemma JudgeFollowsRule(h: Hasher, rows: seq<Row>, entries: seq<HashEntry>, cp: Option<MerkleCheckpoint>,
                         listed: seq<Slot>, base: Option<Base>, table: Table)
    requires Lists(rows, table) && AllMatch(h, entries, listed) && ShowsBase(h, cp, base)
    requires !Collides(h, PassTextsOf(h, rows, listed, base, table))
    ensures Says(Judge(h, rows, entries, cp), Rule(listed, base, table))
  {
    var texts, expected := PassTextsOf(h, rows, listed, base, table), ExpectedTexts(listed, base);
    ExpectedAreDigests(h, entries, cp, listed, base);
    JudgeIs(h, rows, entries, cp, Digests(h, expected));
    MapsTellRows(h, rows, table, entries, listed, texts);
    if expected != [] {
      RootsTellTexts(h, rows, table, expected, texts);
    }
  }
}
