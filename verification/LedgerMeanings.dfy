/** What the ledger's verdicts mean for rows, when row texts determine their ids. */
module LedgerMeanings {
  import opened Buckets
  import opened Detection
  import opened Hashing
  import opened LedgerRuns
  import opened Ledgers
  import opened Options
  import opened RecordIds
  import opened ScanOrders
  import opened StoreRuns
  import opened TableViews

  // ---------------------------------------------------------------- texts against rows

  ghost predicate ReadsBack(idOf: string -> string, table: Table) {
    forall id :: id in table ==> idOf(table[id]) == id
  }

  /** The table is made of exactly these rows, no two of them under one id. */
  ghost predicate IsMadeOf(idOf: string -> string, table: Table, texts: seq<string>) {
    && (forall i, j :: 0 <= i < j < |texts| ==> idOf(texts[i]) != idOf(texts[j]))
    && (forall i :: 0 <= i < |texts| ==> idOf(texts[i]) in table && table[idOf(texts[i])] == texts[i])
    && |texts| == |table|
  }

  lemma {:induction false} TextCounts(idOf: string -> string, table: Table, keys: set<string>, x: string)
    requires ReadsBack(idOf, table) && keys <= table.Keys
    ensures multiset(Collect(table, keys))[x] == if idOf(x) in keys && table[idOf(x)] == x then 1 else 0
    decreases |keys|
  {
    if keys != {} {
      var k := Least(keys);
      TextCounts(idOf, table, keys - {k}, x);
      assert Collect(table, keys) == [table[k]] + Collect(table, keys - {k});
      assert idOf(table[k]) == k;
    }
  }

  lemma {:induction false} DistinctCounts(idOf: string -> string, texts: seq<string>, x: string)
    requires forall i, j :: 0 <= i < j < |texts| ==> idOf(texts[i]) != idOf(texts[j])
    ensures multiset(texts)[x] == if x in texts then 1 else 0
  {
    if texts != [] {
      var n := |texts| - 1;
      DistinctCounts(idOf, texts[..n], x);
      assert texts == texts[..n] + [texts[n]];
      forall i | 0 <= i < n ensures texts[i] != texts[n] {
        assert idOf(texts[i]) != idOf(texts[n]);
      }
    }
  }

  lemma SameTextsDiffer(idOf: string -> string, table: Table, texts: seq<string>, i: nat, j: nat)
    requires ReadsBack(idOf, table) && multiset(Texts(table)) == multiset(texts) && i < j < |texts|
    ensures idOf(texts[i]) in table && table[idOf(texts[i])] == texts[i] && idOf(texts[i]) != idOf(texts[j])
  {
    assert texts == texts[..j] + [texts[j]] + texts[j + 1..];
    assert texts[i] in texts[..j] && texts[i] in multiset(texts) && texts[j] in multiset(texts);
    TextCounts(idOf, table, table.Keys, texts[i]);
    TextCounts(idOf, table, table.Keys, texts[j]);
    assert multiset(texts)[texts[j]] == multiset(texts[..j])[texts[j]] + 1 + multiset(texts[j + 1..])[texts[j]];
  }

  /** A table has the same texts as a list exactly if it is made of the rows listed. */
  lemma SameTextsIff(idOf: string -> string, table: Table, texts: seq<string>)
    requires ReadsBack(idOf, table)
    ensures multiset(Texts(table)) == multiset(texts) <==> IsMadeOf(idOf, table, texts)
  {
    TextsAreValues(table);
    if multiset(Texts(table)) == multiset(texts) {
      assert |multiset(Texts(table))| == |multiset(texts)|;
      forall i | 0 <= i < |texts| ensures idOf(texts[i]) in table && table[idOf(texts[i])] == texts[i] {
        assert texts[i] in multiset(texts);
        TextCounts(idOf, table, table.Keys, texts[i]);
      }
      forall i, j | 0 <= i < j < |texts| ensures idOf(texts[i]) != idOf(texts[j]) {
        SameTextsDiffer(idOf, table, texts, i, j);
      }
    }
    if IsMadeOf(idOf, table, texts) {
      MadeOfSameTexts(idOf, table, texts);
    }
  }

  lemma MadeOfSameTexts(idOf: string -> string, table: Table, texts: seq<string>)
    requires ReadsBack(idOf, table) && IsMadeOf(idOf, table, texts)
    ensures multiset(Texts(table)) == multiset(texts)
  {
    TextsAreValues(table);
    forall x ensures multiset(texts)[x] <= multiset(Texts(table))[x] {
      DistinctCounts(idOf, texts, x);
      TextCounts(idOf, table, table.Keys, x);
    }
    assert multiset(texts) <= multiset(Texts(table)) && |multiset(texts)| == |multiset(Texts(table))|;
    SubsetOfSameSize(multiset(texts), multiset(Texts(table)));
  }

  lemma SubsetOfSameSize(a: multiset<string>, b: multiset<string>)
    requires a <= b && |a| == |b|
    ensures a == b
  {
    assert b == a + (b - a);
    assert |b - a| == 0;
  }

  // ---------------------------------------------------------------- without a leaf map

  ghost predicate SlotsReadBack(idOf: string -> string, listed: seq<Slot>) {
    forall i :: 0 <= i < |listed| ==> idOf(listed[i].text) == ExtractID(listed[i].recordID)
  }

  lemma {:induction false} RecordedFromSlots(idOf: string -> string, listed: seq<Slot>)
    requires SlotsReadBack(idOf, listed)
    ensures ReadsBack(idOf, RecordedRows(listed))
    ensures forall id :: id in RecordedRows(listed) ==> RecordedRows(listed)[id] in SlotTexts(listed)
    ensures forall i :: 0 <= i < |listed| ==> idOf(listed[i].text) in RecordedRows(listed)
  {
    if listed != [] {
      var n := |listed| - 1;
      RecordedFromSlots(idOf, listed[..n]);
      assert SlotTexts(listed) == SlotTexts(listed[..n]) + [listed[n].text];
      assert SlotTexts(listed)[n] in SlotTexts(listed);
      forall i | 0 <= i < |listed| ensures idOf(listed[i].text) in RecordedRows(listed) {
        if i < n { assert listed[..n][i] == listed[i]; }
      }
    }
  }

  lemma RecordedIsInTable(idOf: string -> string, listed: seq<Slot>, table: Table)
    requires SlotsReadBack(idOf, listed) && IsMadeOf(idOf, table, SlotTexts(listed))
    ensures forall id :: id in RecordedRows(listed) ==> id in table && table[id] == RecordedRows(listed)[id]
  {
    RecordedFromSlots(idOf, listed);
    var recorded := RecordedRows(listed);
    forall id | id in recorded ensures id in table && table[id] == recorded[id] {
      var i :| 0 <= i < |listed| && SlotTexts(listed)[i] == recorded[id];
      assert idOf(recorded[id]) == id;
    }
  }

  lemma TableIsRecorded(idOf: string -> string, listed: seq<Slot>, table: Table)
    requires SlotsReadBack(idOf, listed) && ReadsBack(idOf, table) && multiset(Texts(table)) == multiset(SlotTexts(listed))
    ensures forall id :: id in table ==> id in RecordedRows(listed)
  {
    RecordedFromSlots(idOf, listed);
    TextsAreValues(table);
    forall id | id in table ensures id in RecordedRows(listed) {
      assert table[id] in Texts(table) && table[id] in multiset(Texts(table));
      assert table[id] in multiset(SlotTexts(listed));
      var i :| 0 <= i < |listed| && SlotTexts(listed)[i] == table[id];
      assert idOf(listed[i].text) == id;
    }
  }

  /** A table made of the listed rows is the table of recorded rows. */
  lemma MadeOfIsRecorded(idOf: string -> string, listed: seq<Slot>, table: Table)
    requires SlotsReadBack(idOf, listed) && ReadsBack(idOf, table) && IsMadeOf(idOf, table, SlotTexts(listed))
    ensures table == RecordedRows(listed)
  {
    RecordedIsInTable(idOf, listed, table);
    MadeOfSameTexts(idOf, table, SlotTexts(listed));
    TableIsRecorded(idOf, listed, table);
  }

  /** Without a leaf map a pass succeeds exactly when nothing was recorded or the table is, for each
      recorded id, the row a scan lists last, even when ids were recorded more than once. */
  lemma WithoutLeafMapIff(idOf: string -> string, listed: seq<Slot>, table: Table)
    requires SlotsReadBack(idOf, listed) && ReadsBack(idOf, table)
    ensures !Rule(listed, None, table).Different? <==> listed == [] || table == RecordedRows(listed)
  {
    SameTextsIff(idOf, table, SlotTexts(listed));
    if IsMadeOf(idOf, table, SlotTexts(listed)) {
      MadeOfIsRecorded(idOf, listed, table);
    }
  }

  /** With a leaf map it succeeds exactly when the table is made of the leaf map's rows with the later
      slots laid over them, or is the table of recorded rows. */
  lemma WithLeafMapIff(idOf: string -> string, listed: seq<Slot>, base: Base, table: Table)
    requires ReadsBack(idOf, table)
    ensures !Rule(listed, Some(base), table).Different? <==>
      || Texts(OverlayRows(base.rows, listed, base.after)) == []
      || IsMadeOf(idOf, table, Texts(OverlayRows(base.rows, listed, base.after)))
      || table == RecordedRows(listed)
  {
    SameTextsIff(idOf, table, Texts(OverlayRows(base.rows, listed, base.after)));
  }

  // ---------------------------------------------------------------- the order of the scan

  lemma PutMerges(a: Table, b: Table, id: string, text: string)
    ensures a + b[id := text] == (a + b)[id := text]
  {
  }

  lemma {:induction false} RecordedInTurn(a: seq<Slot>, b: seq<Slot>)
    ensures RecordedRows(a + b) == RecordedRows(a) + RecordedRows(b)
  {
    if b == [] {
      assert a + b == a;
    } else {
      var n := |b| - 1;
      assert (a + b)[..|a + b| - 1] == a + b[..n] && (a + b)[|a + b| - 1] == b[n];
      RecordedInTurn(a, b[..n]);
      PutMerges(RecordedRows(a), RecordedRows(b[..n]), ExtractID(b[n].recordID), b[n].text);
    }
  }

  lemma SwapIsHarmlessIff(first: Table, rest: Table, id: string, text: string)
    ensures first + map[id := text] + rest == first + rest + map[id := text] <==> (id in rest ==> rest[id] == text)
  {
    var a, b := first + map[id := text] + rest, first + rest + map[id := text];
    assert b[id] == text && (id in rest ==> a[id] == rest[id]);
  }

  lemma ThreeInTurn(a: seq<Slot>, b: seq<Slot>, c: seq<Slot>)
    ensures RecordedRows(a + b + c) == RecordedRows(a) + RecordedRows(b) + RecordedRows(c)
  {
    RecordedInTurn(a, b);
    RecordedInTurn(a + b, c);
  }

  lemma OneRecorded(slot: Slot)
    ensures RecordedRows([slot]) == map[ExtractID(slot.recordID) := slot.text]
  {
    assert [slot][..0] == [];
  }

  lemma SwapRecorded(slots: seq<Slot>, listed: seq<Slot>, first: seq<Slot>, rest: seq<Slot>, last: Slot)
    requires slots == first + rest + [last] && listed == first + [last] + rest
    ensures var id := ExtractID(last.recordID);
      RecordedRows(listed) == RecordedRows(slots) <==> (id in RecordedRows(rest) ==> RecordedRows(rest)[id] == last.text)
  {
    ThreeInTurn(first, rest, [last]);
    ThreeInTurn(first, [last], rest);
    OneRecorded(last);
    SwapIsHarmlessIff(RecordedRows(first), RecordedRows(rest), ExtractID(last.recordID), last.text);
  }

  lemma TenSlots(slots: Slots) returns (first: seq<Slot>, rest: seq<Slot>, last: Slot)
    requires |slots| == 10
    ensures rest == slots[1..9] && last == slots[9]
    ensures slots == first + rest + [last] && AsScanned(slots) == first + [last] + rest
  {
    first, rest, last := [slots[0]], slots[1..9], slots[9];
  }

  /** The tenth slot, if there is one, brings nothing that the second to the ninth say otherwise. */
  predicate TenthIsNoChange(slots: Slots) {
    |slots| == 10 ==>
      var id, rest := ExtractID(slots[9].recordID), RecordedRows(slots[1..9]);
      id in rest ==> rest[id] == slots[9].text
  }

  /** The row recorded last under each id is the one listed last exactly if there are fewer than ten
      slots, or none of the second to the ninth holds another row under the tenth's id. */
  lemma LastRecordedIsListedLastIff(slots: Slots)
    ensures RecordedRows(AsScanned(slots)) == RecordedRows(slots) <==> TenthIsNoChange(slots)
  {
    if |slots| == 10 {
      var first, rest, last := TenSlots(slots);
      SwapRecorded(slots, AsScanned(slots), first, rest, last);
    }
  }

  // ---------------------------------------------------------------- runs

  /** Every row recorded has the id its printed key reads back to. */
  ghost predicate MovesReadBack(idOf: string -> string, moves: seq<Move>) {
    forall i :: 0 <= i < |moves| && moves[i].Recording? ==> idOf(moves[i].text) == ExtractID(moves[i].insert.recordID)
  }

  lemma MoveKeepsReadBack(idOf: string -> string, l: Ledger, m: Move)
    requires SlotsReadBack(idOf, l.slots)
    requires m.Recording? ==> idOf(m.text) == ExtractID(m.insert.recordID)
    ensures SlotsReadBack(idOf, AfterStoreMove(l, m).slots)
  {
  }

  lemma {:induction false} SlotsStayReadBack(idOf: string -> string, stores: seq<Store>, moves: seq<Move>, i: nat)
    requires i <= |moves| < |stores| && MovesReadBack(idOf, moves)
    ensures SlotsReadBack(idOf, LedgerAt(stores, moves, i).slots)
  {
    if i == 0 {
      assert moves[..0] == [];
    } else {
      SlotsStayReadBack(idOf, stores, moves, i - 1);
      LedgerGrows(stores, moves, i - 1);
      MoveKeepsReadBack(idOf, LedgerAt(stores, moves, i - 1), moves[i - 1]);
    }
  }

  lemma ScanReadsBack(idOf: string -> string, slots: Slots)
    requires SlotsReadBack(idOf, slots)
    ensures SlotsReadBack(idOf, AsScanned(slots))
  {
    forall i | 0 <= i < |slots| ensures idOf(AsScanned(slots)[i].text) == ExtractID(AsScanned(slots)[i].recordID) {
      assert ScanNumbers(|slots|)[i] in ScanNumbers(|slots|);
    }
  }

  /** In every run, rows inserted again under an id included: a pass that finds no leaf map succeeds
      exactly when nothing was recorded or the table is, for each id in the ten slots, the row the scan
      lists last. */
  lemma RunsWithoutLeafMap(h: Hasher, idOf: string -> string, t: string, stores: seq<Store>, moves: seq<Move>,
                           texts: set<string>, i: nat)
    requires IsTableName(t) && IsMoveRun(h, t, stores, moves) && i < |moves| && moves[i].Pass?
    requires PassesHashWithin(h, stores, moves, texts) && !Collides(h, texts)
    requires MovesReadBack(idOf, moves) && ReadsBack(idOf, stores[i].table) && LedgerAt(stores, moves, i).base == None
    ensures var slots := LedgerAt(stores, moves, i).slots;
      moves[i].report.Passed? <==> slots == [] || stores[i].table == RecordedRows(AsScanned(slots))
  {
    var l := LedgerAt(stores, moves, i);
    LedgerRunsAreExact(h, t, stores, moves, texts, i);
    SlotsStayReadBack(idOf, stores, moves, i);
    ScanReadsBack(idOf, l.slots);
    WithoutLeafMapIff(idOf, AsScanned(l.slots), l.table);
  }
}
