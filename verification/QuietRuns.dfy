/** Runs in which nobody touches the table: every row is inserted once and recorded at once. Beyond ten
    inserts, whether a pass still succeeds depends on where the passes before it fell. */
module QuietRuns {
  import opened Detection
  import opened Hashing
  import opened LedgerMeanings
  import opened LedgerRuns
  import opened Ledgers
  import opened MapValues
  import opened Options
  import opened RecordIds
  import opened ScanOrders
  import opened StoreRuns
  import opened TableViews

  datatype Line = Line(id: string, recordID: string, text: string)

  datatype Quiet = Arrives(line: Line) | Checked

  function Lines(q: seq<Quiet>): seq<Line> {
    if q == [] then []
    else
      var before, last := Lines(q[..|q| - 1]), q[|q| - 1];
      if last.Arrives? then before + [last.line] else before
  }

  /** Every row has an id and a printed key of its own, and its key reads back to its id. */
  ghost predicate AreFresh(lines: seq<Line>) {
    && (forall i, j :: 0 <= i < j < |lines| ==> lines[i].id != lines[j].id && lines[i].recordID != lines[j].recordID)
    && (forall i :: 0 <= i < |lines| ==>
          IsPrinted(lines[i].recordID) && !IsPrinted(lines[i].id) && ExtractID(lines[i].recordID) == lines[i].id)
  }

  function TableOf(lines: seq<Line>): Table {
    if lines == [] then map[]
    else TableOf(lines[..|lines| - 1])[lines[|lines| - 1].id := lines[|lines| - 1].text]
  }

  function LineTexts(lines: seq<Line>): (r: seq<string>)
    ensures |r| == |lines|
    ensures forall i :: 0 <= i < |lines| ==> r[i] == lines[i].text
  {
    seq(|lines|, i requires 0 <= i < |lines| => lines[i].text)
  }

  /** The ledger a quiet run leads to: a row that arrives shows in the table and is recorded. */
  ghost function QuietLedger(q: seq<Quiet>): Ledger {
    if q == [] then Ledger([], None, map[])
    else
      var before := QuietLedger(q[..|q| - 1]);
      match q[|q| - 1]
      case Arrives(line) => AfterMove(AfterMove(before, Shows(before.table[line.id := line.text])), Records(line.recordID, line.text))
      case Checked => AfterCheck(before)
  }

  // ---------------------------------------------------------------- the ledger of n rows

  /** The slots after these rows were recorded. */
  function SlotsOf(lines: seq<Line>): Slots {
    if lines == [] then []
    else Put(SlotsOf(lines[..|lines| - 1]), lines[|lines| - 1].recordID, lines[|lines| - 1].text)
  }

  function SlotAt(lines: seq<Line>, i: nat, number: nat): Slot
    requires i < |lines|
  {
    Slot(number, lines[i].recordID, lines[i].text)
  }

  lemma {:induction false} SlotsAre(lines: seq<Line>)
    ensures |SlotsOf(lines)| == if |lines| <= 10 then |lines| else 10
    ensures forall i :: 0 <= i < |SlotsOf(lines)| && i < 9 ==> SlotsOf(lines)[i] == SlotAt(lines, i, i + 1)
    ensures |lines| >= 10 ==> SlotsOf(lines)[9] == SlotAt(lines, |lines| - 1, 10)
  {
    if lines != [] {
      SlotsAre(lines[..|lines| - 1]);
    }
  }

  /** What a check over n rows keeps: the number of rows of its leaf map, if it leaves one. */
  function KeptAfter(n: nat, kept: Option<nat>): Option<nat> {
    if n == 0 then None
    else if n < 10 then Some(n)
    else if n == 10 then if kept == Some(10) then None else Some(10)
    else if kept == Some(n - 1) then Some(n)
    else kept
  }

  function Kept(q: seq<Quiet>): Option<nat> {
    if q == [] then None
    else
      var before := Kept(q[..|q| - 1]);
      if q[|q| - 1].Arrives? then before else KeptAfter(|Lines(q[..|q| - 1])|, before)
  }

  ghost function BaseOf(lines: seq<Line>, kept: Option<nat>): Option<Base> {
    if kept.Some? && kept.value <= |lines| then Some(Base(TableOf(lines[..kept.value]), Lower(kept.value, 9))) else None
  }

  lemma {:induction false} KeptIsBounded(q: seq<Quiet>)
    ensures Kept(q).Some? ==> 1 <= Kept(q).value <= |Lines(q)|
  {
    if q != [] {
      KeptIsBounded(q[..|q| - 1]);
    }
  }

  // ---------------------------------------------------------------- texts expected

  function LaterTexts(listed: seq<Slot>, after: nat): seq<string> {
    if listed == [] then []
    else
      var last := listed[|listed| - 1];
      LaterTexts(listed[..|listed| - 1], after) + if last.number > after then [last.text] else []
  }

  lemma {:induction false} LaterInTurn(a: seq<Slot>, b: seq<Slot>, after: nat)
    ensures LaterTexts(a + b, after) == LaterTexts(a, after) + LaterTexts(b, after)
  {
    if b == [] {
      assert a + b == a;
    } else {
      var n := |b| - 1;
      assert (a + b)[..|a + b| - 1] == a + b[..n] && (a + b)[|a + b| - 1] == b[n];
      LaterInTurn(a, b[..n], after);
    }
  }

  /** The slots' record ids are all different, and none is an id of the table. */
  ghost predicate AreNew(rows: Table, listed: seq<Slot>) {
    && (forall i, j :: 0 <= i < j < |listed| ==> listed[i].recordID != listed[j].recordID)
    && (forall i :: 0 <= i < |listed| ==> listed[i].recordID !in rows)
  }

  lemma {:induction false} NotInOverlay(rows: Table, listed: seq<Slot>, after: nat, k: string)
    requires k !in rows && forall i :: 0 <= i < |listed| ==> listed[i].recordID != k
    ensures k !in OverlayRows(rows, listed, after)
  {
    if listed != [] {
      NotInOverlay(rows, listed[..|listed| - 1], after, k);
    }
  }

  lemma TextsHaveValues(rows: Table)
    ensures multiset(Texts(rows)) == ValuesOf(rows)
  {
    CollectHasValues(rows, rows.Keys);
  }

  lemma TextsOfPut(rows: Table, k: string, text: string)
    requires k !in rows
    ensures multiset(Texts(rows[k := text])) == multiset(Texts(rows)) + multiset{text}
  {
    TextsHaveValues(rows);
    TextsHaveValues(rows[k := text]);
    ValuesOfPut(rows, k, text);
  }

  lemma OverlayAddsOne(rows: Table, listed: seq<Slot>, after: nat)
    requires listed != [] && AreNew(rows, listed)
    ensures var n, before := |listed| - 1, OverlayRows(rows, listed[..|listed| - 1], after);
      multiset(Texts(OverlayRows(rows, listed, after))) ==
      multiset(Texts(before)) + multiset(if listed[n].number > after then [listed[n].text] else [])
  {
    var n := |listed| - 1;
    if listed[n].number > after {
      NotInOverlay(rows, listed[..n], after, listed[n].recordID);
      TextsOfPut(OverlayRows(rows, listed[..n], after), listed[n].recordID, listed[n].text);
    }
  }

  lemma {:induction false} OverlayAddsTexts(rows: Table, listed: seq<Slot>, after: nat)
    requires AreNew(rows, listed)
    ensures multiset(Texts(OverlayRows(rows, listed, after))) == multiset(Texts(rows)) + multiset(LaterTexts(listed, after))
  {
    if listed != [] {
      OverlayAddsTexts(rows, listed[..|listed| - 1], after);
      OverlayAddsOne(rows, listed, after);
    }
  }

  lemma {:induction false} NotInTable(lines: seq<Line>, k: string)
    requires forall i :: 0 <= i < |lines| ==> lines[i].id != k
    ensures k !in TableOf(lines)
  {
    if lines != [] {
      NotInTable(lines[..|lines| - 1], k);
    }
  }

  lemma FreshInit(lines: seq<Line>, n: nat)
    requires AreFresh(lines) && n <= |lines|
    ensures AreFresh(lines[..n])
  {
  }

  lemma {:induction false} TextsOfLines(lines: seq<Line>)
    requires AreFresh(lines)
    ensures multiset(Texts(TableOf(lines))) == multiset(LineTexts(lines))
  {
    if lines != [] {
      var n := |lines| - 1;
      FreshInit(lines, n);
      TextsOfLines(lines[..n]);
      NotInTable(lines[..n], lines[n].id);
      TextsOfPut(TableOf(lines[..n]), lines[n].id, lines[n].text);
      LineTextsOfOneMore(lines);
    }
  }

  lemma EarlyPut(lines: seq<Line>)
    requires 0 < |lines| <= 10
    ensures var n := |lines| - 1;
      SlotsOf(lines) == SlotsOf(lines[..n]) + [SlotAt(lines, n, n + 1)]
  {
    SlotsAre(lines[..|lines| - 1]);
  }

  lemma LaterOfOneMore(listed: seq<Slot>, last: Slot, after: nat)
    ensures LaterTexts(listed + [last], after) == LaterTexts(listed, after) + if last.number > after then [last.text] else []
  {
    assert (listed + [last])[..|listed|] == listed;
  }

  lemma TailOfOneMore(texts: seq<string>, text: string, after: nat)
    ensures (texts + [text])[Lower(after, |texts| + 1)..] ==
      texts[Lower(after, |texts|)..] + if |texts| + 1 > after then [text] else []
  {
  }

  lemma LineTextsOfOneMore(lines: seq<Line>)
    requires lines != []
    ensures var n := |lines| - 1; LineTexts(lines) == LineTexts(lines[..n]) + [lines[n].text]
  {
  }

  lemma {:induction false} EarlySlots(lines: seq<Line>, after: nat)
    requires |lines| <= 9
    ensures LaterTexts(SlotsOf(lines), after) == LineTexts(lines)[Lower(after, |lines|)..]
  {
    if lines != [] {
      var n := |lines| - 1;
      EarlySlots(lines[..n], after);
      EarlyPut(lines);
      LaterOfOneMore(SlotsOf(lines[..n]), SlotAt(lines, n, n + 1), after);
      LineTextsOfOneMore(lines);
      TailOfOneMore(LineTexts(lines[..n]), lines[n].text, after);
    }
  }

  lemma TenthSlot(lines: seq<Line>)
    requires |lines| >= 10
    ensures SlotsOf(lines) == SlotsOf(lines[..9]) + [SlotAt(lines, |lines| - 1, 10)]
  {
    SlotsAre(lines);
    SlotsAre(lines[..9]);
  }

  /** The texts a pass over n rows expects if the kept leaf map has the first k of them. */
  function TextsExpected(lines: seq<Line>, k: nat): seq<string>
    requires k <= |lines|
  {
    LineTexts(lines[..k]) + LaterTexts(SlotsOf(lines), Lower(k, 9))
  }

  function ExpectedSize(n: nat, k: nat): nat {
    if n < 10 then n else if k < 10 then 10 else k + 1
  }

  lemma LateTexts(lines: seq<Line>, after: nat)
    requires |lines| >= 10 && after <= 9
    ensures LaterTexts(SlotsOf(lines), after) == LineTexts(lines[..9])[after..] + [lines[|lines| - 1].text]
  {
    var last := SlotAt(lines, |lines| - 1, 10);
    TenthSlot(lines);
    EarlySlots(lines[..9], after);
    LaterInTurn(SlotsOf(lines[..9]), [last], after);
    assert [last][..0] == [] && LaterTexts([last], after) == [last.text];
  }

  lemma TextsSplit(lines: seq<Line>, k: nat)
    requires k <= |lines|
    ensures LineTexts(lines) == LineTexts(lines[..k]) + LineTexts(lines)[k..]
  {
  }

  lemma FewTextsExpected(lines: seq<Line>, k: nat)
    requires k <= |lines| < 10
    ensures TextsExpected(lines, k) == LineTexts(lines)
  {
    EarlySlots(lines, k);
    TextsSplit(lines, k);
  }

  lemma ManyTextsExpected(lines: seq<Line>, k: nat)
    requires k <= |lines| && |lines| >= 10
    ensures TextsExpected(lines, k) == LineTexts(lines[..if k < 10 then 9 else k]) + [lines[|lines| - 1].text]
  {
    LateTexts(lines, Lower(k, 9));
    if k < 10 {
      TextsSplit(lines[..9], k);
      assert lines[..9][..k] == lines[..k];
    }
  }

  /** There are as many texts expected as rows exactly if they are the rows' texts. */
  lemma ExpectedTextsAre(lines: seq<Line>, k: nat)
    requires k <= |lines|
    ensures |TextsExpected(lines, k)| == ExpectedSize(|lines|, k)
    ensures |TextsExpected(lines, k)| == |lines| ==> TextsExpected(lines, k) == LineTexts(lines)
  {
    if |lines| < 10 {
      FewTextsExpected(lines, k);
    } else {
      ManyTextsExpected(lines, k);
      LineTextsOfOneMore(lines);
    }
  }

  lemma ScanKeepsLater(slots: Slots, after: nat)
    ensures multiset(LaterTexts(AsScanned(slots), after)) == multiset(LaterTexts(slots, after))
  {
    if |slots| == 10 {
      var first, rest, last := TenSlots(slots);
      LaterInTurn(first + rest, [last], after);
      LaterInTurn(first, rest, after);
      LaterInTurn(first + [last], rest, after);
      LaterInTurn(first, [last], after);
    }
  }

  lemma {:induction false} AllAreLater(listed: seq<Slot>)
    requires forall slot :: slot in listed ==> slot.number > 0
    ensures LaterTexts(listed, 0) == SlotTexts(listed)
  {
    if listed != [] {
      var n := |listed| - 1;
      AllAreLater(listed[..n]);
      assert SlotTexts(listed) == SlotTexts(listed[..n]) + [listed[n].text];
    }
  }

  // ---------------------------------------------------------------- one check

  lemma ScanNumbersDiffer(n: nat, i: nat, j: nat)
    requires i < j < n <= 10
    ensures ScanNumbers(n)[i] != ScanNumbers(n)[j]
  {
  }

  lemma ScanStaysNew(rows: Table, slots: Slots)
    requires AreNew(rows, slots)
    ensures AreNew(rows, AsScanned(slots))
  {
    var r, order := AsScanned(slots), ScanNumbers(|slots|);
    forall i | 0 <= i < |r| ensures r[i].recordID !in rows {
      assert order[i] in order;
    }
    forall i, j | 0 <= i < j < |r| ensures r[i].recordID != r[j].recordID {
      assert order[i] in order && order[j] in order;
      ScanNumbersDiffer(|slots|, i, j);
    }
  }

  /** Which row a slot is about. */
  function LineOfSlot(n: nat, i: nat): nat
    requires i < n && i < 10
  {
    if i < 9 then i else n - 1
  }

  lemma SlotIsLine(lines: seq<Line>, i: nat)
    requires i < |SlotsOf(lines)|
    ensures i < |lines| && SlotsOf(lines)[i] == SlotAt(lines, LineOfSlot(|lines|, i), i + 1)
  {
    SlotsAre(lines);
  }

  lemma SlotIsOutside(lines: seq<Line>, k: nat, i: nat)
    requires AreFresh(lines) && k <= |lines| && i < |SlotsOf(lines)|
    ensures SlotsOf(lines)[i].recordID !in TableOf(lines[..k])
  {
    SlotIsLine(lines, i);
    NotInTable(lines[..k], SlotsOf(lines)[i].recordID);
  }

  lemma SlotsDiffer(lines: seq<Line>, i: nat, j: nat)
    requires AreFresh(lines) && i < j < |SlotsOf(lines)|
    ensures SlotsOf(lines)[i].recordID != SlotsOf(lines)[j].recordID
  {
    SlotIsLine(lines, i);
    SlotIsLine(lines, j);
    SlotsAre(lines);
    assert LineOfSlot(|lines|, i) < LineOfSlot(|lines|, j);
  }

  lemma SlotsAreNew(lines: seq<Line>, k: nat)
    requires AreFresh(lines) && k <= |lines|
    ensures AreNew(TableOf(lines[..k]), SlotsOf(lines))
  {
    forall i | 0 <= i < |SlotsOf(lines)| ensures SlotsOf(lines)[i].recordID !in TableOf(lines[..k]) {
      SlotIsOutside(lines, k, i);
    }
    forall i, j | 0 <= i < j < |SlotsOf(lines)| ensures SlotsOf(lines)[i].recordID != SlotsOf(lines)[j].recordID {
      SlotsDiffer(lines, i, j);
    }
  }

  function CountOf(kept: Option<nat>): nat {
    if kept.Some? then kept.value else 0
  }

  lemma SlotsAreNumbered(lines: seq<Line>)
    ensures forall slot :: slot in SlotsOf(lines) ==> slot.number > 0
  {
    forall slot | slot in SlotsOf(lines) ensures slot.number > 0 {
      var i :| 0 <= i < |SlotsOf(lines)| && SlotsOf(lines)[i] == slot;
      SlotIsLine(lines, i);
    }
  }

  lemma ScannedAreLater(lines: seq<Line>)
    ensures LaterTexts(AsScanned(SlotsOf(lines)), 0) == SlotTexts(AsScanned(SlotsOf(lines)))
  {
    SlotsAreNumbered(lines);
    ScanTakesFromList(SlotsOf(lines));
    AllAreLater(AsScanned(SlotsOf(lines)));
  }

  /** A list of the slots in some order. */
  ghost predicate ListsSlots(listed: seq<Slot>, lines: seq<Line>, k: nat)
    requires k <= |lines|
  {
    && multiset(LaterTexts(listed, Lower(k, 9))) == multiset(LaterTexts(SlotsOf(lines), Lower(k, 9)))
    && LaterTexts(listed, 0) == SlotTexts(listed)
    && AreNew(TableOf(lines[..k]), listed)
  }

  lemma ScanListsSlots(lines: seq<Line>, k: nat)
    requires AreFresh(lines) && k <= |lines|
    ensures ListsSlots(AsScanned(SlotsOf(lines)), lines, k)
  {
    ScannedAreLater(lines);
    ScanKeepsLater(SlotsOf(lines), Lower(k, 9));
    SlotsAreNew(lines, k);
    ScanStaysNew(TableOf(lines[..k]), SlotsOf(lines));
  }

  lemma ExpectsWithBase(lines: seq<Line>, k: nat, listed: seq<Slot>)
    requires AreFresh(lines) && k <= |lines| && ListsSlots(listed, lines, k)
    ensures multiset(Texts(OverlayRows(TableOf(lines[..k]), listed, Lower(k, 9)))) == multiset(TextsExpected(lines, k))
  {
    OverlayAddsTexts(TableOf(lines[..k]), listed, Lower(k, 9));
    FreshInit(lines, k);
    TextsOfLines(lines[..k]);
  }

  /** What the ledger expects is what was computed for its rows. */
  lemma LedgerExpects(lines: seq<Line>, kept: Option<nat>, listed: seq<Slot>)
    requires AreFresh(lines) && CountOf(kept) <= |lines| && ListsSlots(listed, lines, CountOf(kept))
    ensures multiset(ExpectedTexts(listed, BaseOf(lines, kept))) == multiset(TextsExpected(lines, CountOf(kept)))
  {
    if kept.Some? {
      ExpectsWithBase(lines, kept.value, listed);
    } else {
      assert TextsExpected(lines, 0) == LaterTexts(SlotsOf(lines), 0);
    }
  }

  lemma SameTextsBySize(lines: seq<Line>, kept: Option<nat>, listed: seq<Slot>, expected: seq<string>)
    requires AreFresh(lines) && CountOf(kept) <= |lines| && ListsSlots(listed, lines, CountOf(kept))
    requires expected == ExpectedTexts(listed, BaseOf(lines, kept))
    ensures |expected| == ExpectedSize(|lines|, CountOf(kept))
    ensures multiset(Texts(TableOf(lines))) == multiset(expected) <==> |expected| == |lines|
  {
    LedgerExpects(lines, kept, listed);
    ExpectedTextsAre(lines, CountOf(kept));
    TextsOfLines(lines);
    SameSizes(expected, TextsExpected(lines, CountOf(kept)), LineTexts(lines));
  }

  lemma SameSizes(a: seq<string>, b: seq<string>, c: seq<string>)
    requires multiset(a) == multiset(b) && (|b| == |c| ==> b == c)
    ensures |a| == |b| && (multiset(c) == multiset(a) <==> |a| == |c|)
  {
    assert |a| == |multiset(a)| == |multiset(b)| == |b|;
    assert |c| == |multiset(c)|;
  }

  lemma {:induction false} RecordedSize(listed: seq<Slot>)
    ensures |RecordedRows(listed)| <= |listed|
  {
    if listed != [] {
      RecordedSize(listed[..|listed| - 1]);
    }
  }

  lemma TableSize(lines: seq<Line>)
    requires AreFresh(lines)
    ensures |TableOf(lines)| == |lines|
  {
    TextsOfLines(lines);
    TextsAreValues(TableOf(lines));
    assert |Texts(TableOf(lines))| == |multiset(Texts(TableOf(lines)))| == |multiset(LineTexts(lines))| == |lines|;
  }

  lemma {:induction false} NotRecorded(listed: seq<Slot>, id: string)
    requires forall i :: 0 <= i < |listed| ==> ExtractID(listed[i].recordID) != id
    ensures id !in RecordedRows(listed)
  {
    if listed != [] {
      NotRecorded(listed[..|listed| - 1], id);
    }
  }

  lemma {:induction false} EarlySlotsRecord(lines: seq<Line>)
    requires AreFresh(lines) && |lines| <= 10
    ensures RecordedRows(SlotsOf(lines)) == TableOf(lines)
  {
    if lines != [] {
      var n := |lines| - 1;
      FreshInit(lines, n);
      EarlySlotsRecord(lines[..n]);
      EarlyPut(lines);
      RecordedInTurn(SlotsOf(lines[..n]), [SlotAt(lines, n, n + 1)]);
      OneRecorded(SlotAt(lines, n, n + 1));
    }
  }

  lemma TenRowsAreRecorded(lines: seq<Line>)
    requires AreFresh(lines) && |lines| == 10
    ensures RecordedRows(AsScanned(SlotsOf(lines))) == TableOf(lines)
  {
    var slots := SlotsOf(lines);
    SlotsAre(lines);
    forall i | 0 <= i < |slots[1..9]| ensures ExtractID(slots[1..9][i].recordID) != ExtractID(slots[9].recordID) {
      SlotIsLine(lines, i + 1);
    }
    NotRecorded(slots[1..9], ExtractID(slots[9].recordID));
    LastRecordedIsListedLastIff(slots);
    EarlySlotsRecord(lines);
  }

  lemma ManyRowsAreNot(lines: seq<Line>)
    requires AreFresh(lines) && |lines| > 10
    ensures RecordedRows(AsScanned(SlotsOf(lines))) != TableOf(lines)
  {
    RecordedSize(AsScanned(SlotsOf(lines)));
    TableSize(lines);
  }

  lemma RecordsMatchIff(lines: seq<Line>)
    requires AreFresh(lines) && |lines| >= 10
    ensures TableOf(lines) == RecordedRows(AsScanned(SlotsOf(lines))) <==> |lines| == 10
  {
    if |lines| == 10 {
      TenRowsAreRecorded(lines);
    } else {
      ManyRowsAreNot(lines);
    }
  }

  /** The verdict over n rows, the kept leaf map having the first k of them. */
  ghost predicate IsQuietFinding(found: Finding, n: nat, k: nat) {
    && (found.NothingToCompare? <==> n == 0)
    && (found.SameTexts? <==> n > 0 && ExpectedSize(n, k) == n)
    && (found.SameRecords? <==> n == 10 == k)
  }

  lemma ListedFinding(lines: seq<Line>, kept: Option<nat>, listed: seq<Slot>)
    requires AreFresh(lines) && CountOf(kept) <= |lines| && ListsSlots(listed, lines, CountOf(kept))
    requires |lines| >= 10 ==> (TableOf(lines) == RecordedRows(listed) <==> |lines| == 10)
    ensures IsQuietFinding(Rule(listed, BaseOf(lines, kept), TableOf(lines)), |lines|, CountOf(kept))
  {
    SameTextsBySize(lines, kept, listed, ExpectedTexts(listed, BaseOf(lines, kept)));
  }

  lemma QuietFinding(lines: seq<Line>, kept: Option<nat>)
    requires AreFresh(lines) && CountOf(kept) <= |lines|
    ensures IsQuietFinding(Rule(AsScanned(SlotsOf(lines)), BaseOf(lines, kept), TableOf(lines)), |lines|, CountOf(kept))
  {
    ScanListsSlots(lines, CountOf(kept));
    if |lines| >= 10 {
      RecordsMatchIff(lines);
    }
    ListedFinding(lines, kept, AsScanned(SlotsOf(lines)));
  }

  // ---------------------------------------------------------------- runs

  ghost function QuietState(lines: seq<Line>, kept: Option<nat>): Ledger {
    Ledger(SlotsOf(lines), BaseOf(lines, kept), TableOf(lines))
  }

  lemma ArrivalKeepsState(lines: seq<Line>, kept: Option<nat>, line: Line)
    requires CountOf(kept) <= |lines|
    ensures var before := QuietState(lines, kept);
      AfterMove(AfterMove(before, Shows(before.table[line.id := line.text])), Records(line.recordID, line.text)) ==
      QuietState(lines + [line], kept)
  {
    assert (lines + [line])[..|lines|] == lines;
    if kept.Some? {
      assert (lines + [line])[..kept.value] == lines[..kept.value];
    }
  }

  lemma KeptTable(lines: seq<Line>)
    requires AreFresh(lines) && lines != []
    ensures TableOf(lines) != map[]
    ensures Some(Base(TableOf(lines), Lower(|SlotsOf(lines)|, 9))) == BaseOf(lines, Some(|lines|))
  {
    TableSize(lines);
    SlotsAre(lines);
    assert lines[..|lines|] == lines;
  }

  lemma StateFinding(lines: seq<Line>, kept: Option<nat>, l: Ledger)
    requires AreFresh(lines) && CountOf(kept) <= |lines| && l == QuietState(lines, kept)
    ensures IsQuietFinding(FindingOf(l), |lines|, CountOf(kept))
  {
    QuietFinding(lines, kept);
  }

  lemma FindingDecides(found: Finding, n: nat, kept: Option<nat>)
    requires IsQuietFinding(found, n, CountOf(kept)) && CountOf(kept) <= n && kept != Some(0)
    ensures found.SameTexts? ==> n > 0 && KeptAfter(n, kept) == Some(n)
    ensures found.NothingToCompare? || found.SameRecords? ==> KeptAfter(n, kept) == None
    ensures found.Different? ==> KeptAfter(n, kept) == kept
    ensures found.Different? <==> n > 10 && kept != Some(n - 1)
  {
  }

  lemma CheckByFinding(lines: seq<Line>, kept: Option<nat>, l: Ledger, found: Finding)
    requires AreFresh(lines) && CountOf(kept) <= |lines| && kept != Some(0)
    requires l == QuietState(lines, kept) && found == FindingOf(l) && IsQuietFinding(found, |lines|, CountOf(kept))
    ensures AfterCheck(l) == QuietState(lines, KeptAfter(|lines|, kept))
  {
    FindingDecides(found, |lines|, kept);
    if found.SameTexts? {
      KeptTable(lines);
    }
  }

  lemma CheckKeepsState(lines: seq<Line>, kept: Option<nat>, l: Ledger)
    requires AreFresh(lines) && CountOf(kept) <= |lines| && kept != Some(0) && l == QuietState(lines, kept)
    ensures AfterCheck(l) == QuietState(lines, KeptAfter(|lines|, kept))
    ensures FindingOf(l).Different? <==> |lines| > 10 && kept != Some(|lines| - 1)
  {
    StateFinding(lines, kept, l);
    CheckByFinding(lines, kept, l, FindingOf(l));
    FindingDecides(FindingOf(l), |lines|, kept);
  }

  lemma {:induction false} QuietLedgerIs(q: seq<Quiet>)
    requires AreFresh(Lines(q))
    ensures QuietLedger(q) == QuietState(Lines(q), Kept(q))
  {
    if q != [] {
      var n := |q| - 1;
      assert AreFresh(Lines(q[..n])) by { InitIsFresh(q); }
      QuietLedgerIs(q[..n]);
      KeptIsBounded(q[..n]);
      if q[n].Arrives? {
        ArrivalKeepsState(Lines(q[..n]), Kept(q[..n]), q[n].line);
      } else {
        CheckKeepsState(Lines(q[..n]), Kept(q[..n]), QuietLedger(q[..n]));
      }
    }
  }

  lemma InitIsFresh(q: seq<Quiet>)
    requires q != [] && AreFresh(Lines(q))
    ensures AreFresh(Lines(q[..|q| - 1]))
  {
    var before := Lines(q[..|q| - 1]);
    assert Lines(q)[..|before|] == before;
    FreshInit(Lines(q), |before|);
  }

  // ---------------------------------------------------------------- where the passes fell

  /** How many passes there were while exactly k rows had been inserted. */
  function PassesAt(q: seq<Quiet>, k: nat): nat {
    if q == [] then 0
    else PassesAt(q[..|q| - 1], k) + if q[|q| - 1].Checked? && |Lines(q[..|q| - 1])| == k then 1 else 0
  }

  lemma {:induction false} NoPassesYet(q: seq<Quiet>, k: nat)
    requires k > |Lines(q)|
    ensures PassesAt(q, k) == 0
  {
    if q != [] {
      NoPassesYet(q[..|q| - 1], k);
    }
  }

  /** An odd number of passes fell on ten rows, and at least one on each later number up to m. */
  ghost predicate IsWitnessed(q: seq<Quiet>, m: nat) {
    PassesAt(q, 10) % 2 == 1 && forall k :: 10 < k <= m ==> PassesAt(q, k) > 0
  }

  lemma WitnessedOneMore(q: seq<Quiet>, m: nat)
    requires m > 10
    ensures IsWitnessed(q, m) <==> IsWitnessed(q, m - 1) && PassesAt(q, m) > 0
  {
  }

  /** What is kept tells where the passes fell. */
  ghost predicate KeptTells(q: seq<Quiet>) {
    var n := |Lines(q)|;
    && (n >= 10 ==> (Kept(q) == Some(n) <==> IsWitnessed(q, n)))
    && (n > 10 ==> (Kept(q) == Some(n - 1) <==> IsWitnessed(q, n - 1) && PassesAt(q, n) == 0))
  }

  lemma ArrivalTells(q: seq<Quiet>)
    requires q != [] && q[|q| - 1].Arrives? && KeptTells(q[..|q| - 1])
    ensures KeptTells(q)
  {
    var before, n := q[..|q| - 1], |Lines(q)|;
    KeptIsBounded(before);
    NoPassesYet(before, n);
    assert forall k :: PassesAt(q, k) == PassesAt(before, k);
    if n == 10 {
      assert PassesAt(q, 10) == 0;
    }
    if n > 10 {
      WitnessedOneMore(q, n);
    }
  }

  lemma CheckTells(q: seq<Quiet>)
    requires q != [] && q[|q| - 1].Checked? && KeptTells(q[..|q| - 1])
    ensures KeptTells(q)
  {
    var before, n := q[..|q| - 1], |Lines(q)|;
    KeptIsBounded(before);
    assert forall k :: k != n ==> PassesAt(q, k) == PassesAt(before, k);
    assert PassesAt(q, n) == PassesAt(before, n) + 1;
    if n > 10 {
      WitnessedOneMore(q, n);
      WitnessedOneMore(before, n);
      assert IsWitnessed(q, n - 1) <==> IsWitnessed(before, n - 1);
    }
  }

  lemma {:induction false} KeptTellsPasses(q: seq<Quiet>)
    ensures KeptTells(q)
  {
    if q != [] {
      KeptTellsPasses(q[..|q| - 1]);
      if q[|q| - 1].Arrives? {
        ArrivalTells(q);
      } else {
        CheckTells(q);
      }
    }
  }

  lemma QuietFindingIs(q: seq<Quiet>)
    requires AreFresh(Lines(q))
    ensures FindingOf(QuietLedger(q)).Different? <==> |Lines(q)| > 10 && Kept(q) != Some(|Lines(q)| - 1)
  {
    QuietLedgerIs(q);
    KeptIsBounded(q);
    CheckKeepsState(Lines(q), Kept(q), QuietLedger(q));
  }

  lemma KeptDecides(q: seq<Quiet>, fails: bool)
    requires fails <==> |Lines(q)| > 10 && Kept(q) != Some(|Lines(q)| - 1)
    ensures !fails <==> |Lines(q)| <= 10 || (IsWitnessed(q, |Lines(q)| - 1) && PassesAt(q, |Lines(q)|) == 0)
  {
    KeptTellsPasses(q);
  }

  /** Over a table nobody touches, a pass succeeds exactly up to ten rows, or when an odd number of
      passes fell on ten rows, at least one on each number of rows since, and none on this one. */
  lemma QuietPassesIff(q: seq<Quiet>)
    requires AreFresh(Lines(q))
    ensures !FindingOf(QuietLedger(q)).Different? <==>
      |Lines(q)| <= 10 || (IsWitnessed(q, |Lines(q)| - 1) && PassesAt(q, |Lines(q)|) == 0)
  {
    QuietFindingIs(q);
    KeptDecides(q, FindingOf(QuietLedger(q)).Different?);
  }

  // ---------------------------------------------------------------- the stored buckets

  /** The moves of a quiet run: a row shows, then its insert is handled. */
  function Unfold(q: seq<Quiet>): seq<LedgerMove> {
    if q == [] then []
    else
      Unfold(q[..|q| - 1]) +
      match q[|q| - 1]
      case Arrives(line) => [Shows(TableOf(Lines(q))), Records(line.recordID, line.text)]
      case Checked => [Checks]
  }

  lemma LedgerOfTwoMore(table: Table, moves: seq<LedgerMove>, a: LedgerMove, b: LedgerMove)
    ensures LedgerOf(table, moves + [a]) == AfterMove(LedgerOf(table, moves), a)
    ensures LedgerOf(table, moves + [a, b]) == AfterMove(AfterMove(LedgerOf(table, moves), a), b)
  {
    assert (moves + [a])[..|moves|] == moves;
    assert moves + [a, b] == (moves + [a]) + [b];
    assert (moves + [a, b])[..|moves| + 1] == moves + [a];
  }

  lemma {:induction false} UnfoldLeadsToLedger(q: seq<Quiet>)
    requires AreFresh(Lines(q))
    ensures LedgerOf(map[], Unfold(q)) == QuietLedger(q)
  {
    if q != [] {
      var n := |q| - 1;
      InitIsFresh(q);
      UnfoldLeadsToLedger(q[..n]);
      QuietLedgerIs(q[..n]);
      match q[n] {
        case Arrives(line) =>
          var lines := Lines(q);
          assert lines[..|lines| - 1] == Lines(q[..n]);
          LedgerOfTwoMore(map[], Unfold(q[..n]), Shows(TableOf(lines)), Records(line.recordID, line.text));
        case Checked => LedgerOfTwoMore(map[], Unfold(q[..n]), Checks, Checks);
      }
    }
  }

  /** The same over the stored buckets. */
  lemma QuietStoreRuns(h: Hasher, t: string, stores: seq<Store>, moves: seq<Move>, texts: set<string>, i: nat, q: seq<Quiet>)
    requires IsTableName(t) && IsMoveRun(h, t, stores, moves) && i < |moves| && moves[i].Pass?
    requires PassesHashWithin(h, stores, moves, texts) && !Collides(h, texts)
    requires stores[0].table == map[] && Projected(moves[..i]) == Unfold(q) && AreFresh(Lines(q))
    ensures var n := |Lines(q)|;
      moves[i].report.Passed? <==> n <= 10 || (IsWitnessed(q, n - 1) && PassesAt(q, n) == 0)
  {
    LedgerRunsAreExact(h, t, stores, moves, texts, i);
    UnfoldLeadsToLedger(q);
    QuietPassesIff(q);
  }
}
