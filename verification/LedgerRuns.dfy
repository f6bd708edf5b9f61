/** The stored buckets, the handler and the verifier refine a ledger of at most ten rows. Runs are of any
    length and bring any ids: rows may show before or after they are recorded, ids may come back. */
module LedgerRuns {
  import opened Buckets
  import opened Detection
  import opened DetectionRuns
  import opened Hashing
  import opened Ledgers
  import opened Numbering
  import opened Options
  import opened ScanOrders
  import opened StoreRuns
  import opened StoredPasses
  import opened Storages
  import opened TableViews
  import opened VerificationPass

  // ---------------------------------------------------------------- the ledger

  type Slots = s: seq<Slot> | |s| <= 10

  datatype Ledger = Ledger(slots: Slots, base: Option<Base>, table: Table)

  datatype LedgerMove = Records(recordID: string, text: string) | Shows(table: Table) | Checks

  /** Up to ten slots are filled; from then on the tenth is filled again. */
  function Put(slots: Slots, recordID: string, text: string): Slots {
    if |slots| < 10 then slots + [Slot(|slots| + 1, recordID, text)] else slots[..9] + [Slot(10, recordID, text)]
  }

  ghost function FindingOf(l: Ledger): Finding {
    Rule(AsScanned(l.slots), l.base, l.table)
  }

  /** A check that finds the texts it expects keeps the table's rows; one that has to compare record by
      record keeps nothing. */
  ghost function AfterCheck(l: Ledger): Ledger {
    match FindingOf(l)
    case Different => l
    case SameRecords => l.(base := None)
    case _ => l.(base := if l.table == map[] then None else Some(Base(l.table, Lower(|l.slots|, 9))))
  }

  ghost function AfterMove(l: Ledger, m: LedgerMove): Ledger {
    match m
    case Records(recordID, text) => l.(slots := Put(l.slots, recordID, text))
    case Shows(table) => l.(table := table)
    case Checks => AfterCheck(l)
  }

  ghost function LedgerOf(table: Table, moves: seq<LedgerMove>): Ledger {
    if moves == [] then Ledger([], None, table)
    else AfterMove(LedgerOf(table, moves[..|moves| - 1]), moves[|moves| - 1])
  }

  // ---------------------------------------------------------------- what the store keeps of it

  /** The history's chain and newest checkpoint are about the ledger's rows. */
  ghost predicate Keeps(h: Hasher, s: History, l: Ledger) {
    && AllMatch(h, s.chain, l.slots) && s.table == l.table && ShowsBase(h, Newest(s.checkpoints), l.base)
  }

  ghost predicate Holds(h: Hasher, t: string, a: Store, s: History, l: Ledger)
    requires IsTableName(t)
  {
    Follows(t, a, s) && Keeps(h, s, l)
  }

  /** The buckets and the table are a ledger's. */
  ghost predicate Refines(h: Hasher, t: string, a: Store, l: Ledger)
    requires IsTableName(t)
  {
    exists s :: Holds(h, t, a, s, l)
  }

  lemma ScannedMatch(h: Hasher, entries: seq<HashEntry>, slots: Slots)
    requires AllMatch(h, entries, slots)
    ensures AllMatch(h, AsScanned(entries), AsScanned(slots))
  {
    forall i | 0 <= i < |slots| ensures Matches(h, AsScanned(entries)[i], AsScanned(slots)[i]) {
      assert ScanNumbers(|slots|)[i] in ScanNumbers(|slots|);
    }
  }

  lemma PutMatches(h: Hasher, chain: seq<HashEntry>, slots: Slots, x: Insertion, text: string)
    requires AllMatch(h, chain, slots) && x.dataHash == h.digest(text)
    ensures AllMatch(h, NextChain(chain, x), Put(slots, x.recordID, text))
  {
  }

  lemma RecordingKeeps(h: Hasher, t: string, a: Store, m: Move, b: Store, s: History, l: Ledger)
    requires IsTableName(t) && Happens(h, t, a, m, b) && m.Recording? && Keeps(h, s, l)
    ensures Keeps(h, HistoryAfter(h, t, s, a, m), AfterMove(l, Records(m.insert.recordID, m.text)))
  {
    RecordingHistory(h, t, s, a, m.id, m.text, m.insert);
    PutMatches(h, s.chain, l.slots, m.insert, m.text);
  }

  /** The checkpoint a check leaves behind shows the base it leaves behind. */
  lemma SavedShowsBase(h: Hasher, s: History, step: Step, l: Ledger)
    requires step.Verify? && Lists(step.rows, s.table) && s.table == l.table
    requires Says(VerdictOf(h, s, step), FindingOf(l)) && !FindingOf(l).Different?
    requires NumberOf(step.latest) == Lower(|l.slots|, 9)
    ensures ShowsBase(h, Some(CheckpointFor(VerdictOf(h, s, step), step.name, step.latest, step.algorithm, step.now)), AfterCheck(l).base)
  {
    TableData(h, step.rows, s.table);
    JudgeIs(h, step.rows, step.entries, Newest(s.checkpoints), ExpectedLeaves(step.entries, Newest(s.checkpoints)));
  }

  lemma CheckKeeps(h: Hasher, s: History, step: Step, l: Ledger)
    requires step.Verify? && Lists(step.rows, s.table) && Keeps(h, s, l)
    requires Says(VerdictOf(h, s, step), FindingOf(l))
    requires NumberOf(step.latest) == Lower(|l.slots|, 9) && forall n :: n in s.checkpoints ==> n <= NumberOf(step.latest)
    ensures Keeps(h, After(h, s, step), AfterCheck(l))
  {
    if !FindingOf(l).Different? {
      SavedShowsBase(h, s, step, l);
      SavedIsNewest(h, s, step);
    }
  }

  lemma CheckFindsRule(h: Hasher, t: string, a: Store, s: History, l: Ledger, rows: seq<Row>, algorithm: string, now: int)
    requires IsTableName(t) && Follows(t, a, s) && Keeps(h, s, l) && Lists(rows, a.table)
    requires !Collides(h, PassTextsOf(h, rows, AsScanned(l.slots), l.base, l.table))
    ensures Says(VerdictOf(h, s, PassStep(rows, a.hashChain, t, algorithm, now)), FindingOf(l))
  {
    ScanListsChain(a.hashChain, t, s.chain);
    ScannedMatch(h, s.chain, l.slots);
    JudgeFollowsRule(h, rows, Scan(a.hashChain, t + ":"), Newest(s.checkpoints), AsScanned(l.slots), l.base, l.table);
  }

  lemma LatestIsBound(t: string, a: Store, s: History, slots: Slots, rows: seq<Row>, algorithm: string, now: int)
    requires IsTableName(t) && Follows(t, a, s) && |s.chain| == |slots|
    ensures var latest := PassStep(rows, a.hashChain, t, algorithm, now).latest;
      NumberOf(latest) == Lower(|slots|, 9) && forall n :: n in s.checkpoints ==> n <= NumberOf(latest)
  {
    LatestNumber(a.hashChain, t, s.chain);
  }

  lemma StepKeeps(h: Hasher, t: string, a: Store, s: History, l: Ledger, rows: seq<Row>, algorithm: string, now: int, step: Step)
    requires IsTableName(t) && Follows(t, a, s) && Keeps(h, s, l) && Lists(rows, a.table)
    requires !Collides(h, PassTextsOf(h, rows, AsScanned(l.slots), l.base, l.table))
    requires step == PassStep(rows, a.hashChain, t, algorithm, now)
    ensures Keeps(h, After(h, s, step), AfterCheck(l))
    ensures VerdictOf(h, s, step).Tampered? <==> FindingOf(l).Different?
  {
    CheckFindsRule(h, t, a, s, l, rows, algorithm, now);
    LatestIsBound(t, a, s, l.slots, rows, algorithm, now);
    CheckKeeps(h, s, step, l);
  }

  /** What a move of the store is for the ledger; moves of other tables are nothing. */
  ghost function AfterStoreMove(l: Ledger, m: Move): Ledger {
    match m
    case Recording(_, text, x) => AfterMove(l, Records(x.recordID, text))
    case OutsideEdit(table) => AfterMove(l, Shows(table))
    case Pass(_, _, _, _) => AfterMove(l, Checks)
    case _ => l
  }

  lemma PassHappens(h: Hasher, t: string, a: Store, m: Move, b: Store, s: History, step: Step)
    requires IsTableName(t) && Happens(h, t, a, m, b) && m.Pass? && Follows(t, a, s)
    requires step == PassStep(m.rows, a.hashChain, t, m.algorithm, m.now)
    ensures Lists(m.rows, a.table) && HistoryAfter(h, t, s, a, m) == After(h, s, step)
    ensures Follows(t, b, After(h, s, step)) && (m.report.Passed? <==> !VerdictOf(h, s, step).Tampered?)
  {
    PassMoveIsStep(h, id => id, t, a, m, b, s, step);
  }

  lemma PassRefines(h: Hasher, t: string, a: Store, m: Move, b: Store, s: History, l: Ledger)
    requires IsTableName(t) && Happens(h, t, a, m, b) && m.Pass? && Holds(h, t, a, s, l)
    requires !Collides(h, PassTextsOf(h, m.rows, AsScanned(l.slots), l.base, l.table))
    ensures Refines(h, t, b, AfterCheck(l))
    ensures m.report.Passed? <==> !FindingOf(l).Different?
  {
    var step := PassStep(m.rows, a.hashChain, t, m.algorithm, m.now);
    PassHappens(h, t, a, m, b, s, step);
    StepKeeps(h, t, a, s, l, m.rows, m.algorithm, m.now, step);
    assert Holds(h, t, b, After(h, s, step), AfterCheck(l));
  }

  lemma PassIsCheck(l: Ledger, m: Move)
    requires m.Pass?
    ensures AfterStoreMove(l, m) == AfterCheck(l)
  {
  }

  lemma RecordingRefines(h: Hasher, t: string, a: Store, m: Move, b: Store, s: History, l: Ledger)
    requires IsTableName(t) && Happens(h, t, a, m, b) && m.Recording? && Holds(h, t, a, s, l)
    ensures Refines(h, t, b, AfterStoreMove(l, m))
  {
    RecordingIsStep(h, t, a, m, b, s);
    RecordingKeeps(h, t, a, m, b, s, l);
    assert Holds(h, t, b, HistoryAfter(h, t, s, a, m), AfterStoreMove(l, m));
  }

  lemma EditRefines(h: Hasher, t: string, a: Store, m: Move, b: Store, s: History, l: Ledger)
    requires IsTableName(t) && Happens(h, t, a, m, b) && m.OutsideEdit? && Holds(h, t, a, s, l)
    ensures Refines(h, t, b, AfterStoreMove(l, m))
  {
    EditFollows(t, a, b, s, s.(table := m.table));
    assert Holds(h, t, b, s.(table := m.table), AfterStoreMove(l, m));
  }

  lemma OtherMoveRefines(h: Hasher, t: string, a: Store, m: Move, b: Store, s: History, l: Ledger)
    requires IsTableName(t) && Happens(h, t, a, m, b) && (m.OtherRecording? || m.OtherPass?) && Holds(h, t, a, s, l)
    ensures Refines(h, t, b, AfterStoreMove(l, m))
  {
    OtherMoveIsNone(h, t, a, m, b, s);
    assert Holds(h, t, b, s, l);
  }

  // ---------------------------------------------------------------- runs

  /** The ledger moves of a run; moves of other tables are none. */
  function Projected(moves: seq<Move>): seq<LedgerMove> {
    if moves == [] then []
    else
      var last := |moves| - 1;
      Projected(moves[..last]) +
      match moves[last]
      case Recording(_, text, x) => [Records(x.recordID, text)]
      case OutsideEdit(table) => [Shows(table)]
      case Pass(_, _, _, _) => [Checks]
      case _ => []
  }

  ghost function LedgerAt(stores: seq<Store>, moves: seq<Move>, i: nat): Ledger
    requires i <= |moves| < |stores|
  {
    LedgerOf(stores[0].table, Projected(moves[..i]))
  }

  ghost function CheckedTexts(h: Hasher, rows: seq<Row>, l: Ledger): set<string> {
    PassTextsOf(h, rows, AsScanned(l.slots), l.base, l.table)
  }

  /** The strings hashed for the run's passes, and for the rows they are about, are among these. */
  ghost predicate PassesHashWithin(h: Hasher, stores: seq<Store>, moves: seq<Move>, texts: set<string>)
    requires |moves| < |stores|
  {
    forall i :: 0 <= i < |moves| && moves[i].Pass? ==> CheckedTexts(h, moves[i].rows, LedgerAt(stores, moves, i)) <= texts
  }

  lemma LedgerGrows(stores: seq<Store>, moves: seq<Move>, i: nat)
    requires i < |moves| < |stores|
    ensures LedgerAt(stores, moves, i + 1) == AfterStoreMove(LedgerAt(stores, moves, i), moves[i])
  {
    assert moves[..i + 1][..i] == moves[..i];
    var before, all := Projected(moves[..i]), Projected(moves[..i + 1]);
    assert all == before || (|all| == |before| + 1 && all[..|before|] == before);
  }

  lemma MoveRefines(h: Hasher, t: string, a: Store, m: Move, b: Store, l: Ledger)
    requires IsTableName(t) && Happens(h, t, a, m, b) && Refines(h, t, a, l)
    requires m.Pass? ==> !Collides(h, CheckedTexts(h, m.rows, l))
    ensures Refines(h, t, b, AfterStoreMove(l, m))
    ensures m.Pass? ==> (m.report.Passed? <==> !FindingOf(l).Different?)
  {
    var s :| Holds(h, t, a, s, l);
    if m.Recording? {
      RecordingRefines(h, t, a, m, b, s, l);
    } else if m.OutsideEdit? {
      EditRefines(h, t, a, m, b, s, l);
    } else if m.Pass? {
      PassRefines(h, t, a, m, b, s, l);
      PassIsCheck(l, m);
    } else {
      OtherMoveRefines(h, t, a, m, b, s, l);
    }
  }

  lemma RunMoveRefines(h: Hasher, t: string, stores: seq<Store>, moves: seq<Move>, texts: set<string>, i: nat)
    requires IsTableName(t) && IsMoveRun(h, t, stores, moves) && i < |moves|
    requires PassesHashWithin(h, stores, moves, texts) && !Collides(h, texts)
    requires Refines(h, t, stores[i], LedgerAt(stores, moves, i))
    ensures Refines(h, t, stores[i + 1], LedgerAt(stores, moves, i + 1))
    ensures moves[i].Pass? ==> (moves[i].report.Passed? <==> !FindingOf(LedgerAt(stores, moves, i)).Different?)
  {
    var l := LedgerAt(stores, moves, i);
    assert Happens(h, t, stores[i], moves[i], stores[i + 1]);
    LedgerGrows(stores, moves, i);
    if moves[i].Pass? && Collides(h, CheckedTexts(h, moves[i].rows, l)) {
      CollidesIsMonotone(h, CheckedTexts(h, moves[i].rows, l), texts);
    }
    MoveRefines(h, t, stores[i], moves[i], stores[i + 1], l);
  }

  lemma StartRefines(h: Hasher, t: string, stores: seq<Store>, moves: seq<Move>)
    requires IsTableName(t) && IsMoveRun(h, t, stores, moves)
    ensures Refines(h, t, stores[0], LedgerAt(stores, moves, 0))
  {
    assert Newest(map[]) == None && moves[..0] == [];
    assert LedgerAt(stores, moves, 0) == Ledger([], None, stores[0].table);
    assert Holds(h, t, stores[0], Empty.(table := stores[0].table), Ledger([], None, stores[0].table));
  }

  lemma {:induction false} RunRefines(h: Hasher, t: string, stores: seq<Store>, moves: seq<Move>, texts: set<string>, i: nat)
    requires IsTableName(t) && IsMoveRun(h, t, stores, moves) && i <= |moves|
    requires PassesHashWithin(h, stores, moves, texts) && !Collides(h, texts)
    ensures Refines(h, t, stores[i], LedgerAt(stores, moves, i))
  {
    if i == 0 {
      StartRefines(h, t, stores, moves);
    } else {
      RunRefines(h, t, stores, moves, texts, i - 1);
      RunMoveRefines(h, t, stores, moves, texts, i - 1);
    }
  }

  /** In every run over the stored buckets, of any length and with any ids, the verifier passes exactly
      when the ledger of the run does, unless strings hashed in the run collide. */
  lemma LedgerRunsAreExact(h: Hasher, t: string, stores: seq<Store>, moves: seq<Move>, texts: set<string>, i: nat)
    requires IsTableName(t) && IsMoveRun(h, t, stores, moves) && i < |moves| && moves[i].Pass?
    requires PassesHashWithin(h, stores, moves, texts) && !Collides(h, texts)
    ensures LedgerAt(stores, moves, i).table == stores[i].table
    ensures moves[i].report.Passed? <==> !FindingOf(LedgerAt(stores, moves, i)).Different?
  {
    RunRefines(h, t, stores, moves, texts, i);
    RunMoveRefines(h, t, stores, moves, texts, i);
    var s :| Holds(h, t, stores[i], s, LedgerAt(stores, moves, i));
  }
}
