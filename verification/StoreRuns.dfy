/** Detection over the stored buckets with their decimal keys: the handler's inserts, outside edits and
    the verifier's passes in any order and number, for one table among others. */
module StoreRuns {
  import opened Buckets
  import opened ChainHashes
  import opened DecimalKeys
  import opened Detection
  import opened DetectionRuns
  import opened Handlers
  import opened Hashing
  import opened MerkleBinding
  import opened Numbering
  import opened Options
  import opened RecordIds
  import opened StoredPasses
  import opened Storages
  import opened TableViews
  import opened VerificationPass

  datatype Store = Store(hashChain: map<string, HashEntry>, checkpoints: map<string, MerkleCheckpoint>, table: Table)

  datatype Move =
    | Recording(id: string, text: string, insert: Insertion)
    | OtherRecording(insert: Insertion)
    | OutsideEdit(table: Table)
    | Pass(rows: seq<Row>, algorithm: string, now: int, report: Report)
    | OtherPass(checkpoint: MerkleCheckpoint)

  /** What a move does to the two buckets and the table: `Recorded` is the handler's insert,
      `PassResult` the verifier's pass. A row shows in the table by an edit, whether its insert is
      handled before or after. */
  ghost predicate Happens(h: Hasher, t: string, a: Store, m: Move, b: Store)
    requires IsTableName(t)
  {
    match m
    case Recording(id, text, x) =>
      && x.tableName == t && x.dataHash == h.digest(text) && ExtractID(x.recordID) == id
      && b == a.(hashChain := Recorded(a.hashChain, x))
    case OtherRecording(x) =>
      && IsTableName(x.tableName) && x.tableName != t
      && b == a.(hashChain := Recorded(a.hashChain, x))
    case OutsideEdit(table) => b == a.(table := table)
    case Pass(rows, algorithm, now, report) =>
      && Lists(rows, a.table) && b == a.(checkpoints := b.checkpoints)
      && PassResult(h, algorithm, t, now, rows, Scan(a.hashChain, t + ":"), a.checkpoints, report, b.checkpoints)
    case OtherPass(cp) =>
      IsTableName(cp.tableName) && cp.tableName != t && b == a.(checkpoints := Saved(a.checkpoints, cp))
  }

  /** Row texts start with a brace and determine their id; ids read back from printed keys and are no
      printed keys themselves. */
  ghost predicate IsRegular(idOf: string -> string, m: Move) {
    match m
    case Recording(id, text, x) => IsPrinted(x.recordID) && !IsPrinted(id) && IsRowText(text) && idOf(text) == id
    case OutsideEdit(table) => IsTable(table, idOf)
    case _ => true
  }

  /** The step of the table's history a move is; moves of other tables are none. With ten entries an
      insert overwrites the last. */
  ghost function StepOf(t: string, s: History, a: Store, m: Move): Option<Step> {
    match m
    case Recording(id, text, x) =>
      if |s.chain| < 10 then Some(Insert(id, text, x.recordID, t, x.operation, x.now))
      else Some(Overwrite(id, text, x.recordID, t, x.operation, x.now))
    case OtherRecording(_) => None
    case OutsideEdit(table) => Some(Edit(table))
    case Pass(rows, algorithm, now, _) => Some(PassStep(rows, a.hashChain, t, algorithm, now))
    case OtherPass(_) => None
  }

  ghost function HistoryAfter(h: Hasher, t: string, s: History, a: Store, m: Move): History {
    match StepOf(t, s, a, m)
    case Some(step) => After(h, s, step)
    case None => s
  }

  function Lower(a: nat, b: nat): nat {
    if a < b then a else b
  }

  /** The store holds the history; there are at most ten entries, and no checkpoint has a greater
      number than the entry that counts as the latest. */
  ghost predicate Follows(t: string, a: Store, s: History)
    requires IsTableName(t)
  {
    && Stores(a.hashChain, a.checkpoints, t, s) && s.table == a.table
    && Numbered(s.chain) && |s.chain| <= 10
    && forall n :: n in s.checkpoints ==> n <= Lower(|s.chain|, 9)
  }

  // ---------------------------------------------------------------- what counts as the latest

  lemma SingleDigitsComeInOrder(numbers: set<nat>)
    requires forall n :: n in numbers ==> n < 10
    ensures GreatestComesLast(numbers)
  {
    forall top, m | IsMax(top, numbers) && m in numbers ensures PaddedStaysBelow(m, top) {
      SameLengthOrder(m, top);
      DecimalOrder(m, top);
    }
  }

  lemma ChainKeys(view: Chain, chain: seq<HashEntry>)
    requires HoldsChain(view, chain)
    ensures view.Keys == UpTo(|chain|)
  {
    forall n: nat ensures n in view.Keys <==> n in UpTo(|chain|) {
      assert n in UpTo(|chain|) <==> InRange(n, |chain|);
    }
  }

  /** Up to nine entries the latest is the last; of ten it is the ninth. */
  lemma LatestNumber(hashChain: map<string, HashEntry>, t: string, chain: seq<HashEntry>)
    requires IsTableName(t) && KeysArePrinted(hashChain.Keys) && HoldsChain(View(hashChain, t), chain)
    requires Numbered(chain) && |chain| <= 10
    ensures NumberOf(LastOf(Scan(hashChain, t + ":"))) == Lower(|chain|, 9)
    ensures NextNumber(hashChain, t) == Lower(|chain|, 9) + 1
  {
    var view := View(hashChain, t);
    ChainKeys(view, chain);
    LatestIsDecimalLast(hashChain, t);
    if chain != [] {
      LastNumeral(|chain|);
      var n: nat := Lower(|chain|, 9);
      assert IsDecimalLast(n, view.Keys) && n in view;
    }
  }

  lemma CheckpointsComeInOrder(t: string, a: Store, s: History)
    requires IsTableName(t) && Follows(t, a, s)
    ensures CheckpointsAreInOrder(a.hashChain, a.checkpoints, t)
  {
    SingleDigitsComeInOrder(View(a.checkpoints, t).Keys);
    LatestNumber(a.hashChain, t, s.chain);
  }

  // ---------------------------------------------------------------- one move

  lemma RecordedUnder(hashChain: map<string, HashEntry>, x: Insertion, n: nat)
    requires IsTableName(x.tableName) && KeysArePrinted(hashChain.Keys) && NextNumber(hashChain, x.tableName) == n
    ensures KeysArePrinted(Recorded(hashChain, x).Keys)
    ensures View(Recorded(hashChain, x), x.tableName) == View(hashChain, x.tableName)[n := EntryFor(x, n)]
  {
    ViewAfterPut(hashChain, x.tableName, n, EntryFor(x, n), x.tableName);
    PutKeepsPrinted(hashChain.Keys, x.tableName, n);
    assert Recorded(hashChain, x).Keys == hashChain.Keys + {RecordKey(x.tableName, n)};
  }

  lemma ChainHoldsOneMore(view: Chain, chain: seq<HashEntry>, e: HashEntry)
    requires HoldsChain(view, chain)
    ensures HoldsChain(view[|chain| + 1 := e], chain + [e])
  {
  }

  lemma ChainHoldsAnother(view: Chain, chain: seq<HashEntry>, e: HashEntry)
    requires HoldsChain(view, chain) && chain != []
    ensures HoldsChain(view[|chain| := e], chain[..|chain| - 1] + [e])
  {
  }

  /** The chain after an insert: up to ten entries it takes the number after the last one's, from then
      on it takes the tenth place again. */
  function NextChain(chain: seq<HashEntry>, x: Insertion): seq<HashEntry>
    requires |chain| <= 10
  {
    if |chain| < 10 then chain + [EntryFor(x, |chain| + 1)] else chain[..9] + [EntryFor(x, 10)]
  }

  lemma NextChainIsNumbered(chain: seq<HashEntry>, x: Insertion)
    requires Numbered(chain) && |chain| <= 10
    ensures Numbered(NextChain(chain, x)) && |chain| <= |NextChain(chain, x)| <= 10
  {
  }

  lemma InsertAppends(hashChain: map<string, HashEntry>, t: string, chain: seq<HashEntry>, x: Insertion)
    requires IsTableName(t) && KeysArePrinted(hashChain.Keys) && HoldsChain(View(hashChain, t), chain)
    requires Numbered(chain) && |chain| < 10 && x.tableName == t
    ensures KeysArePrinted(Recorded(hashChain, x).Keys)
    ensures HoldsChain(View(Recorded(hashChain, x), t), chain + [EntryFor(x, |chain| + 1)])
  {
    LatestNumber(hashChain, t, chain);
    RecordedUnder(hashChain, x, |chain| + 1);
    ChainHoldsOneMore(View(hashChain, t), chain, EntryFor(x, |chain| + 1));
  }

  lemma InsertOverwrites(hashChain: map<string, HashEntry>, t: string, chain: seq<HashEntry>, x: Insertion)
    requires IsTableName(t) && KeysArePrinted(hashChain.Keys) && HoldsChain(View(hashChain, t), chain)
    requires Numbered(chain) && |chain| == 10 && x.tableName == t
    ensures KeysArePrinted(Recorded(hashChain, x).Keys)
    ensures HoldsChain(View(Recorded(hashChain, x), t), chain[..9] + [EntryFor(x, 10)])
  {
    LatestNumber(hashChain, t, chain);
    RecordedUnder(hashChain, x, 10);
    ChainHoldsAnother(View(hashChain, t), chain, EntryFor(x, 10));
  }

  /** The handler's insert is the history's. */
  lemma StoredInsertIsStep(hashChain: map<string, HashEntry>, t: string, chain: seq<HashEntry>, x: Insertion)
    requires IsTableName(t) && KeysArePrinted(hashChain.Keys) && HoldsChain(View(hashChain, t), chain)
    requires Numbered(chain) && |chain| <= 10 && x.tableName == t
    ensures KeysArePrinted(Recorded(hashChain, x).Keys) && HoldsChain(View(Recorded(hashChain, x), t), NextChain(chain, x))
  {
    if |chain| < 10 {
      InsertAppends(hashChain, t, chain, x);
    } else {
      InsertOverwrites(hashChain, t, chain, x);
    }
  }

  lemma OtherInsertLeavesTable(t: string, hashChain: map<string, HashEntry>, x: Insertion)
    requires IsTableName(t) && IsTableName(x.tableName) && x.tableName != t && KeysArePrinted(hashChain.Keys)
    ensures KeysArePrinted(Recorded(hashChain, x).Keys) && View(Recorded(hashChain, x), t) == View(hashChain, t)
  {
    var n := NextNumber(hashChain, x.tableName);
    ViewAfterPut(hashChain, x.tableName, n, EntryFor(x, n), t);
    PutKeepsPrinted(hashChain.Keys, x.tableName, n);
    assert Recorded(hashChain, x).Keys == hashChain.Keys + {RecordKey(x.tableName, n)};
  }

  lemma OtherPassLeavesTable(t: string, checkpoints: map<string, MerkleCheckpoint>, cp: MerkleCheckpoint)
    requires IsTableName(t) && IsTableName(cp.tableName) && cp.tableName != t && KeysArePrinted(checkpoints.Keys)
    ensures KeysArePrinted(Saved(checkpoints, cp).Keys) && View(Saved(checkpoints, cp), t) == View(checkpoints, t)
  {
    ViewAfterPut(checkpoints, cp.tableName, cp.sequenceNum, cp, t);
    PutKeepsPrinted(checkpoints.Keys, cp.tableName, cp.sequenceNum);
    assert Saved(checkpoints, cp).Keys == checkpoints.Keys + {RecordKey(cp.tableName, cp.sequenceNum)};
  }

  lemma RecordingHistory(h: Hasher, t: string, s: History, a: Store, id: string, text: string, x: Insertion)
    requires |s.chain| <= 10 && x.tableName == t && x.dataHash == h.digest(text)
    ensures var next := HistoryAfter(h, t, s, a, Recording(id, text, x));
      next.chain == NextChain(s.chain, x) && next.checkpoints == s.checkpoints && next.table == s.table
  {
  }

  lemma RecordingFollows(t: string, a: Store, b: Store, s: History, next: History, x: Insertion)
    requires IsTableName(t) && Follows(t, a, s) && x.tableName == t
    requires next.chain == NextChain(s.chain, x) && next.checkpoints == s.checkpoints && next.table == b.table
    requires b.hashChain == Recorded(a.hashChain, x) && b.checkpoints == a.checkpoints
    ensures Follows(t, b, next)
  {
    StoredInsertIsStep(a.hashChain, t, s.chain, x);
    NextChainIsNumbered(s.chain, x);
  }

  lemma RecordingIsStep(h: Hasher, t: string, a: Store, m: Move, b: Store, s: History)
    requires IsTableName(t) && Happens(h, t, a, m, b) && m.Recording? && Follows(t, a, s)
    ensures Follows(t, b, HistoryAfter(h, t, s, a, m))
  {
    RecordingHistory(h, t, s, a, m.id, m.text, m.insert);
    RecordingFollows(t, a, b, s, HistoryAfter(h, t, s, a, m), m.insert);
  }

  lemma RecordingIsEnabled(h: Hasher, idOf: string -> string, t: string, a: Store, m: Move, b: Store, s: History, step: Step)
    requires IsTableName(t) && Happens(h, t, a, m, b) && m.Recording? && Some(step) == StepOf(t, s, a, m)
    requires |s.chain| <= 10 && forall n :: n in s.checkpoints ==> n <= Lower(|s.chain|, 9)
    requires MayRecord(s, m.id) && IsRegular(idOf, m)
    ensures Enabled(idOf, s, step)
  {
  }

  lemma PassHistory(h: Hasher, s: History, step: Step)
    requires step.Verify?
    ensures var next := After(h, s, step);
      && next.chain == s.chain && next.table == s.table
      && forall n :: n in next.checkpoints ==> n in s.checkpoints || n == NumberOf(step.latest)
  {
  }

  lemma PassFollows(h: Hasher, idOf: string -> string, t: string, a: Store, checkpoints: map<string, MerkleCheckpoint>, s: History,
                    rows: seq<Row>, algorithm: string, now: int, report: Report, step: Step)
    requires IsTableName(t) && Follows(t, a, s) && Lists(rows, a.table)
    requires PassResult(h, algorithm, t, now, rows, Scan(a.hashChain, t + ":"), a.checkpoints, report, checkpoints)
    requires step == PassStep(rows, a.hashChain, t, algorithm, now)
    ensures Enabled(idOf, s, step) && Follows(t, a.(checkpoints := checkpoints), After(h, s, step))
    ensures report.Passed? <==> !VerdictOf(h, s, step).Tampered?
  {
    CheckpointsComeInOrder(t, a, s);
    LatestNumber(a.hashChain, t, s.chain);
    PassIsStep(h, algorithm, t, now, rows, idOf, a.hashChain, a.checkpoints, report, checkpoints, s);
    PassHistory(h, s, step);
  }

  lemma PassMoveIsStep(h: Hasher, idOf: string -> string, t: string, a: Store, m: Move, b: Store, s: History, step: Step)
    requires IsTableName(t) && Happens(h, t, a, m, b) && m.Pass? && Follows(t, a, s) && Some(step) == StepOf(t, s, a, m)
    ensures step.Verify? && Enabled(idOf, s, step) && Follows(t, b, After(h, s, step))
    ensures m.report.Passed? <==> !VerdictOf(h, s, step).Tampered?
  {
    PassFollows(h, idOf, t, a, b.checkpoints, s, m.rows, m.algorithm, m.now, m.report, step);
  }

  lemma OtherMoveIsNone(h: Hasher, t: string, a: Store, m: Move, b: Store, s: History)
    requires IsTableName(t) && Happens(h, t, a, m, b) && (m.OtherRecording? || m.OtherPass?) && Follows(t, a, s)
    ensures Follows(t, b, s)
  {
    if m.OtherRecording? {
      OtherInsertLeavesTable(t, a.hashChain, m.insert);
    } else {
      OtherPassLeavesTable(t, a.checkpoints, m.checkpoint);
    }
  }

  // ---------------------------------------------------------------- runs

  /** The id is not recorded, and the row it may overwrite was not adopted before. */
  ghost predicate MayRecord(s: History, id: string) {
    id !in s.recorded && (|s.chain| >= 10 ==> LastID(s) !in s.adopted)
  }

  /** A run over the buckets, from a store that knows nothing of the table. */
  ghost predicate IsMoveRun(h: Hasher, t: string, stores: seq<Store>, moves: seq<Move>)
    requires IsTableName(t)
  {
    && |stores| == |moves| + 1 && Follows(t, stores[0], Empty.(table := stores[0].table))
    && (forall i :: 0 <= i < |moves| ==> Happens(h, t, stores[i], moves[i], stores[i + 1]))
  }

  /** A run of regular moves. */
  ghost predicate IsStoreRun(h: Hasher, idOf: string -> string, t: string, stores: seq<Store>, moves: seq<Move>)
    requires IsTableName(t)
  {
    && IsMoveRun(h, t, stores, moves) && IsTable(stores[0].table, idOf)
    && (forall i :: 0 <= i < |moves| ==> IsRegular(idOf, moves[i]))
  }

  /** Among the first n moves, no id is recorded while it is still recorded. */
  ghost predicate RecordsNewIds(h: Hasher, t: string, stores: seq<Store>, moves: seq<Move>, n: nat)
    requires n <= |moves| < |stores|
  {
    forall i :: 0 <= i < n && moves[i].Recording? ==> MayRecord(HistoryAt(h, t, stores, moves, i), moves[i].id)
  }

  ghost function HistoryAt(h: Hasher, t: string, stores: seq<Store>, moves: seq<Move>, i: nat): History
    requires i <= |moves| < |stores|
  {
    if i == 0 then Empty.(table := stores[0].table) else HistoryAfter(h, t, HistoryAt(h, t, stores, moves, i - 1), stores[i - 1], moves[i - 1])
  }

  /** The strings hashed for a move, and those the recorded rows came from. */
  ghost function MoveTexts(h: Hasher, t: string, s: History, a: Store, m: Move): set<string> {
    match StepOf(t, s, a, m)
    case Some(step) => StepTexts(h, s, step)
    case None => {}
  }

  ghost predicate HashesWithin(h: Hasher, t: string, stores: seq<Store>, moves: seq<Move>, texts: set<string>)
    requires |moves| < |stores|
  {
    forall i :: 0 <= i < |moves| ==> MoveTexts(h, t, HistoryAt(h, t, stores, moves, i), stores[i], moves[i]) <= texts
  }

  /** The store holds a sound history. */
  ghost predicate IsTracked(h: Hasher, idOf: string -> string, t: string, a: Store, s: History)
    requires IsTableName(t)
  {
    Follows(t, a, s) && Sound(h, idOf, s)
  }

  lemma NoCollisionInStep(h: Hasher, t: string, s: History, a: Store, m: Move, step: Step, texts: set<string>)
    requires Some(step) == StepOf(t, s, a, m) && MoveTexts(h, t, s, a, m) <= texts && !Collides(h, texts)
    ensures !Collides(h, StepTexts(h, s, step))
  {
    if Collides(h, StepTexts(h, s, step)) { CollidesIsMonotone(h, StepTexts(h, s, step), texts); }
  }

  lemma RecordingStaysSound(h: Hasher, idOf: string -> string, t: string, a: Store, m: Move, b: Store, s: History, step: Step)
    requires IsTableName(t) && Happens(h, t, a, m, b) && m.Recording? && MayRecord(s, m.id) && IsRegular(idOf, m)
    requires IsTracked(h, idOf, t, a, s) && Some(step) == StepOf(t, s, a, m)
    requires !Collides(h, StepTexts(h, s, step))
    ensures Sound(h, idOf, After(h, s, step))
  {
    RecordingIsEnabled(h, idOf, t, a, m, b, s, step);
    StepKeepsSound(h, idOf, s, step);
  }

  lemma RecordingIsTracked(h: Hasher, idOf: string -> string, t: string, a: Store, m: Move, b: Store, s: History, texts: set<string>, step: Step, next: History)
    requires IsTableName(t) && Happens(h, t, a, m, b) && m.Recording? && MayRecord(s, m.id) && IsRegular(idOf, m)
    requires IsTracked(h, idOf, t, a, s) && !Collides(h, texts) && MoveTexts(h, t, s, a, m) <= texts
    requires Some(step) == StepOf(t, s, a, m) && next == After(h, s, step)
    ensures IsTracked(h, idOf, t, b, next)
  {
    NoCollisionInStep(h, t, s, a, m, step, texts);
    RecordingStaysSound(h, idOf, t, a, m, b, s, step);
    RecordingIsStep(h, t, a, m, b, s);
  }

  lemma PassIsTracked(h: Hasher, idOf: string -> string, t: string, a: Store, m: Move, b: Store, s: History, texts: set<string>, step: Step)
    requires IsTableName(t) && Happens(h, t, a, m, b) && m.Pass?
    requires IsTracked(h, idOf, t, a, s) && !Collides(h, texts) && MoveTexts(h, t, s, a, m) <= texts
    requires Some(step) == StepOf(t, s, a, m)
    ensures IsTracked(h, idOf, t, b, After(h, s, step))
    ensures m.report.Passed? <==> Deserves(s)
  {
    NoCollisionInStep(h, t, s, a, m, step, texts);
    PassMoveIsStep(h, idOf, t, a, m, b, s, step);
    VerdictIsExact(h, idOf, s, step);
    StepKeepsSound(h, idOf, s, step);
  }

  lemma EditFollows(t: string, a: Store, b: Store, s: History, next: History)
    requires IsTableName(t) && Follows(t, a, s) && b == a.(table := next.table) && next == s.(table := next.table)
    ensures Follows(t, b, next)
  {
  }

  lemma EditIsTracked(h: Hasher, idOf: string -> string, t: string, a: Store, b: Store, s: History, table: Table)
    requires IsTableName(t) && IsTracked(h, idOf, t, a, s) && IsTable(table, idOf) && b == a.(table := table)
    ensures IsTracked(h, idOf, t, b, After(h, s, Edit(table)))
  {
    StepKeepsSound(h, idOf, s, Edit(table));
    EditFollows(t, a, b, s, After(h, s, Edit(table)));
  }

  lemma OtherMoveIsTracked(h: Hasher, idOf: string -> string, t: string, a: Store, b: Store, s: History)
    requires IsTableName(t) && IsTracked(h, idOf, t, a, s) && Follows(t, b, s)
    ensures IsTracked(h, idOf, t, b, s)
  {
  }

  lemma QuietMoveIsTracked(h: Hasher, idOf: string -> string, t: string, a: Store, m: Move, b: Store, s: History, next: History)
    requires IsTableName(t) && Happens(h, t, a, m, b) && !m.Recording? && !m.Pass? && IsRegular(idOf, m)
    requires IsTracked(h, idOf, t, a, s) && next == HistoryAfter(h, t, s, a, m)
    ensures IsTracked(h, idOf, t, b, next)
  {
    if m.OutsideEdit? {
      EditIsTracked(h, idOf, t, a, b, s, m.table);
    } else {
      OtherMoveIsNone(h, t, a, m, b, s);
      OtherMoveIsTracked(h, idOf, t, a, b, s);
    }
  }

  lemma HistoryGrows(h: Hasher, t: string, stores: seq<Store>, moves: seq<Move>, i: nat)
    requires 0 < i <= |moves| < |stores|
    ensures HistoryAt(h, t, stores, moves, i) ==
            HistoryAfter(h, t, HistoryAt(h, t, stores, moves, i - 1), stores[i - 1], moves[i - 1])
  {
  }

  lemma MoveAt(h: Hasher, idOf: string -> string, t: string, stores: seq<Store>, moves: seq<Move>, texts: set<string>, i: nat)
    requires IsTableName(t) && IsStoreRun(h, idOf, t, stores, moves) && i < |moves| && HashesWithin(h, t, stores, moves, texts)
    ensures Happens(h, t, stores[i], moves[i], stores[i + 1])
    ensures IsRegular(idOf, moves[i])
    ensures MoveTexts(h, t, HistoryAt(h, t, stores, moves, i), stores[i], moves[i]) <= texts
  {
  }

  lemma StepIsTracked(h: Hasher, idOf: string -> string, t: string, stores: seq<Store>, moves: seq<Move>, texts: set<string>, i: nat)
    requires IsTableName(t) && IsStoreRun(h, idOf, t, stores, moves) && i < |moves|
    requires HashesWithin(h, t, stores, moves, texts) && !Collides(h, texts)
    requires moves[i].Recording? ==> MayRecord(HistoryAt(h, t, stores, moves, i), moves[i].id)
    requires IsTracked(h, idOf, t, stores[i], HistoryAt(h, t, stores, moves, i))
    ensures IsTracked(h, idOf, t, stores[i + 1], HistoryAt(h, t, stores, moves, i + 1))
    ensures moves[i].Pass? ==> (moves[i].report.Passed? <==> Deserves(HistoryAt(h, t, stores, moves, i)))
  {
    MoveAt(h, idOf, t, stores, moves, texts, i);
    HistoryGrows(h, t, stores, moves, i + 1);
    var s, next := HistoryAt(h, t, stores, moves, i), HistoryAt(h, t, stores, moves, i + 1);
    if moves[i].Recording? {
      var step := StepOf(t, s, stores[i], moves[i]).value;
      RecordingIsTracked(h, idOf, t, stores[i], moves[i], stores[i + 1], s, texts, step, next);
    } else if moves[i].Pass? {
      var step := StepOf(t, s, stores[i], moves[i]).value;
      PassIsTracked(h, idOf, t, stores[i], moves[i], stores[i + 1], s, texts, step);
    } else {
      QuietMoveIsTracked(h, idOf, t, stores[i], moves[i], stores[i + 1], s, next);
    }
  }

  lemma {:induction false} StoreRunIsTracked(h: Hasher, idOf: string -> string, t: string, stores: seq<Store>,
                                             moves: seq<Move>, texts: set<string>, i: nat)
    requires IsTableName(t) && IsStoreRun(h, idOf, t, stores, moves) && i <= |moves| && RecordsNewIds(h, t, stores, moves, i)
    requires HashesWithin(h, t, stores, moves, texts) && !Collides(h, texts)
    ensures IsTracked(h, idOf, t, stores[i], HistoryAt(h, t, stores, moves, i))
  {
    if i == 0 {
      EmptyIsSound(h, idOf);
    } else {
      StoreRunIsTracked(h, idOf, t, stores, moves, texts, i - 1);
      StepIsTracked(h, idOf, t, stores, moves, texts, i - 1);
    }
  }

  /** Detection over runs of the stored buckets, of any length: a pass succeeds exactly when it deserves
      to, by the history of the run, unless strings hashed in the run collide. */
  lemma StoreRunsAreExact(h: Hasher, idOf: string -> string, t: string, stores: seq<Store>, moves: seq<Move>,
                          texts: set<string>, i: nat)
    requires IsTableName(t) && IsStoreRun(h, idOf, t, stores, moves) && i < |moves| && moves[i].Pass?
    requires RecordsNewIds(h, t, stores, moves, i) && HashesWithin(h, t, stores, moves, texts) && !Collides(h, texts)
    ensures HistoryAt(h, t, stores, moves, i).table == stores[i].table
    ensures moves[i].report.Passed? <==> Deserves(HistoryAt(h, t, stores, moves, i))
  {
    StoreRunIsTracked(h, idOf, t, stores, moves, texts, i);
    StepIsTracked(h, idOf, t, stores, moves, texts, i);
  }

  // ---------------------------------------------------------------- up to ten inserts

  /** The rows the handler was given, by id. */
  function InsertedRows(moves: seq<Move>, i: nat): Table
    requires i <= |moves|
  {
    if i == 0 then map[]
    else if moves[i - 1].Recording? then InsertedRows(moves, i - 1)[moves[i - 1].id := moves[i - 1].text]
    else InsertedRows(moves, i - 1)
  }

  function Recordings(moves: seq<Move>, i: nat): nat
    requires i <= |moves|
  {
    if i == 0 then 0 else Recordings(moves, i - 1) + if moves[i - 1].Recording? then 1 else 0
  }

  /** Every pass of the run finds a chain, or nothing at all. */
  ghost predicate StorePassesFindChain(t: string, stores: seq<Store>, moves: seq<Move>)
    requires IsTableName(t) && |moves| < |stores|
  {
    forall i :: 0 <= i < |moves| && moves[i].Pass? ==> View(stores[i].hashChain, t) != map[] || stores[i].table == map[]
  }

  lemma LastRowIsRecorded(h: Hasher, s: History)
    requires ChainRecords(h, s.chain, s.recorded) && s.chain != []
    ensures LastID(s) in s.recorded
  {
    assert Tells(h, s.chain[|s.chain| - 1], s.recorded);
  }

  lemma ChainMeansRecorded(h: Hasher, t: string, a: Store, s: History)
    requires IsTableName(t) && Follows(t, a, s) && ChainRecords(h, s.chain, s.recorded)
    ensures View(a.hashChain, t) != map[] ==> s.recorded != map[]
  {
    if View(a.hashChain, t) != map[] {
      var n :| n in View(a.hashChain, t);
      LastRowIsRecorded(h, s);
    }
  }

  /** So far nothing was overwritten or adopted: the history has all rows the handler was given. */
  ghost predicate HasAllRows(s: History, rows: Table, count: nat) {
    s.recorded == rows && |s.chain| == count && s.adopted == map[]
  }

  lemma RecordingAddsRow(h: Hasher, t: string, s: History, a: Store, m: Move, rows: Table, count: nat)
    requires m.Recording? && HasAllRows(s, rows, count) && count < 10
    ensures HasAllRows(HistoryAfter(h, t, s, a, m), rows[m.id := m.text], count + 1)
  {
  }

  lemma PassAddsNoRow(h: Hasher, idOf: string -> string, t: string, a: Store, m: Move, b: Store, s: History, texts: set<string>, rows: Table, count: nat)
    requires IsTableName(t) && Happens(h, t, a, m, b) && m.Pass? && IsTracked(h, idOf, t, a, s)
    requires !Collides(h, texts) && MoveTexts(h, t, s, a, m) <= texts && HasAllRows(s, rows, count)
    requires View(a.hashChain, t) != map[] || a.table == map[]
    ensures HasAllRows(HistoryAfter(h, t, s, a, m), rows, count)
  {
    var step := StepOf(t, s, a, m).value;
    NoCollisionInStep(h, t, s, a, m, step, texts);
    PassMoveIsStep(h, idOf, t, a, m, b, s, step);
    ChainMeansRecorded(h, t, a, s);
    NothingIsAdopted(h, idOf, s, step);
    PassHistory(h, s, step);
  }

  /** No id is inserted twice among the first n moves. */
  ghost predicate InsertsOnce(moves: seq<Move>, n: nat)
    requires n <= |moves|
  {
    forall i :: 0 <= i < n && moves[i].Recording? ==> moves[i].id !in InsertedRows(moves, i)
  }

  lemma MoveKeepsAllRows(h: Hasher, idOf: string -> string, t: string, stores: seq<Store>, moves: seq<Move>,
                         texts: set<string>, i: nat)
    requires IsTableName(t) && IsStoreRun(h, idOf, t, stores, moves) && i < |moves| && StorePassesFindChain(t, stores, moves)
    requires RecordsNewIds(h, t, stores, moves, i)
    requires HashesWithin(h, t, stores, moves, texts) && !Collides(h, texts) && Recordings(moves, i + 1) <= 10
    requires HasAllRows(HistoryAt(h, t, stores, moves, i), InsertedRows(moves, i), Recordings(moves, i))
    ensures HasAllRows(HistoryAt(h, t, stores, moves, i + 1), InsertedRows(moves, i + 1), Recordings(moves, i + 1))
  {
    var s, rows, count := HistoryAt(h, t, stores, moves, i), InsertedRows(moves, i), Recordings(moves, i);
    MoveAt(h, idOf, t, stores, moves, texts, i);
    HistoryGrows(h, t, stores, moves, i + 1);
    if moves[i].Recording? {
      RecordingAddsRow(h, t, s, stores[i], moves[i], rows, count);
    } else if moves[i].Pass? {
      StoreRunIsTracked(h, idOf, t, stores, moves, texts, i);
      PassAddsNoRow(h, idOf, t, stores[i], moves[i], stores[i + 1], s, texts, rows, count);
    }
  }

  lemma FreshIdMayBeRecorded(s: History, rows: Table, count: nat, id: string)
    requires HasAllRows(s, rows, count) && count < 10 && id !in rows
    ensures MayRecord(s, id)
  {
  }

  lemma NextRecordsNewId(h: Hasher, t: string, stores: seq<Store>, moves: seq<Move>, i: nat)
    requires i < |moves| < |stores| && RecordsNewIds(h, t, stores, moves, i) && InsertsOnce(moves, i + 1)
    requires Recordings(moves, i + 1) <= 10
    requires HasAllRows(HistoryAt(h, t, stores, moves, i), InsertedRows(moves, i), Recordings(moves, i))
    ensures RecordsNewIds(h, t, stores, moves, i + 1)
  {
    if moves[i].Recording? {
      FreshIdMayBeRecorded(HistoryAt(h, t, stores, moves, i), InsertedRows(moves, i), Recordings(moves, i), moves[i].id);
    }
  }

  lemma {:induction false} ShortRunHasAllRows(h: Hasher, idOf: string -> string, t: string, stores: seq<Store>,
                                              moves: seq<Move>, texts: set<string>, i: nat)
    requires IsTableName(t) && IsStoreRun(h, idOf, t, stores, moves) && i <= |moves| && StorePassesFindChain(t, stores, moves)
    requires InsertsOnce(moves, i)
    requires HashesWithin(h, t, stores, moves, texts) && !Collides(h, texts) && Recordings(moves, i) <= 10
    ensures RecordsNewIds(h, t, stores, moves, i)
    ensures HasAllRows(HistoryAt(h, t, stores, moves, i), InsertedRows(moves, i), Recordings(moves, i))
  {
    if i > 0 {
      ShortRunHasAllRows(h, idOf, t, stores, moves, texts, i - 1);
      NextRecordsNewId(h, t, stores, moves, i - 1);
      MoveKeepsAllRows(h, idOf, t, stores, moves, texts, i - 1);
    }
  }

  /** Up to ten inserts, of an id each, if every pass finds a chain, a pass succeeds exactly when the
      table is what the handler was given: every other table is reported. */
  lemma StoreRunsTellTable(h: Hasher, idOf: string -> string, t: string, stores: seq<Store>, moves: seq<Move>,
                           texts: set<string>, i: nat)
    requires IsTableName(t) && IsStoreRun(h, idOf, t, stores, moves) && i < |moves| && moves[i].Pass?
    requires StorePassesFindChain(t, stores, moves) && Recordings(moves, i) <= 10 && InsertsOnce(moves, i)
    requires HashesWithin(h, t, stores, moves, texts) && !Collides(h, texts)
    ensures moves[i].report.Passed? <==> stores[i].table == InsertedRows(moves, i)
  {
    var s := HistoryAt(h, t, stores, moves, i);
    ShortRunHasAllRows(h, idOf, t, stores, moves, texts, i);
    StoreRunsAreExact(h, idOf, t, stores, moves, texts, i);
    StoreRunIsTracked(h, idOf, t, stores, moves, texts, i);
    ChainMeansRecorded(h, t, stores[i], s);
    DeservesWithoutAdopted(s);
  }
}
