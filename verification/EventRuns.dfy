/** Detection over runs of change events: what the handler is given, and not what it makes of it, decides
    whether a table passes. */
module EventRuns {
  import opened Buckets
  import opened Detection
  import opened Handlers
  import opened Hashing
  import opened MerkleBinding
  import opened RecordIds
  import opened Storages
  import opened StoreRuns
  import opened TableViews
  import opened VerificationPass

  datatype Happening =
    | Handled(event: ChangeEvent, now: int)
    | Edited(table: Table)
    | Verified(rows: seq<Row>, algorithm: string, now: int, report: Report)
    | OtherVerified(checkpoint: MerkleCheckpoint)

  /** The event is an insert into one of the configured tables. */
  predicate Records(configured: set<string>, event: ChangeEvent) {
    event.tableName in configured && event.operation == INSERT
  }

  /** What `HandleChange` does to the hash chain, and `VerifyTable` to the checkpoints. */
  ghost predicate Goes(h: Hasher, configured: set<string>, t: string, a: Store, x: Happening, b: Store) {
    match x
    case Handled(event, now) =>
      b == a.(hashChain := b.hashChain) && HandlesEvent(h, configured, a.hashChain, event, now, b.hashChain)
    case Edited(table) => b == a.(table := table)
    case Verified(rows, algorithm, now, report) =>
      && Lists(rows, a.table) && b == a.(checkpoints := b.checkpoints)
      && PassResult(h, algorithm, t, now, rows, Scan(a.hashChain, t + ":"), a.checkpoints, report, b.checkpoints)
    case OtherVerified(cp) =>
      IsTableName(cp.tableName) && cp.tableName != t && b == a.(checkpoints := Saved(a.checkpoints, cp))
  }

  ghost predicate HandlesEvent(h: Hasher, configured: set<string>, before: map<string, HashEntry>, event: ChangeEvent, now: int,
                               after: map<string, HashEntry>) {
    after ==
      if Records(configured, event) then
        var n := NextNumber(before, event.tableName);
        before[RecordKey(event.tableName, n) :=
          HashEntry(event.tableName, n, h.digest(event.newData), now, "INSERT", PrintKey(event.primaryKey))]
      else before
  }

  /** The key has the row's id in its id column, and no column printed before it gets in the way; ids are
      plain and row texts determine them. */
  ghost predicate NamesItsRow(idOf: string -> string, event: ChangeEvent) {
    var id := idOf(event.newData);
    && IsRowText(event.newData) && IsPlain(id) && !IsPrinted(id)
    && exists i :: 0 <= i < |event.primaryKey| && HasIdAt(event.primaryKey, i, id)
  }

  ghost predicate HasIdAt(key: seq<Column>, i: nat, id: string)
    requires i < |key|
  {
    key[i] == Column("id", id) && TagFrom("map[" + PrintBefore(key[..i]), 0) < 0
  }

  ghost predicate IsRegularHappening(configured: set<string>, idOf: string -> string, t: string, x: Happening) {
    match x
    case Handled(event, _) => Records(configured, event) && event.tableName == t ==> NamesItsRow(idOf, event)
    case Edited(table) => IsTable(table, idOf)
    case _ => true
  }

  ghost predicate IsEventRun(h: Hasher, configured: set<string>, idOf: string -> string, t: string, stores: seq<Store>,
                             run: seq<Happening>)
    requires IsTableName(t)
  {
    && |stores| == |run| + 1 && Follows(t, stores[0], Empty.(table := stores[0].table)) && IsTable(stores[0].table, idOf)
    && (forall name :: name in configured ==> IsTableName(name))
    && (forall i :: 0 <= i < |run| ==> Goes(h, configured, t, stores[i], run[i], stores[i + 1]))
    && (forall i :: 0 <= i < |run| ==> IsRegularHappening(configured, idOf, t, run[i]))
  }

  // ---------------------------------------------------------------- one event

  lemma IdReadsBack(key: seq<Column>, i: nat, id: string)
    requires i < |key| && HasIdAt(key, i, id)
    ensures ExtractID(PrintKey(key)) == id <==> IsPlain(id)
    ensures IsPrinted(PrintKey(key))
  {
    assert key == key[..i] + [Column("id", id)] + key[i + 1..];
    ParserUndoesPrinter(key[..i], id, key[i + 1..]);
    assert PrintKey(key)[..4] == "map[";
  }

  /** The move an event is: a recording of its own row, under the id its row has. An event that is not
      recorded changes nothing. */
  ghost function MoveOf(h: Hasher, configured: set<string>, idOf: string -> string, t: string, a: Store, x: Happening): Move {
    match x
    case Handled(event, now) =>
      if !Records(configured, event) then OutsideEdit(a.table)
      else if event.tableName == t then Recording(idOf(event.newData), event.newData, InsertionOf(h, event, now))
      else OtherRecording(InsertionOf(h, event, now))
    case Edited(table) => OutsideEdit(table)
    case Verified(rows, algorithm, now, report) => Pass(rows, algorithm, now, report)
    case OtherVerified(cp) => OtherPass(cp)
  }

  lemma EventIsMove(h: Hasher, configured: set<string>, idOf: string -> string, t: string, a: Store, x: Happening, b: Store)
    requires IsTableName(t) && Goes(h, configured, t, a, x, b) && IsRegularHappening(configured, idOf, t, x)
    requires (forall name :: name in configured ==> IsTableName(name)) && IsTable(a.table, idOf)
    ensures Happens(h, t, a, MoveOf(h, configured, idOf, t, a, x), b)
    ensures IsRegular(idOf, MoveOf(h, configured, idOf, t, a, x)) && IsTable(b.table, idOf)
  {
    if x.Handled? && Records(configured, x.event) && x.event.tableName == t {
      var id, key := idOf(x.event.newData), x.event.primaryKey;
      var i :| 0 <= i < |key| && HasIdAt(key, i, id);
      IdReadsBack(key, i, id);
    }
  }

  // ---------------------------------------------------------------- runs

  ghost function MovesOf(h: Hasher, configured: set<string>, idOf: string -> string, t: string, stores: seq<Store>,
                         run: seq<Happening>): (moves: seq<Move>)
    requires |stores| == |run| + 1
    ensures |moves| == |run|
    ensures forall i :: 0 <= i < |run| ==> moves[i] == MoveOf(h, configured, idOf, t, stores[i], run[i])
  {
    seq(|run|, i requires 0 <= i < |run| => MoveOf(h, configured, idOf, t, stores[i], run[i]))
  }

  lemma {:induction false} TablesStayRegular(h: Hasher, configured: set<string>, idOf: string -> string, t: string, stores: seq<Store>,
                                             run: seq<Happening>, i: nat)
    requires IsTableName(t) && IsEventRun(h, configured, idOf, t, stores, run) && i <= |run|
    ensures IsTable(stores[i].table, idOf)
  {
    if i > 0 {
      TablesStayRegular(h, configured, idOf, t, stores, run, i - 1);
      EventIsMove(h, configured, idOf, t, stores[i - 1], run[i - 1], stores[i]);
    }
  }

  /** Every run of events is a run of moves, each event a recording of its own row. */
  lemma EventRunIsStoreRun(h: Hasher, configured: set<string>, idOf: string -> string, t: string, stores: seq<Store>,
                           run: seq<Happening>)
    requires IsTableName(t) && IsEventRun(h, configured, idOf, t, stores, run)
    ensures IsStoreRun(h, idOf, t, stores, MovesOf(h, configured, idOf, t, stores, run))
  {
    var moves := MovesOf(h, configured, idOf, t, stores, run);
    forall i | 0 <= i < |run|
      ensures Happens(h, t, stores[i], moves[i], stores[i + 1]) && IsRegular(idOf, moves[i])
    {
      TablesStayRegular(h, configured, idOf, t, stores, run, i);
      EventIsMove(h, configured, idOf, t, stores[i], run[i], stores[i + 1]);
    }
  }

  /** The happening is an insert event for the table itself. */
  predicate InsertsInto(configured: set<string>, t: string, x: Happening) {
    x.Handled? && Records(configured, x.event) && x.event.tableName == t
  }

  /** The rows of the table's insert events so far, by id. */
  function EventRows(configured: set<string>, idOf: string -> string, t: string, run: seq<Happening>, i: nat): Table
    requires i <= |run|
  {
    if i == 0 then map[]
    else
      var before, x := EventRows(configured, idOf, t, run, i - 1), run[i - 1];
      if InsertsInto(configured, t, x) then before[idOf(x.event.newData) := x.event.newData] else before
  }

  function InsertEvents(configured: set<string>, t: string, run: seq<Happening>, i: nat): nat
    requires i <= |run|
  {
    if i == 0 then 0
    else InsertEvents(configured, t, run, i - 1) + if InsertsInto(configured, t, run[i - 1]) then 1 else 0
  }

  /** No two insert events are about the same id. */
  ghost predicate EventsAreNew(configured: set<string>, idOf: string -> string, t: string, run: seq<Happening>, n: nat)
    requires n <= |run|
  {
    forall i :: 0 <= i < n && InsertsInto(configured, t, run[i]) ==>
      idOf(run[i].event.newData) !in EventRows(configured, idOf, t, run, i)
  }

  lemma {:induction false} EventsAreMoves(h: Hasher, configured: set<string>, idOf: string -> string, t: string, stores: seq<Store>,
                                          run: seq<Happening>, moves: seq<Move>, i: nat)
    requires |stores| == |run| + 1 && i <= |run| && moves == MovesOf(h, configured, idOf, t, stores, run)
    ensures InsertedRows(moves, i) == EventRows(configured, idOf, t, run, i)
    ensures Recordings(moves, i) == InsertEvents(configured, t, run, i)
  {
    if i > 0 {
      EventsAreMoves(h, configured, idOf, t, stores, run, moves, i - 1);
    }
  }

  lemma NewEventsInsertOnce(h: Hasher, configured: set<string>, idOf: string -> string, t: string, stores: seq<Store>,
                            run: seq<Happening>, moves: seq<Move>, n: nat)
    requires |stores| == |run| + 1 && n <= |run| && moves == MovesOf(h, configured, idOf, t, stores, run)
    requires EventsAreNew(configured, idOf, t, run, n)
    ensures InsertsOnce(moves, n)
  {
    forall i | 0 <= i < n && moves[i].Recording? ensures moves[i].id !in InsertedRows(moves, i) {
      EventsAreMoves(h, configured, idOf, t, stores, run, moves, i);
    }
  }

  /** Up to ten insert events, of an id each, if every pass finds a chain, a pass succeeds exactly when the
      table is the rows of those events: a row that was handled and shows is no tampering, and every
      other difference is. */
  lemma EventRunsTellTable(h: Hasher, configured: set<string>, idOf: string -> string, t: string, stores: seq<Store>,
                           run: seq<Happening>, texts: set<string>, i: nat)
    requires IsTableName(t) && IsEventRun(h, configured, idOf, t, stores, run) && i < |run| && run[i].Verified?
    requires InsertEvents(configured, t, run, i) <= 10 && EventsAreNew(configured, idOf, t, run, i)
    requires StorePassesFindChain(t, stores, MovesOf(h, configured, idOf, t, stores, run))
    requires HashesWithin(h, t, stores, MovesOf(h, configured, idOf, t, stores, run), texts) && !Collides(h, texts)
    ensures run[i].report.Passed? <==> stores[i].table == EventRows(configured, idOf, t, run, i)
  {
    var moves := MovesOf(h, configured, idOf, t, stores, run);
    EventRunIsStoreRun(h, configured, idOf, t, stores, run);
    EventsAreMoves(h, configured, idOf, t, stores, run, moves, i);
    NewEventsInsertOnce(h, configured, idOf, t, stores, run, moves, i);
    StoreRunsTellTable(h, idOf, t, stores, moves, texts, i);
  }
}
