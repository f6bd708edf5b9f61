/** internal/verify/handler.go: the handler of change events without Raft, and what a run of inserts
    leaves in the store. */
module Handlers {
  import opened Buckets
  import opened Hashing
  import opened Numbering
  import opened Options
  import opened RecordIds
  import opened Storages
  import opened TableViews

  datatype Operation = INSERT | UPDATE | DELETE

  function OperationName(op: Operation): string {
    match op
    case INSERT => "INSERT"
    case UPDATE => "UPDATE"
    case DELETE => "DELETE"
  }

  /** `newData` is the row's serialised text; `primaryKey` lists the key columns sorted by name. */
  datatype ChangeEvent = ChangeEvent(tableName: string, operation: Operation, newData: string, primaryKey: seq<Column>)

  datatype TableConfig = TableConfig(name: string, verifyInterval: string)

  datatype Outcome = NoError | TamperingError(tableName: string, operation: Operation)

  ghost function InsertionOf(h: Hasher, event: ChangeEvent, now: int): Insertion {
    Insertion(event.tableName, h.digest(event.newData), PrintKey(event.primaryKey), OperationName(event.operation), now)
  }

  /** The number the next entry of a table gets. */
  ghost function NextNumber(hashChain: map<string, HashEntry>, t: string): nat {
    match LastOf(Scan(hashChain, t + ":"))
    case None => 1
    case Some(latest) => latest.sequenceNum + 1
  }

  ghost function Recorded(hashChain: map<string, HashEntry>, x: Insertion): map<string, HashEntry> {
    var entry := EntryFor(x, NextNumber(hashChain, x.tableName));
    hashChain[EntryKey(entry) := entry]
  }

  /** A handled insert, seen by its table: the next number gets an entry with the hash of the new row and
      a record id from which an id column reads back; no other number changes. */
  lemma HandledInsertReadsBack(h: Hasher, event: ChangeEvent, now: int, hashChain: map<string, HashEntry>, t: string, i: nat)
    requires IsTableName(t) && KeysArePrinted(hashChain.Keys)
    requires event.tableName == t && event.operation == INSERT
    requires i < |event.primaryKey| && event.primaryKey[i].name == "id"
    ensures var n, chain := NextNumber(hashChain, t), View(Recorded(hashChain, InsertionOf(h, event, now)), t);
      && n in chain && chain == View(hashChain, t)[n := chain[n]]
      && chain[n].tableName == t && chain[n].sequenceNum == n && chain[n].operationType == "INSERT"
      && chain[n].timestamp == now && chain[n].dataHash == h.digest(event.newData)
      && (ExtractID(chain[n].recordID) == event.primaryKey[i].value <==>
            ComesBack("map[" + PrintBefore(event.primaryKey[..i]), event.primaryKey[i].value))
  {
    var n, key := NextNumber(hashChain, t), event.primaryKey;
    ViewAfterPut(hashChain, t, n, EntryFor(InsertionOf(h, event, now), n), t);
    assert key == key[..i] + [Column("id", key[i].value)] + key[i + 1..];
    ParserUndoesPrinter(key[..i], key[i].value, key[i + 1..]);
  }

  class HashChainHandler {
    const storage: Storage
    const hasher: Hasher
    var tableConfigs: map<string, TableConfig>

    constructor (store: Storage, h: Hasher)
      ensures storage == store && hasher == h && tableConfigs == map[]
    {
      storage, hasher, tableConfigs := store, h, map[];
    }

    method AddTable(config: TableConfig) returns (ok: bool)
      modifies this`tableConfigs
      ensures ok <==> IsTableName(config.name)
      ensures tableConfigs == if ok then old(tableConfigs)[config.name := config] else old(tableConfigs)
    {
      ok := IsTableName(config.name);
      if ok {
        tableConfigs := tableConfigs[config.name := config];
      }
    }

    /** Other tables are ignored, updates and deletes are tampering, an insert is recorded under the
        number after the latest entry's. */
    method HandleChange(event: ChangeEvent, now: int) returns (outcome: Outcome)
      modifies storage`hashChain
      ensures outcome == if event.tableName in tableConfigs && event.operation != INSERT
                         then TamperingError(event.tableName, event.operation) else NoError
      ensures storage.hashChain ==
        if event.tableName in tableConfigs && event.operation == INSERT then
          old(storage.hashChain)[RecordKey(event.tableName, NextNumber(old(storage.hashChain), event.tableName)) :=
            HashEntry(event.tableName, NextNumber(old(storage.hashChain), event.tableName), hasher.digest(event.newData), now,
                      "INSERT", PrintKey(event.primaryKey))]
        else old(storage.hashChain)
    {
      if event.tableName !in tableConfigs {
        return NoError;
      }
      if event.operation == UPDATE || event.operation == DELETE {
        return TamperingError(event.tableName, event.operation);
      }
      var dataHash := hasher.digest(event.newData);
      var latestEntry := storage.GetLatestHashEntry(event.tableName);
      var seqNum := 1;
      if latestEntry.Some? {
        seqNum := latestEntry.value.sequenceNum + 1;
      }
      var entry := HashEntry(event.tableName, seqNum, dataHash, now, OperationName(event.operation),
                             PrintKey(event.primaryKey));
      storage.SaveHashEntry(entry);
      outcome := NoError;
    }
  }

  // ---------------------------------------------------------------- runs of inserts

  /** The bucket after a run of inserts into any tables, in any order. */
  ghost function AfterInserts(inserts: seq<Insertion>): map<string, HashEntry> {
    if inserts == [] then map[]
    else Recorded(AfterInserts(inserts[..|inserts| - 1]), inserts[|inserts| - 1])
  }

  function ForTable(inserts: seq<Insertion>, t: string): seq<Insertion> {
    if inserts == [] then []
    else
      var last := inserts[|inserts| - 1];
      ForTable(inserts[..|inserts| - 1], t) + if last.tableName == t then [last] else []
  }

  ghost predicate NamesAreValid(inserts: seq<Insertion>) {
    forall x :: x in inserts ==> IsTableName(x.tableName)
  }

  lemma {:induction false} OwnNumbers(rule: Latest, chain: Chain, inserts: seq<Insertion>)
    requires Grows(rule, chain, inserts)
    ensures forall n :: n in chain ==> chain[n].sequenceNum == n
  {
    if inserts != [] {
      var last := |inserts| - 1;
      var before, n :| GrowsFrom(rule, chain, inserts, before, n);
      OwnNumbers(rule, before, inserts[..last]);
    }
  }

  lemma NextAfterLatest(latest: Option<HashEntry>, chain: Chain, last: nat)
    requires chain == map[] ==> latest.None?
    requires chain != map[] ==> IsDecimalLast(last, chain.Keys) && latest == Some(chain[last])
    requires forall n :: n in chain ==> chain[n].sequenceNum == n
    ensures IsNext(ByNumeral, if latest.Some? then latest.value.sequenceNum + 1 else 1, chain.Keys)
  {
    if chain == map[] {
      assert chain.Keys == {};
    }
  }

  /** The scan for the latest entry finds the numeral that comes last in byte order. */
  lemma NextNumberIsNext(bucket: map<string, HashEntry>, t: string)
    requires IsTableName(t) && KeysArePrinted(bucket.Keys)
    requires forall n :: n in View(bucket, t) ==> View(bucket, t)[n].sequenceNum == n
    ensures IsNext(ByNumeral, NextNumber(bucket, t), View(bucket, t).Keys)
  {
    var last := LatestByNumeral(bucket, t);
    NextAfterLatest(LastOf(Scan(bucket, t + ":")), View(bucket, t), last);
  }

  lemma ForTableSplit(inserts: seq<Insertion>, t: string)
    requires inserts != []
    ensures var init, x := inserts[..|inserts| - 1], inserts[|inserts| - 1];
      ForTable(inserts, t) == if x.tableName == t then ForTable(init, t) + [x] else ForTable(init, t)
  {
  }

  /** However inserts into different tables are interleaved, each table's chain grows by its own. */
  lemma {:induction false} TableChainGrows(inserts: seq<Insertion>, t: string)
    requires NamesAreValid(inserts) && IsTableName(t)
    ensures KeysArePrinted(AfterInserts(inserts).Keys)
    ensures Grows(ByNumeral, View(AfterInserts(inserts), t), ForTable(inserts, t))
  {
    if inserts == [] {
      assert View(AfterInserts(inserts), t) == map[];
    } else {
      var init, x := inserts[..|inserts| - 1], inserts[|inserts| - 1];
      var before := AfterInserts(init);
      TableChainGrows(init, t);
      var n := NextNumber(before, x.tableName);
      ForTableSplit(inserts, t);
      PutKeepsPrinted(before.Keys, x.tableName, n);
      assert AfterInserts(inserts).Keys == before.Keys + {RecordKey(x.tableName, n)};
      ViewAfterPut(before, x.tableName, n, EntryFor(x, n), t);
      if x.tableName == t {
        OwnNumbers(ByNumeral, View(before, t), ForTable(init, t));
        NextNumberIsNext(before, t);
        GrowsByOne(ByNumeral, View(before, t), ForTable(init, t), x, n);
      }
    }
  }

  lemma GrowsByOne(rule: Latest, before: Chain, inserts: seq<Insertion>, x: Insertion, n: nat)
    requires Grows(rule, before, inserts) && IsNext(rule, n, before.Keys)
    ensures Grows(rule, before[n := EntryFor(x, n)], inserts + [x])
  {
    assert (inserts + [x])[..|inserts|] == inserts;
    assert GrowsFrom(rule, before[n := EntryFor(x, n)], inserts + [x], before, n);
  }

  /** What the handler leaves after any run of inserts: each table's chain has its inserts as entries
      1 to n while n is at most 10, and is stuck at ten entries from there on. */
  lemma HandlerRuns(inserts: seq<Insertion>, t: string)
    requires NamesAreValid(inserts) && IsTableName(t)
    ensures IsGapless(View(AfterInserts(inserts), t), ForTable(inserts, t)) <==> |ForTable(inserts, t)| <= 10
    ensures |ForTable(inserts, t)| >= 10 ==> IsStuckAtTen(View(AfterInserts(inserts), t), ForTable(inserts, t))
  {
    TableChainGrows(inserts, t);
    ByNumeralIsGaplessIff(View(AfterInserts(inserts), t), ForTable(inserts, t));
    ByNumeralStopsAtTen(View(AfterInserts(inserts), t), ForTable(inserts, t));
  }
}
