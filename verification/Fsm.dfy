/** internal/consensus/fsm.go: the state machine the replicated log drives, and its snapshots. */
module Fsms {
  import opened Buckets
  import opened Options
  import opened Storages

  /** The keys of a log entry's data. */
  datatype Field = SequenceNum | DataHash | OperationType | RecordID
                 | MerkleRoot | RecordCount | HashAlgorithm | LeafMap | InternalNodes

  datatype Json = Num(number: nat) | Str(text: string) | Obj(fields: map<string, Json>)

  datatype LogEntryType = HashChainType | CheckpointType | OtherType(name: string)

  datatype LogEntry = LogEntry(kind: LogEntryType, tableName: string, data: map<Field, Json>, timestamp: int)

  /** The bytes of a committed log entry, as far as they decode. */
  datatype Command = Garbled | Command(entry: LogEntry)

  /** A failed type assertion panics, and nothing has been written by then. */
  datatype ApplyResult = Applied | Rejected | Panicked

  predicate HasNum(data: map<Field, Json>, f: Field) {
    f in data && data[f].Num?
  }

  predicate HasStr(data: map<Field, Json>, f: Field) {
    f in data && data[f].Str?
  }

  predicate HasObj(data: map<Field, Json>, f: Field) {
    f in data && data[f].Obj?
  }

  /** The hash entry a log entry stands for; a data hash that is no string becomes empty. */
  function HashEntryOf(e: LogEntry): Option<HashEntry> {
    if HasNum(e.data, SequenceNum) && HasStr(e.data, OperationType) && HasStr(e.data, RecordID) then
      Some(HashEntry(e.tableName, e.data[SequenceNum].number, if HasStr(e.data, DataHash) then e.data[DataHash].text else "",
                      e.timestamp, e.data[OperationType].text, e.data[RecordID].text))
    else None
  }

  /** The string members of an object; others are skipped. */
  function StringsIn(fields: map<string, Json>): map<string, string> {
    map k | k in fields && fields[k].Str? :: fields[k].text
  }

  function CheckpointOf(e: LogEntry): Option<MerkleCheckpoint> {
    if HasNum(e.data, SequenceNum) && HasStr(e.data, MerkleRoot) && HasNum(e.data, RecordCount)
       && HasStr(e.data, HashAlgorithm) then
      Some(MerkleCheckpoint(e.tableName, e.data[SequenceNum].number, e.data[MerkleRoot].text, e.timestamp,
                             e.data[RecordCount].number, e.data[HashAlgorithm].text,
                             if HasObj(e.data, LeafMap) then StringsIn(e.data[LeafMap].fields) else map[],
                             if HasObj(e.data, InternalNodes) then StringsIn(e.data[InternalNodes].fields) else map[]))
    else None
  }

  /** The hash entry a command writes, if any. */
  function EntryOf(c: Command): Option<HashEntry> {
    if c.Command? && c.entry.kind.HashChainType? then HashEntryOf(c.entry) else None
  }

  function CheckpointIn(c: Command): Option<MerkleCheckpoint> {
    if c.Command? && c.entry.kind.CheckpointType? then CheckpointOf(c.entry) else None
  }

  function ResultOf(c: Command): ApplyResult {
    if c.Garbled? || c.entry.kind.OtherType? then Rejected
    else if EntryOf(c).Some? || CheckpointIn(c).Some? then Applied
    else Panicked
  }

  function Put(bucket: map<string, HashEntry>, e: HashEntry): map<string, HashEntry> {
    bucket[EntryKey(e) := e]
  }

  /** What a command does to the hash-chain bucket. */
  function Write(bucket: map<string, HashEntry>, c: Command): map<string, HashEntry> {
    if EntryOf(c).Some? then Put(bucket, EntryOf(c).value) else bucket
  }

  function WriteCheckpoint(bucket: map<string, MerkleCheckpoint>, c: Command): map<string, MerkleCheckpoint> {
    match CheckpointIn(c)
    case None => bucket
    case Some(cp) => bucket[RecordKey(cp.tableName, cp.sequenceNum) := cp]
  }

  /** Saving entries one after the other. */
  function PutAll(bucket: map<string, HashEntry>, entries: seq<HashEntry>): map<string, HashEntry> {
    if entries == [] then bucket
    else Put(PutAll(bucket, entries[..|entries| - 1]), entries[|entries| - 1])
  }

  class FSM {
    const storage: Storage

    constructor (store: Storage)
      ensures storage == store
    {
      storage := store;
    }

    method Apply(log: Command) returns (r: ApplyResult)
      modifies storage`hashChain, storage`merkleCheckpoints
      ensures r == ResultOf(log)
      ensures r.Rejected? <==> log.Garbled? || log.entry.kind.OtherType?
      ensures r.Applied? <==> EntryOf(log).Some? || CheckpointIn(log).Some?
      ensures storage.hashChain == Write(old(storage.hashChain), log)
      ensures storage.merkleCheckpoints == WriteCheckpoint(old(storage.merkleCheckpoints), log)
    {
      match log {
        case Garbled => r := Rejected;
        case Command(entry) =>
          match entry.kind {
            case HashChainType => r := ApplyHashChain(entry);
            case CheckpointType => r := ApplyCheckpoint(entry);
            case OtherType(_) => r := Rejected;
          }
      }
    }

    method ApplyHashChain(entry: LogEntry) returns (r: ApplyResult)
      modifies storage`hashChain
      ensures r == if HasNum(entry.data, SequenceNum) && HasStr(entry.data, OperationType) && HasStr(entry.data, RecordID)
                   then Applied else Panicked
      ensures storage.hashChain ==
        if r.Panicked? then old(storage.hashChain)
        else old(storage.hashChain)[RecordKey(entry.tableName, entry.data[SequenceNum].number) :=
               HashEntry(entry.tableName, entry.data[SequenceNum].number,
                         if HasStr(entry.data, DataHash) then entry.data[DataHash].text else "", entry.timestamp,
                         entry.data[OperationType].text, entry.data[RecordID].text)]
    {
      var dataHash := "";
      if HasStr(entry.data, DataHash) {
        dataHash := entry.data[DataHash].text;
      }
      if !HasNum(entry.data, SequenceNum) || !HasStr(entry.data, OperationType) || !HasStr(entry.data, RecordID) {
        return Panicked;
      }
      var hashEntry := HashEntry(entry.tableName, entry.data[SequenceNum].number, dataHash, entry.timestamp,
                                 entry.data[OperationType].text, entry.data[RecordID].text);
      storage.SaveHashEntry(hashEntry);
      r := Applied;
    }

    method ApplyCheckpoint(entry: LogEntry) returns (r: ApplyResult)
      modifies storage`merkleCheckpoints
      ensures r == if HasNum(entry.data, SequenceNum) && HasStr(entry.data, MerkleRoot) && HasNum(entry.data, RecordCount)
                      && HasStr(entry.data, HashAlgorithm) then Applied else Panicked
      ensures storage.merkleCheckpoints ==
        if r.Panicked? then old(storage.merkleCheckpoints)
        else old(storage.merkleCheckpoints)[RecordKey(entry.tableName, entry.data[SequenceNum].number) :=
               MerkleCheckpoint(entry.tableName, entry.data[SequenceNum].number, entry.data[MerkleRoot].text, entry.timestamp,
                                entry.data[RecordCount].number, entry.data[HashAlgorithm].text,
                                if HasObj(entry.data, LeafMap) then StringsIn(entry.data[LeafMap].fields) else map[],
                                if HasObj(entry.data, InternalNodes) then StringsIn(entry.data[InternalNodes].fields) else map[])]
    {
      if !HasNum(entry.data, SequenceNum) || !HasStr(entry.data, MerkleRoot) || !HasNum(entry.data, RecordCount)
         || !HasStr(entry.data, HashAlgorithm) {
        return Panicked;
      }
      var leafMap, internalNodes := map[], map[];
      if HasObj(entry.data, LeafMap) {
        leafMap := DecodeStrings(entry.data[LeafMap].fields);
      }
      if HasObj(entry.data, InternalNodes) {
        internalNodes := DecodeStrings(entry.data[InternalNodes].fields);
      }
      var checkpoint := MerkleCheckpoint(entry.tableName, entry.data[SequenceNum].number, entry.data[MerkleRoot].text,
                                         entry.timestamp, entry.data[RecordCount].number,
                                         entry.data[HashAlgorithm].text, leafMap, internalNodes);
      storage.SaveMerkleCheckpoint(checkpoint);
      r := Applied;
    }

    /** A reference to the live storage, not a copy. */
    method Snapshot() returns (snapshot: FsmSnapshot)
      ensures fresh(snapshot) && snapshot.storage == storage
    {
      snapshot := new FsmSnapshot(storage);
    }

    /** Only hash entries are restored, on top of what the storage holds. */
    method Restore(snapshot: Option<seq<HashEntry>>) returns (ok: bool)
      modifies storage`hashChain
      ensures ok <==> snapshot.Some?
      ensures storage.hashChain ==
        if ok then PutAll(old(storage.hashChain), snapshot.value) else old(storage.hashChain)
    {
      if snapshot.None? {
        return false;
      }
      var entries := snapshot.value;
      for i := 0 to |entries|
        invariant storage.hashChain == PutAll(old(storage.hashChain), entries[..i])
      {
        storage.SaveHashEntry(entries[i]);
        assert entries[..i + 1][..i] == entries[..i];
      }
      assert entries[..|entries|] == entries;
      ok := true;
    }
  }

  method DecodeStrings(fields: map<string, Json>) returns (r: map<string, string>)
    ensures r == StringsIn(fields)
    ensures forall k :: k in r <==> k in fields && fields[k].Str?
    ensures forall k :: k in r ==> fields[k] == Str(r[k])
  {
    r := map[];
    var todo := fields.Keys;
    while todo != {}
      invariant todo <= fields.Keys
      invariant forall k :: k in r <==> k in fields && k !in todo && fields[k].Str?
      invariant forall k :: k in r ==> r[k] == fields[k].text
      decreases |todo|
    {
      var k :| k in todo;
      todo := todo - {k};
      if fields[k].Str? {
        r := r[k := fields[k].text];
      }
    }
  }

  class FsmSnapshot {
    const storage: Storage

    constructor (store: Storage)
      ensures storage == store
    {
      storage := store;
    }

    /** What is written is what the storage holds now, however old the snapshot is. */
    method Persist() returns (entries: seq<HashEntry>)
      ensures entries == Scan(storage.hashChain, "")
    {
      entries := storage.GetAllHashEntriesAllTables();
    }
  }

  // ---------------------------------------------------------------- the log as a whole

  /** The hash-chain bucket after applying a log. */
  function FoldFrom(bucket: map<string, HashEntry>, log: seq<Command>): map<string, HashEntry>
    decreases |log|
  {
    if log == [] then bucket else Write(FoldFrom(bucket, log[..|log| - 1]), log[|log| - 1])
  }

  /** The hash-chain bucket after applying a log to an empty store. */
  function Fold(log: seq<Command>): map<string, HashEntry> {
    FoldFrom(map[], log)
  }

  /** The checkpoint bucket after applying a log to an empty store. */
  function FoldCheckpoints(log: seq<Command>): map<string, MerkleCheckpoint> {
    if log == [] then map[] else WriteCheckpoint(FoldCheckpoints(log[..|log| - 1]), log[|log| - 1])
  }

  ghost predicate OwnKeys(bucket: map<string, HashEntry>) {
    forall k :: k in bucket ==> EntryKey(bucket[k]) == k
  }

  lemma {:induction false} FoldHasOwnKeys(log: seq<Command>)
    ensures OwnKeys(Fold(log))
  {
    if log != [] {
      FoldHasOwnKeys(log[..|log| - 1]);
    }
  }

  lemma WriteOverlays(a: map<string, HashEntry>, b: map<string, HashEntry>, c: Command)
    ensures Write(a + b, c) == a + Write(b, c)
  {
  }

  /** Applying a log to a bucket lays the log's own bucket over it. */
  lemma {:induction false} FoldOverlays(bucket: map<string, HashEntry>, log: seq<Command>)
    ensures FoldFrom(bucket, log) == bucket + Fold(log)
    decreases |log|
  {
    if log == [] {
      assert bucket + map[] == bucket;
    } else {
      var n := |log| - 1;
      FoldOverlays(bucket, log[..n]);
      WriteOverlays(bucket, Fold(log[..n]), log[n]);
    }
  }

  lemma {:induction false} FoldInTurn(bucket: map<string, HashEntry>, a: seq<Command>, b: seq<Command>)
    ensures FoldFrom(bucket, a + b) == FoldFrom(FoldFrom(bucket, a), b)
    decreases |b|
  {
    if b == [] {
      assert a + b == a;
    } else {
      var n := |b| - 1;
      assert (a + b)[..|a + b| - 1] == a + b[..n] && (a + b)[|a + b| - 1] == b[n];
      FoldInTurn(bucket, a, b[..n]);
    }
  }

  lemma FoldConcat(a: seq<Command>, b: seq<Command>)
    ensures Fold(a + b) == Fold(a) + Fold(b)
  {
    FoldInTurn(map[], a, b);
    FoldOverlays(Fold(a), b);
  }

  /** A longer log has at least the keys of a shorter one. */
  lemma FoldKeysGrow(log: seq<Command>, i: nat, j: nat)
    requires i <= j <= |log|
    ensures Fold(log[..i]).Keys <= Fold(log[..j]).Keys
  {
    assert log[..j] == log[..i] + log[i..j];
    FoldConcat(log[..i], log[i..j]);
  }

  lemma {:induction false} PutAllOverlays(bucket: map<string, HashEntry>, entries: seq<HashEntry>)
    ensures PutAll(bucket, entries) == bucket + PutAll(map[], entries)
  {
    if entries != [] {
      PutAllOverlays(bucket, entries[..|entries| - 1]);
    } else {
      assert bucket + map[] == bucket;
    }
  }

  /** No later entry of the list has the same key. */
  ghost predicate IsLastUnderKey(entries: seq<HashEntry>, i: nat)
    requires i < |entries|
  {
    forall j :: i < j < |entries| ==> EntryKey(entries[j]) != EntryKey(entries[i])
  }

  /** Of the entries saved under one key the last one stays. */
  lemma {:induction false} PutAllTakesLast(bucket: map<string, HashEntry>, entries: seq<HashEntry>, i: nat)
    requires i < |entries| && IsLastUnderKey(entries, i)
    ensures EntryKey(entries[i]) in PutAll(bucket, entries) && PutAll(bucket, entries)[EntryKey(entries[i])] == entries[i]
  {
    var n := |entries| - 1;
    if i < n {
      PutAllTakesLast(bucket, entries[..n], i);
    }
  }

  lemma {:induction false} PutAllLeavesOthers(bucket: map<string, HashEntry>, entries: seq<HashEntry>, k: string)
    requires forall i :: 0 <= i < |entries| ==> EntryKey(entries[i]) != k
    ensures k in PutAll(bucket, entries) <==> k in bucket
    ensures k in bucket ==> PutAll(bucket, entries)[k] == bucket[k]
  {
    if entries != [] {
      PutAllLeavesOthers(bucket, entries[..|entries| - 1], k);
    }
  }

  lemma {:induction false} PutAllHolds(bucket: map<string, HashEntry>, entries: seq<HashEntry>)
    requires OwnKeys(bucket) && forall e :: e in entries ==> EntryKey(e) in bucket && bucket[EntryKey(e)] == e
    ensures forall k :: k in PutAll(map[], entries) ==> k in bucket && PutAll(map[], entries)[k] == bucket[k]
    ensures forall e :: e in entries ==> EntryKey(e) in PutAll(map[], entries)
  {
    if entries != [] {
      PutAllHolds(bucket, entries[..|entries| - 1]);
    }
  }

  /** A full scan lists a bucket's entries, all of them. */
  lemma ScanListsBucket(bucket: map<string, HashEntry>)
    ensures forall e :: e in Scan(bucket, "") ==> exists k :: k in bucket && bucket[k] == e
    ensures forall k :: k in bucket ==> bucket[k] in Scan(bucket, "")
  {
    var keys := WithPrefix(bucket.Keys, "");
    var order := InOrder(keys);
    CollectFollowsOrder(bucket, keys);
    InOrderAscends(keys);
    forall k | k in bucket ensures bucket[k] in Scan(bucket, "") {
      assert k in keys;
      var i :| 0 <= i < |order| && order[i] == k;
      assert Scan(bucket, "")[i] == bucket[k];
    }
    forall e | e in Scan(bucket, "") ensures exists k :: k in bucket && bucket[k] == e {
      var i :| 0 <= i < |Scan(bucket, "")| && Scan(bucket, "")[i] == e;
      assert order[i] in keys && bucket[order[i]] == e;
    }
  }

  /** Restoring what was persisted of a bucket lays that bucket over the one restored onto. */
  lemma RestoreOverlays(onto: map<string, HashEntry>, bucket: map<string, HashEntry>)
    requires OwnKeys(bucket)
    ensures PutAll(onto, Scan(bucket, "")) == onto + bucket
  {
    var entries := Scan(bucket, "");
    ScanListsBucket(bucket);
    SameEntries(bucket, entries);
    PutAllOverlays(onto, entries);
  }

  lemma SameEntries(bucket: map<string, HashEntry>, entries: seq<HashEntry>)
    requires OwnKeys(bucket)
    requires forall e :: e in entries ==> exists k :: k in bucket && bucket[k] == e
    requires forall k :: k in bucket ==> bucket[k] in entries
    ensures PutAll(map[], entries) == bucket
  {
    forall e | e in entries ensures EntryKey(e) in bucket && bucket[EntryKey(e)] == e {
      var k :| k in bucket && bucket[k] == e;
      assert EntryKey(e) == k;
    }
    PutAllHolds(bucket, entries);
    forall k | k in bucket ensures k in PutAll(map[], entries) {
      assert EntryKey(bucket[k]) == k;
    }
  }

  /** Laying b over again changes nothing once c is laid on top. */
  lemma OverlayTwice(p: map<string, HashEntry>, a: map<string, HashEntry>, b: map<string, HashEntry>, c: map<string, HashEntry>)
    requires p.Keys <= (a + b + c).Keys
    ensures p + (a + b) + (b + c) == a + b + c
  {
  }

  /** A snapshot named after log a but persisted only after b was applied too, restored onto the
      store of any node that had applied p entries, and followed by replaying b and c, gives exactly
      the bucket of applying a, b and c once. */
  lemma LateSnapshotConverges(a: seq<Command>, b: seq<Command>, c: seq<Command>, p: nat)
    requires p <= |a + b + c|
    ensures FoldFrom(PutAll(Fold((a + b + c)[..p]), Scan(Fold(a + b), "")), b + c) == Fold(a + b + c)
  {
    var all := a + b + c;
    var store := PutAll(Fold(all[..p]), Scan(Fold(a + b), ""));
    FoldHasOwnKeys(a + b);
    RestoreOverlays(Fold(all[..p]), Fold(a + b));
    FoldOverlays(store, b + c);
    ThreeParts(a, b, c);
    FoldKeysGrow(all, p, |all|);
    assert all[..|all|] == all;
    OverlayTwice(Fold(all[..p]), Fold(a), Fold(b), Fold(c));
  }

  lemma ThreeParts(a: seq<Command>, b: seq<Command>, c: seq<Command>)
    ensures Fold(a + b) == Fold(a) + Fold(b) && Fold(b + c) == Fold(b) + Fold(c)
    ensures Fold(a + b + c) == Fold(a) + Fold(b) + Fold(c)
  {
    FoldConcat(a, b);
    FoldConcat(a + b, c);
    FoldConcat(b, c);
  }
}
