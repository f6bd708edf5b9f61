/** internal/verify/handler_raft.go: the handler of change events on a node of a cluster. */
module RaftHandlers {
  import opened Fsms
  import opened Handlers
  import opened Hashing
  import opened Options
  import opened RaftNodes
  import RecordIds
  import opened Storages

  datatype RaftOutcome = Handled | Tampering(tableName: string, operation: Operation) | ReplicationFailed

  /** Every node that applies the log entry of an insert event writes the very entry a single node would. */
  lemma EventTravels(h: Hasher, event: ChangeEvent, now: int, n: nat, logEntry: LogEntry)
    requires event.operation == INSERT
    requires logEntry == LogEntry(HashChainType, event.tableName,
                                  map[SequenceNum := Num(n), DataHash := Str(h.digest(event.newData)),
                                      OperationType := Str("INSERT"), RecordID := Str(RecordIds.PrintKey(event.primaryKey))], now)
    ensures logEntry == InsertEntry(InsertionOf(h, event, now), n)
    ensures HashEntryOf(logEntry) == Some(HashEntry(event.tableName, n, h.digest(event.newData), now, "INSERT",
                                                    RecordIds.PrintKey(event.primaryKey)))
    ensures ResultOf(Command(logEntry)) == Applied
  {
    InsertTravels(InsertionOf(h, event, now), n);
  }

  class RaftHashChainHandler {
    const base: HashChainHandler
    const raftNode: Node?

    constructor (handler: HashChainHandler, node: Node?)
      ensures base == handler && raftNode == node
    {
      base, raftNode := handler, node;
    }

    /** The leader proposes an insert under the number after the latest entry of its own store and
        writes nothing itself; a follower drops it, unless it became the leader during the call. `next` is
        whoever leads then. */
    method HandleChange(event: ChangeEvent, now: int, commits: bool, next: Option<nat>) returns (outcome: RaftOutcome)
      modifies base.storage`hashChain, if raftNode == null then {} else {raftNode.raft}
      ensures raftNode != null ==> base.storage.hashChain == old(base.storage.hashChain)
      ensures raftNode == null ==>
        var n := NextNumber(old(base.storage.hashChain), event.tableName);
        base.storage.hashChain ==
          if event.tableName in base.tableConfigs && event.operation == INSERT then
            old(base.storage.hashChain)[RecordKey(event.tableName, n) :=
              HashEntry(event.tableName, n, base.hasher.digest(event.newData), now, "INSERT", RecordIds.PrintKey(event.primaryKey))]
          else old(base.storage.hashChain)
      ensures raftNode != null ==>
        var records := event.tableName in base.tableConfigs && event.operation == INSERT;
        var n := NextNumber(old(base.storage.hashChain), event.tableName);
        && raftNode.raft.leader == (if records then next else old(raftNode.raft.leader))
        && raftNode.raft.committed == old(raftNode.raft.committed) +
             if records && old(raftNode.raft.leader) == Some(raftNode.id) && commits
             then [LogEntry(HashChainType, event.tableName,
                            map[SequenceNum := Num(n), DataHash := Str(base.hasher.digest(event.newData)),
                                OperationType := Str("INSERT"), RecordID := Str(RecordIds.PrintKey(event.primaryKey))], now)]
             else []
      ensures outcome ==
        if event.tableName in base.tableConfigs && event.operation != INSERT then Tampering(event.tableName, event.operation)
        else if event.tableName in base.tableConfigs && raftNode != null && next == Some(raftNode.id)
                && !(old(raftNode.raft.leader) == Some(raftNode.id) && commits)
        then ReplicationFailed
        else Handled
    {
      if event.tableName !in base.tableConfigs {
        return Handled;
      }
      if event.operation == UPDATE || event.operation == DELETE {
        return Tampering(event.tableName, event.operation);
      }
      if raftNode == null {
        var _ := base.HandleChange(event, now);
        return Handled;
      }
      var latestEntry := base.storage.GetLatestHashEntry(event.tableName);
      var seqNum := 1;
      if latestEntry.Some? {
        seqNum := latestEntry.value.sequenceNum + 1;
      }
      var dataHash := base.hasher.digest(event.newData);
      var data := map[SequenceNum := Num(seqNum), DataHash := Str(dataHash), OperationType := Str(OperationName(event.operation)),
                      RecordID := Str(RecordIds.PrintKey(event.primaryKey))];
      var logEntry := LogEntry(HashChainType, event.tableName, data, now);
      var err := raftNode.ApplyLog(logEntry, commits, next);
      if !err.NoApplyError? {
        if !raftNode.IsLeader() {
          return Handled;
        }
        return ReplicationFailed;
      }
      outcome := Handled;
    }
  }
}
