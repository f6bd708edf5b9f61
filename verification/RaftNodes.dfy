/** internal/consensus/node.go: what a node may append to the replicated log. */
module RaftNodes {
  import opened Fsms
  import opened Numbering
  import opened Options
  import opened Storages

  /** The replicated log as its users see it: entries are only ever appended, for the leader. */
  class Raft {
    var committed: seq<LogEntry>
    var leader: Option<nat>

    constructor ()
      ensures committed == [] && leader == None
    {
      committed, leader := [], None;
    }
  }

  datatype ApplyError = NoApplyError | NotTheLeader | NotCommitted

  /** The log entry for an insert, under a number. */
  function InsertEntry(x: Insertion, seqNum: nat): LogEntry {
    LogEntry(HashChainType, x.tableName,
             map[SequenceNum := Num(seqNum), DataHash := Str(x.dataHash), OperationType := Str(x.operation), RecordID := Str(x.recordID)],
             x.now)
  }

  function StringsAsJson(m: map<string, string>): map<string, Json> {
    map k | k in m :: Str(m[k])
  }

  /** The log entry for a checkpoint; empty maps are left out. */
  function CheckpointEntry(cp: MerkleCheckpoint): LogEntry {
    var basic := map[SequenceNum := Num(cp.sequenceNum), MerkleRoot := Str(cp.merkleRoot),
                     RecordCount := Num(cp.recordCount), HashAlgorithm := Str(cp.hashAlgorithm)];
    var withLeaves := if cp.leafMap == map[] then basic else basic[LeafMap := Obj(StringsAsJson(cp.leafMap))];
    LogEntry(CheckpointType, cp.tableName,
             if cp.internalNodes == map[] then withLeaves else withLeaves[InternalNodes := Obj(StringsAsJson(cp.internalNodes))],
             cp.timestamp)
  }

  /** Every node that applies an insert's log entry writes the very entry a single node would. */
  lemma InsertTravels(x: Insertion, seqNum: nat)
    ensures HashEntryOf(InsertEntry(x, seqNum)) == Some(EntryFor(x, seqNum))
    ensures ResultOf(Command(InsertEntry(x, seqNum))) == Applied
  {
  }

  lemma StringsComeBack(m: map<string, string>)
    ensures StringsIn(StringsAsJson(m)) == m
  {
  }

  /** Every node that applies a checkpoint's log entry saves the very checkpoint the leader made. */
  lemma CheckpointTravels(cp: MerkleCheckpoint)
    ensures CheckpointOf(CheckpointEntry(cp)) == Some(cp)
    ensures ResultOf(Command(CheckpointEntry(cp))) == Applied
  {
    StringsComeBack(cp.leafMap);
    StringsComeBack(cp.internalNodes);
    var data := CheckpointEntry(cp).data;
    assert HasObj(data, LeafMap) <==> cp.leafMap != map[];
    assert HasObj(data, InternalNodes) <==> cp.internalNodes != map[];
  }

  /** What the log entry of a checkpoint holds, field by field. */
  ghost predicate IsCheckpointEntry(e: LogEntry, cp: MerkleCheckpoint) {
    && e.kind == CheckpointType && e.tableName == cp.tableName && e.timestamp == cp.timestamp
    && HasNum(e.data, SequenceNum) && e.data[SequenceNum].number == cp.sequenceNum
    && HasStr(e.data, MerkleRoot) && e.data[MerkleRoot].text == cp.merkleRoot
    && HasNum(e.data, RecordCount) && e.data[RecordCount].number == cp.recordCount
    && HasStr(e.data, HashAlgorithm) && e.data[HashAlgorithm].text == cp.hashAlgorithm
    && (LeafMap in e.data <==> cp.leafMap != map[]) && (InternalNodes in e.data <==> cp.internalNodes != map[])
    && (LeafMap in e.data ==> e.data[LeafMap] == Obj(map k | k in cp.leafMap :: Str(cp.leafMap[k])))
    && (InternalNodes in e.data ==> e.data[InternalNodes] == Obj(map k | k in cp.internalNodes :: Str(cp.internalNodes[k])))
  }

  class Node {
    const id: nat
    const raft: Raft

    constructor (id: nat, r: Raft)
      ensures this.id == id && raft == r
    {
      this.id, raft := id, r;
    }

    predicate IsLeader()
      reads raft
    {
      raft.leader == Some(id)
    }

    /** Only the leader appends; even then the log may fail to commit the entry. `next` is whoever leads
        when the call is over. */
    method ApplyLog(entry: LogEntry, commits: bool, next: Option<nat>) returns (err: ApplyError)
      modifies raft
      ensures err == if old(raft.leader) != Some(id) then NotTheLeader else if commits then NoApplyError else NotCommitted
      ensures raft.committed == if err.NoApplyError? then old(raft.committed) + [entry] else old(raft.committed)
      ensures raft.leader == next
    {
      if !IsLeader() {
        err := NotTheLeader;
      } else if !commits {
        err := NotCommitted;
      } else {
        raft.committed := raft.committed + [entry];
        err := NoApplyError;
      }
      raft.leader := next;
    }

    method ApplyCheckpoint(checkpoint: MerkleCheckpoint, commits: bool, next: Option<nat>) returns (err: ApplyError)
      modifies raft
      ensures err == if old(raft.leader) != Some(id) then NotTheLeader else if commits then NoApplyError else NotCommitted
      ensures raft.committed ==
        if err.NoApplyError? then old(raft.committed) + [CheckpointEntry(checkpoint)] else old(raft.committed)
      ensures err.NoApplyError? ==> IsCheckpointEntry(raft.committed[|old(raft.committed)|], checkpoint)
      ensures raft.leader == next
    {
      if !IsLeader() {
        raft.leader := next;
        return NotTheLeader;
      }
      var data := map[SequenceNum := Num(checkpoint.sequenceNum), MerkleRoot := Str(checkpoint.merkleRoot),
                      RecordCount := Num(checkpoint.recordCount), HashAlgorithm := Str(checkpoint.hashAlgorithm)];
      if |checkpoint.leafMap| > 0 {
        data := data[LeafMap := Obj(StringsAsJson(checkpoint.leafMap))];
      }
      if |checkpoint.internalNodes| > 0 {
        data := data[InternalNodes := Obj(StringsAsJson(checkpoint.internalNodes))];
      }
      err := ApplyLog(LogEntry(CheckpointType, checkpoint.tableName, data, checkpoint.timestamp), commits, next);
    }
  }
}
