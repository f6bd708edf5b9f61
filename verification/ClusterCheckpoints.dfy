/** When a node's checkpoints are those of the log. */
module ClusterCheckpoints {
  import opened Clusters
  import opened Fsms
  import opened Numbering
  import opened Options
  import opened RaftNodes
  import opened Storages

  // ---------------------------------------------------------------- the last checkpoint of a slot

  predicate WritesSlot(c: Command, k: string) {
    CheckpointIn(c).Some? && RecordKey(CheckpointIn(c).value.tableName, CheckpointIn(c).value.sequenceNum) == k
  }

  /** The last checkpoint some commands write under a key. */
  function LastIn(log: seq<Command>, k: string): Option<MerkleCheckpoint> {
    if log == [] then None
    else if WritesSlot(log[|log| - 1], k) then CheckpointIn(log[|log| - 1])
    else LastIn(log[..|log| - 1], k)
  }

  lemma {:induction false} FoldHoldsLast(log: seq<Command>, k: string)
    ensures k in FoldCheckpoints(log) <==> LastIn(log, k).Some?
    ensures k in FoldCheckpoints(log) ==> FoldCheckpoints(log)[k] == LastIn(log, k).value
  {
    if log != [] {
      FoldHoldsLast(log[..|log| - 1], k);
    }
  }

  lemma {:induction false} LastInTurn(a: seq<Command>, b: seq<Command>, k: string)
    ensures LastIn(a + b, k) == if LastIn(b, k).Some? then LastIn(b, k) else LastIn(a, k)
  {
    if b == [] {
      assert a + b == a;
    } else {
      var n := |b| - 1;
      assert (a + b)[..|a + b| - 1] == a + b[..n] && (a + b)[|a + b| - 1] == b[n];
      LastInTurn(a, b[..n], k);
    }
  }

  /** For every key, the two sequences of commands end in the same checkpoint. */
  ghost predicate SameLast(a: seq<Command>, b: seq<Command>) {
    forall k :: LastIn(a, k) == LastIn(b, k)
  }

  lemma FoldsAgreeIff(a: seq<Command>, b: seq<Command>)
    ensures FoldCheckpoints(a) == FoldCheckpoints(b) <==> SameLast(a, b)
  {
    forall k ensures k in FoldCheckpoints(a) <==> LastIn(a, k).Some?
      ensures k in FoldCheckpoints(a) ==> FoldCheckpoints(a)[k] == LastIn(a, k).value
      ensures k in FoldCheckpoints(b) <==> LastIn(b, k).Some?
      ensures k in FoldCheckpoints(b) ==> FoldCheckpoints(b)[k] == LastIn(b, k).value
    {
      FoldHoldsLast(a, k);
      FoldHoldsLast(b, k);
    }
    if FoldCheckpoints(a) == FoldCheckpoints(b) {
      forall k ensures LastIn(a, k) == LastIn(b, k) {
        assert k in FoldCheckpoints(a) <==> k in FoldCheckpoints(b);
      }
    }
    if SameLast(a, b) {
      assert forall k :: LastIn(a, k) == LastIn(b, k);
    }
  }

  // ---------------------------------------------------------------- what a node holds

  /** Replaying the log from where the node stands to the furthest it has been ends in the checkpoints of
      the log. */
  ghost predicate ReplaysCheckpoints(log: seq<Command>, node: NodeState) {
    && node.applied <= node.past.reach <= |log|
    && SameLast(node.past.did + log[node.applied..node.past.reach], log[..node.past.reach])
  }

  /** A node's checkpoints are those of what it did. If it never jumped ahead and saved none of its own, a
      replay makes up for all restarts. */
  ghost predicate KeepsPast(log: seq<Command>, node: NodeState) {
    && node.checkpoints == FoldCheckpoints(node.past.did)
    && node.past.reach <= |log|
    && (!node.replays ==> !node.past.skips && node.applied == node.past.reach)
    && (!node.past.skips && !node.past.saves ==> ReplaysCheckpoints(log, node))
  }

  ghost predicate AllKeepPast(c: Cluster) {
    forall n :: n in c.nodes ==> KeepsPast(c.log, c.nodes[n])
  }

  lemma ApplyReplays(log: seq<Command>, node: NodeState, next: NodeState)
    requires ReplaysCheckpoints(log, node) && node.applied < |log| && next == AfterApply(node, log[node.applied])
    ensures ReplaysCheckpoints(log, next)
  {
    var c, did, reach := log[node.applied], node.past.did, node.past.reach;
    if node.applied < reach {
      assert did + [c] + log[node.applied + 1..reach] == did + log[node.applied..reach];
    } else {
      assert did + log[reach..reach] == did && did + [c] + [] == did + [c];
      assert log[..reach + 1] == log[..reach] + [c];
      forall k ensures LastIn(did + [c], k) == LastIn(log[..reach + 1], k) {
        LastInTurn(did, [c], k);
        LastInTurn(log[..reach], [c], k);
      }
    }
  }

  lemma FoldOneMore(log: seq<Command>, c: Command)
    ensures FoldCheckpoints(log + [c]) == WriteCheckpoint(FoldCheckpoints(log), c)
  {
    assert (log + [c])[..|log|] == log;
  }

  lemma ApplyFolds(node: NodeState, c: Command, next: NodeState)
    requires node.checkpoints == FoldCheckpoints(node.past.did) && next == AfterApply(node, c)
    ensures next.checkpoints == FoldCheckpoints(next.past.did)
  {
    FoldOneMore(node.past.did, c);
  }

  lemma ApplyKeepsPast(log: seq<Command>, node: NodeState, next: NodeState)
    requires KeepsPast(log, node) && node.applied < |log| && next == AfterApply(node, log[node.applied])
    ensures KeepsPast(log, next)
  {
    ApplyFolds(node, log[node.applied], next);
    if !node.past.skips && !node.past.saves {
      ApplyReplays(log, node, next);
    }
  }

  lemma SaveIsFolded(log: seq<Command>, cp: MerkleCheckpoint)
    ensures FoldCheckpoints(log + [Command(CheckpointEntry(cp))]) ==
            FoldCheckpoints(log)[RecordKey(cp.tableName, cp.sequenceNum) := cp]
  {
    CheckpointTravels(cp);
    FoldOneMore(log, Command(CheckpointEntry(cp)));
  }

  lemma SaveFolds(node: NodeState, cp: MerkleCheckpoint, next: NodeState)
    requires node.checkpoints == FoldCheckpoints(node.past.did) && next == AfterSave(node, cp)
    ensures next.checkpoints == FoldCheckpoints(next.past.did)
  {
    SaveIsFolded(node.past.did, cp);
  }

  lemma SaveKeepsPast(log: seq<Command>, node: NodeState, cp: MerkleCheckpoint, next: NodeState)
    requires KeepsPast(log, node) && next == AfterSave(node, cp)
    ensures KeepsPast(log, next)
  {
    SaveFolds(node, cp, next);
  }

  /** Going back to an earlier entry loses nothing that the replay does not bring back. */
  lemma GoingBackReplays(log: seq<Command>, node: NodeState, index: nat)
    requires ReplaysCheckpoints(log, node) && index <= node.applied
    ensures ReplaysCheckpoints(log, node.(applied := index))
  {
    var did, reach := node.past.did, node.past.reach;
    var first, rest := log[index..node.applied], log[node.applied..reach];
    assert log[index..reach] == first + rest;
    assert log[..reach] == log[..index] + (first + rest);
    forall k ensures LastIn(did + log[index..reach], k) == LastIn(log[..reach], k) {
      LastInTurn(did, first + rest, k);
      LastInTurn(log[..index], first + rest, k);
      LastInTurn(first, rest, k);
      LastInTurn(did, rest, k);
      assert LastIn(did + rest, k) == LastIn(log[..reach], k);
    }
  }

  lemma JumpKeepsPast(log: seq<Command>, node: NodeState, next: NodeState)
    requires KeepsPast(log, node) && next.checkpoints == node.checkpoints && next.replays
    requires next.past == node.past.(skips := node.past.skips || node.applied < next.applied)
    ensures KeepsPast(log, next)
  {
    if !next.past.skips && !next.past.saves {
      GoingBackReplays(log, node, next.applied);
    }
  }

  lemma CommitKeepsPast(log: seq<Command>, c: Command, node: NodeState)
    requires KeepsPast(log, node)
    ensures KeepsPast(log + [c], node)
  {
    var reach := node.past.reach;
    assert (log + [c])[..reach] == log[..reach];
    if node.applied <= reach {
      assert (log + [c])[node.applied..reach] == log[node.applied..reach];
    }
  }

  lemma NodeChangeKeepsPast(c: Cluster, n: nat, node: NodeState, next: Cluster)
    requires AllKeepPast(c) && KeepsPast(c.log, node) && next.log == c.log && next.nodes == c.nodes[n := node]
    ensures AllKeepPast(next)
  {
  }

  lemma CommitKeepsAllPast(c: Cluster, command: Command, next: Cluster)
    requires AllKeepPast(c) && next.log == c.log + [command] && next.nodes == c.nodes
    ensures AllKeepPast(next)
  {
    forall n | n in next.nodes ensures KeepsPast(next.log, next.nodes[n]) {
      CommitKeepsPast(c.log, command, c.nodes[n]);
    }
  }

  lemma EventKeepsPast(rule: Latest, c: Cluster, e: Event, next: Cluster)
    requires Takes(rule, c, e, next) && AllKeepPast(c)
    ensures AllKeepPast(next)
  {
    match e {
      case EntryApplied(n) =>
        ApplyKeepsPast(c.log, c.nodes[n], AfterApply(c.nodes[n], c.log[c.nodes[n].applied]));
        NodeChangeKeepsPast(c, n, AfterApply(c.nodes[n], c.log[c.nodes[n].applied]), next);
      case CheckpointMade(n, cp) =>
        if !Leads(c, n) {
          SaveKeepsPast(c.log, c.nodes[n], cp, AfterSave(c.nodes[n], cp));
          NodeChangeKeepsPast(c, n, AfterSave(c.nodes[n], cp), next);
        }
      case SnapshotRestored(n, s) =>
        JumpKeepsPast(c.log, c.nodes[n], AfterRestore(c.nodes[n], s));
        NodeChangeKeepsPast(c, n, AfterRestore(c.nodes[n], s), next);
      case NodeRestarted(n, s) =>
        JumpKeepsPast(c.log, c.nodes[n], AfterRestart(c.nodes[n], s));
        NodeChangeKeepsPast(c, n, AfterRestart(c.nodes[n], s), next);
      case ProposalCommitted(p) => CommitKeepsAllPast(c, CommandOf(p), next);
      case _ =>
    }
  }

  lemma {:induction false} RunKeepsPast(rule: Latest, states: seq<Cluster>, events: seq<Event>, i: nat)
    requires IsRun(rule, states, events) && i < |states|
    ensures AllKeepPast(states[i])
  {
    if i > 0 {
      RunKeepsPast(rule, states, events, i - 1);
      assert Takes(rule, states[i - 1], events[i - 1], states[i]);
      EventKeepsPast(rule, states[i - 1], events[i - 1], states[i]);
    }
  }

  // ---------------------------------------------------------------- runs

  /** The node holds exactly the checkpoints of the prefix it applied. */
  ghost predicate FollowsLog(c: Cluster, node: NodeState)
    requires node.applied <= |c.log|
  {
    node.checkpoints == FoldCheckpoints(c.log[..node.applied])
  }

  /** In every run and for every node, restored, restarted or saving checkpoints of its own: it holds the
      checkpoints of the prefix it applied exactly if, for every key, the last checkpoint it applied or
      saved itself is the last one the prefix has. */
  lemma CheckpointsFollowIff(rule: Latest, states: seq<Cluster>, events: seq<Event>, i: nat, n: nat)
    requires IsRun(rule, states, events) && i < |states| && n in states[i].nodes
    ensures var c, node := states[i], states[i].nodes[n];
      && node.applied <= |c.log|
      && (FollowsLog(c, node) <==> SameLast(node.past.did, c.log[..node.applied]))
  {
    var c, node := states[i], states[i].nodes[n];
    NodesFollowLog(rule, states, events, i, n);
    RunKeepsPast(rule, states, events, i);
    assert KeepsPast(c.log, node);
    FoldsAgreeIff(node.past.did, c.log[..node.applied]);
  }

  /** Two nodes hold the same checkpoints exactly if they last wrote the same under every key. */
  lemma CheckpointsAgreeIff(rule: Latest, states: seq<Cluster>, events: seq<Event>, i: nat, m: nat, n: nat)
    requires IsRun(rule, states, events) && i < |states| && m in states[i].nodes && n in states[i].nodes
    ensures states[i].nodes[m].checkpoints == states[i].nodes[n].checkpoints <==>
            SameLast(states[i].nodes[m].past.did, states[i].nodes[n].past.did)
  {
    RunKeepsPast(rule, states, events, i);
    assert KeepsPast(states[i].log, states[i].nodes[m]) && KeepsPast(states[i].log, states[i].nodes[n]);
    FoldsAgreeIff(states[i].nodes[m].past.did, states[i].nodes[n].past.did);
  }

  /** The node never jumped ahead of what it had applied and never saved a checkpoint of its own, and it
      stands where it got furthest, so it is not in the middle of a replay. */
  ghost predicate IsComplete(node: NodeState) {
    !node.past.skips && !node.past.saves && (node.replays ==> node.applied == node.past.reach)
  }

  /** In every run such a node, restarted or not, holds the checkpoints of the prefix it applied. */
  lemma CompleteNodesFollow(rule: Latest, states: seq<Cluster>, events: seq<Event>, i: nat, n: nat)
    requires IsRun(rule, states, events) && i < |states| && n in states[i].nodes && IsComplete(states[i].nodes[n])
    ensures states[i].nodes[n].applied <= |states[i].log| && FollowsLog(states[i], states[i].nodes[n])
  {
    var c, node := states[i], states[i].nodes[n];
    CheckpointsFollowIff(rule, states, events, i, n);
    RunKeepsPast(rule, states, events, i);
    assert KeepsPast(c.log, node);
    assert node.past.did + c.log[node.applied..node.applied] == node.past.did;
  }

  /** Two such nodes that got equally far hold the same checkpoints. */
  lemma CompleteNodesAgree(rule: Latest, states: seq<Cluster>, events: seq<Event>, i: nat, m: nat, n: nat)
    requires IsRun(rule, states, events) && i < |states| && m in states[i].nodes && n in states[i].nodes
    requires IsComplete(states[i].nodes[m]) && IsComplete(states[i].nodes[n])
    requires states[i].nodes[m].applied == states[i].nodes[n].applied
    ensures states[i].nodes[m].checkpoints == states[i].nodes[n].checkpoints
  {
    CompleteNodesFollow(rule, states, events, i, m);
    CompleteNodesFollow(rule, states, events, i, n);
  }

  // ---------------------------------------------------------------- one jump

  /** The stretch of the log between two indices changes no checkpoint: what it last writes under a key
      is what the log had there before. */
  ghost predicate ChangesNothing(log: seq<Command>, from: nat, to: nat)
    requires from <= to <= |log|
  {
    forall k :: LastIn(log[from..to], k).Some? ==> LastIn(log[from..to], k) == LastIn(log[..from], k)
  }

  /** A node that holds the checkpoints of its prefix and is restored from a snapshot ahead of it goes on
      to hold them exactly if the entries it jumps over change no checkpoint. */
  lemma RestoreKeepsCheckpointsIff(rule: Latest, states: seq<Cluster>, events: seq<Event>, i: nat)
    requires IsRun(rule, states, events) && i < |events| && events[i].SnapshotRestored?
    ensures var c, next, n, s := states[i], states[i + 1], events[i].node, events[i].snapshot;
      && n in c.nodes && n in next.nodes && next.log == c.log
      && c.nodes[n].applied <= s.index == next.nodes[n].applied <= |c.log|
      && (FollowsLog(c, c.nodes[n]) ==>
            (FollowsLog(next, next.nodes[n]) <==> ChangesNothing(c.log, c.nodes[n].applied, s.index)))
  {
    var n, s, c := events[i].node, events[i].snapshot, states[i];
    assert Takes(rule, c, events[i], states[i + 1]);
    RunIsSound(rule, states, events, i);
    assert StoredIsSound(c.log, s);
    SkippingIsHarmlessIff(c.log, c.nodes[n].applied, s.index);
  }

  lemma SkippingIsHarmlessIff(log: seq<Command>, from: nat, to: nat)
    requires from <= to <= |log|
    ensures FoldCheckpoints(log[..from]) == FoldCheckpoints(log[..to]) <==> ChangesNothing(log, from, to)
  {
    FoldsAgreeIff(log[..from], log[..to]);
    assert log[..to] == log[..from] + log[from..to];
    forall k ensures LastIn(log[..from], k) == LastIn(log[..to], k) <==>
        (LastIn(log[from..to], k).Some? ==> LastIn(log[from..to], k) == LastIn(log[..from], k)) {
      LastInTurn(log[..from], log[from..to], k);
    }
  }
}
