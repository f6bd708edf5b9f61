/** A cluster of nodes over one committed log, in every interleaving of leader changes, change
    events, applied entries, checkpoints, snapshots, restores and restarts. */
module Clusters {
  import opened Buckets
  import opened CatchingUp
  import opened Fsms
  import opened Numbering
  import opened Options
  import opened RaftNodes
  import opened Storages
  import opened TableViews

  /** What a node did: the commands it applied and the checkpoints it saved of its own, in order; the
      furthest it ever applied the log; whether it ever jumped ahead over entries it had not applied, and
      whether it ever saved a checkpoint of its own. */
  datatype Past = Past(did: seq<Command>, reach: nat, skips: bool, saves: bool)

  /** One node's storage and its position in the log. Three fields are bookkeeping of this model:
      `horizon`, the furthest entry whose effect may already be in the store; `replays`, whether the
      node was ever restored or restarted; and its past. */
  datatype NodeState = NodeState(applied: nat, hashChain: map<string, HashEntry>,
                                 checkpoints: map<string, MerkleCheckpoint>, horizon: nat, replays: bool, past: Past)

  const FreshNode := NodeState(0, map[], map[], 0, false, Past([], 0, false, false))

  /** A stored snapshot: the index it is named after, what was written, and how far that reaches. */
  datatype Stored = Stored(index: nat, entries: seq<HashEntry>, horizon: nat)

  /** An insert or a checkpoint on its way into the log. `seen` is bookkeeping: the numbers the node's
      store had for the table when the insert was numbered. */
  datatype Proposal =
    | InsertProposal(node: nat, insert: Insertion, number: nat, seen: set<nat>)
    | CheckpointProposal(node: nat, checkpoint: MerkleCheckpoint)

  function CommandOf(p: Proposal): Command {
    match p
    case InsertProposal(_, x, number, _) => Command(InsertEntry(x, number))
    case CheckpointProposal(_, cp) => Command(CheckpointEntry(cp))
  }

  /** `numbered` holds the inserts a node has numbered and not yet handed over, `proposed` what leaders
      have handed over, `taken` the snapshots (node, index) taken but not yet persisted. */
  datatype Cluster = Cluster(log: seq<Command>, nodes: map<nat, NodeState>, leader: Option<nat>,
                             numbered: multiset<Proposal>, proposed: multiset<Proposal>,
                             taken: set<(nat, nat)>, stored: set<Stored>)

  datatype Event =
    | LeaderChanges(to: Option<nat>)
    | InsertNumbered(node: nat, insert: Insertion, number: nat)
    | InsertProposed(proposal: Proposal)
    | CheckpointMade(node: nat, checkpoint: MerkleCheckpoint)
    | ProposalCommitted(proposal: Proposal)
    | EntryApplied(node: nat)
    | SnapshotTaken(node: nat)
    | SnapshotPersisted(node: nat, index: nat)
    | SnapshotRestored(node: nat, snapshot: Stored)
    | NodeRestarted(node: nat, from: Option<Stored>)

  ghost predicate Leads(c: Cluster, node: nat) {
    c.leader == Some(node)
  }

  ghost function NumbersAt(c: Cluster, node: nat, t: string): set<nat>
    requires node in c.nodes && IsTableName(t)
  {
    View(c.nodes[node].hashChain, t).Keys
  }

  /** What the environment may do: every node numbers the inserts it sees from its own store; only a
      leader hands one over; what was handed over may be committed at any later time, or never. A
      running node restores only a snapshot ahead of it; a restarted one starts over from any stored
      snapshot, or from the beginning of the log. */
  ghost predicate Enabled(rule: Latest, c: Cluster, e: Event) {
    match e
    case LeaderChanges(to) => to.Some? ==> to.value in c.nodes
    case InsertNumbered(n, x, number) =>
      n in c.nodes && IsTableName(x.tableName) && IsNext(rule, number, NumbersAt(c, n, x.tableName))
    case InsertProposed(p) => p in c.numbered && Leads(c, p.node)
    case CheckpointMade(n, _) => n in c.nodes
    case ProposalCommitted(p) => p in c.proposed
    case EntryApplied(n) => n in c.nodes && c.nodes[n].applied < |c.log|
    case SnapshotTaken(n) => n in c.nodes
    case SnapshotPersisted(n, index) => n in c.nodes && (n, index) in c.taken
    case SnapshotRestored(n, snapshot) => n in c.nodes && snapshot in c.stored && c.nodes[n].applied <= snapshot.index
    case NodeRestarted(n, snapshot) => n in c.nodes && (snapshot.Some? ==> snapshot.value in c.stored)
  }

  function Max(a: nat, b: nat): nat {
    if a < b then b else a
  }

  function AfterApply(node: NodeState, c: Command): NodeState {
    node.(applied := node.applied + 1, hashChain := Write(node.hashChain, c),
          checkpoints := WriteCheckpoint(node.checkpoints, c), horizon := Max(node.horizon, node.applied + 1),
          past := node.past.(did := node.past.did + [c], reach := Max(node.past.reach, node.applied + 1)))
  }

  function AfterSave(node: NodeState, cp: MerkleCheckpoint): NodeState {
    node.(checkpoints := node.checkpoints[RecordKey(cp.tableName, cp.sequenceNum) := cp],
          past := node.past.(did := node.past.did + [Command(CheckpointEntry(cp))], saves := true))
  }

  function AfterRestore(node: NodeState, snapshot: Stored): NodeState {
    node.(applied := snapshot.index, hashChain := PutAll(node.hashChain, snapshot.entries),
          horizon := Max(node.horizon, snapshot.horizon), replays := true,
          past := node.past.(skips := node.past.skips || node.applied < snapshot.index))
  }

  function AfterRestart(node: NodeState, snapshot: Option<Stored>): NodeState {
    match snapshot
    case None => node.(applied := 0, replays := true)
    case Some(s) => AfterRestore(node, s)
  }

  /** A leader's insert reaches every store, its own too, only by being committed and applied; one that
      a follower numbered is dropped. A leader's checkpoint goes through the log, a follower's is saved
      locally. */
  ghost function After(rule: Latest, c: Cluster, e: Event): Cluster
    requires Enabled(rule, c, e)
  {
    match e
    case LeaderChanges(to) => c.(leader := to)
    case InsertNumbered(n, x, number) =>
      c.(numbered := c.numbered + multiset{InsertProposal(n, x, number, NumbersAt(c, n, x.tableName))})
    case InsertProposed(p) => c.(numbered := c.numbered - multiset{p}, proposed := c.proposed + multiset{p})
    case CheckpointMade(n, cp) =>
      if Leads(c, n) then c.(proposed := c.proposed + multiset{CheckpointProposal(n, cp)})
      else c.(nodes := c.nodes[n := AfterSave(c.nodes[n], cp)])
    case ProposalCommitted(p) => c.(log := c.log + [CommandOf(p)], proposed := c.proposed - multiset{p})
    case EntryApplied(n) => c.(nodes := c.nodes[n := AfterApply(c.nodes[n], c.log[c.nodes[n].applied])])
    case SnapshotTaken(n) => c.(taken := c.taken + {(n, c.nodes[n].applied)})
    case SnapshotPersisted(n, index) =>
      c.(taken := c.taken - {(n, index)},
         stored := c.stored + {Stored(index, Scan(c.nodes[n].hashChain, ""), c.nodes[n].horizon)})
    case SnapshotRestored(n, snapshot) => c.(nodes := c.nodes[n := AfterRestore(c.nodes[n], snapshot)])
    case NodeRestarted(n, snapshot) =>
      c.(nodes := c.nodes[n := AfterRestart(c.nodes[n], snapshot)],
         taken := set p | p in c.taken && p.0 != n)
  }

  // ---------------------------------------------------------------- the invariant

  ghost predicate NodeIsSound(log: seq<Command>, node: NodeState) {
    && CatchesUp(log, node.hashChain, node.applied, node.horizon)
    && (!node.replays ==> node.horizon == node.applied)
  }

  ghost predicate StoredIsSound(log: seq<Command>, s: Stored) {
    CatchesUp(log, PutAll(map[], s.entries), s.index, s.horizon)
  }

  ghost predicate IsSound(c: Cluster) {
    && (forall n :: n in c.nodes ==> NodeIsSound(c.log, c.nodes[n]))
    && (forall s :: s in c.stored ==> StoredIsSound(c.log, s))
    && (forall p :: p in c.taken ==> p.0 in c.nodes && p.1 <= c.nodes[p.0].applied)
  }

  lemma CommitKeepsSound(c: Cluster, command: Command, next: Cluster)
    requires IsSound(c) && next.log == c.log + [command]
    requires next.nodes == c.nodes && next.stored == c.stored && next.taken == c.taken
    ensures IsSound(next)
  {
    forall n | n in c.nodes ensures NodeIsSound(c.log + [command], c.nodes[n]) {
      StillCatchesUp(c.log, [command], c.nodes[n].hashChain, c.nodes[n].applied, c.nodes[n].horizon);
    }
    forall s | s in c.stored ensures StoredIsSound(c.log + [command], s) {
      StillCatchesUp(c.log, [command], PutAll(map[], s.entries), s.index, s.horizon);
    }
  }

  lemma ApplyKeepsSound(log: seq<Command>, node: NodeState)
    requires NodeIsSound(log, node) && node.applied < |log|
    ensures NodeIsSound(log, AfterApply(node, log[node.applied]))
  {
    var horizon := Max(node.horizon, node.applied + 1);
    CatchesUpFurther(log, node.hashChain, node.applied, node.horizon, horizon);
    CatchesUpAfterApply(log, node.hashChain, node.applied, horizon);
  }

  /** A snapshot persisted late holds entries beyond its index, and still catches up from it. */
  lemma PersistIsSound(log: seq<Command>, node: NodeState, index: nat)
    requires NodeIsSound(log, node) && index <= node.applied
    ensures StoredIsSound(log, Stored(index, Scan(node.hashChain, ""), node.horizon))
  {
    RestoreOverlays(map[], node.hashChain);
    assert map[] + node.hashChain == node.hashChain;
    CatchesUpFromEarlier(log, node.hashChain, node.applied, node.horizon, index);
  }

  lemma RestoreKeepsSound(log: seq<Command>, node: NodeState, s: Stored)
    requires NodeIsSound(log, node) && StoredIsSound(log, s)
    ensures NodeIsSound(log, AfterRestore(node, s))
  {
    var saved, horizon := PutAll(map[], s.entries), Max(node.horizon, s.horizon);
    PutAllOverlays(node.hashChain, s.entries);
    CatchesUpFurther(log, saved, s.index, s.horizon, horizon);
    FoldKeysGrow(log, node.horizon, horizon);
    RestoreCatchesUp(log, node.hashChain, saved, s.index, horizon);
  }

  lemma RestartKeepsSound(log: seq<Command>, node: NodeState, snapshot: Option<Stored>)
    requires NodeIsSound(log, node) && (snapshot.Some? ==> StoredIsSound(log, snapshot.value))
    ensures NodeIsSound(log, AfterRestart(node, snapshot))
  {
    match snapshot {
      case None => CatchesUpFromEarlier(log, node.hashChain, node.applied, node.horizon, 0);
      case Some(s) => RestoreKeepsSound(log, node, s);
    }
  }

  lemma SaveKeepsSound(c: Cluster, n: nat, cp: MerkleCheckpoint)
    requires IsSound(c) && n in c.nodes
    ensures IsSound(c.(nodes := c.nodes[n := AfterSave(c.nodes[n], cp)]))
  {
  }

  lemma NodeChangeKeepsSound(c: Cluster, n: nat, node: NodeState)
    requires IsSound(c) && n in c.nodes && NodeIsSound(c.log, node) && c.nodes[n].applied <= node.applied
    ensures IsSound(c.(nodes := c.nodes[n := node]))
  {
  }

  lemma RestartedIsSound(c: Cluster, n: nat, node: NodeState)
    requires IsSound(c) && n in c.nodes && NodeIsSound(c.log, node)
    ensures IsSound(c.(nodes := c.nodes[n := node], taken := set p | p in c.taken && p.0 != n))
  {
  }

  lemma StoredSnapshotKeepsSound(c: Cluster, p: (nat, nat), s: Stored)
    requires IsSound(c) && StoredIsSound(c.log, s)
    ensures IsSound(c.(taken := c.taken - {p}, stored := c.stored + {s}))
  {
  }

  /** Every event keeps the cluster sound: whatever a node or a stored snapshot holds, replaying the
      log from its index brings it up to date. */
  lemma EventKeepsSound(rule: Latest, c: Cluster, e: Event)
    requires IsSound(c) && Enabled(rule, c, e)
    ensures IsSound(After(rule, c, e))
  {
    match e {
      case LeaderChanges(_) =>
      case InsertNumbered(_, _, _) =>
      case InsertProposed(_) =>
      case CheckpointMade(n, cp) => SaveKeepsSound(c, n, cp);
      case ProposalCommitted(p) => CommitKeepsSound(c, CommandOf(p), After(rule, c, e));
      case EntryApplied(n) =>
        ApplyKeepsSound(c.log, c.nodes[n]);
        NodeChangeKeepsSound(c, n, AfterApply(c.nodes[n], c.log[c.nodes[n].applied]));
      case SnapshotTaken(n) =>
      case SnapshotPersisted(n, index) =>
        var node := c.nodes[n];
        assert (n, index) in c.taken && index <= node.applied;
        PersistIsSound(c.log, node, index);
        StoredSnapshotKeepsSound(c, (n, index), Stored(index, Scan(node.hashChain, ""), node.horizon));
      case SnapshotRestored(n, s) =>
        RestoreKeepsSound(c.log, c.nodes[n], s);
        NodeChangeKeepsSound(c, n, AfterRestore(c.nodes[n], s));
      case NodeRestarted(n, s) =>
        RestartKeepsSound(c.log, c.nodes[n], s);
        RestartedIsSound(c, n, AfterRestart(c.nodes[n], s));
    }
  }

  // ---------------------------------------------------------------- runs

  ghost predicate Takes(rule: Latest, c: Cluster, e: Event, next: Cluster) {
    Enabled(rule, c, e) && next == After(rule, c, e)
  }

  ghost predicate IsStart(c: Cluster) {
    && c.log == [] && c.numbered == c.proposed == multiset{} && c.taken == {} && c.stored == {}
    && forall n :: n in c.nodes ==> c.nodes[n] == FreshNode
  }

  ghost predicate IsRun(rule: Latest, states: seq<Cluster>, events: seq<Event>) {
    && |states| == |events| + 1 && IsStart(states[0])
    && forall i :: 0 <= i < |events| ==> Takes(rule, states[i], events[i], states[i + 1])
  }

  lemma {:induction false} RunIsSound(rule: Latest, states: seq<Cluster>, events: seq<Event>, i: nat)
    requires IsRun(rule, states, events) && i < |states|
    ensures IsSound(states[i])
  {
    if i == 0 {
      NothingCatchesUp([]);
    } else {
      RunIsSound(rule, states, events, i - 1);
      assert Takes(rule, states[i - 1], events[i - 1], states[i]);
      EventKeepsSound(rule, states[i - 1], events[i - 1]);
    }
  }

  /** The node is not in the middle of replaying entries its store may already hold. */
  ghost predicate IsSettled(c: Cluster, node: NodeState) {
    node.applied == |c.log| || !node.replays || node.applied == node.horizon
  }

  /** In every run: a node that has applied the whole log, that never replayed, or whose replay has
      passed everything it had seen, holds exactly the bucket of the prefix it applied. */
  lemma NodesFollowLog(rule: Latest, states: seq<Cluster>, events: seq<Event>, i: nat, n: nat)
    requires IsRun(rule, states, events) && i < |states| && n in states[i].nodes
    ensures var c, node := states[i], states[i].nodes[n];
      node.applied <= |c.log| && (IsSettled(c, node) ==> node.hashChain == Fold(c.log[..node.applied]))
  {
    RunIsSound(rule, states, events, i);
    var c, node := states[i], states[i].nodes[n];
    assert NodeIsSound(c.log, node);
    if node.applied == node.horizon {
      CaughtUp(c.log, node.hashChain, node.applied);
    }
  }

  /** Settled nodes that got equally far hold the same entries. */
  lemma EquallyAdvancedNodesAgree(rule: Latest, states: seq<Cluster>, events: seq<Event>, i: nat, m: nat, n: nat)
    requires IsRun(rule, states, events) && i < |states| && m in states[i].nodes && n in states[i].nodes
    requires IsSettled(states[i], states[i].nodes[m]) && IsSettled(states[i], states[i].nodes[n])
    requires states[i].nodes[m].applied == states[i].nodes[n].applied
    ensures states[i].nodes[m].hashChain == states[i].nodes[n].hashChain
  {
    NodesFollowLog(rule, states, events, i, m);
    NodesFollowLog(rule, states, events, i, n);
  }
}
