/** No table has a gap in its numbers: not in the committed log, at any index, not in any node's store
    and not in any stored snapshot. */
module ClusterNumbering {
  import opened Buckets
  import opened CatchingUp
  import opened Clusters
  import opened Fsms
  import opened Numbering
  import opened Options
  import opened RaftNodes
  import opened TableViews

  // ---------------------------------------------------------------- sets of numbers without gaps

  ghost predicate IsInitial(numbers: set<nat>) {
    exists m: nat :: numbers == UpTo(m)
  }

  lemma UpToIsInjective(m: nat, n: nat)
    requires UpTo(m) == UpTo(n)
    ensures m == n
  {
    UpToSize(m);
    UpToSize(n);
  }

  lemma UpToIsMonotone(m: nat, n: nat)
    ensures UpTo(m) <= UpTo(n) <==> m <= n
  {
    if UpTo(m) <= UpTo(n) && m > 0 {
      assert m in UpTo(m);
    }
  }

  lemma InitialPut(numbers: set<nat>, n: nat)
    requires IsInitial(numbers) && n >= 1 && (n == 1 || n - 1 in numbers)
    ensures IsInitial(numbers + {n})
  {
    var m: nat :| numbers == UpTo(m);
    assert n <= m + 1;
    assert numbers + {n} == UpTo(if n <= m then m else n);
  }

  lemma InitialUnion(a: set<nat>, b: set<nat>)
    requires IsInitial(a) && IsInitial(b)
    ensures IsInitial(a + b)
  {
    var m: nat :| a == UpTo(m);
    var n: nat :| b == UpTo(n);
    assert a + b == UpTo(if m <= n then n else m);
  }

  /** A number that leaves no gap in a smaller set leaves none in a larger one. */
  lemma InitialPutLater(some: set<nat>, more: set<nat>, n: nat)
    requires IsInitial(some + {n}) && IsInitial(more) && some <= more
    ensures IsInitial(more + {n})
  {
    var m: nat :| some + {n} == UpTo(m);
    assert InRange(n, m);
    if n > 1 {
      assert n - 1 in UpTo(m);
    }
    InitialPut(more, n);
  }

  // ---------------------------------------------------------------- the tables of a bucket

  lemma ViewKeysGrow(a: Bucket, b: Bucket, t: string)
    requires IsTableName(t) && a.Keys <= b.Keys
    ensures View(a, t).Keys <= View(b, t).Keys
  {
    forall n | n in View(a, t).Keys ensures n in View(b, t).Keys {
      ViewAt(a, t, n);
      ViewAt(b, t, n);
    }
  }

  lemma ViewKeysOfSum(a: Bucket, b: Bucket, t: string)
    requires IsTableName(t)
    ensures View(a + b, t).Keys == View(a, t).Keys + View(b, t).Keys
  {
    forall n: nat ensures n in View(a + b, t).Keys <==> n in View(a, t).Keys + View(b, t).Keys {
      ViewAt(a, t, n);
      ViewAt(b, t, n);
      ViewAt(a + b, t, n);
    }
  }

  ghost predicate HasNoGaps(bucket: Bucket, t: string)
    requires IsTableName(t)
  {
    IsInitial(View(bucket, t).Keys)
  }

  /** The entry was printed from a valid table name. */
  ghost predicate IsNamed(c: Command) {
    EntryOf(c).Some? ==> IsTableName(EntryOf(c).value.tableName)
  }

  /** What a command adds to a table's numbers. */
  function NumbersOf(c: Command, t: string): set<nat> {
    if EntryOf(c).Some? && EntryOf(c).value.tableName == t then {EntryOf(c).value.sequenceNum} else {}
  }

  lemma ViewAfterWrite(bucket: Bucket, c: Command, t: string)
    requires IsTableName(t) && IsNamed(c)
    ensures View(Write(bucket, c), t).Keys == View(bucket, t).Keys + NumbersOf(c, t)
  {
    if EntryOf(c).Some? {
      var e := EntryOf(c).value;
      ViewAfterPut(bucket, e.tableName, e.sequenceNum, e, t);
    }
  }

  // ---------------------------------------------------------------- the invariant

  /** At no index of the log does the table have a gap. */
  ghost predicate LogHasNoGaps(log: seq<Command>, t: string)
    requires IsTableName(t)
  {
    forall i :: 0 <= i <= |log| ==> PrefixHasNoGaps(log, i, t)
  }

  ghost predicate PrefixHasNoGaps(log: seq<Command>, i: nat, t: string)
    requires IsTableName(t) && i <= |log|
  {
    HasNoGaps(Fold(log[..i]), t)
  }

  /** An insert was numbered by the rule, from numbers without a gap that are in the log by now. */
  ghost predicate ProposalFits(rule: Latest, log: seq<Command>, p: Proposal, t: string)
    requires IsTableName(t)
  {
    p.InsertProposal? ==>
      && IsTableName(p.insert.tableName)
      && (p.insert.tableName == t ==>
            IsInitial(p.seen) && IsNext(rule, p.number, p.seen) && p.seen <= View(Fold(log), t).Keys)
  }

  ghost predicate ProposalsFit(rule: Latest, c: Cluster, t: string)
    requires IsTableName(t)
  {
    forall p :: p in c.numbered || p in c.proposed ==> ProposalFits(rule, c.log, p, t)
  }

  ghost predicate StoresHaveNoGaps(c: Cluster, t: string)
    requires IsTableName(t)
  {
    && (forall n :: n in c.nodes ==> HasNoGaps(c.nodes[n].hashChain, t))
    && (forall s :: s in c.stored ==> HasNoGaps(PutAll(map[], s.entries), t))
  }

  ghost predicate IsNumbered(rule: Latest, c: Cluster, t: string)
    requires IsTableName(t)
  {
    && IsSound(c) && (forall command :: command in c.log ==> IsNamed(command))
    && LogHasNoGaps(c.log, t) && StoresHaveNoGaps(c, t) && ProposalsFit(rule, c, t)
  }

  lemma CommitIsNamed(rule: Latest, log: seq<Command>, p: Proposal, t: string)
    requires IsTableName(t) && ProposalFits(rule, log, p, t)
    ensures IsNamed(CommandOf(p))
    ensures NumbersOf(CommandOf(p), t) == if p.InsertProposal? && p.insert.tableName == t then {p.number} else {}
  {
    if p.InsertProposal? {
      InsertTravels(p.insert, p.number);
    }
  }

  lemma PrefixOfLonger(log: seq<Command>, c: Command, i: nat)
    requires i <= |log|
    ensures (log + [c])[..i] == log[..i] && (log + [c])[..|log| + 1] == log + [c]
    ensures Fold(log + [c]) == Write(Fold(log), c)
  {
    assert (log + [c])[..|log|] == log;
  }

  lemma CommitFillsIn(rule: Latest, log: seq<Command>, p: Proposal, t: string)
    requires IsTableName(t) && HasNoGaps(Fold(log), t) && ProposalFits(rule, log, p, t)
    ensures HasNoGaps(Write(Fold(log), CommandOf(p)), t)
  {
    CommitIsNamed(rule, log, p, t);
    ViewAfterWrite(Fold(log), CommandOf(p), t);
    if p.InsertProposal? && p.insert.tableName == t {
      InitialPut(View(Fold(log), t).Keys, p.number);
    } else {
      assert View(Fold(log), t).Keys + {} == View(Fold(log), t).Keys;
    }
  }

  lemma EarlierStaysWithoutGap(log: seq<Command>, c: Command, i: nat, t: string)
    requires IsTableName(t) && i <= |log| && PrefixHasNoGaps(log, i, t)
    ensures PrefixHasNoGaps(log + [c], i, t)
  {
    PrefixOfLonger(log, c, i);
  }

  lemma LongerHasNoGaps(log: seq<Command>, c: Command, t: string)
    requires IsTableName(t) && LogHasNoGaps(log, t) && HasNoGaps(Write(Fold(log), c), t)
    ensures LogHasNoGaps(log + [c], t)
  {
    forall i | 0 <= i <= |log + [c]| ensures PrefixHasNoGaps(log + [c], i, t) {
      if i <= |log| {
        EarlierStaysWithoutGap(log, c, i, t);
      } else {
        PrefixOfLonger(log, c, |log|);
      }
    }
  }

  lemma CommitLeavesNoGap(rule: Latest, log: seq<Command>, p: Proposal, t: string)
    requires IsTableName(t) && LogHasNoGaps(log, t) && ProposalFits(rule, log, p, t)
    ensures LogHasNoGaps(log + [CommandOf(p)], t)
  {
    assert PrefixHasNoGaps(log, |log|, t) && log[..|log|] == log;
    CommitFillsIn(rule, log, p, t);
    LongerHasNoGaps(log, CommandOf(p), t);
  }

  lemma LogNumbersGrow(log: seq<Command>, c: Command, t: string)
    requires IsTableName(t)
    ensures View(Fold(log), t).Keys <= View(Fold(log + [c]), t).Keys
  {
    PrefixOfLonger(log, c, 0);
    ViewKeysGrow(Fold(log), Fold(log + [c]), t);
  }

  lemma CommitKeepsNumbered(rule: Latest, c: Cluster, p: Proposal, next: Cluster, t: string)
    requires IsTableName(t) && IsNumbered(rule, c, t) && IsSound(next) && p in c.proposed
    requires next.log == c.log + [CommandOf(p)] && next.nodes == c.nodes && next.stored == c.stored
    requires next.numbered == c.numbered && next.proposed == c.proposed - multiset{p}
    ensures IsNumbered(rule, next, t)
  {
    CommitIsNamed(rule, c.log, p, t);
    CommitLeavesNoGap(rule, c.log, p, t);
    LogNumbersGrow(c.log, CommandOf(p), t);
  }

  /** A node's numbers lie between those of the prefix it applied and those of the log. */
  lemma NodeNumbers(log: seq<Command>, node: NodeState, t: string)
    requires IsTableName(t) && NodeIsSound(log, node)
    ensures View(Fold(log[..node.applied]), t).Keys <= View(node.hashChain, t).Keys <= View(Fold(log), t).Keys
  {
    FoldKeysGrow(log, node.horizon, |log|);
    assert log[..|log|] == log;
    ViewKeysGrow(Fold(log[..node.applied]), node.hashChain, t);
    ViewKeysGrow(node.hashChain, Fold(log), t);
  }

  lemma ApplyLeavesNoGap(log: seq<Command>, node: NodeState, t: string)
    requires IsTableName(t) && NodeIsSound(log, node) && node.applied < |log| && IsNamed(log[node.applied])
    requires LogHasNoGaps(log, t) && HasNoGaps(node.hashChain, t)
    ensures HasNoGaps(Write(node.hashChain, log[node.applied]), t)
  {
    var i, c := node.applied, log[node.applied];
    NodeNumbers(log, node, t);
    ViewAfterWrite(node.hashChain, c, t);
    ViewAfterWrite(Fold(log[..i]), c, t);
    assert log[..i + 1] == log[..i] + [c];
    PrefixOfLonger(log[..i], c, 0);
    assert PrefixHasNoGaps(log, i + 1, t);
    if NumbersOf(c, t) != {} {
      InitialPutLater(View(Fold(log[..i]), t).Keys, View(node.hashChain, t).Keys, EntryOf(c).value.sequenceNum);
    }
  }

  lemma RestoreLeavesNoGap(node: NodeState, s: Stored, t: string)
    requires IsTableName(t) && HasNoGaps(node.hashChain, t) && HasNoGaps(PutAll(map[], s.entries), t)
    ensures HasNoGaps(AfterRestore(node, s).hashChain, t)
  {
    PutAllOverlays(node.hashChain, s.entries);
    ViewKeysOfSum(node.hashChain, PutAll(map[], s.entries), t);
    InitialUnion(View(node.hashChain, t).Keys, View(PutAll(map[], s.entries), t).Keys);
  }

  lemma PersistLeavesNoGap(log: seq<Command>, node: NodeState, t: string)
    requires IsTableName(t) && NodeIsSound(log, node) && HasNoGaps(node.hashChain, t)
    ensures HasNoGaps(PutAll(map[], Scan(node.hashChain, "")), t)
  {
    RestoreOverlays(map[], node.hashChain);
    assert map[] + node.hashChain == node.hashChain;
  }

  lemma NodeKeepsNoGaps(c: Cluster, n: nat, node: NodeState, next: Cluster, t: string)
    requires IsTableName(t) && StoresHaveNoGaps(c, t) && HasNoGaps(node.hashChain, t)
    requires next.nodes == c.nodes[n := node] && next.stored == c.stored
    ensures StoresHaveNoGaps(next, t)
  {
  }

  lemma SnapshotKeepsNoGaps(c: Cluster, s: Stored, next: Cluster, t: string)
    requires IsTableName(t) && StoresHaveNoGaps(c, t) && HasNoGaps(PutAll(map[], s.entries), t)
    requires next.nodes == c.nodes && next.stored == c.stored + {s}
    ensures StoresHaveNoGaps(next, t)
  {
  }

  lemma ApplyKeepsNoGaps(rule: Latest, c: Cluster, n: nat, next: Cluster, t: string)
    requires IsTableName(t) && IsNumbered(rule, c, t) && Takes(rule, c, EntryApplied(n), next)
    ensures StoresHaveNoGaps(next, t)
  {
    var node := c.nodes[n];
    assert NodeIsSound(c.log, node) && HasNoGaps(node.hashChain, t) && c.log[node.applied] in c.log;
    ApplyLeavesNoGap(c.log, node, t);
    NodeKeepsNoGaps(c, n, AfterApply(node, c.log[node.applied]), next, t);
  }

  lemma PersistAddsSnapshot(rule: Latest, c: Cluster, n: nat, index: nat, next: Cluster)
    requires Takes(rule, c, SnapshotPersisted(n, index), next)
    ensures n in c.nodes && next.nodes == c.nodes
    ensures next.stored == c.stored + {Stored(index, Scan(c.nodes[n].hashChain, ""), c.nodes[n].horizon)}
  {
  }

  lemma NodeIsRegular(rule: Latest, c: Cluster, n: nat, t: string)
    requires IsTableName(t) && IsNumbered(rule, c, t) && n in c.nodes
    ensures NodeIsSound(c.log, c.nodes[n]) && HasNoGaps(c.nodes[n].hashChain, t) && StoresHaveNoGaps(c, t)
  {
  }

  lemma PersistKeepsNoGaps(rule: Latest, c: Cluster, n: nat, index: nat, next: Cluster, t: string)
    requires IsTableName(t) && IsNumbered(rule, c, t) && Takes(rule, c, SnapshotPersisted(n, index), next)
    ensures StoresHaveNoGaps(next, t)
  {
    PersistAddsSnapshot(rule, c, n, index, next);
    NodeIsRegular(rule, c, n, t);
    var node := c.nodes[n];
    PersistLeavesNoGap(c.log, node, t);
    SnapshotKeepsNoGaps(c, Stored(index, Scan(node.hashChain, ""), node.horizon), next, t);
  }

  lemma RestoreKeepsNoGaps(c: Cluster, n: nat, s: Stored, next: Cluster, t: string)
    requires IsTableName(t) && StoresHaveNoGaps(c, t) && n in c.nodes && s in c.stored
    requires next.nodes == c.nodes[n := AfterRestore(c.nodes[n], s)] && next.stored == c.stored
    ensures StoresHaveNoGaps(next, t)
  {
    RestoreLeavesNoGap(c.nodes[n], s, t);
    NodeKeepsNoGaps(c, n, AfterRestore(c.nodes[n], s), next, t);
  }

  ghost predicate ChangesStores(e: Event) {
    e.EntryApplied? || e.SnapshotPersisted? || e.SnapshotRestored? || (e.NodeRestarted? && e.from.Some?)
  }

  lemma OthersLeaveNodes(rule: Latest, c: Cluster, e: Event, next: Cluster)
    requires Takes(rule, c, e, next) && !ChangesStores(e) && !e.CheckpointMade? && !e.NodeRestarted?
    ensures next.nodes == c.nodes && next.stored == c.stored
  {
  }

  lemma SaveLeavesChain(rule: Latest, c: Cluster, e: Event, next: Cluster)
    requires Takes(rule, c, e, next) && e.CheckpointMade?
    ensures e.node in c.nodes && next.stored == c.stored
    ensures next.nodes == c.nodes || next.nodes == c.nodes[e.node := AfterSave(c.nodes[e.node], e.checkpoint)]
  {
  }

  lemma RestartLeavesChain(rule: Latest, c: Cluster, e: Event, next: Cluster)
    requires Takes(rule, c, e, next) && e.NodeRestarted? && e.from == None
    ensures e.node in c.nodes && next.stored == c.stored
    ensures next.nodes == c.nodes[e.node := AfterRestart(c.nodes[e.node], None)]
  {
  }

  lemma OthersKeepNoGaps(rule: Latest, c: Cluster, e: Event, next: Cluster, t: string)
    requires IsTableName(t) && StoresHaveNoGaps(c, t) && Takes(rule, c, e, next) && !ChangesStores(e)
    ensures StoresHaveNoGaps(next, t)
  {
    if e.CheckpointMade? {
      SaveLeavesChain(rule, c, e, next);
    } else if e.NodeRestarted? {
      RestartLeavesChain(rule, c, e, next);
    } else {
      OthersLeaveNodes(rule, c, e, next);
    }
  }

  lemma StoresKeepNoGaps(rule: Latest, c: Cluster, e: Event, next: Cluster, t: string)
    requires IsTableName(t) && IsNumbered(rule, c, t) && Takes(rule, c, e, next) && ChangesStores(e)
    ensures StoresHaveNoGaps(next, t)
  {
    if e.EntryApplied? {
      ApplyKeepsNoGaps(rule, c, e.node, next, t);
    } else if e.SnapshotPersisted? {
      PersistKeepsNoGaps(rule, c, e.node, e.index, next, t);
    } else {
      RestoreKeepsNoGaps(c, e.node, if e.SnapshotRestored? then e.snapshot else e.from.value, next, t);
    }
  }

  lemma ProposalsStayFit(rule: Latest, c: Cluster, e: Event, next: Cluster, t: string)
    requires IsTableName(t) && IsNumbered(rule, c, t) && Takes(rule, c, e, next) && !e.ProposalCommitted?
    ensures next.log == c.log && ProposalsFit(rule, next, t)
  {
    if e.InsertNumbered? {
      NodeNumbers(c.log, c.nodes[e.node], t);
      assert HasNoGaps(c.nodes[e.node].hashChain, t);
    }
  }

  lemma EventKeepsNumbered(rule: Latest, c: Cluster, e: Event, next: Cluster, t: string)
    requires IsTableName(t) && IsNumbered(rule, c, t) && Takes(rule, c, e, next)
    ensures IsNumbered(rule, next, t)
  {
    EventKeepsSound(rule, c, e);
    if e.ProposalCommitted? {
      CommitKeepsNumbered(rule, c, e.proposal, next, t);
    } else {
      if ChangesStores(e) {
        StoresKeepNoGaps(rule, c, e, next, t);
      } else {
        OthersKeepNoGaps(rule, c, e, next, t);
      }
      ProposalsStayFit(rule, c, e, next, t);
    }
  }

  lemma StartIsNumbered(rule: Latest, c: Cluster, t: string)
    requires IsTableName(t) && IsStart(c)
    ensures IsNumbered(rule, c, t)
  {
    assert View(FreshNode.hashChain, t).Keys == UpTo(0);
    assert Fold(c.log[..0]) == map[];
    forall n | n in c.nodes ensures NodeIsSound(c.log, c.nodes[n]) && HasNoGaps(c.nodes[n].hashChain, t) {
      NothingCatchesUp(c.log);
    }
  }

  lemma {:induction false} RunIsNumbered(rule: Latest, states: seq<Cluster>, events: seq<Event>, i: nat, t: string)
    requires IsRun(rule, states, events) && i < |states| && IsTableName(t)
    ensures IsNumbered(rule, states[i], t)
  {
    if i == 0 {
      StartIsNumbered(rule, states[0], t);
    } else {
      RunIsNumbered(rule, states, events, i - 1, t);
      assert Takes(rule, states[i - 1], events[i - 1], states[i]);
      EventKeepsNumbered(rule, states[i - 1], events[i - 1], states[i], t);
    }
  }
}
