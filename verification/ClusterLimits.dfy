/** What the cluster does not guarantee, by example. */
module ClusterLimits {
  import opened Buckets
  import opened Clusters
  import opened CommittedChains
  import opened Fsms
  import opened Numbering
  import opened Options
  import opened RaftNodes
  import opened Storages
  import opened TableViews

  lemma RunExtends(rule: Latest, states: seq<Cluster>, events: seq<Event>, e: Event, next: Cluster)
    requires IsRun(rule, states, events) && Takes(rule, states[|events|], e, next)
    ensures IsRun(rule, states + [next], events + [e])
  {
    var longer, more := states + [next], events + [e];
    assert longer[0] == states[0];
    forall i | 0 <= i < |more| ensures Takes(rule, longer[i], more[i], longer[i + 1]) {
      if i < |events| {
        assert longer[i] == states[i] && more[i] == events[i] && longer[i + 1] == states[i + 1];
        assert Takes(rule, states[i], events[i], states[i + 1]);
      } else {
        assert longer[i] == states[|events|] && more[i] == e && longer[i + 1] == next;
      }
    }
  }

  /** A run may be continued by any enabled event. */
  lemma RunGrows(rule: Latest, states: seq<Cluster>, events: seq<Event>, e: Event)
    returns (longer: seq<Cluster>, more: seq<Event>)
    requires IsRun(rule, states, events) && Enabled(rule, states[|events|], e)
    ensures IsRun(rule, longer, more) && longer[|more|] == After(rule, states[|events|], e)
  {
    var next := After(rule, states[|events|], e);
    longer, more := states + [next], events + [e];
    RunExtends(rule, states, events, e, next);
  }

  /** An insert numbered by a leader is handed over and committed right away. */
  lemma NumberedIsCommitted(states: seq<Cluster>, events: seq<Event>, x: Insertion)
    returns (longer: seq<Cluster>, more: seq<Event>)
    requires IsRun(ByNumber, states, events)
    requires var c := states[|events|];
      && Leads(c, 0) && 0 in c.nodes && c.nodes[0] == FreshNode && IsTableName(x.tableName)
      && c.numbered == c.proposed == multiset{}
    ensures IsRun(ByNumber, longer, more)
    ensures longer[|more|] == states[|events|].(log := states[|events|].log + [Command(InsertEntry(x, 1))])
  {
    var c := states[|events|];
    assert View(FreshNode.hashChain, x.tableName).Keys == {};
    var p := InsertProposal(0, x, 1, {});
    longer, more := RunGrows(ByNumber, states, events, InsertNumbered(0, x, 1));
    assert longer[|more|] == c.(numbered := multiset{p});
    longer, more := RunGrows(ByNumber, longer, more, InsertProposed(p));
    assert longer[|more|] == c.(proposed := multiset{p});
    longer, more := RunGrows(ByNumber, longer, more, ProposalCommitted(p));
  }

  lemma TwiceNumberedOne(x: Insertion, y: Insertion, log: seq<Command>)
    requires x.tableName == y.tableName && log == [Command(InsertEntry(x, 1)), Command(InsertEntry(y, 1))]
    ensures Committed(log, x.tableName) == [x, y]
    ensures Fold(log) == map[RecordKey(x.tableName, 1) := EntryFor(y, 1)]
  {
    var p, q := InsertProposal(0, x, 1, {}), InsertProposal(0, y, 1, {});
    var one := [] + [CommandOf(p)];
    assert log == one + [CommandOf(q)];
    CommitAddsInsert([], p, x.tableName);
    CommitAddsInsert(one, q, x.tableName);
  }

  /** A leader that has not applied the entry it committed before gives its number out again, and the
      second insert overwrites the first. */
  lemma StaleLeaderOverwrites(x: Insertion, y: Insertion) returns (states: seq<Cluster>, events: seq<Event>)
    requires x.tableName == y.tableName && IsTableName(x.tableName)
    ensures IsRun(ByNumber, states, events)
    ensures Committed(states[|events|].log, x.tableName) == [x, y]
    ensures Fold(states[|events|].log) == map[RecordKey(x.tableName, 1) := EntryFor(y, 1)]
  {
    var s0 := Cluster([], map[0 := FreshNode], Some(0), multiset{}, multiset{}, {}, {});
    states, events := NumberedIsCommitted([s0], [], x);
    states, events := NumberedIsCommitted(states, events, y);
    TwiceNumberedOne(x, y, states[|events|].log);
  }

  lemma CheckpointIsCommitted(states: seq<Cluster>, events: seq<Event>, cp: MerkleCheckpoint)
    returns (longer: seq<Cluster>, more: seq<Event>)
    requires IsRun(ByNumber, states, events)
    requires var c := states[|events|];
      Leads(c, 0) && 0 in c.nodes && c.nodes[0] == FreshNode && c.proposed == multiset{} && c.log == []
    ensures IsRun(ByNumber, longer, more)
    ensures var c := states[|events|];
      longer[|more|] == c.(log := [Command(CheckpointEntry(cp))], nodes := c.nodes[0 := AfterApply(FreshNode, Command(CheckpointEntry(cp)))])
  {
    var c, p := states[|events|], CheckpointProposal(0, cp);
    longer, more := RunGrows(ByNumber, states, events, CheckpointMade(0, cp));
    assert longer[|more|] == c.(proposed := multiset{p});
    longer, more := RunGrows(ByNumber, longer, more, ProposalCommitted(p));
    assert longer[|more|] == c.(log := [CommandOf(p)]);
    longer, more := RunGrows(ByNumber, longer, more, EntryApplied(0));
  }

  /** Node 1, still empty, is restored from a snapshot node 0 takes and persists. */
  lemma SnapshotIsRestored(states: seq<Cluster>, events: seq<Event>)
    returns (longer: seq<Cluster>, more: seq<Event>)
    requires IsRun(ByNumber, states, events)
    requires var c := states[|events|];
      && 0 in c.nodes && 1 in c.nodes && c.nodes[1] == FreshNode && c.taken == {} && c.stored == {}
    ensures IsRun(ByNumber, longer, more)
    ensures var c, node := states[|events|], states[|events|].nodes[0];
      longer[|more|].log == c.log &&
      longer[|more|].nodes == c.nodes[1 := AfterRestore(FreshNode, Stored(node.applied, Scan(node.hashChain, ""), node.horizon))]
  {
    var c, node := states[|events|], states[|events|].nodes[0];
    var snapshot := Stored(node.applied, Scan(node.hashChain, ""), node.horizon);
    longer, more := RunGrows(ByNumber, states, events, SnapshotTaken(0));
    assert longer[|more|] == c.(taken := {(0, node.applied)});
    longer, more := RunGrows(ByNumber, longer, more, SnapshotPersisted(0, node.applied));
    assert longer[|more|] == c.(stored := {snapshot});
    longer, more := RunGrows(ByNumber, longer, more, SnapshotRestored(1, snapshot));
  }

  /** Snapshots carry no checkpoints: two nodes that got equally far through the log agree on their
      entries and differ in their checkpoints. */
  lemma RestoredNodeLacksCheckpoint(cp: MerkleCheckpoint) returns (states: seq<Cluster>, events: seq<Event>)
    ensures IsRun(ByNumber, states, events)
    ensures var nodes := states[|events|].nodes;
      && 0 in nodes && 1 in nodes && nodes[0].applied == nodes[1].applied == |states[|events|].log|
      && nodes[0].hashChain == nodes[1].hashChain && nodes[0].checkpoints != nodes[1].checkpoints
  {
    CheckpointTravels(cp);
    var s0 := Cluster([], map[0 := FreshNode, 1 := FreshNode], Some(0), multiset{}, multiset{}, {}, {});
    states, events := CheckpointIsCommitted([s0], [], cp);
    var node := AfterApply(FreshNode, Command(CheckpointEntry(cp)));
    assert RecordKey(cp.tableName, cp.sequenceNum) in node.checkpoints;
    assert Scan<HashEntry>(map[], "") == [];
    states, events := SnapshotIsRestored(states, events);
  }
}
