/** Exactly when each table's committed inserts are its entries 1 to n. */
module CommittedChains {
  import opened CatchingUp
  import opened ClusterNumbering
  import opened Clusters
  import opened Fsms
  import opened Handlers
  import opened Numbering
  import opened RaftNodes
  import opened Storages
  import opened TableViews

  /** The inserts committed for a table. */
  function Committed(log: seq<Command>, t: string): seq<Insertion> {
    if log == [] then []
    else
      Committed(log[..|log| - 1], t) +
      match EntryOf(log[|log| - 1])
      case None => []
      case Some(e) =>
        if e.tableName == t then [Insertion(e.tableName, e.dataHash, e.recordID, e.operationType, e.timestamp)] else []
  }

  /** The numbers some insert was numbered from have the greatest number there is by now. */
  ghost predicate HoldsGreatest(seen: set<nat>, numbers: set<nat>) {
    forall n :: IsMax(n, numbers) ==> n in seen
  }

  /** If the event commits an insert into t: when it was numbered, its node's store already had the
      greatest number committed for t by now. */
  ghost predicate CommitHoldsGreatest(c: Cluster, e: Event, t: string)
    requires IsTableName(t)
  {
    e.ProposalCommitted? && e.proposal.InsertProposal? && e.proposal.insert.tableName == t ==>
      HoldsGreatest(e.proposal.seen, View(Fold(c.log), t).Keys)
  }

  ghost predicate CommitsHoldGreatest(states: seq<Cluster>, events: seq<Event>, i: nat, t: string)
    requires i <= |events| <= |states| && IsTableName(t)
  {
    forall j :: 0 <= j < i ==> CommitHoldsGreatest(states[j], events[j], t)
  }

  /** A number is the next free one exactly when it was computed from all numbers, and, with the last
      numeral, there are fewer than ten. */
  lemma NextIsFreeIff(rule: Latest, n: nat, seen: set<nat>, q: nat)
    requires IsInitial(seen) && seen <= UpTo(q) && IsNext(rule, n, seen) && (rule.ByNumeral? ==> q <= 10)
    ensures n == q + 1 <==> HoldsGreatest(seen, UpTo(q)) && (rule.ByNumeral? ==> q < 10)
    ensures rule.ByNumeral? ==> n <= 10
    ensures rule.ByNumeral? && q == 10 && HoldsGreatest(seen, UpTo(q)) ==> n == 10
  {
    var m: nat :| seen == UpTo(m);
    UpToIsMonotone(m, q);
    if q > 0 {
      assert IsMax(q, UpTo(q));
    } else {
      assert UpTo(q) == {};
    }
    assert HoldsGreatest(seen, UpTo(q)) <==> m == q;
    if rule.ByNumeral? {
      NextByNumeral(m, n);
    } else if m > 0 {
      assert m in seen;
    } else {
      assert seen == {};
    }
  }

  // ---------------------------------------------------------------- one commit

  /** With a chain of q entries for at least as many inserts, one more commit leaves the chain gapless
      exactly when it was gapless before and the commit takes the next free number. */
  lemma GaplessAfterCommit(chain: Chain, inserts: seq<Insertion>, x: Insertion, n: nat, q: nat)
    requires chain.Keys == UpTo(q) && q <= |inserts| && 1 <= n <= q + 1
    ensures IsGapless(chain[n := EntryFor(x, n)], inserts + [x]) <==> IsGapless(chain, inserts) && n == q + 1
  {
    var after, all := chain[n := EntryFor(x, n)], inserts + [x];
    if IsGapless(after, all) {
      assert |inserts| + 1 in after.Keys;
      assert InRange(n, q + 1);
      assert n == q + 1 == |inserts| + 1;
      forall i | 1 <= i <= |inserts| ensures chain[i] == EntryFor(inserts[i - 1], i) {
        assert after[i] == EntryFor(all[i - 1], i);
      }
    }
    if IsGapless(chain, inserts) && n == q + 1 {
      UpToIsInjective(q, |inserts|);
      assert all[..|inserts|] == inserts;
      GaplessGrows(after, chain, all);
    }
  }

  /** What holds of a table's chain after any run, `held` saying whether every commit held the greatest
      number: it has no more entries than inserts, it is gapless exactly if all commits held and, with
      the decimal keys, there are at most ten; from then on it is stuck at ten. */
  ghost predicate Tallies(rule: Latest, chain: Chain, inserts: seq<Insertion>, held: bool, q: nat) {
    && chain.Keys == UpTo(q) && q <= |inserts| && (rule.ByNumeral? ==> q <= 10)
    && (IsGapless(chain, inserts) <==> held && (rule.ByNumeral? ==> |inserts| <= 10))
    && (held && rule.ByNumeral? && |inserts| >= 10 ==> IsStuckAtTen(chain, inserts))
  }

  lemma StuckAfterCommit(chain: Chain, inserts: seq<Insertion>, x: Insertion, n: nat, q: nat)
    requires chain.Keys == UpTo(q) && |inserts| >= 9
    requires if |inserts| == 9 then IsGapless(chain[n := EntryFor(x, n)], inserts + [x]) else IsStuckAtTen(chain, inserts) && n == 10
    ensures IsStuckAtTen(chain[n := EntryFor(x, n)], inserts + [x])
  {
    assert (inserts + [x])[..|inserts|] == inserts;
    if |inserts| > 9 {
      StaysAtTen(chain[n := EntryFor(x, n)], chain, inserts + [x]);
    }
  }

  lemma CommitTallies(rule: Latest, chain: Chain, inserts: seq<Insertion>, held: bool, q: nat,
                      x: Insertion, n: nat, seen: set<nat>)
    requires Tallies(rule, chain, inserts, held, q)
    requires IsInitial(seen) && seen <= chain.Keys && IsNext(rule, n, seen)
    ensures Tallies(rule, chain[n := EntryFor(x, n)], inserts + [x], held && HoldsGreatest(seen, chain.Keys), if n <= q then q else n)
  {
    NextIsFreeIff(rule, n, seen, q);
    NextIsAtMost(rule, n, seen, q);
    GaplessAfterCommit(chain, inserts, x, n, q);
    if held && HoldsGreatest(seen, chain.Keys) && rule.ByNumeral? && |inserts| >= 9 {
      if |inserts| > 9 { UpToIsInjective(q, 10); }
      StuckAfterCommit(chain, inserts, x, n, q);
    }
    if IsGapless(chain, inserts) {
      UpToIsInjective(q, |inserts|);
    }
    assert UpTo(q) + {n} == UpTo(if n <= q then q else n);
  }

  lemma NextIsAtMost(rule: Latest, n: nat, seen: set<nat>, q: nat)
    requires seen <= UpTo(q) && IsNext(rule, n, seen)
    ensures 1 <= n <= q + 1
  {
    if seen != {} {
      assert n - 1 in UpTo(q);
    }
  }

  // ---------------------------------------------------------------- runs

  lemma CommitAddsInsert(log: seq<Command>, p: Proposal, t: string)
    ensures Fold(log + [CommandOf(p)]) ==
      if p.InsertProposal? then Fold(log)[RecordKey(p.insert.tableName, p.number) := EntryFor(p.insert, p.number)] else Fold(log)
    ensures Committed(log + [CommandOf(p)], t) ==
      Committed(log, t) + if p.InsertProposal? && p.insert.tableName == t then [p.insert] else []
  {
    PrefixOfLonger(log, CommandOf(p), |log|);
    if p.InsertProposal? {
      InsertTravels(p.insert, p.number);
    }
    assert (log + [CommandOf(p)])[..|log|] == log;
  }

  ghost predicate LogTallies(rule: Latest, log: seq<Command>, t: string, held: bool, q: nat)
    requires IsTableName(t)
  {
    Tallies(rule, View(Fold(log), t), Committed(log, t), held, q)
  }

  predicate IsInsertInto(p: Proposal, t: string) {
    p.InsertProposal? && p.insert.tableName == t
  }

  lemma InsertTallies(rule: Latest, log: seq<Command>, p: Proposal, t: string, held: bool, q: nat)
    requires IsTableName(t) && LogTallies(rule, log, t, held, q) && IsInsertInto(p, t) && ProposalFits(rule, log, p, t)
    ensures LogTallies(rule, log + [CommandOf(p)], t, held && HoldsGreatest(p.seen, View(Fold(log), t).Keys),
                       if p.number <= q then q else p.number)
  {
    CommitAddsInsert(log, p, t);
    ViewAfterPut(Fold(log), p.insert.tableName, p.number, EntryFor(p.insert, p.number), t);
    CommitTallies(rule, View(Fold(log), t), Committed(log, t), held, q, p.insert, p.number, p.seen);
  }

  lemma OtherProposalTallies(rule: Latest, log: seq<Command>, p: Proposal, t: string, held: bool, q: nat)
    requires IsTableName(t) && LogTallies(rule, log, t, held, q) && !IsInsertInto(p, t)
    requires p.InsertProposal? ==> IsTableName(p.insert.tableName)
    ensures LogTallies(rule, log + [CommandOf(p)], t, held, q)
  {
    CommitAddsInsert(log, p, t);
    assert Committed(log, t) + [] == Committed(log, t);
    if p.InsertProposal? {
      ViewAfterPut(Fold(log), p.insert.tableName, p.number, EntryFor(p.insert, p.number), t);
    }
  }

  lemma CommitEventTallies(rule: Latest, c: Cluster, p: Proposal, t: string, held: bool, q: nat) returns (r: nat)
    requires IsTableName(t) && ProposalFits(rule, c.log, p, t) && LogTallies(rule, c.log, t, held, q)
    ensures LogTallies(rule, c.log + [CommandOf(p)], t, held && CommitHoldsGreatest(c, ProposalCommitted(p), t), r)
  {
    if IsInsertInto(p, t) {
      InsertTallies(rule, c.log, p, t, held, q);
      r := if p.number <= q then q else p.number;
    } else {
      OtherProposalTallies(rule, c.log, p, t, held, q);
      r := q;
    }
  }

  lemma OthersLeaveLog(rule: Latest, c: Cluster, e: Event, next: Cluster)
    requires Takes(rule, c, e, next) && !e.ProposalCommitted?
    ensures next.log == c.log
  {
  }

  ghost predicate LogIsTallied(rule: Latest, log: seq<Command>, t: string, held: bool)
    requires IsTableName(t)
  {
    exists q :: LogTallies(rule, log, t, held, q)
  }

  lemma EventTallies(rule: Latest, c: Cluster, e: Event, next: Cluster, t: string, held: bool)
    requires IsTableName(t) && Takes(rule, c, e, next) && LogIsTallied(rule, c.log, t, held)
    requires e.ProposalCommitted? ==> ProposalFits(rule, c.log, e.proposal, t)
    ensures LogIsTallied(rule, next.log, t, held && CommitHoldsGreatest(c, e, t))
  {
    var q :| LogTallies(rule, c.log, t, held, q);
    if e.ProposalCommitted? {
      var _ := CommitEventTallies(rule, c, e.proposal, t, held, q);
    } else {
      OthersLeaveLog(rule, c, e, next);
    }
  }

  lemma EmptyLogTallies(rule: Latest, t: string)
    requires IsTableName(t)
    ensures LogIsTallied(rule, [], t, true)
  {
    assert View(Fold([]), t).Keys == UpTo(0);
    assert LogTallies(rule, [], t, true, 0);
  }

  lemma CommitsHoldSoFar(states: seq<Cluster>, events: seq<Event>, i: nat, t: string)
    requires 0 < i <= |events| <= |states| && IsTableName(t)
    ensures CommitsHoldGreatest(states, events, i, t) <==>
      CommitsHoldGreatest(states, events, i - 1, t) && CommitHoldsGreatest(states[i - 1], events[i - 1], t)
  {
  }

  lemma NumberedEventTallies(rule: Latest, c: Cluster, e: Event, next: Cluster, t: string, held: bool)
    requires IsTableName(t) && IsNumbered(rule, c, t) && Takes(rule, c, e, next) && LogIsTallied(rule, c.log, t, held)
    ensures LogIsTallied(rule, next.log, t, held && CommitHoldsGreatest(c, e, t))
  {
    EventTallies(rule, c, e, next, t, held);
  }

  lemma StepTallies(rule: Latest, states: seq<Cluster>, events: seq<Event>, i: nat, t: string, held: bool)
    requires IsRun(rule, states, events) && i < |events| && IsTableName(t) && LogIsTallied(rule, states[i].log, t, held)
    ensures LogIsTallied(rule, states[i + 1].log, t, held && CommitHoldsGreatest(states[i], events[i], t))
  {
    RunIsNumbered(rule, states, events, i, t);
    assert Takes(rule, states[i], events[i], states[i + 1]);
    NumberedEventTallies(rule, states[i], events[i], states[i + 1], t, held);
  }

  lemma {:induction false} RunTallies(rule: Latest, states: seq<Cluster>, events: seq<Event>, i: nat, t: string)
    requires IsRun(rule, states, events) && i < |states| && IsTableName(t)
    ensures LogIsTallied(rule, states[i].log, t, CommitsHoldGreatest(states, events, i, t))
  {
    if i == 0 {
      EmptyLogTallies(rule, t);
    } else {
      RunTallies(rule, states, events, i - 1, t);
      CommitsHoldSoFar(states, events, i, t);
      StepTallies(rule, states, events, i - 1, t, CommitsHoldGreatest(states, events, i - 1, t));
    }
  }

  /** In every run: a table's committed inserts are its entries 1 to n exactly if, at each commit, the
      node that had numbered the insert had then held the greatest number committed by now, and, with
      the decimal keys, there are at most ten inserts. A table never has more entries than inserts, and
      with the decimal keys never more than ten. */
  lemma CommittedNumbers(rule: Latest, states: seq<Cluster>, events: seq<Event>, i: nat, t: string)
    requires IsRun(rule, states, events) && i < |states| && IsTableName(t)
    ensures var chain, inserts := View(Fold(states[i].log), t), Committed(states[i].log, t);
      && (IsGapless(chain, inserts) <==>
            CommitsHoldGreatest(states, events, i, t) && (rule.ByNumeral? ==> |inserts| <= 10))
      && (rule.ByNumeral? && |inserts| >= 10 && CommitsHoldGreatest(states, events, i, t) ==> IsStuckAtTen(chain, inserts))
      && |chain| <= |inserts| && (rule.ByNumeral? ==> |chain| <= 10)
  {
    RunTallies(rule, states, events, i, t);
    var q :| LogTallies(rule, states[i].log, t, CommitsHoldGreatest(states, events, i, t), q);
    UpToSize(q);
    assert |View(Fold(states[i].log), t)| == |View(Fold(states[i].log), t).Keys|;
  }

  /** A node that has applied the whole log numbers from all there is, so its number holds the greatest
      until another insert into the table is committed. */
  lemma CaughtUpHoldsAll(rule: Latest, states: seq<Cluster>, events: seq<Event>, i: nat, n: nat, t: string)
    requires IsRun(rule, states, events) && i < |states| && IsTableName(t)
    requires n in states[i].nodes && states[i].nodes[n].applied == |states[i].log|
    ensures NumbersAt(states[i], n, t) == View(Fold(states[i].log), t).Keys
  {
    NodesFollowLog(rule, states, events, i, n);
    assert states[i].log[..|states[i].log|] == states[i].log;
  }

  // ---------------------------------------------------------------- the handler's number

  lemma {:induction false} LogKeysArePrinted(log: seq<Command>)
    requires forall command :: command in log ==> IsNamed(command)
    ensures KeysArePrinted(Fold(log).Keys)
  {
    if log != [] {
      var last := |log| - 1;
      LogKeysArePrinted(log[..last]);
      assert IsNamed(log[last]);
      if EntryOf(log[last]).Some? {
        var e := EntryOf(log[last]).value;
        PutKeepsPrinted(Fold(log[..last]).Keys, e.tableName, e.sequenceNum);
        assert Fold(log).Keys == Fold(log[..last]).Keys + {RecordKey(e.tableName, e.sequenceNum)};
      }
    }
  }

  /** Entries under their own keys have the numbers their keys say. */
  lemma KeysTellNumbers(bucket: Bucket, t: string)
    requires IsTableName(t) && OwnKeys(bucket)
    ensures forall n :: n in View(bucket, t) ==> View(bucket, t)[n].sequenceNum == n
  {
    forall n | n in View(bucket, t).Keys ensures View(bucket, t)[n].sequenceNum == n {
      ViewAt(bucket, t, n);
      var e := bucket[RecordKey(t, n)];
      assert EntryKey(e) == RecordKey(t, n);
      KeyTellsNumber(e.tableName, e.sequenceNum, t, n);
    }
  }

  lemma StoreIsRegular(log: seq<Command>, node: NodeState, t: string)
    requires IsTableName(t) && NodeIsSound(log, node) && forall command :: command in log ==> IsNamed(command)
    ensures KeysArePrinted(node.hashChain.Keys)
    ensures forall n :: n in View(node.hashChain, t) ==> View(node.hashChain, t)[n].sequenceNum == n
  {
    LogKeysArePrinted(log);
    FoldKeysGrow(log, node.horizon, |log|);
    assert log[..|log|] == log;
    KeysTellNumbers(node.hashChain, t);
  }

  lemma NextIsUnique(m: nat, n: nat, numbers: set<nat>)
    requires IsNext(ByNumeral, m, numbers) && IsNext(ByNumeral, n, numbers)
    ensures m == n
  {
    if numbers != {} {
      DecimalLastIsUnique(numbers, m - 1, n - 1);
    }
  }

  /** In every run under the decimal keys a node's number is the one the handler computes from its
      store. */
  lemma NumbersAsHandler(states: seq<Cluster>, events: seq<Event>, i: nat)
    requires IsRun(ByNumeral, states, events) && i < |events| && events[i].InsertNumbered?
    ensures events[i].node in states[i].nodes
    ensures events[i].number == NextNumber(states[i].nodes[events[i].node].hashChain, events[i].insert.tableName)
  {
    var c, e := states[i], events[i];
    assert Takes(ByNumeral, c, e, states[i + 1]);
    var t, bucket := e.insert.tableName, c.nodes[e.node].hashChain;
    RunIsNumbered(ByNumeral, states, events, i, t);
    StoreIsRegular(c.log, c.nodes[e.node], t);
    NextNumberIsNext(bucket, t);
    NextIsUnique(e.number, NextNumber(bucket, t), View(bucket, t).Keys);
  }
}
