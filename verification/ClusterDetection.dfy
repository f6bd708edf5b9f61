/** What a pass on a node of a cluster tells: it compares the table with what the node has applied. */
module ClusterDetection {
  import opened Buckets
  import opened ClusterNumbering
  import opened Clusters
  import opened CommittedChains
  import opened Detection
  import opened Fsms
  import opened Hashing
  import opened LedgerMeanings
  import opened Ledgers
  import opened MerkleBinding
  import opened Numbering
  import opened Options
  import opened RecordIds
  import opened Storages
  import opened TableViews
  import opened VerificationPass

  // ---------------------------------------------------------------- prefixes of the log

  lemma LogGrowsByOne(rule: Latest, c: Cluster, e: Event, next: Cluster)
    requires Takes(rule, c, e, next)
    ensures next.log == c.log || (|next.log| == |c.log| + 1 && next.log[..|c.log|] == c.log)
  {
  }

  /** Every prefix of the log was once the whole log. */
  lemma {:induction false} PrefixWasLog(rule: Latest, states: seq<Cluster>, events: seq<Event>, i: nat, k: nat) returns (j: nat)
    requires IsRun(rule, states, events) && i < |states| && k <= |states[i].log|
    ensures j <= i && states[j].log == states[i].log[..k]
  {
    if k == |states[i].log| {
      j := i;
    } else {
      assert Takes(rule, states[i - 1], events[i - 1], states[i]);
      LogGrowsByOne(rule, states[i - 1], events[i - 1], states[i]);
      j := PrefixWasLog(rule, states, events, i - 1, k);
      assert states[i].log[..k] == states[i - 1].log[..k];
    }
  }

  lemma {:induction false} CommittedPrefix(log: seq<Command>, k: nat, t: string)
    requires k <= |log|
    ensures Committed(log[..k], t) <= Committed(log, t)
  {
    if k == |log| {
      assert log[..k] == log;
    } else {
      var n := |log| - 1;
      CommittedPrefix(log[..n], k, t);
      assert log[..n][..k] == log[..k];
    }
  }

  /** The condition under which the committed inserts of a table are its entries 1 to n. */
  ghost predicate IsNumberedWell(rule: Latest, states: seq<Cluster>, events: seq<Event>, i: nat, t: string)
    requires i < |states| && i <= |events| <= |states| && IsTableName(t)
  {
    CommitsHoldGreatest(states, events, i, t) && (rule.ByNumeral? ==> |Committed(states[i].log, t)| <= 10)
  }

  lemma PrefixIsGapless(rule: Latest, states: seq<Cluster>, events: seq<Event>, i: nat, k: nat, t: string)
    requires IsRun(rule, states, events) && i < |states| && IsTableName(t) && k <= |states[i].log|
    requires IsNumberedWell(rule, states, events, i, t)
    ensures IsGapless(View(Fold(states[i].log[..k]), t), Committed(states[i].log[..k], t))
  {
    var j := PrefixWasLog(rule, states, events, i, k);
    CommittedPrefix(states[i].log, k, t);
    CommittedNumbers(rule, states, events, j, t);
  }

  // ---------------------------------------------------------------- the rows behind the inserts

  /** The texts of the rows the inserts recorded; each reads back to the id of its printed key, and no
      id is inserted twice. */
  ghost predicate AreTextsOf(h: Hasher, idOf: string -> string, texts: seq<string>, inserts: seq<Insertion>) {
    && |texts| == |inserts|
    && (forall j :: 0 <= j < |texts| ==>
          inserts[j].dataHash == h.digest(texts[j]) && idOf(texts[j]) == ExtractID(inserts[j].recordID))
    && HaveOwnIds(idOf, texts)
  }

  /** The rows with these texts, by id. */
  function RowsWith(idOf: string -> string, texts: seq<string>): Table {
    if texts == [] then map[]
    else RowsWith(idOf, texts[..|texts| - 1])[idOf(texts[|texts| - 1]) := texts[|texts| - 1]]
  }

  ghost predicate HaveOwnIds(idOf: string -> string, texts: seq<string>) {
    forall i, j :: 0 <= i < j < |texts| ==> idOf(texts[i]) != idOf(texts[j])
  }

  /** The table holds each of the texts under its id, and nothing else. */
  ghost predicate HoldsTexts(idOf: string -> string, rows: Table, texts: seq<string>) {
    && (forall j :: 0 <= j < |texts| ==> idOf(texts[j]) in rows && rows[idOf(texts[j])] == texts[j])
    && (forall id :: id in rows ==> rows[id] in texts && idOf(rows[id]) == id)
    && |rows| == |texts|
  }

  lemma HoldsOneMore(idOf: string -> string, rows: Table, texts: seq<string>, text: string)
    requires HoldsTexts(idOf, rows, texts) && forall j :: 0 <= j < |texts| ==> idOf(texts[j]) != idOf(text)
    ensures HoldsTexts(idOf, rows[idOf(text) := text], texts + [text])
  {
    assert idOf(text) !in rows;
  }

  lemma LastHasOwnId(idOf: string -> string, texts: seq<string>)
    requires HaveOwnIds(idOf, texts) && texts != []
    ensures var init, last := texts[..|texts| - 1], texts[|texts| - 1];
      && texts == init + [last] && HaveOwnIds(idOf, init)
      && forall j :: 0 <= j < |init| ==> idOf(init[j]) != idOf(last)
  {
  }

  lemma {:induction false} RowsWithHolds(idOf: string -> string, texts: seq<string>)
    requires HaveOwnIds(idOf, texts)
    ensures HoldsTexts(idOf, RowsWith(idOf, texts), texts)
  {
    if texts != [] {
      var init, last := texts[..|texts| - 1], texts[|texts| - 1];
      LastHasOwnId(idOf, texts);
      RowsWithHolds(idOf, init);
      HoldsOneMore(idOf, RowsWith(idOf, init), init, last);
    }
  }

  /** Slots about these texts, in any order, record the rows with these texts. */
  lemma SlotsRecordRows(idOf: string -> string, listed: seq<Slot>, texts: seq<string>)
    requires SlotsReadBack(idOf, listed) && HaveOwnIds(idOf, texts)
    requires forall text :: text in SlotTexts(listed) <==> text in texts
    ensures RecordedRows(listed) == RowsWith(idOf, texts)
  {
    var recorded, rows := RecordedRows(listed), RowsWith(idOf, texts);
    RecordedFromSlots(idOf, listed);
    RowsWithHolds(idOf, texts);
    forall id | id in recorded ensures id in rows && rows[id] == recorded[id] {
      assert recorded[id] in texts && idOf(recorded[id]) == id;
      var j :| 0 <= j < |texts| && texts[j] == recorded[id];
    }
    forall id | id in rows ensures id in recorded {
      assert rows[id] in SlotTexts(listed);
      var i :| 0 <= i < |listed| && SlotTexts(listed)[i] == rows[id];
      assert idOf(listed[i].text) == id;
    }
  }

  function SlotFor(inserts: seq<Insertion>, texts: seq<string>, number: nat): Slot
    requires InRange(number, |inserts|) && |inserts| == |texts|
  {
    Slot(number, inserts[number - 1].recordID, texts[number - 1])
  }

  /** An order of the numbers 1 to n. */
  ghost predicate IsOrderOf(order: seq<nat>, n: nat) {
    (forall k :: k in order <==> InRange(k, n)) && forall i :: 0 <= i < |order| ==> InRange(order[i], n)
  }

  function SlotsInOrder(inserts: seq<Insertion>, texts: seq<string>, order: seq<nat>): (r: seq<Slot>)
    requires |inserts| == |texts| && forall i :: 0 <= i < |order| ==> InRange(order[i], |inserts|)
    ensures |r| == |order| && forall i :: 0 <= i < |r| ==> r[i] == SlotFor(inserts, texts, order[i])
  {
    seq(|order|, i requires 0 <= i < |order| => SlotFor(inserts, texts, order[i]))
  }

  lemma SlotsHaveTexts(inserts: seq<Insertion>, texts: seq<string>, order: seq<nat>)
    requires |inserts| == |texts| && IsOrderOf(order, |inserts|)
    ensures forall text :: text in SlotTexts(SlotsInOrder(inserts, texts, order)) <==> text in texts
  {
    var listed := SlotsInOrder(inserts, texts, order);
    forall text | text in texts ensures text in SlotTexts(listed) {
      var j :| 0 <= j < |texts| && texts[j] == text;
      assert InRange(j + 1, |inserts|);
      var i :| 0 <= i < |order| && order[i] == j + 1;
      assert SlotTexts(listed)[i] == text;
    }
    forall text | text in SlotTexts(listed) ensures text in texts {
      var i :| 0 <= i < |listed| && SlotTexts(listed)[i] == text;
      assert text == texts[order[i] - 1];
    }
  }

  lemma SlotMatches(h: Hasher, inserts: seq<Insertion>, texts: seq<string>, number: nat)
    requires InRange(number, |inserts|) && |inserts| == |texts| && inserts[number - 1].dataHash == h.digest(texts[number - 1])
    ensures Matches(h, EntryFor(inserts[number - 1], number), SlotFor(inserts, texts, number))
  {
  }

  /** The slots a scan of the gapless chain lists. */
  lemma ScanListsInserts(h: Hasher, idOf: string -> string, bucket: map<string, HashEntry>, t: string,
                         inserts: seq<Insertion>, texts: seq<string>) returns (listed: seq<Slot>)
    requires IsTableName(t) && KeysArePrinted(bucket.Keys) && IsGapless(View(bucket, t), inserts)
    requires AreTextsOf(h, idOf, texts, inserts)
    ensures AllMatch(h, Scan(bucket, t + ":"), listed) && SlotsReadBack(idOf, listed)
    ensures forall text :: text in SlotTexts(listed) <==> text in texts
  {
    var order := PrefixScanIsTable(bucket, t);
    assert forall k :: k in order <==> k in UpTo(|inserts|);
    forall i | 0 <= i < |order| ensures InRange(order[i], |inserts|) {
      assert order[i] in order;
    }
    listed := SlotsInOrder(inserts, texts, order);
    SlotsHaveTexts(inserts, texts, order);
    forall i | 0 <= i < |order| ensures Matches(h, Scan(bucket, t + ":")[i], listed[i]) {
      SlotMatches(h, inserts, texts, order[i]);
    }
  }

  // ---------------------------------------------------------------- the pass

  /** The strings hashed for a pass without a leaf map, and for the rows behind it. */
  ghost function NodePassTexts(h: Hasher, rows: seq<Row>, table: Table, entries: seq<HashEntry>, texts: seq<string>): set<string> {
    table.Values + (set text | text in texts) + BuildTexts(h, RowLeaves(h, rows)) + BuildTexts(h, EntryLeaves(entries))
  }

  lemma PassTextsWithin(h: Hasher, idOf: string -> string, rows: seq<Row>, table: Table, entries: seq<HashEntry>,
                        listed: seq<Slot>, texts: seq<string>)
    requires AllMatch(h, entries, listed) && SlotsReadBack(idOf, listed)
    requires forall text :: text in SlotTexts(listed) <==> text in texts
    ensures PassTextsOf(h, rows, listed, None, table) <= NodePassTexts(h, rows, table, entries, texts)
  {
    RecordedFromSlots(idOf, listed);
    ExpectedAreDigests(h, entries, None, listed, None);
    forall text | text in RecordedRows(listed).Values ensures text in texts {
      var id :| id in RecordedRows(listed) && RecordedRows(listed)[id] == text;
    }
  }

  /** A pass over a gapless chain, without a leaf map, tells whether the table is made of its rows. */
  lemma GaplessPassIff(h: Hasher, idOf: string -> string, bucket: map<string, HashEntry>, t: string, inserts: seq<Insertion>,
                       texts: seq<string>, rows: seq<Row>, table: Table, cp: Option<MerkleCheckpoint>)
    requires IsTableName(t) && KeysArePrinted(bucket.Keys) && IsGapless(View(bucket, t), inserts)
    requires AreTextsOf(h, idOf, texts, inserts) && Lists(rows, table) && ReadsBack(idOf, table) && !HasLeafMap(cp)
    requires !Collides(h, NodePassTexts(h, rows, table, Scan(bucket, t + ":"), texts))
    ensures !Judge(h, rows, Scan(bucket, t + ":"), cp).Tampered? <==> inserts == [] || table == RowsWith(idOf, texts)
  {
    var entries := Scan(bucket, t + ":");
    var listed := ScanListsInserts(h, idOf, bucket, t, inserts, texts);
    PassTextsWithin(h, idOf, rows, table, entries, listed, texts);
    if Collides(h, PassTextsOf(h, rows, listed, None, table)) {
      CollidesIsMonotone(h, PassTextsOf(h, rows, listed, None, table), NodePassTexts(h, rows, table, entries, texts));
    }
    JudgeFollowsRule(h, rows, entries, cp, listed, None, table);
    WithoutLeafMapIff(idOf, listed, table);
    SlotsRecordRows(idOf, listed, texts);
    NothingListedIff(listed, texts);
  }

  lemma NothingListedIff(listed: seq<Slot>, texts: seq<string>)
    requires forall text :: text in SlotTexts(listed) <==> text in texts
    ensures listed == [] <==> texts == []
  {
    assert (listed != [] ==> SlotTexts(listed)[0] in SlotTexts(listed)) && (texts != [] ==> texts[0] in texts);
  }

  /** In every run: a pass without a leaf map on a settled node, whose table's committed inserts are
      numbered well, succeeds exactly when the table is what the prefix of the log that the node has
      applied recorded, or when that prefix recorded nothing. */
  lemma NodePassIff(rule: Latest, states: seq<Cluster>, events: seq<Event>, i: nat, n: nat, t: string,
                    h: Hasher, idOf: string -> string, texts: seq<string>, rows: seq<Row>, table: Table, cp: Option<MerkleCheckpoint>)
    requires IsRun(rule, states, events) && i < |states| && IsTableName(t) && IsNumberedWell(rule, states, events, i, t)
    requires n in states[i].nodes && IsSettled(states[i], states[i].nodes[n]) && states[i].nodes[n].applied <= |states[i].log|
    requires AreTextsOf(h, idOf, texts, Committed(states[i].log[..states[i].nodes[n].applied], t))
    requires Lists(rows, table) && ReadsBack(idOf, table) && !HasLeafMap(cp)
    requires !Collides(h, NodePassTexts(h, rows, table, Scan(states[i].nodes[n].hashChain, t + ":"), texts))
    ensures !Judge(h, rows, Scan(states[i].nodes[n].hashChain, t + ":"), cp).Tampered? <==>
            texts == [] || table == RowsWith(idOf, texts)
  {
    var c, node := states[i], states[i].nodes[n];
    NodesFollowLog(rule, states, events, i, n);
    PrefixIsGapless(rule, states, events, i, node.applied, t);
    RunIsNumbered(rule, states, events, i, t);
    NodeIsRegular(rule, c, n, t);
    StoreIsRegular(c.log, node, t);
    GaplessPassIff(h, idOf, node.hashChain, t, Committed(c.log[..node.applied], t), texts, rows, table, cp);
  }

  lemma PrefixOfTexts(h: Hasher, idOf: string -> string, texts: seq<string>, inserts: seq<Insertion>, some: seq<Insertion>)
    requires AreTextsOf(h, idOf, texts, inserts) && some <= inserts
    ensures AreTextsOf(h, idOf, texts[..|some|], some)
  {
  }

  lemma RowsOfPrefix(idOf: string -> string, texts: seq<string>, k: nat)
    requires HaveOwnIds(idOf, texts) && k <= |texts|
    ensures ReadsBack(idOf, RowsWith(idOf, texts))
    ensures RowsWith(idOf, texts) == RowsWith(idOf, texts[..k]) <==> k == |texts|
  {
    RowsWithHolds(idOf, texts);
    RowsWithHolds(idOf, texts[..k]);
    assert k == |texts| ==> texts[..k] == texts;
  }

  lemma PassTextsOfPrefix(h: Hasher, rows: seq<Row>, table: Table, entries: seq<HashEntry>, texts: seq<string>, k: nat)
    requires k <= |texts| && !Collides(h, NodePassTexts(h, rows, table, entries, texts))
    ensures !Collides(h, NodePassTexts(h, rows, table, entries, texts[..k]))
  {
    if Collides(h, NodePassTexts(h, rows, table, entries, texts[..k])) {
      CollidesIsMonotone(h, NodePassTexts(h, rows, table, entries, texts[..k]), NodePassTexts(h, rows, table, entries, texts));
    }
  }

  /** So over a table that shows exactly what the whole log recorded, such a node passes exactly if it
      has applied no insert into it or all of them: a lagging node reports the rows it has not seen. */
  lemma LaggingNodeReports(rule: Latest, states: seq<Cluster>, events: seq<Event>, i: nat, n: nat, t: string,
                           h: Hasher, idOf: string -> string, texts: seq<string>, rows: seq<Row>, cp: Option<MerkleCheckpoint>)
    requires IsRun(rule, states, events) && i < |states| && IsTableName(t) && IsNumberedWell(rule, states, events, i, t)
    requires n in states[i].nodes && IsSettled(states[i], states[i].nodes[n]) && states[i].nodes[n].applied <= |states[i].log|
    requires AreTextsOf(h, idOf, texts, Committed(states[i].log, t)) && Lists(rows, RowsWith(idOf, texts)) && !HasLeafMap(cp)
    requires !Collides(h, NodePassTexts(h, rows, RowsWith(idOf, texts), Scan(states[i].nodes[n].hashChain, t + ":"), texts))
    ensures var seen := |Committed(states[i].log[..states[i].nodes[n].applied], t)|;
      !Judge(h, rows, Scan(states[i].nodes[n].hashChain, t + ":"), cp).Tampered? <==> seen == 0 || seen == |texts|
  {
    var log, applied := states[i].log, states[i].nodes[n].applied;
    CommittedPrefix(log, applied, t);
    var entries, some := Scan(states[i].nodes[n].hashChain, t + ":"), texts[..|Committed(log[..applied], t)|];
    PrefixOfTexts(h, idOf, texts, Committed(log, t), Committed(log[..applied], t));
    PassTextsOfPrefix(h, rows, RowsWith(idOf, texts), entries, texts, |some|);
    RowsOfPrefix(idOf, texts, |some|);
    NodePassIff(rule, states, events, i, n, t, h, idOf, some, rows, RowsWith(idOf, texts), cp);
  }
}
