/** What verification detects, pass by pass and over whole runs. */
module DetectionRuns {
  import opened ChainHashes
  import opened Detection
  import opened Hashing
  import opened MerkleBinding
  import opened Options
  import opened RecordIds
  import opened Storages
  import opened TableViews
  import opened VerificationPass

  // ---------------------------------------------------------------- one pass

  /** Roots and counts compare as the leaves do, unless the two trees show a collision. */
  lemma RootsTellLeaves(h: Hasher, a: seq<string>, b: seq<string>)
    requires b != [] && AllWidth(h, a) && AllWidth(h, b)
    requires !Collides(h, BuildTexts(h, a) + BuildTexts(h, b))
    ensures SameRootAndSize(h, a, b) <==> multiset(a) == multiset(b)
  {
    if a == [] {
      assert |multiset(a)| == 0 < |multiset(b)|;
    } else {
      RootAndCountBind(h, a, b);
    }
  }

  ghost predicate AllOfWidth(h: Hasher, hashes: multiset<string>) {
    forall x :: x in hashes ==> |x| == h.width
  }

  lemma HashesHaveWidth(h: Hasher, leaves: seq<string>, extra: multiset<string>, r: Table)
    requires multiset(leaves) == extra + Hashes(h, r) && AllOfWidth(h, extra)
    ensures AllWidth(h, leaves) && |leaves| == |extra| + |r|
  {
    HashesSize(h, r);
    assert |leaves| == |multiset(leaves)|;
    forall x | x in leaves ensures |x| == h.width {
      assert x in multiset(leaves);
    }
  }

  /** Which verdict three tests lead to, tried in turn. */
  predicate Judged(verdict: Verdict, nothingExpected: bool, rootsMatch: bool, mapsMatch: bool) {
    && (verdict.Initial? <==> nothingExpected)
    && (verdict.RootsMatch? <==> !nothingExpected && rootsMatch)
    && (verdict.DetailsMatch? <==> !nothingExpected && !rootsMatch && mapsMatch)
  }

  /** The verdict of a pass, in terms of what the two sides' leaves stand for. */
  lemma VerdictByHashes(h: Hasher, verdict: Verdict, actual: seq<string>, expected: seq<string>,
                        table: Table, extra: multiset<string>, recorded: Table)
    requires multiset(expected) == extra + Hashes(h, recorded) && multiset(actual) == Hashes(h, table)
    requires AllWidth(h, actual) && AllOfWidth(h, extra) && !Collides(h, BuildTexts(h, actual) + BuildTexts(h, expected))
    requires Judged(verdict, expected == [], SameRootAndSize(h, actual, expected), RowHashes(h, recorded) == RowHashes(h, table))
    ensures Judged(verdict, |extra| + |recorded| == 0,
                   Hashes(h, table) == extra + Hashes(h, recorded), RowHashes(h, recorded) == RowHashes(h, table))
  {
    HashesHaveWidth(h, expected, extra, recorded);
    if expected != [] {
      RootsTellLeaves(h, actual, expected);
    }
  }

  lemma JudgeIs(h: Hasher, rows: seq<Row>, entries: seq<HashEntry>, cp: Option<MerkleCheckpoint>, expected: seq<string>)
    requires expected == ExpectedLeaves(entries, cp)
    ensures Judged(Judge(h, rows, entries, cp), expected == [], SameRootAndSize(h, RowLeaves(h, rows), expected),
                   ChainMap(entries) == RowMap(h, rows))
    ensures var verdict := Judge(h, rows, entries, cp);
      verdict.Initial? || verdict.RootsMatch? ==> verdict.tree == PgTree(h, rows)
  {
  }

  /** What a pass over a sound history finds. */
  lemma PassReads(h: Hasher, idOf: string -> string, s: History, step: Step)
    requires Sound(h, idOf, s) && Enabled(idOf, s, step) && step.Verify?
    ensures multiset(ExpectedLeaves(step.entries, Newest(s.checkpoints))) == (Hashes(h, s.adopted) + Twice(s)) + Hashes(h, s.recorded)
    ensures multiset(RowLeaves(h, step.rows)) == Hashes(h, s.table) && RowMap(h, step.rows) == RowHashes(h, s.table)
    ensures ChainMap(step.entries) == RowHashes(h, s.recorded)
  {
    ExpectedShowsHistory(h, s, step.entries);
    RowsShowTable(h, step.rows, s.table);
    ChainShowsRecorded(h, step.entries, s.chain, s.recorded);
  }

  lemma PassIsJudged(h: Hasher, s: History, step: Step, verdict: Verdict, expected: seq<string>)
    requires step.Verify? && verdict == VerdictOf(h, s, step)
    requires expected == ExpectedLeaves(step.entries, Newest(s.checkpoints))
    requires RowMap(h, step.rows) == RowHashes(h, s.table) && ChainMap(step.entries) == RowHashes(h, s.recorded)
    ensures Judged(verdict, expected == [], SameRootAndSize(h, RowLeaves(h, step.rows), expected),
                   RowHashes(h, s.recorded) == RowHashes(h, s.table))
  {
    JudgeIs(h, step.rows, step.entries, Newest(s.checkpoints), expected);
  }

  lemma PassTexts(h: Hasher, s: History, step: Step, actual: seq<string>, expected: seq<string>)
    requires step.Verify? && !Collides(h, StepTexts(h, s, step))
    requires actual == RowLeaves(h, step.rows) && expected == ExpectedLeaves(step.entries, Newest(s.checkpoints))
    ensures AllWidth(h, actual) && !Collides(h, BuildTexts(h, actual) + BuildTexts(h, expected))
  {
    var built := BuildTexts(h, actual) + BuildTexts(h, expected);
    if Collides(h, built) { CollidesIsMonotone(h, built, StepTexts(h, s, step)); }
  }

  /** The verdict of a pass over a sound history, in terms of hashes. */
  lemma PassVerdict(h: Hasher, idOf: string -> string, s: History, step: Step, verdict: Verdict)
    requires Sound(h, idOf, s) && Enabled(idOf, s, step) && step.Verify? && verdict == VerdictOf(h, s, step)
    requires !Collides(h, StepTexts(h, s, step))
    ensures Judged(verdict, |Hashes(h, s.adopted) + Twice(s)| + |s.recorded| == 0,
                   Hashes(h, s.table) == (Hashes(h, s.adopted) + Twice(s)) + Hashes(h, s.recorded),
                   RowHashes(h, s.recorded) == RowHashes(h, s.table))
  {
    var actual, expected := RowLeaves(h, step.rows), ExpectedLeaves(step.entries, Newest(s.checkpoints));
    PassReads(h, idOf, s, step);
    PassTexts(h, s, step, actual, expected);
    PassIsJudged(h, s, step, verdict, expected);
    ExtraHasWidth(h, s);
    VerdictByHashes(h, verdict, actual, expected, s.table, Hashes(h, s.adopted) + Twice(s), s.recorded);
  }

  lemma ExtraHasWidth(h: Hasher, s: History)
    requires CheckpointIsSound(h, s) && AllHashes(s.chain) == Hashes(h, s.recorded)
    ensures AllOfWidth(h, Hashes(h, s.adopted) + Twice(s))
  {
    HashesSize(h, s.adopted);
    HashesSize(h, s.recorded);
    TwiceIsRecorded(h, s);
  }

  /** What is counted twice was recorded; it is empty exactly when nothing is counted twice. */
  lemma TwiceIsRecorded(h: Hasher, s: History)
    requires CheckpointIsSound(h, s) && AllHashes(s.chain) == Hashes(h, s.recorded)
    ensures forall x :: x in Twice(s) ==> x in Hashes(h, s.recorded)
    ensures CountsTwice(s) <==> Twice(s) != multiset{}
  {
    if CountsTwice(s) {
      var k := Newest(s.checkpoints).value.sequenceNum;
      var part := s.chain[k..s.reach];
      assert EntryLeaves(part)[0] in AllHashes(part);
      forall x | x in AllHashes(part) ensures x in AllHashes(s.chain) {
        var i :| 0 <= i < |part| && EntryLeaves(part)[i] == x;
        assert EntryLeaves(s.chain)[k + i] == x;
      }
    }
  }

  /** Without collisions a table has no row hash twice. */
  lemma RowHashesDiffer(h: Hasher, idOf: string -> string, rows: Table, x: string)
    requires RowsReadBack(rows, idOf) && !Collides(h, rows.Values)
    ensures Hashes(h, rows)[x] <= 1
  {
    HashesSize(h, rows);
    if x in Hashes(h, rows) {
      var id :| id in rows && h.digest(rows[id]) == x;
      var rest := rows - {id};
      PutBack(rows, id);
      HashesPut(h, rest, id, rows[id]);
      HashesSize(h, rest);
      forall k | k in rest ensures h.digest(rest[k]) != x {
        assert rows[k] in rows.Values && rows[id] in rows.Values && idOf(rows[k]) == k;
      }
    }
  }

  /** So a table never matches hashes of which some are counted twice. */
  lemma TwiceNeverMatches(h: Hasher, table: multiset<string>, adopted: multiset<string>, twice: multiset<string>, recorded: multiset<string>)
    requires forall x :: table[x] <= 1
    requires twice != multiset{} && forall x :: x in twice ==> x in recorded
    ensures table != (adopted + twice) + recorded
  {
    var x :| x in twice;
    assert ((adopted + twice) + recorded)[x] >= 2;
  }

  lemma MatchMeansOnce(h: Hasher, idOf: string -> string, s: History)
    requires CheckpointIsSound(h, s) && AllHashes(s.chain) == Hashes(h, s.recorded) && IsTable(s.table, idOf)
    requires !Collides(h, s.table.Values)
    ensures Hashes(h, s.table) == (Hashes(h, s.adopted) + Twice(s)) + Hashes(h, s.recorded) <==>
            !CountsTwice(s) && Hashes(h, s.table) == Hashes(h, s.adopted) + Hashes(h, s.recorded)
    ensures |Hashes(h, s.adopted) + Twice(s)| + |s.recorded| == 0 <==> s.recorded == map[] && s.adopted == map[]
  {
    TwiceIsRecorded(h, s);
    HashesSize(h, s.adopted);
    HashesSize(h, s.recorded);
    if CountsTwice(s) {
      forall x ensures Hashes(h, s.table)[x] <= 1 {
        RowHashesDiffer(h, idOf, s.table, x);
      }
      TwiceNeverMatches(h, Hashes(h, s.table), Hashes(h, s.adopted), Twice(s), Hashes(h, s.recorded));
    } else {
      AddNothing(Hashes(h, s.adopted));
    }
  }

  /** The verdict of a pass, in terms of rows instead of hashes. */
  lemma VerdictIsExact(h: Hasher, idOf: string -> string, s: History, step: Step)
    requires Sound(h, idOf, s) && Enabled(idOf, s, step) && step.Verify?
    requires !Collides(h, StepTexts(h, s, step))
    ensures var verdict := VerdictOf(h, s, step);
      && (verdict.Initial? <==> s.recorded == map[] && s.adopted == map[])
      && (verdict.RootsMatch? ==> Hashes(h, s.table) == Hashes(h, s.adopted) + Hashes(h, s.recorded))
      && (!verdict.Tampered? <==> Deserves(s))
  {
    PassVerdict(h, idOf, s, step, VerdictOf(h, s, step));
    if Collides(h, s.table.Values) { CollidesIsMonotone(h, s.table.Values, StepTexts(h, s, step)); }
    MatchMeansOnce(h, idOf, s);
    RowsDecide(h, idOf, s, StepTexts(h, s, step));
  }

  /** Without collisions, comparing hashes is comparing rows. */
  lemma RowsDecide(h: Hasher, idOf: string -> string, s: History, all: set<string>)
    requires IsTable(s.table, idOf) && IsTable(s.recorded, idOf) && IsTable(s.adopted, idOf)
    requires !Collides(h, all) && s.table.Values + s.recorded.Values + s.adopted.Values <= all
    ensures Hashes(h, s.table) == Hashes(h, s.adopted) + Hashes(h, s.recorded) <==>
      (s.adopted.Keys !! s.recorded.Keys && s.table == s.adopted + s.recorded)
    ensures RowHashes(h, s.recorded) == RowHashes(h, s.table) <==> s.table == s.recorded
  {
    var rows := s.table.Values + s.recorded.Values + s.adopted.Values;
    if Collides(h, rows) { CollidesIsMonotone(h, rows, all); }
    SameHashesIff(h, idOf, s.table, s.adopted, s.recorded);
    var two := s.recorded.Values + s.table.Values;
    if Collides(h, two) { CollidesIsMonotone(h, two, all); }
    SameRowHashesIff(h, s.recorded, s.table);
  }

  /** Without adopted rows a pass succeeds exactly on the recorded table, except when the chain is
      still empty and the table is not: that pass takes over whatever it finds. */
  lemma PassTellsTableIff(h: Hasher, idOf: string -> string, s: History, step: Step)
    requires Sound(h, idOf, s) && Enabled(idOf, s, step) && step.Verify? && s.adopted == map[]
    requires !Collides(h, StepTexts(h, s, step))
    ensures (!VerdictOf(h, s, step).Tampered? <==> s.table == s.recorded) <==>
            (s.recorded != map[] || s.table == map[])
  {
    VerdictIsExact(h, idOf, s, step);
    DeservesWithoutAdopted(s);
  }

  lemma DeservesWithoutAdopted(s: History)
    requires s.adopted == map[]
    ensures Deserves(s) <==> s.recorded == map[] || s.table == s.recorded
  {
    assert s.adopted + s.recorded == s.recorded;
  }

  // ---------------------------------------------------------------- what steps keep

  lemma ChainKeepsKeys(h: Hasher, chain: seq<HashEntry>, recorded: Table, entry: HashEntry)
    requires Numbered(chain) && DistinctKeys(chain)
    requires forall i :: 0 <= i < |chain| ==> Tells(h, chain[i], recorded)
    requires entry.sequenceNum == |chain| + 1 && IsPrinted(entry.recordID) && ExtractID(entry.recordID) !in recorded
    ensures Numbered(chain + [entry]) && DistinctKeys(chain + [entry])
  {
    forall i | 0 <= i < |chain| ensures ExtractID(chain[i].recordID) != ExtractID(entry.recordID) {
      assert Tells(h, chain[i], recorded);
    }
  }

  lemma ChainKeepsTelling(h: Hasher, chain: seq<HashEntry>, recorded: Table, entry: HashEntry, id: string, text: string)
    requires forall i :: 0 <= i < |chain| ==> Tells(h, chain[i], recorded)
    requires forall k :: k in recorded ==> Mentions(chain, k)
    requires ExtractID(entry.recordID) == id && id !in recorded && entry.dataHash == h.digest(text)
    ensures forall i :: 0 <= i < |chain + [entry]| ==> Tells(h, (chain + [entry])[i], recorded[id := text])
    ensures forall k :: k in recorded[id := text] ==> Mentions(chain + [entry], k)
  {
    var longer := chain + [entry];
    forall i | 0 <= i < |longer| ensures Tells(h, longer[i], recorded[id := text]) {
      if i < |chain| { assert Tells(h, chain[i], recorded); }
    }
    forall k | k in recorded[id := text].Keys ensures Mentions(longer, k) {
      if k == id {
        assert ExtractID(longer[|chain|].recordID) == k;
      } else {
        assert Mentions(chain, k);
        var i :| 0 <= i < |chain| && ExtractID(chain[i].recordID) == k;
        assert ExtractID(longer[i].recordID) == k;
      }
    }
  }

  lemma ChainGrows(h: Hasher, chain: seq<HashEntry>, recorded: Table, entry: HashEntry, id: string, text: string)
    requires ChainRecords(h, chain, recorded) && id !in recorded
    requires entry.sequenceNum == |chain| + 1 && entry.dataHash == h.digest(text)
    requires IsPrinted(entry.recordID) && ExtractID(entry.recordID) == id
    ensures ChainRecords(h, chain + [entry], recorded[id := text])
  {
    ChainKeepsKeys(h, chain, recorded, entry);
    ChainKeepsTelling(h, chain, recorded, entry, id, text);
    AppendEntry(chain, entry, 0);
    HashesPut(h, recorded, id, text);
  }

  lemma DropsLastRow(h: Hasher, init: seq<HashEntry>, last: HashEntry, recorded: Table, gone: string)
    requires AllHashes(init + [last]) == Hashes(h, recorded) && gone in recorded && last.dataHash == h.digest(recorded[gone])
    ensures AllHashes(init) == Hashes(h, recorded - {gone})
    ensures AllHashes(init + [last]) == AllHashes(init) + multiset{h.digest(recorded[gone])}
  {
    AppendEntry(init, last, 0);
    PutBack(recorded, gone);
    HashesPut(h, recorded - {gone}, gone, recorded[gone]);
    TakeOne(AllHashes(init), Hashes(h, recorded - {gone}), last.dataHash);
  }

  lemma TakeOne(a: multiset<string>, b: multiset<string>, x: string)
    requires a + multiset{x} == b + multiset{x}
    ensures a == b
  {
    forall y ensures a[y] == b[y] {
      assert (a + multiset{x})[y] == (b + multiset{x})[y];
    }
  }

  lemma DropKeepsTelling(h: Hasher, init: seq<HashEntry>, last: HashEntry, recorded: Table)
    requires DistinctKeys(init + [last])
    requires forall i :: 0 <= i < |init + [last]| ==> Tells(h, (init + [last])[i], recorded)
    requires forall id :: id in recorded ==> Mentions(init + [last], id)
    ensures DistinctKeys(init)
    ensures forall i :: 0 <= i < |init| ==> Tells(h, init[i], recorded - {ExtractID(last.recordID)})
    ensures forall id :: id in recorded - {ExtractID(last.recordID)} ==> Mentions(init, id)
  {
    var all, gone := init + [last], ExtractID(last.recordID);
    assert all[|init|] == last;
    forall i | 0 <= i < |init| ensures all[i] == init[i] && Tells(h, init[i], recorded - {gone}) {
      assert Tells(h, all[i], recorded) && ExtractID(all[i].recordID) != ExtractID(all[|init|].recordID);
    }
    forall id | id in (recorded - {gone}).Keys ensures Mentions(init, id) {
      assert Mentions(all, id);
      var i :| 0 <= i < |all| && ExtractID(all[i].recordID) == id;
      assert init[i] == all[i];
    }
  }

  /** Without its last entry a chain records the rows without that entry's. */
  lemma ChainDrops(h: Hasher, init: seq<HashEntry>, last: HashEntry, recorded: Table)
    requires ChainRecords(h, init + [last], recorded)
    ensures var gone := ExtractID(last.recordID);
      && gone in recorded && ChainRecords(h, init, recorded - {gone})
      && AllHashes(init + [last]) == AllHashes(init) + multiset{h.digest(recorded[gone])}
  {
    var all := init + [last];
    assert all[|init|] == last && Tells(h, all[|init|], recorded);
    forall i | 0 <= i < |init| ensures init[i].sequenceNum == i + 1 {
      assert init[i] == all[i];
    }
    DropKeepsTelling(h, init, last, recorded);
    DropsLastRow(h, init, last, recorded, ExtractID(last.recordID));
  }

  lemma InsertKeepsChain(h: Hasher, s: History, step: Step)
    requires step.Insert? && step.id !in s.recorded && IsPrinted(step.recordID) && ExtractID(step.recordID) == step.id
    requires ChainRecords(h, s.chain, s.recorded)
    ensures ChainRecords(h, After(h, s, step).chain, After(h, s, step).recorded)
  {
    ChainGrows(h, s.chain, s.recorded, InsertedEntry(h, s, step), step.id, step.text);
  }

  lemma LastIsReplaced(h: Hasher, init: seq<HashEntry>, last: HashEntry, recorded: Table,
                       entry: HashEntry, id: string, text: string)
    requires ChainRecords(h, init + [last], recorded) && id !in recorded
    requires entry.sequenceNum == |init| + 1 && entry.dataHash == h.digest(text)
    requires IsPrinted(entry.recordID) && ExtractID(entry.recordID) == id
    ensures ChainRecords(h, init + [entry], (recorded - {ExtractID(last.recordID)})[id := text])
  {
    ChainDrops(h, init, last, recorded);
    ChainGrows(h, init, recorded - {ExtractID(last.recordID)}, entry, id, text);
  }

  /** What an overwriting insert makes of a history whose chain ends in `last`. */
  lemma OverwriteReplaces(h: Hasher, s: History, step: Step, init: seq<HashEntry>, last: HashEntry, next: History)
    requires step.Overwrite? && s.chain == init + [last] && next == AfterOverwrite(h, s, step)
    ensures var gone := ExtractID(last.recordID);
      && LastID(s) == gone && next.checkpoints == s.checkpoints
      && next.chain == init + [InsertedEntry(h, s, step)] && next.recorded == (s.recorded - {gone})[step.id := step.text]
      && next.reach == (if LeafMapKeepsLast(s) then |init| else s.reach)
      && (gone in s.recorded ==>
            next.adopted == if LeafMapKeepsLast(s) then s.adopted[gone := s.recorded[gone]] else s.adopted)
  {
    assert s.chain[|s.chain| - 1] == last && s.chain[..|s.chain| - 1] == init;
  }

  lemma OverwriteKeepsChain(h: Hasher, s: History, step: Step, init: seq<HashEntry>, last: HashEntry, next: History)
    requires step.Overwrite? && step.id !in s.recorded && IsPrinted(step.recordID) && ExtractID(step.recordID) == step.id
    requires s.chain == init + [last] && ChainRecords(h, s.chain, s.recorded) && next == AfterOverwrite(h, s, step)
    ensures ChainRecords(h, next.chain, next.recorded)
  {
    OverwriteReplaces(h, s, step, init, last, next);
    LastIsReplaced(h, init, last, s.recorded, InsertedEntry(h, s, step), step.id, step.text);
  }

  lemma InsertKeepsCheckpoints(h: Hasher, s: History, step: Step)
    requires step.Insert? && CheckpointIsSound(h, s)
    ensures CheckpointIsSound(h, After(h, s, step))
  {
    if HasLeafMap(Newest(s.checkpoints)) {
      assert (s.chain + [InsertedEntry(h, s, step)])[..s.reach] == s.chain[..s.reach];
    }
  }

  lemma NewestIsOneOf(s: History)
    requires forall n :: n in s.checkpoints ==> s.checkpoints[n].sequenceNum == n
    ensures Newest(s.checkpoints).Some? ==> Newest(s.checkpoints).value.sequenceNum in s.checkpoints
  {
    if s.checkpoints != map[] {
      GreatestNumberExists(s.checkpoints.Keys);
      var n :| IsMax(n, s.checkpoints.Keys);
      NewestIs(s.checkpoints, n);
    }
  }

  lemma CoveredRowIsAdopted(h: Hasher, cp: Option<MerkleCheckpoint>, init: seq<HashEntry>, last: HashEntry, entry: HashEntry,
                            recorded: Table, adopted: Table)
    requires ChainRecords(h, init + [last], recorded) && ExtractID(last.recordID) !in adopted
    requires HasLeafMap(cp) && cp.value.sequenceNum <= |init|
    requires Fits(h, cp, init + [last], adopted, |init| + 1)
    ensures var gone := ExtractID(last.recordID);
      gone in recorded && Fits(h, cp, init + [entry], adopted[gone := recorded[gone]], |init|)
  {
    var gone := ExtractID(last.recordID);
    ChainDrops(h, init, last, recorded);
    HashesPut(h, adopted, gone, recorded[gone]);
    assert (init + [last])[..|init| + 1] == init + [last] && (init + [entry])[..|init|] == init;
    SumSwaps(Hashes(h, adopted), AllHashes(init), multiset{h.digest(recorded[gone])});
  }

  lemma UncoveredRowIsForgotten(h: Hasher, cp: Option<MerkleCheckpoint>, init: seq<HashEntry>, last: HashEntry, entry: HashEntry,
                                adopted: Table, reach: nat)
    requires Fits(h, cp, init + [last], adopted, reach) && (HasLeafMap(cp) ==> reach != |init| + 1)
    ensures Fits(h, cp, init + [entry], adopted, reach)
  {
    if HasLeafMap(cp) {
      assert (init + [entry])[..reach] == (init + [last])[..reach];
    }
  }

  /** If the newest leaf map covers the overwritten entry, that entry's row counts as adopted from now
      on; otherwise the leaf map is as good as before. */
  lemma OverwriteKeepsCheckpoints(h: Hasher, s: History, step: Step, init: seq<HashEntry>, last: HashEntry, next: History)
    requires step.Overwrite? && s.chain == init + [last] && next == AfterOverwrite(h, s, step)
    requires CheckpointIsSound(h, s) && ChainRecords(h, s.chain, s.recorded)
    requires forall n :: n in s.checkpoints ==> n < |s.chain| && s.checkpoints[n].sequenceNum == n
    requires ExtractID(last.recordID) !in s.adopted
    ensures CheckpointIsSound(h, next)
  {
    var cp, entry := Newest(s.checkpoints), InsertedEntry(h, s, step);
    OverwriteReplaces(h, s, step, init, last, next);
    NewestIsOneOf(s);
    if LeafMapKeepsLast(s) {
      CoveredRowIsAdopted(h, cp, init, last, entry, s.recorded, s.adopted);
    } else {
      ChainDrops(h, init, last, s.recorded);
      UncoveredRowIsForgotten(h, cp, init, last, entry, s.adopted, s.reach);
    }
  }

  lemma TableData(h: Hasher, rows: seq<Row>, table: Table)
    requires Lists(rows, table)
    ensures PgTree(h, rows).leafMap == RowHashes(h, table)
    ensures table == map[] <==> PgTree(h, rows).leafMap == map[]
  {
    RowsShowTable(h, rows, table);
    RowMapIsEmptyIff(h, rows);
    assert RowHashes(h, table).Keys == table.Keys;
  }

  /** A leaf map taken from the table fits when the table's hashes are those it should hold. */
  lemma TableFits(h: Hasher, rows: seq<Row>, table: Table, cp: MerkleCheckpoint, chain: seq<HashEntry>, adopted: Table)
    requires Lists(rows, table) && cp.leafMap == PgTree(h, rows).leafMap && cp.sequenceNum <= |chain|
    requires forall id :: id in table ==> !IsPrinted(id)
    requires Hashes(h, table) == Hashes(h, adopted) + AllHashes(chain)
    requires table == map[] ==> adopted == map[]
    ensures Fits(h, Some(cp), chain, adopted, |chain|)
  {
    TableData(h, rows, table);
    assert chain[..|chain|] == chain;
  }

  lemma SavedIsNewest(h: Hasher, s: History, step: Step)
    requires step.Verify? && forall n :: n in s.checkpoints ==> n <= NumberOf(step.latest)
    requires !VerdictOf(h, s, step).Tampered?
    ensures var cp := CheckpointFor(VerdictOf(h, s, step), step.name, step.latest, step.algorithm, step.now);
      && cp.sequenceNum == NumberOf(step.latest)
      && cp.leafMap == (if VerdictOf(h, s, step).DetailsMatch? then map[] else PgTree(h, step.rows).leafMap)
      && After(h, s, step).checkpoints == s.checkpoints[NumberOf(step.latest) := cp]
      && Newest(After(h, s, step).checkpoints) == Some(cp)
  {
    JudgeIs(h, step.rows, step.entries, Newest(s.checkpoints), ExpectedLeaves(step.entries, Newest(s.checkpoints)));
    NewestIs(After(h, s, step).checkpoints, NumberOf(step.latest));
  }

  /** The checkpoint a passing verification saves is sound: its leaf map was taken from the table
      because the roots matched. */
  lemma PassedFits(h: Hasher, s: History, rows: seq<Row>, v: Verdict, cp: MerkleCheckpoint)
    requires AllHashes(s.chain) == Hashes(h, s.recorded)
    requires Lists(rows, s.table) && forall id :: id in s.table ==> !IsPrinted(id)
    requires !v.Tampered? && cp.sequenceNum <= |s.chain|
    requires cp.leafMap == if v.DetailsMatch? then map[] else PgTree(h, rows).leafMap
    requires v.Initial? ==> s.recorded == map[]
    requires v.RootsMatch? ==>
      s.table != map[] && Hashes(h, s.table) == Hashes(h, s.adopted) + Hashes(h, s.recorded)
    ensures Fits(h, Some(cp), s.chain, AdoptedAfter(s, v), |s.chain|)
  {
    if v.Initial? {
      NoRowsNoHashes(h);
      AddNothing(Hashes(h, s.table));
      TableFits(h, rows, s.table, cp, s.chain, s.table);
    } else if v.RootsMatch? {
      TableFits(h, rows, s.table, cp, s.chain, s.adopted);
    }
  }

  lemma SavedCheckpointIsSound(h: Hasher, s: History, step: Step)
    requires AllHashes(s.chain) == Hashes(h, s.recorded)
    requires step.Verify? && Lists(step.rows, s.table)
    requires NumberOf(step.latest) <= |s.chain| && forall n :: n in s.checkpoints ==> n <= NumberOf(step.latest)
    requires forall id :: id in s.table ==> !IsPrinted(id)
    requires !VerdictOf(h, s, step).Tampered?
    requires VerdictOf(h, s, step).Initial? ==> s.recorded == map[]
    requires VerdictOf(h, s, step).RootsMatch? ==>
      s.table != map[] && Hashes(h, s.table) == Hashes(h, s.adopted) + Hashes(h, s.recorded)
    ensures CheckpointIsSound(h, After(h, s, step))
  {
    var verdict := VerdictOf(h, s, step);
    var cp := CheckpointFor(verdict, step.name, step.latest, step.algorithm, step.now);
    SavedIsNewest(h, s, step);
    PassedFits(h, s, step.rows, verdict, cp);
  }

  lemma MatchedTableHasRows(h: Hasher, s: History)
    requires !(s.adopted == map[] && s.recorded == map[])
    requires Hashes(h, s.table) == Hashes(h, s.adopted) + Hashes(h, s.recorded)
    ensures s.table != map[]
  {
    HashesSize(h, s.table);
    HashesSize(h, s.adopted);
    HashesSize(h, s.recorded);
  }

  lemma PassKeepsSound(h: Hasher, idOf: string -> string, s: History, next: History, cp: MerkleCheckpoint)
    requires Sound(h, idOf, s) && IsTable(next.adopted, idOf)
    requires next.chain == s.chain && next.table == s.table && next.recorded == s.recorded
    requires next.checkpoints == s.checkpoints[cp.sequenceNum := cp] && cp.sequenceNum <= |s.chain|
    requires CheckpointIsSound(h, next)
    ensures Sound(h, idOf, next)
  {
  }

  lemma AfterVerify(h: Hasher, s: History, step: Step, verdict: Verdict, next: History)
    requires step.Verify? && verdict == VerdictOf(h, s, step) && next == After(h, s, step)
    ensures verdict.Tampered? ==> next == s
    ensures !verdict.Tampered? ==>
      next.chain == s.chain && next.table == s.table && next.recorded == s.recorded && next.adopted == AdoptedAfter(s, verdict)
  {
  }

  lemma AdoptedIsTable(idOf: string -> string, s: History, verdict: Verdict)
    requires IsTable(s.table, idOf) && IsTable(s.adopted, idOf) && !verdict.Tampered?
    ensures IsTable(AdoptedAfter(s, verdict), idOf)
  {
  }

  lemma PassSavesSound(h: Hasher, idOf: string -> string, s: History, step: Step, verdict: Verdict, next: History)
    returns (cp: MerkleCheckpoint)
    requires Sound(h, idOf, s) && Enabled(idOf, s, step) && step.Verify?
    requires !Collides(h, StepTexts(h, s, step))
    requires verdict == VerdictOf(h, s, step) && !verdict.Tampered? && next == After(h, s, step)
    ensures next.checkpoints == s.checkpoints[cp.sequenceNum := cp] && cp.sequenceNum <= |s.chain|
    ensures CheckpointIsSound(h, next)
  {
    VerdictIsExact(h, idOf, s, step);
    if verdict.RootsMatch? { MatchedTableHasRows(h, s); }
    SavedIsNewest(h, s, step);
    SavedCheckpointIsSound(h, s, step);
    cp := next.checkpoints[NumberOf(step.latest)];
  }

  lemma VerifyKeepsSound(h: Hasher, idOf: string -> string, s: History, step: Step, verdict: Verdict, next: History)
    requires Sound(h, idOf, s) && Enabled(idOf, s, step) && step.Verify?
    requires !Collides(h, StepTexts(h, s, step))
    requires verdict == VerdictOf(h, s, step) && next == After(h, s, step)
    ensures Sound(h, idOf, next)
  {
    AfterVerify(h, s, step, verdict, next);
    if verdict.Tampered? {
      assert next == s;
    } else {
      AdoptedIsTable(idOf, s, verdict);
      var cp := PassSavesSound(h, idOf, s, step, verdict, next);
      PassKeepsSound(h, idOf, s, next, cp);
    }
  }

  lemma TableGrows(rows: Table, idOf: string -> string, id: string, text: string)
    requires IsTable(rows, idOf) && IsRowText(text) && idOf(text) == id && !IsPrinted(id)
    ensures IsTable(rows[id := text], idOf)
  {
  }

  lemma InsertKeepsSound(h: Hasher, idOf: string -> string, s: History, step: Step)
    requires Sound(h, idOf, s) && Enabled(idOf, s, step) && step.Insert?
    ensures Sound(h, idOf, After(h, s, step))
  {
    TableGrows(s.table, idOf, step.id, step.text);
    TableGrows(s.recorded, idOf, step.id, step.text);
    InsertKeepsChain(h, s, step);
    InsertKeepsCheckpoints(h, s, step);
  }

  lemma OverwrittenTables(idOf: string -> string, s: History, step: Step, h: Hasher)
    requires IsTable(s.table, idOf) && IsTable(s.recorded, idOf) && IsTable(s.adopted, idOf)
    requires step.Overwrite? && s.chain != [] && BringsNewRow(idOf, s, step)
    ensures var next := AfterOverwrite(h, s, step);
      IsTable(next.table, idOf) && IsTable(next.recorded, idOf) && IsTable(next.adopted, idOf)
  {
    TableGrows(s.table, idOf, step.id, step.text);
    TableGrows(s.recorded - {LastID(s)}, idOf, step.id, step.text);
  }

  lemma OverwriteKeepsBoth(h: Hasher, s: History, step: Step, init: seq<HashEntry>, last: HashEntry, next: History)
    requires step.Overwrite? && step.id !in s.recorded && IsPrinted(step.recordID) && ExtractID(step.recordID) == step.id
    requires s.chain == init + [last] && next == AfterOverwrite(h, s, step)
    requires CheckpointIsSound(h, s) && ChainRecords(h, s.chain, s.recorded)
    requires forall n :: n in s.checkpoints ==> n < |s.chain| && s.checkpoints[n].sequenceNum == n
    requires ExtractID(last.recordID) !in s.adopted
    ensures ChainRecords(h, next.chain, next.recorded) && CheckpointIsSound(h, next)
    ensures |next.chain| == |s.chain| && next.checkpoints == s.checkpoints
  {
    OverwriteReplaces(h, s, step, init, last, next);
    OverwriteKeepsChain(h, s, step, init, last, next);
    OverwriteKeepsCheckpoints(h, s, step, init, last, next);
  }

  lemma OverwriteKeepsRecords(h: Hasher, s: History, step: Step, next: History)
    requires step.Overwrite? && step.id !in s.recorded && IsPrinted(step.recordID) && ExtractID(step.recordID) == step.id
    requires s.chain != [] && LastID(s) !in s.adopted && ChainRecords(h, s.chain, s.recorded) && CheckpointIsSound(h, s)
    requires forall n :: n in s.checkpoints ==> n < |s.chain| && s.checkpoints[n].sequenceNum == n
    requires next == AfterOverwrite(h, s, step)
    ensures ChainRecords(h, next.chain, next.recorded) && CheckpointIsSound(h, next)
    ensures |next.chain| == |s.chain| && next.checkpoints == s.checkpoints
  {
    var init, last := s.chain[..|s.chain| - 1], s.chain[|s.chain| - 1];
    assert s.chain == init + [last];
    OverwriteKeepsBoth(h, s, step, init, last, next);
  }

  lemma OverwriteKeepsSound(h: Hasher, idOf: string -> string, s: History, step: Step, next: History)
    requires Sound(h, idOf, s) && Enabled(idOf, s, step) && step.Overwrite? && next == AfterOverwrite(h, s, step)
    ensures Sound(h, idOf, next)
  {
    OverwrittenTables(idOf, s, step, h);
    OverwriteKeepsRecords(h, s, step, next);
  }

  /** Every step keeps the history sound: the newest checkpoint's leaf map is empty, or it holds
      exactly the hashes of the adopted rows and of the entries it covers. */
  lemma StepKeepsSound(h: Hasher, idOf: string -> string, s: History, step: Step)
    requires Sound(h, idOf, s) && Enabled(idOf, s, step)
    requires !Collides(h, StepTexts(h, s, step))
    ensures Sound(h, idOf, After(h, s, step))
  {
    match step {
      case Insert(_, _, _, _, _, _) =>
        InsertKeepsSound(h, idOf, s, step);
      case Overwrite(_, _, _, _, _, _) =>
        OverwriteKeepsSound(h, idOf, s, step, After(h, s, step));
      case Edit(_) =>
      case Verify(_, _, _, _, _, _) =>
        VerifyKeepsSound(h, idOf, s, step, VerdictOf(h, s, step), After(h, s, step));
    }
  }

  // ---------------------------------------------------------------- runs

  ghost predicate Takes(h: Hasher, idOf: string -> string, s: History, step: Step, next: History) {
    Enabled(idOf, s, step) && next == After(h, s, step)
  }

  /** The states a run of steps goes through, and a set with all the strings it hashes. */
  ghost predicate IsRun(h: Hasher, idOf: string -> string, states: seq<History>, steps: seq<Step>, texts: set<string>) {
    && |states| == |steps| + 1
    && (forall i :: 0 <= i < |steps| ==> Takes(h, idOf, states[i], steps[i], states[i + 1]))
    && (forall i :: 0 <= i < |steps| ==> StepTexts(h, states[i], steps[i]) <= texts)
  }

  /** Detection over whole runs: whatever inserts, outside edits and passes came before, a pass
      succeeds exactly when the table is what was recorded (with or without the adopted rows), unless
      two of the strings hashed in the run collide. */
  lemma {:induction false} RunsAreExact(h: Hasher, idOf: string -> string, states: seq<History>, steps: seq<Step>,
                                        texts: set<string>, i: nat)
    requires IsRun(h, idOf, states, steps, texts) && Sound(h, idOf, states[0]) && i <= |steps|
    requires !Collides(h, texts)
    ensures Sound(h, idOf, states[i])
    ensures i < |steps| && steps[i].Verify? ==> (!VerdictOf(h, states[i], steps[i]).Tampered? <==> Deserves(states[i]))
  {
    if i > 0 {
      RunsAreExact(h, idOf, states, steps, texts, i - 1);
      StepDoesNotCollide(h, idOf, states, steps, texts, i - 1);
      StepKeepsSound(h, idOf, states[i - 1], steps[i - 1]);
    }
    if i < |steps| && steps[i].Verify? {
      StepDoesNotCollide(h, idOf, states, steps, texts, i);
      VerdictIsExact(h, idOf, states[i], steps[i]);
    }
  }

  lemma StepDoesNotCollide(h: Hasher, idOf: string -> string, states: seq<History>, steps: seq<Step>,
                           texts: set<string>, i: nat)
    requires IsRun(h, idOf, states, steps, texts) && i < |steps| && !Collides(h, texts)
    ensures Takes(h, idOf, states[i], steps[i], states[i + 1])
    ensures !Collides(h, StepTexts(h, states[i], steps[i]))
  {
    if Collides(h, StepTexts(h, states[i], steps[i])) {
      CollidesIsMonotone(h, StepTexts(h, states[i], steps[i]), texts);
    }
  }

  /** Every pass of the run finds a chain, or nothing at all. */
  ghost predicate PassesFindChain(states: seq<History>, steps: seq<Step>)
    requires |states| == |steps| + 1
  {
    forall i :: 0 <= i < |steps| && steps[i].Verify? ==> states[i].recorded != map[] || states[i].table == map[]
  }

  ghost predicate NothingIsOverwritten(steps: seq<Step>) {
    forall i :: 0 <= i < |steps| ==> !steps[i].Overwrite?
  }

  lemma NothingIsAdopted(h: Hasher, idOf: string -> string, s: History, step: Step)
    requires Sound(h, idOf, s) && Enabled(idOf, s, step) && s.adopted == map[] && !step.Overwrite?
    requires step.Verify? ==> s.recorded != map[] || s.table == map[]
    requires !Collides(h, StepTexts(h, s, step))
    ensures After(h, s, step).adopted == map[]
  {
    if step.Verify? {
      VerdictIsExact(h, idOf, s, step);
      AfterVerify(h, s, step, VerdictOf(h, s, step), After(h, s, step));
    }
  }

  lemma StepAdoptsNothing(h: Hasher, idOf: string -> string, states: seq<History>, steps: seq<Step>,
                          texts: set<string>, i: nat)
    requires IsRun(h, idOf, states, steps, texts) && i < |steps| && Sound(h, idOf, states[0]) && !Collides(h, texts)
    requires PassesFindChain(states, steps) && NothingIsOverwritten(steps) && states[i].adopted == map[]
    ensures states[i + 1].adopted == map[]
  {
    RunsAreExact(h, idOf, states, steps, texts, i);
    StepDoesNotCollide(h, idOf, states, steps, texts, i);
    NothingIsAdopted(h, idOf, states[i], steps[i]);
  }

  lemma NothingIsEverAdopted(h: Hasher, idOf: string -> string, states: seq<History>, steps: seq<Step>,
                             texts: set<string>, i: nat)
    requires IsRun(h, idOf, states, steps, texts) && Sound(h, idOf, states[0]) && i <= |steps|
    requires states[0].adopted == map[] && PassesFindChain(states, steps) && NothingIsOverwritten(steps)
    requires !Collides(h, texts)
    ensures states[i].adopted == map[]
  {
    for j := 0 to i
      invariant states[j].adopted == map[]
    {
      StepAdoptsNothing(h, idOf, states, steps, texts, j);
    }
  }

  /** If every pass finds a chain and no insert overwrites an entry, nothing is ever adopted, and a pass
      succeeds exactly when the table is what was recorded: every other table is reported. */
  lemma RunsTellTable(h: Hasher, idOf: string -> string, states: seq<History>, steps: seq<Step>,
                                         texts: set<string>, i: nat)
    requires IsRun(h, idOf, states, steps, texts) && Sound(h, idOf, states[0]) && i <= |steps|
    requires states[0].adopted == map[] && PassesFindChain(states, steps) && NothingIsOverwritten(steps)
    requires !Collides(h, texts)
    ensures states[i].adopted == map[]
    ensures i < |steps| && steps[i].Verify? ==>
      (!VerdictOf(h, states[i], steps[i]).Tampered? <==> states[i].table == states[i].recorded)
  {
    RunsAreExact(h, idOf, states, steps, texts, i);
    NothingIsEverAdopted(h, idOf, states, steps, texts, i);
    if i < |steps| && steps[i].Verify? {
      StepDoesNotCollide(h, idOf, states, steps, texts, i);
      PassTellsTableIff(h, idOf, states[i], steps[i]);
    }
  }

  lemma EmptyIsSound(h: Hasher, idOf: string -> string)
    ensures Sound(h, idOf, Empty)
  {
    NoRowsNoHashes(h);
  }

  /** Without a chain to compare against, a pass takes over rows nobody recorded. */
  lemma UnrecordedRowsAreAdopted(h: Hasher, text: string)
    ensures var s := After(h, Empty, Edit(map["1" := text]));
      && "1" in s.table && s.recorded == map[]
      && VerdictOf(h, s, Verify([Row("1", text)], [], None, "t", "a", 0)).Initial?
      && After(h, s, Verify([Row("1", text)], [], None, "t", "a", 0)).adopted == s.table
  {
  }
}
