/** Detection over whole runs: inserts recorded in the chain, arbitrary edits of the table, and
    verification passes that keep checkpoints. A pass may take any entry for the latest. */
module Detection {
  import opened ChainHashes
  import opened Hashing
  import opened LeafMaps
  import opened MapValues
  import opened MerkleBinding
  import opened Options
  import opened RecordIds
  import opened Storages
  import opened TableViews
  import opened VerificationPass

  type Table = map<string, string>

  /** One table and everything kept about it. Three parts are stored nowhere: `recorded` are the rows
      the chain's entries are about, `adopted` the rows only the newest leaf map knows, taken over by a
      pass over an empty chain or left over from an overwritten entry, and `reach` is the number of
      entries that leaf map covers. */
  datatype History = History(
    chain: seq<HashEntry>,
    checkpoints: map<nat, MerkleCheckpoint>,
    table: Table,
    recorded: Table,
    adopted: Table,
    reach: nat)

  const Empty := History([], map[], map[], map[], map[], 0)

  ghost function Hashes(h: Hasher, rows: Table): multiset<string> {
    ValuesOf(RowHashes(h, rows))
  }

  // ---------------------------------------------------------------- what holds throughout

  /** Row ids are printed column values, never printed maps; row texts determine them. */
  ghost predicate IsTable(rows: Table, idOf: string -> string) {
    RowsReadBack(rows, idOf) && forall id :: id in rows ==> !IsPrinted(id)
  }

  /** Record ids are printed keys, no two of the same row. */
  ghost predicate DistinctKeys(chain: seq<HashEntry>) {
    && (forall i :: 0 <= i < |chain| ==> IsPrinted(chain[i].recordID))
    && (forall i, j :: 0 <= i < j < |chain| ==> ExtractID(chain[i].recordID) != ExtractID(chain[j].recordID))
  }

  /** The entry is about a recorded row. */
  ghost predicate Tells(h: Hasher, e: HashEntry, recorded: Table) {
    var id := ExtractID(e.recordID);
    id in recorded && e.dataHash == h.digest(recorded[id])
  }

  ghost predicate Mentions(chain: seq<HashEntry>, id: string) {
    exists i :: 0 <= i < |chain| && ExtractID(chain[i].recordID) == id
  }

  ghost predicate ChainRecords(h: Hasher, chain: seq<HashEntry>, recorded: Table) {
    && Numbered(chain) && DistinctKeys(chain)
    && (forall i :: 0 <= i < |chain| ==> Tells(h, chain[i], recorded))
    && (forall id :: id in recorded ==> Mentions(chain, id))
    && AllHashes(chain) == Hashes(h, recorded)
  }

  lemma {:induction false} GreatestNumberExists(numbers: set<nat>)
    requires numbers != {}
    ensures exists n :: IsMax(n, numbers)
  {
    var x :| x in numbers;
    var rest := numbers - {x};
    if rest == {} {
      assert numbers == {x};
      assert IsMax(x, numbers);
    } else {
      GreatestNumberExists(rest);
      var m :| IsMax(m, rest);
      var n := if x < m then m else x;
      assert forall k :: k in numbers ==> k == x || k in rest;
      assert IsMax(n, numbers);
    }
  }

  ghost function Newest(checkpoints: map<nat, MerkleCheckpoint>): Option<MerkleCheckpoint> {
    if checkpoints == map[] then None
    else
      GreatestNumberExists(checkpoints.Keys);
      var n :| IsMax(n, checkpoints.Keys);
      Some(checkpoints[n])
  }

  lemma NewestIs(checkpoints: map<nat, MerkleCheckpoint>, n: nat)
    requires IsMax(n, checkpoints.Keys)
    ensures Newest(checkpoints) == Some(checkpoints[n])
  {
  }

  /** A checkpoint has no leaf map, or it holds exactly the hashes of the adopted rows and of the first
      `reach` entries, at least those up to its number, under row ids. */
  ghost predicate Fits(h: Hasher, cp: Option<MerkleCheckpoint>, chain: seq<HashEntry>, adopted: Table, reach: nat) {
    if HasLeafMap(cp) then
      && cp.value.sequenceNum <= reach <= |chain|
      && ValuesOf(cp.value.leafMap) == Hashes(h, adopted) + AllHashes(chain[..reach])
      && (forall id :: id in cp.value.leafMap ==> !IsPrinted(id))
    else adopted == map[]
  }

  ghost predicate CheckpointIsSound(h: Hasher, s: History) {
    Fits(h, Newest(s.checkpoints), s.chain, s.adopted, s.reach)
  }

  /** The newest leaf map covers entries beyond its number; a pass then expects them twice. */
  ghost predicate CountsTwice(s: History) {
    HasLeafMap(Newest(s.checkpoints)) && Newest(s.checkpoints).value.sequenceNum < s.reach
  }

  /** The hashes of the entries a pass expects twice. */
  ghost function Twice(s: History): multiset<string>
    requires HasLeafMap(Newest(s.checkpoints)) ==> s.reach <= |s.chain|
  {
    if CountsTwice(s) then AllHashes(s.chain[Newest(s.checkpoints).value.sequenceNum..s.reach]) else multiset{}
  }

  ghost predicate Sound(h: Hasher, idOf: string -> string, s: History) {
    && IsTable(s.table, idOf) && IsTable(s.recorded, idOf) && IsTable(s.adopted, idOf)
    && ChainRecords(h, s.chain, s.recorded)
    && (forall n :: n in s.checkpoints ==> n <= |s.chain| && s.checkpoints[n].sequenceNum == n)
    && CheckpointIsSound(h, s)
  }

  // ---------------------------------------------------------------- steps

  /** A query lists the table's rows, each once, in some order. */
  ghost predicate Lists(rows: seq<Row>, table: Table) {
    && (forall i, j :: 0 <= i < j < |rows| ==> rows[i].id != rows[j].id)
    && (forall i :: 0 <= i < |rows| ==> rows[i].id in table && table[rows[i].id] == rows[i].text)
    && (forall id :: id in table ==> exists i :: 0 <= i < |rows| && rows[i].id == id)
  }

  datatype Step =
    | Insert(id: string, text: string, recordID: string, name: string, operation: string, now: int)
    | Overwrite(id: string, text: string, recordID: string, name: string, operation: string, now: int)
    | Edit(table: Table)
    | Verify(rows: seq<Row>, entries: seq<HashEntry>, latest: Option<HashEntry>, name: string, algorithm: string, now: int)

  ghost predicate BringsNewRow(idOf: string -> string, s: History, step: Step)
    requires step.Insert? || step.Overwrite?
  {
    && step.id !in s.recorded && !IsPrinted(step.id)
    && IsPrinted(step.recordID) && ExtractID(step.recordID) == step.id
    && IsRowText(step.text) && idOf(step.text) == step.id
  }

  /** The id of the chain's last row. */
  function LastID(s: History): string
    requires s.chain != []
  {
    ExtractID(s.chain[|s.chain| - 1].recordID)
  }

  /** What a step needs of the state. A row shows in the table by an edit, before or after the insert
      that records it is handled. An insert brings an id that is not recorded, under a printed key that
      reads back to it. It may take the last entry's number again, if no checkpoint has that number, and
      the row then overwritten was not adopted before. An edit is any table. A pass reads the table and
      the chain, in any order, and takes some entry for the latest, none of an earlier number than a
      checkpoint has. */
  ghost predicate Enabled(idOf: string -> string, s: History, step: Step) {
    match step
    case Insert(_, _, _, _, _, _) => BringsNewRow(idOf, s, step)
    case Overwrite(_, _, _, _, _, _) =>
      && BringsNewRow(idOf, s, step) && s.chain != [] && LastID(s) !in s.adopted
      && forall n :: n in s.checkpoints ==> n < |s.chain|
    case Edit(table) => IsTable(table, idOf)
    case Verify(rows, entries, latest, _, _, _) =>
      && Lists(rows, s.table) && Permutes(entries, s.chain)
      && NumberOf(latest) <= |s.chain| && forall n :: n in s.checkpoints ==> n <= NumberOf(latest)
  }

  ghost function VerdictOf(h: Hasher, s: History, step: Step): Verdict
    requires step.Verify?
  {
    Judge(h, step.rows, step.entries, Newest(s.checkpoints))
  }

  /** The entry an insert records: the row's hash, the printed key, and the next number or, when it
      overwrites, the last one. */
  function InsertedEntry(h: Hasher, s: History, step: Step): HashEntry
    requires step.Insert? || step.Overwrite?
  {
    HashEntry(step.name, if step.Insert? then |s.chain| + 1 else |s.chain|, h.digest(step.text), step.now, step.operation, step.recordID)
  }

  /** The newest leaf map keeps covering an overwritten entry's row. */
  ghost predicate LeafMapKeepsLast(s: History) {
    HasLeafMap(Newest(s.checkpoints)) && s.reach == |s.chain|
  }

  ghost function AfterOverwrite(h: Hasher, s: History, step: Step): History
    requires step.Overwrite? && s.chain != []
  {
    var gone := LastID(s);
    History(s.chain[..|s.chain| - 1] + [InsertedEntry(h, s, step)], s.checkpoints, s.table,
            (s.recorded - {gone})[step.id := step.text],
            if LeafMapKeepsLast(s) && gone in s.recorded then s.adopted[gone := s.recorded[gone]] else s.adopted,
            if LeafMapKeepsLast(s) then s.reach - 1 else s.reach)
  }

  ghost function After(h: Hasher, s: History, step: Step): History {
    match step
    case Insert(id, text, _, _, _, _) =>
      s.(chain := s.chain + [InsertedEntry(h, s, step)], recorded := s.recorded[id := text])
    case Overwrite(_, _, _, _, _, _) => if s.chain == [] then s else AfterOverwrite(h, s, step)
    case Edit(table) => s.(table := table)
    case Verify(rows, entries, latest, name, algorithm, now) =>
      var verdict := VerdictOf(h, s, step);
      if verdict.Tampered? then s
      else
        var cp := CheckpointFor(verdict, name, latest, algorithm, now);
        s.(checkpoints := s.checkpoints[cp.sequenceNum := cp],
           adopted := AdoptedAfter(s, verdict), reach := |s.chain|)
  }

  /** A first pass takes the table over; a detailed one forgets what was taken over. */
  function AdoptedAfter(s: History, verdict: Verdict): Table
    requires !verdict.Tampered?
  {
    match verdict
    case Initial(_, _, _) => s.table
    case RootsMatch(_, _, _) => s.adopted
    case DetailsMatch(_, _) => map[]
  }

  /** The strings hashed for a step, and those the recorded rows came from. */
  ghost function StepTexts(h: Hasher, s: History, step: Step): set<string> {
    match step
    case Insert(_, text, _, _, _, _) => {text}
    case Overwrite(_, text, _, _, _, _) => {text}
    case Edit(_) => {}
    case Verify(rows, entries, _, _, _, _) =>
      s.table.Values + s.recorded.Values + s.adopted.Values
      + BuildTexts(h, RowLeaves(h, rows)) + BuildTexts(h, ExpectedLeaves(entries, Newest(s.checkpoints)))
  }

  /** When a pass succeeds: there is nothing to compare with; or the table is exactly what was recorded;
      or, unless entries are counted twice, exactly that together with the adopted rows. */
  ghost predicate Deserves(s: History) {
    || (s.recorded == map[] && s.adopted == map[])
    || s.table == s.recorded
    || (!CountsTwice(s) && s.adopted.Keys !! s.recorded.Keys && s.table == s.adopted + s.recorded)
  }

  // ---------------------------------------------------------------- what a pass reads

  lemma {:induction false} RowMapHolds(h: Hasher, rows: seq<Row>, table: Table)
    requires forall i :: 0 <= i < |rows| ==> rows[i].id in table && table[rows[i].id] == rows[i].text
    ensures forall id :: id in RowMap(h, rows) ==> id in table && RowMap(h, rows)[id] == h.digest(table[id])
    ensures forall i :: 0 <= i < |rows| ==> rows[i].id in RowMap(h, rows)
  {
    if rows != [] {
      var n := |rows| - 1;
      assert forall i :: 0 <= i < n ==> rows[..n][i] == rows[i];
      RowMapHolds(h, rows[..n], table);
    }
  }

  lemma {:induction false} RowMapIds(h: Hasher, rows: seq<Row>, id: string)
    requires id in RowMap(h, rows)
    ensures exists i :: 0 <= i < |rows| && rows[i].id == id
  {
    var n := |rows| - 1;
    if rows[n].id != id {
      RowMapIds(h, rows[..n], id);
    }
  }

  lemma {:induction false} RowMapValues(h: Hasher, rows: seq<Row>)
    requires forall i, j :: 0 <= i < j < |rows| ==> rows[i].id != rows[j].id
    ensures ValuesOf(RowMap(h, rows)) == multiset(RowLeaves(h, rows))
  {
    if rows != [] {
      var n := |rows| - 1;
      var init, x := rows[..n], h.digest(rows[n].text);
      RowMapValues(h, init);
      if rows[n].id in RowMap(h, init) {
        RowMapIds(h, init, rows[n].id);
        assert false;
      }
      ValuesOfPut(RowMap(h, init), rows[n].id, x);
      assert RowLeaves(h, rows) == RowLeaves(h, init) + [x];
    }
  }

  lemma RowMapIsTable(h: Hasher, rows: seq<Row>, table: Table)
    requires Lists(rows, table)
    ensures RowMap(h, rows) == RowHashes(h, table)
  {
    RowMapHolds(h, rows, table);
    forall id | id in table ensures id in RowMap(h, rows) {
      var i :| 0 <= i < |rows| && rows[i].id == id;
    }
  }

  /** The query gives the table's ids with their hashes, and the leaves are those hashes. */
  lemma RowsShowTable(h: Hasher, rows: seq<Row>, table: Table)
    requires Lists(rows, table)
    ensures RowMap(h, rows) == RowHashes(h, table)
    ensures multiset(RowLeaves(h, rows)) == Hashes(h, table)
  {
    RowMapIsTable(h, rows, table);
    RowMapValues(h, rows);
  }

  lemma {:induction false} ChainMapHolds(h: Hasher, entries: seq<HashEntry>, recorded: Table)
    requires forall i :: 0 <= i < |entries| ==> Tells(h, entries[i], recorded)
    ensures forall id :: id in ChainMap(entries) ==> id in recorded && ChainMap(entries)[id] == h.digest(recorded[id])
    ensures forall i :: 0 <= i < |entries| ==> ExtractID(entries[i].recordID) in ChainMap(entries)
  {
    if entries != [] {
      var n := |entries| - 1;
      assert forall i :: 0 <= i < n ==> entries[..n][i] == entries[i];
      ChainMapHolds(h, entries[..n], recorded);
    }
  }

  /** The chain gives the recorded ids with the hashes of the recorded rows, in any scan order. */
  lemma ChainShowsRecorded(h: Hasher, entries: seq<HashEntry>, chain: seq<HashEntry>, recorded: Table)
    requires forall i :: 0 <= i < |chain| ==> Tells(h, chain[i], recorded)
    requires forall id :: id in recorded ==> Mentions(chain, id)
    requires forall e :: e in entries <==> e in chain
    ensures ChainMap(entries) == RowHashes(h, recorded)
  {
    forall i | 0 <= i < |entries| ensures Tells(h, entries[i], recorded) {
      assert entries[i] in chain;
    }
    ChainMapHolds(h, entries, recorded);
    forall id | id in recorded ensures id in ChainMap(entries) {
      assert Mentions(chain, id);
      var i :| 0 <= i < |chain| && ExtractID(chain[i].recordID) == id;
      assert chain[i] in entries;
    }
  }

  lemma LaterEntriesAreNew(leafMap: LeafMap, entries: seq<HashEntry>, chain: seq<HashEntry>, after: nat)
    requires DistinctKeys(chain) && Permutes(entries, chain)
    requires forall id :: id in leafMap ==> !IsPrinted(id)
    ensures NewIdsAreNew(leafMap, entries, after)
  {
    forall i | 0 <= i < |entries| ensures IsPrinted(entries[i].recordID) {
      assert entries[i] in chain;
    }
    forall i, j | 0 <= i < j < |entries| ensures entries[i].recordID != entries[j].recordID {
      assert entries[i] in chain && entries[j] in chain;
      var k :| 0 <= k < |chain| && chain[k] == entries[i];
      var l :| 0 <= l < |chain| && chain[l] == entries[j];
      assert k != l;
    }
  }

  /** What the newest leaf map holds beyond the entries up to its number. */
  lemma LeafMapExtra(h: Hasher, s: History)
    requires Numbered(s.chain) && CheckpointIsSound(h, s) && HasLeafMap(Newest(s.checkpoints))
    ensures var cp := Newest(s.checkpoints).value;
      ValuesOf(cp.leafMap) == (Hashes(h, s.adopted) + Twice(s)) + HashesUpTo(s.chain, cp.sequenceNum)
  {
    var k := Newest(s.checkpoints).value.sequenceNum;
    UpToIsPrefix(s.chain, k);
    HashesOfConcat(s.chain[..k], s.chain[k..s.reach]);
    assert s.chain[..s.reach] == s.chain[..k] + s.chain[k..s.reach];
    assert !CountsTwice(s) ==> AllHashes(s.chain[k..s.reach]) == multiset{};
    SumSwaps(Hashes(h, s.adopted), AllHashes(s.chain[..k]), Twice(s));
  }

  lemma SumSwaps(a: multiset<string>, b: multiset<string>, c: multiset<string>)
    ensures a + (b + c) == (a + c) + b
  {
  }

  /** Whatever checkpoint is used, the expected leaves are the hashes of the adopted rows, of every
      recorded row, and once more of those counted twice. */
  lemma ExpectedShowsHistory(h: Hasher, s: History, entries: seq<HashEntry>)
    requires Numbered(s.chain) && DistinctKeys(s.chain) && AllHashes(s.chain) == Hashes(h, s.recorded)
    requires CheckpointIsSound(h, s) && Permutes(entries, s.chain)
    ensures multiset(ExpectedLeaves(entries, Newest(s.checkpoints))) == (Hashes(h, s.adopted) + Twice(s)) + Hashes(h, s.recorded)
  {
    var cp := Newest(s.checkpoints);
    AllHashesInAnyOrder(entries, s.chain, |s.chain|);
    if HasLeafMap(cp) {
      LeafMapExtra(h, s);
      SameHashesInAnyOrder(entries, s.chain, cp.value.sequenceNum);
      LaterEntriesAreNew(cp.value.leafMap, entries, s.chain, cp.value.sequenceNum);
    } else {
      NoRowsNoHashes(h);
    }
    ExpectedLeavesAre(entries, cp, Hashes(h, s.adopted) + Twice(s));
  }

  // ---------------------------------------------------------------- hashes against rows

  lemma HashesSize(h: Hasher, rows: Table)
    ensures |Hashes(h, rows)| == |rows|
    ensures forall x :: x in Hashes(h, rows) <==> exists id :: id in rows && h.digest(rows[id]) == x
  {
    var m := RowHashes(h, rows);
    assert m.Keys == rows.Keys;
    ValuesOfSize(m);
    forall x ensures x in Hashes(h, rows) <==> exists id :: id in rows && h.digest(rows[id]) == x {
      if exists id :: id in rows && h.digest(rows[id]) == x {
        var id :| id in rows && h.digest(rows[id]) == x;
        assert id in m && m[id] == x;
      }
    }
  }

  /** Without collisions, a row hash that occurs in another table is that table's row. */
  lemma SameHashSameRow(h: Hasher, idOf: string -> string, rows: Table, others: Table, id: string)
    requires RowsReadBack(rows, idOf) && RowsReadBack(others, idOf) && id in rows
    requires h.digest(rows[id]) in Hashes(h, others)
    requires !Collides(h, rows.Values + others.Values)
    ensures id in others && others[id] == rows[id]
  {
    HashesSize(h, others);
    var id2 :| id2 in others && h.digest(others[id2]) == h.digest(rows[id]);
    assert rows[id] in rows.Values + others.Values && others[id2] in rows.Values + others.Values;
  }

  lemma HashesPut(h: Hasher, rows: Table, id: string, text: string)
    requires id !in rows
    ensures Hashes(h, rows[id := text]) == Hashes(h, rows) + multiset{h.digest(text)}
  {
    assert RowHashes(h, rows[id := text]) == RowHashes(h, rows)[id := h.digest(text)];
    ValuesOfPut(RowHashes(h, rows), id, h.digest(text));
  }

  lemma PutBack(r: Table, id: string)
    requires id in r
    ensures (r - {id})[id := r[id]] == r && |r - {id}| < |r|
  {
    assert (r - {id}).Keys == r.Keys - {id};
  }

  lemma AddThenPut(a: Table, r: Table, id: string, text: string)
    ensures (a + r)[id := text] == a + r[id := text]
  {
  }

  lemma {:induction false} HashesOfDisjointUnion(h: Hasher, a: Table, r: Table)
    requires a.Keys !! r.Keys
    ensures Hashes(h, a + r) == Hashes(h, a) + Hashes(h, r)
    decreases |r|
  {
    if r == map[] {
      assert a + r == a;
      NoRowsNoHashes(h);
      AddNothing(Hashes(h, a));
    } else {
      var id :| id in r;
      PutBack(r, id);
      HashesOfDisjointUnion(h, a, r - {id});
      UnionGrows(h, a, r - {id}, id, r[id]);
    }
  }

  lemma UnionGrows(h: Hasher, a: Table, r: Table, id: string, text: string)
    requires id !in a && id !in r
    requires Hashes(h, a + r) == Hashes(h, a) + Hashes(h, r)
    ensures Hashes(h, a + r[id := text]) == Hashes(h, a) + Hashes(h, r[id := text])
  {
    HashesPut(h, r, id, text);
    HashesPut(h, a + r, id, text);
    AddThenPut(a, r, id, text);
    SumMoves(Hashes(h, a), Hashes(h, r), h.digest(text));
  }

  lemma NoRowsNoHashes(h: Hasher)
    ensures Hashes(h, map[]) == multiset{}
  {
    assert RowHashes(h, map[]) == map[];
  }

  lemma AddNothing(a: multiset<string>)
    ensures a + multiset{} == a
  {
  }

  lemma SumMoves(a: multiset<string>, b: multiset<string>, x: string)
    ensures (a + b) + multiset{x} == a + (b + multiset{x})
  {
  }

  lemma DisjointByCount(a: set<string>, r: set<string>)
    requires |a + r| == |a| + |r|
    ensures a !! r
  {
    assert a + r == a + (r - a);
    assert |a + (r - a)| == |a| + |r - a|;
    assert r == (r - a) + (r * a);
    assert |(r - a) + (r * a)| == |r - a| + |r * a|;
    assert a * r == r * a;
  }

  /** Without collisions the hash multisets tell exactly when the table is the disjoint union. */
  lemma SameHashesIff(h: Hasher, idOf: string -> string, table: Table, a: Table, r: Table)
    requires RowsReadBack(table, idOf) && RowsReadBack(a, idOf) && RowsReadBack(r, idOf)
    requires !Collides(h, table.Values + r.Values + a.Values)
    ensures Hashes(h, table) == Hashes(h, a) + Hashes(h, r) <==> (a.Keys !! r.Keys && table == a + r)
  {
    if a.Keys !! r.Keys && table == a + r {
      HashesOfDisjointUnion(h, a, r);
    }
    if Hashes(h, table) == Hashes(h, a) + Hashes(h, r) {
      TableIsUnion(h, idOf, table, a, r);
    }
  }

  lemma TableIsUnion(h: Hasher, idOf: string -> string, table: Table, a: Table, r: Table)
    requires RowsReadBack(table, idOf) && RowsReadBack(a, idOf) && RowsReadBack(r, idOf)
    requires !Collides(h, table.Values + r.Values + a.Values)
    requires Hashes(h, table) == Hashes(h, a) + Hashes(h, r)
    ensures a.Keys !! r.Keys && table == a + r
  {
    PartsAreInTable(h, idOf, table, a, r);
    PartsAreInTable(h, idOf, table, r, a);
    TableIsInParts(h, idOf, table, a, r);
    UnionOfParts(table, a, r);
    assert |table| == |a| + |r| by {
      HashesSize(h, table);
      HashesSize(h, a);
      HashesSize(h, r);
    }
    DisjointByCount(a.Keys, r.Keys);
  }

  lemma UnionOfParts(table: Table, a: Table, r: Table)
    requires forall id :: id in a ==> id in table && table[id] == a[id]
    requires forall id :: id in r ==> id in table && table[id] == r[id]
    requires forall id :: id in table ==> id in a || id in r
    ensures table == a + r && table.Keys == a.Keys + r.Keys
    ensures |table| == |a.Keys + r.Keys| && |a| == |a.Keys| && |r| == |r.Keys|
  {
    assert table.Keys == a.Keys + r.Keys;
  }

  lemma PartsAreInTable(h: Hasher, idOf: string -> string, table: Table, part: Table, rest: Table)
    requires RowsReadBack(table, idOf) && RowsReadBack(part, idOf)
    requires !Collides(h, table.Values + rest.Values + part.Values) || !Collides(h, table.Values + part.Values + rest.Values)
    requires Hashes(h, part) <= Hashes(h, table)
    ensures forall id :: id in part ==> id in table && table[id] == part[id]
  {
    HashesSize(h, part);
    if Collides(h, part.Values + table.Values) {
      CollidesIsMonotone(h, part.Values + table.Values, table.Values + rest.Values + part.Values);
      CollidesIsMonotone(h, part.Values + table.Values, table.Values + part.Values + rest.Values);
    }
    forall id | id in part ensures id in table && table[id] == part[id] {
      assert h.digest(part[id]) in Hashes(h, part);
      SameHashSameRow(h, idOf, part, table, id);
    }
  }

  lemma TableIsInParts(h: Hasher, idOf: string -> string, table: Table, a: Table, r: Table)
    requires RowsReadBack(table, idOf) && RowsReadBack(a, idOf) && RowsReadBack(r, idOf)
    requires !Collides(h, table.Values + r.Values + a.Values)
    requires Hashes(h, table) == Hashes(h, a) + Hashes(h, r)
    ensures forall id :: id in table ==> id in a || id in r
  {
    HashesSize(h, table);
    var all := table.Values + r.Values + a.Values;
    if Collides(h, table.Values + a.Values) { CollidesIsMonotone(h, table.Values + a.Values, all); }
    if Collides(h, table.Values + r.Values) { CollidesIsMonotone(h, table.Values + r.Values, all); }
    forall id | id in table ensures id in a || id in r {
      var x := h.digest(table[id]);
      assert x in Hashes(h, table);
      if x in Hashes(h, a) {
        SameHashSameRow(h, idOf, table, a, id);
      } else {
        SameHashSameRow(h, idOf, table, r, id);
      }
    }
  }

  lemma SameRowHashesIff(h: Hasher, a: Table, b: Table)
    requires !Collides(h, a.Values + b.Values)
    ensures RowHashes(h, a) == RowHashes(h, b) <==> a == b
  {
    if RowHashes(h, a) == RowHashes(h, b) {
      assert a.Keys == RowHashes(h, a).Keys == RowHashes(h, b).Keys == b.Keys;
      forall id | id in a ensures a[id] == b[id] {
        assert RowHashes(h, a)[id] == RowHashes(h, b)[id];
        assert a[id] in a.Values + b.Values && b[id] in a.Values + b.Values;
      }
    }
  }
}
