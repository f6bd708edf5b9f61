/** From the store to the passes of the detection results: as long as the checkpoint lookup finds the
    newest checkpoint, `VerifyTable` is a pass of a history, whichever entry counts as the latest. */
module StoredPasses {
  import opened ByteStrings
  import opened Buckets
  import opened ChainHashes
  import opened DecimalKeys
  import opened Detection
  import opened DetectionRuns
  import opened Hashing
  import opened Options
  import opened Storages
  import opened TableViews
  import opened VerificationPass

  /** The two buckets, seen per table, hold the history's chain and checkpoints. */
  ghost predicate Stores(hashChain: map<string, HashEntry>, checkpoints: map<string, MerkleCheckpoint>, t: string, s: History)
    requires IsTableName(t)
  {
    && KeysArePrinted(hashChain.Keys) && KeysArePrinted(checkpoints.Keys)
    && HoldsChain(View(hashChain, t), s.chain)
    && View(checkpoints, t) == s.checkpoints
  }

  ghost predicate HoldsChain(view: map<nat, HashEntry>, chain: seq<HashEntry>) {
    && (forall n :: n in view <==> 1 <= n <= |chain|)
    && (forall n :: n in view ==> view[n] == chain[n - 1])
  }

  /** Byte order finds the greatest of these numbers. */
  ghost predicate GreatestComesLast(numbers: set<nat>) {
    forall top :: IsMax(top, numbers) ==> forall m :: m in numbers ==> PaddedStaysBelow(m, top)
  }

  lemma LatestIsGreatest<V>(bucket: map<string, V>, t: string, top: nat)
    requires IsTableName(t) && KeysArePrinted(bucket.Keys)
    requires IsMax(top, View(bucket, t).Keys) && GreatestComesLast(View(bucket, t).Keys)
    ensures LastOf(Scan(bucket, t + ":")) == Some(View(bucket, t)[top])
  {
    LatestIsDecimalLast(bucket, t);
    DecimalLastIsMaxIff(View(bucket, t).Keys, top);
  }

  lemma LatestCheckpointIsNewest(bucket: map<string, MerkleCheckpoint>, t: string)
    requires IsTableName(t) && KeysArePrinted(bucket.Keys)
    requires GreatestComesLast(View(bucket, t).Keys)
    ensures LastOf(Scan(bucket, t + ":")) == Newest(View(bucket, t))
  {
    var view := View(bucket, t);
    LatestIsDecimalLast(bucket, t);
    if view != map[] {
      GreatestNumberExists(view.Keys);
      var n :| IsMax(n, view.Keys);
      NewestIs(view, n);
      LatestIsGreatest(bucket, t, n);
    }
  }

  lemma DifferentNumerals(order: seq<nat>, i: nat, j: nat)
    requires InDecimalOrder(order) && i < j < |order|
    ensures order[i] != order[j]
  {
    assert Less(Decimal(order[i]), Decimal(order[j]));
  }

  /** A scan lists the chain's entries, each once. */
  lemma ScanPermutesChain(bucket: map<string, HashEntry>, t: string, chain: seq<HashEntry>)
    requires IsTableName(t) && KeysArePrinted(bucket.Keys) && HoldsChain(View(bucket, t), chain) && Numbered(chain)
    ensures Permutes(Scan(bucket, t + ":"), chain)
  {
    var scan := Scan(bucket, t + ":");
    var order := PrefixScanIsTable(bucket, t);
    assert forall i :: 0 <= i < |scan| ==> order[i] >= 1 && scan[i] == chain[order[i] - 1];
    forall i, j | 0 <= i < j < |scan| ensures scan[i] != scan[j] {
      DifferentNumerals(order, i, j);
      assert scan[i].sequenceNum == order[i] && scan[j].sequenceNum == order[j];
    }
    forall e | e in chain ensures e in scan {
      var k :| 0 <= k < |chain| && chain[k] == e;
      assert k + 1 in order;
      var i :| 0 <= i < |order| && order[i] == k + 1;
      assert scan[i] == e;
    }
  }

  lemma SavedView(checkpoints: map<string, MerkleCheckpoint>, t: string, cp: MerkleCheckpoint)
    requires IsTableName(t) && KeysArePrinted(checkpoints.Keys) && cp.tableName == t
    ensures KeysArePrinted(Saved(checkpoints, cp).Keys)
    ensures View(Saved(checkpoints, cp), t) == View(checkpoints, t)[cp.sequenceNum := cp]
  {
    ViewAfterPut(checkpoints, t, cp.sequenceNum, cp, t);
    PutKeepsPrinted(checkpoints.Keys, t, cp.sequenceNum);
    assert Saved(checkpoints, cp).Keys == checkpoints.Keys + {RecordKey(t, cp.sequenceNum)};
  }

  /** The step a pass over the store is: the latest entry is the last one its scan meets. */
  ghost function PassStep(rows: seq<Row>, hashChain: map<string, HashEntry>, t: string, algorithm: string, now: int): Step {
    var entries := Scan(hashChain, t + ":");
    Verify(rows, entries, LastOf(entries), t, algorithm, now)
  }

  /** The checkpoint lookup finds the newest, and none is newer than the entry found as the latest. */
  ghost predicate CheckpointsAreInOrder(hashChain: map<string, HashEntry>, checkpoints: map<string, MerkleCheckpoint>, t: string)
    requires IsTableName(t)
  {
    && GreatestComesLast(View(checkpoints, t).Keys)
    && forall n :: n in View(checkpoints, t) ==> n <= NumberOf(LastOf(Scan(hashChain, t + ":")))
  }

  lemma LatestIsInChain(hashChain: map<string, HashEntry>, t: string, chain: seq<HashEntry>)
    requires Permutes(Scan(hashChain, t + ":"), chain) && Numbered(chain)
    ensures NumberOf(LastOf(Scan(hashChain, t + ":"))) <= |chain|
  {
    var entries := Scan(hashChain, t + ":");
    if entries != [] {
      assert entries[|entries| - 1] in chain;
    }
  }

  /** What `VerifyTable` reads and writes is a pass of the history the store holds. */
  lemma PassIsStep(h: Hasher, algorithm: string, t: string, now: int, rows: seq<Row>, idOf: string -> string,
                   hashChain: map<string, HashEntry>, before: map<string, MerkleCheckpoint>,
                   report: Report, after: map<string, MerkleCheckpoint>, s: History)
    requires IsTableName(t) && Stores(hashChain, before, t, s) && Numbered(s.chain) && Lists(rows, s.table)
    requires CheckpointsAreInOrder(hashChain, before, t)
    requires PassResult(h, algorithm, t, now, rows, Scan(hashChain, t + ":"), before, report, after)
    ensures var step := PassStep(rows, hashChain, t, algorithm, now);
      && Enabled(idOf, s, step)
      && (report.Passed? <==> !VerdictOf(h, s, step).Tampered?)
      && Stores(hashChain, after, t, After(h, s, step))
  {
    var entries := Scan(hashChain, t + ":");
    var step := PassStep(rows, hashChain, t, algorithm, now);
    ScanPermutesChain(hashChain, t, s.chain);
    LatestIsInChain(hashChain, t, s.chain);
    LatestCheckpointIsNewest(before, t);
    var verdict := Judge(h, rows, entries, Newest(s.checkpoints));
    assert verdict == VerdictOf(h, s, step);
    if report.Passed? {
      SavedView(before, t, CheckpointFor(verdict, t, LastOf(entries), algorithm, now));
    }
  }

  /** End to end: over such a store, `VerifyTable` passes exactly when it deserves to. */
  lemma StoredPassIsExact(h: Hasher, algorithm: string, t: string, now: int, rows: seq<Row>, idOf: string -> string,
                          hashChain: map<string, HashEntry>, before: map<string, MerkleCheckpoint>,
                          report: Report, after: map<string, MerkleCheckpoint>, s: History)
    requires IsTableName(t) && Stores(hashChain, before, t, s) && Sound(h, idOf, s) && Lists(rows, s.table)
    requires CheckpointsAreInOrder(hashChain, before, t)
    requires PassResult(h, algorithm, t, now, rows, Scan(hashChain, t + ":"), before, report, after)
    requires !Collides(h, StepTexts(h, s, PassStep(rows, hashChain, t, algorithm, now)))
    ensures report.Passed? <==> Deserves(s)
    ensures exists next :: Sound(h, idOf, next) && Stores(hashChain, after, t, next)
  {
    var step := PassStep(rows, hashChain, t, algorithm, now);
    PassIsStep(h, algorithm, t, now, rows, idOf, hashChain, before, report, after, s);
    VerdictIsExact(h, idOf, s, step);
    StepKeepsSound(h, idOf, s, step);
    assert Stores(hashChain, after, t, After(h, s, step));
  }
}
