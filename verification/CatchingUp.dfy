/** What a store must hold so that replaying the log from some index brings it up to date. */
module CatchingUp {
  import opened Fsms
  import opened Storages

  type Bucket = map<string, HashEntry>

  /** Replaying the log from `from` to `upTo` onto the bucket gives what the whole log up to there
      gives; the bucket has the keys of the entries before `from`, and may have any of those after. */
  ghost predicate CatchesUp(log: seq<Command>, bucket: Bucket, from: nat, upTo: nat) {
    && from <= upTo <= |log| && OwnKeys(bucket)
    && Fold(log[..from]).Keys <= bucket.Keys <= Fold(log[..upTo]).Keys
    && FoldFrom(bucket, log[from..upTo]) == Fold(log[..upTo])
  }

  lemma NothingCatchesUp(log: seq<Command>)
    ensures CatchesUp(log, map[], 0, 0)
  {
  }

  /** A bucket with nothing left to replay is the log's. */
  lemma CaughtUp(log: seq<Command>, bucket: Bucket, at: nat)
    requires CatchesUp(log, bucket, at, at)
    ensures bucket == Fold(log[..at])
  {
    assert log[at..at] == [];
  }

  lemma StillCatchesUp(log: seq<Command>, more: seq<Command>, bucket: Bucket, from: nat, upTo: nat)
    requires CatchesUp(log, bucket, from, upTo)
    ensures CatchesUp(log + more, bucket, from, upTo)
  {
    assert (log + more)[..from] == log[..from] && (log + more)[..upTo] == log[..upTo];
    assert (log + more)[from..upTo] == log[from..upTo];
  }

  lemma CatchesUpFurther(log: seq<Command>, bucket: Bucket, from: nat, upTo: nat, further: nat)
    requires CatchesUp(log, bucket, from, upTo) && upTo <= further <= |log|
    ensures CatchesUp(log, bucket, from, further)
  {
    FoldKeysGrow(log, upTo, further);
    SplitReplay(log, bucket, from, upTo, further);
    SplitReplay(log, map[], 0, upTo, further);
    assert log[0..upTo] == log[..upTo] && log[0..further] == log[..further];
  }

  lemma SplitReplay(log: seq<Command>, bucket: Bucket, from: nat, upTo: nat, further: nat)
    requires from <= upTo <= further <= |log|
    ensures FoldFrom(bucket, log[from..further]) == FoldFrom(FoldFrom(bucket, log[from..upTo]), log[upTo..further])
  {
    FoldInTurn(bucket, log[from..upTo], log[upTo..further]);
    assert log[from..further] == log[from..upTo] + log[upTo..further];
  }

  lemma CatchesUpAfterApply(log: seq<Command>, bucket: Bucket, from: nat, upTo: nat)
    requires CatchesUp(log, bucket, from, upTo) && from < upTo
    ensures CatchesUp(log, Write(bucket, log[from]), from + 1, upTo)
  {
    var one, rest := [log[from]], log[from + 1..upTo];
    assert log[from..upTo] == one + rest;
    assert one[..0] == [];
    FoldInTurn(bucket, one, rest);
    FoldKeysGrow(log, from + 1, upTo);
    assert log[..from + 1][..from] == log[..from] && log[..from + 1][from] == log[from];
    assert Fold(log[..from + 1]) == Write(Fold(log[..from]), log[from]);
  }

  lemma OverlayReplay(bucket: Bucket, a: Bucket, b: Bucket, c: Bucket)
    requires bucket.Keys <= (a + b + c).Keys && bucket + c == a + b + c
    ensures bucket + (b + c) == a + b + c
  {
    forall k | k in bucket && k !in b && k !in c ensures bucket[k] == (a + b + c)[k] {
      assert (bucket + c)[k] == bucket[k];
    }
  }

  /** Replaying from an earlier index does no harm. */
  lemma CatchesUpFromEarlier(log: seq<Command>, bucket: Bucket, from: nat, upTo: nat, earlier: nat)
    requires CatchesUp(log, bucket, from, upTo) && earlier <= from
    ensures CatchesUp(log, bucket, earlier, upTo)
  {
    FoldKeysGrow(log, earlier, from);
    var a, b, c := log[..earlier], log[earlier..from], log[from..upTo];
    assert log[..upTo] == a + b + c && log[earlier..upTo] == b + c;
    ThreeParts(a, b, c);
    FoldOverlays(bucket, c);
    FoldOverlays(bucket, b + c);
    OverlayReplay(bucket, Fold(a), Fold(b), Fold(c));
  }

  /** Restoring a snapshot onto any bucket of this log leaves one that catches up from the snapshot. */
  lemma RestoreCatchesUp(log: seq<Command>, bucket: Bucket, saved: Bucket, from: nat, upTo: nat)
    requires CatchesUp(log, saved, from, upTo) && OwnKeys(bucket) && bucket.Keys <= Fold(log[..upTo]).Keys
    ensures CatchesUp(log, bucket + saved, from, upTo)
  {
    var replay := log[from..upTo];
    FoldOverlays(saved, replay);
    FoldOverlays(bucket + saved, replay);
    assert bucket + saved + Fold(replay) == bucket + Fold(log[..upTo]);
    assert bucket + Fold(log[..upTo]) == Fold(log[..upTo]);
  }
}
