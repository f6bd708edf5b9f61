/** The hashes of a chain's entries as a multiset, in whatever order a scan lists the entries, and
    the cache law: a checkpoint plus the entries after it stands for the whole chain. */
module ChainHashes {
  import opened Hashing
  import opened LeafMaps
  import opened MapValues
  import opened Options
  import opened Storages
  import opened VerificationPass

  /** The hash of an entry, if its number is at most k. */
  function Share(e: HashEntry, k: nat): seq<string> {
    if e.sequenceNum <= k then [e.dataHash] else []
  }

  function KeptUpTo(entries: seq<HashEntry>, k: nat): seq<string> {
    if entries == [] then []
    else KeptUpTo(entries[..|entries| - 1], k) + Share(entries[|entries| - 1], k)
  }

  ghost function HashesUpTo(entries: seq<HashEntry>, k: nat): multiset<string> {
    multiset(KeptUpTo(entries, k))
  }

  ghost function AllHashes(entries: seq<HashEntry>): multiset<string> {
    multiset(EntryLeaves(entries))
  }

  lemma EntryLeavesSplit(entries: seq<HashEntry>)
    requires entries != []
    ensures var n := |entries| - 1;
      EntryLeaves(entries) == EntryLeaves(entries[..n]) + [entries[n].dataHash]
  {
  }

  lemma {:induction false} UpToAll(entries: seq<HashEntry>, k: nat)
    requires forall i :: 0 <= i < |entries| ==> entries[i].sequenceNum <= k
    ensures KeptUpTo(entries, k) == EntryLeaves(entries)
  {
    if entries != [] {
      EntryLeavesSplit(entries);
      UpToAll(entries[..|entries| - 1], k);
    }
  }

  ghost predicate Numbered(chain: seq<HashEntry>) {
    forall i :: 0 <= i < |chain| ==> chain[i].sequenceNum == i + 1
  }

  lemma {:induction false} NoneUpTo(entries: seq<HashEntry>, k: nat)
    requires forall i :: 0 <= i < |entries| ==> entries[i].sequenceNum > k
    ensures KeptUpTo(entries, k) == []
  {
    if entries != [] {
      NoneUpTo(entries[..|entries| - 1], k);
    }
  }

  /** In a numbered chain the entries up to k are the first k. */
  lemma UpToIsPrefix(chain: seq<HashEntry>, k: nat)
    requires Numbered(chain) && k <= |chain|
    ensures HashesUpTo(chain, k) == AllHashes(chain[..k])
  {
    KeptOfConcat(chain[..k], chain[k..], k);
    assert chain == chain[..k] + chain[k..];
    UpToAll(chain[..k], k);
    NoneUpTo(chain[k..], k);
  }

  lemma HashesOfConcat(a: seq<HashEntry>, b: seq<HashEntry>)
    ensures AllHashes(a + b) == AllHashes(a) + AllHashes(b)
  {
    assert EntryLeaves(a + b) == EntryLeaves(a) + EntryLeaves(b);
  }

  lemma AppendEntry(entries: seq<HashEntry>, e: HashEntry, k: nat)
    ensures HashesUpTo(entries + [e], k) == HashesUpTo(entries, k) + multiset(Share(e, k))
    ensures AllHashes(entries + [e]) == AllHashes(entries) + multiset{e.dataHash}
  {
    assert (entries + [e])[..|entries|] == entries;
    assert EntryLeaves(entries + [e]) == EntryLeaves(entries) + [e.dataHash];
  }

  // ---------------------------------------------------------------- scan order does not matter

  ghost predicate NoRepeats(s: seq<HashEntry>) {
    forall i, j :: 0 <= i < j < |s| ==> s[i] != s[j]
  }

  /** a and b list the same entries, each once. */
  ghost predicate Permutes(a: seq<HashEntry>, b: seq<HashEntry>) {
    NoRepeats(a) && NoRepeats(b) && forall e :: e in a <==> e in b
  }

  function Without(s: seq<HashEntry>, i: nat): seq<HashEntry>
    requires i < |s|
  {
    s[..i] + s[i + 1..]
  }

  lemma {:induction false} KeptOfConcat(a: seq<HashEntry>, b: seq<HashEntry>, k: nat)
    ensures KeptUpTo(a + b, k) == KeptUpTo(a, k) + KeptUpTo(b, k)
  {
    if b == [] {
      assert a + b == a;
    } else {
      var n := |b| - 1;
      KeptOfConcat(a, b[..n], k);
      var all := a + b;
      assert all[..|a| + n] == a + b[..n] && all[|a| + n] == b[n];
      assert KeptUpTo(all, k) == KeptUpTo(a + b[..n], k) + Share(b[n], k);
    }
  }

  lemma HashesWithout(s: seq<HashEntry>, i: nat, k: nat)
    requires i < |s|
    ensures HashesUpTo(s, k) == HashesUpTo(Without(s, i), k) + multiset(Share(s[i], k))
  {
    var before, after := s[..i], s[i + 1..];
    KeptOfConcat(before, after, k);
    KeptOfConcat(before + [s[i]], after, k);
    assert s == before + [s[i]] + after;
    assert KeptUpTo(before + [s[i]], k) == KeptUpTo(before, k) + Share(s[i], k) by {
      assert (before + [s[i]])[..i] == before;
    }
  }

  lemma {:induction false} SameHashesInAnyOrder(a: seq<HashEntry>, b: seq<HashEntry>, k: nat)
    requires Permutes(a, b)
    ensures |a| == |b| && HashesUpTo(a, k) == HashesUpTo(b, k)
  {
    if b != [] {
      assert b[0] in a;
    }
    if a != [] {
      var n := |a| - 1;
      assert a[n] in b;
      var j :| 0 <= j < |b| && b[j] == a[n];
      LastTakenOut(a, b, j);
      SameHashesInAnyOrder(a[..n], Without(b, j), k);
      HashesWithout(b, j, k);
    }
  }

  lemma LastTakenOut(a: seq<HashEntry>, b: seq<HashEntry>, j: nat)
    requires Permutes(a, b) && a != [] && j < |b| && b[j] == a[|a| - 1]
    ensures Permutes(a[..|a| - 1], Without(b, j))
  {
    var n, c := |a| - 1, Without(b, j);
    forall e ensures e in c <==> e in b && e != b[j] {
      if e in b && e != b[j] {
        var i :| 0 <= i < |b| && b[i] == e;
        assert c[if i < j then i else i - 1] == e;
      }
    }
    forall e ensures e in a[..n] <==> e in a && e != a[n] {
      if e in a && e != a[n] {
        var i :| 0 <= i < |a| && a[i] == e;
        assert a[..n][i] == e;
      }
    }
  }

  lemma AllHashesInAnyOrder(a: seq<HashEntry>, b: seq<HashEntry>, k: nat)
    requires Permutes(a, b) && forall i :: 0 <= i < |b| ==> b[i].sequenceNum <= k
    ensures AllHashes(a) == AllHashes(b) && |a| == |b|
  {
    SameHashesInAnyOrder(a, b, k);
    forall i | 0 <= i < |a| ensures a[i].sequenceNum <= k {
      assert a[i] in b;
    }
    UpToAll(a, k);
    UpToAll(b, k);
  }

  // ---------------------------------------------------------------- checkpoint path and full scan

  /** The entries after `after` have record ids of their own, none of them a key of the leaf map. */
  ghost predicate NewIdsAreNew(leafMap: LeafMap, entries: seq<HashEntry>, after: nat) {
    && (forall i :: 0 <= i < |entries| && entries[i].sequenceNum > after ==> entries[i].recordID !in leafMap)
    && (forall i, j :: 0 <= i < j < |entries| && entries[i].sequenceNum > after && entries[j].sequenceNum > after ==>
          entries[i].recordID != entries[j].recordID)
  }

  lemma {:induction false} OverlayKeys(leafMap: LeafMap, entries: seq<HashEntry>, after: nat, id: string)
    requires id in Overlay(leafMap, entries, after) && id !in leafMap
    ensures exists i :: 0 <= i < |entries| && entries[i].sequenceNum > after && entries[i].recordID == id
  {
    var n := |entries| - 1;
    if !(entries[n].sequenceNum > after && entries[n].recordID == id) {
      OverlayKeys(leafMap, entries[..n], after, id);
    }
  }

  lemma NewIdIsNotThere(leafMap: LeafMap, entries: seq<HashEntry>, after: nat)
    requires entries != [] && NewIdsAreNew(leafMap, entries, after) && entries[|entries| - 1].sequenceNum > after
    ensures entries[|entries| - 1].recordID !in Overlay(leafMap, entries[..|entries| - 1], after)
  {
    var n := |entries| - 1;
    if entries[n].recordID in Overlay(leafMap, entries[..n], after) {
      OverlayKeys(leafMap, entries[..n], after, entries[n].recordID);
      assert false;
    }
  }

  /** One more entry adds its hash to the overlaid map if it comes after the checkpoint, and to the
      hashes up to the checkpoint's number otherwise. */
  lemma LastEntryAddsHash(leafMap: LeafMap, entries: seq<HashEntry>, after: nat)
    requires entries != [] && NewIdsAreNew(leafMap, entries, after)
    ensures var n := |entries| - 1;
      && ValuesOf(Overlay(leafMap, entries, after)) + multiset(Share(entries[n], after)) ==
         ValuesOf(Overlay(leafMap, entries[..n], after)) + multiset{entries[n].dataHash}
  {
    var n := |entries| - 1;
    var e, before := entries[n], Overlay(leafMap, entries[..n], after);
    if e.sequenceNum > after {
      NewIdIsNotThere(leafMap, entries, after);
      ValuesOfPut(before, e.recordID, e.dataHash);
    }
  }

  /** Overlaying adds exactly the later entries' hashes to those of the leaf map. */
  lemma {:induction false} OverlayAddsLater(leafMap: LeafMap, entries: seq<HashEntry>, after: nat)
    requires NewIdsAreNew(leafMap, entries, after)
    ensures ValuesOf(Overlay(leafMap, entries, after)) + HashesUpTo(entries, after) ==
            ValuesOf(leafMap) + AllHashes(entries)
  {
    if entries != [] {
      var n := |entries| - 1;
      OverlayAddsLater(leafMap, entries[..n], after);
      LastEntryAddsHash(leafMap, entries, after);
      EntryLeavesSplit(entries);
      AddOne(ValuesOf(Overlay(leafMap, entries[..n], after)), HashesUpTo(entries[..n], after), ValuesOf(leafMap),
             AllHashes(entries[..n]), ValuesOf(Overlay(leafMap, entries, after)), multiset(Share(entries[n], after)),
             multiset{entries[n].dataHash});
    }
  }

  lemma AddOne(v: multiset<string>, u: multiset<string>, l: multiset<string>, all: multiset<string>,
               w: multiset<string>, share: multiset<string>, x: multiset<string>)
    requires v + u == l + all
    requires w + share == v + x
    ensures w + (u + share) == l + (all + x)
  {
    forall y ensures (w + (u + share))[y] == (l + (all + x))[y] {
      assert (v + u)[y] == (l + all)[y] && (w + share)[y] == (v + x)[y];
    }
  }

  lemma Cancel(a: multiset<string>, b: multiset<string>, c: multiset<string>, all: multiset<string>)
    requires a + b == (c + b) + all
    ensures a == c + all
  {
    forall x ensures a[x] == (c + all)[x] {
      assert (a + b)[x] == ((c + b) + all)[x];
    }
  }

  /** The expected leaves of a pass are the hashes the checkpoint holds beyond the chain, and those
      of all entries. */
  lemma ExpectedLeavesAre(entries: seq<HashEntry>, cp: Option<MerkleCheckpoint>, extra: multiset<string>)
    requires HasLeafMap(cp) ==>
      && NewIdsAreNew(cp.value.leafMap, entries, cp.value.sequenceNum)
      && ValuesOf(cp.value.leafMap) == extra + HashesUpTo(entries, cp.value.sequenceNum)
    requires !HasLeafMap(cp) ==> extra == multiset{}
    ensures multiset(ExpectedLeaves(entries, cp)) == extra + AllHashes(entries)
  {
    if HasLeafMap(cp) {
      var m := Overlay(cp.value.leafMap, entries, cp.value.sequenceNum);
      OverlayAddsLater(cp.value.leafMap, entries, cp.value.sequenceNum);
      CollectHasValues(m, m.Keys);
      Cancel(ValuesOf(m), HashesUpTo(entries, cp.value.sequenceNum), extra, AllHashes(entries));
    }
  }

  /** The cache law: when the leaf map holds the hashes of the entries up to the checkpoint's number
      and later entries bring new record ids, the checkpoint gives the root and the count of a scan
      of every entry. */
  lemma CheckpointPathIsFullScan(h: Hasher, entries: seq<HashEntry>, cp: MerkleCheckpoint)
    requires cp.leafMap != map[]
    requires NewIdsAreNew(cp.leafMap, entries, cp.sequenceNum)
    requires ValuesOf(cp.leafMap) == HashesUpTo(entries, cp.sequenceNum)
    ensures RootOver(h, ExpectedLeaves(entries, Some(cp))) == RootOver(h, ExpectedLeaves(entries, None))
    ensures |ExpectedLeaves(entries, Some(cp))| == |ExpectedLeaves(entries, None)| == |entries|
  {
    ExpectedLeavesAre(entries, Some(cp), multiset{});
    SameMultisetSameRoot(h, ExpectedLeaves(entries, Some(cp)), EntryLeaves(entries));
  }
}
