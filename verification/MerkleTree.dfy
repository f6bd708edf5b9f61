/** internal/hash/hash.go: the second implementation of the Merkle root, over plain strings. */
module MerkleTrees {
  import opened ByteStrings
  import opened Hashing
  import opened MerkleShape

  function JoinHashes(h: Hasher, hashes: seq<string>): (r: seq<string>)
    ensures |r| == (|hashes| + 1) / 2
  {
    if hashes == [] then []
    else if |hashes| == 1 then [h.digest(hashes[0] + hashes[0])]
    else [h.digest(hashes[0] + hashes[1])] + JoinHashes(h, hashes[2..])
  }

  /** The root over hashes in the given order; the empty string for none. */
  function RootOf(h: Hasher, hashes: seq<string>): string
    decreases |hashes|
  {
    if hashes == [] then "" else if |hashes| == 1 then hashes[0] else RootOf(h, JoinHashes(h, hashes))
  }

  class MerkleTree {
    const hasher: Hasher
    var leaves: seq<string>

    constructor (h: Hasher)
      ensures hasher == h && leaves == []
    {
      hasher, leaves := h, [];
    }

    /** `text` stands for the marshalled data. */
    method AddLeaf(text: string)
      modifies this
      ensures leaves == old(leaves) + [hasher.digest(text)]
    {
      leaves := leaves + [hasher.digest(text)];
    }

    method AddLeafHash(hash: string)
      modifies this
      ensures leaves == old(leaves) + [hash]
    {
      leaves := leaves + [hash];
    }

    method GetRoot() returns (r: string)
      ensures r == RootOf(hasher, SortStrings(leaves))
    {
      if |leaves| == 0 {
        return "";
      }
      r := CalculateRoot(SortStrings(leaves));
    }

    method CalculateRoot(hashes: seq<string>) returns (r: string)
      ensures r == RootOf(hasher, hashes)
      decreases |hashes|
    {
      if |hashes| == 0 {
        return "";
      }
      if |hashes| == 1 {
        return hashes[0];
      }
      var nextLevel: seq<string> := [];
      var i := 0;
      while i < |hashes|
        invariant 0 <= i <= |hashes| + 1
        invariant nextLevel + JoinHashes(hasher, hashes[if i <= |hashes| then i else |hashes|..])
                  == JoinHashes(hasher, hashes)
      {
        var combined: string;
        if i + 1 < |hashes| {
          combined := hashes[i] + hashes[i + 1];
          assert hashes[i..][2..] == hashes[i + 2..];
        } else {
          combined := hashes[i] + hashes[i];
        }
        nextLevel := nextLevel + [hasher.digest(combined)];
        i := i + 2;
      }
      assert nextLevel == JoinHashes(hasher, hashes);
      r := CalculateRoot(nextLevel);
    }

    method Reset()
      modifies this
      ensures leaves == []
    {
      leaves := [];
    }
  }

  // ---------------------------------------------------------------- agreement with the builder

  ghost predicate SameHashes(nodes: seq<Tree>, hashes: seq<string>) {
    |nodes| == |hashes| && forall i :: 0 <= i < |nodes| ==> nodes[i].hash == hashes[i]
  }

  lemma {:induction false} LevelsAgree(h: Hasher, nodes: seq<Tree>, hashes: seq<string>)
    requires SameHashes(nodes, hashes)
    ensures SameHashes(PairUp(h, nodes), JoinHashes(h, hashes))
  {
    if |nodes| >= 2 {
      LevelsAgree(h, nodes[2..], hashes[2..]);
    }
  }

  lemma {:induction false} RootsAgree(h: Hasher, nodes: seq<Tree>, hashes: seq<string>)
    requires nodes != [] && SameHashes(nodes, hashes)
    ensures Assemble(h, nodes).hash == RootOf(h, hashes)
    decreases |nodes|
  {
    if |nodes| > 1 {
      LevelsAgree(h, nodes, hashes);
      RootsAgree(h, PairUp(h, nodes), JoinHashes(h, hashes));
    }
  }

  /** Over the same leaves, added in any order, the two implementations give the same root. */
  lemma ImplementationsAgree(h: Hasher, a: seq<string>, b: seq<string>)
    requires a != [] && multiset(a) == multiset(b)
    ensures b != []
    ensures RootOf(h, SortStrings(a)) == BuildTree(h, b).hash
  {
    assert a[0] in multiset(b);
    SortForgetsOrder(a, b);
    RootsAgree(h, Leaves(SortStrings(b)), SortStrings(b));
  }
}
