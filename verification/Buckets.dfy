/** bbolt buckets as the code uses them: byte-string keys in byte order, walked by a cursor.
    A cursor position is a key; seeking and stepping pick the least key at or after a position,
    in whatever the bucket holds at that moment. */
module Buckets {
  import opened ByteStrings

  datatype Position = AtEnd | At(key: string)

  ghost predicate IsLeast(k: string, keys: set<string>) {
    k in keys && forall j :: j in keys ==> Leq(k, j)
  }

  ghost predicate IsGreatest(k: string, keys: set<string>) {
    k in keys && forall j :: j in keys ==> Leq(j, k)
  }

  lemma {:induction false} LeastExists(keys: set<string>)
    requires keys != {}
    ensures exists k :: IsLeast(k, keys)
  {
    var x :| x in keys;
    var rest := keys - {x};
    LeqReflexive(x);
    if rest == {} {
      assert keys == {x};
      assert IsLeast(x, keys);
    } else {
      LeastExists(rest);
      var m :| IsLeast(m, rest);
      LeqTotal(x, m);
      if Leq(x, m) {
        forall j | j in keys ensures Leq(x, j) {
          if j != x { LeqTransitive(x, m, j); }
        }
        assert IsLeast(x, keys);
      } else {
        assert IsLeast(m, keys);
      }
    }
  }

  lemma {:induction false} GreatestExists(keys: set<string>)
    requires keys != {}
    ensures exists k :: IsGreatest(k, keys)
  {
    var x :| x in keys;
    var rest := keys - {x};
    LeqReflexive(x);
    if rest == {} {
      assert keys == {x};
      assert IsGreatest(x, keys);
    } else {
      GreatestExists(rest);
      var m :| IsGreatest(m, rest);
      LeqTotal(x, m);
      if Leq(m, x) {
        forall j | j in keys ensures Leq(j, x) {
          if j != x { LeqTransitive(j, m, x); }
        }
        assert IsGreatest(x, keys);
      } else {
        assert IsGreatest(m, keys);
      }
    }
  }

  lemma ExtremesAreUnique(keys: set<string>)
    ensures forall a, b :: IsLeast(a, keys) && IsLeast(b, keys) ==> a == b
    ensures forall a, b :: IsGreatest(a, keys) && IsGreatest(b, keys) ==> a == b
  {
    forall a, b | (IsLeast(a, keys) && IsLeast(b, keys)) || (IsGreatest(a, keys) && IsGreatest(b, keys))
      ensures a == b
    {
      LeqAntisymmetric(a, b);
    }
  }

  ghost function Least(keys: set<string>): (k: string)
    requires keys != {}
    ensures IsLeast(k, keys)
  {
    LeastExists(keys);
    var k :| IsLeast(k, keys);
    k
  }

  /** A cursor that has these keys in front of it: it stands at the least of them, or at the end. */
  ghost predicate Faces(p: Position, keys: set<string>) {
    if keys == {} then p == AtEnd else p.At? && IsLeast(p.key, keys)
  }

  /** `Cursor.First`. */
  method First<V>(bucket: map<string, V>) returns (p: Position)
    ensures Faces(p, bucket.Keys)
  {
    p := PickLeast(bucket.Keys);
  }

  /** `Cursor.Last`. */
  method Last<V>(bucket: map<string, V>) returns (p: Position)
    ensures if bucket.Keys == {} then p == AtEnd else p.At? && IsGreatest(p.key, bucket.Keys)
  {
    if bucket.Keys == {} {
      return AtEnd;
    }
    GreatestExists(bucket.Keys);
    assert exists k :: k in bucket.Keys && forall j :: j in bucket.Keys ==> Leq(j, k);
    var k :| k in bucket.Keys && forall j :: j in bucket.Keys ==> Leq(j, k);
    p := At(k);
  }

  /** The keys a cursor sought to `from` has in front of it. */
  ghost function KeysFrom(keys: set<string>, from: string): set<string> {
    set k | k in keys && Leq(from, k)
  }

  ghost function KeysAfter(keys: set<string>, after: string): set<string> {
    set k | k in keys && Less(after, k)
  }

  /** `Cursor.Seek`. */
  method Seek<V>(bucket: map<string, V>, from: string) returns (p: Position)
    ensures Faces(p, KeysFrom(bucket.Keys, from))
  {
    p := PickLeast(set k | k in bucket.Keys && Leq(from, k));
  }

  /** `Cursor.Next`, from a cursor that stands at key `at`, whether or not that key is still there. */
  method Next<V>(bucket: map<string, V>, at: string) returns (p: Position)
    ensures Faces(p, KeysAfter(bucket.Keys, at))
  {
    p := PickLeast(set k | k in bucket.Keys && Less(at, k));
  }

  method PickLeast(keys: set<string>) returns (p: Position)
    ensures Faces(p, keys)
  {
    if keys == {} {
      return AtEnd;
    }
    LeastExists(keys);
    assert exists k :: k in keys && forall j :: j in keys ==> Leq(k, j);
    var k :| k in keys && forall j :: j in keys ==> Leq(k, j);
    p := At(k);
  }

  // ---------------------------------------------------------------- scans

  /** A set of keys in ascending order. */
  ghost function InOrder(keys: set<string>): (r: seq<string>)
    ensures |r| == |keys|
    ensures forall k :: k in r <==> k in keys
    decreases |keys|
  {
    if keys == {} then [] else [Least(keys)] + InOrder(keys - {Least(keys)})
  }

  lemma {:induction false} InOrderAscends(keys: set<string>)
    ensures Ascending(InOrder(keys))
    decreases |keys|
  {
    if keys != {} {
      var k := Least(keys);
      InOrderAscends(keys - {k});
      var rest := InOrder(keys - {k});
      forall j | 0 <= j < |rest| ensures Less(k, rest[j]) {
        assert rest[j] in rest;
      }
    }
  }

  ghost function WithPrefix(keys: set<string>, prefix: string): set<string> {
    set k | k in keys && prefix <= k
  }

  /** The keys with the prefix at or after position p. */
  ghost function Ahead(keys: set<string>, prefix: string, p: Position): set<string> {
    if p.AtEnd? then {} else set k | k in keys && prefix <= k && Leq(p.key, k)
  }

  /** Seeking the prefix skips no key that carries it. */
  lemma SeekStartsScan(keys: set<string>, prefix: string, p: Position)
    requires Faces(p, KeysFrom(keys, prefix))
    ensures Ahead(keys, prefix, p) == WithPrefix(keys, prefix)
  {
    forall k | k in WithPrefix(keys, prefix)
      ensures k in Ahead(keys, prefix, p)
    {
      PrefixIsLeq(prefix, k);
      assert k in KeysFrom(keys, prefix);
    }
  }

  /** While the prefix still matches, one step consumes exactly the key under the cursor. */
  lemma StepContinuesScan(keys: set<string>, prefix: string, at: string, p: Position)
    requires at in keys && prefix <= at
    requires Faces(p, KeysAfter(keys, at))
    ensures IsLeast(at, Ahead(keys, prefix, At(at)))
    ensures Ahead(keys, prefix, At(at)) - {at} == Ahead(keys, prefix, p)
  {
    LeqReflexive(at);
    forall k | k in keys && prefix <= k
      ensures (Leq(at, k) && k != at) <==> (p.At? && Leq(p.key, k))
    {
      assert k in KeysAfter(keys, at) <==> Less(at, k);
      if p.At? && Leq(p.key, k) {
        assert p.key in KeysAfter(keys, at);
        LessTransitive(at, p.key, k);
      }
    }
  }

  /** Once the prefix stops matching, no key that carries it lies ahead. */
  lemma MismatchEndsScan(keys: set<string>, prefix: string, p: Position)
    requires p.At? ==> Leq(prefix, p.key) && !(prefix <= p.key)
    ensures Ahead(keys, prefix, p) == {}
  {
    if p.At? {
      forall k | k in keys && prefix <= k && Leq(p.key, k) ensures false {
        PrefixInterval(prefix, p.key, k);
      }
    }
  }

  /** The values under some keys, in key order. */
  ghost function Collect<V>(bucket: map<string, V>, keys: set<string>): seq<V>
    requires keys <= bucket.Keys
    decreases |keys|
  {
    if keys == {} then [] else [bucket[Least(keys)]] + Collect(bucket, keys - {Least(keys)})
  }

  lemma {:induction false} CollectFollowsOrder<V>(bucket: map<string, V>, keys: set<string>)
    requires keys <= bucket.Keys
    ensures |Collect(bucket, keys)| == |InOrder(keys)|
    ensures forall i :: 0 <= i < |InOrder(keys)| ==>
      InOrder(keys)[i] in bucket && Collect(bucket, keys)[i] == bucket[InOrder(keys)[i]]
    decreases |keys|
  {
    if keys != {} {
      var rest := keys - {Least(keys)};
      CollectFollowsOrder(bucket, rest);
      assert InOrder(keys) == [Least(keys)] + InOrder(rest);
      assert Collect(bucket, keys) == [bucket[Least(keys)]] + Collect(bucket, rest);
    }
  }

  lemma CollectHead<V>(bucket: map<string, V>, keys: set<string>, k: string)
    requires keys <= bucket.Keys && IsLeast(k, keys)
    ensures Collect(bucket, keys) == [bucket[k]] + Collect(bucket, keys - {k})
  {
    ExtremesAreUnique(keys);
  }

  /** What a prefix scan yields: the values of the matching keys, in key order. */
  ghost function Scan<V>(bucket: map<string, V>, prefix: string): seq<V> {
    Collect(bucket, WithPrefix(bucket.Keys, prefix))
  }

  /** What is still to come of a scan whose cursor stands at p. */
  ghost function Rest<V>(bucket: map<string, V>, prefix: string, p: Position): seq<V> {
    Collect(bucket, Ahead(bucket.Keys, prefix, p))
  }

  lemma ScanStart<V>(bucket: map<string, V>, prefix: string, p: Position)
    requires Faces(p, KeysFrom(bucket.Keys, prefix))
    ensures Rest(bucket, prefix, p) == Scan(bucket, prefix)
    ensures p.At? ==> p.key in bucket && Leq(prefix, p.key)
  {
    SeekStartsScan(bucket.Keys, prefix, p);
  }

  lemma ScanStep<V>(bucket: map<string, V>, prefix: string, at: string, p: Position)
    requires at in bucket && prefix <= at
    requires Faces(p, KeysAfter(bucket.Keys, at))
    ensures Rest(bucket, prefix, At(at)) == [bucket[at]] + Rest(bucket, prefix, p)
    ensures p.At? ==> p.key in bucket && Leq(prefix, p.key)
  {
    StepContinuesScan(bucket.Keys, prefix, at, p);
    CollectHead(bucket, Ahead(bucket.Keys, prefix, At(at)), at);
    if p.At? {
      StepStaysBehindPrefix(bucket.Keys, prefix, at, p.key);
    }
  }

  lemma StepStaysBehindPrefix(keys: set<string>, prefix: string, at: string, k: string)
    requires prefix <= at && k in KeysAfter(keys, at)
    ensures Leq(prefix, k)
  {
    PrefixIsLeq(prefix, at);
    LessTransitive(prefix, at, k);
  }

  lemma ScanEnd<V>(bucket: map<string, V>, prefix: string, p: Position)
    requires p.At? ==> Leq(prefix, p.key) && !(prefix <= p.key)
    ensures Rest(bucket, prefix, p) == []
  {
    MismatchEndsScan(bucket.Keys, prefix, p);
  }
}
