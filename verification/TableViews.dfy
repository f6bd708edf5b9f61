/** The store seen as one numbered chain per table, and what the key order makes of "latest". */
module TableViews {
  import opened ByteStrings
  import opened Buckets
  import opened DecimalKeys
  import opened Options
  import opened Storages

  predicate IsNameStart(c: char) {
    'a' <= c <= 'z' || 'A' <= c <= 'Z' || c == '_'
  }

  /** The table names the handlers accept: `^[a-zA-Z_][a-zA-Z0-9_]*$`. */
  predicate IsTableName(t: string) {
    && t != [] && IsNameStart(t[0])
    && forall i :: 0 <= i < |t| ==> IsNameStart(t[i]) || '0' <= t[i] <= '9'
  }

  ghost predicate IsRecordKey(k: string) {
    exists t, n :: IsTableName(t) && k == RecordKey(t, n)
  }

  /** Every key in the bucket was printed from a table name and a number. */
  ghost predicate KeysArePrinted(keys: set<string>) {
    forall k :: k in keys ==> IsRecordKey(k)
  }

  lemma PutKeepsPrinted(keys: set<string>, t: string, n: nat)
    requires KeysArePrinted(keys) && IsTableName(t)
    ensures KeysArePrinted(keys + {RecordKey(t, n)})
  {
    assert IsRecordKey(RecordKey(t, n));
  }

  /** A colon-free name is recovered from any text that starts with it and a colon. */
  lemma {:induction false} NameBeforeColon(t: string, u: string, a: string, b: string)
    requires ':' !in t && ':' !in u && t + ":" + a == u + ":" + b
    ensures t == u && a == b
  {
    var s := t + ":" + a;
    assert s[|t|] == ':' && s[|u|] == (u + ":" + b)[|u|] == ':';
    assert forall i :: 0 <= i < |t| ==> s[i] == t[i];
    assert forall i :: 0 <= i < |u| ==> (u + ":" + b)[i] == u[i];
    assert |t| == |u|;
    assert t == s[..|t|] && u == (u + ":" + b)[..|u|];
    assert a == s[|t| + 1..] && b == (u + ":" + b)[|u| + 1..];
  }

  lemma {:induction false} NumeralHasNoColon(n: nat)
    ensures ':' !in Decimal(n)
  {
    if n >= 10 {
      NumeralHasNoColon(n / 10);
    }
  }

  /** A key tells the number, whatever the name before it. */
  lemma KeyTellsNumber(t: string, m: nat, u: string, n: nat)
    requires RecordKey(t, m) == RecordKey(u, n)
    ensures m == n
  {
    NumeralHasNoColon(m);
    NumeralHasNoColon(n);
    var s := RecordKey(t, m);
    assert s[|t|] == ':' && s[|u|] == ':';
    assert forall i :: |t| < i < |s| ==> s[i] == Decimal(m)[i - |t| - 1] && s[i] in Decimal(m);
    assert forall i :: |u| < i < |s| ==> s[i] == Decimal(n)[i - |u| - 1] && s[i] in Decimal(n);
    assert |t| == |u|;
    assert Decimal(m) == s[|t| + 1..] && Decimal(n) == s[|u| + 1..];
    DecimalIsInjective(m, n);
  }

  /** No two (table, number) pairs share a key. */
  lemma KeysAreInjective(t: string, m: nat, u: string, n: nat)
    requires IsTableName(t) && IsTableName(u)
    ensures RecordKey(t, m) == RecordKey(u, n) <==> t == u && m == n
  {
    if RecordKey(t, m) == RecordKey(u, n) {
      NameBeforeColon(t, u, Decimal(m), Decimal(n));
      DecimalIsInjective(m, n);
    }
  }

  ghost predicate OfTable(t: string, k: string) {
    exists n :: k == RecordKey(t, n)
  }

  ghost function NumberIn(t: string, k: string): nat
    requires OfTable(t, k)
    ensures k == RecordKey(t, NumberIn(t, k))
  {
    var n :| k == RecordKey(t, n);
    n
  }

  /** The sequence numbers a table has in the bucket. */
  ghost function Numbers(keys: set<string>, t: string): set<nat> {
    set k | k in keys && OfTable(t, k) :: NumberIn(t, k)
  }

  lemma NumbersAre(keys: set<string>, t: string, n: nat)
    requires IsTableName(t)
    ensures n in Numbers(keys, t) <==> RecordKey(t, n) in keys
  {
    if RecordKey(t, n) in keys {
      KeysAreInjective(t, n, t, NumberIn(t, RecordKey(t, n)));
    }
  }

  /** A table's records by sequence number. */
  ghost function View<V>(bucket: map<string, V>, t: string): (m: map<nat, V>)
    requires IsTableName(t)
    ensures m.Keys == Numbers(bucket.Keys, t)
  {
    map n | n in Numbers(bucket.Keys, t) :: NumbersAre(bucket.Keys, t, n); bucket[RecordKey(t, n)]
  }

  lemma ViewAt<V>(bucket: map<string, V>, t: string, n: nat)
    requires IsTableName(t)
    ensures n in View(bucket, t) <==> RecordKey(t, n) in bucket
    ensures n in View(bucket, t) ==> View(bucket, t)[n] == bucket[RecordKey(t, n)]
  {
    NumbersAre(bucket.Keys, t, n);
  }

  /** Writing one record changes one slot of one table. */
  lemma ViewAfterPut<V>(bucket: map<string, V>, u: string, n: nat, v: V, t: string)
    requires IsTableName(t) && IsTableName(u)
    ensures View(bucket[RecordKey(u, n) := v], t) == if t == u then View(bucket, t)[n := v] else View(bucket, t)
  {
    var after := bucket[RecordKey(u, n) := v];
    var want := if t == u then View(bucket, t)[n := v] else View(bucket, t);
    forall m: nat
      ensures m in View(after, t) <==> m in want
      ensures m in want ==> View(after, t)[m] == want[m]
    {
      ViewAt(bucket, t, m);
      ViewAt(after, t, m);
      KeysAreInjective(t, m, u, n);
    }
  }

  /** Numbers in the byte order of their numerals. */
  ghost predicate InDecimalOrder(order: seq<nat>) {
    forall i, j :: 0 <= i < j < |order| ==> Less(Decimal(order[i]), Decimal(order[j]))
  }

  ghost predicate Enumerates(order: seq<nat>, numbers: set<nat>) {
    forall n :: n in order <==> n in numbers
  }

  lemma PrefixMeansTable(keys: set<string>, t: string, k: string)
    requires IsTableName(t) && KeysArePrinted(keys) && k in keys
    ensures (t + ":") <= k <==> OfTable(t, k)
  {
    if (t + ":") <= k {
      assert IsRecordKey(k);
      var u, n :| IsTableName(u) && k == RecordKey(u, n);
      NameBeforeColon(t, u, k[|t| + 1..], Decimal(n));
    }
    if OfTable(t, k) {
      var n :| k == RecordKey(t, n);
      assert (t + ":") <= k;
    }
  }

  lemma KeyOrderIsNumeralOrder(t: string, m: nat, n: nat)
    ensures Less(RecordKey(t, m), RecordKey(t, n)) <==> Less(Decimal(m), Decimal(n))
  {
    LeqUnderPrefix(t + ":", Decimal(m), Decimal(n));
    if RecordKey(t, m) == RecordKey(t, n) {
      assert Decimal(m) == RecordKey(t, m)[|t| + 1..];
      assert Decimal(n) == RecordKey(t, n)[|t| + 1..];
    }
  }

  /** The numbers behind an ascending list of one table's keys. */
  lemma NumbersBehind(keys: seq<string>, t: string) returns (order: seq<nat>)
    requires IsTableName(t) && Ascending(keys)
    requires forall i :: 0 <= i < |keys| ==> OfTable(t, keys[i])
    ensures |order| == |keys| && InDecimalOrder(order)
    ensures forall i :: 0 <= i < |keys| ==> keys[i] == RecordKey(t, order[i])
  {
    order := seq(|keys|, i requires 0 <= i < |keys| => NumberIn(t, keys[i]));
    forall i, j | 0 <= i < j < |order| ensures Less(Decimal(order[i]), Decimal(order[j])) {
      assert Less(keys[i], keys[j]);
      KeyOrderIsNumeralOrder(t, order[i], order[j]);
    }
  }

  /** The keys a scan for a table meets. */
  lemma ScanKeys<V>(bucket: map<string, V>, t: string) returns (keys: seq<string>)
    requires IsTableName(t) && KeysArePrinted(bucket.Keys)
    ensures Ascending(keys) && |Scan(bucket, t + ":")| == |keys|
    ensures forall i :: 0 <= i < |keys| ==> keys[i] in bucket && Scan(bucket, t + ":")[i] == bucket[keys[i]]
    ensures forall i :: 0 <= i < |keys| ==> OfTable(t, keys[i])
    ensures forall n :: RecordKey(t, n) in bucket ==> RecordKey(t, n) in keys
  {
    var matching := WithPrefix(bucket.Keys, t + ":");
    keys := InOrder(matching);
    InOrderAscends(matching);
    CollectFollowsOrder(bucket, matching);
    forall k | k in bucket.Keys
      ensures k in matching <==> OfTable(t, k)
    {
      PrefixMeansTable(bucket.Keys, t, k);
    }
  }

  /** A prefix scan returns exactly the table's records, each once, in the byte order of their
      numerals, whatever other tables the bucket holds and however their names begin. */
  lemma PrefixScanIsTable<V>(bucket: map<string, V>, t: string) returns (order: seq<nat>)
    requires IsTableName(t) && KeysArePrinted(bucket.Keys)
    ensures InDecimalOrder(order) && Enumerates(order, View(bucket, t).Keys)
    ensures |Scan(bucket, t + ":")| == |order|
    ensures forall i :: 0 <= i < |order| ==>
      order[i] in View(bucket, t) && Scan(bucket, t + ":")[i] == View(bucket, t)[order[i]]
  {
    var keys := ScanKeys(bucket, t);
    order := NumbersBehind(keys, t);
    forall i | 0 <= i < |order|
      ensures order[i] in View(bucket, t) && View(bucket, t)[order[i]] == bucket[keys[i]]
    {
      ViewAt(bucket, t, order[i]);
    }
    forall n | n in View(bucket, t).Keys ensures n in order {
      ViewAt(bucket, t, n);
      var i :| 0 <= i < |keys| && keys[i] == RecordKey(t, n);
      KeysAreInjective(t, n, t, order[i]);
    }
  }

  // ---------------------------------------------------------------- latest

  ghost predicate IsMax(n: nat, numbers: set<nat>) {
    n in numbers && forall m :: m in numbers ==> m <= n
  }

  /** The number whose numeral comes last in byte order. */
  ghost predicate IsDecimalLast(n: nat, numbers: set<nat>) {
    n in numbers && forall m {:trigger m in numbers} :: m in numbers ==> Leq(Decimal(m), Decimal(n))
  }

  lemma DecimalLastIsUnique(numbers: set<nat>, m: nat, n: nat)
    requires IsDecimalLast(m, numbers) && IsDecimalLast(n, numbers)
    ensures m == n
  {
    LeqAntisymmetric(Decimal(m), Decimal(n));
    DecimalIsInjective(m, n);
  }

  lemma LastInOrderIsDecimalLast(order: seq<nat>, numbers: set<nat>)
    requires order != [] && InDecimalOrder(order) && Enumerates(order, numbers)
    ensures IsDecimalLast(order[|order| - 1], numbers)
  {
    var last := order[|order| - 1];
    forall m | m in numbers ensures Leq(Decimal(m), Decimal(last)) {
      assert m in order;
      LeqReflexive(Decimal(last));
    }
  }

  /** What `GetLatestHashEntry` and `GetLatestMerkleCheckpoint` return: the record under the
      numeral that comes last in byte order, and nothing exactly when the table has no record. */
  lemma LatestIsDecimalLast<V>(bucket: map<string, V>, t: string)
    requires IsTableName(t) && KeysArePrinted(bucket.Keys)
    ensures LastOf(Scan(bucket, t + ":")).None? <==> View(bucket, t) == map[]
    ensures forall n :: IsDecimalLast(n, View(bucket, t).Keys) ==>
      LastOf(Scan(bucket, t + ":")) == Some(View(bucket, t)[n])
    ensures View(bucket, t) != map[] ==> exists n :: IsDecimalLast(n, View(bucket, t).Keys)
  {
    var order := PrefixScanIsTable(bucket, t);
    var numbers := View(bucket, t).Keys;
    if order == [] {
      assert numbers == {};
    } else {
      LastInOrderIsDecimalLast(order, numbers);
      var last := order[|order| - 1];
      assert last in numbers;
      forall n | IsDecimalLast(n, numbers) ensures n == last {
        DecimalLastIsUnique(numbers, n, last);
      }
    }
  }

  lemma LatestByNumeral<V>(bucket: map<string, V>, t: string) returns (last: nat)
    requires IsTableName(t) && KeysArePrinted(bucket.Keys)
    ensures View(bucket, t) == map[] ==> LastOf(Scan(bucket, t + ":")).None?
    ensures View(bucket, t) != map[] ==>
      IsDecimalLast(last, View(bucket, t).Keys) && LastOf(Scan(bucket, t + ":")) == Some(View(bucket, t)[last])
  {
    LatestIsDecimalLast(bucket, t);
    last := 0;
    if View(bucket, t) != map[] {
      last :| IsDecimalLast(last, View(bucket, t).Keys);
    }
  }

  /** The decimal keys find the greatest number exactly when every number of the table, padded with
      zeros on the right to as many digits, stays at or below it. */
  lemma DecimalLastIsMaxIff(numbers: set<nat>, top: nat)
    requires IsMax(top, numbers)
    ensures IsDecimalLast(top, numbers) <==> forall m :: m in numbers ==> PaddedStaysBelow(m, top)
  {
    forall m | m in numbers
      ensures Leq(Decimal(m), Decimal(top)) <==> PaddedStaysBelow(m, top)
    {
      DecimalOrder(m, top);
    }
  }

  /** In particular while all numbers have equally many digits. */
  lemma SameDigitsMeansMax(numbers: set<nat>, top: nat)
    requires IsMax(top, numbers)
    requires forall m :: m in numbers ==> |Decimal(m)| == |Decimal(top)|
    ensures IsDecimalLast(top, numbers)
  {
    forall m | m in numbers ensures Leq(Decimal(m), Decimal(top)) {
      SameLengthOrder(m, top);
    }
  }
}
