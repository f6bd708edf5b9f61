/** The order in which a scan lists a chain of at most ten entries. */
module ScanOrders {
  import opened ByteStrings
  import opened Buckets
  import opened DecimalKeys
  import opened Numbering
  import opened Storages
  import opened StoredPasses
  import opened TableViews

  lemma {:induction false} OrderIsUnique(a: seq<nat>, b: seq<nat>)
    requires InDecimalOrder(a) && InDecimalOrder(b) && forall n :: n in a <==> n in b
    ensures a == b
  {
    assert (a != [] ==> a[0] in a) && (b != [] ==> b[0] in b);
    if a != [] {
      assert a[0] in b && b[0] in a;
      HeadsAreEqual(a, b);
      forall n ensures n in a[1..] <==> n in b[1..] {
        NotInTail(a);
        NotInTail(b);
        assert n in a <==> n == a[0] || n in a[1..];
        assert n in b <==> n == b[0] || n in b[1..];
      }
      OrderIsUnique(a[1..], b[1..]);
    }
  }

  lemma NotInTail(a: seq<nat>)
    requires a != [] && InDecimalOrder(a)
    ensures a[0] !in a[1..] && InDecimalOrder(a[1..])
  {
    forall i | 0 < i < |a| ensures a[i] != a[0] {
      assert Less(Decimal(a[0]), Decimal(a[i]));
    }
  }

  lemma HeadsAreEqual(a: seq<nat>, b: seq<nat>)
    requires InDecimalOrder(a) && InDecimalOrder(b) && a != [] && b != [] && a[0] in b && b[0] in a
    ensures a[0] == b[0]
  {
    var i :| 0 <= i < |b| && b[i] == a[0];
    var j :| 0 <= j < |a| && a[j] == b[0];
    if i > 0 && j > 0 {
      assert Less(Decimal(b[0]), Decimal(a[0])) && Less(Decimal(a[0]), Decimal(b[0]));
      LeqAntisymmetric(Decimal(a[0]), Decimal(b[0]));
    }
  }

  /** The numbers 1 to n, n at most ten, in the byte order of their numerals. */
  function ScanNumbers(n: nat): (r: seq<nat>)
    requires n <= 10
    ensures |r| == n && forall k :: k in r <==> InRange(k, n)
  {
    if n < 10 then
      var r := seq(n, i requires 0 <= i < n => i + 1);
      assert forall k :: InRange(k, n) ==> r[k - 1] == k;
      r
    else
      var r := [1, 10, 2, 3, 4, 5, 6, 7, 8, 9];
      assert r[0] == 1 && r[1] == 10 && forall k :: 2 <= k < 10 ==> r[k] == k;
      r
  }

  lemma DigitsInOrder(a: nat, b: nat)
    requires a < b < 10
    ensures Less(Decimal(a), Decimal(b))
  {
    DigitOrder(a, b);
  }

  lemma TenComesSecond(k: nat)
    requires 1 < k < 10
    ensures Less(Decimal(1), Decimal(10)) && Less(Decimal(10), Decimal(k))
  {
    assert Decimal(10) == ['1', '0'] && Decimal(1) == ['1'];
    DigitOrder(1, k);
  }

  lemma ScanNumbersInOrder(n: nat)
    requires n <= 10
    ensures InDecimalOrder(ScanNumbers(n))
  {
    var r := ScanNumbers(n);
    forall i, j | 0 <= i < j < |r| ensures Less(Decimal(r[i]), Decimal(r[j])) {
      if r[i] < r[j] < 10 {
        DigitsInOrder(r[i], r[j]);
      } else if r[j] == 10 {
        TenComesSecond(2);
      } else {
        TenComesSecond(r[j]);
      }
    }
  }

  /** A list of at most ten records, as a scan lists them: the tenth comes second. */
  function AsScanned<V>(list: seq<V>): (r: seq<V>)
    requires |list| <= 10
    ensures |r| == |list|
    ensures forall i :: 0 <= i < |r| ==> r[i] == list[ScanNumbers(|list|)[i] - 1]
  {
    if |list| < 10 then list else [list[0], list[9]] + list[1..9]
  }

  lemma ScanTakesFromList<V>(list: seq<V>)
    requires |list| <= 10
    ensures forall x :: x in AsScanned(list) ==> x in list
  {
    forall x | x in AsScanned(list) ensures x in list {
      var i :| 0 <= i < |list| && AsScanned(list)[i] == x;
      assert ScanNumbers(|list|)[i] in ScanNumbers(|list|);
    }
  }

  /** What the scan of a chain lists. */
  lemma ScanListsChain(bucket: map<string, HashEntry>, t: string, chain: seq<HashEntry>)
    requires IsTableName(t) && KeysArePrinted(bucket.Keys) && HoldsChain(View(bucket, t), chain) && |chain| <= 10
    ensures Scan(bucket, t + ":") == AsScanned(chain)
  {
    var order := PrefixScanIsTable(bucket, t);
    ScanNumbersInOrder(|chain|);
    forall n ensures n in order <==> n in ScanNumbers(|chain|) {
      assert n in order <==> n in View(bucket, t).Keys;
    }
    OrderIsUnique(order, ScanNumbers(|chain|));
  }
}
