/** Unpadded decimal numerals and how their byte order relates to the order of the numbers. */
module DecimalKeys {
  import opened ByteStrings

  function Digit(d: nat): (c: char)
    requires d < 10
  {
    ['0', '1', '2', '3', '4', '5', '6', '7', '8', '9'][d]
  }

  /** What `%d` prints for a non-negative number. */
  function Decimal(n: nat): (s: string)
    ensures |s| > 0
  {
    if n < 10 then [Digit(n)] else Decimal(n / 10) + [Digit(n % 10)]
  }

  /** The number a numeral stands for. */
  function ReadDecimal(s: string): int {
    if s == [] then 0 else 10 * ReadDecimal(s[..|s| - 1]) + (s[|s| - 1] as int - '0' as int)
  }

  /** What is printed consists of digits, stands for the number and has no leading zero. */
  lemma {:induction false} DecimalReadsBack(n: nat)
    ensures ReadDecimal(Decimal(n)) == n
    ensures forall i :: 0 <= i < |Decimal(n)| ==> '0' <= Decimal(n)[i] <= '9'
    ensures Decimal(n)[0] == '0' <==> n == 0
  {
    if n >= 10 {
      DecimalReadsBack(n / 10);
      assert Decimal(n)[..|Decimal(n)| - 1] == Decimal(n / 10);
    } else {
      assert Decimal(n)[..0] == [];
    }
  }

  lemma DigitOrder(a: nat, b: nat)
    requires a < 10 && b < 10
    ensures Digit(a) <= Digit(b) <==> a <= b
    ensures Digit(a) == Digit(b) <==> a == b
  {
  }

  /** Numerals with the same number of digits are in numeric order, and differ if the numbers do. */
  lemma {:induction false} SameLengthOrder(a: nat, b: nat)
    requires |Decimal(a)| == |Decimal(b)|
    ensures Leq(Decimal(a), Decimal(b)) <==> a <= b
    ensures Decimal(a) == Decimal(b) <==> a == b
  {
    if a < 10 {
      assert b < 10;
      DigitOrder(a, b);
    } else {
      assert b >= 10;
      SameLengthOrder(a / 10, b / 10);
      DigitOrder(a % 10, b % 10);
      LeqOfLastChar(Decimal(a / 10), Decimal(b / 10), Digit(a % 10), Digit(b % 10));
      LastOfAppend(Decimal(a / 10), Digit(a % 10));
      LastOfAppend(Decimal(b / 10), Digit(b % 10));
    }
  }

  lemma LastOfAppend(s: string, c: char)
    ensures (s + [c])[|s|] == c && (s + [c])[..|s|] == s
  {
  }

  lemma {:induction false} DecimalIsInjective(a: nat, b: nat)
    requires Decimal(a) == Decimal(b)
    ensures a == b
  {
    SameLengthOrder(a, b);
  }

  lemma {:induction false} LengthIsMonotone(a: nat, b: nat)
    requires a <= b
    ensures |Decimal(a)| <= |Decimal(b)|
  {
    if a >= 10 {
      LengthIsMonotone(a / 10, b / 10);
    }
  }

  /** n without its last k decimal digits. */
  function DropLow(n: nat, k: nat): nat {
    if k == 0 then n else DropLow(n / 10, k - 1)
  }

  /** n with k zeros appended. */
  function Scaled(n: nat, k: nat): nat {
    if k == 0 then n else 10 * Scaled(n, k - 1)
  }

  lemma {:induction false} ScaledBound(a: nat, b: nat, k: nat)
    ensures a <= DropLow(b, k) <==> Scaled(a, k) <= b
  {
    if k > 0 {
      ScaledBound(a, b / 10, k - 1);
    }
  }

  lemma {:induction false} DropDigits(n: nat, k: nat)
    requires k < |Decimal(n)|
    ensures Decimal(n)[..|Decimal(n)| - k] == Decimal(DropLow(n, k))
    decreases k
  {
    var s := Decimal(n);
    if k == 0 {
      assert s[..|s|] == s;
    } else {
      DropDigits(n / 10, k - 1);
      assert s[..|s| - k] == Decimal(n / 10)[..|s| - k];
    }
  }

  lemma {:induction false} LeqIgnoresLongerTail(a: string, c: string)
    requires |a| <= |c|
    ensures Leq(a, c) <==> Leq(a, c[..|a|])
  {
    if a != [] {
      assert c[..|a|][1..] == c[1..][..|a| - 1];
      LeqIgnoresLongerTail(a[1..], c[1..]);
    }
  }

  lemma OrderByTruncation(a: nat, text: string, c: nat)
    requires |Decimal(a)| <= |text| && text[..|Decimal(a)|] == Decimal(c)
    ensures Leq(Decimal(a), text) <==> a <= c
  {
    LeqIgnoresLongerTail(Decimal(a), text);
    SameLengthOrder(a, c);
  }

  /** m, padded on the right with zeros to as many digits as top has, is not above top. */
  predicate PaddedStaysBelow(m: nat, top: nat) {
    |Decimal(m)| <= |Decimal(top)| && Scaled(m, |Decimal(top)| - |Decimal(m)|) <= top
  }

  lemma TruncatedNumeral(a: nat, b: nat) returns (c: nat)
    requires a <= b
    ensures |Decimal(a)| <= |Decimal(b)| && Decimal(b)[..|Decimal(a)|] == Decimal(c)
    ensures a <= c <==> PaddedStaysBelow(a, b)
  {
    LengthIsMonotone(a, b);
    var k := |Decimal(b)| - |Decimal(a)|;
    c := DropLow(b, k);
    DropDigits(b, k);
    ScaledBound(a, b, k);
  }

  /** When byte order agrees with numeric order: the smaller number, scaled up to as many digits as
      the larger one has, must not exceed it. */
  lemma DecimalOrder(a: nat, b: nat)
    requires a <= b
    ensures Leq(Decimal(a), Decimal(b)) <==> PaddedStaysBelow(a, b)
  {
    var c := TruncatedNumeral(a, b);
    OrderByTruncation(a, Decimal(b), c);
  }
}
