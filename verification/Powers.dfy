/** Powers of two and of ten, binary numerals, and the height of a halving process. */
module Powers {

  function Pow2(n: nat): (p: nat)
    ensures p >= 1
  {
    if n == 0 then 1 else 2 * Pow2(n - 1)
  }

  lemma {:induction false} Pow2Monotone(m: nat, n: nat)
    requires m <= n
    ensures Pow2(m) <= Pow2(n)
    decreases n
  {
    if m < n {
      Pow2Monotone(m, n - 1);
    }
  }

  /** How many times a level of n nodes is halved, rounding up, before one node is left. */
  function Height(n: nat): nat
    requires n > 0
  {
    if n == 1 then 0 else 1 + Height((n + 1) / 2)
  }

  /** The height is the base-two logarithm of the number of nodes, rounded up. */
  lemma {:induction false} HeightIsCeilingLog(n: nat)
    requires n > 0
    ensures n <= Pow2(Height(n))
    ensures n > 1 ==> Height(n) > 0 && Pow2(Height(n) - 1) < n
  {
    if n > 1 {
      HeightIsCeilingLog((n + 1) / 2);
    }
  }

  /** Only one exponent d satisfies 2^(d-1) < n <= 2^d. */
  lemma HeightIsUnique(n: nat, d: nat)
    requires 0 < n <= Pow2(d)
    requires d > 0 ==> Pow2(d - 1) < n
    ensures Height(n) == d
  {
    HeightIsCeilingLog(n);
    if Height(n) < d {
      Pow2Monotone(Height(n), d - 1);
    } else if d < Height(n) {
      Pow2Monotone(d, Height(n) - 1);
    }
  }

  /** The number whose binary digits, least significant first, are 0 where `ds` says true. */
  function NumeralValue(ds: seq<bool>): nat {
    if ds == [] then 0 else (if ds[0] then 0 else 1) + 2 * NumeralValue(ds[1..])
  }

  lemma {:induction false} NumeralAppend(ds: seq<bool>, b: bool)
    ensures NumeralValue(ds + [b]) == NumeralValue(ds) + (if b then 0 else Pow2(|ds|))
  {
    if ds == [] {
      assert (ds + [b])[1..] == [];
    } else {
      assert (ds + [b])[1..] == ds[1..] + [b];
      NumeralAppend(ds[1..], b);
    }
  }

  lemma {:induction false} NumeralBound(ds: seq<bool>)
    ensures NumeralValue(ds) < Pow2(|ds|)
  {
    if ds != [] {
      NumeralBound(ds[1..]);
    }
  }
}
