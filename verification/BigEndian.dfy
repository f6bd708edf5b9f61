/** Fixed-width big-endian numbers, as `binary.BigEndian` writes and reads them. */
module BigEndian {
  import opened ByteStrings

  newtype byte = x: int | 0 <= x < 256

  function Pow256(w: nat): (p: nat)
    ensures p >= 1
  {
    if w == 0 then 1 else 256 * Pow256(w - 1)
  }

  lemma KnownPowers()
    ensures Pow256(4) == 0x1_0000_0000 && Pow256(8) == 0x1_0000_0000_0000_0000
  {
    assert Pow256(2) == 0x1_0000 by { assert Pow256(1) == 256; }
    assert Pow256(4) == 0x1_0000_0000 by { assert Pow256(3) == 0x100_0000; }
    assert Pow256(6) == 0x1_0000_0000_0000 by { assert Pow256(5) == 0x100_0000_0000; }
    assert Pow256(7) == 0x100_0000_0000_0000;
  }

  /** The w low bytes of n, most significant first. */
  function Encode(n: nat, w: nat): (b: seq<byte>)
    ensures |b| == w
    decreases w, n
  {
    if w == 0 then [] else Encode(n / 256, w - 1) + [(n % 256) as byte]
  }

  function Decode(b: seq<byte>): nat {
    if b == [] then 0 else 256 * Decode(b[..|b| - 1]) + b[|b| - 1] as nat
  }

  lemma {:induction false} DecodeUndoesEncode(n: nat, w: nat)
    requires n < Pow256(w)
    ensures Decode(Encode(n, w)) == n
    decreases w
  {
    if w > 0 {
      DecodeUndoesEncode(n / 256, w - 1);
      assert Encode(n, w)[..w - 1] == Encode(n / 256, w - 1);
    }
  }

  lemma {:induction false} EncodeUndoesDecode(b: seq<byte>)
    ensures Decode(b) < Pow256(|b|) && Encode(Decode(b), |b|) == b
    decreases b
  {
    if b != [] {
      EncodeUndoesDecode(b[..|b| - 1]);
      assert b == b[..|b| - 1] + [b[|b| - 1]];
    }
  }

  /** Bytes as a byte string, the form keys have in a bucket. */
  function Text(b: seq<byte>): (s: string)
    ensures |s| == |b|
    ensures forall i :: 0 <= i < |b| ==> s[i] == b[i] as char
  {
    seq(|b|, i requires 0 <= i < |b| => b[i] as char)
  }

  predicate IsByteText(s: string) {
    forall i :: 0 <= i < |s| ==> s[i] as int < 256
  }

  function Bytes(s: string): (b: seq<byte>)
    requires IsByteText(s)
    ensures |b| == |s|
    ensures forall i :: 0 <= i < |s| ==> b[i] == s[i] as byte
  {
    seq(|s|, i requires 0 <= i < |s| => s[i] as byte)
  }

  lemma BytesUndoesText(b: seq<byte>)
    ensures IsByteText(Text(b)) && Bytes(Text(b)) == b
  {
  }

  /** Byte order of fixed-width big-endian keys is the order of the numbers. */
  lemma {:induction false} ByteOrderIsNumericOrder(m: nat, n: nat, w: nat)
    requires m < Pow256(w) && n < Pow256(w)
    ensures Leq(Text(Encode(m, w)), Text(Encode(n, w))) <==> m <= n
    ensures Text(Encode(m, w)) == Text(Encode(n, w)) <==> m == n
    decreases w
  {
    if w > 0 {
      ByteOrderIsNumericOrder(m / 256, n / 256, w - 1);
      LastByte(m, w);
      LastByte(n, w);
      LeqOfLastChar(Text(Encode(m / 256, w - 1)), Text(Encode(n / 256, w - 1)),
                    (m % 256) as char, (n % 256) as char);
    }
  }

  lemma LastByte(n: nat, w: nat)
    requires w > 0
    ensures var head := Text(Encode(n / 256, w - 1));
      var s := Text(Encode(n, w));
      s == head + [(n % 256) as char] && s[..w - 1] == head && s[w - 1] == (n % 256) as char
  {
  }
}
