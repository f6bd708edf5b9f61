/** The configured hash algorithm, as the rest of the system may rely on it.

    A digest is any function from byte strings to hex strings of one fixed positive width.
    It cannot be injective, so results about it are stated as "equal, or two different
    strings out of a named finite set collide". */
module Hashing {

  datatype RawHasher = RawHasher(digest: string -> string, width: nat)

  predicate IsHexDigit(c: char) {
    '0' <= c <= '9' || 'a' <= c <= 'f'
  }

  predicate IsHexText(s: string) {
    forall i :: 0 <= i < |s| ==> IsHexDigit(s[i])
  }

  ghost predicate IsHasher(h: RawHasher) {
    && h.width > 0
    && forall s: string :: |h.digest(s)| == h.width && IsHexText(h.digest(s))
  }

  type Hasher = h: RawHasher | IsHasher(h) ghost witness RawHasher(s => "0", 1)

  /** Two different strings of `texts` have the same digest. */
  ghost predicate Collides(h: Hasher, texts: set<string>) {
    exists x, y :: x in texts && y in texts && x != y && h.digest(x) == h.digest(y)
  }

  lemma CollidesIsMonotone(h: Hasher, small: set<string>, large: set<string>)
    requires small <= large && Collides(h, small)
    ensures Collides(h, large)
  {
    var x, y :| x in small && y in small && x != y && h.digest(x) == h.digest(y);
    assert x in large && y in large;
  }
}
