/** Signed integers in two's complement, and the ZigZag mapping that makes small magnitudes short. */
module ZigZag {

  import opened Bytes

  /** `n` fits a signed integer of `w` bits. */
  predicate Fits(n: int, w: nat)
    requires w > 0
  {
    -(Pow2(w - 1) as int) <= n < Pow2(w - 1)
  }

  /** The bits of a signed integer, read as an unsigned one. */
  function Image(n: int, w: nat): (x: nat)
    requires w > 0 && Fits(n, w)
    ensures x < Pow2(w)
  {
    if n < 0 then n + Pow2(w) else n
  }

  /** The bits of an unsigned integer, read as a signed one. */
  function Reading(x: nat, w: nat): (n: int)
    requires w > 0 && x < Pow2(w)
    ensures Fits(n, w)
  {
    if x < Pow2(w - 1) then x else x - Pow2(w)
  }

  lemma ReadingOfImage(n: int, w: nat)
    requires w > 0 && Fits(n, w)
    ensures Reading(Image(n, w), w) == n
  {
    assert Pow2(w) == 2 * Pow2(w - 1);
  }

  lemma SignQuotient(n: int, p: int)
    requires p > 0 && -p <= n < p
    ensures n / p == if n < 0 then -1 else 0
  {
  }

  lemma DoubleModulo(n: int, p: int)
    requires p > 0 && -p <= 2 * n < p
    ensures 2 * (if n < 0 then n + p else n) % p == if n < 0 then 2 * n + p else 2 * n
  {
    if n < 0 {
      Remainder(2 * (n + p), p, 1, 2 * n + p);
    } else {
      Remainder(2 * n, p, 0, 2 * n);
    }
  }

  /** The arithmetic shift `n >> (w - 1)`: every bit becomes the sign bit. */
  function SignShift(n: int, w: nat): (m: int)
    requires w > 0 && Fits(n, w)
    ensures m == if n < 0 then -1 else 0
  {
    SignQuotient(n, Pow2(w - 1));
    n / Pow2(w - 1)
  }

  /** `(n << 1) ^ (n >> (w - 1))`. */
  function Encode(n: int, w: nat): (z: nat)
    requires w > 0 && Fits(n, w)
    ensures z < Pow2(w)
  {
    XorLow(2 * Image(n, w) % Pow2(w), Image(SignShift(n, w), w), w)
  }

  /** `(z >> 1) ^ -(z & 1)`. */
  function Decode(z: nat, w: nat): (n: int)
    requires w > 0 && z < Pow2(w)
    ensures Fits(n, w)
  {
    Reading(XorLow(z / 2, Image(-(z % 2), w), w), w)
  }

  lemma {:induction false} XorNothing(a: nat, w: nat)
    requires a < Pow2(w)
    ensures XorLow(a, 0, w) == a
  {
    if w > 0 {
      XorNothing(a / 2, w - 1);
    }
  }

  lemma FlippedBit(a: nat, q: nat)
    requires q > 0
    ensures (2 * q - 1) / 2 == q - 1
    ensures (a + (2 * q - 1)) % 2 + 2 * (q - 1 - a / 2) == 2 * q - 1 - a
  {
    assert a + (2 * q - 1) == 2 * (a / 2 + q - 1) + (a % 2 + 1);
  }

  lemma {:induction false} XorEverything(a: nat, w: nat)
    requires a < Pow2(w)
    ensures XorLow(a, Pow2(w) - 1, w) == Pow2(w) - 1 - a
  {
    if w > 0 {
      XorEverything(a / 2, w - 1);
      FlippedBit(a, Pow2(w - 1));
    }
  }

  /** Non-negative numbers go to the even codes and negative ones to the odd codes. */
  lemma EncodeIs(n: int, w: nat)
    requires w > 0 && Fits(n, w)
    ensures Encode(n, w) == if n >= 0 then 2 * n else -2 * n - 1
  {
    assert Pow2(w) == 2 * Pow2(w - 1);
    hide Pow2, XorLow;
    DoubleModulo(n, Pow2(w));
    if n >= 0 {
      XorNothing(2 * n, w);
    } else {
      XorEverything(2 * n + Pow2(w), w);
    }
  }

  lemma DecodeParts(half: nat, bit: int, w: nat)
    requires w > 0 && 0 <= bit < 2 && 2 * half + bit < Pow2(w)
    ensures Fits(-bit, w)
    ensures Reading(XorLow(half, Image(-bit, w), w), w) == if bit == 0 then half else -1 - half
  {
    assert Pow2(w) == 2 * Pow2(w - 1);
    hide Pow2, XorLow;
    if bit == 0 {
      XorNothing(half, w);
    } else {
      XorEverything(half, w);
    }
  }

  lemma DecodeIs(z: nat, w: nat)
    requires w > 0 && z < Pow2(w)
    ensures Decode(z, w) == if z % 2 == 0 then z / 2 else -(z / 2) - 1
  {
    hide Pow2, XorLow, Reading, Image, Fits;
    assert z == 2 * (z / 2) + z % 2;
    DecodeParts(z / 2, z % 2, w);
  }

  /** Encoding and decoding undo each other, so both are one-to-one and onto. */
  lemma DecodeEncode(n: int, w: nat)
    requires w > 0 && Fits(n, w)
    ensures Decode(Encode(n, w), w) == n
  {
    EncodeIs(n, w);
    DecodeIs(Encode(n, w), w);
  }

  lemma EncodeDecode(z: nat, w: nat)
    requires w > 0 && z < Pow2(w)
    ensures Encode(Decode(z, w), w) == z
  {
    DecodeIs(z, w);
    EncodeIs(Decode(z, w), w);
  }
}
