/** Octets, byte strings and the bit operations the program applies to them. */
module Bytes {

  type byte = x: int | 0 <= x < 256

  /** The concatenation of a list of strings: what a stream carries once they are sent in order. */
  function Flatten<T>(parts: seq<seq<T>>): (s: seq<T>)
  {
    if parts == [] then [] else parts[0] + Flatten(parts[1..])
  }

  lemma {:induction false} FlattenConcat<T>(a: seq<seq<T>>, b: seq<seq<T>>)
    ensures Flatten(a + b) == Flatten(a) + Flatten(b)
  {
    if a == [] {
      assert a + b == b;
    } else {
      assert (a + b)[1..] == a[1..] + b;
      FlattenConcat(a[1..], b);
    }
  }

  lemma FlattenOne<T>(s: seq<T>)
    ensures Flatten([s]) == s
  {
    assert Flatten([s]) == s + Flatten<T>([]);
  }

  lemma FlattenSnoc<T>(parts: seq<seq<T>>, last: seq<T>)
    ensures Flatten(parts + [last]) == Flatten(parts) + last
  {
    FlattenConcat(parts, [last]);
    FlattenOne(last);
  }

  lemma DropTwice<T>(s: seq<T>, a: nat, b: nat)
    requires a + b <= |s|
    ensures s[a..][b..] == s[a + b..]
  {
  }

  lemma TakeTwice<T>(s: seq<T>, a: nat, b: nat)
    requires a + b <= |s|
    ensures s[..a] + s[a..][..b] == s[..a + b]
  {
  }

  lemma CutTwice<T>(s: seq<T>, a: nat, b: nat)
    requires a <= b <= |s|
    ensures s == s[..a] + s[a..b] + s[b..]
  {
  }

  lemma Regroup<T>(a: seq<T>, b: seq<T>, c: seq<T>)
    ensures a + (b + c) == a + b + c
  {
  }

  /** `n` copies of `x`. */
  function Repeat<T>(x: T, n: nat): (s: seq<T>)
    ensures |s| == n
    ensures forall i :: 0 <= i < n ==> s[i] == x
  {
    seq(n, i => x)
  }

  /** A host-order (little-endian) 16-bit field; higher bits are dropped by the cast. */
  function Le16(n: nat): (s: seq<byte>)
    ensures |s| == 2
  {
    [n % 256, n / 256 % 256]
  }

  function FromLe16(lo: byte, hi: byte): (n: nat)
    ensures n < 0x1_0000
  {
    lo + 256 * hi
  }

  lemma Remainder(x: nat, d: nat, q: nat, r: nat)
    requires d > 0 && r < d && x == q * d + r
    ensures x % d == r
  {
    var over := x / d - q;
    assert over * d + x % d == r;
    assert over >= 1 ==> over * d >= d;
    assert over <= -1 ==> over * d + d <= 0;
  }

  function Pow2(k: nat): (p: nat)
    ensures p >= 1
  {
    if k == 0 then 1 else 2 * Pow2(k - 1)
  }

  /** `a ^ b` on the lowest `bits` bits: each bit is the sum modulo 2. */
  function XorLow(a: nat, b: nat, bits: nat): (x: nat)
    ensures x < Pow2(bits)
  {
    if bits == 0 then 0 else (a + b) % 2 + 2 * XorLow(a / 2, b / 2, bits - 1)
  }

  lemma HalfThenDivide(a: nat, p: nat)
    requires p > 0
    ensures a / (2 * p) == a / 2 / p
  {
    var q, r := a / 2 / p, a / 2 % p;
    assert a / 2 == q * p + r;
    assert a == q * (2 * p) + (2 * r + a % 2);
    Remainder(a, 2 * p, q, 2 * r + a % 2);
    assert (a / (2 * p) - q) * (2 * p) == 0;
  }

  lemma XorUnfolds(a: nat, b: nat, bits: nat)
    requires bits > 0
    ensures XorLow(a, b, bits) % 2 == (a + b) % 2
    ensures XorLow(a, b, bits) / 2 == XorLow(a / 2, b / 2, bits - 1)
  {
  }

  lemma BitAbove(x: nat, a: nat, b: nat, p: nat)
    requires p > 0 && x / 2 / p % 2 == (a / 2 / p + b / 2 / p) % 2
    ensures x / (2 * p) % 2 == (a / (2 * p) + b / (2 * p)) % 2
  {
    HalfThenDivide(x, p);
    HalfThenDivide(a, p);
    HalfThenDivide(b, p);
  }

  lemma Pow2Start()
    ensures Pow2(0) == 1
  {
  }

  /** Bit `i` of `a ^ b` is set exactly when one of the two bits is. */
  lemma {:induction false} XorBit(a: nat, b: nat, bits: nat, i: nat)
    requires i < bits
    ensures XorLow(a, b, bits) / Pow2(i) % 2 == (a / Pow2(i) + b / Pow2(i)) % 2
  {
    hide XorLow, Pow2;
    XorUnfolds(a, b, bits);
    if i == 0 {
      Pow2Start();
    } else {
      XorBit(a / 2, b / 2, bits - 1, i - 1);
      BitAbove(XorLow(a, b, bits), a, b, Pow2(i - 1));
      Pow2Plus(1, i - 1);
      Pow2One();
    }
  }

  lemma Pow2One()
    ensures Pow2(1) == 2
  {
  }

  /** `a ^ b` on octets. */
  function Xor(a: byte, b: byte): byte
  {
    assert Pow2(4) == 16 && Pow2(8) == 256;
    XorLow(a, b, 8)
  }

  lemma {:induction false} XorLowTwice(a: nat, k: nat, bits: nat)
    requires a < Pow2(bits)
    ensures XorLow(XorLow(a, k, bits), k, bits) == a
  {
    if bits > 0 {
      var y := XorLow(a / 2, k / 2, bits - 1);
      BitTwice(a, k, y);
      XorLowTwice(a / 2, k / 2, bits - 1);
    }
  }

  lemma BitTwice(a: nat, k: nat, y: nat)
    ensures var x := (a + k) % 2 + 2 * y;
            x / 2 == y && (x + k) % 2 == a % 2
  {
  }

  /** Masking twice with the same key octet gives the octet back. */
  lemma XorTwice(a: byte, k: byte)
    ensures Xor(Xor(a, k), k) == a
  {
    assert Pow2(4) == 16 && Pow2(8) == 256;
    XorLowTwice(a, k, 8);
  }

  lemma {:induction false} XorLowSame(a: nat, k: nat, bits: nat)
    requires a < Pow2(bits) && k < Pow2(bits)
    ensures XorLow(a, k, bits) == a <==> k == 0
  {
    if bits > 0 {
      var y := XorLow(a / 2, k / 2, bits - 1);
      BitSame(a, k, y);
      XorLowSame(a / 2, k / 2, bits - 1);
    }
  }

  lemma BitSame(a: nat, k: nat, y: nat)
    ensures (a + k) % 2 + 2 * y == a <==> k % 2 == 0 && y == a / 2
  {
  }

  /** Masking changes an octet unless the key octet is zero. */
  lemma XorSame(a: byte, k: byte)
    ensures Xor(a, k) == a <==> k == 0
  {
    assert Pow2(4) == 16 && Pow2(8) == 256;
    XorLowSame(a, k, 8);
  }

  lemma {:induction false} XorLowZero(a: nat, k: nat, bits: nat)
    requires a < Pow2(bits) && k < Pow2(bits)
    ensures XorLow(a, k, bits) == 0 <==> a == k
  {
    if bits > 0 {
      var y := XorLow(a / 2, k / 2, bits - 1);
      XorLowZero(a / 2, k / 2, bits - 1);
      BitZero(a, k, y);
    }
  }

  lemma BitZero(a: nat, k: nat, y: nat)
    requires y == 0 <==> a / 2 == k / 2
    ensures (a + k) % 2 + 2 * y == 0 <==> a == k
  {
    var a2, k2, a0, k0 := a / 2, k / 2, a % 2, k % 2;
    assert a == 2 * a2 + a0 && k == 2 * k2 + k0;
    assert (a + k) % 2 == (a0 + k0) % 2;
  }

  /** Only an octet equal to the key octet is masked to zero. */
  lemma XorZero(a: byte, k: byte)
    ensures Xor(a, k) == 0 <==> a == k
  {
    assert Pow2(4) == 16 && Pow2(8) == 256;
    XorLowZero(a, k, 8);
  }

  /** `a | b` on the lowest `bits` bits: a bit is set when either operand has it. */
  function OrLow(a: nat, b: nat, bits: nat): (x: nat)
    ensures x < Pow2(bits)
  {
    if bits == 0 then 0
    else (if a % 2 == 1 || b % 2 == 1 then 1 else 0) + 2 * OrLow(a / 2, b / 2, bits - 1)
  }

  lemma {:induction false} Pow2Plus(j: nat, k: nat)
    ensures Pow2(j + k) == Pow2(j) * Pow2(k)
  {
    if j > 0 {
      Pow2Plus(j - 1, k);
      assert Pow2(j + k) == 2 * Pow2(j - 1 + k);
    }
  }

  lemma {:induction false} Pow2Grows(j: nat, k: nat)
    requires j <= k
    ensures Pow2(j) <= Pow2(k)
  {
    if j < k {
      Pow2Grows(j, k - 1);
    }
  }

  /** The powers that bound the program's machine integers. */
  lemma Pow2Widths()
    ensures Pow2(7) == 128 && Pow2(8) == 256
    ensures Pow2(31) == 0x8000_0000 && Pow2(32) == 0x1_0000_0000
    ensures Pow2(63) == 0x8000_0000_0000_0000 && Pow2(64) == 0x1_0000_0000_0000_0000
  {
    Pow2Plus(4, 4);
    assert Pow2(4) == 16 && Pow2(7) == 2 * (2 * (2 * Pow2(4)));
    Pow2Plus(8, 8);
    Pow2Plus(16, 16);
    Pow2Plus(32, 32);
    assert Pow2(16) == 0x1_0000;
    assert Pow2(32) == 2 * Pow2(31) && Pow2(64) == 2 * Pow2(63);
  }
}
