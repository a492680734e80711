/**
 The Secure Hash Algorithm as FIPS PUB 180-1 defines it (sections 2 to 7),
 on whole messages and by recursion: no buffer, no counter, no loop.
 */
module Sha1Spec {
  import opened Bytes

  type word = bv32

  /** The five words H0..H4 (or A..E). */
  datatype State = State(a: word, b: word, c: word, d: word, e: word)

  const INITIAL := State(0x67452301, 0xEFCDAB89, 0x98BADCFE, 0x10325476, 0xC3D2E1F0)

  /** Section 3: the circular left shift S^n(X). */
  function RotL(n: nat, x: word): word
    requires n < 32
  {
    x.RotateLeft(n)
  }

  /** Section 3: X + Y modulo 2^32. */
  function Plus(x: word, y: word): word
  {
    x + y
  }

  /** Section 2: four octets, most significant first, as a word. */
  function BigEndianWord(b0: byte, b1: byte, b2: byte, b3: byte): word
  {
    (b0 as bv32 << 24) | (b1 as bv32 << 16) | (b2 as bv32 << 8) | (b3 as bv32)
  }

  /** Section 7, steps a and b: the word W(t) of a block. */
  function Schedule(block: seq<byte>, t: nat): word
    requires |block| == 64 && t < 80
  {
    if t < 16 then
      BigEndianWord(block[4 * t], block[4 * t + 1], block[4 * t + 2], block[4 * t + 3])
    else
      RotL(1, Schedule(block, t - 3) ^ Schedule(block, t - 8) ^ Schedule(block, t - 14) ^ Schedule(block, t - 16))
  }

  /** Section 5: the function f(t; B, C, D). */
  function F(t: nat, b: word, c: word, d: word): word
  {
    if t < 20 then (b & c) | ((!b) & d)
    else if t < 40 then b ^ c ^ d
    else if t < 60 then (b & c) | (b & d) | (c & d)
    else b ^ c ^ d
  }

  /** Section 6: the constant K(t). */
  function K(t: nat): word
  {
    if t < 20 then 0x5A827999
    else if t < 40 then 0x6ED9EBA1
    else if t < 60 then 0x8F1BBCDC
    else 0xCA62C1D6
  }

  /** Section 7, step d, once. */
  function Step(t: nat, s: State, w: word): State
  {
    State(Plus(Plus(Plus(Plus(RotL(5, s.a), F(t, s.b, s.c, s.d)), s.e), w), K(t)), s.a, RotL(30, s.b), s.c, s.d)
  }

  /** Section 7, step d, for the first t values. */
  function Rounds(block: seq<byte>, h: State, t: nat): State
    requires |block| == 64 && t <= 80
  {
    if t == 0 then h else Step(t - 1, Rounds(block, h, t - 1), Schedule(block, t - 1))
  }

  function AddStates(x: State, y: State): State
  {
    State(Plus(x.a, y.a), Plus(x.b, y.b), Plus(x.c, y.c), Plus(x.d, y.d), Plus(x.e, y.e))
  }

  /** Section 7: one block. */
  function Compress(h: State, block: seq<byte>): State
    requires |block| == 64
  {
    AddStates(h, Rounds(block, h, 80))
  }

  /** Section 7 over the blocks of a padded message, in order. */
  function HashBlocks(bytes: seq<byte>): State
    requires |bytes| % 64 == 0
  {
    if bytes == [] then INITIAL
    else
      var n := |bytes| - 64;
      assert n % 64 == 0 && |bytes[n..]| == 64;
      Compress(HashBlocks(bytes[..n]), bytes[n..])
  }

  /** The number of zero octets section 4 asks for after the 0x80 octet. */
  function ZeroCount(n: nat): (k: nat)
    ensures k < 64 && (n + 1 + k + 8) % 64 == 0
  {
    (119 - n % 64) % 64
  }

  /** A 32-bit number as four octets, most significant first. */
  function BigEndian32(n: nat): (s: seq<byte>)
    ensures |s| == 4
  {
    [n / 0x100_0000 % 256, n / 0x1_0000 % 256, n / 0x100 % 256, n % 256]
  }

  /** The two-word representation of a 64-bit count. */
  function BigEndian64(n: nat): (s: seq<byte>)
    ensures |s| == 8
  {
    BigEndian32(n / 0x1_0000_0000) + BigEndian32(n % 0x1_0000_0000)
  }

  /** Section 4: the padded message. */
  function Pad(m: seq<byte>): (p: seq<byte>)
    ensures |p| % 64 == 0
  {
    m + [0x80] + Repeat(0, ZeroCount(|m|)) + BigEndian64(8 * |m|)
  }

  function DigestOf(m: seq<byte>): State
  {
    HashBlocks(Pad(m))
  }

  /** No shorter run of zero octets would complete a block. */
  lemma ZeroCountIsLeast(n: nat, k: nat)
    requires (n + 1 + k + 8) % 64 == 0
    ensures ZeroCount(n) <= k
  {
  }

  function NumberOf(s: seq<byte>): (n: nat)
  {
    if s == [] then 0 else 0x100 * NumberOf(s[..|s| - 1]) + Last(s)
  }

  function Last(s: seq<byte>): nat
    requires s != []
  {
    s[|s| - 1]
  }

  /** The last eight octets of a padded message spell its length in bits. */
  lemma LengthReadsBack(n: nat)
    requires n < 0x1_0000_0000_0000_0000
    ensures NumberOf(BigEndian64(n)) == n
  {
    var high, low := n / 0x1_0000_0000, n % 0x1_0000_0000;
    FourRead(high);
    FourRead(low);
    NumberJoins(BigEndian32(high), BigEndian32(low));
    NumberJoins([], BigEndian32(low));
    assert [] + BigEndian32(low) == BigEndian32(low);
    hide NumberOf, BigEndian32;
  }

  lemma NumberSnoc(s: seq<byte>, x: byte)
    ensures NumberOf(s + [x]) == 0x100 * NumberOf(s) + Last([x])
  {
    assert (s + [x])[..|s|] == s;
  }

  lemma NumberJoins(a: seq<byte>, b: seq<byte>)
    requires |b| == 4
    ensures NumberOf(a + b) == 0x1_0000_0000 * NumberOf(a) + 0x100_0000 * Last(b[..1]) + 0x1_0000 * Last(b[..2]) + 0x100 * Last(b[..3]) + Last(b)
  {
    assert b == [b[0], b[1], b[2], b[3]];
    var a1, a2, a3 := a + [b[0]], a + [b[0]] + [b[1]], a + [b[0]] + [b[1]] + [b[2]];
    NumberSnoc(a, b[0]);
    NumberSnoc(a1, b[1]);
    NumberSnoc(a2, b[2]);
    NumberSnoc(a3, b[3]);
    hide NumberOf;
    assert a3 + [b[3]] == a + b;
  }

  lemma FourRead(n: nat)
    requires n < 0x1_0000_0000
    ensures NumberOf(BigEndian32(n)) == n
  {
    NumberJoins([], BigEndian32(n));
    assert [] + BigEndian32(n) == BigEndian32(n);
    FourOctets(n);
  }

  lemma FourOctets(n: nat)
    requires n < 0x1_0000_0000
    ensures 0x100_0000 * (n / 0x100_0000 % 256) + 0x1_0000 * (n / 0x1_0000 % 256) + 0x100 * (n / 0x100 % 256) + n % 256 == n
  {
    var a, b, c := n / 0x100, n / 0x1_0000, n / 0x100_0000;
    assert n == 0x100 * a + n % 256 && a == 0x100 * b + a % 256 && b == 0x100 * c + b % 256;
  }
}
