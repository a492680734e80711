/**
 * The variable-length integers of the Protocol Buffers encoding ("Base 128 Varints"): seven bits
 * an octet, least significant group first, the top bit set on every octet but the last.
 */
module Varint {

  import opened Bytes
  import opened ZigZag

  /** The code of a value. */
  function Code(v: nat): (c: seq<byte>)
    ensures |c| >= 1
  {
    if v < 128 then [v] else [v % 128 + 128] + Code(v / 128)
  }

  /** The number a string of octets spells, whatever their top bits. */
  function Value(c: seq<byte>): (v: nat)
  {
    if c == [] then 0 else Group(c[0]) + 128 * Value(c[1..])
  }

  /** `b & 0x7f`. */
  function Group(b: byte): (g: nat)
    ensures g < 128
  {
    b % 128
  }

  /** Where the first octet without the top bit stands. */
  function Stop(s: seq<byte>): (k: nat)
    ensures k <= |s|
    ensures forall i :: 0 <= i < k ==> s[i] >= 128
    ensures k < |s| ==> s[k] < 128
  {
    if s == [] || s[0] < 128 then 0 else 1 + Stop(s[1..])
  }

  /** One whole code: every octet but the last has its top bit set. */
  predicate IsCode(c: seq<byte>) {
    c != [] && Stop(c) == |c| - 1
  }

  // ---- Encoding ----

  lemma ModuloTwice(x: nat, p: nat)
    requires p > 0
    ensures x % (2 * p) == x % 2 + 2 * (x / 2 % p)
  {
    var q, r := x / 2 / p, x / 2 % p;
    assert x / 2 == q * p + r;
    Remainder(x, 2 * p, q, x % 2 + 2 * r);
  }

  lemma OrUnfolds(a: nat, p: nat, bits: nat)
    requires bits > 0
    ensures OrLow(a, 2 * p, bits) == a % 2 + 2 * OrLow(a / 2, p, bits - 1)
    ensures OrLow(a, 2 * p, bits) % 2 == a % 2
    ensures OrLow(a, 2 * p, bits) / 2 == OrLow(a / 2, p, bits - 1)
  {
    assert 2 * p / 2 == p && 2 * p % 2 == 0;
    SplitBit(a % 2, OrLow(a / 2, p, bits - 1));
  }

  lemma SplitBit(bit: nat, y: nat)
    requires bit < 2
    ensures (bit + 2 * y) % 2 == bit && (bit + 2 * y) / 2 == y
  {
  }

  lemma OrSetsNextBit(a: nat, p: nat, bits: nat)
    requires p > 0 && bits > 0
    requires OrLow(a / 2, p, bits - 1) % (2 * p) == a / 2 % p + p
    ensures OrLow(a, 2 * p, bits) % (4 * p) == a % (2 * p) + 2 * p
  {
    hide OrLow;
    OrUnfolds(a, p, bits);
    ModuloTwice(OrLow(a, 2 * p, bits), 2 * p);
    ModuloTwice(a, p);
  }

  lemma {:induction false} OrSetsBit(a: nat, k: nat, bits: nat)
    requires k < bits
    ensures OrLow(a, Pow2(k), bits) % Pow2(k + 1) == a % Pow2(k) + Pow2(k)
  {
    if k == 0 {
      assert Pow2(0) == 1 && Pow2(1) == 2;
    } else {
      var p := Pow2(k - 1);
      assert Pow2(k) == 2 * p && Pow2(k + 1) == 4 * p;
      hide Pow2, OrLow;
      OrSetsBit(a / 2, k - 1, bits - 1);
      OrSetsNextBit(a, p, bits);
    }
  }

  /** `value | 0x80` narrowed to the octet that is appended. */
  function Continued(v: nat): (b: byte)
    ensures b == v % 128 + 128
  {
    Pow2Widths();
    OrSetsBit(v, 7, 64);
    OrLow(v, 128, 64) % 256
  }

  /** `b` is what has been appended so far and `value` what is still to be encoded. */
  predicate Encoding(whole: seq<byte>, b: seq<byte>, value: nat) {
    b + Code(value) == whole
  }

  lemma AppendGroup(whole: seq<byte>, b: seq<byte>, value: nat)
    requires Encoding(whole, b, value) && value >= 128
    ensures Encoding(whole, b + [Continued(value)], value / 128)
  {
    assert b + Code(value) == b + [Continued(value)] + Code(value / 128);
  }

  lemma AppendLast(whole: seq<byte>, b: seq<byte>, value: nat)
    requires Encoding(whole, b, value) && value < 128
    ensures b + [value] == whole
  {
  }

  /** The nine nested tests: enough for every value of 64 bits. */
  method PackVarint(before: seq<byte>, v: nat) returns (b: seq<byte>)
    requires v < 0x1_0000_0000_0000_0000
    ensures b == before + Code(v)
  {
    b := before;
    var value := v;
    ghost var whole := before + Code(v);
    assert Encoding(whole, b, value);
    hide Encoding, Code;
    if value >= 0x80 {
      AppendGroup(whole, b, value);
      b := b + [Continued(value)];
      value := value / 128;
      if value >= 0x80 {
        AppendGroup(whole, b, value);
        b := b + [Continued(value)];
        value := value / 128;
        if value >= 0x80 {
          AppendGroup(whole, b, value);
          b := b + [Continued(value)];
          value := value / 128;
          if value >= 0x80 {
            AppendGroup(whole, b, value);
            b := b + [Continued(value)];
            value := value / 128;
            if value >= 0x80 {
              AppendGroup(whole, b, value);
              b := b + [Continued(value)];
              value := value / 128;
              if value >= 0x80 {
                AppendGroup(whole, b, value);
                b := b + [Continued(value)];
                value := value / 128;
                if value >= 0x80 {
                  AppendGroup(whole, b, value);
                  b := b + [Continued(value)];
                  value := value / 128;
                  if value >= 0x80 {
                    AppendGroup(whole, b, value);
                    b := b + [Continued(value)];
                    value := value / 128;
                    if value >= 0x80 {
                      AppendGroup(whole, b, value);
                      b := b + [Continued(value)];
                      value := value / 128;
                    }
                  }
                }
              }
            }
          }
        }
      }
    }
    AppendLast(whole, b, value);
    b := b + [value];
  }

  // ---- Decoding ----

  const SIZE_T_MINUS_ONE := 0xFFFF_FFFF_FFFF_FFFF

  /**
   * The length of the code at the start of `buffer`, which some octet without the top bit ends.
   * The error value is the size_t image of -1.
   */
  method SizeVarint(buffer: seq<byte>, len: nat) returns (size: nat)
    requires Stop(buffer) < |buffer|
    ensures size == if Stop(buffer) <= len then Stop(buffer) + 1 else 0xFFFF_FFFF_FFFF_FFFF
  {
    var pos := 0;
    while buffer[pos] >= 128
      invariant pos <= Stop(buffer) && pos <= len
      decreases Stop(buffer) - pos
    {
      pos := pos + 1;
      if pos > len {
        return SIZE_T_MINUS_ONE;
      }
    }
    return pos + 1;
  }

  lemma SnocStep(g: nat, h: nat, v: nat, p: nat)
    requires g < 128 && v < p
    ensures g + 128 * (v + h * p) == g + 128 * v + h * (128 * p)
    ensures g + 128 * v < 128 * p
  {
  }

  lemma {:induction false} ValueSnoc(c: seq<byte>, b: byte)
    ensures Value(c + [b]) == Value(c) + Group(b) * Pow2(7 * |c|)
    ensures Value(c) < Pow2(7 * |c|)
  {
    if c == [] {
      assert Value([b]) == Group(b) + 128 * Value([]);
    } else {
      var rest := c[1..];
      assert (c + [b])[1..] == rest + [b];
      ValueSnoc(rest, b);
      Pow2Widths();
      Pow2Plus(7, 7 * |rest|);
      hide Pow2;
      SnocStep(Group(c[0]), Group(b), Value(rest), Pow2(7 * |rest|));
    }
  }

  /** A shift to the left in 64 bits. */
  function ShiftLeft(x: nat, shift: nat): (y: nat)
    requires shift < 64
    ensures y < Pow2(64)
  {
    x * Pow2(shift) % Pow2(64)
  }

  lemma {:induction false} OrNothing(c: nat, bits: nat)
    requires c < Pow2(bits)
    ensures OrLow(0, c, bits) == c
  {
    if bits > 0 {
      OrNothing(c / 2, bits - 1);
    }
  }

  lemma OrDisjointStep(a: nat, c: nat, p: nat, bits: nat)
    requires bits > 0
    requires OrLow(a / 2, c * p, bits - 1) == a / 2 + c * p
    ensures OrLow(a, c * (2 * p), bits) == a + c * (2 * p)
  {
    assert c * (2 * p) == 2 * (c * p);
    hide OrLow;
    OrUnfolds(a, c * p, bits);
  }

  /** Where no bit is set on both sides, `|` is a sum. */
  lemma {:induction false} OrDisjoint(a: nat, c: nat, k: nat, bits: nat)
    requires a < Pow2(k) && k <= bits && c < Pow2(bits - k)
    ensures OrLow(a, c * Pow2(k), bits) == a + c * Pow2(k)
  {
    if k == 0 {
      OrNothing(c, bits);
    } else {
      assert Pow2(k) == 2 * Pow2(k - 1) && a / 2 < Pow2(k - 1);
      hide Pow2, OrLow;
      OrDisjoint(a / 2, c, k - 1, bits - 1);
      OrDisjointStep(a, c, Pow2(k - 1), bits);
    }
  }

  lemma ScaledSum(a: nat, g: nat, p: nat, q: nat)
    requires a < p && q > 0
    ensures q * p > 0 && (a + g * p) % (q * p) == a + g % q * p
  {
    var d, r := g / q, g % q;
    assert g * p == d * (q * p) + r * p by {
      assert g == d * q + r;
    }
    assert r * p + p <= q * p by {
      assert (r + 1) * p <= q * p;
    }
    Remainder(a + g * p, q * p, d, a + r * p);
  }

  /** The bits pushed out at the top are lost, and adding below the others changes none of them. */
  lemma SumInWidth(a: nat, g: nat, k: nat)
    requires k < 64 && a < Pow2(k)
    ensures (a + g * Pow2(k)) % Pow2(64) == a + g % Pow2(64 - k) * Pow2(k)
  {
    Pow2Plus(64 - k, k);
    hide Pow2;
    ScaledSum(a, g, Pow2(k), Pow2(64 - k));
  }

  /** One turn of the loop: the next group lands above the bits already there. */
  lemma OrGroup(c: seq<byte>, b: byte)
    requires |c| <= 9
    ensures OrLow(Value(c), ShiftLeft(Group(b), 7 * |c|), 64) == Value(c + [b]) % Pow2(64)
  {
    hide Pow2, OrLow, Value, Group;
    var k := 7 * |c|;
    ValueSnoc(c, b);
    SumInWidth(0, Group(b), k);
    SumInWidth(Value(c), Group(b), k);
    OrDisjoint(Value(c), Group(b) % Pow2(64 - k), k, 64);
  }

  /** What the loop has gathered after the octets `c`. */
  predicate Gathered(c: seq<byte>, value: nat)
  {
    value == Value(c) % Pow2(64) && (|c| <= 9 ==> value == Value(c))
  }

  lemma GatherFirst(c: seq<byte>)
    requires |c| == 1
    ensures Gathered(c, Group(c[0]))
  {
    assert c[1..] == [];
    Pow2Widths();
  }

  lemma GatherNext(c: seq<byte>, b: byte, value: nat)
    requires |c| <= 9 && Gathered(c, value)
    ensures Gathered(c + [b], OrLow(value, ShiftLeft(Group(b), 7 * |c|), 64))
  {
    hide Pow2, OrLow, Value, Group, ShiftLeft;
    OrGroup(c, b);
    if |c + [b]| <= 9 {
      ValueSnoc(c + [b], 0);
      Pow2Grows(7 * |c + [b]|, 64);
    }
  }

  /** The loop shifts by less than the width as long as a code has at most ten octets. */
  method UnpackVarint(buffer: seq<byte>, len: nat) returns (value: nat)
    requires 1 <= len <= 10 && len <= |buffer|
    ensures value == Value(buffer[..len]) % Pow2(64)
  {
    value := Group(buffer[0]);
    GatherFirst(buffer[..1]);
    hide Gathered, OrLow, Group, ShiftLeft;
    var shift, pos := 7, 1;
    while pos < len
      invariant 1 <= pos <= len && shift == 7 * pos
      invariant Gathered(buffer[..pos], value)
    {
      GatherNext(buffer[..pos], buffer[pos], value);
      assert buffer[..pos] + [buffer[pos]] == buffer[..pos + 1];
      value := OrLow(value, ShiftLeft(Group(buffer[pos]), shift), 64);
      shift := shift + 7;
      pos := pos + 1;
    }
    GatheredAll(buffer[..len], value);
  }

  lemma GatheredAll(c: seq<byte>, value: nat)
    requires Gathered(c, value)
    ensures value == Value(c) % Pow2(64)
  {
  }

  // ---- The Lua-facing coders ----

  /** A Lua string in memory, from `pos` to its terminating NUL. */
  function Memory(s: seq<byte>, pos: nat): (m: seq<byte>)
    requires pos <= |s|
    ensures m != [] && m[|m| - 1] == 0
    ensures Stop(m) < |m|
  {
    s[pos..] + [0]
  }

  /** What a decoder pushes: the value and the position after its code. */
  function Decoded(s: seq<byte>, pos: nat): (r: (nat, nat))
    requires pos <= |s|
    ensures r.0 < Pow2(64) && pos < r.1 <= |s| + 1
  {
    var m := Memory(s, pos);
    (Value(m[..Stop(m) + 1]) % Pow2(64), pos + Stop(m) + 1)
  }

  /**
   * A code of more than ten octets would shift by the width or more, which the language leaves
   * undefined. The test for a failed size compares an unsigned number with 0 and never fires; nor
   * could the size fail, because the length handed over is that of the whole string.
   */
  method VarintDecoder(s: seq<byte>, pos: nat) returns (value: nat, next: nat)
    requires pos <= |s| && Stop(Memory(s, pos)) < 10
    ensures (value, next) == Decoded(s, pos)
  {
    var buffer := Memory(s, pos);
    var len := SizeVarint(buffer, |s|);
    value := UnpackVarint(buffer, len);
    next := len + pos;
  }

  method SignedVarintDecoder(s: seq<byte>, pos: nat) returns (value: int, next: nat)
    requires pos <= |s| && Stop(Memory(s, pos)) < 10
    ensures value == Reading(Decoded(s, pos).0, 64) && next == Decoded(s, pos).1
  {
    var buffer := Memory(s, pos);
    var len := SizeVarint(buffer, |s|);
    var bits := UnpackVarint(buffer, len);
    value := Reading(bits, 64);
    next := len + pos;
  }

  method SignedVarintEncoder(before: seq<byte>, n: int) returns (b: seq<byte>)
    requires Fits(n, 64)
    ensures b == before + Code(Image(n, 64))
  {
    Pow2Widths();
    if n < 0 {
      b := PackVarint(before, Image(n, 64));
    } else {
      b := PackVarint(before, n);
    }
  }

  // ---- Laws ----

  lemma {:induction false} CodeReadsBack(v: nat)
    ensures IsCode(Code(v)) && Value(Code(v)) == v
  {
    if v >= 128 {
      CodeReadsBack(v / 128);
      assert Code(v)[1..] == Code(v / 128);
    } else {
      assert Code(v)[1..] == [];
    }
  }

  lemma QuotientBound(v: nat, p: nat)
    ensures v / 128 < p <==> v < 128 * p
  {
  }

  /** The number of octets tells the size of the value and the other way round. */
  lemma {:induction false} CodeLength(v: nat, k: nat)
    requires k >= 1
    ensures |Code(v)| <= k <==> v < Pow2(7 * k)
  {
    Pow2Widths();
    hide Pow2;
    if v < 128 {
      Pow2Grows(7, 7 * k);
    } else if k > 1 {
      CodeLength(v / 128, k - 1);
      Pow2Plus(7, 7 * (k - 1));
      QuotientBound(v, Pow2(7 * (k - 1)));
    }
  }

  lemma AtMostTen(v: nat)
    requires v < Pow2(64)
    ensures |Code(v)| <= 10
    ensures |Code(v)| == 10 <==> v >= Pow2(63)
  {
    Pow2Grows(64, 70);
    CodeLength(v, 10);
    CodeLength(v, 9);
  }

  /** A leading group in front of a code: the code of the larger value, unless that is zero. */
  lemma Prepended(b: byte, v: nat)
    requires b >= 128
    ensures v > 0 ==> Code(Group(b) + 128 * v) == [b] + Code(v)
    ensures v == 0 ==> |Code(Group(b) + 128 * v)| == 1
  {
    if v > 0 {
      assert (Group(b) + 128 * v) / 128 == v && (Group(b) + 128 * v) % 128 == b - 128;
    }
  }

  lemma LoneOctet(c: seq<byte>)
    requires IsCode(c) && |c| == 1
    ensures Value(c) == c[0] && Code(Value(c)) == c
  {
    assert c[0] < 128 && c[1..] == [];
    assert Value(c) == c[0];
  }

  lemma CodeUnfolds(c: seq<byte>)
    requires IsCode(c) && |c| > 1
    ensures c[0] >= 128 && IsCode(c[1..])
    ensures Value(c) == Group(c[0]) + 128 * Value(c[1..])
  {
    hide Group, Code;
  }

  /** Of all the codes of a value, the encoder's is the one shortest. */
  lemma {:induction false} Shortest(c: seq<byte>)
    requires IsCode(c)
    ensures |Code(Value(c))| <= |c|
    ensures |Code(Value(c))| == |c| ==> Code(Value(c)) == c
  {
    hide Code, Value, Stop, Group;
    if |c| == 1 {
      LoneOctet(c);
    } else {
      CodeUnfolds(c);
      Shortest(c[1..]);
      Prepended(c[0], Value(c[1..]));
      assert c == [c[0]] + c[1..];
    }
  }

  lemma {:induction false} StopIs(s: seq<byte>, k: nat)
    requires k < |s| && s[k] < 128
    requires forall i :: 0 <= i < k ==> s[i] >= 128
    ensures Stop(s) == k
  {
    if k > 0 {
      StopIs(s[1..], k - 1);
    }
  }

  /** The octets of `c` stand in `s` from `pos` on. */
  predicate StandsAt(c: seq<byte>, s: seq<byte>, pos: nat)
  {
    pos + |c| <= |s| && forall i :: 0 <= i < |c| ==> s[pos + i] == c[i]
  }

  lemma StandsWithin(c: seq<byte>, s: seq<byte>, pos: nat)
    requires StandsAt(c, s, pos)
    ensures pos + |c| <= |s|
  {
  }

  lemma MemoryHolds(c: seq<byte>, s: seq<byte>, pos: nat)
    requires StandsAt(c, s, pos)
    ensures c <= Memory(s, pos)
  {
    assert forall i :: 0 <= i < |c| ==> Memory(s, pos)[i] == s[pos + i];
  }

  /** A code is read wherever it stands. */
  lemma DecodedAt(s: seq<byte>, pos: nat, c: seq<byte>)
    requires IsCode(c) && StandsAt(c, s, pos)
    ensures Stop(Memory(s, pos)) == |c| - 1
    ensures Decoded(s, pos) == (Value(c) % Pow2(64), pos + |c|)
  {
    hide Pow2, Value, Stop, Memory, StandsAt;
    StandsWithin(c, s, pos);
    MemoryHolds(c, s, pos);
    var m := Memory(s, pos);
    assert m[..|c|] == c;
    StopIs(m, |c| - 1);
  }

  lemma EncodedAt(s: seq<byte>, pos: nat, v: nat)
    requires v < Pow2(64) && StandsAt(Code(v), s, pos)
    ensures Stop(Memory(s, pos)) < 10
    ensures Decoded(s, pos) == (v, pos + |Code(v)|)
  {
    hide Pow2, Code, Decoded, StandsAt, Memory, IsCode, Stop, Value;
    CodeReadsBack(v);
    DecodedAt(s, pos, Code(v));
    AtMostTen(v);
    Remainder(v, Pow2(64), 0, v);
  }

  function Codes(vs: seq<nat>): seq<byte>
  {
    if vs == [] then [] else Code(vs[0]) + Codes(vs[1..])
  }

  /** A list of values read by feeding each returned position to the next call. */
  function Walk(s: seq<byte>, pos: nat, count: nat): (r: (seq<nat>, nat))
    requires pos <= |s|
    decreases count
  {
    if count == 0 then ([], pos)
    else
      var (v, next) := Decoded(s, pos);
      if next > |s| then ([v], next)
      else
        var (vs, end) := Walk(s, next, count - 1);
        ([v] + vs, end)
  }

  predicate AllFit(vs: seq<nat>)
  {
    forall i :: 0 <= i < |vs| ==> vs[i] < Pow2(64)
  }

  lemma WalkStep(s: seq<byte>, pos: nat, count: nat, v: nat, next: nat)
    requires pos <= |s| && count > 0
    requires Decoded(s, pos) == (v, next) && next <= |s|
    ensures Walk(s, pos, count) == ([v] + Walk(s, next, count - 1).0, Walk(s, next, count - 1).1)
  {
  }

  lemma WalkNothing(s: seq<byte>, pos: nat)
    requires pos <= |s|
    ensures Walk(s, pos, 0) == ([], pos)
  {
  }

  /** Every list of 64-bit values comes back from the concatenation of its codes. */
  lemma {:induction false} WalkBack(s: seq<byte>, pos: nat, vs: seq<nat>)
    requires AllFit(vs) && StandsAt(Codes(vs), s, pos)
    ensures Walk(s, pos, |vs|) == (vs, pos + |Codes(vs)|)
    decreases |vs|
  {
    hide Pow2, Code, Decoded, StandsAt, Walk;
    StandsWithin(Codes(vs), s, pos);
    if vs == [] {
      WalkNothing(s, pos);
    } else {
      var c, rest := Code(vs[0]), vs[1..];
      StandsSplit(c, Codes(rest), s, pos);
      EncodedAt(s, pos, vs[0]);
      WalkBack(s, pos + |c|, rest);
      WalkStep(s, pos, |vs|, vs[0], pos + |c|);
      assert vs == [vs[0]] + rest;
    }
  }

  lemma StandsSplit(a: seq<byte>, b: seq<byte>, s: seq<byte>, pos: nat)
    requires StandsAt(a + b, s, pos)
    ensures StandsAt(a, s, pos) && StandsAt(b, s, pos + |a|) && pos + |a| <= |s|
  {
    forall i | 0 <= i < |a| ensures s[pos + i] == a[i] {
      assert a[i] == (a + b)[i];
    }
    forall i | 0 <= i < |b| ensures s[pos + |a| + i] == b[i] {
      assert b[i] == (a + b)[|a| + i];
    }
  }

  predicate AllSigned(ns: seq<int>)
  {
    forall i :: 0 <= i < |ns| ==> Fits(ns[i], 64)
  }

  function Images(ns: seq<int>): (vs: seq<nat>)
    requires AllSigned(ns)
    ensures |vs| == |ns| && AllFit(vs)
  {
    seq(|ns|, i requires 0 <= i < |ns| => Image(ns[i], 64))
  }

  function Readings(vs: seq<nat>): (ns: seq<int>)
    requires AllFit(vs)
    ensures |ns| == |vs| && AllSigned(ns)
  {
    seq(|vs|, i requires 0 <= i < |vs| => Reading(vs[i], 64))
  }

  /** Signed lists, negative numbers included, survive through their two's complement images. */
  lemma SignedWalkBack(ns: seq<int>, rest: seq<byte>)
    requires AllSigned(ns)
    ensures var (vs, end) := Walk(Codes(Images(ns)) + rest, 0, |ns|);
            AllFit(vs) && Readings(vs) == ns && end == |Codes(Images(ns))|
  {
    hide Pow2, Codes, Walk, Fits, Image, Reading;
    var vs := Images(ns);
    WalkBack(Codes(vs) + rest, 0, vs);
    forall i | 0 <= i < |ns| ensures Readings(vs)[i] == ns[i] {
      ReadingOfImage(ns[i], 64);
    }
  }

  /** On this path a negative number always takes ten octets. */
  lemma NegativeTakesTen(n: int)
    requires Fits(n, 64) && n < 0
    ensures |Code(Image(n, 64))| == 10
  {
    Pow2Widths();
    hide Code;
    AtMostTen(Image(n, 64));
  }

  /** ZigZag makes the code as short as the magnitude allows. */
  lemma ZigZagLength(n: int, w: nat, k: nat)
    requires w > 0 && Fits(n, w) && k >= 1
    ensures |Code(Encode(n, w))| <= k <==> -(Pow2(7 * k - 1) as int) <= n < Pow2(7 * k - 1)
  {
    assert Pow2(7 * k) == 2 * Pow2(7 * k - 1);
    hide Code, Pow2, Encode;
    CodeLength(Encode(n, w), k);
    EncodeIs(n, w);
  }

  /** A code cut off by the end of the string is completed by the NUL that follows: no error. */
  lemma TruncatedCode(s: seq<byte>, pos: nat)
    requires pos <= |s| && Stop(s[pos..]) == |s| - pos
    ensures Decoded(s, pos) == (Value(s[pos..]) % Pow2(64), |s| + 1)
  {
    hide Pow2, Value;
    var c := s[pos..];
    StopIs(Memory(s, pos), |c|);
    assert Memory(s, pos)[..|c| + 1] == c + [0];
    ValueSnoc(c, 0);
  }

  /** The examples of the encoding's description, and the two ends of the range. */
  lemma KnownCodes()
    ensures Code(1) == [0x01] && Code(150) == [0x96, 0x01] && Code(300) == [0xAC, 0x02]
    ensures Code(127) == [0x7F] && Code(128) == [0x80, 0x01]
  {
  }
}
