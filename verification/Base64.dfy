/** The Base64 encoder and decoder of the SHA1 class, against section 4 of RFC 4648. */
module Base64 {
  import opened Bytes

  // The alphabet A-Z a-z 0-9 + / as a table and as its search.

  function AlphabetChar(i: nat): char
    requires i < 64
  {
    if i < 26 then ('A' as int + i) as char
    else if i < 52 then ('a' as int + (i - 26)) as char
    else if i < 62 then ('0' as int + (i - 52)) as char
    else if i == 62 then '+'
    else '/'
  }

  predicate IsBase64(c: char)
  {
    'A' <= c <= 'Z' || 'a' <= c <= 'z' || '0' <= c <= '9' || c == '+' || c == '/'
  }

  /** `base64_chars.find(c)` cast to an unsigned char: "not found" becomes 255. */
  function Find(c: char): (i: byte)
    ensures if IsBase64(c) then i < 64 && AlphabetChar(i) == c else i == 255
  {
    if 'A' <= c <= 'Z' then c as int - 'A' as int
    else if 'a' <= c <= 'z' then 26 + (c as int - 'a' as int)
    else if '0' <= c <= '9' then 52 + (c as int - '0' as int)
    else if c == '+' then 62
    else if c == '/' then 63
    else 255
  }

  lemma FindAlphabetChar(i: nat)
    requires i < 64
    ensures IsBase64(AlphabetChar(i)) && Find(AlphabetChar(i)) == i
  {
  }

  // The encoding as the RFC describes it: 24-bit groups cut into four 6-bit values.

  function Group(a: byte, b: byte, c: byte): (n: nat)
    ensures n < 0x100_0000
  {
    0x1_0000 * a + 0x100 * b + c
  }

  function Sextets(n: nat): (s: seq<nat>)
    requires n < 0x100_0000
    ensures |s| == 4 && forall k :: 0 <= k < 4 ==> s[k] < 64
  {
    [n / 0x4_0000, n / 0x1000 % 64, n / 64 % 64, n % 64]
  }

  function Chars(s: seq<nat>): (t: string)
    requires forall k :: 0 <= k < |s| ==> s[k] < 64
    ensures |t| == |s|
  {
    if s == [] then "" else Chars(s[..|s| - 1]) + [AlphabetChar(s[|s| - 1])]
  }

  /** Three octets: four characters. */
  function Quad(a: byte, b: byte, c: byte): (t: string)
    ensures |t| == 4
  {
    Chars(Sextets(Group(a, b, c)))
  }

  /** One or two octets left over: zero bits complete the last 6-bit value, '=' the group. */
  function Tail(bytes: seq<byte>): (t: string)
    requires 1 <= |bytes| <= 2
    ensures |t| == 4
  {
    if |bytes| == 1 then Chars(Sextets(Group(bytes[0], 0, 0))[..2]) + "=="
    else Chars(Sextets(Group(bytes[0], bytes[1], 0))[..3]) + "="
  }

  function Encoded(bytes: seq<byte>): string
  {
    if |bytes| == 0 then ""
    else if |bytes| < 3 then Tail(bytes)
    else Quad(bytes[0], bytes[1], bytes[2]) + Encoded(bytes[3..])
  }

  /** The octets of four characters. */
  function Triple(chars: string): (s: seq<byte>)
    requires |chars| == 4 && forall k :: 0 <= k < |chars| ==> IsBase64(chars[k])
    ensures |s| == 3
  {
    var n := 0x4_0000 * Find(chars[0]) + 0x1000 * Find(chars[1]) + 64 * Find(chars[2]) + Find(chars[3]);
    [n / 0x1_0000, n / 0x100 % 256, n % 256]
  }

  /** The whole octets in fewer than four characters; a lone character holds none. */
  function Partial(chars: string): (s: seq<byte>)
    requires |chars| < 4 && forall k :: 0 <= k < |chars| ==> IsBase64(chars[k])
    ensures |s| == if |chars| == 0 then 0 else |chars| - 1
  {
    if |chars| <= 1 then []
    else
      var n := 64 * Find(chars[0]) + Find(chars[1]);
      if |chars| == 2 then [n / 16]
      else [n / 16, (64 * n + Find(chars[2])) / 4 % 256]
  }

  function Decoded(chars: string): seq<byte>
    requires forall k :: 0 <= k < |chars| ==> IsBase64(chars[k])
  {
    if |chars| < 4 then Partial(chars) else Triple(chars[..4]) + Decoded(chars[4..])
  }

  /** The characters before the first one outside the alphabet. */
  function Leading(s: string): (p: string)
    ensures p <= s && forall k :: 0 <= k < |p| ==> IsBase64(p[k])
    ensures |p| < |s| ==> !IsBase64(s[|p|])
  {
    if s == "" || !IsBase64(s[0]) then "" else [s[0]] + Leading(s[1..])
  }

  /** What base64_decode returns: decoding stops at the first character outside the alphabet. */
  function Decoding(s: string): seq<byte>
  {
    Decoded(Leading(s))
  }

  // The loops.

  /** The four 6-bit values of the three octets in char_array_3. */
  method Spread(char_array_3: array<byte>) returns (char_array_4: array<nat>)
    requires char_array_3.Length == 3
    ensures fresh(char_array_4)
    ensures char_array_4[..] == Sextets(Group(char_array_3[0], char_array_3[1], char_array_3[2]))
  {
    char_array_4 := new nat[4];
    char_array_4[0] := char_array_3[0] / 4;
    char_array_4[1] := char_array_3[0] % 4 * 16 + char_array_3[1] / 16;
    char_array_4[2] := char_array_3[1] % 16 * 4 + char_array_3[2] / 64;
    char_array_4[3] := char_array_3[2] % 64;
    SextetsOfOctets(char_array_3[0], char_array_3[1], char_array_3[2]);
  }

  /** A quotient and remainder are determined by the sum they make. */
  lemma Division(n: nat, d: nat, q: nat, r: nat)
    requires d == 4 || d == 16 || d == 64 || d == 0x100 || d == 0x1000 || d == 0x1_0000 || d == 0x4_0000
    requires n == d * q + r && r < d
    ensures n / d == q && n % d == r
  {
  }

  lemma SextetsOfOctets(a: byte, b: byte, c: byte)
    ensures Sextets(Group(a, b, c)) == [a / 4, a % 4 * 16 + b / 16, b % 16 * 4 + c / 64, c % 64]
  {
    var n := Group(a, b, c);
    var a1, a0, b1, b0, c1, c0 := a / 4, a % 4, b / 16, b % 16, c / 64, c % 64;
    Division(n, 0x4_0000, a1, 0x1_0000 * a0 + 0x100 * b + c);
    Division(n, 0x1000, 64 * a1 + 16 * a0 + b1, 0x100 * b0 + c);
    Division(64 * a1 + 16 * a0 + b1, 64, a1, 16 * a0 + b1);
    Division(n, 64, 0x1000 * a1 + 0x400 * a0 + 64 * b1 + 4 * b0 + c1, c0);
    Division(0x1000 * a1 + 0x400 * a0 + 64 * b1 + 4 * b0 + c1, 64, 64 * a1 + 16 * a0 + b1, 4 * b0 + c1);
  }

  method AppendChars(ret: string, char_array_4: array<nat>, n: nat) returns (extended: string)
    requires n <= char_array_4.Length && forall k :: 0 <= k < n ==> char_array_4[k] < 64
    ensures extended == ret + Chars(char_array_4[..n])
  {
    extended := ret;
    var j := 0;
    while j < n
      invariant 0 <= j <= n
      invariant extended == ret + Chars(char_array_4[..j])
    {
      assert char_array_4[..j + 1][..j] == char_array_4[..j];
      extended := extended + [AlphabetChar(char_array_4[j])];
      j := j + 1;
    }
  }

  lemma EncodedUnfolds(s: seq<byte>)
    ensures |s| >= 3 ==> Encoded(s) == Quad(s[0], s[1], s[2]) + Encoded(s[3..])
    ensures 1 <= |s| <= 2 ==> Encoded(s) == Tail(s)
    ensures s == [] ==> Encoded(s) == ""
  {
  }

  lemma AppendQuad(whole: string, ret: string, rest: seq<byte>)
    requires |rest| >= 3 && whole == ret + Encoded(rest)
    ensures whole == ret + Chars(Sextets(Group(rest[0], rest[1], rest[2]))) + Encoded(rest[3..])
  {
    hide Chars, Sextets, Group, Encoded;
    EncodedUnfolds(rest);
  }

  method Base64Encode(bytes_to_encode: seq<byte>) returns (ret: string)
    ensures ret == Encoded(bytes_to_encode)
  {
    hide Sextets, Group, Chars, Tail, Encoded;
    ret := "";
    var char_array_3 := new byte[3];
    var i, k := 0, 0;
    while k < |bytes_to_encode|
      invariant 0 <= i < 3 && i <= k <= |bytes_to_encode|
      invariant char_array_3[..i] == bytes_to_encode[k - i..k]
      invariant Encoded(bytes_to_encode) == ret + Encoded(bytes_to_encode[k - i..])
    {
      StoreNext(char_array_3, i, bytes_to_encode, k);
      i, k := i + 1, k + 1;
      if i == 3 {
        AppendQuad(Encoded(bytes_to_encode), ret, bytes_to_encode[k - 3..]);
        DropTwice(bytes_to_encode, k - 3, 3);
        ret := EncodeThree(ret, char_array_3, bytes_to_encode[k - 3..]);
        i := 0;
      }
    }
    EncodedUnfolds(bytes_to_encode[k - i..]);
    if i != 0 {
      assert bytes_to_encode[k - i..k] == bytes_to_encode[k - i..];
      ret := EncodeTail(ret, char_array_3, i, bytes_to_encode[k - i..]);
    }
  }

  method StoreNext(char_array_3: array<byte>, i: nat, bytes: seq<byte>, k: nat)
    requires char_array_3.Length == 3 && i < 3 && i <= k < |bytes|
    requires char_array_3[..i] == bytes[k - i..k]
    modifies char_array_3
    ensures char_array_3[..i + 1] == bytes[k - i..k + 1]
  {
    char_array_3[i] := bytes[k];
    assert bytes[k - i..k + 1] == bytes[k - i..k] + [bytes[k]];
  }

  /** The code inside the loop of base64_encode for a full group. */
  method EncodeThree(before: string, char_array_3: array<byte>, ghost rest: seq<byte>) returns (ret: string)
    requires char_array_3.Length == 3 && |rest| >= 3 && char_array_3[..] == rest[..3]
    ensures ret == before + Chars(Sextets(Group(rest[0], rest[1], rest[2])))
  {
    hide Sextets, Group, Chars;
    assert rest[..3] == [rest[0], rest[1], rest[2]];
    var char_array_4 := Spread(char_array_3);
    assert char_array_4[..4] == char_array_4[..];
    ret := AppendChars(before, char_array_4, 4);
  }

  /** The code after the loop of base64_encode. */
  method EncodeTail(before: string, char_array_3: array<byte>, left: nat, ghost tail: seq<byte>) returns (ret: string)
    requires char_array_3.Length == 3 && 1 <= left <= 2 && char_array_3[..left] == tail
    modifies char_array_3
    ensures ret == before + Tail(tail)
  {
    hide Sextets, Group, Chars;
    assert forall m :: 0 <= m < left ==> char_array_3[m] == char_array_3[..left][m];
    var i, j := left, left;
    while j < 3
      invariant left <= j <= 3
      invariant forall m :: 0 <= m < left ==> char_array_3[m] == tail[m]
      invariant forall m :: left <= m < j ==> char_array_3[m] == 0
    {
      char_array_3[j] := 0;
      j := j + 1;
    }
    var char_array_4 := Spread(char_array_3);
    assert char_array_4[..i + 1] == char_array_4[..][..i + 1];
    ret := AppendChars(before, char_array_4, i + 1);
    ghost var chars := ret;
    while i < 3
      invariant left <= i <= 3
      invariant ret == chars + Repeat('=', i - left)
    {
      assert Repeat('=', i + 1 - left) == Repeat('=', i - left) + "=";
      ret := ret + "=";
      i := i + 1;
    }
    assert Repeat('=', 3 - left) == if left == 1 then "==" else "=";
  }

  /** The three octets of the four values in char_array_4; sums are cut to eight bits. */
  method Gather(char_array_4: array<byte>) returns (char_array_3: array<byte>)
    requires char_array_4.Length == 4
    ensures fresh(char_array_3)
    ensures char_array_3[..] == Octets(char_array_4[0], char_array_4[1], char_array_4[2], char_array_4[3])
  {
    var x: int, y: int, z: int, w: int := char_array_4[0], char_array_4[1], char_array_4[2], char_array_4[3];
    char_array_3 := new byte[3];
    char_array_3[0] := (x * 4 + y / 16 % 4) % 256;
    char_array_3[1] := (y % 16 * 16 + z / 4 % 16) % 256;
    char_array_3[2] := (z % 4 * 64 + w) % 256;
  }

  function Octets(x: int, y: int, z: int, w: int): (s: seq<byte>)
    ensures |s| == 3
  {
    [(x * 4 + y / 16 % 4) % 256, (y % 16 * 16 + z / 4 % 16) % 256, (z % 4 * 64 + w) % 256]
  }

  lemma HighOctet(x: nat, y: nat)
    requires x < 64 && y < 64
    ensures (x * 4 + y / 16 % 4) % 256 == (64 * x + y) / 16
  {
    Division(64 * x + y, 16, 4 * x + y / 16, y % 16);
  }

  lemma MiddleOctet(x: nat, y: nat, z: nat)
    requires x < 64 && y < 64 && z < 64
    ensures (y % 16 * 16 + z / 4 % 16) % 256 == (64 * (64 * x + y) + z) / 4 % 256
  {
    var y1, y0, z1 := y / 16, y % 16, z / 4;
    Division(64 * (64 * x + y) + z, 4, 0x400 * x + 16 * y + z1, z % 4);
    Division(0x400 * x + 16 * y + z1, 0x100, 4 * x + y1, 16 * y0 + z1);
  }

  lemma LowOctet(x: nat, y: nat, z: nat, w: nat)
    requires w < 64
    ensures (z % 4 * 64 + w) % 256 == (0x4_0000 * x + 0x1000 * y + 64 * z + w) % 256
  {
    Division(0x4_0000 * x + 0x1000 * y + 64 * z + w, 0x100, 0x400 * x + 16 * y + z / 4, z % 4 * 64 + w);
  }

  /** Four values below 64: the octets of the 24-bit number they make. */
  lemma OctetsOfSextets(x: nat, y: nat, z: nat, w: nat)
    requires x < 64 && y < 64 && z < 64 && w < 64
    ensures var n := 0x4_0000 * x + 0x1000 * y + 64 * z + w;
            Octets(x, y, z, w) == [n / 0x1_0000, n / 0x100 % 256, n % 256]
  {
    var high := 64 * x + y;
    var n := 0x1000 * high + 64 * z + w;
    HighOctet(x, y);
    MiddleOctet(x, y, z);
    LowOctet(x, y, z, w);
    assert n / 0x1_0000 == high / 16;
    assert n / 0x100 == (64 * high + z) / 4;
  }

  /** The octets a short group holds do not depend on what stands in the places after it. */
  lemma OctetsOfPartial(x: nat, y: nat, z: nat, w: nat)
    requires x < 64 && y < 64
    ensures Octets(x, y, z, w)[0] == (64 * x + y) / 16
    ensures z < 64 ==> Octets(x, y, z, w)[1] == (64 * (64 * x + y) + z) / 4 % 256
  {
    HighOctet(x, y);
    if z < 64 {
      MiddleOctet(x, y, z);
    }
  }

  lemma AppendTriple(whole: seq<byte>, ret: seq<byte>, rest: string)
    requires |rest| >= 4 && (forall k :: 0 <= k < |rest| ==> IsBase64(rest[k])) && whole == ret + Decoded(rest)
    ensures whole == ret + Triple(rest[..4]) + Decoded(rest[4..])
  {
    hide Triple, IsBase64;
  }

  method Base64Decode(encoded_string: string) returns (ret: seq<byte>)
    ensures ret == Decoding(encoded_string)
  {
    hide Octets, Find, IsBase64, Partial, AlphabetChar, Decoded, Triple, Leading;
    ghost var lead := Leading(encoded_string);
    ret := [];
    var char_array_4 := new byte[4];
    var i, in_ := 0, 0;
    assert !IsBase64('=') by { NotInAlphabet(); }
    while in_ < |encoded_string| && encoded_string[in_] != '=' && IsBase64(encoded_string[in_])
      invariant 0 <= i < 4 && i <= in_ <= |lead|
      invariant forall m :: 0 <= m < i ==> char_array_4[m] == lead[in_ - i + m] as int
      invariant Decoded(lead) == ret + Decoded(lead[in_ - i..])
    {
      assert in_ < |lead| && lead[in_] == encoded_string[in_];
      AlphabetIsAscii(encoded_string[in_]);
      char_array_4[i] := encoded_string[in_] as int;
      i, in_ := i + 1, in_ + 1;
      if i == 4 {
        ghost var rest := lead[in_ - 4..];
        AppendTriple(Decoded(lead), ret, rest);
        DropTwice(lead, in_ - 4, 4);
        var octets := DecodeQuad(char_array_4, rest[..4]);
        ret := ret + octets;
        i := 0;
      }
    }
    assert in_ == |lead|;
    ShortDecoded(lead[in_ - i..]);
    if i != 0 {
      var octets := DecodeTail(char_array_4, i, lead[in_ - i..]);
      ret := ret + octets;
    }
  }

  lemma ShortDecoded(chars: string)
    requires |chars| < 4 && forall k :: 0 <= k < |chars| ==> IsBase64(chars[k])
    ensures Decoded(chars) == Partial(chars) && (chars == "" ==> Partial(chars) == [])
  {
  }

  lemma NotInAlphabet()
    ensures !IsBase64('=') && Find(0 as char) == 255
  {
  }

  lemma AlphabetIsAscii(c: char)
    requires IsBase64(c)
    ensures c as int < 128 && (c as int) as char == c
  {
  }

  /** The body of the `i == 4` branch of base64_decode. */
  method DecodeQuad(char_array_4: array<byte>, ghost quad: string) returns (octets: seq<byte>)
    requires char_array_4.Length == 4 && |quad| == 4
    requires forall m :: 0 <= m < 4 ==> IsBase64(quad[m]) && char_array_4[m] == quad[m] as int
    modifies char_array_4
    ensures octets == Triple(quad)
  {
    hide Octets;
    FindAll(char_array_4);
    var char_array_3 := Gather(char_array_4);
    OctetsOfSextets(Find(quad[0]), Find(quad[1]), Find(quad[2]), Find(quad[3]));
    octets := char_array_3[..];
  }

  /** The code after the loop of base64_decode: the NULs it looks up are not in the alphabet. */
  method DecodeTail(char_array_4: array<byte>, i: nat, ghost tail: string) returns (octets: seq<byte>)
    requires char_array_4.Length == 4 && 1 <= i < 4 && |tail| == i
    requires forall m :: 0 <= m < i ==> IsBase64(tail[m]) && char_array_4[m] == tail[m] as int
    modifies char_array_4
    ensures octets == Partial(tail)
  {
    hide Octets;
    var j := i;
    while j < 4
      invariant i <= j <= 4
      invariant forall m :: 0 <= m < i ==> char_array_4[m] == tail[m] as int
      invariant forall m :: i <= m < j ==> char_array_4[m] == 0
    {
      char_array_4[j] := 0;
      j := j + 1;
    }
    FindAll(char_array_4);
    var char_array_3 := Gather(char_array_4);
    if i > 1 {
      OctetsOfPartial(Find(tail[0]), Find(tail[1]), char_array_4[2], char_array_4[3]);
    }
    octets := char_array_3[..][..i - 1];
  }

  /** `base64_chars.find` on each of the four; a NUL is not found. */
  method FindAll(char_array_4: array<byte>)
    requires char_array_4.Length == 4
    modifies char_array_4
    ensures forall m :: 0 <= m < 4 ==> char_array_4[m] == Find(old(char_array_4[m]) as char)
  {
    var j := 0;
    while j < 4
      invariant 0 <= j <= 4
      invariant forall m :: 0 <= m < j ==> char_array_4[m] == Find(old(char_array_4[m]) as char)
      invariant forall m :: j <= m < 4 ==> char_array_4[m] == old(char_array_4[m])
    {
      char_array_4[j] := Find(char_array_4[j] as char);
      j := j + 1;
    }
  }

  // What the two do to each other.

  lemma {:induction false} CharsAt(s: seq<nat>, k: nat)
    requires k < |s| && forall k :: 0 <= k < |s| ==> s[k] < 64
    ensures Chars(s)[k] == AlphabetChar(s[k])
  {
    if k < |s| - 1 {
      CharsAt(s[..|s| - 1], k);
    }
  }

  lemma {:induction false} LeadingConcat(p: string, s: string)
    requires forall k :: 0 <= k < |p| ==> IsBase64(p[k])
    ensures Leading(p + s) == p + Leading(s)
  {
    if p == "" {
      assert p + s == s;
    } else {
      assert (p + s)[1..] == p[1..] + s;
      LeadingConcat(p[1..], s);
    }
  }

  /** The characters of the first `n` values of a group: all in the alphabet, and found again. */
  lemma CharsFound(s: seq<nat>)
    requires forall k :: 0 <= k < |s| ==> s[k] < 64
    ensures forall k :: 0 <= k < |s| ==> IsBase64(Chars(s)[k]) && Find(Chars(s)[k]) == s[k]
  {
    forall k | 0 <= k < |s|
      ensures IsBase64(Chars(s)[k]) && Find(Chars(s)[k]) == s[k]
    {
      CharsAt(s, k);
      FindAlphabetChar(s[k]);
    }
  }

  /** Four 6-bit values put back together. */
  lemma SextetsJoin(n: nat)
    requires n < 0x100_0000
    ensures var s := Sextets(n);
            && 0x4_0000 * s[0] + 0x1000 * s[1] + 64 * s[2] + s[3] == n
            && 64 * (64 * s[0] + s[1]) + s[2] == n / 64
            && 64 * s[0] + s[1] == n / 0x1000
  {
    var q := n / 64;
    var r := q / 64;
    assert r == n / 0x1000 && r / 64 == n / 0x4_0000;
    assert n == 64 * q + n % 64 && q == 64 * r + q % 64 && r == 64 * (r / 64) + r % 64;
  }

  /** The octets of the 24-bit number of three octets. */
  lemma OctetsOfGroup(a: byte, b: byte, c: byte)
    ensures var n := Group(a, b, c);
            n / 0x1_0000 == a && n / 0x100 % 256 == b && n % 256 == c
  {
    var n := Group(a, b, c);
    Division(n, 0x1_0000, a, 0x100 * b + c);
    Division(n, 0x100, 0x100 * a + b, c);
  }

  lemma TripleOfQuad(a: byte, b: byte, c: byte)
    ensures forall k :: 0 <= k < 4 ==> IsBase64(Quad(a, b, c)[k])
    ensures Triple(Quad(a, b, c)) == [a, b, c]
  {
    hide Sextets, Group, Find, IsBase64, AlphabetChar, Chars;
    CharsFound(Sextets(Group(a, b, c)));
    SextetsJoin(Group(a, b, c));
    OctetsOfGroup(a, b, c);
  }

  lemma TailLeads(bytes: seq<byte>)
    requires 1 <= |bytes| <= 2
    ensures var s := Sextets(Group(bytes[0], if |bytes| == 2 then bytes[1] else 0, 0))[..|bytes| + 1];
            Leading(Tail(bytes)) == Chars(s) && Tail(bytes) == Chars(s) + if |bytes| == 1 then "==" else "="
  {
    hide Sextets, Group, Find, IsBase64, AlphabetChar, Chars;
    NotInAlphabet();
    var s := Sextets(Group(bytes[0], if |bytes| == 2 then bytes[1] else 0, 0))[..|bytes| + 1];
    CharsFound(s);
    var fill := if |bytes| == 1 then "==" else "=";
    LeadingConcat(Chars(s), fill);
    assert Leading(fill) == "";
  }

  lemma OneOctet(a: byte)
    ensures Group(a, 0, 0) / 0x1000 / 16 == a
  {
  }

  lemma TwoOctets(a: byte, b: byte)
    ensures Group(a, b, 0) / 0x1000 / 16 == a && Group(a, b, 0) / 64 / 4 % 256 == b
  {
    var n := Group(a, b, 0);
    assert n / 0x1000 / 16 == n / 0x1_0000 && n / 64 / 4 == n / 0x100;
    OctetsOfGroup(a, b, 0);
  }

  lemma PartialOfTail(bytes: seq<byte>)
    requires 1 <= |bytes| <= 2
    ensures Decoded(Leading(Tail(bytes))) == bytes
  {
    hide Sextets, Group, Find, IsBase64, AlphabetChar, Chars, Tail, Leading;
    TailLeads(bytes);
    var n := Group(bytes[0], if |bytes| == 2 then bytes[1] else 0, 0);
    CharsFound(Sextets(n)[..|bytes| + 1]);
    SextetsJoin(n);
    if |bytes| == 1 {
      OneOctet(bytes[0]);
    } else {
      TwoOctets(bytes[0], bytes[1]);
    }
  }

  /** Decoding undoes encoding, for every byte string and both padded tails. */
  lemma {:induction false} DecodeEncode(bytes: seq<byte>)
    ensures Decoding(Encoded(bytes)) == bytes
  {
    hide Quad, Tail, Triple, Partial;
    if |bytes| == 0 {
      assert Partial("") == [];
    } else if |bytes| < 3 {
      PartialOfTail(bytes);
    } else {
      var q, rest := Quad(bytes[0], bytes[1], bytes[2]), bytes[3..];
      TripleOfQuad(bytes[0], bytes[1], bytes[2]);
      LeadingConcat(q, Encoded(rest));
      assert (q + Leading(Encoded(rest)))[..4] == q;
      assert (q + Leading(Encoded(rest)))[4..] == Leading(Encoded(rest));
      DecodeEncode(rest);
    }
  }

  lemma LeadingEmpty()
    ensures Leading("") == ""
  {
  }

  lemma ThreeMore(n: nat)
    ensures (n + 3 + 2) / 3 == 1 + (n + 2) / 3 && (n + 3) % 3 == n % 3
  {
  }

  /** Only the padding lies outside the alphabet: none, two or one '=' as the length is 0, 1 or 2 modulo 3. */
  lemma {:induction false} EncodedPadding(bytes: seq<byte>)
    ensures |Encoded(bytes)| == 4 * ((|bytes| + 2) / 3)
    ensures Encoded(bytes) == Leading(Encoded(bytes)) + Repeat('=', (3 - |bytes| % 3) % 3)
  {
    hide Quad, Tail, Repeat, Leading, Encoded;
    EncodedUnfolds(bytes);
    if |bytes| == 0 {
      LeadingEmpty();
    } else if |bytes| < 3 {
      TailPadding(bytes);
      assert (|bytes| + 2) / 3 == 1 && (3 - |bytes| % 3) % 3 == 3 - |bytes|;
    } else {
      ThreeMore(|bytes[3..]|);
      var q, rest := Quad(bytes[0], bytes[1], bytes[2]), bytes[3..];
      TripleOfQuad(bytes[0], bytes[1], bytes[2]);
      LeadingConcat(q, Encoded(rest));
      EncodedPadding(rest);
    }
  }

  lemma TailPadding(bytes: seq<byte>)
    requires 1 <= |bytes| <= 2
    ensures Tail(bytes) == Leading(Tail(bytes)) + Repeat('=', 3 - |bytes|)
  {
    hide Tail, Leading, Sextets, Group, Chars;
    TailLeads(bytes);
  }

  // Against the RFC's own text.

  const UPPER := "ABCDEFGHIJKLMNOPQRSTUVWXYZ"
  const LOWER := "abcdefghijklmnopqrstuvwxyz"
  const DIGITS := "0123456789"
  const ALPHABET := UPPER + LOWER + DIGITS + "+/"

  lemma UpperLetters(i: nat)
    requires i < 26
    ensures |UPPER| == 26 && UPPER[i] == ('A' as int + i) as char
  {
  }

  lemma LowerLetters(i: nat)
    requires i < 26
    ensures |LOWER| == 26 && LOWER[i] == ('a' as int + i) as char
  {
  }

  lemma Digits(i: nat)
    requires i < 10
    ensures |DIGITS| == 10 && DIGITS[i] == ('0' as int + i) as char
  {
  }

  /** The alphabet of Table 1, in its order, and nothing else. */
  lemma Alphabet(i: nat)
    requires i < 64
    ensures |ALPHABET| == 64 && AlphabetChar(i) == ALPHABET[i]
  {
    UpperLetters(if i < 26 then i else 0);
    LowerLetters(if 26 <= i < 52 then i - 26 else 0);
    Digits(if 52 <= i < 62 then i - 52 else 0);
  }

  lemma AlphabetOnly(c: char)
    ensures IsBase64(c) <==> c in ALPHABET
  {
    if IsBase64(c) {
      Alphabet(Find(c));
      assert ALPHABET[Find(c)] == c;
    }
    if c in ALPHABET {
      var i :| 0 <= i < |ALPHABET| && ALPHABET[i] == c;
      Alphabet(i);
      FindAlphabetChar(i);
    }
  }

  lemma QuadIs(a: byte, b: byte, c: byte)
    ensures var n := Group(a, b, c);
            Quad(a, b, c) == [AlphabetChar(n / 0x4_0000), AlphabetChar(n / 0x1000 % 64), AlphabetChar(n / 64 % 64), AlphabetChar(n % 64)]
  {
    var s := Sextets(Group(a, b, c));
    hide Sextets, Group, AlphabetChar;
    forall k | 0 <= k < 4
      ensures Chars(s)[k] == AlphabetChar(s[k])
    {
      CharsAt(s, k);
    }
  }

  lemma TailIs(bytes: seq<byte>)
    requires 1 <= |bytes| <= 2
    ensures var n := Group(bytes[0], if |bytes| == 2 then bytes[1] else 0, 0);
            Tail(bytes) == [AlphabetChar(n / 0x4_0000), AlphabetChar(n / 0x1000 % 64)]
                           + if |bytes| == 1 then "==" else [AlphabetChar(n / 64 % 64)] + "="
  {
    var s := Sextets(Group(bytes[0], if |bytes| == 2 then bytes[1] else 0, 0))[..|bytes| + 1];
    hide Group, AlphabetChar;
    forall k | 0 <= k < |s|
      ensures Chars(s)[k] == AlphabetChar(s[k])
    {
      CharsAt(s, k);
    }
  }

  /** Test vectors of section 10 that show the group order and both tails. */
  lemma TestVectors()
    ensures Encoded([0x66]) == "Zg==" && Encoded([0x66, 0x6F]) == "Zm8=" && Encoded([0x66, 0x6F, 0x6F]) == "Zm9v"
  {
    hide Tail, Quad;
    TailIs([0x66]);
    TailIs([0x66, 0x6F]);
    QuadIs(0x66, 0x6F, 0x6F);
    EncodedUnfolds([0x66]);
    EncodedUnfolds([0x66, 0x6F]);
    EncodedUnfolds([0x66, 0x6F, 0x6F]);
  }
}
