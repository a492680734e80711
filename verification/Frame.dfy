/** WebSocket frames: printing, parsing in place, and the length queries (sections 5.2 and 5.3 of RFC 6455). */
module Frame {
  import opened Bytes

  const INT_LIMIT := 0x8000_0000

  /** The WEBSOCKET_FRAME_TYPE values getFrame returns. */
  datatype FrameType =
    | ERROR_FRAME
    | INCOMPLETE_FRAME
    | INCOMPLETE_TEXT_FRAME
    | INCOMPLETE_BINARY_FRAME
    | TEXT_FRAME
    | BINARY_FRAME
    | PING_FRAME
    | PONG_FRAME
    | CLOSE_FRAME
  {
    /** The enumeration value, for the seven types that fit the first octet of a frame. */
    function Code(): (c: byte)
      requires OnWire()
    {
      match this
      case INCOMPLETE_TEXT_FRAME => 0x01
      case INCOMPLETE_BINARY_FRAME => 0x02
      case TEXT_FRAME => 0x81
      case BINARY_FRAME => 0x82
      case PING_FRAME => 0x19
      case PONG_FRAME => 0x1A
      case CLOSE_FRAME => 0x08
    }

    predicate OnWire()
    {
      this != ERROR_FRAME && this != INCOMPLETE_FRAME
    }
  }

  /** The type getFrame reads off the first octet: the opcode is `b & 0x0F`, FIN is `b >> 7`. */
  function TypeOf(b: byte): FrameType
  {
    var opcode, fin := b % 16, b / 128;
    if opcode == 0 || opcode == 1 then (if fin == 1 then TEXT_FRAME else INCOMPLETE_TEXT_FRAME)
    else if opcode == 2 then (if fin == 1 then BINARY_FRAME else INCOMPLETE_BINARY_FRAME)
    else if opcode == 9 then PING_FRAME
    else if opcode == 10 then PONG_FRAME
    else if opcode == 8 then CLOSE_FRAME
    else ERROR_FRAME
  }

  lemma TypeOfCode(t: FrameType)
    requires t.OnWire()
    ensures TypeOf(t.Code()) == t
  {
  }

  // A frame as RFC 6455 defines it.

  /** `len` is the mask bit and payload length field, in any of its three forms, of `n` octets. */
  ghost predicate Declares(len: seq<byte>, masked: bool, n: nat)
  {
    && len != []
    && (len[0] >= 128 <==> masked)
    && var f := len[0] % 128;
       if f <= 125 then |len| == 1 && n == f
       else if f == 126 then |len| == 3 && n == Pair(len[1], len[2])
       else |len| == 9 && n == 0x1_0000_0000 * BigEndian(len[1..5]) + BigEndian(len[5..9])
  }

  function BigEndian(s: seq<byte>): (n: nat)
    requires |s| == 4
    ensures n < 0x1_0000_0000
  {
    Pair(Pair(Pair(s[0], s[1]), s[2]), s[3])
  }

  function Pair(high: nat, low: nat): nat
  {
    0x100 * high + low
  }

  /** Section 5.3: octet i of the payload is combined with octet i modulo 4 of the key. */
  function Mask(payload: seq<byte>, key: seq<byte>): (s: seq<byte>)
    requires |key| == 4
    ensures |s| == |payload|
  {
    seq(|payload|, i requires 0 <= i < |payload| => Xor(payload[i], key[i % 4]))
  }

  lemma MaskTwice(payload: seq<byte>, key: seq<byte>)
    requires |key| == 4
    ensures Mask(Mask(payload, key), key) == payload
  {
    forall i | 0 <= i < |payload|
      ensures Mask(Mask(payload, key), key)[i] == payload[i]
    {
      XorTwice(payload[i], key[i % 4]);
    }
  }

  /** One frame: first octet, length field, masking key (empty or four octets), payload. */
  datatype Frame = Frame(first: byte, len: seq<byte>, key: seq<byte>, payload: seq<byte>)
  {
    predicate Masked()
    {
      key != []
    }

    ghost predicate WellFormed()
    {
      && (key == [] || |key| == 4)
      && Declares(len, Masked(), |payload|)
      && |Head()| + |payload| < INT_LIMIT
    }

    function Head(): seq<byte>
    {
      [first] + len + key
    }

    function Wire(): (s: seq<byte>)
      ensures |s| == |Head()| + |payload|
    {
      Head() + if |key| == 4 then Mask(payload, key) else payload
    }
  }

  // The header fields as the code computes them.

  function LengthField(buf: seq<byte>): (f: nat)
    requires |buf| >= 2
    ensures f < 128
  {
    buf[1] % 128
  }

  /** Two octets and the extended length. */
  function HeadLength(buf: seq<byte>): (n: nat)
    requires |buf| >= 2
  {
    if LengthField(buf) <= 125 then 2 else if LengthField(buf) == 126 then 4 else 10
  }

  /** The low 32 bits of a number as an int. */
  function ToInt(n: nat): (i: int)
    requires n < 0x1_0000_0000
    ensures -0x8000_0000 <= i < 0x8000_0000 && (n - i) % 0x1_0000_0000 == 0
  {
    if n < INT_LIMIT then n else n - 0x1_0000_0000
  }

  /** The 64-bit form is narrowed to an int: its upper four octets do not matter. */
  function PayloadLength(buf: seq<byte>): int
    requires |buf| >= 2 && |buf| >= HeadLength(buf)
  {
    if LengthField(buf) <= 125 then LengthField(buf)
    else if LengthField(buf) == 126 then Pair(buf[2], buf[3])
    else ToInt(BigEndian(buf[6..10]))
  }

  function PayloadStart(buf: seq<byte>): nat
    requires |buf| >= 2
  {
    HeadLength(buf) + if buf[1] >= 128 then 4 else 0
  }

  /** What getFrame does to its arguments. */
  datatype Parsed = Incomplete | Complete(kind: FrameType, payload: seq<byte>, outPos: nat, buffer: seq<byte>)

  /** Every access getFrame makes for `n` octets lies in `buf`, and its int arithmetic does not overflow. */
  predicate Readable(buf: seq<byte>, n: nat)
  {
    && n <= |buf|
    && (n >= 2 ==>
          && HeadLength(buf) <= |buf|
          && PayloadLength(buf) + HeadLength(buf) < INT_LIMIT
          && (PayloadLength(buf) + HeadLength(buf) <= n ==>
                0 <= PayloadLength(buf) && PayloadStart(buf) + PayloadLength(buf) <= |buf|))
  }

  /** The guard of line 266: the four octets of a masking key are not counted. */
  predicate PassesGuard(buf: seq<byte>, n: nat)
    requires Readable(buf, n)
  {
    n >= 2 && PayloadLength(buf) + HeadLength(buf) <= n
  }

  function Parse(buf: seq<byte>, n: nat): (p: Parsed)
    requires Readable(buf, n)
    ensures p.Complete? ==> p.kind != INCOMPLETE_FRAME && |p.buffer| == |buf| && p.outPos + |p.payload| <= |buf|
  {
    if !PassesGuard(buf, n) then Incomplete
    else
      var start, length := PayloadStart(buf), PayloadLength(buf);
      var body := buf[start..start + length];
      var payload := if buf[1] >= 128 then Mask(body, buf[start - 4..start]) else body;
      Complete(TypeOf(buf[0]), payload, start, buf[..start] + payload + buf[start + length..])
  }

  method GetFrame(in_buffer: array<byte>, in_length: nat, before: seq<byte>, pos_before: nat)
    returns (kind: FrameType, out: seq<byte>, out_pos: nat)
    requires Readable(in_buffer[..], in_length)
    modifies in_buffer
    ensures match Parse(old(in_buffer[..]), in_length)
            case Incomplete =>
              kind == INCOMPLETE_FRAME && out == before && out_pos == pos_before && in_buffer[..] == old(in_buffer[..])
            case Complete(k, payload, start, buffer) =>
              kind == k && out == before + payload && out_pos == start && in_buffer[..] == buffer
  {
    hide Pair, BigEndian, ToInt, TypeOf, Mask, LengthField, HeadLength, PayloadLength;
    if in_length < 2 {
      return INCOMPLETE_FRAME, before, pos_before;
    }
    var msg_type := TypeOf(in_buffer[0]);
    var msg_masked := in_buffer[1] / 128;
    var payload_length, pos := ReadLength(in_buffer);
    if in_length < payload_length + pos {
      return INCOMPLETE_FRAME, before, pos_before;
    }
    if msg_masked == 1 {
      var mask := in_buffer[pos..pos + 4];
      pos := pos + 4;
      Unmask(in_buffer, pos, payload_length, mask);
    }
    assert in_buffer[..] == Parse(old(in_buffer[..]), in_length).buffer;
    out := before + in_buffer[pos..pos + payload_length];
    out_pos := pos;
    kind := msg_type;
  }

  /** The three-way reading of the length field. */
  method ReadLength(in_buffer: array<byte>) returns (payload_length: int, pos: nat)
    requires in_buffer.Length >= 2 && in_buffer.Length >= HeadLength(in_buffer[..])
    ensures payload_length == PayloadLength(in_buffer[..]) && pos == HeadLength(in_buffer[..])
  {
    payload_length := 0;
    pos := 2;
    var length_field: int := in_buffer[1] % 128;
    if length_field <= 125 {
      payload_length := length_field;
    } else if length_field == 126 {
      payload_length := Pair(in_buffer[2], in_buffer[3]);
      pos := pos + 2;
    } else if length_field == 127 {
      payload_length := ToInt(BigEndian(in_buffer[6..10]));
      pos := pos + 8;
    }
  }

  /** The unmasking loop: only the payload octets change. */
  method Unmask(in_buffer: array<byte>, pos: nat, length: nat, mask: seq<byte>)
    requires pos + length <= in_buffer.Length && |mask| == 4
    modifies in_buffer
    ensures in_buffer[..] == old(in_buffer[..pos]) + Mask(old(in_buffer[pos..pos + length]), mask) + old(in_buffer[pos + length..])
  {
    hide Xor;
    ghost var body := in_buffer[pos..pos + length];
    var i := 0;
    while i < length
      invariant 0 <= i <= length
      invariant in_buffer[..pos] == old(in_buffer[..pos])
      invariant in_buffer[pos + length..] == old(in_buffer[pos + length..])
      invariant forall k :: 0 <= k < i ==> in_buffer[pos + k] == Mask(body, mask)[k]
      invariant forall k :: i <= k < length ==> in_buffer[pos + k] == body[k]
    {
      in_buffer[pos + i] := Xor(in_buffer[pos + i], mask[i % 4]);
      i := i + 1;
    }
    assert in_buffer[pos..pos + length] == Mask(body, mask);
    assert in_buffer[..] == in_buffer[..pos] + in_buffer[pos..pos + length] + in_buffer[pos + length..];
  }

  // Printing.

  /** `(size >> 8 * i) & 0xFF` */
  function OctetOf(size: nat, i: nat): byte
    requires i < 4
  {
    if i == 0 then size % 256
    else if i == 1 then size / 0x100 % 256
    else if i == 2 then size / 0x1_0000 % 256
    else size / 0x100_0000 % 256
  }

  /** The shortest length field for `n` octets, without the mask bit. */
  function MinimalLength(n: nat): (len: seq<byte>)
    requires n < INT_LIMIT
  {
    if n <= 125 then [n]
    else if n <= 65535 then [126, OctetOf(n, 1), OctetOf(n, 0)]
    else [127, 0, 0, 0, 0, OctetOf(n, 3), OctetOf(n, 2), OctetOf(n, 1), OctetOf(n, 0)]
  }

  /** The frame makeFrameString prints: unmasked, with the shortest length field. */
  function Printed(kind: FrameType, payload: seq<byte>): Frame
    requires kind.OnWire() && |payload| < INT_LIMIT
  {
    Frame(kind.Code(), MinimalLength(|payload|), [], payload)
  }

  method MakeFrameString(frame_type: FrameType, str_msg: seq<byte>, before: seq<byte>) returns (result: int, out: seq<byte>)
    requires frame_type.OnWire() && |str_msg| < INT_LIMIT
    ensures out == before + Printed(frame_type, str_msg).Wire()
    ensures result == |str_msg|
  {
    hide MinimalLength;
    var pos := 0;
    var size := |str_msg|;
    out := before + [frame_type.Code()];
    out := PushLength(out, size);
    out := out + str_msg;
    assert out == before + ([frame_type.Code()] + MinimalLength(size) + [] + str_msg);
    result := size + pos;
  }

  /** The three-way choice of the length field. */
  method PushLength(before: seq<byte>, size: nat) returns (out: seq<byte>)
    requires size < INT_LIMIT
    ensures out == before + MinimalLength(size)
  {
    hide OctetOf;
    if size <= 125 {
      out := before + [size];
    } else if size <= 65535 {
      out := before + [126];
      out := out + [OctetOf(size, 1)];
      out := out + [OctetOf(size, 0)];
      assert out == before + [126, OctetOf(size, 1), OctetOf(size, 0)];
    } else {
      out := PushLongLength(before, size);
    }
  }

  /** The branch for sizes above 65535: four zero octets, then the four of the size. */
  method PushLongLength(before: seq<byte>, size: nat) returns (out: seq<byte>)
    requires 65535 < size < INT_LIMIT
    ensures out == before + MinimalLength(size)
  {
    hide OctetOf, Repeat;
    out := before + [127];
    ghost var head := out;
    var i := 3;
    while i >= 0
      invariant -1 <= i <= 3
      invariant out == head + Repeat(0, 3 - i)
    {
      assert Repeat(0, 4 - i) == Repeat(0, 3 - i) + [0];
      out := out + [0];
      i := i - 1;
    }
    head := out;
    ghost var octets := [OctetOf(size, 3), OctetOf(size, 2), OctetOf(size, 1), OctetOf(size, 0)];
    i := 3;
    while i >= 0
      invariant -1 <= i <= 3
      invariant out == head + octets[..3 - i]
    {
      assert octets[..4 - i] == octets[..3 - i] + [octets[3 - i]];
      out := out + [OctetOf(size, i)];
      i := i - 1;
    }
    assert Repeat(0, 4) == [0, 0, 0, 0];
  }

  lemma OctetsOfInt(n: nat)
    requires n < 0x1_0000_0000
    ensures BigEndian([OctetOf(n, 3), OctetOf(n, 2), OctetOf(n, 1), OctetOf(n, 0)]) == n
    ensures n < 0x1_0000 ==> Pair(OctetOf(n, 1), OctetOf(n, 0)) == n
  {
    assert n / 0x1_0000 == n / 0x100 / 0x100;
    assert n / 0x100_0000 == n / 0x100 / 0x100 / 0x100;
  }

  lemma MinimalLengthDeclares(n: nat)
    requires n < INT_LIMIT
    ensures Declares(MinimalLength(n), false, n)
  {
    hide OctetOf, BigEndian;
    OctetsOfInt(n);
    if n > 65535 {
      var p := MinimalLength(n);
      assert p[1..5] == [0, 0, 0, 0];
      assert p[5..9] == [OctetOf(n, 3), OctetOf(n, 2), OctetOf(n, 1), OctetOf(n, 0)];
      ZeroOctets();
    }
  }

  lemma DeclaredSize(len: seq<byte>, masked: bool, n: nat)
    requires Declares(len, masked, n)
    ensures |len| == 1 || |len| == 3 || |len| == 9
    ensures |len| == 1 ==> n <= 125
    ensures |len| == 3 ==> n <= 65535
  {
    hide BigEndian;
  }

  /** The printed length field says the payload's length, and no field that says it is shorter (section 5.2). */
  lemma MinimalLengthIsLeast(n: nat, len: seq<byte>, masked: bool)
    requires n < INT_LIMIT
    ensures Declares(MinimalLength(n), false, n)
    ensures Declares(len, masked, n) ==> |MinimalLength(n)| <= |len|
  {
    hide Declares, OctetOf;
    MinimalLengthDeclares(n);
    if Declares(len, masked, n) {
      DeclaredSize(len, masked, n);
    }
  }

  lemma ZeroOctets()
    ensures BigEndian([0, 0, 0, 0]) == 0
  {
  }
}
