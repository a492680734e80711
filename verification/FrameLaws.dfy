/** What parsing gives back of printed, masked, cut and concatenated frames. */
module FrameLaws {
  import opened Bytes
  import opened Frame

  lemma ZeroHigh(high: nat, low: nat, n: nat)
    requires low < 0x1_0000_0000 && n < 0x1_0000_0000 && n == 0x1_0000_0000 * high + low
    ensures high == 0 && low == n
  {
  }

  /** The code's reading of a header agrees with the length RFC 6455 gives it. */
  lemma HeaderFields(f: Frame, buf: seq<byte>)
    requires f.WellFormed() && [f.first] + f.len <= buf
    ensures |f.len| >= 1 && |buf| >= 2 && HeadLength(buf) == 1 + |f.len| && HeadLength(buf) <= |buf|
    ensures PayloadLength(buf) == |f.payload|
    ensures buf[0] == f.first && (buf[1] >= 128 <==> f.Masked())
    ensures PayloadStart(buf) == |f.Head()|
  {
    hide BigEndian;
    var head := [f.first] + f.len;
    assert forall i :: 0 <= i < |f.len| ==> buf[1 + i] == head[1 + i] == f.len[i];
    if |f.len| == 9 {
      assert buf[6..10] == f.len[5..9];
      ZeroHigh(BigEndian(f.len[1..5]), BigEndian(f.len[5..9]), |f.payload|);
    }
  }

  /** A whole frame, masked or not, with anything after it, parses to its type and original payload. */
  lemma ParseWhole(f: Frame, rest: seq<byte>, n: nat)
    requires f.WellFormed() && |f.Wire()| <= n <= |f.Wire() + rest|
    ensures Readable(f.Wire() + rest, n)
    ensures Parse(f.Wire() + rest, n) == Complete(TypeOf(f.first), f.payload, |f.Head()|, f.Head() + f.payload + rest)
  {
    hide HeadLength, PayloadLength, Declares, Mask;
    var buf, head := f.Wire() + rest, f.Head();
    HeaderFields(f, buf);
    var start, length := |head|, |f.payload|;
    assert buf[..start] == head;
    assert buf[start + length..] == rest;
    assert f.Masked() <==> buf[1] >= 128;
    if f.Masked() {
      assert buf[start..start + length] == Mask(f.payload, f.key);
      assert buf[start - 4..start] == f.key;
      MaskTwice(f.payload, f.key);
    } else {
      assert buf[start..start + length] == f.payload;
      assert Parse(buf, n).payload == f.payload;
    }
    assert Parse(buf, n).buffer == head + f.payload + rest;
  }

  // Frames of which only a part has arrived.

  /** `buf` holds the first `n` octets of a frame, but not all of it, and has room for the whole header. */
  ghost predicate Cut(f: Frame, buf: seq<byte>, n: nat)
  {
    && f.WellFormed()
    && n <= |buf| && n < |f.Wire()|
    && (forall i :: 0 <= i < n ==> buf[i] == f.Wire()[i])
    && |buf| >= 1 + |f.len|
  }

  /** The end of a masked frame is missing, and no more than the octets of its key make up. */
  predicate LateCut(f: Frame, n: nat)
  {
    f.Masked() && |f.Wire()| - n <= 4
  }

  /** The first octets of a 64-bit length are there, but not all of them. */
  predicate HeaderCut(f: Frame, n: nat)
  {
    |f.len| == 9 && 2 <= n <= 9
  }

  /** The length getFrame reads from octets 6 to 9, received or not, makes it wait. */
  predicate LongEnough(buf: seq<byte>, n: nat)
    requires |buf| >= 10
  {
    n < PayloadLength(buf) + 10 < INT_LIMIT
  }

  lemma CutAfterHeader(f: Frame, buf: seq<byte>, n: nat)
    requires Cut(f, buf, n) && n > |f.len|
    ensures [f.first] + f.len <= buf
    ensures |buf| >= 2 && HeadLength(buf) == 1 + |f.len| && HeadLength(buf) <= |buf|
    ensures PayloadLength(buf) == |f.payload| && PayloadStart(buf) == |f.Head()|
  {
    hide Declares, HeadLength, PayloadLength, PayloadStart;
    assert f.Wire()[..1 + |f.len|] == [f.first] + f.len;
    assert buf[..1 + |f.len|] == f.Wire()[..1 + |f.len|];
    HeaderFields(f, buf);
  }

  lemma CutInHeader(f: Frame, buf: seq<byte>, n: nat)
    requires Cut(f, buf, n) && 2 <= n <= |f.len|
    ensures |f.len| == 3 || |f.len| == 9
    ensures HeadLength(buf) == 1 + |f.len| <= |buf|
    ensures |f.len| == 3 ==> 0 <= PayloadLength(buf) < 0x1_0000
  {
    HeaderForm(f);
    FirstHeaderOctets(f, buf, n);
    ReadHeader(buf);
  }

  lemma FirstHeaderOctets(f: Frame, buf: seq<byte>, n: nat)
    requires Cut(f, buf, n) && 2 <= n && |f.len| >= 1
    ensures buf[1] == f.len[0]
  {
    hide Declares;
    assert f.Wire()[1] == f.len[0];
  }

  lemma HeaderForm(f: Frame)
    requires f.WellFormed()
    ensures |f.len| == 1 || (|f.len| == 3 && f.len[0] % 128 == 126) || (|f.len| == 9 && f.len[0] % 128 == 127)
  {
    hide BigEndian;
  }

  lemma ReadHeader(buf: seq<byte>)
    requires |buf| >= 2
    ensures buf[1] % 128 == 127 ==> HeadLength(buf) == 10
    ensures buf[1] % 128 == 126 ==> HeadLength(buf) == 4 && (|buf| >= 4 ==> 0 <= PayloadLength(buf) < 0x1_0000)
  {
    hide BigEndian, ToInt;
  }

  /**
   A frame cut short is waited for, and nothing outside the buffer is touched, exactly when: with the header cut,
   the length read from octets that may never have been received is large enough; with the header there, the
   frame is unmasked or more than four octets are missing.
   */
  lemma CutWaitsIff(f: Frame, buf: seq<byte>, n: nat)
    requires Cut(f, buf, n)
    ensures HeaderCut(f, n) ==> |buf| >= 10
    ensures Readable(buf, n) && Parse(buf, n).Incomplete? <==> if HeaderCut(f, n) then LongEnough(buf, n) else !LateCut(f, n)
  {
    HeaderForm(f);
    hide PayloadLength, HeadLength, Declares, Mask;
    if n > |f.len| {
      CutAfterHeader(f, buf, n);
    } else if n >= 2 {
      CutInHeader(f, buf, n);
    }
  }

  /** A frame cut short is taken for a whole one exactly when it is masked and at most four octets are missing. */
  lemma ParseCut(f: Frame, buf: seq<byte>, n: nat)
    requires Cut(f, buf, n) && Readable(buf, n)
    ensures Parse(buf, n).Incomplete? <==> !LateCut(f, n)
  {
    HeaderForm(f);
    hide PayloadLength, HeadLength, Declares, Mask;
    if n > |f.len| {
      CutAfterHeader(f, buf, n);
    } else if n >= 2 {
      CutInHeader(f, buf, n);
    }
  }

  /** A header cut two to six octets in can make getFrame leave the buffer, whatever the frame. */
  lemma StaleLength(f: Frame, n: nat)
    requires f.WellFormed() && |f.len| == 9 && 2 <= n <= 6
    ensures var stale := f.Wire()[..n] + Repeat(0, 6 - n) + [0xFF, 0xFF, 0xFF, 0xF7];
            Cut(f, stale, n) && !Readable(stale, n)
  {
    var stale := f.Wire()[..n] + Repeat(0, 6 - n) + [0xFF, 0xFF, 0xFF, 0xF7];
    assert stale[6..10] == [0xFF, 0xFF, 0xFF, 0xF7];
    StaleIsMinusNine();
    HeaderForm(f);
    hide Declares, BigEndian, Repeat;
    assert Cut(f, stale, n);
    FirstHeaderOctets(f, stale, n);
    ReadHeader(stale);
    assert PayloadLength(stale) == -9;
  }

  lemma StaleIsMinusNine()
    ensures ToInt(BigEndian([0xFF, 0xFF, 0xFF, 0xF7])) == -9
  {
  }

  /** The largest length the four octets can spell when those not received are arbitrary. */
  function LargestLength(f: Frame, n: nat): (length: nat)
    requires |f.len| == 9 && 7 <= n <= 9
  {
    BigEndian(f.len[5..n - 1] + Repeat(0xFF, 10 - n))
  }

  lemma BigEndianGrows(a: seq<byte>, b: seq<byte>)
    requires |a| == |b| == 4 && forall i :: 0 <= i < 4 ==> a[i] <= b[i]
    ensures BigEndian(a) <= BigEndian(b)
  {
  }

  lemma TopOctet(s: seq<byte>)
    requires |s| == 4
    ensures BigEndian(s) / 0x100_0000 == s[0]
  {
  }

  /** From the seventh octet on the length read is the frame's or a larger one. */
  lemma FromSevenOn(f: Frame, buf: seq<byte>, n: nat)
    requires Cut(f, buf, n) && HeaderCut(f, n) && n >= 7
    ensures 0 <= PayloadLength(buf) <= LargestLength(f, n)
  {
    HeaderForm(f);
    FirstHeaderOctets(f, buf, n);
    ReadHeader(buf);
    ReceivedLength(f, buf, n);
    TopBelowHalf(f);
    TopOctet(buf[6..10]);
    hide Declares, BigEndian, LargestLength;
  }

  lemma ReceivedLength(f: Frame, buf: seq<byte>, n: nat)
    requires Cut(f, buf, n) && HeaderCut(f, n) && n >= 7
    ensures |buf| >= 10 && buf[6] == f.len[5]
    ensures BigEndian(buf[6..10]) <= LargestLength(f, n)
  {
    hide Declares, BigEndian;
    var largest := f.len[5..n - 1] + Repeat(0xFF, 10 - n);
    assert forall i :: 6 <= i < n ==> buf[i] == f.Wire()[i] == f.len[i - 1];
    assert forall i :: 0 <= i < 4 ==> buf[6..10][i] == buf[6 + i];
    assert forall i :: 0 <= i < n - 6 ==> largest[i] == f.len[5 + i];
    BigEndianGrows(buf[6..10], largest);
  }

  lemma TopBelowHalf(f: Frame)
    requires f.WellFormed() && |f.len| == 9
    ensures f.len[5] < 0x80
  {
    HeaderForm(f);
    TopOctet(f.len[5..9]);
    hide BigEndian;
    ZeroHigh(BigEndian(f.len[1..5]), BigEndian(f.len[5..9]), |f.payload|);
  }

  lemma LastLengthOctets(f: Frame, n: nat)
    requires |f.len| == 9 && 7 <= n <= 9
    ensures var stale := f.Wire()[..n] + Repeat(0xFF, 10 - n);
            stale[6] == f.len[5] && stale[6..10] == f.len[5..n - 1] + Repeat(0xFF, 10 - n)
  {
    hide Repeat, Frame.Wire;
    var stale, rest := f.Wire()[..n] + Repeat(0xFF, 10 - n), Repeat(0xFF, 10 - n);
    WireHead(f);
    assert forall j :: 6 <= j < n ==> stale[j] == f.Wire()[j];
    assert stale[n..] == rest;
    assert stale[6..n] == f.len[5..n - 1];
    assert stale[6..10] == stale[6..n] + stale[n..];
  }

  lemma WireHead(f: Frame)
    ensures |f.Wire()| >= 1 + |f.len| && forall j :: 1 <= j <= |f.len| ==> f.Wire()[j] == f.len[j - 1]
  {
  }

  /** The octets that spell it. */
  lemma LargestStale(f: Frame, n: nat)
    requires f.WellFormed() && HeaderCut(f, n) && n >= 7
    ensures var stale := f.Wire()[..n] + Repeat(0xFF, 10 - n);
            Cut(f, stale, n) && PayloadLength(stale) == LargestLength(f, n)
  {
    hide Declares, BigEndian, Repeat;
    var stale := f.Wire()[..n] + Repeat(0xFF, 10 - n);
    HeaderForm(f);
    TopBelowHalf(f);
    LastLengthOctets(f, n);
    WireHead(f);
    assert Cut(f, stale, n);
    TopOctet(stale[6..10]);
    FirstHeaderOctets(f, stale, n);
    ReadHeader(stale);
  }

  /**
   Whether a read may end inside the header is settled before the read: never two to six octets in, and later
   only while the length cannot be mistaken for one out of the range of an int.
   */
  lemma HeaderCutIff(f: Frame, n: nat)
    requires f.WellFormed() && HeaderCut(f, n)
    ensures (forall buf :: Cut(f, buf, n) ==> Readable(buf, n) && Parse(buf, n).Incomplete?)
            <==> n >= 7 && LargestLength(f, n) + 10 < INT_LIMIT
  {
    hide Cut, Frame.WellFormed, PayloadLength, HeadLength, PayloadStart, Parse, Readable, LargestLength;
    if n < 7 {
      StaleLength(f, n);
    } else if LargestLength(f, n) + 10 < INT_LIMIT {
      forall buf | Cut(f, buf, n)
        ensures Readable(buf, n) && Parse(buf, n).Incomplete?
      {
        CutWaitsIff(f, buf, n);
        FromSevenOn(f, buf, n);
      }
    } else {
      LargestStale(f, n);
      CutWaitsIff(f, f.Wire()[..n] + Repeat(0xFF, 10 - n), n);
    }
  }

  lemma ParseParts(buf: seq<byte>, n: nat)
    requires Readable(buf, n) && Parse(buf, n).Complete?
    ensures var p := Parse(buf, n); var start, length := p.outPos, |p.payload|;
            && n >= 2 && start == PayloadStart(buf) && length == PayloadLength(buf) && start >= HeadLength(buf) && start + length <= |buf|
            && (buf[1] >= 128 ==> start >= 4)
            && p.payload == (if buf[1] >= 128 then Mask(buf[start..start + length], buf[start - 4..start]) else buf[start..start + length])
            && p.buffer == buf[..start] + p.payload + buf[start + length..]
  {
    hide Mask, ToInt, BigEndian, TypeOf, LengthField;
  }

  /** Parsing what one parse left behind finds the same frame and puts the masked octets back. */
  lemma ParseTwice(buf: seq<byte>, n: nat)
    requires Readable(buf, n) && Parse(buf, n).Complete?
    ensures var p := Parse(buf, n);
            && Readable(p.buffer, n)
            && Parse(p.buffer, n).Complete?
            && Parse(p.buffer, n).kind == p.kind && Parse(p.buffer, n).outPos == p.outPos
            && Parse(p.buffer, n).buffer == buf
            && Parse(p.buffer, n).payload == buf[p.outPos..p.outPos + |p.payload|]
  {
    hide Mask, PayloadStart, PayloadLength, HeadLength, TypeOf;
    var p := Parse(buf, n);
    var start, length := p.outPos, |p.payload|;
    ParseParts(buf, n);
    assert p.buffer[..start] == buf[..start];
    SameHeader(buf, p.buffer, start);
    assert p.buffer[start..start + length] == p.payload;
    assert p.buffer[start + length..] == buf[start + length..];
    if buf[1] >= 128 {
      assert p.buffer[start - 4..start] == p.buffer[..start][start - 4..] == buf[..start][start - 4..] == buf[start - 4..start];
      MaskTwice(buf[start..start + length], buf[start - 4..start]);
    }
    CutTwice(buf, start, start + length);
  }

  lemma SameHeader(a: seq<byte>, b: seq<byte>, n: nat)
    requires |a| == |b| >= 2 && HeadLength(a) <= n <= |a| && a[..n] == b[..n]
    ensures HeadLength(a) == HeadLength(b) && PayloadLength(a) == PayloadLength(b) && PayloadStart(a) == PayloadStart(b)
    ensures a[0] == b[0] && a[1] == b[1]
  {
    hide ToInt, BigEndian;
    assert forall i :: 0 <= i < n ==> a[i] == a[..n][i] == b[..n][i] == b[i];
    assert HeadLength(a) == 10 ==> a[6..10] == b[6..10];
  }

  /** getFrame gives back what makeFrameString printed, and out_pos + size is the printed length. */
  lemma RoundTrip(kind: FrameType, payload: seq<byte>, rest: seq<byte>, n: nat)
    requires kind.OnWire() && |payload| < INT_LIMIT && |Printed(kind, payload).Wire()| < INT_LIMIT
    requires |Printed(kind, payload).Wire()| <= n <= |Printed(kind, payload).Wire() + rest|
    ensures var printed := Printed(kind, payload).Wire();
            && Readable(printed + rest, n)
            && Parse(printed + rest, n) == Complete(kind, payload, |printed| - |payload|, printed + rest)
  {
    hide MinimalLength;
    PrintedWellFormed(kind, payload);
    ParseWhole(Printed(kind, payload), rest, n);
    TypeOfCode(kind);
  }

  lemma PrintedWellFormed(kind: FrameType, payload: seq<byte>)
    requires kind.OnWire() && |payload| < INT_LIMIT && |Printed(kind, payload).Wire()| < INT_LIMIT
    ensures Printed(kind, payload).WellFormed()
  {
    MinimalLengthIsLeast(|payload|, [], false);
  }

  // Concatenated frames.

  ghost predicate AllWellFormed(fs: seq<Frame>)
  {
    forall i :: 0 <= i < |fs| ==> fs[i].WellFormed()
  }

  function WireAll(fs: seq<Frame>): seq<byte>
  {
    if fs == [] then [] else fs[0].Wire() + WireAll(fs[1..])
  }

  /** Calling getFrame at the start of the buffer and moving on by out_pos + size while frames come out. */
  function DecodeAll(buf: seq<byte>): seq<(FrameType, seq<byte>)>
    decreases |buf|
  {
    if !Readable(buf, |buf|) then []
    else
      match Parse(buf, |buf|)
      case Incomplete => []
      case Complete(kind, payload, start, buffer) => [(kind, payload)] + DecodeAll(buffer[start + |payload|..])
  }

  function Contents(fs: seq<Frame>): (s: seq<(FrameType, seq<byte>)>)
    ensures |s| == |fs|
    ensures forall i :: 0 <= i < |fs| ==> s[i] == (TypeOf(fs[i].first), fs[i].payload)
  {
    seq(|fs|, i requires 0 <= i < |fs| => (TypeOf(fs[i].first), fs[i].payload))
  }

  lemma DecodeFirst(f: Frame, rest: seq<byte>)
    requires f.WellFormed()
    ensures DecodeAll(f.Wire() + rest) == [(TypeOf(f.first), f.payload)] + DecodeAll(rest)
  {
    ParseWhole(f, rest, |f.Wire() + rest|);
    hide Parse, Readable, TypeOf;
    assert (f.Head() + f.payload + rest)[|f.Head()| + |f.payload|..] == rest;
  }

  /** A concatenation of frames decodes to their types and payloads, in order. */
  lemma {:induction false} DecodeConcatenation(fs: seq<Frame>)
    requires AllWellFormed(fs)
    ensures DecodeAll(WireAll(fs)) == Contents(fs)
  {
    hide TypeOf;
    if fs == [] {
      EmptyParse();
    } else {
      DecodeFirst(fs[0], WireAll(fs[1..]));
      DecodeConcatenation(fs[1..]);
    }
  }

  lemma EmptyParse()
    ensures Readable([], 0) && Parse([], 0).Incomplete?
  {
  }

  // The length queries.

  function NeedHeadLen(in_buffer: seq<byte>, in_length: nat): int
    requires in_length <= |in_buffer|
  {
    if in_length < 2 then 2 - in_length else HeadLength(in_buffer) - in_length
  }

  function NeedBodyLen(in_buffer: seq<byte>, in_length: nat): int
    requires in_length <= |in_buffer| && (in_length >= 2 ==> HeadLength(in_buffer) <= |in_buffer|)
  {
    if in_length < 2 then 0 else PayloadLength(in_buffer) + PayloadStart(in_buffer) - in_length
  }

  /** A reader that asks need_head_len and reads that many octets until the answer is not positive. */
  function HeadPhase(stream: seq<byte>, n: nat): (m: nat)
    requires n <= |stream|
    ensures n <= m <= |stream|
    decreases |stream| - n
  {
    var need := NeedHeadLen(stream[..n], n);
    if need <= 0 || n + need > |stream| then n else HeadPhase(stream, n + need)
  }

  /** Then need_body_len octets more make exactly one frame, which getFrame accepts whole. */
  lemma TwoPhaseRead(f: Frame, rest: seq<byte>)
    requires f.WellFormed()
    ensures var stream := f.Wire() + rest;
            var h := HeadPhase(stream, 0);
            && HeadLength(stream[..h]) == h
            && h + NeedBodyLen(stream[..h], h) == |f.Wire()|
            && NeedBodyLen(f.Wire(), |f.Wire()|) == 0
            && Readable(f.Wire(), |f.Wire()|)
            && Parse(f.Wire(), |f.Wire()|) == Complete(TypeOf(f.first), f.payload, |f.Wire()| - |f.payload|, f.Head() + f.payload)
  {
    hide PayloadLength, Mask, Parse;
    var stream := f.Wire() + rest;
    var h := 1 + |f.len|;
    assert stream[..h] == [f.first] + f.len;
    HeaderFields(f, stream[..h]);
    assert stream[..2][1] == stream[..h][1];
    assert HeadPhase(stream, 0) == HeadPhase(stream, 2) == HeadPhase(stream, h) == h;
    ParseWhole(f, [], |f.Wire()|);
    assert f.Wire() + [] == f.Wire();
    assert f.Head() + f.payload + [] == f.Head() + f.payload;
    assert [f.first] + f.len <= f.Wire();
    HeaderFields(f, f.Wire());
  }

  /** getFrame's guard against need_body_len: the key's four octets separate them when the frame is masked. */
  lemma GuardAgainstNeedBody(buf: seq<byte>, n: nat)
    requires Readable(buf, n) && n >= 2 && PayloadLength(buf) >= 0
    ensures Parse(buf, n).Complete? <==> NeedBodyLen(buf, n) <= if buf[1] >= 128 then 4 else 0
  {
  }

  /** A masked frame of eight octets is taken for whole when four have arrived: its payload is whatever lies behind them. */
  lemma KeyNotCounted()
    ensures var f := Frame(0x82, [0x82], [1, 2, 3, 4], [7, 7]); f.WellFormed() && |f.Wire()| == 8 && f.Wire()[..4] == [0x82, 0x82, 1, 2]
    ensures var stale := [0x82, 0x82, 1, 2, 0, 0, 0, 0]; Readable(stale, 4) && Parse(stale, 4).Complete? && NeedBodyLen(stale, 4) == 4
  {
    hide Mask, Pair;
    var f := Frame(0x82, [0x82], [1, 2, 3, 4], [7, 7]);
    assert |f.Head()| == 6 && f.Head()[..4] == [0x82, 0x82, 1, 2];
  }

  /** need_head_len asks for what is missing of two octets, then of the whole header. */
  lemma NeedHeadIs(f: Frame, buf: seq<byte>, n: nat)
    requires f.WellFormed() && n <= |buf| && (n >= 2 ==> n <= |f.Wire()| && buf[..n] == f.Wire()[..n])
    ensures n + NeedHeadLen(buf, n) == if n < 2 then 2 else 1 + |f.len|
  {
    if n >= 2 {
      HeaderForm(f);
      hide Declares;
      assert buf[1] == buf[..n][1] == f.Wire()[1] == f.len[0];
      ReadHeader(buf);
      OneOctetHeader(f, buf);
    }
  }

  lemma OneOctetHeader(f: Frame, buf: seq<byte>)
    requires f.WellFormed() && |buf| >= 2 && buf[1] == f.len[0] && |f.len| >= 1
    ensures |f.len| == 1 ==> HeadLength(buf) == 2
  {
    hide BigEndian;
  }

  /** With the header there, need_body_len asks for what is missing of the frame, key included. */
  lemma NeedBodyIs(f: Frame, buf: seq<byte>, n: nat)
    requires f.WellFormed() && |f.len| < n <= |buf| && [f.first] + f.len <= buf
    ensures HeadLength(buf) <= |buf| && n + NeedBodyLen(buf, n) == |f.Wire()|
  {
    HeaderFields(f, buf);
    hide PayloadLength, PayloadStart;
  }
}
