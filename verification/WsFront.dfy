/** One message-carrying frame, whole or cut short, at the front of the WebSocket reader's array. */
module WsFront {
  import opened Bytes
  import opened Frame
  import opened FrameLaws
  import opened Message
  import opened WsRead

  /** A final text or binary frame whose payload is one whole message and which fits the array. */
  ghost predicate Carrier(f: Frame)
  {
    && f.WellFormed()
    && (TypeOf(f.first) == TEXT_FRAME || TypeOf(f.first) == BINARY_FRAME)
    && IsMessage(f.payload)
    && |f.Wire()| <= BUFFER_SIZE
  }

  lemma CarrierShape(f: Frame)
    requires Carrier(f)
    ensures f.WellFormed() && IsMessage(f.payload) && |f.payload| >= HEAD_LENGTH
    ensures TypeOf(f.first) == TEXT_FRAME || TypeOf(f.first) == BINARY_FRAME
    ensures |f.Wire()| == |f.Head()| + |f.payload| <= BUFFER_SIZE
  {
  }

  // A whole frame.

  /** The array when the frame has been taken out: the octets after it, and those left over from it behind them. */
  function AfterFrame(f: Frame, buffer: seq<byte>, cur: nat): (b: seq<byte>)
    requires |f.Wire()| <= cur <= |buffer|
    ensures |b| == |buffer|
  {
    Compacted(f.Head() + f.payload + buffer[|f.Wire()|..], |f.Wire()|, cur)
  }

  lemma AfterFrameHolds(f: Frame, buffer: seq<byte>, cur: nat)
    requires |f.Wire()| <= cur <= |buffer|
    ensures AfterFrame(f, buffer, cur)[..cur - |f.Wire()|] == buffer[|f.Wire()|..cur]
  {
    hide Frame.Head, Frame.Wire;
    var unmasked := f.Head() + f.payload + buffer[|f.Wire()|..];
    assert unmasked[|f.Wire()|..cur] == buffer[|f.Wire()|..cur];
  }

  /** A whole frame at the front is posted and taken out, whatever follows it. */
  lemma DrainWhole(f: Frame, buffer: seq<byte>, cur: nat, tries: nat)
    requires Carrier(f) && |buffer| == BUFFER_SIZE && |f.Wire()| <= cur <= BUFFER_SIZE && f.Wire() <= buffer && tries > 0
    ensures var left := AfterFrame(f, buffer, cur);
            && left[..cur - |f.Wire()|] == buffer[|f.Wire()|..cur]
            && Drain(buffer, cur, tries) == Prepend([MessageOf(f.payload)], Drain(left, cur - |f.Wire()|, tries - 1))
  {
    hide Parse, Readable, TypeOf, MessageOf, IsMessage, Carrier, Frame.Wire, Frame.Head, Drain;
    CarrierShape(f);
    CarrierParses(f, buffer, cur);
    AfterFrameHolds(f, buffer, cur);
    DrainMessage(buffer, cur, tries);
  }

  lemma CarrierParses(f: Frame, buffer: seq<byte>, cur: nat)
    requires Carrier(f) && |f.Wire()| <= cur <= |buffer| && f.Wire() <= buffer
    ensures Readable(buffer, cur)
    ensures Parse(buffer, cur) == Complete(TypeOf(f.first), f.payload, |f.Head()|, f.Head() + f.payload + buffer[|f.Wire()|..])
  {
    hide Parse, Readable, TypeOf, IsMessage, Frame.Wire, Frame.Head, Frame.WellFormed;
    assert buffer == f.Wire() + buffer[|f.Wire()|..];
    ParseWhole(f, buffer[|f.Wire()|..], cur);
  }

  lemma DrainMessage(buffer: seq<byte>, cur: nat, tries: nat)
    requires cur <= |buffer| && tries > 0 && Readable(buffer, cur) && Parse(buffer, cur).Complete?
    requires var p := Parse(buffer, cur);
             (p.kind == TEXT_FRAME || p.kind == BINARY_FRAME) && IsMessage(p.payload) && p.outPos + |p.payload| <= cur
    ensures var p := Parse(buffer, cur); var end := p.outPos + |p.payload|;
            Drain(buffer, cur, tries) == Prepend([MessageOf(p.payload)], Drain(Compacted(p.buffer, end, cur), cur - end, tries - 1))
  {
    hide Parse, Readable, MessageOf, IsMessage, Compacted;
  }

  // A frame cut short.

  /**
   A frame of which `n` octets have arrived at the front of the array, and which getFrame does not wait for: the
   octets behind them make up a wrong length, or a key's worth of octets at the end of a masked frame is missing.
   */
  ghost predicate Spoilt(f: Frame, buffer: seq<byte>, n: nat)
    requires |buffer| == BUFFER_SIZE
  {
    if HeaderCut(f, n) then !LongEnough(buffer, n) else LateCut(f, n)
  }

  /** A frame cut short that getFrame waits for leaves the array as it is. */
  lemma DrainCut(f: Frame, buffer: seq<byte>, cur: nat, tries: nat)
    requires Carrier(f) && |buffer| == BUFFER_SIZE && cur < |f.Wire()| && buffer[..cur] == f.Wire()[..cur]
    requires !Spoilt(f, buffer, cur)
    ensures Drain(buffer, cur, tries) == Waiting(buffer, cur, [])
  {
    hide Carrier, Frame.Wire, Cut, LateCut, LongEnough, Readable, Parse, Drain;
    CarrierShape(f);
    IsCut(f, buffer, cur);
    CutWaitsIff(f, buffer, cur);
    IncompleteWaits(buffer, cur, tries);
  }

  lemma IsCut(f: Frame, buffer: seq<byte>, cur: nat)
    requires Carrier(f) && |buffer| == BUFFER_SIZE && cur < |f.Wire()| && buffer[..cur] == f.Wire()[..cur]
    ensures Cut(f, buffer, cur)
  {
    CarrierShape(f);
    HeaderForm(f);
    hide Frame.Wire, Frame.WellFormed, IsMessage;
    assert forall i :: 0 <= i < cur ==> buffer[i] == buffer[..cur][i] == f.Wire()[..cur][i];
  }

  lemma GoodFirstCut(f: Frame, buffer: seq<byte>, n: nat)
    requires Carrier(f) && |buffer| == BUFFER_SIZE && n < |f.Wire()| && buffer[..n] == f.Wire()[..n]
    requires !LateCut(f, n) && !(|f.len| == 9 && 2 <= n <= 6)
    ensures !Spoilt(f, buffer, n)
  {
    hide Carrier, LateCut, Frame.Wire, Cut, LargestLength, PayloadLength;
    if HeaderCut(f, n) {
      IsCut(f, buffer, n);
      FromSevenOn(f, buffer, n);
      SmallLargest(f, n);
    }
  }

  lemma SmallLargest(f: Frame, n: nat)
    requires Carrier(f) && HeaderCut(f, n) && n >= 7
    ensures LargestLength(f, n) < 0x100_0000
  {
    CarrierShape(f);
    HeaderForm(f);
    hide BigEndian, IsMessage, Frame.Wire;
    ZeroHigh(BigEndian(f.len[1..5]), BigEndian(f.len[5..9]), |f.payload|);
    TopOctet(f.len[5..9]);
    TopOctet(f.len[5..n - 1] + Repeat(0xFF, 10 - n));
  }

  /** Head, key and at least two payload octets of a masked frame are at the front, at most four octets are missing. */
  ghost predicate LateAt(f: Frame, buffer: seq<byte>, cur: nat)
  {
    && Carrier(f) && f.Masked() && |f.key| == 4 && |f.Wire()| <= BUFFER_SIZE == |buffer|
    && f.Head() <= buffer && |f.Head()| + 2 <= cur < |f.Wire()| <= cur + 4
  }

  /** The octets where the payload is to be, some of them not received. */
  function Body(f: Frame, buffer: seq<byte>): (b: seq<byte>)
    requires |f.Wire()| <= |buffer|
    ensures |b| == |f.payload|
  {
    buffer[|f.Head()|..|f.Wire()|]
  }

  /** The array after the unmasking loop has gone over them. */
  function Toggled(f: Frame, buffer: seq<byte>): (b: seq<byte>)
    requires |f.Wire()| <= |buffer| && |f.key| == 4
    ensures |b| == |buffer|
  {
    buffer[..|f.Head()|] + Mask(Body(f, buffer), f.key) + buffer[|f.Wire()|..]
  }

  lemma LateParse(f: Frame, buffer: seq<byte>, cur: nat)
    requires LateAt(f, buffer, cur)
    ensures |f.Wire()| <= BUFFER_SIZE && Readable(buffer, cur)
    ensures Parse(buffer, cur) == Complete(TypeOf(f.first), Mask(Body(f, buffer), f.key), |f.Head()|, Toggled(f, buffer))
  {
    hide Carrier, HeadLength, PayloadLength, Declares, Mask, IsMessage, TypeOf, Frame.WellFormed;
    CarrierShape(f);
    HeaderForm(f);
    assert [f.first] + f.len <= buffer;
    HeaderFields(f, buffer);
    assert buffer[|f.Head()| - 4..|f.Head()|] == f.key;
  }

  lemma ToggledTwice(f: Frame, buffer: seq<byte>, cur: nat)
    requires LateAt(f, buffer, cur)
    ensures |f.Wire()| <= BUFFER_SIZE && LateAt(f, Toggled(f, buffer), cur)
    ensures Body(f, Toggled(f, buffer)) == Mask(Body(f, buffer), f.key)
    ensures Toggled(f, Toggled(f, buffer)) == buffer
  {
    hide Carrier, Mask, Frame.Head, Frame.Masked;
    CarrierShape(f);
    MaskTwice(Body(f, buffer), f.key);
    var t := Toggled(f, buffer);
    assert t[..|f.Head()|] == buffer[..|f.Head()|];
    assert Body(f, t) == Mask(Body(f, buffer), f.key);
    assert t[|f.Wire()|..] == buffer[|f.Wire()|..];
    CutTwice(buffer, |f.Head()|, |f.Wire()|);
  }

  /**
   What the loop does with such a frame: its turns mask and unmask the same octets in place. The handler faults
   when the octets of the length field spell the payload's length at one of the turns; else an odd number
   of turns leaves the payload octets unmasked and an even number leaves the array as it was.
   */
  lemma {:induction false} LateOutcome(f: Frame, buffer: seq<byte>, cur: nat, tries: nat)
    requires LateAt(f, buffer, cur)
    ensures |f.Wire()| <= BUFFER_SIZE
    ensures Drain(buffer, cur, tries) ==
            if (tries >= 1 && IsMessage(Mask(Body(f, buffer), f.key))) || (tries >= 2 && IsMessage(Body(f, buffer))) then Fault
            else Waiting(if tries % 2 == 1 then Toggled(f, buffer) else buffer, cur, [])
    decreases tries
  {
    hide Carrier, Parse, Readable, TypeOf, IsMessage, Mask, Body, Toggled, Frame.Wire, Frame.Head, MessageOf, Compacted, Frame.Masked;
    CarrierShape(f);
    if tries > 0 {
      LateParse(f, buffer, cur);
      ToggledTwice(f, buffer, cur);
      MaskTwice(Body(f, buffer), f.key);
      LateOutcome(f, Toggled(f, buffer), cur, tries - 1);
    }
  }

  lemma KeyOfCarrier(f: Frame)
    requires Carrier(f) && f.Masked()
    ensures f.WellFormed() && |f.key| == 4
    ensures |f.Wire()| == |f.Head()| + |f.payload| <= BUFFER_SIZE && |f.payload| >= HEAD_LENGTH
    ensures |f.Head()| == 5 + |f.len| >= 6
  {
    HeaderForm(f);
    CarrierShape(f);
    hide IsMessage, Declares;
  }

  /** A frame cut at the front whose end is missing is such a frame. */
  lemma LateCutShape(f: Frame, buffer: seq<byte>, cur: nat)
    requires Carrier(f) && LateCut(f, cur)
    requires |buffer| == BUFFER_SIZE && cur < |f.Wire()| && buffer[..cur] == f.Wire()[..cur]
    ensures LateAt(f, buffer, cur) && !HeaderCut(f, cur) && |f.Wire()| <= BUFFER_SIZE
    ensures var r := cur - |f.Head()|; r <= |f.payload| && Body(f, buffer)[..r] == Mask(f.payload, f.key)[..r]
  {
    hide Carrier, Mask, Frame.Head;
    KeyOfCarrier(f);
    var head, sent := f.Head(), Mask(f.payload, f.key);
    var r := cur - |head|;
    assert f.Wire() == head + sent;
    assert (head + sent)[..cur] == head + sent[..r];
    assert buffer[..|head|] == buffer[..cur][..|head|] == head;
    assert Body(f, buffer)[..r] == buffer[..cur][|head|..] == sent[..r];
  }

  /** The key octets over the first `r` payload octets are zero. */
  predicate KeyZero(f: Frame, r: int)
  {
    |f.key| == 4 && forall i :: 0 <= i < r ==> f.key[i % 4] == 0
  }

  lemma MaskSame(p: seq<byte>, key: seq<byte>, r: nat)
    requires |key| == 4 && r <= |p|
    ensures Mask(p, key)[..r] == p[..r] <==> forall i :: 0 <= i < r ==> key[i % 4] == 0
  {
    hide Xor;
    var sent := Mask(p, key);
    forall i | 0 <= i < r
      ensures sent[..r][i] == p[..r][i] <==> key[i % 4] == 0
    {
      XorSame(p[i], key[i % 4]);
    }
  }

  lemma MaskHalves(p: seq<byte>, key: seq<byte>, r: nat)
    requires |key| == 4 && r <= |p|
    ensures Mask(p[..r] + Mask(p, key)[r..], key) == Mask(p, key)[..r] + p[r..]
    ensures Mask(p, key)[..r] + p[r..] == p <==> forall i :: 0 <= i < r ==> key[i % 4] == 0
  {
    hide Xor;
    var mixed, sent := p[..r] + Mask(p, key)[r..], Mask(p, key);
    forall i | 0 <= i < |p|
      ensures Mask(mixed, key)[i] == (sent[..r] + p[r..])[i]
    {
      XorTwice(p[i], key[i % 4]);
    }
    forall i | 0 <= i < r
      ensures (sent[..r] + p[r..])[i] == p[i] <==> key[i % 4] == 0
    {
      XorSame(p[i], key[i % 4]);
    }
    if forall i :: 0 <= i < r ==> key[i % 4] == 0 {
      assert sent[..r] + p[r..] == p;
    }
  }

  /**
   Payload octets left unmasked are masked again when the rest of the frame arrives behind them: getFrame then
   gives the sender's payload exactly when the key octets over them are zero.
   */
  lemma MaskedAgain(f: Frame, buffer: seq<byte>, cur: nat, next: seq<byte>, n: nat)
    requires LateAt(f, buffer, cur) && buffer[..cur] == f.Wire()[..cur]
    requires |f.Wire()| <= n <= |next| && Toggled(f, buffer)[..cur] + f.Wire()[cur..] <= next
    ensures Readable(next, n)
    ensures Parse(next, n).Complete? && (Parse(next, n).payload == f.payload <==> KeyZero(f, cur - |f.Head()|))
  {
    hide Carrier, Mask, Frame.Head, Body, Parse, Readable, Frame.WellFormed;
    KeyOfCarrier(f);
    var head, sent, r := f.Head(), Mask(f.payload, f.key), cur - |f.Head()|;
    MaskHalves(f.payload, f.key, r);
    var g := f.(payload := sent[..r] + f.payload[r..]);
    SameForm(f, g);
    MixedWire(f, buffer, cur);
    MaskTwice(f.payload[..r] + sent[r..], f.key);
    assert g.Wire() == head + (f.payload[..r] + sent[r..]);
    assert next == g.Wire() + next[|g.Wire()|..];
    ParseWhole(g, next[|g.Wire()|..], n);
  }

  lemma SameForm(f: Frame, g: Frame)
    requires f.WellFormed() && |g.payload| == |f.payload| && g == f.(payload := g.payload)
    ensures g.WellFormed() && g.Head() == f.Head() && |g.Wire()| == |f.Wire()|
  {
  }

  /** The octets received so far, unmasked, and the rest of the frame. */
  lemma MixedWire(f: Frame, buffer: seq<byte>, cur: nat)
    requires Carrier(f) && LateCut(f, cur)
    requires |buffer| == BUFFER_SIZE && cur < |f.Wire()| && buffer[..cur] == f.Wire()[..cur]
    ensures |f.key| == 4 && |f.Wire()| <= BUFFER_SIZE && |f.Head()| <= cur <= |f.Head()| + |f.payload|
    ensures var r := cur - |f.Head()|;
            Toggled(f, buffer)[..cur] + f.Wire()[cur..] == f.Head() + (f.payload[..r] + Mask(f.payload, f.key)[r..])
  {
    hide Carrier, Mask, Frame.Head, Body;
    KeyOfCarrier(f);
    LateCutShape(f, buffer, cur);
    var head, sent, r := f.Head(), Mask(f.payload, f.key), cur - |f.Head()|;
    var body := Body(f, buffer);
    MaskTwice(f.payload, f.key);
    assert forall i :: 0 <= i < r ==> body[i] == body[..r][i] == sent[..r][i] == sent[i];
    MaskedAlike(body, sent, f.key, r);
    assert Mask(body, f.key)[..r] == f.payload[..r];
    assert f.Wire()[cur..] == sent[r..];
    assert buffer[..|head|] == head;
    assert Toggled(f, buffer)[..cur] == head + Mask(body, f.key)[..r];
  }

  lemma LengthShows(f: Frame, buffer: seq<byte>, cur: nat)
    requires Carrier(f) && LateCut(f, cur) && |f.payload| >= HEAD_LENGTH + 2
    requires |buffer| == BUFFER_SIZE && cur < |f.Wire()| && buffer[..cur] == f.Wire()[..cur]
    ensures |f.Wire()| <= BUFFER_SIZE && |f.key| == 4 && IsMessage(Mask(Body(f, buffer), f.key))
  {
    hide Carrier, Mask, IsMessage, Body;
    CarrierShape(f);
    LateCutShape(f, buffer, cur);
    var r := cur - |f.Head()|;
    var body, sent := Body(f, buffer), Mask(f.payload, f.key);
    assert forall i :: 0 <= i < 4 ==> body[i] == body[..r][i] == sent[..r][i] == sent[i];
    MaskedAlike(body, sent, f.key, 4);
    MaskTwice(f.payload, f.key);
    FourEnough(Mask(body, f.key), f.payload);
  }

  lemma FourEnough(a: seq<byte>, b: seq<byte>)
    requires |a| == |b| >= HEAD_LENGTH && (forall i :: 0 <= i < 4 ==> a[i] == b[i]) && IsMessage(b)
    ensures IsMessage(a)
  {
  }

  lemma MaskedAlike(a: seq<byte>, b: seq<byte>, key: seq<byte>, n: nat)
    requires |key| == 4 && n <= |a| && n <= |b| && forall i :: 0 <= i < n ==> a[i] == b[i]
    ensures forall i :: 0 <= i < n ==> Mask(a, key)[i] == Mask(b, key)[i]
  {
    hide Xor;
  }

  /**
   With `tries` turns to go, exactly when such a frame is not simply waited for: a wrong length is read from a cut
   header; or the end of a masked frame is missing and the payload, some of it never received, spells its length
   at one of the turns, or is left unmasked by the last of them.
   */
  ghost predicate Upset(f: Frame, buffer: seq<byte>, n: nat, tries: nat)
    requires |f.Wire()| <= |buffer| == BUFFER_SIZE
  {
    if HeaderCut(f, n) then !LongEnough(buffer, n)
    else
      LateCut(f, n) && |f.key| == 4
      && (IsMessage(Mask(Body(f, buffer), f.key)) || (tries >= 2 && IsMessage(Body(f, buffer)))
          || (tries % 2 == 1 && !KeyZero(f, n - |f.Head()|)))
  }

  /** The array after those turns. */
  ghost function Settled(f: Frame, buffer: seq<byte>, n: nat, tries: nat): (b: seq<byte>)
    requires |f.Wire()| <= |buffer|
    ensures |b| == |buffer|
  {
    if LateCut(f, n) && |f.key| == 4 && tries % 2 == 1 then Toggled(f, buffer) else buffer
  }

  lemma ToggledSame(f: Frame, buffer: seq<byte>, cur: nat)
    requires LateAt(f, buffer, cur)
    ensures Toggled(f, buffer)[..cur] == buffer[..cur] <==> KeyZero(f, cur - |f.Head()|)
  {
    hide Carrier, Mask, Frame.Head, Frame.Masked;
    var head, body, r := f.Head(), Body(f, buffer), cur - |f.Head()|;
    MaskSame(body, f.key, r);
    assert buffer[..cur] == head + body[..r];
    assert Toggled(f, buffer)[..cur] == head + Mask(body, f.key)[..r];
    assert Mask(body, f.key)[..r] == Toggled(f, buffer)[..cur][|head|..];
    assert body[..r] == buffer[..cur][|head|..];
  }

  /** Waiting with the right octets, or a fault, or waiting with octets changed: which of them, exactly. */
  lemma CutOutcome(f: Frame, buffer: seq<byte>, cur: nat, tries: nat)
    requires Carrier(f) && tries > 0
    requires |buffer| == BUFFER_SIZE && cur < |f.Wire()| <= BUFFER_SIZE && buffer[..cur] == f.Wire()[..cur]
    ensures !Upset(f, buffer, cur, tries) ==>
              Drain(buffer, cur, tries) == Waiting(Settled(f, buffer, cur, tries), cur, [])
              && Settled(f, buffer, cur, tries)[..cur] == buffer[..cur]
    ensures Upset(f, buffer, cur, tries) ==>
              var o := Drain(buffer, cur, tries);
              o.Fault? || (o.Waiting? && o.posted == [] && o.cur == cur && |o.buffer| == BUFFER_SIZE && o.buffer[..cur] != buffer[..cur])
  {
    hide Carrier, Frame.Wire, Drain, Parse, Readable, LongEnough, Cut, IsMessage, Body, Mask, Toggled, LateAt, KeyZero;
    if HeaderCut(f, cur) {
      HeaderCutNotLate(f, cur);
      if LongEnough(buffer, cur) {
        DrainCut(f, buffer, cur, tries);
      } else {
        HeaderCutFaults(f, buffer, cur, tries);
      }
    } else if LateCut(f, cur) {
      KeyOfCarrier(f);
      LateCutShape(f, buffer, cur);
      LateOutcome(f, buffer, cur, tries);
      ToggledSame(f, buffer, cur);
    } else {
      DrainCut(f, buffer, cur, tries);
    }
  }

  /**
   A masked message with no body octet or one, of which two or three payload octets have arrived: with almost any
   octet left over where the length field ends, an odd number of turns leaves the octets received changed.
   */
  lemma LeftUnmasked(f: Frame, buffer: seq<byte>, cur: nat, tries: nat)
    requires Carrier(f) && LateCut(f, cur) && |f.payload| <= HEAD_LENGTH + 1 && tries % 2 == 1
    requires |buffer| == BUFFER_SIZE && cur < |f.Wire()| <= BUFFER_SIZE && buffer[..cur] == f.Wire()[..cur]
    requires cur <= |f.Head()| + 3 && !KeyZero(f, cur - |f.Head()|)
    requires |f.Head()| + 3 < BUFFER_SIZE && |f.key| == 4 && buffer[|f.Head()| + 3] != 0 && buffer[|f.Head()| + 3] != f.key[3]
    ensures Drain(buffer, cur, tries) == Waiting(Toggled(f, buffer), cur, [])
    ensures Toggled(f, buffer)[..cur] != buffer[..cur]
  {
    hide Carrier, Frame.Wire, Drain, Body, Mask, Toggled, LateAt, KeyZero, IsMessage;
    KeyOfCarrier(f);
    LateCutShape(f, buffer, cur);
    var body := Body(f, buffer);
    FourthOctet(f, buffer);
    HighLength(body);
    HighLength(Mask(body, f.key));
    LateOutcome(f, buffer, cur, tries);
    ToggledSame(f, buffer, cur);
  }

  lemma FourthOctet(f: Frame, buffer: seq<byte>)
    requires |f.Wire()| <= |buffer| && |f.payload| > 3 && |f.key| == 4
    ensures |f.Head()| + 3 < |buffer| && Body(f, buffer)[3] == buffer[|f.Head()| + 3]
    ensures Mask(Body(f, buffer), f.key)[3] == 0 <==> buffer[|f.Head()| + 3] == f.key[3]
  {
    hide Xor, Frame.Head;
    XorZero(Body(f, buffer)[3], f.key[3]);
  }

  lemma HighLength(b: seq<byte>)
    requires HEAD_LENGTH <= |b| <= HEAD_LENGTH + 1 && b[3] != 0
    ensures !IsMessage(b)
  {
  }

  /** With the length field received there are no two ways: the handler faults at once. */
  lemma ShownFaults(f: Frame, buffer: seq<byte>, cur: nat, tries: nat)
    requires Carrier(f) && (f.Masked() ==> |f.payload| >= HEAD_LENGTH + 2) && tries > 0
    requires |buffer| == BUFFER_SIZE && cur < |f.Wire()| <= BUFFER_SIZE && buffer[..cur] == f.Wire()[..cur]
    requires Spoilt(f, buffer, cur)
    ensures Upset(f, buffer, cur, tries) && Drain(buffer, cur, tries).Fault?
  {
    hide Carrier, Frame.Wire, Drain, Parse, Readable, LongEnough, Cut, IsMessage, Body, Mask, Toggled, LateAt, KeyZero;
    if HeaderCut(f, cur) {
      HeaderCutFaults(f, buffer, cur, tries);
    } else {
      LateCutShape(f, buffer, cur);
      LengthShows(f, buffer, cur);
      LateOutcome(f, buffer, cur, tries);
    }
  }

  /**
   With a frame cut short at the front of the array (and, if it is masked, at least two body octets in its
   message), the handler faults exactly when getFrame does not wait for the rest: it leaves the buffer, or posts
   a message ending in octets that were never received and moves the end of the buffer below zero.
   */
  lemma CutFaultsIff(f: Frame, buffer: seq<byte>, cur: nat, tries: nat)
    requires Carrier(f) && (f.Masked() ==> |f.payload| >= HEAD_LENGTH + 2) && tries > 0
    requires |buffer| == BUFFER_SIZE && cur < |f.Wire()| <= BUFFER_SIZE && buffer[..cur] == f.Wire()[..cur]
    ensures Drain(buffer, cur, tries).Fault? <==> Spoilt(f, buffer, cur)
    ensures !Drain(buffer, cur, tries).Fault? ==> Drain(buffer, cur, tries) == Waiting(buffer, cur, [])
  {
    hide Carrier, Frame.Wire, Drain, LongEnough, Upset, Frame.Masked;
    if Spoilt(f, buffer, cur) {
      ShownFaults(f, buffer, cur, tries);
    } else {
      DrainCut(f, buffer, cur, tries);
    }
  }

  lemma HeaderCutFaults(f: Frame, buffer: seq<byte>, cur: nat, tries: nat)
    requires Carrier(f) && tries > 0 && |buffer| == BUFFER_SIZE && cur < |f.Wire()| && buffer[..cur] == f.Wire()[..cur]
    requires HeaderCut(f, cur) && !LongEnough(buffer, cur)
    ensures Drain(buffer, cur, tries).Fault?
  {
    hide Carrier, Frame.Wire, Drain, Parse, Readable, LongEnough, Cut;
    IsCut(f, buffer, cur);
    CutWaitsIff(f, buffer, cur);
    HeaderCutNotLate(f, cur);
    if Readable(buffer, cur) {
      ParseCut(f, buffer, cur);
    } else {
      NotReadable(buffer, cur, tries);
    }
  }

  /** Two to six octets of a header with a 64-bit length, and four octets left over in the array, are enough to fault. */
  lemma StaleHeaderFaults(f: Frame, buffer: seq<byte>, cur: nat, tries: nat)
    requires Carrier(f) && |f.len| == 9 && 2 <= cur <= 6 && tries > 0
    requires |buffer| == BUFFER_SIZE && cur < |f.Wire()| && buffer[..cur] == f.Wire()[..cur]
    requires buffer[6..10] == [0xFF, 0xFF, 0xFF, 0xF7]
    ensures Drain(buffer, cur, tries).Fault?
  {
    hide Carrier, Frame.Wire, Drain, Cut, BigEndian;
    IsCut(f, buffer, cur);
    HeaderOfCarrier(f);
    FirstHeaderOctets(f, buffer, cur);
    ReadHeader(buffer);
    StaleIsMinusNine();
    assert !LongEnough(buffer, cur);
    HeaderCutFaults(f, buffer, cur, tries);
  }

  lemma HeaderOfCarrier(f: Frame)
    requires Carrier(f) && |f.len| == 9
    ensures f.len[0] % 128 == 127
  {
    HeaderForm(f);
    hide IsMessage, BigEndian;
  }

  lemma SixDeclared()
    ensures Declares([127, 0, 0, 0, 0, 0, 0, 0, 6], false, 6)
  {
    hide BigEndian;
    var len: seq<byte> := [127, 0, 0, 0, 0, 0, 0, 0, 6];
    assert len[1..5] == [0, 0, 0, 0] && len[5..9] == [0, 0, 0, 6];
    ZeroOctets();
    SixOctets();
  }

  lemma SixOctets()
    ensures BigEndian([0, 0, 0, 6]) == 6
  {
  }

  lemma SixIsMessage()
    ensures IsMessage([6, 0, 6, 0, 1, 0])
  {
  }

  /** There are such frames: a final binary frame, unmasked, holding one whole message of six octets. */
  lemma LongCarrier()
    ensures var f := Frame(0x82, [127, 0, 0, 0, 0, 0, 0, 0, 6], [], [6, 0, 6, 0, 1, 0]);
            Carrier(f) && !f.Masked() && |f.Wire()| == 16
  {
    hide Declares, IsMessage;
    SixDeclared();
    SixIsMessage();
  }

  lemma HeaderCutNotLate(f: Frame, n: nat)
    requires Carrier(f) && HeaderCut(f, n)
    ensures !LateCut(f, n)
  {
    CarrierShape(f);
    hide IsMessage;
  }

  lemma NotReadable(buffer: seq<byte>, cur: nat, tries: nat)
    requires cur <= |buffer| && tries > 0 && !Readable(buffer, cur)
    ensures Drain(buffer, cur, tries).Fault?
  {
    hide Readable, Parse;
  }

  // Frames that carry no message.

  ghost predicate WholeAt(f: Frame, buffer: seq<byte>, cur: nat)
  {
    f.WellFormed() && f.Wire() <= buffer && |f.Wire()| <= cur <= |buffer|
  }

  function Opened(f: Frame, buffer: seq<byte>): seq<byte>
    requires |f.Wire()| <= |buffer|
  {
    f.Head() + f.payload + buffer[|f.Wire()|..]
  }

  lemma WholeParses(f: Frame, buffer: seq<byte>, cur: nat)
    requires WholeAt(f, buffer, cur)
    ensures Readable(buffer, cur) && Parse(buffer, cur) == Complete(TypeOf(f.first), f.payload, |f.Head()|, Opened(f, buffer))
  {
    hide Parse, Readable, TypeOf, Frame.Wire, Frame.Head, Frame.WellFormed;
    assert buffer == f.Wire() + buffer[|f.Wire()|..];
    ParseWhole(f, buffer[|f.Wire()|..], cur);
  }

  /** A close frame, or one with an opcode the protocol does not define, stops the connection and posts nothing. */
  lemma CloseStops(f: Frame, buffer: seq<byte>, cur: nat, tries: nat)
    requires WholeAt(f, buffer, cur) && tries > 0
    requires f.first % 16 == 8 || 3 <= f.first % 16 <= 7 || f.first % 16 >= 11
    ensures Drain(buffer, cur, tries) == Stopped(Opened(f, buffer), cur, [])
  {
    hide Parse, Readable, Opened, Frame.Wire, Frame.WellFormed, MessageOf, Compacted;
    WholeParses(f, buffer, cur);
  }

  /**
   A frame the handler neither stops at nor takes out: a ping, a pong, a frame without FIN, or a text or binary
   frame whose payload is no message, read with the key or without.
   */
  ghost predicate Blocks(f: Frame)
  {
    && f.WellFormed()
    && var kind := TypeOf(f.first);
       && kind != ERROR_FRAME && kind != CLOSE_FRAME
       && (kind == TEXT_FRAME || kind == BINARY_FRAME ==>
             !IsMessage(f.payload) && (|f.key| == 4 ==> !IsMessage(Mask(f.payload, f.key))))
  }

  lemma PingBlocks(f: Frame)
    requires f.WellFormed() && (f.first % 16 == 9 || f.first % 16 == 10 || (f.first % 16 <= 2 && f.first < 128))
    ensures Blocks(f)
  {
    hide Frame.WellFormed, IsMessage, Mask;
  }

  /** What one parse leaves is the frame with its payload masked once more, and the second parse puts it back. */
  lemma MaskedFrame(f: Frame, buffer: seq<byte>, cur: nat)
    requires WholeAt(f, buffer, cur) && Blocks(f) && |f.key| == 4
    ensures var g := f.(payload := Mask(f.payload, f.key)); var after := Opened(f, buffer);
            |f.Wire()| == |g.Wire()| <= |after| && WholeAt(g, after, cur) && Blocks(g) && Opened(g, after) == buffer
  {
    hide Frame.WellFormed, IsMessage, Mask, TypeOf, Frame.Head;
    var g := f.(payload := Mask(f.payload, f.key));
    SameForm(f, g);
    MaskTwice(f.payload, f.key);
    assert f.Wire() == f.Head() + Mask(f.payload, f.key);
    assert g.Wire() == f.Head() + f.payload;
    var after := Opened(f, buffer);
    assert after[|f.Wire()|..] == buffer[|f.Wire()|..];
    assert buffer == f.Wire() + buffer[|f.Wire()|..];
  }

  lemma UnmaskedStays(f: Frame, buffer: seq<byte>, cur: nat)
    requires WholeAt(f, buffer, cur) && |f.key| != 4
    ensures Opened(f, buffer) == buffer
  {
    hide Frame.WellFormed, Frame.Head;
    assert buffer == f.Wire() + buffer[|f.Wire()|..];
  }

  lemma BlockedTurn(f: Frame, buffer: seq<byte>, cur: nat, tries: nat)
    requires WholeAt(f, buffer, cur) && Blocks(f) && tries > 0
    ensures |Opened(f, buffer)| == |buffer|
    ensures Drain(buffer, cur, tries) == Drain(Opened(f, buffer), cur, tries - 1)
  {
    hide Parse, Readable, Frame.Wire, Frame.WellFormed, MessageOf, Compacted, TypeOf, IsMessage, Mask;
    WholeParses(f, buffer, cur);
  }

  /** All the turns of the loop find the same frame: nothing is posted and nothing taken out, and two turns leave the array alone. */
  lemma {:induction false} BlockedCallback(f: Frame, buffer: seq<byte>, cur: nat, tries: nat)
    requires WholeAt(f, buffer, cur) && Blocks(f)
    ensures |Opened(f, buffer)| == |buffer|
    ensures Drain(buffer, cur, tries) == Waiting(if tries % 2 == 1 then Opened(f, buffer) else buffer, cur, [])
    decreases tries
  {
    hide Parse, Readable, Frame.Wire, Frame.WellFormed, Drain, TypeOf, IsMessage, Mask, Opened, WholeAt, Blocks;
    OpenedLength(f, buffer, cur);
    if tries == 0 {
      WsConnection.NoTurnsLeft(buffer, cur);
    } else {
      BlockedTurn(f, buffer, cur, tries);
      if |f.key| == 4 {
        MaskedFrame(f, buffer, cur);
        BlockedCallback(f.(payload := Mask(f.payload, f.key)), Opened(f, buffer), cur, tries - 1);
      } else {
        UnmaskedStays(f, buffer, cur);
        BlockedCallback(f, buffer, cur, tries - 1);
      }
    }
  }

  lemma OpenedLength(f: Frame, buffer: seq<byte>, cur: nat)
    requires WholeAt(f, buffer, cur)
    ensures |f.Wire()| <= cur <= |buffer| && |Opened(f, buffer)| == |buffer|
  {
    hide Frame.WellFormed;
  }
}
