/**
 From the script's messages on one side to the script's messages on the other: laid out, queued by any
 interleaving of threads, framed when the connection is a WebSocket, sent, and read back in any pieces.
 */
module EndToEnd {
  import opened Bytes
  import opened Message
  import opened Frame
  import F = FrameLaws
  import T = TcpRead
  import Q = WriteQueue
  import R = WsReassembly
  import WsFront
  import WsRead

  // The queue.

  /** Whatever the threads are doing, what has been handed to the socket, a write that failed included, is the beginning of what was pushed. */
  lemma SentInOrder(websocket: bool, steps: seq<Q.Step>)
    requires Q.Executes(Q.Initial(websocket), steps)
    ensures var s := Q.After(Q.Initial(websocket), steps); s.written + (s.inFlight + s.lost) <= Q.Pushes(steps)
  {
    hide Q.Executes, Q.After, Q.AllIdle;
    Q.NothingLost(websocket, steps);
    var s := Q.After(Q.Initial(websocket), steps);
    var held :| |held| <= 1 && s.inFlight + s.lost <= held && s.written + held + s.queue == Q.Pushes(steps);
    var out := s.inFlight + s.lost;
    assert out == held[..|out|];
    assert s.written + out == Q.Pushes(steps)[..|s.written| + |out|];
  }

  /** A moment when nothing more is going to happen: no thread inside a call, no write failed or in flight. */
  predicate Quiet(s: Q.State)
  {
    Q.AllIdle(s) && Q.Open(s) && s.lost == [] && s.inFlight == []
  }

  /** When everything has calmed down, all that was pushed has been written: no message stays behind. */
  lemma QuietMeansWritten(websocket: bool, steps: seq<Q.Step>)
    requires Q.Executes(Q.Initial(websocket), steps)
    requires var s := Q.After(Q.Initial(websocket), steps); Quiet(s) && [] !in Q.Pushes(steps)
    ensures var s := Q.After(Q.Initial(websocket), steps); s.written == Q.Pushes(steps)
  {
    hide Q.Executes, Q.After, Q.AllIdle;
    Q.NothingLost(websocket, steps);
    var s := Q.After(Q.Initial(websocket), steps);
    EmptyInPrefix(Q.Pushes(steps));
    if s.queue != [] {
      Q.QuietAndQueued(websocket, steps);
    }
    assert s.written + ([] + []) + [] == s.written;
  }

  lemma EmptyInPrefix(texts: seq<seq<byte>>)
    requires [] !in texts
    ensures forall n :: 0 <= n <= |texts| ==> [] !in texts[..n]
  {
  }

  lemma FlattenPrefix<A>(a: seq<seq<A>>, b: seq<seq<A>>)
    requires a <= b
    ensures Flatten(a) <= Flatten(b)
  {
    assert b == a + b[|a|..];
    FlattenConcat(a, b[|a|..]);
  }

  lemma HandedOver(websocket: bool, steps: seq<Q.Step>, chunks: seq<seq<byte>>)
    requires Q.Executes(Q.Initial(websocket), steps)
    requires var s := Q.After(Q.Initial(websocket), steps); Flatten(chunks) <= Flatten(s.written + (s.inFlight + s.lost))
    ensures Flatten(chunks) <= Flatten(Q.Pushes(steps))
  {
    hide Q.Executes, Q.After, Flatten;
    var s := Q.After(Q.Initial(websocket), steps);
    SentInOrder(websocket, steps);
    FlattenPrefix(s.written + (s.inFlight + s.lost), Q.Pushes(steps));
  }

  // TCP.

  predicate Sendable(m: Message)
  {
    Sent(m).Fits()
  }

  predicate AllSendable(ms: seq<Message>)
  {
    forall i :: 0 <= i < |ms| ==> Sendable(ms[i])
  }

  function Packets(ms: seq<Message>): (ps: seq<Packet>)
    ensures |ps| == |ms| && forall i :: 0 <= i < |ms| ==> ps[i] == Sent(ms[i])
  {
    seq(|ms|, i requires 0 <= i < |ms| => Sent(ms[i]))
  }

  /** What cpp_send_to_fd hands to a TCP connection. */
  function TcpTexts(ms: seq<Message>): (texts: seq<seq<byte>>)
    ensures |texts| == |ms| && [] !in texts
  {
    if ms == [] then [] else [Sent(ms[0]).Octets()] + TcpTexts(ms[1..])
  }

  lemma {:induction false} TcpTextsFlatten(ms: seq<Message>)
    ensures Flatten(TcpTexts(ms)) == T.Stream(Packets(ms))
  {
    if ms != [] {
      TcpTextsFlatten(ms[1..]);
      assert Packets(ms)[1..] == Packets(ms[1..]);
      assert TcpTexts(ms)[1..] == TcpTexts(ms[1..]);
    }
  }

  lemma PacketsCarry(ms: seq<Message>)
    requires AllSendable(ms)
    ensures T.AllFit(Packets(ms)) && T.Messages(Packets(ms)) == ms
  {
  }

  /**
   At any moment of any run, whatever part the peer has read of the octets handed to the socket: it has posted the whole
   messages in that part, in the order of the pushes, once each.
   */
  lemma TcpInOrder(ms: seq<Message>, steps: seq<Q.Step>, chunks: seq<seq<byte>>)
    requires AllSendable(ms) && Q.Executes(Q.Initial(false), steps)
    requires Q.Pushes(steps) == TcpTexts(ms)
    requires var s := Q.After(Q.Initial(false), steps); Flatten(chunks) <= Flatten(s.written + (s.inFlight + s.lost))
    requires T.Admissible([], chunks)
    ensures T.Run([], chunks).posted == ms[..T.WholeCount(Packets(ms), |Flatten(chunks)|)]
  {
    hide Q.Executes, Q.After, T.Admissible, T.Run, T.WholeCount, T.Stream, Flatten;
    HandedOver(false, steps, chunks);
    TcpTextsFlatten(ms);
    PacketsCarry(ms);
    assert [] + Flatten(chunks) == Flatten(chunks);
    T.Reassembly(Packets(ms), [], chunks);
    var k := T.WholeCount(Packets(ms), |Flatten(chunks)|);
    assert T.Messages(Packets(ms)[..k]) == ms[..k];
  }

  /** Every list of messages arrives: once the connection is quiet and all has been read, the peer has posted the list. */
  lemma TcpDelivers(ms: seq<Message>, steps: seq<Q.Step>, chunks: seq<seq<byte>>)
    requires AllSendable(ms) && Q.Executes(Q.Initial(false), steps)
    requires var s := Q.After(Q.Initial(false), steps);
             Q.Pushes(steps) == TcpTexts(ms) && Quiet(s) && Flatten(chunks) == Flatten(s.written)
    requires T.Admissible([], chunks)
    ensures T.Run([], chunks) == T.Taken([], ms)
  {
    hide Q.Executes, Q.After, Quiet, T.Admissible, T.Run, Flatten;
    QuietMeansWritten(false, steps);
    TcpTextsFlatten(ms);
    PacketsCarry(ms);
    T.ReassemblyOfAll(Packets(ms), chunks);
  }

  // The client.

  function ClientPackets(lines: seq<seq<byte>>): (ps: seq<Packet>)
    ensures |ps| == |lines|
    ensures forall i :: 0 <= i < |lines| ==> ps[i] == Packet(TCP_HEAD_MAGIC, Message(1, lines[i]))
  {
    seq(|lines|, i requires 0 <= i < |lines| => Packet(TCP_HEAD_MAGIC, Message(1, lines[i])))
  }

  /** The client's endless loop, for the lines typed so far: everything it has sent. */
  method ClientLoop(lines: seq<seq<byte>>) returns (sends: seq<seq<byte>>)
    ensures Flatten(sends) == T.Stream(ClientPackets(lines))
  {
    sends := [];
    var i := 0;
    while i < |lines|
      invariant 0 <= i <= |lines|
      invariant Flatten(sends) == T.Stream(ClientPackets(lines[..i]))
    {
      var more := SendInTens(lines[i]);
      FlattenConcat(sends, more);
      StreamSnoc(ClientPackets(lines[..i]), Packet(TCP_HEAD_MAGIC, Message(1, lines[i])));
      assert ClientPackets(lines[..i + 1]) == ClientPackets(lines[..i]) + [Packet(TCP_HEAD_MAGIC, Message(1, lines[i]))];
      sends := sends + more;
      i := i + 1;
    }
    assert lines[..|lines|] == lines;
  }

  lemma {:induction false} StreamSnoc(ps: seq<Packet>, p: Packet)
    ensures T.Stream(ps + [p]) == T.Stream(ps) + p.Octets()
  {
    hide Packet.Octets;
    if ps == [] {
      assert ([] + [p])[1..] == [];
    } else {
      assert (ps + [p])[1..] == ps[1..] + [p];
      StreamSnoc(ps[1..], p);
    }
  }

  /** What the client sends, in tens, the server reads back line by line. */
  lemma ClientReadsBack(lines: seq<seq<byte>>, sends: seq<seq<byte>>, chunks: seq<seq<byte>>)
    requires forall i :: 0 <= i < |lines| ==> HEAD_LENGTH + |lines[i]| <= BUFFER_SIZE
    requires Flatten(sends) == T.Stream(ClientPackets(lines))
    requires Flatten(chunks) == Flatten(sends) && T.Admissible([], chunks)
    ensures var got := T.Run([], chunks);
            && got.rest == [] && |got.posted| == |lines|
            && forall i :: 0 <= i < |lines| ==> got.posted[i] == Message(1, lines[i])
  {
    hide T.Admissible, T.Run, Flatten, T.Stream;
    T.ReassemblyOfAll(ClientPackets(lines), chunks);
  }

  // WebSocket.

  predicate WsSendable(m: Message)
  {
    Sendable(m) && |Framed(m).Wire()| <= BUFFER_SIZE
  }

  /** The frame do_write_cache makes of a message. */
  function Framed(m: Message): Frame
    requires Sendable(m)
  {
    Printed(BINARY_FRAME, Sent(m).Octets())
  }

  predicate AllWsSendable(ms: seq<Message>)
  {
    forall i :: 0 <= i < |ms| ==> WsSendable(ms[i])
  }

  function Frames(ms: seq<Message>): (fs: seq<Frame>)
    requires AllWsSendable(ms)
    ensures |fs| == |ms| && forall i :: 0 <= i < |ms| ==> fs[i] == Framed(ms[i])
  {
    if ms == [] then [] else [Framed(ms[0])] + Frames(ms[1..])
  }

  function WsTexts(ms: seq<Message>): (texts: seq<seq<byte>>)
    requires AllWsSendable(ms)
    ensures |texts| == |ms| && [] !in texts
  {
    if ms == [] then [] else [Framed(ms[0]).Wire()] + WsTexts(ms[1..])
  }

  lemma {:induction false} WsTextsFlatten(ms: seq<Message>)
    requires AllWsSendable(ms)
    ensures Flatten(WsTexts(ms)) == F.WireAll(Frames(ms))
  {
    hide Frame.Wire, Framed, WsSendable;
    if ms != [] {
      WsTextsFlatten(ms[1..]);
      assert Frames(ms)[1..] == Frames(ms[1..]);
      assert WsTexts(ms)[1..] == WsTexts(ms[1..]);
    }
  }

  lemma PayloadIsMessage(m: Message)
    requires Sendable(m)
    ensures WsRead.IsMessage(Sent(m).Octets()) && WsRead.MessageOf(Sent(m).Octets()) == m
  {
    var p := Sent(m);
    assert p.Octets() == p.Octets()[..|p.Octets()|];
    HeadFields(p, p.Octets());
    BodyOf(p);
  }

  lemma FramedCarries(m: Message)
    requires WsSendable(m)
    ensures WsFront.Carrier(Framed(m)) && !Framed(m).Masked() && |Framed(m).len| <= 3
    ensures WsRead.MessageOf(Framed(m).payload) == m
  {
    hide Frame.Wire, Packet.Octets, Frame.WellFormed, WsRead.IsMessage, WsRead.MessageOf;
    PayloadIsMessage(m);
    F.PrintedWellFormed(BINARY_FRAME, Sent(m).Octets());
    TypeOfCode(BINARY_FRAME);
  }

  lemma {:induction false} FramesCarry(ms: seq<Message>)
    requires AllWsSendable(ms)
    ensures R.Carriers(Frames(ms)) && R.MessagesIn(Frames(ms)) == ms
    ensures R.ShortForms(Frames(ms)) && forall i :: 0 <= i < |ms| ==> !Frames(ms)[i].Masked()
  {
    hide WsFront.Carrier, WsSendable, Framed, WsRead.MessageOf, Frame.Masked;
    if ms != [] {
      FramedCarries(ms[0]);
      FramesCarry(ms[1..]);
      assert Frames(ms)[1..] == Frames(ms[1..]);
      assert ms == [ms[0]] + ms[1..];
    }
  }

  /**
   At any moment of any run: what the peer has posted is the beginning of what was pushed, and its frames
   followed by what the array holds are the octets read.
   */
  lemma WsInOrder(ms: seq<Message>, steps: seq<Q.Step>, buffer: seq<byte>, chunks: seq<seq<byte>>)
    requires AllWsSendable(ms) && Q.Executes(Q.Initial(true), steps)
    requires Q.Pushes(steps) == WsTexts(ms)
    requires var s := Q.After(Q.Initial(true), steps); Flatten(chunks) <= Flatten(s.written + (s.inFlight + s.lost))
    requires |buffer| == BUFFER_SIZE && R.ReadsFit(buffer, 0, chunks)
    ensures var o := R.Run(buffer, 0, chunks);
            && o.Waiting? && o.posted <= ms && o.cur < BUFFER_SIZE == |o.buffer|
            && F.WireAll(Frames(ms)[..|o.posted|]) + o.buffer[..o.cur] == Flatten(chunks)
  {
    hide Q.Executes, Q.After, R.ReadsFit, R.Run, F.WireAll, Flatten, AllWsSendable, Q.Pushes;
    HandedOver(true, steps, chunks);
    WsTextsFlatten(ms);
    ReadInOrder(ms, buffer, chunks);
  }

  lemma ReadInOrder(ms: seq<Message>, buffer: seq<byte>, chunks: seq<seq<byte>>)
    requires AllWsSendable(ms) && |buffer| == BUFFER_SIZE && R.ReadsFit(buffer, 0, chunks)
    requires Flatten(chunks) <= F.WireAll(Frames(ms))
    ensures var o := R.Run(buffer, 0, chunks);
            && o.Waiting? && o.posted <= ms && o.cur < BUFFER_SIZE == |o.buffer|
            && F.WireAll(Frames(ms)[..|o.posted|]) + o.buffer[..o.cur] == Flatten(chunks)
  {
    hide R.ReadsFit, R.SoundReads, WsFront.Carrier, R.Run, R.MessagesIn, R.Took, F.WireAll, Flatten, WsSendable;
    var fs := Frames(ms);
    FramesCarry(ms);
    assert buffer[..0] + Flatten(chunks) == Flatten(chunks);
    AllReadsGood(ms, buffer, chunks);
    R.Reassembly(fs, buffer, 0, chunks);
    var o := R.Run(buffer, 0, chunks);
    var m := |o.posted|;
    R.TookLeaves(fs, m, Flatten(chunks), o);
    R.FirstMessages(fs, m);
  }

  lemma AllReadsGood(ms: seq<Message>, buffer: seq<byte>, chunks: seq<seq<byte>>)
    requires AllWsSendable(ms) && |buffer| == BUFFER_SIZE && R.ReadsFit(buffer, 0, chunks)
    requires Flatten(chunks) <= F.WireAll(Frames(ms))
    ensures R.Carriers(Frames(ms)) && R.SoundReads(Frames(ms), buffer, 0, chunks)
  {
    hide R.ReadsFit, R.SoundReads, WsFront.Carrier, R.ShortForms, F.WireAll, Flatten, WsSendable, Frame.Masked;
    FramesCarry(ms);
    assert buffer[..0] + Flatten(chunks) == Flatten(chunks);
    R.UnmaskedReadsAreGood(Frames(ms), buffer, 0, chunks);
  }

  /**
   Once the connection is quiet and all has been read, the list has arrived exactly when the array is empty;
   otherwise the rest, complete as it is, waits for one more read.
   */
  lemma WsDelivers(ms: seq<Message>, steps: seq<Q.Step>, buffer: seq<byte>, chunks: seq<seq<byte>>)
    requires AllWsSendable(ms) && Q.Executes(Q.Initial(true), steps)
    requires var s := Q.After(Q.Initial(true), steps);
             Q.Pushes(steps) == WsTexts(ms) && Quiet(s) && Flatten(chunks) == Flatten(s.written)
    requires |buffer| == BUFFER_SIZE && R.ReadsFit(buffer, 0, chunks)
    ensures var o := R.Run(buffer, 0, chunks);
            o.Waiting? && (o.posted == ms <==> o.cur == 0)
  {
    hide Q.Executes, Q.After, Quiet, R.ReadsFit, R.SoundReads, WsFront.Carrier, R.Run, R.MessagesIn, F.WireAll, Flatten, WsSendable;
    QuietMeansWritten(true, steps);
    WsTextsFlatten(ms);
    FramesCarry(ms);
    AllReadsGood(ms, buffer, chunks);
    R.PostedAllIffEmpty(Frames(ms), buffer, chunks);
  }

  /** And that is decided by the last read: it delivers what was missing exactly when that is at most ten messages. */
  lemma WsLastRead(ms: seq<Message>, steps: seq<Q.Step>, buffer: seq<byte>, chunks: seq<seq<byte>>, last: seq<byte>)
    requires AllWsSendable(ms) && Q.Executes(Q.Initial(true), steps)
    requires var s := Q.After(Q.Initial(true), steps);
             Q.Pushes(steps) == WsTexts(ms) && Quiet(s) && Flatten(chunks) + last == Flatten(s.written)
    requires |buffer| == BUFFER_SIZE && R.ReadsFit(buffer, 0, chunks)
    requires var before := R.Run(buffer, 0, chunks);
             before.Waiting? && before.cur + |last| <= |before.buffer| == BUFFER_SIZE
    ensures var before, after := R.Run(buffer, 0, chunks), R.Run(buffer, 0, chunks + [last]);
            after.Waiting? && (after.posted == ms <==> |ms| - |before.posted| <= 10)
  {
    hide Q.Executes, Q.After, Quiet, R.ReadsFit, R.SoundReads, WsFront.Carrier, R.Run, R.MessagesIn, F.WireAll, Flatten, WsSendable;
    QuietMeansWritten(true, steps);
    WsTextsFlatten(ms);
    FramesCarry(ms);
    assert Flatten(chunks) == (Flatten(chunks) + last)[..|Flatten(chunks)|];
    AllReadsGood(ms, buffer, chunks);
    R.LastReadDecides(Frames(ms), buffer, chunks, last);
  }

  /** Up to ten messages in one read are all delivered. */
  lemma TenAtOnce(ms: seq<Message>, buffer: seq<byte>)
    requires AllWsSendable(ms) && |ms| <= 10
    requires |buffer| == BUFFER_SIZE && |Flatten(WsTexts(ms))| <= BUFFER_SIZE
    ensures var o := R.Run(buffer, 0, [Flatten(WsTexts(ms))]); o.Waiting? && o.posted == ms
  {
    hide R.SoundReads, WsFront.Carrier, R.Run, R.MessagesIn, F.WireAll, WsSendable, Flatten;
    var all := Flatten(WsTexts(ms));
    WsTextsFlatten(ms);
    FramesCarry(ms);
    NothingRead(Frames(ms), buffer);
    R.NoChunks();
    assert [] + all == all && [] + [all] == [all];
    R.LastReadDecides(Frames(ms), buffer, [], all);
  }

  /** Eleven messages in one read: the last is not delivered, although every octet of it is there. */
  lemma ElevenAtOnce(buffer: seq<byte>)
    requires |buffer| == BUFFER_SIZE
    ensures var ms := Repeat(Message(1, []), 11);
            && AllWsSendable(ms) && |Flatten(WsTexts(ms))| <= BUFFER_SIZE
            && var o := R.Run(buffer, 0, [Flatten(WsTexts(ms))]); o.Waiting? && o.posted != ms
  {
    hide R.SoundReads, WsFront.Carrier, R.Run, R.MessagesIn, F.WireAll, Framed, WsSendable, Repeat;
    var ms := Repeat(Message(1, []), 11);
    EmptyBody();
    var all := Flatten(WsTexts(ms));
    EightEach(ms);
    WsTextsFlatten(ms);
    FramesCarry(ms);
    NothingRead(Frames(ms), buffer);
    assert [] + all == all && [] + [all] == [all];
    assert Flatten<byte>([]) == [];
    R.LastReadDecides(Frames(ms), buffer, [], all);
  }

  lemma NothingRead(fs: seq<Frame>, buffer: seq<byte>)
    requires R.Carriers(fs) && |buffer| == BUFFER_SIZE
    ensures R.Run(buffer, 0, []) == WsRead.Waiting(buffer, 0, []) && R.SoundReads(fs, buffer, 0, [])
  {
  }

  lemma EmptyBody()
    ensures WsSendable(Message(1, [])) && |Framed(Message(1, [])).Wire()| == 8
  {
    hide Packet.Octets;
  }

  lemma {:induction false} EightEach(ms: seq<Message>)
    requires AllWsSendable(ms) && forall i :: 0 <= i < |ms| ==> ms[i] == Message(1, [])
    ensures |Flatten(WsTexts(ms))| == 8 * |ms|
  {
    hide Framed, WsSendable;
    if ms != [] {
      EmptyBody();
      EightEach(ms[1..]);
      assert WsTexts(ms)[1..] == WsTexts(ms[1..]);
    }
  }
}
