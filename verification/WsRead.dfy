/** WsConnection after the handshake: several frames a read, unmasked and compacted in one array. */
module WsRead {
  import opened Bytes
  import opened Frame
  import opened Message

  const FRAMES_PER_READ := 10

  /**
   How a completion handler ends: reading again, stopped on an error or close frame,
   or touching octets outside the buffer or copying a reversed range.
   */
  datatype Outcome =
    | Waiting(buffer: seq<byte>, cur: nat, posted: seq<Message>)
    | Stopped(buffer: seq<byte>, cur: nat, posted: seq<Message>)
    | Fault

  function Prepend(ms: seq<Message>, o: Outcome): Outcome
  {
    match o
    case Waiting(b, c, later) => Waiting(b, c, ms + later)
    case Stopped(b, c, later) => Stopped(b, c, ms + later)
    case Fault => Fault
  }

  /** std::copy of [end, cur) to the beginning. */
  function Compacted(buffer: seq<byte>, end: nat, cur: nat): (b: seq<byte>)
    requires end <= cur <= |buffer|
    ensures |b| == |buffer|
  {
    buffer[end..cur] + buffer[cur - end..]
  }

  predicate IsMessage(payload: seq<byte>)
  {
    |payload| >= HEAD_LENGTH && |payload| == DataLen(payload)
  }

  function MessageOf(payload: seq<byte>): Message
    requires |payload| >= HEAD_LENGTH
  {
    Message(ActionOf(payload), payload[HEAD_LENGTH..])
  }

  /**
   The handler's loop with `tries` turns to go. The break for an incomplete frame stands inside the branch for
   text and binary frames, where it cannot be reached: every turn is taken, whatever the turns before it found.
   */
  function Drain(buffer: seq<byte>, cur: nat, tries: nat): Outcome
    requires cur <= |buffer|
    decreases tries
  {
    if tries == 0 then Waiting(buffer, cur, [])
    else if !Readable(buffer, cur) then Fault
    else
      match Parse(buffer, cur)
      case Incomplete => Drain(buffer, cur, tries - 1)
      case Complete(kind, payload, start, unmasked) =>
        if kind == ERROR_FRAME || kind == CLOSE_FRAME then Stopped(unmasked, cur, [])
        else if kind == TEXT_FRAME || kind == BINARY_FRAME then
          if !IsMessage(payload) then Drain(unmasked, cur, tries - 1)
          else if start + |payload| > cur then Fault
          else
            var end := start + |payload|;
            Prepend([MessageOf(payload)], Drain(Compacted(unmasked, end, cur), cur - end, tries - 1))
        else Drain(unmasked, cur, tries - 1)
  }

  /** The turns after one that found no whole frame find none either. */
  lemma {:induction false} IncompleteWaits(buffer: seq<byte>, cur: nat, tries: nat)
    requires cur <= |buffer| && Readable(buffer, cur) && Parse(buffer, cur).Incomplete?
    ensures Drain(buffer, cur, tries) == Waiting(buffer, cur, [])
  {
    hide Parse, Readable;
    if tries > 0 {
      IncompleteWaits(buffer, cur, tries - 1);
    }
  }

  /** The array after `chunk` has come in behind `cur` octets. */
  function Landed(buffer: seq<byte>, cur: nat, chunk: seq<byte>): (b: seq<byte>)
    requires cur + |chunk| <= |buffer|
    ensures |b| == |buffer| && b[..cur + |chunk|] == buffer[..cur] + chunk
  {
    buffer[..cur] + chunk + buffer[cur + |chunk|..]
  }

  class WsConnection {
    const buffer_: array<byte>
    var cur_read_len: nat
    var stopped: bool
    /** The messages handed to ScriptManager.AddMsg. */
    var posted: seq<Message>

    ghost predicate Valid()
      reads this
    {
      buffer_.Length == BUFFER_SIZE && cur_read_len <= BUFFER_SIZE
    }

    constructor ()
      ensures Valid() && cur_read_len == 0 && posted == [] && !stopped && fresh(buffer_) && buffer_.Length == 8192
    {
      buffer_ := new byte[BUFFER_SIZE];
      cur_read_len, stopped, posted := 0, false, [];
    }

    /** The completion handler of a read that brought `chunk`. */
    method OnRead(chunk: seq<byte>)
      requires Valid() && cur_read_len + |chunk| <= BUFFER_SIZE && !stopped
      requires !Drain(Landed(buffer_[..], cur_read_len, chunk), cur_read_len + |chunk|, FRAMES_PER_READ).Fault?
      modifies this, buffer_
      ensures Valid()
      ensures var o := Drain(old(Landed(buffer_[..], cur_read_len, chunk)), old(cur_read_len) + |chunk|, FRAMES_PER_READ);
              && buffer_[..] == o.buffer && cur_read_len == o.cur
              && posted == old(posted) + o.posted
              && stopped == o.Stopped?
    {
      hide Drain, Landed;
      ghost var o := Drain(Landed(buffer_[..], cur_read_len, chunk), cur_read_len + |chunk|, FRAMES_PER_READ);
      Receive(chunk);
      cur_read_len := cur_read_len + |chunk|;
      NothingPosted(o);
      var iii := 0;
      while iii < FRAMES_PER_READ
        invariant 0 <= iii <= FRAMES_PER_READ && Valid() && !stopped && old(posted) <= posted
        invariant o == Prepend(posted[|old(posted)|..], Drain(buffer_[..], cur_read_len, FRAMES_PER_READ - iii))
      {
        ghost var before := posted[|old(posted)|..];
        ghost var length := |posted|;
        Turn(FRAMES_PER_READ - iii);
        assert posted[|old(posted)|..] == before + posted[length..];
        PrependTwice(before, posted[length..], Drain(buffer_[..], cur_read_len, FRAMES_PER_READ - iii - 1));
        iii := iii + 1;
        if stopped {
          return;
        }
      }
      NoTurnsLeft(buffer_[..], cur_read_len);
    }

    static lemma NothingPosted(o: Outcome)
      ensures o == Prepend([], o)
    {
      if !o.Fault? {
        assert [] + o.posted == o.posted;
      }
    }

    static lemma PrependTwice(a: seq<Message>, b: seq<Message>, o: Outcome)
      ensures Prepend(a, Prepend(b, o)) == Prepend(a + b, o)
    {
      if !o.Fault? {
        assert a + (b + o.posted) == a + b + o.posted;
      }
    }

    static lemma NoTurnsLeft(buffer: seq<byte>, cur: nat)
      requires cur <= |buffer|
      ensures Drain(buffer, cur, 0) == Waiting(buffer, cur, [])
    {
    }

    /** One turn of the loop. */
    method Turn(ghost tries: nat)
      requires Valid() && tries > 0 && !stopped && !Drain(buffer_[..], cur_read_len, tries).Fault?
      modifies this, buffer_
      ensures Valid() && old(posted) <= posted
      ensures var o := Drain(old(buffer_[..]), old(cur_read_len), tries); var ms := posted[|old(posted)|..];
              o == if stopped then Stopped(buffer_[..], cur_read_len, ms) else Prepend(ms, Drain(buffer_[..], cur_read_len, tries - 1))
    {
      hide Parse, TypeOf, Compacted, DataLen, ActionOf;
      ghost var o, length := Drain(buffer_[..], cur_read_len, tries), |posted|;
      ghost var parsed := Parse(buffer_[..], cur_read_len);
      var ws_type, client_msg, out_pos := GetFrame(buffer_, cur_read_len, [], 0);
      assert parsed.Complete? ==> [] + parsed.payload == parsed.payload;
      if ws_type == ERROR_FRAME || ws_type == CLOSE_FRAME {
        stopped := true;
      } else if ws_type == TEXT_FRAME || ws_type == BINARY_FRAME {
        Deliver(client_msg, out_pos);
      }
      NothingPosted(Drain(buffer_[..], cur_read_len, tries - 1));
    }

    /** The branch for a text or binary frame: a payload that is one message is posted and taken out. */
    method Deliver(client_msg: seq<byte>, out_pos: nat)
      requires Valid() && (IsMessage(client_msg) ==> out_pos + |client_msg| <= cur_read_len)
      modifies this`posted, this`cur_read_len, buffer_
      ensures Valid()
      ensures IsMessage(client_msg) ==>
                && posted == old(posted) + [MessageOf(client_msg)]
                && cur_read_len == old(cur_read_len) - (out_pos + |client_msg|)
                && buffer_[..] == Compacted(old(buffer_[..]), out_pos + |client_msg|, old(cur_read_len))
      ensures !IsMessage(client_msg) ==> posted == old(posted) && cur_read_len == old(cur_read_len) && buffer_[..] == old(buffer_[..])
    {
      hide Compacted;
      var head_len := HEAD_LENGTH;
      if |client_msg| >= head_len {
        var body_len := FromLe16(client_msg[2], client_msg[3]);
        if |client_msg| == body_len {
          var temp := client_msg[head_len..];
          posted := posted + [Message(FromLe16(client_msg[4], client_msg[5]), temp)];
          var msg_end := out_pos + |client_msg|;
          CopyDown(msg_end);
          cur_read_len := cur_read_len - msg_end;
        }
      }
    }

    /** std::copy(begin + end, begin + cur_read_len, begin), octet by octet. */
    method CopyDown(end: nat)
      requires Valid() && end <= cur_read_len
      modifies buffer_
      ensures buffer_[..] == Compacted(old(buffer_[..]), end, cur_read_len)
    {
      var i := 0;
      while end + i < cur_read_len
        invariant 0 <= i <= cur_read_len - end
        invariant forall k :: 0 <= k < i ==> buffer_[k] == old(buffer_[end + k])
        invariant forall k :: i <= k < buffer_.Length ==> buffer_[k] == old(buffer_[k])
      {
        buffer_[i] := buffer_[end + i];
        i := i + 1;
      }
    }

    /** async_read_some's transfer into the array. */
    method Receive(chunk: seq<byte>)
      requires Valid() && cur_read_len + |chunk| <= BUFFER_SIZE
      modifies buffer_
      ensures buffer_[..] == Landed(old(buffer_[..]), cur_read_len, chunk)
    {
      var i := 0;
      while i < |chunk|
        invariant 0 <= i <= |chunk|
        invariant buffer_[..cur_read_len] == old(buffer_[..cur_read_len])
        invariant buffer_[cur_read_len..cur_read_len + i] == chunk[..i]
        invariant buffer_[cur_read_len + i..] == old(buffer_[cur_read_len + i..])
      {
        buffer_[cur_read_len + i] := chunk[i];
        i := i + 1;
      }
    }
  }
}
