/** TcpConnection: messages rebuilt from partial reads into a fixed array. */
module TcpRead {
  import opened Bytes
  import opened Message

  // The reader on values: `b` is what the array holds.

  /** The length do_read asks for, in 16-bit arithmetic. */
  function Request(b: seq<byte>): (n: nat)
  {
    if |b| < HEAD_LENGTH then HEAD_LENGTH - |b| else (DataLen(b) - |b|) % 0x1_0000
  }

  datatype Taken = Taken(rest: seq<byte>, posted: seq<Message>)

  /** One completed read of `chunk`. */
  function Take(b: seq<byte>, chunk: seq<byte>): Taken
  {
    var all := b + chunk;
    if |all| >= HEAD_LENGTH && |all| == DataLen(all) then Taken([], [Message(ActionOf(all), all[HEAD_LENGTH..])])
    else Taken(all, [])
  }

  /** Every read brings at least one octet and at most what was asked for. */
  predicate Admissible(b: seq<byte>, chunks: seq<seq<byte>>)
    decreases |chunks|
  {
    chunks == [] || (1 <= |chunks[0]| <= Request(b) && Admissible(Take(b, chunks[0]).rest, chunks[1..]))
  }

  function Run(b: seq<byte>, chunks: seq<seq<byte>>): Taken
    decreases |chunks|
  {
    if chunks == [] then Taken(b, [])
    else
      var first := Take(b, chunks[0]);
      var later := Run(first.rest, chunks[1..]);
      Taken(later.rest, first.posted + later.posted)
  }

  class TcpConnection {
    const buffer_: array<byte>
    var cur_read_len: nat
    /** The messages handed to ScriptManager.AddMsg. */
    var posted: seq<Message>

    ghost predicate Valid()
      reads this
    {
      buffer_.Length == BUFFER_SIZE && cur_read_len <= BUFFER_SIZE
    }

    ghost function Held(): seq<byte>
      requires Valid()
      reads this, buffer_
    {
      buffer_[..cur_read_len]
    }

    constructor ()
      ensures Valid() && Held() == [] && posted == [] && fresh(buffer_) && buffer_.Length == 8192
    {
      buffer_ := new byte[BUFFER_SIZE];
      cur_read_len := 0;
      posted := [];
    }

    /** The first half of do_read. */
    method NeedReadLen() returns (need_read_len: nat)
      requires Valid()
      ensures need_read_len == Request(Held())
    {
      var head_len := HEAD_LENGTH;
      if cur_read_len < head_len {
        need_read_len := head_len - cur_read_len;
      } else {
        var body_len := FromLe16(buffer_[2], buffer_[3]);
        need_read_len := (body_len - cur_read_len) % 0x1_0000;
      }
    }

    /** The socket puts `chunk` behind what is held, and the completion handler runs. */
    method OnRead(chunk: seq<byte>)
      requires Valid() && cur_read_len + |chunk| <= BUFFER_SIZE
      modifies this, buffer_
      ensures Valid()
      ensures Held() == Take(old(Held()), chunk).rest
      ensures posted == old(posted) + Take(old(Held()), chunk).posted
    {
      ghost var held := Held();
      Receive(chunk);
      cur_read_len := cur_read_len + |chunk|;
      assert Held() == held + chunk;
      var head_len := HEAD_LENGTH;
      if cur_read_len >= head_len {
        var body_len := FromLe16(buffer_[2], buffer_[3]);
        if cur_read_len == body_len {
          var temp := buffer_[head_len..body_len];
          assert temp == Held()[head_len..];
          posted := posted + [Message(FromLe16(buffer_[4], buffer_[5]), temp)];
          cur_read_len := 0;
        }
      }
    }

    /** async_read_some's transfer into the array. */
    method Receive(chunk: seq<byte>)
      requires Valid() && cur_read_len + |chunk| <= BUFFER_SIZE
      modifies buffer_
      ensures buffer_[..cur_read_len] == old(buffer_[..cur_read_len])
      ensures buffer_[cur_read_len..cur_read_len + |chunk|] == chunk
    {
      var i := 0;
      while i < |chunk|
        invariant 0 <= i <= |chunk|
        invariant buffer_[..cur_read_len] == old(buffer_[..cur_read_len])
        invariant buffer_[cur_read_len..cur_read_len + i] == chunk[..i]
      {
        buffer_[cur_read_len + i] := chunk[i];
        i := i + 1;
      }
    }
  }

  // Streams of messages.

  predicate AllFit(ps: seq<Packet>)
  {
    forall i :: 0 <= i < |ps| ==> ps[i].Fits()
  }

  function Stream(ps: seq<Packet>): seq<byte>
  {
    if ps == [] then [] else ps[0].Octets() + Stream(ps[1..])
  }

  function Messages(ps: seq<Packet>): (ms: seq<Message>)
    ensures |ms| == |ps|
    ensures forall i :: 0 <= i < |ps| ==> ms[i] == ps[i].message
  {
    seq(|ps|, i requires 0 <= i < |ps| => ps[i].message)
  }

  /** How many packets lie whole within the first `n` octets of the stream. */
  function WholeCount(ps: seq<Packet>, n: nat): (k: nat)
    ensures k <= |ps|
  {
    if ps == [] || n < |ps[0].Octets()| then 0 else 1 + WholeCount(ps[1..], n - |ps[0].Octets()|)
  }

  /** `b` is a proper part of the next packet (nothing, when there is none). */
  ghost predicate Within(ps: seq<Packet>, b: seq<byte>)
  {
    if ps == [] then b == [] else |b| < |ps[0].Octets()| && b == ps[0].Octets()[..|b|]
  }

  /** Inside a packet, the request is positive, ends inside that packet and inside the array. */
  lemma RequestInside(p: Packet, b: seq<byte>)
    requires p.Fits() && |b| < |p.Octets()| && b == p.Octets()[..|b|]
    ensures 0 < Request(b) <= |p.Octets()| - |b|
    ensures |b| + Request(b) <= BUFFER_SIZE
  {
    if |b| >= HEAD_LENGTH {
      HeadFields(p, b);
    }
  }

  /** It asks for exactly what is missing of the head, or of the message. */
  lemma RequestExact(p: Packet, b: seq<byte>)
    requires p.Fits() && |b| < |p.Octets()| && b == p.Octets()[..|b|]
    ensures |b| + Request(b) == if |b| < 6 then 6 else |p.Octets()|
  {
    if |b| >= HEAD_LENGTH {
      HeadFields(p, b);
    }
  }

  lemma TakeInside(p: Packet, b: seq<byte>, chunk: seq<byte>)
    requires p.Fits() && |b + chunk| <= |p.Octets()| && b + chunk == p.Octets()[..|b + chunk|]
    ensures Take(b, chunk) == if |b + chunk| == |p.Octets()| then Taken([], [p.message]) else Taken(b + chunk, [])
  {
    if |b + chunk| >= HEAD_LENGTH {
      HeadFields(p, b + chunk);
      BodyOf(p);
      assert |b + chunk| == |p.Octets()| ==> b + chunk == p.Octets();
    }
  }

  /** `t` is what the octets `s` of a stream of packets should come to: the whole packets posted, the rest held. */
  ghost predicate Rebuilt(ps: seq<Packet>, s: seq<byte>, t: Taken)
  {
    var k := WholeCount(ps, |s|);
    && t.posted == Messages(ps[..k])
    && Stream(ps[..k]) + t.rest == s
    && Within(ps[k..], t.rest)
  }

  lemma RebuiltStart(ps: seq<Packet>, b: seq<byte>)
    requires Within(ps, b)
    ensures Rebuilt(ps, b, Taken(b, []))
  {
    assert ps[..0] == [] && ps[0..] == ps;
  }

  lemma RebuiltNext(ps: seq<Packet>, s: seq<byte>, t: Taken)
    requires ps != [] && Rebuilt(ps[1..], s, t)
    ensures Rebuilt(ps, ps[0].Octets() + s, Taken(t.rest, [ps[0].message] + t.posted))
  {
    hide Within, Packet.Octets;
    var k := WholeCount(ps[1..], |s|);
    var whole := ps[..k + 1];
    assert whole[1..] == ps[1..][..k];
    assert ps[k + 1..] == ps[1..][k..];
    assert WholeCount(ps, |ps[0].Octets() + s|) == k + 1;
    assert Messages(whole) == [ps[0].message] + Messages(whole[1..]);
    assert Stream(whole) + t.rest == ps[0].Octets() + (Stream(whole[1..]) + t.rest);
  }

  /** Any run of partial reads along a stream of packets posts exactly the whole packets received, in order, and holds the rest. */
  lemma {:induction false} Reassembly(ps: seq<Packet>, b: seq<byte>, chunks: seq<seq<byte>>)
    requires AllFit(ps) && Within(ps, b) && Admissible(b, chunks)
    requires b + Flatten(chunks) <= Stream(ps)
    ensures Rebuilt(ps, b + Flatten(chunks), Run(b, chunks))
    decreases |chunks|
  {
    hide Take, Request, Rebuilt;
    if chunks == [] {
      assert b + Flatten(chunks) == b;
      RebuiltStart(ps, b);
    } else {
      var c, later := chunks[0], chunks[1..];
      var s := b + c + Flatten(later);
      assert b + Flatten(chunks) == s;
      FirstPacket(ps, b, s);
      var p := ps[0];
      RequestInside(p, b);
      PrefixOfFirst(ps, b + c, s);
      TakeInside(p, b, c);
      if |b + c| == |p.Octets()| {
        assert b + c == p.Octets();
        assert [] + Flatten(later) == Flatten(later);
        RestOfStream(ps, Flatten(later));
        Reassembly(ps[1..], [], later);
        RebuiltNext(ps, Flatten(later), Run([], later));
      } else {
        Reassembly(ps, b + c, later);
        assert [] + Run(b + c, later).posted == Run(b + c, later).posted;
      }
    }
  }

  /** At any point of any run, the next request is positive, ends with the message it is in, and stays inside the array. */
  lemma NextRequest(ps: seq<Packet>, chunks: seq<seq<byte>>)
    requires AllFit(ps) && Admissible([], chunks) && Flatten(chunks) < Stream(ps)
    ensures var held, k := Run([], chunks).rest, WholeCount(ps, |Flatten(chunks)|);
            && k < |ps| && |held| < |ps[k].Octets()|
            && 0 < Request(held) <= |ps[k].Octets()| - |held|
            && |held| + Request(held) <= BUFFER_SIZE
  {
    hide Take, Run, Admissible, Request, Flatten, Packet.Octets, Packet.Fits;
    assert [] + Flatten(chunks) == Flatten(chunks);
    Reassembly(ps, [], chunks);
    var held, k := Run([], chunks).rest, WholeCount(ps, |Flatten(chunks)|);
    NotAll(ps, k, held, Flatten(chunks));
    assert ps[k..][0] == ps[k];
    RequestInside(ps[k], held);
  }

  lemma NotAll(ps: seq<Packet>, k: nat, held: seq<byte>, s: seq<byte>)
    requires k <= |ps| && s < Stream(ps) && Stream(ps[..k]) + held == s && Within(ps[k..], held)
    ensures k < |ps|
  {
    hide Packet.Octets;
    assert ps[..|ps|] == ps;
    assert k == |ps| ==> held == [];
  }

  lemma RestOfStream(ps: seq<Packet>, s: seq<byte>)
    requires ps != [] && ps[0].Octets() + s <= Stream(ps)
    ensures s <= Stream(ps[1..])
  {
    assert s == (ps[0].Octets() + s)[|ps[0].Octets()|..];
    assert Stream(ps[1..]) == Stream(ps)[|ps[0].Octets()|..];
  }

  lemma FirstPacket(ps: seq<Packet>, b: seq<byte>, s: seq<byte>)
    requires Within(ps, b) && b <= s <= Stream(ps) && |b| < |s|
    ensures ps != []
  {
  }

  lemma PrefixOfFirst(ps: seq<Packet>, a: seq<byte>, s: seq<byte>)
    requires ps != [] && a <= s <= Stream(ps) && |a| <= |ps[0].Octets()|
    ensures a == ps[0].Octets()[..|a|]
  {
    assert a == Stream(ps)[..|a|];
  }

  /** Nothing is lost: once the whole stream has been read, every message has been posted and nothing is held. */
  lemma ReassemblyOfAll(ps: seq<Packet>, chunks: seq<seq<byte>>)
    requires AllFit(ps) && Admissible([], chunks) && Flatten(chunks) == Stream(ps)
    ensures Run([], chunks) == Taken([], Messages(ps))
  {
    assert [] + Flatten(chunks) == Stream(ps);
    Reassembly(ps, [], chunks);
    CountOfAll(ps);
    assert ps[..|ps|] == ps && ps[|ps|..] == [];
  }

  lemma {:induction false} CountOfAll(ps: seq<Packet>)
    ensures WholeCount(ps, |Stream(ps)|) == |ps|
  {
    if ps != [] {
      CountOfAll(ps[1..]);
    }
  }

  /** With only a head held, the next request stays positive and inside the array exactly for the lengths the format allows. */
  lemma RequestInArrayIff(b: seq<byte>)
    requires |b| == HEAD_LENGTH && DataLen(b) != HEAD_LENGTH
    ensures 0 < Request(b) && |b| + Request(b) <= BUFFER_SIZE <==> 6 < DataLen(b) <= 8192
  {
  }
}
