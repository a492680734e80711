/** The six-octet message head, and the two programs' ways of sending a message. */
module Message {
  import opened Bytes

  const HEAD_LENGTH := 6
  const BUFFER_SIZE := 8192

  /** What a message carries to the script: an action code and a body. */
  datatype Message = Message(action: nat, body: seq<byte>)

  // The head's fields in received octets.

  function DataLen(b: seq<byte>): nat
    requires |b| >= HEAD_LENGTH
  {
    FromLe16(b[2], b[3])
  }

  function ActionOf(b: seq<byte>): nat
    requires |b| >= HEAD_LENGTH
  {
    FromLe16(b[4], b[5])
  }

  /** A message as it travels: a magic number nobody checks, the length with head, the action, the body. */
  datatype Packet = Packet(magic: nat, message: Message)
  {
    function Octets(): (s: seq<byte>)
      ensures |s| == HEAD_LENGTH + |message.body|
    {
      Le16(magic) + Le16(HEAD_LENGTH + |message.body|) + Le16(message.action) + message.body
    }

    predicate Fits()
    {
      message.action < 0x1_0000 && HEAD_LENGTH + |message.body| <= BUFFER_SIZE
    }
  }

  lemma Le16ReadsBack(n: nat)
    requires n < 0x1_0000
    ensures FromLe16(Le16(n)[0], Le16(n)[1]) == n
  {
  }

  /** The head of a message says its length and action, as soon as the head is there. */
  lemma HeadFields(p: Packet, b: seq<byte>)
    requires p.Fits() && HEAD_LENGTH <= |b| <= |p.Octets()| && b == p.Octets()[..|b|]
    ensures DataLen(b) == |p.Octets()| && ActionOf(b) == p.message.action
  {
    hide Le16, FromLe16;
    Le16ReadsBack(|p.Octets()|);
    Le16ReadsBack(p.message.action);
    assert forall i :: 0 <= i < HEAD_LENGTH ==> b[i] == p.Octets()[i];
  }

  lemma BodyOf(p: Packet)
    ensures p.Octets()[HEAD_LENGTH..] == p.message.body
  {
  }

  /** Where the fields stand: three little-endian 16-bit numbers, then the body. */
  lemma Layout(p: Packet)
    ensures var s := p.Octets(); var length := 6 + |p.message.body|;
            && |s| == length && s[6..] == p.message.body
            && FromLe16(s[0], s[1]) == p.magic % 0x1_0000
            && FromLe16(s[2], s[3]) == length % 0x1_0000
            && FromLe16(s[4], s[5]) == p.message.action % 0x1_0000
  {
    LowSixteen(p.magic);
    LowSixteen(6 + |p.message.body|);
    LowSixteen(p.message.action);
    hide Le16, FromLe16;
  }

  lemma LowSixteen(n: nat)
    ensures FromLe16(Le16(n)[0], Le16(n)[1]) == n % 0x1_0000
    ensures n % 256 == Le16(n)[0]
  {
    var high, low := n / 256, n % 256;
    assert n == 256 * high + low && high == 256 * (high / 256) + high % 256;
    Remainder(n, 0x1_0000, high / 256, 256 * (high % 256) + low);
  }

  /** The packet cpp_send_to_fd makes: the length goes into the magic field too. */
  function Sent(m: Message): Packet
  {
    Packet(HEAD_LENGTH + |m.body|, m)
  }

  /** cpp_send_to_fd: six octets by index, then the string. Longer lengths and codes lose their high bits. */
  method LayOut(action_code: nat, str_msg: seq<byte>) returns (str: seq<byte>)
    ensures str == Sent(Message(action_code, str_msg)).Octets()
  {
    var body_len := |str_msg| + 6;
    var myVector := new byte[6];
    myVector[0] := body_len % 256;
    myVector[1] := body_len / 256 % 256;
    myVector[2] := body_len % 256;
    myVector[3] := body_len / 256 % 256;
    myVector[4] := action_code % 256;
    myVector[5] := action_code / 256 % 256;
    str := myVector[..] + str_msg;
    assert myVector[..] == Le16(body_len) + Le16(body_len) + Le16(action_code);
  }

  const TCP_HEAD_MAGIC := 0x54CC

  /** How many sends the text takes, ten octets at a time. */
  function TensIn(n: nat): nat
  {
    (n + 9) / 10
  }

  /** The client's main loop body: the head in one send, the text ten octets at a time. */
  method SendInTens(aaa: seq<byte>) returns (sends: seq<seq<byte>>)
    ensures Flatten(sends) == Packet(0x54CC, Message(1, aaa)).Octets()
    ensures |sends| == 1 + TensIn(|aaa|) && |sends[0]| == 6
    ensures forall i :: 1 <= i < |sends| - 1 ==> |sends[i]| == 10
    ensures |sends| > 1 ==> 1 <= |sends[|sends| - 1]| <= 10
  {
    hide Le16;
    var head := Le16(TCP_HEAD_MAGIC) + Le16(|aaa| + 6) + Le16(1);
    sends := [head];
    FlattenOne(head);
    var all_size := |aaa|;
    var par := 10;
    var need := if all_size % par == 0 then all_size / par else all_size / par + 1;
    var a := 0;
    while a < need
      invariant 0 <= a <= need && |sends| == 1 + a && sends[0] == head
      invariant Flatten(sends) == head + aaa[..if a * 10 < |aaa| then a * 10 else |aaa|]
      invariant forall i :: 1 <= i < |sends| && i * 10 <= |aaa| ==> |sends[i]| == 10
      invariant forall i :: 1 <= i < |sends| ==> 1 <= |sends[i]| <= 10
    {
      var bbb := |aaa| - a * par;
      var send_size := if par < bbb then par else bbb;
      var piece := aaa[a * par..a * par + send_size];
      FlattenSnoc(sends, piece);
      sends := sends + [piece];
      a := a + 1;
    }
  }
}
