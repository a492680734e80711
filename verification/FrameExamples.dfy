/** How getFrame reads the first octet, and the frames section 5.7 of RFC 6455 gives as examples. */
module FrameExamples {
  import opened Bytes
  import opened Frame
  import opened FrameLaws

  /** FIN matters for data frames only. */
  lemma ControlIgnoresFin(b: byte, c: byte)
    requires b % 16 == c % 16 >= 8
    ensures TypeOf(b) == TypeOf(c)
  {
  }

  /** The reserved bits never matter. */
  lemma ReservedBitsIgnored(b: byte)
    ensures TypeOf(b) == TypeOf(b % 16 + 128 * (b / 128))
  {
    var opcode, fin := b % 16, b / 128;
    assert (opcode + 128 * fin) % 16 == opcode && (opcode + 128 * fin) / 128 == fin;
  }

  /** A continuation frame is read as a text frame. */
  lemma ContinuationIsText(b: byte)
    requires b % 16 == 0
    ensures TypeOf(b) == TypeOf(b + 1)
  {
  }

  lemma UnknownOpcodes(b: byte)
    ensures TypeOf(b) == ERROR_FRAME <==> 3 <= b % 16 <= 7 || b % 16 >= 11
  {
  }

  /** The octets of RFC 6455 for every type, FIN set except for the two fragments. */
  lemma StandardOctets()
    ensures TypeOf(0x81) == TEXT_FRAME && TypeOf(0x82) == BINARY_FRAME
    ensures TypeOf(0x01) == INCOMPLETE_TEXT_FRAME && TypeOf(0x02) == INCOMPLETE_BINARY_FRAME
    ensures TypeOf(0x88) == CLOSE_FRAME && TypeOf(0x89) == PING_FRAME && TypeOf(0x8A) == PONG_FRAME
  {
  }

  /** What the program prints instead for control frames: without FIN, and ping and pong with a reserved bit. */
  lemma ControlCodes()
    ensures PING_FRAME.Code() == 0x19 && PONG_FRAME.Code() == 0x1A && CLOSE_FRAME.Code() == 0x08
    ensures TypeOf(PING_FRAME.Code()) == TypeOf(0x89) && TypeOf(PONG_FRAME.Code()) == TypeOf(0x8A) && TypeOf(CLOSE_FRAME.Code()) == TypeOf(0x88)
    ensures TEXT_FRAME.Code() == 0x81 && BINARY_FRAME.Code() == 0x82
    ensures INCOMPLETE_TEXT_FRAME.Code() == 0x01 && INCOMPLETE_BINARY_FRAME.Code() == 0x02
  {
  }

  /** The printed lengths: one octet, or the marker and two or eight octets, most significant first. */
  lemma LengthOctets(n: nat)
    requires n < INT_LIMIT
    ensures var len := MinimalLength(n);
            && (n <= 125 ==> len == [n])
            && (125 < n <= 65535 ==> |len| == 3 && len[0] == 126 && 0x100 * (len[1] as nat) + (len[2] as nat) == n)
            && (n > 65535 ==>
                  && |len| == 9 && len[..5] == [127, 0, 0, 0, 0]
                  && 0x100_0000 * (len[5] as nat) + 0x1_0000 * (len[6] as nat) + 0x100 * (len[7] as nat) + (len[8] as nat) == n)
  {
    OctetsOfInt(n);
    hide OctetOf;
  }

  const HELLO: seq<byte> := [0x48, 0x65, 0x6C, 0x6C, 0x6F]
  const HELLO_KEY: seq<byte> := [0x37, 0xFA, 0x21, 0x3D]
  const HELLO_MASKED: seq<byte> := [0x7F, 0x9F, 0x4D, 0x51, 0x58]

  lemma HelloPrinted()
    ensures Printed(TEXT_FRAME, HELLO).Wire() == [0x81, 0x05] + HELLO
  {
  }

  lemma HelloMask()
    ensures Mask(HELLO, HELLO_KEY) == HELLO_MASKED
  {
    hide Xor;
    XorOctets();
    var s := Mask(HELLO, HELLO_KEY);
    assert s == [s[0], s[1], s[2], s[3], s[4]];
  }

  lemma XorOctets()
    ensures Xor(0x48, 0x37) == 0x7F && Xor(0x65, 0xFA) == 0x9F && Xor(0x6C, 0x21) == 0x4D
    ensures Xor(0x6C, 0x3D) == 0x51 && Xor(0x6F, 0x37) == 0x58
  {
    hide Xor, XorLow;
    XorBinary(0, 1, 0, 0, 1, 0, 0, 0, 0, 0, 1, 1, 0, 1, 1, 1);
    XorIsLow(0x48, 0x37);
    XorBinary(0, 1, 1, 0, 0, 1, 0, 1, 1, 1, 1, 1, 1, 0, 1, 0);
    XorIsLow(0x65, 0xFA);
    XorBinary(0, 1, 1, 0, 1, 1, 0, 0, 0, 0, 1, 0, 0, 0, 0, 1);
    XorIsLow(0x6C, 0x21);
    XorBinary(0, 1, 1, 0, 1, 1, 0, 0, 0, 0, 1, 1, 1, 1, 0, 1);
    XorIsLow(0x6C, 0x3D);
    XorBinary(0, 1, 1, 0, 1, 1, 1, 1, 0, 0, 1, 1, 0, 1, 1, 1);
    XorIsLow(0x6F, 0x37);
  }

  lemma XorIsLow(a: byte, b: byte)
    ensures Xor(a, b) == XorLow(a, b, 8)
  {
  }

  /** A binary digit in front of the lower end of a number. */
  function Cons(bit: nat, rest: nat): nat
  {
    bit + 2 * rest
  }

  /** An octet from its binary digits. */
  function Binary(a7: nat, a6: nat, a5: nat, a4: nat, a3: nat, a2: nat, a1: nat, a0: nat): nat
  {
    Cons(a0, Cons(a1, Cons(a2, Cons(a3, Cons(a4, Cons(a5, Cons(a6, Cons(a7, 0))))))))
  }

  function Either(a: nat, b: nat): nat
  {
    if a == b then 0 else 1
  }

  lemma XorCons(a: nat, b: nat, x: nat, y: nat, bits: nat)
    requires a < 2 && b < 2
    ensures XorLow(Cons(a, x), Cons(b, y), bits + 1) == Cons(Either(a, b), XorLow(x, y, bits))
    ensures XorLow(x, y, 0) == 0
  {
    var p, q := Cons(a, x), Cons(b, y);
    DigitSum(a, b, x + y);
    assert p + q == a + b + 2 * (x + y);
    assert p / 2 == x && q / 2 == y;
  }

  lemma DigitSum(a: nat, b: nat, z: nat)
    requires a < 2 && b < 2
    ensures (a + b + 2 * z) % 2 == Either(a, b)
  {
  }

  lemma XorBinary(a7: nat, a6: nat, a5: nat, a4: nat, a3: nat, a2: nat, a1: nat, a0: nat,
                  b7: nat, b6: nat, b5: nat, b4: nat, b3: nat, b2: nat, b1: nat, b0: nat)
    requires a0 < 2 && a1 < 2 && a2 < 2 && a3 < 2 && a4 < 2 && a5 < 2 && a6 < 2 && a7 < 2
    requires b0 < 2 && b1 < 2 && b2 < 2 && b3 < 2 && b4 < 2 && b5 < 2 && b6 < 2 && b7 < 2
    ensures XorLow(Binary(a7, a6, a5, a4, a3, a2, a1, a0), Binary(b7, b6, b5, b4, b3, b2, b1, b0), 8) ==
            Binary(Either(a7, b7), Either(a6, b6), Either(a5, b5), Either(a4, b4), Either(a3, b3), Either(a2, b2), Either(a1, b1), Either(a0, b0))
  {
    hide XorLow, Either, Cons;
    XorCons(a7, b7, 0, 0, 0);
    XorCons(a6, b6, Cons(a7, 0), Cons(b7, 0), 1);
    XorCons(a5, b5, Cons(a6, Cons(a7, 0)), Cons(b6, Cons(b7, 0)), 2);
    XorCons(a4, b4, Cons(a5, Cons(a6, Cons(a7, 0))), Cons(b5, Cons(b6, Cons(b7, 0))), 3);
    XorCons(a3, b3, Cons(a4, Cons(a5, Cons(a6, Cons(a7, 0)))), Cons(b4, Cons(b5, Cons(b6, Cons(b7, 0)))), 4);
    XorCons(a2, b2, Cons(a3, Cons(a4, Cons(a5, Cons(a6, Cons(a7, 0))))), Cons(b3, Cons(b4, Cons(b5, Cons(b6, Cons(b7, 0))))), 5);
    XorCons(a1, b1, Cons(a2, Cons(a3, Cons(a4, Cons(a5, Cons(a6, Cons(a7, 0)))))), Cons(b2, Cons(b3, Cons(b4, Cons(b5, Cons(b6, Cons(b7, 0)))))), 6);
    XorCons(a0, b0, Cons(a1, Cons(a2, Cons(a3, Cons(a4, Cons(a5, Cons(a6, Cons(a7, 0))))))), Cons(b1, Cons(b2, Cons(b3, Cons(b4, Cons(b5, Cons(b6, Cons(b7, 0))))))), 7);
  }

  /** A single-frame masked text message and a masked pong, as the RFC prints them. */
  lemma HelloRead(first: byte, n: nat)
    requires n == 11
    ensures var buf := [first, 0x85] + HELLO_KEY + HELLO_MASKED;
            && Readable(buf, n)
            && Parse(buf, n) == Complete(TypeOf(first), HELLO, 6, [first, 0x85] + HELLO_KEY + HELLO)
  {
    hide Mask, TypeOf;
    HelloMask();
    var f := Frame(first, [0x85], HELLO_KEY, HELLO);
    assert f.Wire() == [first, 0x85] + HELLO_KEY + HELLO_MASKED;
    assert f.Wire() + [] == f.Wire();
    ParseWhole(f, [], 11);
    assert f.Head() + HELLO + [] == [first, 0x85] + HELLO_KEY + HELLO;
  }
}
