/** The streaming hash object: a 64-octet block buffer and a split 64-bit length counter. */
module Sha1 {
  import opened Bytes
  import opened Sha1Spec

  const WORD_SIZE := 0x1_0000_0000
  /** The first message length, in octets, that the 64-bit bit counter cannot hold. */
  const LENGTH_LIMIT := 0x2000_0000_0000_0000

  type counter = x: int | 0 <= x < WORD_SIZE

  function CircularShift(bits: nat, w: word): word
    requires 1 <= bits <= 31
  {
    (w << bits) | (w >> (32 - bits))
  }

  /** The shift amounts the algorithm uses: shift-and-or is a rotation. */
  lemma CircularShiftRotates(w: word)
    ensures CircularShift(1, w) == RotL(1, w)
    ensures CircularShift(5, w) == RotL(5, w)
    ensures CircularShift(30, w) == RotL(30, w)
  {
  }

  // The loop bodies' word arithmetic, one function for each of the loops.

  function Expand(w3: word, w8: word, w14: word, w16: word): word
  {
    CircularShift(1, w3 ^ w8 ^ w14 ^ w16)
  }

  function Temp0(A: word, B: word, C: word, D: word, E: word, w: word): word
  {
    Plus(Plus(Plus(Plus(CircularShift(5, A), (B & C) | ((!B) & D)), E), w), 0x5A827999)
  }

  function Temp1(A: word, B: word, C: word, D: word, E: word, w: word): word
  {
    Plus(Plus(Plus(Plus(CircularShift(5, A), B ^ C ^ D), E), w), 0x6ED9EBA1)
  }

  function Temp2(A: word, B: word, C: word, D: word, E: word, w: word): word
  {
    Plus(Plus(Plus(Plus(CircularShift(5, A), (B & C) | (B & D) | (C & D)), E), w), 0x8F1BBCDC)
  }

  function Temp3(A: word, B: word, C: word, D: word, E: word, w: word): word
  {
    Plus(Plus(Plus(Plus(CircularShift(5, A), B ^ C ^ D), E), w), 0xCA62C1D6)
  }

  /** Each of the four loop bodies is step d of section 7 in its own range of t. */
  lemma LoopBodyIsStep(t: nat, s: State, w: word)
    ensures t < 20 ==> State(Temp0(s.a, s.b, s.c, s.d, s.e, w), s.a, CircularShift(30, s.b), s.c, s.d) == Step(t, s, w)
    ensures 20 <= t < 40 ==> State(Temp1(s.a, s.b, s.c, s.d, s.e, w), s.a, CircularShift(30, s.b), s.c, s.d) == Step(t, s, w)
    ensures 40 <= t < 60 ==> State(Temp2(s.a, s.b, s.c, s.d, s.e, w), s.a, CircularShift(30, s.b), s.c, s.d) == Step(t, s, w)
    ensures 60 <= t < 80 ==> State(Temp3(s.a, s.b, s.c, s.d, s.e, w), s.a, CircularShift(30, s.b), s.c, s.d) == Step(t, s, w)
  {
    hide CircularShift, RotL, Plus;
    CircularShiftRotates(s.a);
    CircularShiftRotates(s.b);
  }

  lemma ExpandIsSchedule(block: seq<byte>, t: nat)
    requires |block| == 64 && 16 <= t < 80
    ensures Expand(Schedule(block, t - 3), Schedule(block, t - 8), Schedule(block, t - 14), Schedule(block, t - 16)) == Schedule(block, t)
  {
    hide CircularShift, RotL;
    CircularShiftRotates(Schedule(block, t - 3) ^ Schedule(block, t - 8) ^ Schedule(block, t - 14) ^ Schedule(block, t - 16));
  }

  lemma FirstWords(block: seq<byte>, t: nat)
    requires |block| == 64 && t < 16
    ensures Schedule(block, t) == BigEndianWord(block[4 * t], block[4 * t + 1], block[4 * t + 2], block[4 * t + 3])
  {
  }

  lemma HashBlocksSnoc(bytes: seq<byte>, block: seq<byte>)
    requires |bytes| % 64 == 0 && |block| == 64
    ensures HashBlocks(bytes + block) == Compress(HashBlocks(bytes), block)
  {
    assert (bytes + block)[..|bytes|] == bytes;
    assert (bytes + block)[|bytes|..] == block;
  }

  function Words(s: State): (ws: seq<word>)
    ensures |ws| == 5
  {
    [s.a, s.b, s.c, s.d, s.e]
  }

  /** The counter's two halves are the two-word representation of the bit count. */
  lemma LengthOctets(high: counter, low: counter)
    ensures BigEndian64(WORD_SIZE * high + low) == BigEndian32(high) + BigEndian32(low)
  {
    hide BigEndian32;
    assert (WORD_SIZE * high + low) / WORD_SIZE == high;
    assert (WORD_SIZE * high + low) % WORD_SIZE == low;
  }

  /** How many zeros each branch of PadMessage owes, given the index the message left behind. */
  lemma ZerosOwed(whole: nat, index: nat)
    requires whole % 64 == 0 && index < 64
    ensures ZeroCount(whole + index) == if index > 55 then 63 - index + 56 else 55 - index
  {
    assert (whole + index) % 64 == index;
  }

  class SHA1 {
    const H: array<word>
    var Length_Low: counter
    var Length_High: counter
    const Message_Block: array<byte>
    var Message_Block_Index: nat
    var Computed: bool
    var Corrupted: bool

    /** Every octet accepted since the last reset. */
    ghost var input: seq<byte>
    /** Every block compressed since the last reset, end to end. */
    ghost var compressed: seq<byte>

    ghost predicate Shape()
      reads this
    {
      H.Length == 5 && Message_Block.Length == 64
    }

    ghost function HashState(): State
      requires Shape()
      reads this, H
    {
      State(H[0], H[1], H[2], H[3], H[4])
    }

    /** What is compressed has been hashed; what is accepted is compressed or waits in the block. */
    ghost predicate Holds()
      requires Shape()
      reads this, H, Message_Block
    {
      && Message_Block_Index <= 64
      && |compressed| % 64 == 0
      && HashState() == HashBlocks(compressed)
      && compressed + Message_Block[..Message_Block_Index] == input
    }

    /** Between calls: the block has room, and the counter has kept count. */
    ghost predicate Tracks()
      requires Shape()
      reads this, H, Message_Block
    {
      && Holds()
      && Message_Block_Index < 64
      && |input| < LENGTH_LIMIT
      && BitCount() == 8 * |input|
    }

    ghost predicate Finished()
      requires Shape()
      reads this, H
    {
      && Message_Block_Index == 0
      && compressed == Pad(input)
      && HashState() == DigestOf(input)
    }

    ghost predicate Valid()
      reads this, H, Message_Block
    {
      && Shape()
      && Message_Block_Index < 64
      && (!Corrupted && !Computed ==> Tracks())
      && (!Corrupted && Computed ==> Finished())
    }

    constructor ()
      ensures Valid() && fresh(H) && fresh(Message_Block)
      ensures !Computed && !Corrupted && input == []
    {
      H := new word[5];
      Message_Block := new byte[64];
      Length_Low, Length_High, Message_Block_Index, Computed, Corrupted := 0, 0, 0, false, false;
      input, compressed := [], [];
      new;
      Reset();
    }

    method Reset()
      requires Shape()
      modifies this, H
      ensures Valid() && !Computed && !Corrupted && input == []
    {
      Length_Low, Length_High, Message_Block_Index := 0, 0, 0;
      H[0] := 0x67452301;
      H[1] := 0xEFCDAB89;
      H[2] := 0x98BADCFE;
      H[3] := 0x10325476;
      H[4] := 0xC3D2E1F0;
      Computed, Corrupted := false, false;
      input, compressed := [], [];
    }

    /** The word sequence of the block (first two loops of ProcessMessageBlock). */
    method ExpandBlock() returns (W: array<word>)
      requires Shape()
      ensures fresh(W) && W.Length == 80
      ensures forall i :: 0 <= i < 80 ==> W[i] == Schedule(Message_Block[..], i)
    {
      hide Schedule, BigEndianWord, Expand;
      ghost var block := Message_Block[..];
      W := new word[80];
      var t := 0;
      while t < 16
        invariant 0 <= t <= 16
        invariant forall i :: 0 <= i < t ==> W[i] == Schedule(block, i)
      {
        FirstWords(block, t);
        W[t] := BigEndianWord(Message_Block[t * 4], Message_Block[t * 4 + 1], Message_Block[t * 4 + 2], Message_Block[t * 4 + 3]);
        t := t + 1;
      }
      while t < 80
        invariant 16 <= t <= 80
        invariant forall i :: 0 <= i < t ==> W[i] == Schedule(block, i)
      {
        ExpandIsSchedule(block, t);
        W[t] := Expand(W[t - 3], W[t - 8], W[t - 14], W[t - 16]);
        t := t + 1;
      }
    }

    /** The eighty rounds, in the four loops of ProcessMessageBlock. */
    static method RunRounds(W: array<word>, h: State, ghost block: seq<byte>) returns (A: word, B: word, C: word, D: word, E: word)
      requires W.Length == 80 && |block| == 64
      requires forall i :: 0 <= i < 80 ==> W[i] == Schedule(block, i)
      ensures State(A, B, C, D, E) == Rounds(block, h, 80)
    {
      hide CircularShift, Temp0, Temp1, Temp2, Temp3, Step, Schedule;
      A, B, C, D, E := h.a, h.b, h.c, h.d, h.e;
      var t := 0;
      while t < 20
        invariant 0 <= t <= 20
        invariant State(A, B, C, D, E) == Rounds(block, h, t)
      {
        LoopBodyIsStep(t, State(A, B, C, D, E), W[t]);
        var temp := Temp0(A, B, C, D, E, W[t]);
        A, B, C, D, E := temp, A, CircularShift(30, B), C, D;
        t := t + 1;
      }
      while t < 40
        invariant 20 <= t <= 40
        invariant State(A, B, C, D, E) == Rounds(block, h, t)
      {
        LoopBodyIsStep(t, State(A, B, C, D, E), W[t]);
        var temp := Temp1(A, B, C, D, E, W[t]);
        A, B, C, D, E := temp, A, CircularShift(30, B), C, D;
        t := t + 1;
      }
      while t < 60
        invariant 40 <= t <= 60
        invariant State(A, B, C, D, E) == Rounds(block, h, t)
      {
        LoopBodyIsStep(t, State(A, B, C, D, E), W[t]);
        var temp := Temp2(A, B, C, D, E, W[t]);
        A, B, C, D, E := temp, A, CircularShift(30, B), C, D;
        t := t + 1;
      }
      while t < 80
        invariant 60 <= t <= 80
        invariant State(A, B, C, D, E) == Rounds(block, h, t)
      {
        LoopBodyIsStep(t, State(A, B, C, D, E), W[t]);
        var temp := Temp3(A, B, C, D, E, W[t]);
        A, B, C, D, E := temp, A, CircularShift(30, B), C, D;
        t := t + 1;
      }
    }

    /** H becomes the FIPS compression of the block under the old H. */
    method ProcessMessageBlock()
      requires Shape()
      modifies this`Message_Block_Index, this`compressed, H
      ensures Message_Block_Index == 0
      ensures compressed == old(compressed + Message_Block[..])
      ensures HashState() == Compress(old(HashState()), old(Message_Block[..]))
    {
      hide Schedule, Rounds, Plus;
      ghost var block := Message_Block[..];
      var W := ExpandBlock();
      var A, B, C, D, E := RunRounds(W, State(H[0], H[1], H[2], H[3], H[4]), block);
      H[0], H[1], H[2], H[3], H[4] := Plus(H[0], A), Plus(H[1], B), Plus(H[2], C), Plus(H[3], D), Plus(H[4], E);
      Message_Block_Index := 0;
      compressed := compressed + block;
    }

    /** The bit count the two halves hold. */
    ghost function BitCount(): nat
      reads this
    {
      WORD_SIZE * Length_High + Length_Low
    }

    /** Counts eight more bits; a counter that comes round to zero marks the digest corrupted. */
    method CountOctet()
      requires Length_Low % 8 == 0
      modifies this`Length_Low, this`Length_High, this`Corrupted
      ensures Corrupted == (old(Corrupted) || old(BitCount()) + 8 == WORD_SIZE * WORD_SIZE)
      ensures old(BitCount()) + 8 < WORD_SIZE * WORD_SIZE ==> BitCount() == old(BitCount()) + 8
    {
      Length_Low := (Length_Low + 8) % WORD_SIZE;
      if Length_Low == 0 {
        Length_High := (Length_High + 1) % WORD_SIZE;
        if Length_High == 0 {
          Corrupted := true;
        }
      }
    }

    method Input(message_array: seq<byte>)
      requires Valid() && |message_array| < WORD_SIZE
      modifies this, H, Message_Block
      ensures Valid()
      ensures Corrupted == (old(Corrupted) || (message_array != [] && (old(Computed) || |old(input)| + |message_array| >= LENGTH_LIMIT)))
      ensures Computed == old(Computed)
      ensures !Corrupted ==> input == old(input) + message_array
    {
      hide HashBlocks, Compress, Pad, DigestOf;
      if |message_array| == 0 {
        return;
      }
      if Computed || Corrupted {
        Corrupted := true;
        return;
      }
      ghost var before := input;
      var i := 0;
      while i < |message_array| && !Corrupted
        invariant 0 <= i <= |message_array| && Shape() && !Computed
        invariant Message_Block_Index < 64 && !old(Computed)
        invariant !Corrupted ==> Tracks() && input == before + message_array[..i]
        invariant Corrupted ==> |before| + i >= LENGTH_LIMIT
      {
        assert message_array[..i + 1] == message_array[..i] + [message_array[i]];
        AcceptOctet(message_array[i]);
        i := i + 1;
      }
      assert message_array[..|message_array|] == message_array;
    }

    /** The body of Input's loop. */
    method AcceptOctet(octet: byte)
      requires Shape() && Tracks() && !Corrupted && !Computed
      modifies this, H, Message_Block
      ensures Shape() && !Computed && Message_Block_Index < 64
      ensures Corrupted == (|old(input)| + 1 >= LENGTH_LIMIT)
      ensures !Corrupted ==> Tracks()
      ensures input == old(input) + [octet]
    {
      hide HashBlocks, Compress;
      StoreOctet(octet);
      CountOctet();
      FlushIfFull();
    }

    method PutOctet(octet: byte)
      requires Shape() && Message_Block_Index < 64
      modifies this`Message_Block_Index, Message_Block
      ensures Message_Block_Index == old(Message_Block_Index) + 1
      ensures Message_Block[..Message_Block_Index] == old(Message_Block[..Message_Block_Index]) + [octet]
    {
      Message_Block[Message_Block_Index] := octet;
      Message_Block_Index := Message_Block_Index + 1;
    }

    method StoreOctet(octet: byte)
      requires Shape() && Holds() && Message_Block_Index < 64
      modifies this`Message_Block_Index, this`input, Message_Block
      ensures Holds() && input == old(input) + [octet]
    {
      hide HashBlocks;
      PutOctet(octet);
      input := input + [octet];
    }

    method FlushIfFull()
      requires Shape() && Holds()
      modifies this`Message_Block_Index, this`compressed, H
      ensures Holds() && Message_Block_Index < 64
    {
      hide HashBlocks, Compress;
      if Message_Block_Index == 64 {
        assert Message_Block[..64] == Message_Block[..];
        HashBlocksSnoc(compressed, Message_Block[..]);
        ProcessMessageBlock();
        assert compressed + Message_Block[..0] == compressed;
      }
    }

    /** The zero-filling loop PadMessage runs in three places. */
    method ZeroFill(limit: nat)
      requires Shape() && Message_Block_Index <= limit <= 64
      modifies this`Message_Block_Index, Message_Block
      ensures Message_Block_Index == limit
      ensures Message_Block[..limit] == old(Message_Block[..Message_Block_Index]) + Repeat(0, limit - old(Message_Block_Index))
    {
      ghost var start, filled := Message_Block_Index, Message_Block[..Message_Block_Index];
      while Message_Block_Index < limit
        invariant start <= Message_Block_Index <= limit
        invariant Message_Block[..start] == filled
        invariant forall i :: start <= i < Message_Block_Index ==> Message_Block[i] == 0
      {
        Message_Block[Message_Block_Index] := 0;
        Message_Block_Index := Message_Block_Index + 1;
      }
      assert Message_Block[..limit] == filled + Message_Block[start..limit];
    }

    /** The counter goes into the last eight octets of the block. */
    method StoreLength()
      requires Shape()
      modifies Message_Block
      ensures Message_Block[..56] == old(Message_Block[..56])
      ensures Message_Block[56..] == BigEndian64(BitCount())
    {
      Message_Block[56] := Length_High / 0x100_0000 % 256;
      Message_Block[57] := Length_High / 0x1_0000 % 256;
      Message_Block[58] := Length_High / 0x100 % 256;
      Message_Block[59] := Length_High % 256;
      Message_Block[60] := Length_Low / 0x100_0000 % 256;
      Message_Block[61] := Length_Low / 0x1_0000 % 256;
      Message_Block[62] := Length_Low / 0x100 % 256;
      Message_Block[63] := Length_Low % 256;
      assert Message_Block[56..60] == BigEndian32(Length_High);
      assert Message_Block[60..64] == BigEndian32(Length_Low);
      assert Message_Block[56..] == Message_Block[56..60] + Message_Block[60..64];
      LengthOctets(Length_High, Length_Low);
    }

    /** The two branches of PadMessage: the 0x80 octet and the zeros, over one block or two. */
    method PadToLength()
      requires Shape() && Tracks()
      modifies this`Message_Block_Index, this`compressed, H, Message_Block
      ensures |compressed| % 64 == 0 && HashState() == HashBlocks(compressed)
      ensures compressed + Message_Block[..56] == input + [0x80] + Repeat(0, ZeroCount(|input|))
    {
      hide HashBlocks, Compress, Repeat, ZeroCount;
      ghost var index, head := Message_Block_Index, compressed;
      assert |input| == |head| + index;
      ZerosOwed(|head|, index);
      if Message_Block_Index > 55 {
        PutOctet(0x80);
        assert head + Message_Block[..Message_Block_Index] == input + [0x80];
        ZeroFill(64);
        assert Message_Block[..64] == Message_Block[..];
        HashBlocksSnoc(compressed, Message_Block[..]);
        ProcessMessageBlock();
        assert compressed == input + [0x80] + Repeat(0, 63 - index);
        ZeroFill(56);
        assert Message_Block[..56] == Repeat(0, 56);
      } else {
        PutOctet(0x80);
        assert head + Message_Block[..Message_Block_Index] == input + [0x80];
        ZeroFill(56);
      }
    }

    /** Through either branch, what has been compressed is the padded message. */
    method PadMessage()
      requires Shape() && Tracks()
      modifies this`Message_Block_Index, this`compressed, H, Message_Block
      ensures Shape() && Finished()
    {
      hide HashBlocks, Compress, BigEndian64, Repeat;
      PadToLength();
      StoreLength();
      assert Message_Block[..] == Message_Block[..56] + Message_Block[56..];
      assert compressed + Message_Block[..] == Pad(input);
      HashBlocksSnoc(compressed, Message_Block[..]);
      ProcessMessageBlock();
    }

    /** The FIPS PUB 180-1 digest of everything accepted, as often as it is asked for. */
    method Result(message_digest_array: array<word>) returns (ok: bool)
      requires Valid() && message_digest_array.Length == 5 && message_digest_array != H
      modifies this, H, Message_Block, message_digest_array
      ensures Valid() && ok == !Corrupted && Corrupted == old(Corrupted) && input == old(input)
      ensures ok ==> Computed && message_digest_array[..] == Words(DigestOf(input))
      ensures !ok ==> message_digest_array[..] == old(message_digest_array[..])
    {
      hide HashBlocks, Pad;
      if Corrupted {
        return false;
      }
      if !Computed {
        PadMessage();
        Computed := true;
      }
      var i := 0;
      while i < 5
        invariant 0 <= i <= 5
        invariant message_digest_array[..i] == H[..i]
        modifies message_digest_array
      {
        message_digest_array[i] := H[i];
        i := i + 1;
      }
      assert message_digest_array[..] == message_digest_array[..5] == H[..5] == Words(HashState());
      return true;
    }
  }

  /** However a message below the length limit is cut into calls, the digest is that of the whole. */
  method HashInPieces(pieces: seq<seq<byte>>) returns (ok: bool, digest: seq<word>)
    requires forall i :: 0 <= i < |pieces| ==> |pieces[i]| < WORD_SIZE
    ensures ok == (|Flatten(pieces)| < 0x2000_0000_0000_0000)
    ensures ok ==> digest == Words(DigestOf(Flatten(pieces)))
  {
    hide HashBlocks, Pad;
    var sha := new SHA1();
    var i := 0;
    while i < |pieces|
      invariant 0 <= i <= |pieces|
      invariant sha.Valid() && fresh(sha) && fresh(sha.H) && fresh(sha.Message_Block) && !sha.Computed
      invariant sha.Corrupted == (|Flatten(pieces[..i])| >= LENGTH_LIMIT)
      invariant !sha.Corrupted ==> sha.input == Flatten(pieces[..i])
    {
      assert pieces[..i + 1] == pieces[..i] + [pieces[i]];
      FlattenSnoc(pieces[..i], pieces[i]);
      sha.Input(pieces[i]);
      i := i + 1;
    }
    assert pieces[..i] == pieces;
    var words := new word[5];
    ok := sha.Result(words);
    digest := words[..];
  }
}
