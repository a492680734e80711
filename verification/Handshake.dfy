/** The accept header of the WebSocket opening handshake (section 4.2.2 of RFC 6455). */
module Handshake {
  import opened Bytes
  import opened Sha1Spec
  import Sha1
  import Base64

  const GUID := "258EAFA5-E914-47DA-95CA-C5AB0DC85B11"

  /** A C++ string: one octet a character. */
  predicate IsOctetString(s: string)
  {
    forall k :: 0 <= k < |s| ==> s[k] as int < 256
  }

  function OctetsOf(s: string): (b: seq<byte>)
    requires IsOctetString(s)
    ensures |b| == |s|
  {
    seq(|s|, k requires 0 <= k < |s| => s[k] as int)
  }

  function LowOctet(w: word): byte
  {
    (w & 0xFF) as bv8 as int
  }

  /** How a little-endian host lays a word out in memory. */
  function HostImage(w: word): (s: seq<byte>)
    ensures |s| == 4
  {
    [LowOctet(w), LowOctet(w >> 8), LowOctet(w >> 16), LowOctet(w >> 24)]
  }

  /** A word most significant octet first, as FIPS PUB 180-1 writes the digest. */
  function BigEndianImage(w: word): (s: seq<byte>)
    ensures |s| == 4
  {
    [LowOctet(w >> 24), LowOctet(w >> 16), LowOctet(w >> 8), LowOctet(w)]
  }

  /** The big-endian image read back as FIPS PUB 180-1 reads a block is the word. */
  lemma BigEndianImageReadsBack(w: word)
    ensures var s := BigEndianImage(w); BigEndianWord(s[0], s[1], s[2], s[3]) == w
  {
    LowOctetBits(w);
    LowOctetBits(w >> 8);
    LowOctetBits(w >> 16);
    LowOctetBits(w >> 24);
    Reassemble(w);
  }

  lemma OctetOfBits(z: bv8)
    ensures (z as int) as bv8 == z
  {
  }

  lemma LowOctetBits(w: word)
    ensures LowOctet(w) as bv32 == w & 0xFF
  {
    var b := (w & 0xFF) as bv8;
    OctetOfBits(b);
  }

  lemma Reassemble(w: word)
    ensures (((w >> 24) & 0xFF) << 24) | (((w >> 16) & 0xFF) << 16) | (((w >> 8) & 0xFF) << 8) | (w & 0xFF) == w
  {
  }

  /** The twenty octets of five words, most significant or least significant octet first. */
  function Laid(words: seq<word>, bigEndian: bool): (s: seq<byte>)
    requires |words| == 5
    ensures |s| == 20
  {
    seq(20, k requires 0 <= k < 20 =>
      if bigEndian then BigEndianImage(words[k / 4])[k % 4] else HostImage(words[k / 4])[k % 4])
  }

  /** The 160-bit digest of FIPS PUB 180-1 as octets. */
  function DigestOctets(m: seq<byte>): (s: seq<byte>)
    ensures |s| == 20
  {
    Laid(Sha1.Words(DigestOf(m)), true)
  }

  /** The digest of the key followed by the fixed identifier. */
  function KeyDigest(key: string): (s: seq<byte>)
    requires IsOctetString(key)
    ensures |s| == 20
  {
    GuidOctets();
    DigestOctets(OctetsOf(key + GUID))
  }

  /** Section 4.2.2, step 5.4: the Sec-WebSocket-Accept value for a Sec-WebSocket-Key value. */
  function AcceptKey(key: string): string
    requires IsOctetString(key)
  {
    Base64.Encoded(KeyDigest(key))
  }

  /** Octet `j` of a word in one order is octet `3 - j` in the other. */
  lemma Mirror(words: seq<word>, g: nat, j: nat)
    requires |words| == 5 && g < 5 && j < 4
    ensures Laid(words, true)[4 * g + j] == Laid(words, false)[4 * g + 3 - j]
  {
    hide LowOctet;
    var k, m := 4 * g + j, 4 * g + 3 - j;
    assert k / 4 == g && k % 4 == j;
    assert m / 4 == g && m % 4 == 3 - j;
  }

  /** Swapping the ends and the middle of each group of four turns host words into big-endian ones. */
  method LittleToBigEndian(digest: array<byte>, ghost words: seq<word>)
    requires digest.Length == 20 && |words| == 5 && digest[..] == Laid(words, false)
    modifies digest
    ensures digest[..] == Laid(words, true)
  {
    hide Laid;
    var i := 0;
    ghost var g := 0;
    while i < 20
      invariant 0 <= i <= 20 && i == 4 * g
      invariant forall k :: 0 <= k < i ==> digest[k] == Laid(words, true)[k]
      invariant forall k :: i <= k < 20 ==> digest[k] == Laid(words, false)[k]
    {
      Mirror(words, g, 0);
      Mirror(words, g, 1);
      Mirror(words, g, 2);
      Mirror(words, g, 3);
      var c := digest[i];
      digest[i] := digest[i + 3];
      digest[i + 3] := c;
      c := digest[i + 1];
      digest[i + 1] := digest[i + 2];
      digest[i + 2] := c;
      i := i + 4;
      g := g + 1;
    }
  }

  /** The cast of the digest array to an array of words, on a little-endian host. */
  method StoreWords(words: seq<word>) returns (digest: array<byte>)
    requires |words| == 5
    ensures fresh(digest) && digest[..] == Laid(words, false)
  {
    hide Laid;
    var image := Laid(words, false);
    digest := new byte[20](k requires 0 <= k < 20 => image[k]);
  }

  /** One Input and one Result on a new hash object. */
  method Hash(message: seq<byte>) returns (words: seq<word>)
    requires |message| < Sha1.WORD_SIZE
    ensures words == Sha1.Words(DigestOf(message))
  {
    hide DigestOf;
    var sha := new Sha1.SHA1();
    sha.Input(message);
    var digest := new word[5];
    var ok := sha.Result(digest);
    words := digest[..];
    assert [] + message == message;
  }

  /** The accept value of a non-empty key, as answerHandshake computes it. */
  method Accept(key: string) returns (accept_key: string)
    requires IsOctetString(key) && |key| + |GUID| < Sha1.WORD_SIZE
    ensures accept_key == AcceptKey(key)
  {
    hide Laid, DigestOf, Base64.Encoded, OctetsOf;
    accept_key := key + GUID;
    GuidOctets();
    var words := Hash(OctetsOf(accept_key));
    var digest := StoreWords(words);
    LittleToBigEndian(digest, words);
    accept_key := Base64.Base64Encode(digest[..]);
  }

  lemma GuidOctets()
    ensures |GUID| == 36 && IsOctetString(GUID)
  {
  }

  class WebSocket {
    var key: string
    var protocol: string

    /** The 101 response, with the accept header exactly when the request carried a key. */
    method AnswerHandshake() returns (answer: string)
      requires IsOctetString(key) && |key| + |GUID| < Sha1.WORD_SIZE
      ensures answer == "HTTP/1.1 101 Switching Protocols\r\n" + "Upgrade: WebSocket\r\n" + "Connection: Upgrade\r\n"
                        + (if key == "" then "" else "Sec-WebSocket-Accept: " + AcceptKey(key) + "\r\n")
                        + (if protocol == "" then "" else "Sec-WebSocket-Protocol: " + protocol + "\r\n")
                        + "\r\n"
    {
      hide AcceptKey;
      answer := "HTTP/1.1 101 Switching Protocols\r\n";
      answer := answer + "Upgrade: WebSocket\r\n";
      answer := answer + "Connection: Upgrade\r\n";
      if |key| > 0 {
        var accept_key := Accept(key);
        answer := answer + ("Sec-WebSocket-Accept: " + accept_key + "\r\n");
      }
      if |protocol| > 0 {
        answer := answer + ("Sec-WebSocket-Protocol: " + protocol + "\r\n");
      }
      answer := answer + "\r\n";
    }
  }

  /** The accept value is 28 characters ending in exactly one '=', and decodes to the digest. */
  lemma AcceptKeyShape(key: string)
    requires IsOctetString(key)
    ensures |AcceptKey(key)| == 28
    ensures Base64.Leading(AcceptKey(key)) + "=" == AcceptKey(key)
    ensures Base64.Decoding(AcceptKey(key)) == KeyDigest(key)
  {
    hide KeyDigest, Base64.Encoded, Base64.Leading, Base64.Decoding;
    Base64.DecodeEncode(KeyDigest(key));
    Base64.EncodedPadding(KeyDigest(key));
  }
}
