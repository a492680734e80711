/** The sample opening handshake of section 1.3 of RFC 6455. */
module HandshakeExample {
  import opened Bytes
  import opened Sha1Spec
  import opened Sha1Examples
  import opened Handshake
  import Sha1
  import Base64

  const KEY := "dGhlIHNhbXBsZSBub25jZQ=="

  lemma OctetsJoin(a: string, b: string)
    requires IsOctetString(a) && IsOctetString(b)
    ensures IsOctetString(a + b) && OctetsOf(a + b) == OctetsOf(a) + OctetsOf(b)
  {
  }

  lemma StartOctets(s: string)
    requires s == "dGhlIHNhbXBsZSBub25j"
    ensures IsOctetString(s) && OctetsOf(s) == SampleStart()
  {
  }

  lemma MiddleOctets(s: string)
    requires s == "ZQ==258EAFA5-E914-47"
    ensures IsOctetString(s) && OctetsOf(s) == SampleMiddle()
  {
  }

  lemma EndOctets(s: string)
    requires s == "DA-95CA-C5AB0DC85B11"
    ensures IsOctetString(s) && OctetsOf(s) == SampleEnd()
  {
  }

  lemma Parts()
    ensures KEY + GUID == "dGhlIHNhbXBsZSBub25j" + "ZQ==258EAFA5-E914-47" + "DA-95CA-C5AB0DC85B11"
  {
  }

  lemma SampleOctets()
    ensures IsOctetString(KEY + GUID) && OctetsOf(KEY + GUID) == SampleText()
  {
    hide OctetsOf, IsOctetString, SampleStart, SampleMiddle, SampleEnd;
    var a, b, c := "dGhlIHNhbXBsZSBub25j", "ZQ==258EAFA5-E914-47", "DA-95CA-C5AB0DC85B11";
    StartOctets(a);
    MiddleOctets(b);
    EndOctets(c);
    OctetsJoin(a, b);
    OctetsJoin(a + b, c);
    Parts();
  }

  function DigestSample(): (s: seq<byte>)
    ensures |s| == 20
  {
    [0xB3, 0x7A, 0x4F, 0x2C, 0xC0, 0x62, 0x4F, 0x16, 0x90, 0xF6, 0x46, 0x06, 0xCF, 0x38, 0x59, 0x45, 0xB2, 0xBE, 0xC4, 0xEA]
  }

  lemma Images()
    ensures BigEndianImage(0xB37A4F2C) == [0xB3, 0x7A, 0x4F, 0x2C]
    ensures BigEndianImage(0xC0624F16) == [0xC0, 0x62, 0x4F, 0x16]
    ensures BigEndianImage(0x90F64606) == [0x90, 0xF6, 0x46, 0x06]
    ensures BigEndianImage(0xCF385945) == [0xCF, 0x38, 0x59, 0x45]
    ensures BigEndianImage(0xB2BEC4EA) == [0xB2, 0xBE, 0xC4, 0xEA]
  {
  }

  lemma SampleLaid(words: seq<word>)
    requires words == Sha1.Words(State(0xB37A4F2C, 0xC0624F16, 0x90F64606, 0xCF385945, 0xB2BEC4EA))
    ensures Laid(words, true) == DigestSample()
  {
    hide LowOctet, BigEndianImage;
    Images();
  }

  lemma QuadOf(a: byte, b: byte, c: byte, i: nat, j: nat, k: nat, l: nat)
    requires i == a / 4 && j == a % 4 * 16 + b / 16 && k == b % 16 * 4 + c / 64 && l == c % 64
    ensures Base64.Quad(a, b, c) == [Base64.AlphabetChar(i), Base64.AlphabetChar(j), Base64.AlphabetChar(k), Base64.AlphabetChar(l)]
  {
    hide Base64.Quad, Base64.Group, Base64.AlphabetChar;
    Base64.QuadIs(a, b, c);
    Base64.SextetsOfOctets(a, b, c);
  }

  lemma FirstGroups()
    ensures Base64.Quad(0xB3, 0x7A, 0x4F) == "s3pP"
    ensures Base64.Quad(0x2C, 0xC0, 0x62) == "LMBi"
  {
    hide Base64.Quad, Base64.Group;
    QuadOf(0xB3, 0x7A, 0x4F, 44, 55, 41, 15);
    QuadOf(0x2C, 0xC0, 0x62, 11, 12, 1, 34);
  }

  lemma MiddleGroups()
    ensures Base64.Quad(0x4F, 0x16, 0x90) == "TxaQ"
    ensures Base64.Quad(0xF6, 0x46, 0x06) == "9kYG"
  {
    hide Base64.Quad, Base64.Group;
    QuadOf(0x4F, 0x16, 0x90, 19, 49, 26, 16);
    QuadOf(0xF6, 0x46, 0x06, 61, 36, 24, 6);
  }

  lemma NextGroups()
    ensures Base64.Quad(0xCF, 0x38, 0x59) == "zzhZ"
    ensures Base64.Quad(0x45, 0xB2, 0xBE) == "RbK+"
  {
    hide Base64.Quad, Base64.Group;
    QuadOf(0xCF, 0x38, 0x59, 51, 51, 33, 25);
    QuadOf(0x45, 0xB2, 0xBE, 17, 27, 10, 62);
  }

  lemma LastGroup()
    ensures Base64.Tail([0xC4, 0xEA]) == "xOo="
  {
    hide Base64.Tail;
    Base64.TailIs([0xC4, 0xEA]);
  }

  lemma ThreeGroups(s: seq<byte>)
    requires |s| >= 9
    ensures Base64.Encoded(s) == Base64.Quad(s[0], s[1], s[2]) + Base64.Quad(s[3], s[4], s[5]) + Base64.Quad(s[6], s[7], s[8])
                                 + Base64.Encoded(s[9..])
  {
    hide Base64.Encoded, Base64.Quad, Base64.Tail;
    Base64.EncodedUnfolds(s);
    Base64.EncodedUnfolds(s[3..]);
    Base64.EncodedUnfolds(s[6..]);
    assert s[3..][3..] == s[6..] && s[6..][3..] == s[9..];
  }

  lemma SampleEncoded()
    ensures Base64.Encoded(DigestSample()) == "s3pPLMBiTxaQ" + ("9kYGzzhZRbK+" + "xOo=")
  {
    hide Base64.Encoded, Base64.Quad, Base64.Tail;
    var s := DigestSample();
    ThreeGroups(s);
    ThreeGroups(s[9..]);
    assert s[9..][9..] == [0xC4, 0xEA];
    Base64.EncodedUnfolds(s[9..][9..]);
    FirstGroups();
    MiddleGroups();
    NextGroups();
    LastGroup();
  }

  /** The accept value of the sample key. */
  lemma SampleAccept()
    ensures IsOctetString(KEY) && AcceptKey(KEY) == "s3pPLMBiTxaQ9kYGzzhZRbK+xOo="
  {
    hide OctetsOf, DigestOf, Laid, Base64.Encoded, SampleText, DigestSample;
    assert IsOctetString(KEY);
    SampleOctets();
    SampleDigest();
    SampleLaid(Sha1.Words(DigestOf(SampleText())));
    SampleEncoded();
    assert "s3pPLMBiTxaQ" + ("9kYGzzhZRbK+" + "xOo=") == "s3pPLMBiTxaQ9kYGzzhZRbK+xOo=";
  }
}
