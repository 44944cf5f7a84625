/** The 24-byte packet header that starts every multicast datagram. */
module PacketHeaders {
  import opened ByteOrder

  const HEADER_SIZE := 24

  datatype PacketHeader = PacketHeader(
    sendingTime: int64, seqNum: int64, channelId: int32, kind: uint16, messageCount: uint16)

  /** Reads the five fields at their fixed offsets; anything after byte 24 is ignored. */
  function Decode(buffer: seq<byte>): (header: PacketHeader)
    requires |buffer| >= HEADER_SIZE
  {
    Widths();
    PacketHeader(
      DecodeSigned(buffer[0..8]),
      DecodeSigned(buffer[8..16]),
      DecodeSigned(buffer[16..20]),
      DecodeUnsigned(buffer[20..22]),
      DecodeUnsigned(buffer[22..24]))
  }

  function Encode(header: PacketHeader): (bytes: seq<byte>)
    ensures |bytes| == HEADER_SIZE
  {
    Widths();
    EncodeSigned(header.sendingTime, 8) + EncodeSigned(header.seqNum, 8) + EncodeSigned(header.channelId, 4)
    + EncodeUnsigned(header.kind, 2) + EncodeUnsigned(header.messageCount, 2)
  }

  lemma Widths()
    ensures Values(2) == 0x1_0000
    ensures Values(4) == 0x1_0000_0000
    ensures Values(8) == 0x1_0000_0000_0000_0000
  {
    assert Values(2) == 256 * Values(1) && Values(1) == 256 * Values(0);
    assert Values(4) == 256 * Values(3) && Values(3) == 256 * Values(2);
    assert Values(6) == 256 * Values(5) && Values(5) == 256 * Values(4);
    assert Values(8) == 256 * Values(7) && Values(7) == 256 * Values(6);
  }

  /** A datagram shorter than the header is fatal; otherwise it is split into header and packet. */
  datatype Parsed = TooShort | Split(header: PacketHeader, packet: seq<byte>)

  function Parse(buffer: seq<byte>): Parsed
  {
    if |buffer| < HEADER_SIZE then TooShort else Split(Decode(buffer), buffer[HEADER_SIZE..])
  }

  lemma DecodeOfEncode(header: PacketHeader, packet: seq<byte>)
    ensures Decode(Encode(header) + packet) == header
  {
    Widths();
    var buffer := Encode(header) + packet;
    assert buffer[0..8] == EncodeSigned(header.sendingTime, 8);
    assert buffer[8..16] == EncodeSigned(header.seqNum, 8);
    assert buffer[16..20] == EncodeSigned(header.channelId, 4);
    assert buffer[20..22] == EncodeUnsigned(header.kind, 2);
    assert buffer[22..24] == EncodeUnsigned(header.messageCount, 2);
    SignedDecodesWhatItEncodes(header.sendingTime, 8);
    SignedDecodesWhatItEncodes(header.seqNum, 8);
    SignedDecodesWhatItEncodes(header.channelId, 4);
    UnsignedDecodesWhatItEncodes(header.kind, 2);
    UnsignedDecodesWhatItEncodes(header.messageCount, 2);
  }

  lemma EncodeOfDecode(buffer: seq<byte>)
    requires |buffer| >= HEADER_SIZE
    ensures Encode(Decode(buffer)) == buffer[..HEADER_SIZE]
  {
    SignedEncodesWhatItDecodes(buffer[0..8]);
    SignedEncodesWhatItDecodes(buffer[8..16]);
    SignedEncodesWhatItDecodes(buffer[16..20]);
    UnsignedEncodesWhatItDecodes(buffer[20..22]);
    UnsignedEncodesWhatItDecodes(buffer[22..24]);
    assert buffer[..HEADER_SIZE] == buffer[0..8] + buffer[8..16] + buffer[16..20] + buffer[20..22] + buffer[22..24];
  }

  /** Two bytes, four bytes and eight bytes of a buffer, the first of them weighing least. */
  function Two(b: seq<byte>, at: nat): nat
    requires at + 2 <= |b|
  {
    b[at] as int + 0x100 * b[at + 1] as int
  }

  function Four(b: seq<byte>, at: nat): nat
    requires at + 4 <= |b|
  {
    Two(b, at) + 0x1_0000 * Two(b, at + 2)
  }

  function Eight(b: seq<byte>, at: nat): nat
    requires at + 8 <= |b|
  {
    Four(b, at) + 0x1_0000_0000 * Four(b, at + 4)
  }

  lemma TwoDecodes(b: seq<byte>, at: nat)
    requires at + 2 <= |b|
    ensures DecodeUnsigned(b[at..at + 2]) == Two(b, at)
  {
    DecodeTwo(b[at], b[at + 1]);
    assert b[at..at + 2] == [b[at], b[at + 1]];
  }

  lemma FourDecodes(b: seq<byte>, at: nat)
    requires at + 4 <= |b|
    ensures DecodeUnsigned(b[at..at + 4]) == Four(b, at)
  {
    DecodeFour(b[at], b[at + 1], b[at + 2], b[at + 3]);
    assert b[at..at + 4] == [b[at], b[at + 1], b[at + 2], b[at + 3]];
  }

  lemma EightDecodes(b: seq<byte>, at: nat)
    requires at + 8 <= |b|
    ensures DecodeUnsigned(b[at..at + 8]) == Eight(b, at)
  {
    DecodeEight(b[at], b[at + 1], b[at + 2], b[at + 3], b[at + 4], b[at + 5], b[at + 6], b[at + 7]);
    assert b[at..at + 8]
        == [b[at], b[at + 1], b[at + 2], b[at + 3], b[at + 4], b[at + 5], b[at + 6], b[at + 7]];
  }

  /** The bytes behind each field, with the sign in the highest bit. */
  lemma FieldsOfBytes(b: seq<byte>)
    requires |b| >= 24
    ensures var header := Decode(b);
            && header.sendingTime == (if b[7] < 0x80 then Eight(b, 0) else Eight(b, 0) - 0x1_0000_0000_0000_0000)
            && header.seqNum == (if b[15] < 0x80 then Eight(b, 8) else Eight(b, 8) - 0x1_0000_0000_0000_0000)
            && header.channelId == (if b[19] < 0x80 then Four(b, 16) else Four(b, 16) - 0x1_0000_0000)
            && header.kind == Two(b, 20)
            && header.messageCount == Two(b, 22)
  {
    Widths();
    EightDecodes(b, 0);
    EightDecodes(b, 8);
    FourDecodes(b, 16);
    TwoDecodes(b, 20);
    TwoDecodes(b, 22);
  }

  /** Parsing and encoding are inverse bijections between datagrams of at least 24 bytes and (header, packet) pairs. */
  lemma ParseInvertsEncode(buffer: seq<byte>, header: PacketHeader, packet: seq<byte>)
    ensures Parse(buffer) == Split(header, packet) <==> buffer == Encode(header) + packet
    ensures Parse(buffer).TooShort? <==> |buffer| < HEADER_SIZE
  {
    DecodeOfEncode(header, packet);
    if |buffer| >= HEADER_SIZE {
      EncodeOfDecode(buffer);
      assert buffer == buffer[..HEADER_SIZE] + buffer[HEADER_SIZE..];
    }
    if buffer == Encode(header) + packet {
      assert buffer[HEADER_SIZE..] == packet;
    }
  }
}
