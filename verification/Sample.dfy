/** The one recorded multicast datagram of the repository's tests: a snapshot packet with a single AskPut. */
module Sample {
  import opened ByteOrder
  import opened PacketHeaders
  import opened Framing

  const SENDING_TIME: seq<byte> := [0x9d, 0xad, 0x06, 0xc4, 0x0c, 0x14, 0xa5, 0x18]
  const SEQ_NUM: seq<byte> := [0xa5, 0x58, 0, 0, 0, 0, 0, 0]
  const CHANNEL_ID: seq<byte> := [0x35, 0xaf, 0, 0]
  const KIND: seq<byte> := [1, 0]
  const MESSAGE_COUNT: seq<byte> := [1, 0]

  const MESSAGE_LENGTH: seq<byte> := [0x30, 0]
  const TEMPLATE_ID: seq<byte> := [0x15, 0]
  const VERSION: seq<byte> := [0, 0]
  const FLAGS: seq<byte> := [3, 0]
  const TRANSACT_TIME: seq<byte> := [0x97, 0x01, 0x06, 0xc4, 0x0c, 0x14, 0xa5, 0x18]

  const BODY: seq<byte> := [
    0, 0, 0x80, 0xa2, 0xc1, 0x5f, 0x56, 0x02,
    0xf9, 0xd9, 0x04, 0, 0, 0, 0, 0,
    0x0a, 0, 0, 0, 0, 0, 0, 0,
    0, 0x0f, 0x26, 0x40, 0x54, 0x04, 0, 0]

  const PACKET: seq<byte> := MESSAGE_LENGTH + TEMPLATE_ID + VERSION + FLAGS + TRANSACT_TIME + BODY

  const DATAGRAM: seq<byte> := SENDING_TIME + SEQ_NUM + CHANNEL_ID + KIND + MESSAGE_COUNT + PACKET

  /** Its packet header decodes to the values the test asserts. */
  lemma SampleHeader()
    ensures Parse(DATAGRAM) == Split(PacketHeader(0x18a5_140c_c406_ad9d, 0x58a5, 44853, 1, 1), PACKET)
  {
    Widths();
    assert DATAGRAM[0..8] == SENDING_TIME;
    assert DATAGRAM[8..16] == SEQ_NUM;
    assert DATAGRAM[16..20] == CHANNEL_ID;
    assert DATAGRAM[20..22] == KIND;
    assert DATAGRAM[22..24] == MESSAGE_COUNT;
    assert DATAGRAM[24..] == PACKET;
    DecodeEight(0x9d, 0xad, 0x06, 0xc4, 0x0c, 0x14, 0xa5, 0x18);
    DecodeEight(0xa5, 0x58, 0, 0, 0, 0, 0, 0);
    DecodeFour(0x35, 0xaf, 0, 0);
    DecodeTwo(1, 0);
  }

  lemma SampleMessageHeader()
    ensures DecodeMessageHeader(PACKET) == MessageHeader(48, 21, 0, 3, 0x18a5_140c_c406_0197)
  {
    Widths();
    assert PACKET[0..2] == MESSAGE_LENGTH;
    assert PACKET[2..4] == TEMPLATE_ID;
    assert PACKET[4..6] == VERSION;
    assert PACKET[6..8] == FLAGS;
    assert PACKET[8..16] == TRANSACT_TIME;
    DecodeTwo(0x30, 0);
    DecodeTwo(0x15, 0);
    DecodeTwo(0, 0);
    DecodeTwo(3, 0);
    DecodeEight(0x97, 0x01, 0x06, 0xc4, 0x0c, 0x14, 0xa5, 0x18);
  }

  /** Its packet is one frame of template 21 whose messageLength of 48 ends it, with a block of 32 bytes. */
  lemma SampleFrame(layout: Layout)
    requires layout(21) == 32
    ensures Walk(layout, PACKET)
         == Walked([Message(MessageHeader(48, 21, 0, 3, 0x18a5_140c_c406_0197), BODY)], Completed)
  {
    SampleMessageHeader();
    assert PACKET[16..48] == BODY;
    assert PACKET[48..] == [];
  }
}
