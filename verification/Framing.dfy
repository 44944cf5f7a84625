/** The frames inside an accepted packet: a 16-byte message header, the fixed block of its template, then padding. */
module Framing {
  import opened ByteOrder
  import opened PacketHeaders

  const MESSAGE_HEADER_SIZE := 16

  /** The templates the dispatch switch knows; every other template id is fatal. */
  const TEMPLATE_IDS: set<int> := {10, 12, 13, 14, 20, 21, 22, 23, 24, 25, 30, 31, 33, 100, 101, 119, 200, 202}

  /** The fixed block length of each template, as the generated codecs declare it. */
  type Layout = int -> nat

  datatype MessageHeader = MessageHeader(
    messageLength: uint16, templateId: uint16, version: uint16, flags: uint16, transactTime: uint64)

  /** What a message callback receives: the message header and the block the codec decodes. */
  datatype Message = Message(header: MessageHeader, body: seq<byte>)

  function DecodeMessageHeader(buffer: seq<byte>): (header: MessageHeader)
    requires |buffer| >= MESSAGE_HEADER_SIZE
  {
    Widths();
    MessageHeader(
      DecodeUnsigned(buffer[0..2]),
      DecodeUnsigned(buffer[2..4]),
      DecodeUnsigned(buffer[4..6]),
      DecodeUnsigned(buffer[6..8]),
      DecodeUnsigned(buffer[8..16]))
  }

  function EncodeMessageHeader(header: MessageHeader): (bytes: seq<byte>)
    ensures |bytes| == MESSAGE_HEADER_SIZE
  {
    EncodeUnsigned(header.messageLength, 2) + EncodeUnsigned(header.templateId, 2)
    + EncodeUnsigned(header.version, 2) + EncodeUnsigned(header.flags, 2) + EncodeUnsigned(header.transactTime, 8)
  }

  lemma MessageHeaderDecodeOfEncode(header: MessageHeader, rest: seq<byte>)
    ensures DecodeMessageHeader(EncodeMessageHeader(header) + rest) == header
  {
    Widths();
    var buffer := EncodeMessageHeader(header) + rest;
    assert buffer[0..2] == EncodeUnsigned(header.messageLength, 2);
    assert buffer[2..4] == EncodeUnsigned(header.templateId, 2);
    assert buffer[4..6] == EncodeUnsigned(header.version, 2);
    assert buffer[6..8] == EncodeUnsigned(header.flags, 2);
    assert buffer[8..16] == EncodeUnsigned(header.transactTime, 8);
    UnsignedDecodesWhatItEncodes(header.messageLength, 2);
    UnsignedDecodesWhatItEncodes(header.templateId, 2);
    UnsignedDecodesWhatItEncodes(header.version, 2);
    UnsignedDecodesWhatItEncodes(header.flags, 2);
    UnsignedDecodesWhatItEncodes(header.transactTime, 8);
  }

  lemma MessageHeaderEncodeOfDecode(buffer: seq<byte>)
    requires |buffer| >= MESSAGE_HEADER_SIZE
    ensures EncodeMessageHeader(DecodeMessageHeader(buffer)) == buffer[..MESSAGE_HEADER_SIZE]
  {
    Widths();
    UnsignedEncodesWhatItDecodes(buffer[0..2]);
    UnsignedEncodesWhatItDecodes(buffer[2..4]);
    UnsignedEncodesWhatItDecodes(buffer[4..6]);
    UnsignedEncodesWhatItDecodes(buffer[6..8]);
    UnsignedEncodesWhatItDecodes(buffer[8..16]);
    assert buffer[..MESSAGE_HEADER_SIZE] == buffer[0..2] + buffer[2..4] + buffer[4..6] + buffer[6..8] + buffer[8..16];
  }

  /** The bytes behind each field. */
  lemma MessageFieldsOfBytes(b: seq<byte>)
    requires |b| >= 16
    ensures DecodeMessageHeader(b) == MessageHeader(Two(b, 0), Two(b, 2), Two(b, 4), Two(b, 6), Eight(b, 8))
  {
    Widths();
    TwoDecodes(b, 0);
    TwoDecodes(b, 2);
    TwoDecodes(b, 4);
    TwoDecodes(b, 6);
    EightDecodes(b, 8);
  }

  // ----- one pass of the loop body -----

  /** Why the process stops: fewer than 16 bytes left, a template the switch does not know, a block that does not
      fit in what is left of the packet, or a messageLength that points past the end of the packet. */
  datatype Fault = ShortHeader | UnknownTemplate | ShortBlock | Overrun

  datatype Delivery = Fails(fault: Fault) | Delivers(message: Message)

  /** The part of the loop body before the packet is narrowed. The codec is handed everything after the message
      header, up to the end of the packet, and reads the block of its template from the front of it. */
  function DeliverFirst(layout: Layout, packet: seq<byte>): (r: Delivery)
  {
    if |packet| < MESSAGE_HEADER_SIZE then Fails(ShortHeader) else
    var header := DecodeMessageHeader(packet);
    if header.templateId !in TEMPLATE_IDS then Fails(UnknownTemplate)
    else if |packet| - MESSAGE_HEADER_SIZE < layout(header.templateId) then Fails(ShortBlock)
    else Delivers(Message(header, packet[MESSAGE_HEADER_SIZE..MESSAGE_HEADER_SIZE + layout(header.templateId)]))
  }

  /** What the switch makes of a template id, whatever else the packet holds: these eighteen are decoded, once their
      block fits, from the bytes behind the header, and any other is fatal. */
  lemma SwitchIff(layout: Layout, header: MessageHeader, rest: seq<byte>)
    ensures var id, r := header.templateId, DeliverFirst(layout, EncodeMessageHeader(header) + rest);
            var known := id == 10 || id == 12 || id == 13 || id == 14 || (20 <= id <= 25) || id == 30 || id == 31
                         || id == 33 || id == 100 || id == 101 || id == 119 || id == 200 || id == 202;
            && (r.Delivers? <==> known && layout(id) <= |rest|)
            && (r == Fails(UnknownTemplate) <==> !known)
            && (r == Fails(ShortBlock) <==> known && |rest| < layout(id))
            && (r.Delivers? ==> r.message == Message(header, rest[..layout(id)]))
  {
    var packet := EncodeMessageHeader(header) + rest;
    var block := layout(header.templateId);
    MessageHeaderDecodeOfEncode(header, rest);
    if block <= |rest| { assert packet[16..16 + block] == rest[..block]; }
  }

  // ----- the loop as it runs, one pass at a time -----

  datatype Ending = Completed | Aborted(fault: Fault) | Diverges

  datatype Loop = Running(packet: seq<byte>, messages: seq<Message>) | Halted(messages: seq<Message>, ending: Ending)

  /** One evaluation of the loop condition and, when it holds, one pass through the body. */
  function Pass(layout: Layout, loop: Loop): Loop
  {
    match loop
    case Halted(_, _) => loop
    case Running(packet, messages) =>
      if packet == [] then Halted(messages, Completed) else
      match DeliverFirst(layout, packet)
      case Fails(fault) => Halted(messages, Aborted(fault))
      case Delivers(message) =>
        if message.header.messageLength > |packet| then Halted(messages + [message], Aborted(Overrun))
        else Running(packet[message.header.messageLength..], messages + [message])
  }

  function Passes(layout: Layout, loop: Loop, n: nat): Loop
    decreases n
  {
    if n == 0 then loop else Passes(layout, Pass(layout, loop), n - 1)
  }

  // ----- the loop as a recursive decoder -----

  datatype Walked = Walked(messages: seq<Message>, ending: Ending)

  /** What the framing loop delivers and how it ends. A zero messageLength is reported as divergence after the
      first delivery; LoopEndsIffNoZeroLength shows that this is exactly when the loop never ends. */
  function Walk(layout: Layout, packet: seq<byte>): Walked
    decreases |packet|
  {
    if packet == [] then Walked([], Completed) else
    match DeliverFirst(layout, packet)
    case Fails(fault) => Walked([], Aborted(fault))
    case Delivers(message) =>
      var length := message.header.messageLength;
      if length > |packet| then Walked([message], Aborted(Overrun))
      else if length == 0 then Walked([message], Diverges)
      else
        var rest := Walk(layout, packet[length..]);
        Walked([message] + rest.messages, rest.ending)
  }

  /** The number of passes the loop makes before it halts, one for each frame and one that finds the end. */
  function PassCount(layout: Layout, packet: seq<byte>): (n: nat)
  {
    |Walk(layout, packet).messages| + 1
  }

  lemma {:induction false} HaltedStays(layout: Layout, loop: Loop, n: nat)
    requires loop.Halted?
    ensures Passes(layout, loop, n) == loop
  {
    if n > 0 { HaltedStays(layout, loop, n - 1); }
  }

  /** A zero-length frame is a fixpoint of the loop: every pass delivers the same message again and narrows nothing. */
  lemma {:induction false} ZeroLengthFrameRepeats(layout: Layout, packet: seq<byte>, messages: seq<Message>, n: nat)
    requires packet != [] && DeliverFirst(layout, packet).Delivers?
    requires DeliverFirst(layout, packet).message.header.messageLength == 0
    ensures Passes(layout, Running(packet, messages), n)
         == Running(packet, messages + seq(n, _ => DeliverFirst(layout, packet).message))
    decreases n
  {
    var message := DeliverFirst(layout, packet).message;
    if n == 0 {
      assert messages + seq(0, _ => message) == messages;
    } else {
      assert packet[0..] == packet;
      ZeroLengthFrameRepeats(layout, packet, messages + [message], n - 1);
      assert messages + [message] + seq(n - 1, _ => message) == messages + seq(n, _ => message);
    }
  }

  lemma Regroup(before: seq<Message>, message: Message, after: seq<Message>)
    ensures before + ([message] + after) == before + [message] + after
  {
  }

  /** When the decoder ends, the pass-by-pass loop ends with the same messages and the same ending. */
  lemma {:induction false} PassesEndAsWalkDoes(layout: Layout, packet: seq<byte>, messages: seq<Message>, n: nat)
    requires Walk(layout, packet).ending != Diverges && n >= PassCount(layout, packet)
    ensures Passes(layout, Running(packet, messages), n)
         == Halted(messages + Walk(layout, packet).messages, Walk(layout, packet).ending)
    decreases n
  {
    var next := Pass(layout, Running(packet, messages));
    if next.Halted? {
      assert messages + [] == messages;
      HaltedStays(layout, next, n - 1);
    } else {
      var message := DeliverFirst(layout, packet).message;
      PassesEndAsWalkDoes(layout, next.packet, next.messages, n - 1);
      Regroup(messages, message, Walk(layout, next.packet).messages);
    }
  }

  /** When the decoder reports divergence, the loop is still running after any number of passes. */
  lemma {:induction false} PassesDivergeAsWalkDoes(layout: Layout, packet: seq<byte>, messages: seq<Message>, n: nat)
    requires Walk(layout, packet).ending == Diverges
    ensures Passes(layout, Running(packet, messages), n).Running?
    decreases n
  {
    if n > 0 {
      if DeliverFirst(layout, packet).message.header.messageLength == 0 {
        ZeroLengthFrameRepeats(layout, packet, messages, n);
      } else {
        var next := Pass(layout, Running(packet, messages));
        PassesDivergeAsWalkDoes(layout, next.packet, next.messages, n - 1);
      }
    }
  }

  /** The loop ends after some number of passes if and only if no frame it reaches has a zero messageLength. */
  lemma LoopEndsIffNoZeroLength(layout: Layout, packet: seq<byte>)
    ensures (exists n: nat :: Passes(layout, Running(packet, []), n).Halted?)
       <==> Walk(layout, packet).ending != Diverges
    ensures Walk(layout, packet).ending == Diverges
       <==> exists message :: message in Walk(layout, packet).messages && message.header.messageLength == 0
  {
    if Walk(layout, packet).ending != Diverges {
      PassesEndAsWalkDoes(layout, packet, [], PassCount(layout, packet));
    } else {
      forall n: nat ensures Passes(layout, Running(packet, []), n).Running? {
        PassesDivergeAsWalkDoes(layout, packet, [], n);
      }
    }
    DivergesAtZeroLength(layout, packet);
  }

  lemma {:induction false} DivergesAtZeroLength(layout: Layout, packet: seq<byte>)
    ensures Walk(layout, packet).ending == Diverges
       <==> exists message :: message in Walk(layout, packet).messages && message.header.messageLength == 0
    decreases |packet|
  {
    if packet != [] && DeliverFirst(layout, packet).Delivers? {
      var message := DeliverFirst(layout, packet).message;
      assert message in Walk(layout, packet).messages;
      if 0 < message.header.messageLength <= |packet| {
        DivergesAtZeroLength(layout, packet[message.header.messageLength..]);
      }
    }
  }

  // ----- well-formed chains of frames -----

  /** A frame as a publisher writes it: everything after the message header, block and padding, is its payload. */
  datatype Frame = Frame(header: MessageHeader, payload: seq<byte>)

  predicate WellFormed(layout: Layout, frame: Frame)
  {
    && frame.header.templateId in TEMPLATE_IDS
    && layout(frame.header.templateId) <= |frame.payload|
    && frame.header.messageLength == MESSAGE_HEADER_SIZE + |frame.payload|
  }

  predicate AllWellFormed(layout: Layout, frames: seq<Frame>)
  {
    forall frame :: frame in frames ==> WellFormed(layout, frame)
  }

  function EncodeFrame(frame: Frame): seq<byte>
  {
    EncodeMessageHeader(frame.header) + frame.payload
  }

  function EncodeFrames(frames: seq<Frame>): seq<byte>
  {
    if frames == [] then [] else EncodeFrame(frames[0]) + EncodeFrames(frames[1..])
  }

  function MessageOf(layout: Layout, frame: Frame): Message
    requires WellFormed(layout, frame)
  {
    Message(frame.header, frame.payload[..layout(frame.header.templateId)])
  }

  function MessagesOf(layout: Layout, frames: seq<Frame>): seq<Message>
    requires AllWellFormed(layout, frames)
  {
    if frames == [] then [] else [MessageOf(layout, frames[0])] + MessagesOf(layout, frames[1..])
  }

  /** The frame a packet starts with, read off its bytes. */
  function FirstFrame(packet: seq<byte>): Frame
    requires |packet| >= MESSAGE_HEADER_SIZE
    requires MESSAGE_HEADER_SIZE <= DecodeMessageHeader(packet).messageLength <= |packet|
  {
    var header := DecodeMessageHeader(packet);
    Frame(header, packet[MESSAGE_HEADER_SIZE..header.messageLength])
  }

  lemma FirstFrameEncodes(packet: seq<byte>)
    requires |packet| >= MESSAGE_HEADER_SIZE
    requires MESSAGE_HEADER_SIZE <= DecodeMessageHeader(packet).messageLength <= |packet|
    ensures packet == EncodeFrame(FirstFrame(packet)) + packet[DecodeMessageHeader(packet).messageLength..]
  {
    MessageHeaderEncodeOfDecode(packet);
  }

  lemma FirstFrameOfEncoded(frame: Frame, rest: seq<byte>)
    requires frame.header.messageLength == MESSAGE_HEADER_SIZE + |frame.payload|
    ensures var packet := EncodeFrame(frame) + rest;
            && DecodeMessageHeader(packet) == frame.header
            && FirstFrame(packet) == frame
            && packet[frame.header.messageLength..] == rest
  {
    assert EncodeFrame(frame) + rest == EncodeMessageHeader(frame.header) + (frame.payload + rest);
    MessageHeaderDecodeOfEncode(frame.header, frame.payload + rest);
  }

  /** The first frame of a packet is decoded from its own bytes, whatever follows it. */
  lemma FirstFrameDelivered(layout: Layout, frame: Frame, rest: seq<byte>)
    requires WellFormed(layout, frame)
    ensures var packet := EncodeFrame(frame) + rest;
            && DeliverFirst(layout, packet) == Delivers(MessageOf(layout, frame))
            && 0 < frame.header.messageLength <= |packet|
            && packet[frame.header.messageLength..] == rest
  {
    var packet := EncodeFrame(frame) + rest;
    var block := layout(frame.header.templateId);
    FirstFrameOfEncoded(frame, rest);
    assert packet[MESSAGE_HEADER_SIZE..MESSAGE_HEADER_SIZE + block] == frame.payload[..block];
  }

  /** Framing round trip: the loop consumes exactly the encoded frames, with one delivery for each, in order. */
  lemma {:induction false} WalkOfEncodedFrames(layout: Layout, frames: seq<Frame>)
    requires AllWellFormed(layout, frames)
    ensures Walk(layout, EncodeFrames(frames)) == Walked(MessagesOf(layout, frames), Completed)
  {
    if frames != [] {
      FirstFrameDelivered(layout, frames[0], EncodeFrames(frames[1..]));
      WalkOfEncodedFrames(layout, frames[1..]);
    }
  }

  lemma WalkFirst(layout: Layout, frame: Frame, rest: seq<byte>)
    requires WellFormed(layout, frame)
    ensures Walk(layout, EncodeFrame(frame) + rest)
         == Walked([MessageOf(layout, frame)] + Walk(layout, rest).messages, Walk(layout, rest).ending)
  {
    FirstFrameDelivered(layout, frame, rest);
  }

  lemma EncodingHead(frames: seq<Frame>, tail: seq<byte>)
    requires frames != []
    ensures EncodeFrames(frames) + tail == EncodeFrame(frames[0]) + (EncodeFrames(frames[1..]) + tail)
  {
  }

  lemma JoinFirst(message: Message, others: seq<Message>, rest: seq<Message>)
    ensures [message] + others + rest == [message] + (others + rest)
  {
  }

  lemma MessagesHead(layout: Layout, frames: seq<Frame>, rest: seq<Message>)
    requires AllWellFormed(layout, frames) && frames != []
    ensures WellFormed(layout, frames[0]) && AllWellFormed(layout, frames[1..])
    ensures MessagesOf(layout, frames) + rest
         == [MessageOf(layout, frames[0])] + (MessagesOf(layout, frames[1..]) + rest)
  {
    JoinFirst(MessageOf(layout, frames[0]), MessagesOf(layout, frames[1..]), rest);
  }

  lemma {:induction false} AppendFrames(layout: Layout, frames: seq<Frame>, tail: seq<byte>)
    requires AllWellFormed(layout, frames)
    ensures Walk(layout, EncodeFrames(frames) + tail).messages
         == MessagesOf(layout, frames) + Walk(layout, tail).messages
    ensures Walk(layout, EncodeFrames(frames) + tail).ending == Walk(layout, tail).ending
  {
    if frames == [] {
      assert EncodeFrames(frames) + tail == tail;
    } else {
      EncodingHead(frames, tail);
      MessagesHead(layout, frames, Walk(layout, tail).messages);
      WalkFirst(layout, frames[0], EncodeFrames(frames[1..]) + tail);
      AppendFrames(layout, frames[1..], tail);
    }
  }

  /** What the first frame after any number of well-formed ones makes of the packet, when it is not well-formed itself:
      its own message is delivered as soon as its block fits, whatever its messageLength, which then decides how the
      loop goes on. */
  lemma WalkAfterFrames(layout: Layout, frames: seq<Frame>, header: MessageHeader, rest: seq<byte>)
    requires AllWellFormed(layout, frames)
    ensures var before, tail := MessagesOf(layout, frames), EncodeMessageHeader(header) + rest;
            var walked := Walk(layout, EncodeFrames(frames) + tail);
            var first, length := DeliverFirst(layout, tail), header.messageLength;
            && (first.Fails? ==> walked == Walked(before, Aborted(first.fault)))
            && (first.Delivers? && length > 16 + |rest|
                ==> walked == Walked(before + [first.message], Aborted(Overrun)))
            && (first.Delivers? && length == 0 ==> walked == Walked(before + [first.message], Diverges))
            && (first.Delivers? && 0 < length <= 16 + |rest| ==>
                  var next := Walk(layout, tail[length..]);
                  walked == Walked(before + [first.message] + next.messages, next.ending))
  {
    var tail := EncodeMessageHeader(header) + rest;
    AppendFrames(layout, frames, tail);
    SwitchIff(layout, header, rest);
    Regrouped(layout, frames, tail);
  }

  lemma Regrouped(layout: Layout, frames: seq<Frame>, tail: seq<byte>)
    requires AllWellFormed(layout, frames)
    ensures MessagesOf(layout, frames) + [] == MessagesOf(layout, frames)
    ensures forall message: Message, rest: seq<Message> ::
              MessagesOf(layout, frames) + ([message] + rest) == MessagesOf(layout, frames) + [message] + rest
  {
  }

  /** Fewer than 16 bytes left over after well-formed frames are fatal, and the frames before them are delivered. */
  lemma LeftoverBytesAbort(layout: Layout, frames: seq<Frame>, tail: seq<byte>)
    requires AllWellFormed(layout, frames) && 0 < |tail| < 16
    ensures Walk(layout, EncodeFrames(frames) + tail) == Walked(MessagesOf(layout, frames), Aborted(ShortHeader))
  {
    AppendFrames(layout, frames, tail);
    assert MessagesOf(layout, frames) + [] == MessagesOf(layout, frames);
  }

  /** A chain the loop consumes to its end, in which every messageLength covers its header and block. */
  predicate WellFormedChain(layout: Layout, packet: seq<byte>)
  {
    && Walk(layout, packet).ending == Completed
    && forall message :: message in Walk(layout, packet).messages ==> Covers(layout, message.header)
  }

  predicate Covers(layout: Layout, header: MessageHeader)
  {
    header.messageLength >= MESSAGE_HEADER_SIZE + layout(header.templateId)
  }

  /** A well-formed chain that is not empty is a well-formed frame followed by a well-formed chain. */
  lemma ChainStep(layout: Layout, packet: seq<byte>)
    requires WellFormedChain(layout, packet) && packet != []
    ensures |packet| >= MESSAGE_HEADER_SIZE
    ensures var length := DecodeMessageHeader(packet).messageLength;
            && MESSAGE_HEADER_SIZE <= length <= |packet|
            && WellFormed(layout, FirstFrame(packet))
            && WellFormedChain(layout, packet[length..])
  {
    var message := DeliverFirst(layout, packet).message;
    assert message in Walk(layout, packet).messages;
    var rest := Walk(layout, packet[message.header.messageLength..]);
    assert forall m :: m in rest.messages ==> m in Walk(layout, packet).messages;
  }

  /** Cuts a well-formed chain back into its frames. */
  function SplitFrames(layout: Layout, packet: seq<byte>): (frames: seq<Frame>)
    requires WellFormedChain(layout, packet)
    ensures AllWellFormed(layout, frames)
    ensures EncodeFrames(frames) == packet
    decreases |packet|
  {
    if packet == [] then [] else
    ChainStep(layout, packet);
    FirstFrameEncodes(packet);
    [FirstFrame(packet)] + SplitFrames(layout, packet[DecodeMessageHeader(packet).messageLength..])
  }

  lemma {:induction false} MessagesOfCover(layout: Layout, frames: seq<Frame>)
    requires AllWellFormed(layout, frames)
    ensures forall message :: message in MessagesOf(layout, frames) ==> Covers(layout, message.header)
  {
    if frames != [] {
      assert WellFormed(layout, frames[0]);
      MessagesOfCover(layout, frames[1..]);
    }
  }

  lemma SameFirstFrame(a: Frame, b: Frame, restA: seq<byte>, restB: seq<byte>)
    requires a.header.messageLength == MESSAGE_HEADER_SIZE + |a.payload|
    requires b.header.messageLength == MESSAGE_HEADER_SIZE + |b.payload|
    requires EncodeFrame(a) + restA == EncodeFrame(b) + restB
    ensures a == b && restA == restB
  {
    FirstFrameOfEncoded(a, restA);
    FirstFrameOfEncoded(b, restB);
  }

  lemma {:induction false} EncodeFramesInjective(layout: Layout, a: seq<Frame>, b: seq<Frame>)
    requires AllWellFormed(layout, a) && AllWellFormed(layout, b)
    requires EncodeFrames(a) == EncodeFrames(b)
    ensures a == b
  {
    if a != [] && b != [] {
      assert WellFormed(layout, a[0]) && WellFormed(layout, b[0]);
      SameFirstFrame(a[0], b[0], EncodeFrames(a[1..]), EncodeFrames(b[1..]));
      EncodeFramesInjective(layout, a[1..], b[1..]);
      assert a == [a[0]] + a[1..] && b == [b[0]] + b[1..];
    }
  }

  /** Encoding and splitting are inverse: the well-formed chains are exactly the encodings of lists of well-formed
      frames, and each chain comes from one list only. */
  lemma ChainIffEncodedFrames(layout: Layout, packet: seq<byte>, frames: seq<Frame>)
    requires AllWellFormed(layout, frames)
    ensures EncodeFrames(frames) == packet
       <==> WellFormedChain(layout, packet) && SplitFrames(layout, packet) == frames
  {
    if EncodeFrames(frames) == packet {
      WalkOfEncodedFrames(layout, frames);
      MessagesOfCover(layout, frames);
      EncodeFramesInjective(layout, frames, SplitFrames(layout, packet));
    }
  }

  // ----- locality and extension -----

  /** These bytes decide the message that starts a packet: every continuation of them that is long enough to be
      decoded gives the same message. */
  ghost predicate Local(layout: Layout, bytes: seq<byte>)
  {
    forall a: seq<byte>, b: seq<byte> ::
      DeliverFirst(layout, bytes + a).Delivers? && DeliverFirst(layout, bytes + b).Delivers?
      ==> DeliverFirst(layout, bytes + a) == DeliverFirst(layout, bytes + b)
  }

  lemma SameHeader(bytes: seq<byte>, rest: seq<byte>)
    requires |bytes| >= MESSAGE_HEADER_SIZE
    ensures DecodeMessageHeader(bytes + rest) == DecodeMessageHeader(bytes)
  {
    var header := DecodeMessageHeader(bytes);
    MessageHeaderEncodeOfDecode(bytes);
    assert bytes + rest == EncodeMessageHeader(header) + (bytes[MESSAGE_HEADER_SIZE..] + rest);
    MessageHeaderDecodeOfEncode(header, bytes[MESSAGE_HEADER_SIZE..] + rest);
  }

  /** A block that is not covered reads the byte that follows its frame. */
  lemma SpillsOver(layout: Layout, bytes: seq<byte>, rest: seq<byte>)
    requires |bytes| >= MESSAGE_HEADER_SIZE
    requires DecodeMessageHeader(bytes).messageLength == |bytes|
    requires DecodeMessageHeader(bytes).templateId in TEMPLATE_IDS
    requires !Covers(layout, DecodeMessageHeader(bytes))
    requires rest != [] && |rest| >= layout(DecodeMessageHeader(bytes).templateId)
    ensures var r := DeliverFirst(layout, bytes + rest);
            && r.Delivers? && |bytes| - MESSAGE_HEADER_SIZE < |r.message.body|
            && r.message.body[|bytes| - MESSAGE_HEADER_SIZE] == rest[0]
  {
    SameHeader(bytes, rest);
    assert (bytes + rest)[|bytes|] == rest[0];
  }

  lemma CoveredIsLocal(layout: Layout, bytes: seq<byte>)
    requires |bytes| >= MESSAGE_HEADER_SIZE
    requires DecodeMessageHeader(bytes).messageLength == |bytes|
    requires DecodeMessageHeader(bytes).templateId in TEMPLATE_IDS
    requires Covers(layout, DecodeMessageHeader(bytes))
    ensures Local(layout, bytes)
  {
    var header := DecodeMessageHeader(bytes);
    var block := layout(header.templateId);
    forall rest: seq<byte>
      ensures DeliverFirst(layout, bytes + rest)
           == Delivers(Message(header, bytes[MESSAGE_HEADER_SIZE..MESSAGE_HEADER_SIZE + block]))
    {
      SameHeader(bytes, rest);
      assert (bytes + rest)[MESSAGE_HEADER_SIZE..MESSAGE_HEADER_SIZE + block]
          == bytes[MESSAGE_HEADER_SIZE..MESSAGE_HEADER_SIZE + block];
    }
  }

  /** A frame that ends within its own message header leaves part of the header to the bytes after it: changing the
      header's last byte changes the message, and still delivers one. */
  lemma SplitHeaderNotLocal(layout: Layout, packet: seq<byte>)
    requires DeliverFirst(layout, packet).Delivers?
    requires DeliverFirst(layout, packet).message.header.messageLength < MESSAGE_HEADER_SIZE
    ensures !Local(layout, packet[..DeliverFirst(layout, packet).message.header.messageLength])
  {
    var length := DecodeMessageHeader(packet).messageLength;
    var last := MESSAGE_HEADER_SIZE - 1;
    var other := packet[last := if packet[last] == 0 then 1 else 0];
    assert other[0..2] == packet[0..2] && other[2..4] == packet[2..4];
    assert packet[..MESSAGE_HEADER_SIZE][last] != other[..MESSAGE_HEADER_SIZE][last];
    DifferentHeaders(packet, other);
    assert packet[..length] + packet[length..] == packet;
    assert packet[..length] + other[length..] == other;
    NotLocal(layout, packet[..length], packet[length..], other[length..]);
  }

  lemma NotLocal(layout: Layout, bytes: seq<byte>, a: seq<byte>, b: seq<byte>)
    requires DeliverFirst(layout, bytes + a).Delivers? && DeliverFirst(layout, bytes + b).Delivers?
    requires DeliverFirst(layout, bytes + a) != DeliverFirst(layout, bytes + b)
    ensures !Local(layout, bytes)
  {
  }

  lemma DifferentHeaders(a: seq<byte>, b: seq<byte>)
    requires |a| >= MESSAGE_HEADER_SIZE && |b| >= MESSAGE_HEADER_SIZE
    requires a[..MESSAGE_HEADER_SIZE] != b[..MESSAGE_HEADER_SIZE]
    ensures DecodeMessageHeader(a) != DecodeMessageHeader(b)
  {
    MessageHeaderEncodeOfDecode(a);
    MessageHeaderEncodeOfDecode(b);
  }

  /** Although the codec is handed the rest of the whole packet, the bytes of a frame alone decide its message exactly
      when its messageLength covers the header and the block: for every frame the loop delivers and steps over,
      however short. */
  lemma LocalIffCovered(layout: Layout, packet: seq<byte>)
    requires DeliverFirst(layout, packet).Delivers?
    requires DeliverFirst(layout, packet).message.header.messageLength <= |packet|
    ensures var header := DeliverFirst(layout, packet).message.header;
            Local(layout, packet[..header.messageLength]) <==> Covers(layout, header)
  {
    var header := DecodeMessageHeader(packet);
    var bytes := packet[..header.messageLength];
    if header.messageLength < MESSAGE_HEADER_SIZE {
      SplitHeaderNotLocal(layout, packet);
    } else {
      SameHeader(bytes, packet[header.messageLength..]);
      assert packet == bytes + packet[header.messageLength..];
      if Covers(layout, header) {
        CoveredIsLocal(layout, bytes);
      } else {
        var zeros: seq<byte> := seq(layout(header.templateId), _ => 0);
        var ones: seq<byte> := seq(layout(header.templateId), _ => 1);
        SpillsOver(layout, bytes, zeros);
        SpillsOver(layout, bytes, ones);
        NotLocal(layout, bytes, zeros, ones);
      }
    }
  }

  /** A concrete failure: a frame of a template with a block of 8 bytes and a messageLength of 16 takes its whole
      block from the bytes after it. */
  lemma ShortFrameTakesWhatFollows(layout: Layout, rest: seq<byte>)
    requires layout(20) == 8 && |rest| >= 8
    ensures var header := MessageHeader(16, 20, 0, 0, 0);
            DeliverFirst(layout, EncodeMessageHeader(header) + rest) == Delivers(Message(header, rest[..8]))
  {
    var header := MessageHeader(16, 20, 0, 0, 0);
    var packet := EncodeMessageHeader(header) + rest;
    MessageHeaderDecodeOfEncode(header, rest);
    assert packet[16..24] == rest[..8];
  }

  /** Appends padding to a frame and raises its messageLength to match. */
  function Pad(frame: Frame, padding: seq<byte>): Frame
    requires frame.header.messageLength + |padding| < 0x1_0000
  {
    Frame(frame.header.(messageLength := frame.header.messageLength + |padding|), frame.payload + padding)
  }

  predicate CanPad(frames: seq<Frame>, paddings: seq<seq<byte>>)
  {
    && |frames| == |paddings|
    && forall i :: 0 <= i < |frames| ==> frames[i].header.messageLength + |paddings[i]| < 0x1_0000
  }

  function PadAll(frames: seq<Frame>, paddings: seq<seq<byte>>): (padded: seq<Frame>)
    requires CanPad(frames, paddings)
    ensures |padded| == |frames|
    ensures forall i :: 0 <= i < |frames| ==> padded[i] == Pad(frames[i], paddings[i])
  {
    seq(|frames|, i requires 0 <= i < |frames| => Pad(frames[i], paddings[i]))
  }

  lemma {:induction false} MessagesOfAt(layout: Layout, frames: seq<Frame>)
    requires AllWellFormed(layout, frames)
    ensures |MessagesOf(layout, frames)| == |frames|
    ensures forall i :: 0 <= i < |frames| ==> MessagesOf(layout, frames)[i] == MessageOf(layout, frames[i])
  {
    if frames != [] { MessagesOfAt(layout, frames[1..]); }
  }

  /** Extension: padding any of the frames changes neither the number of messages, nor their order, nor their
      templates, nor the decoded bodies. */
  lemma PaddingKeepsBodies(layout: Layout, frames: seq<Frame>, paddings: seq<seq<byte>>)
    requires AllWellFormed(layout, frames) && CanPad(frames, paddings)
    ensures var before := Walk(layout, EncodeFrames(frames));
            var after := Walk(layout, EncodeFrames(PadAll(frames, paddings)));
            && before.ending == after.ending == Completed
            && |before.messages| == |after.messages| == |frames|
            && (forall i :: 0 <= i < |frames| ==>
                  && after.messages[i].body == before.messages[i].body
                  && after.messages[i].header.templateId == before.messages[i].header.templateId
                  && after.messages[i].header.transactTime == before.messages[i].header.transactTime)
  {
    var padded := PadAll(frames, paddings);
    forall frame | frame in padded ensures WellFormed(layout, frame) {
      var i :| 0 <= i < |padded| && padded[i] == frame;
      assert frames[i] in frames;
    }
    WalkOfEncodedFrames(layout, frames);
    WalkOfEncodedFrames(layout, padded);
    MessagesOfAt(layout, frames);
    MessagesOfAt(layout, padded);
    forall i | 0 <= i < |frames|
      ensures MessageOf(layout, padded[i])
           == MessageOf(layout, frames[i]).(header := padded[i].header)
    {
      assert WellFormed(layout, frames[i]) && WellFormed(layout, padded[i]);
      assert padded[i] == Pad(frames[i], paddings[i]);
    }
  }

  /** The narrowing of one pass makes the packet strictly shorter exactly when messageLength is positive. */
  lemma PassShrinksIffPositiveLength(layout: Layout, packet: seq<byte>, messages: seq<Message>)
    requires packet != [] && Pass(layout, Running(packet, messages)).Running?
    ensures |Pass(layout, Running(packet, messages)).packet| < |packet|
       <==> DeliverFirst(layout, packet).message.header.messageLength > 0
    ensures |Pass(layout, Running(packet, messages)).packet| == |packet|
       <==> Pass(layout, Running(packet, messages)).packet == packet
  {
  }
}
