/** The market data feed handlers (incremental and snapshot share this logic) and the parser that drives them. */
module MarketDataFeed {
  import opened ByteOrder
  import opened PacketHeaders
  import opened Framing
  import opened Sequencing
  import opened Channels
  import opened Feeds
  import opened Pipeline
  import Watchdog

  datatype ConnectionStatus = Undefined | Connecting | Ready

  class MarketData {
    var channels: map<uint16, Channel>
    /** The virtual calls made on this handler so far. The message handlers themselves are empty. */
    var callbacks: seq<Callback>
    var connectionStatus: ConnectionStatus
    var lastUpdateTime: int

    ghost predicate Valid()
      reads this`channels
    {
      forall a, b :: a in channels && b in channels && a != b ==> channels[a] != channels[b]
    }

    ghost function View(): ChannelMap
      reads this`channels, channels.Values
    {
      map key | key in channels :: channels[key].State()
    }

    constructor ()
      ensures Valid() && View() == map[] && callbacks == [] && lastUpdateTime == 0
      ensures fresh(channels.Values)
    {
      channels, callbacks, connectionStatus, lastUpdateTime := map[], [], Undefined, 0;
    }

    method OnStart(receiveTime: int)
      modifies this`connectionStatus, this`lastUpdateTime
      ensures connectionStatus == Connecting
      ensures forall timeout ::
                lastUpdateTime == Watchdog.Next(old(lastUpdateTime), Watchdog.Heard(receiveTime), timeout)
    {
      connectionStatus := Connecting;
      lastUpdateTime := receiveTime;
    }

    method OnTimer(now: int, timeout: int) returns (warned: bool)
      modifies this`lastUpdateTime
      ensures warned == Watchdog.Warns(old(lastUpdateTime), now, timeout)
      ensures lastUpdateTime == Watchdog.Next(old(lastUpdateTime), Watchdog.Tick(now), timeout)
    {
      warned := lastUpdateTime != 0 && lastUpdateTime + timeout < now;
      if warned {
        lastUpdateTime := 0;
      }
    }

    /** Finds the channel of a packet, creating it when this is its first. */
    method GetChannel(key: uint16) returns (channel: Channel)
      requires Valid()
      modifies this`channels
      ensures Valid() && key in channels && channels[key] == channel
      ensures channel in old(channels.Values) || fresh(channel)
      ensures channels.Values <= old(channels.Values) + {channel}
      ensures forall k :: k in channels && k != key ==> channels[k] != channel
      ensures View() == old(View())[key := Fetch(old(View()), key)]
    {
      if key !in channels {
        channel := new Channel();
        channels := channels[key := channel];
      } else {
        channel := channels[key];
      }
    }

    /** The header callback: sequences the packet on its channel and resets the channel unless it was accepted. */
    method OnPacketHeader(header: PacketHeader) returns (verdict: Verdict)
      requires Valid()
      modifies this`channels, this`callbacks, channels.Values
      ensures Valid() && fresh(channels.Values - old(channels.Values))
      ensures verdict == Observe(Fetch(old(View()), KeyOf(header.channelId)).sequencer, header.seqNum).verdict
      ensures View() == old(View())[KeyOf(header.channelId)
                                    := Admitted(Fetch(old(View()), KeyOf(header.channelId)), header.seqNum)]
      ensures callbacks == old(callbacks) + [OnHeader(header)]
    {
      callbacks := callbacks + [OnHeader(header)];
      var key := KeyOf(header.channelId);
      var channel := GetChannel(key);
      ghost var found := View();
      ghost var known := channels.Values;
      verdict := AdmitOn(channel, key, header);
      assert channels.Values == known;
      UpdateTwice(old(View()), found, key, found[key], View()[key]);
    }

    /** The lambda the header callback applies to the packet's channel: false from the sequencer resets it. */
    method AdmitOn(channel: Channel, ghost key: uint16, header: PacketHeader) returns (verdict: Verdict)
      requires Valid() && key in channels && channels[key] == channel
      modifies channel
      ensures verdict == Observe(old(View())[key].sequencer, header.seqNum).verdict
      ensures View() == old(View())[key := Admitted(old(View())[key], header.seqNum)]
    {
      verdict := channel.Sequence(header);
      if verdict == Repeat || verdict == Gap {
        channel.Reset();
      }
      assert channel.State() == Admitted(old(channel.State()), header.seqNum);
    }

    method OnMessageCallback(header: PacketHeader, message: Message)
      modifies this`callbacks
      ensures callbacks == old(callbacks) + [OnMessage(header, message)]
    {
      callbacks := callbacks + [OnMessage(header, message)];
    }

    /** Dispatches one more datagram in a process that has lived through `history`. */
    method DispatchNext(layout: Layout, datagram: seq<byte>, ghost history: seq<seq<byte>>) returns (status: Status)
      requires Valid()
      requires Receive(layout, NoReaction, history) == FeedState(View(), callbacks, Alive)
      modifies this`channels, this`callbacks, channels.Values
      ensures Valid() && fresh(channels.Values - old(channels.Values))
      ensures FeedState(View(), callbacks, status) == Receive(layout, NoReaction, history + [datagram])
    {
      ReceiveOneMore(layout, NoReaction, history, datagram);
      var accepted;
      status, accepted := Dispatch(layout, this, datagram, |history|);
    }

    /** Drains the socket, dispatching each datagram, until a receive returns no bytes or the process ends. */
    method Drain(layout: Layout, pending: seq<seq<byte>>, ghost history: seq<seq<byte>>) returns (status: Status)
      requires Valid()
      requires Receive(layout, NoReaction, history) == FeedState(View(), callbacks, Alive)
      modifies this`channels, this`callbacks, channels.Values
      ensures Valid() && fresh(channels.Values - old(channels.Values))
      ensures FeedState(View(), callbacks, status) == Receive(layout, NoReaction, history + Batch(pending))
    {
      status := Alive;
      var queue := pending;
      ghost var done := history;
      assert history + Batch(pending) == done + Batch(queue);
      while status == Alive
        invariant Valid() && fresh(channels.Values - old(channels.Values))
        invariant FeedState(View(), callbacks, status) == Receive(layout, NoReaction, done)
        invariant done + Batch(queue) == history + Batch(pending)
        decreases |queue|, status == Alive
      {
        var datagram := [];
        if queue != [] {
          datagram, queue := queue[0], queue[1..];
        }
        if datagram == [] {
          assert done == history + Batch(pending);
          return;
        }
        status := DispatchNext(layout, datagram, done);
        Shift(done, datagram, Batch(queue));
        done := done + [datagram];
      }
      DeadStays(layout, NoReaction, done, Batch(queue));
    }

    /** The read event. The process having lived through `history`, it ends in the state that Receive gives for
        everything drained so far. */
    method OnRead(layout: Layout, receiveTime: int, pending: seq<seq<byte>>, ghost history: seq<seq<byte>>)
      returns (status: Status)
      requires Valid()
      requires Receive(layout, NoReaction, history) == FeedState(View(), callbacks, Alive)
      modifies this, channels.Values
      ensures Valid() && fresh(channels.Values - old(channels.Values))
      ensures FeedState(View(), callbacks, status) == Receive(layout, NoReaction, history + Batch(pending))
      ensures connectionStatus == Ready
      ensures forall timeout ::
                lastUpdateTime == Watchdog.Next(old(lastUpdateTime), Watchdog.Heard(receiveTime), timeout)
    {
      lastUpdateTime := receiveTime;
      connectionStatus := Ready;
      status := Drain(layout, pending, history);
    }
  }

  lemma UpdateTwice(before: ChannelMap, found: ChannelMap, key: uint16, first: ChannelState, second: ChannelState)
    requires found == before[key := first]
    ensures found[key := second] == before[key := second] && found[key] == first
  {
  }

  lemma Shift(done: seq<seq<byte>>, datagram: seq<byte>, rest: seq<seq<byte>>)
    ensures done + ([datagram] + rest) == done + [datagram] + rest
  {
  }

  /** What one read event takes from the socket: everything up to the first empty datagram, which ends the loop. */
  function Batch(pending: seq<seq<byte>>): seq<seq<byte>>
  {
    if pending == [] || pending[0] == [] then [] else [pending[0]] + Batch(pending[1..])
  }

  /** It is the one beginning of what is pending that holds no empty datagram and stops only in front of one. */
  lemma {:induction false} BatchIff(pending: seq<seq<byte>>, taken: seq<seq<byte>>)
    ensures taken == Batch(pending)
       <==> taken <= pending && [] !in taken && (|taken| < |pending| ==> pending[|taken|] == [])
  {
    if pending != [] && pending[0] != [] {
      BatchIff(pending[1..], Batch(pending[1..]));
      assert pending == [pending[0]] + pending[1..];
      if taken != [] && taken <= pending && [] !in taken {
        assert taken == [taken[0]] + taken[1..];
        BatchIff(pending[1..], taken[1..]);
      }
    }
  }

  /** A process that has ended handles nothing more. */
  lemma {:induction false} DeadStays(layout: Layout, react: Reaction, datagrams: seq<seq<byte>>, more: seq<seq<byte>>)
    requires Receive(layout, react, datagrams).status != Alive || more == []
    ensures Receive(layout, react, datagrams + more) == Receive(layout, react, datagrams)
    decreases |more|
  {
    if more == [] {
      assert datagrams + more == datagrams;
    } else {
      var n := |more| - 1;
      DeadStays(layout, react, datagrams, more[..n]);
      ReceiveOneMore(layout, react, datagrams + more[..n], more[n]);
      assert datagrams + more[..n] + [more[n]] == datagrams + more;
    }
  }

  lemma {:induction false} NoReactions(n: nat, messages: seq<Message>)
    ensures Reactions(NoReaction, n, messages) == []
    decreases |messages|
  {
    if messages != [] { NoReactions(n, messages[..|messages| - 1]); }
  }

  lemma CallsAhead(before: seq<Callback>, header: PacketHeader, message: Message, rest: seq<Message>)
    ensures before + [OnMessage(header, message)] + Calls(header, rest) == before + Calls(header, [message] + rest)
  {
    assert Calls(header, [message] + rest) == [OnMessage(header, message)] + Calls(header, rest);
  }

  /** The body of the framing loop, up to the narrowing of the packet: reads the message header, picks the template,
      and calls the handler with the message decoded from the front of everything after the message header. */
  method DispatchFrame(layout: Layout, handler: MarketData, header: PacketHeader, packet: seq<byte>)
    returns (delivery: Delivery)
    modifies handler`callbacks
    ensures delivery == DeliverFirst(layout, packet)
    ensures handler.callbacks
         == old(handler.callbacks) + if delivery.Delivers? then [OnMessage(header, delivery.message)] else []
  {
    if |packet| < MESSAGE_HEADER_SIZE {
      return Fails(ShortHeader);
    }
    var messageHeader := DecodeMessageHeader(packet);
    var rest := packet[MESSAGE_HEADER_SIZE..];
    if messageHeader.templateId !in TEMPLATE_IDS {
      return Fails(UnknownTemplate);
    }
    var block := layout(messageHeader.templateId);
    if |rest| < block {
      return Fails(ShortBlock);
    }
    var message := Message(messageHeader, rest[..block]);
    handler.OnMessageCallback(header, message);
    delivery := Delivers(message);
  }

  /** The framing loop of an accepted packet. It makes one message callback for each frame, and reports how it ended:
      through its condition, on a fault, or, at a zero messageLength, not at all. */
  method DispatchFrames(layout: Layout, handler: MarketData, header: PacketHeader, buffer: seq<byte>)
    returns (status: Status)
    modifies handler`callbacks
    ensures handler.callbacks == old(handler.callbacks) + Calls(header, Walk(layout, buffer).messages)
    ensures status == StatusOf(Walk(layout, buffer).ending)
  {
    var packet := buffer;
    ghost var calls := handler.callbacks + Calls(header, Walk(layout, buffer).messages);
    while packet != []
      invariant handler.callbacks + Calls(header, Walk(layout, packet).messages) == calls
      invariant Walk(layout, packet).ending == Walk(layout, buffer).ending
      decreases |packet|
    {
      ghost var before := handler.callbacks;
      var delivery := DispatchFrame(layout, handler, header, packet);
      if delivery.Fails? {
        return Status.Aborted(BadFrame(delivery.fault));
      }
      var length := delivery.message.header.messageLength;
      ghost var rest := if 0 < length <= |packet| then Walk(layout, packet[length..]).messages else [];
      CallsAhead(before, header, delivery.message, rest);
      if length > |packet| {
        return Status.Aborted(BadFrame(Overrun));
      }
      if length == 0 {
        return Diverged;
      }
      packet := packet[length..];
    }
    if packet != [] {
      assert false;
    }
    status := Alive;
  }

  /** The parser's callback: the header first, then, if it was accepted, the frames. */
  method DispatchPacket(layout: Layout, handler: MarketData, header: PacketHeader, packet: seq<byte>)
    returns (status: Status, verdict: Verdict)
    requires handler.Valid()
    modifies handler`channels, handler`callbacks, handler.channels.Values
    ensures handler.Valid() && fresh(handler.channels.Values - old(handler.channels.Values))
    ensures verdict == Observe(Fetch(old(handler.View()), KeyOf(header.channelId)).sequencer, header.seqNum).verdict
    ensures handler.View() == old(handler.View())[KeyOf(header.channelId)
                              := Admitted(Fetch(old(handler.View()), KeyOf(header.channelId)), header.seqNum)]
    ensures handler.callbacks == old(handler.callbacks) + PacketCalls(layout, verdict, header, packet)
    ensures status == PacketStatus(layout, verdict, packet)
  {
    ghost var before := handler.callbacks;
    verdict := handler.OnPacketHeader(header);
    ghost var messages: seq<Message> := [];
    if verdict == AssertionFails {
      status := Status.Aborted(SequencerAssertion);
    } else if verdict != Accepted {
      status := Alive;
    } else {
      status := DispatchFrames(layout, handler, header, packet);
      messages := Walk(layout, packet).messages;
    }
    HeaderThenMessages(before, header, Calls(header, messages));
  }

  lemma HeaderThenMessages(before: seq<Callback>, header: PacketHeader, messages: seq<Callback>)
    ensures before + [OnHeader(header)] + messages == before + ([OnHeader(header)] + messages)
    ensures before + [OnHeader(header)] == before + ([OnHeader(header)] + [])
  {
  }

  /** With empty message handlers a dispatch does to the channels just what the header callback does. */
  lemma DispatchedWithoutReactions(layout: Layout, n: nat, st: FeedState, datagram: seq<byte>)
    requires HasHeader(datagram)
    ensures var header, packet := Decode(datagram), datagram[HEADER_SIZE..];
            var key := KeyOf(header.channelId);
            var verdict := Observe(Fetch(st.channels, key).sequencer, header.seqNum).verdict;
            Dispatched(layout, NoReaction, n, st, datagram)
            == FeedState(
                 st.channels[key := Admitted(Fetch(st.channels, key), header.seqNum)],
                 st.callbacks + PacketCalls(layout, verdict, header, packet),
                 PacketStatus(layout, verdict, packet))
  {
    NoReactions(n, Walk(layout, datagram[HEADER_SIZE..]).messages);
  }

  /** Parses one datagram, the n-th of a run, and calls the handler back; `accepted` is the value the parser returns
      to its caller. */
  method Dispatch(layout: Layout, handler: MarketData, buffer: seq<byte>, ghost n: nat)
    returns (status: Status, accepted: bool)
    requires handler.Valid()
    modifies handler`channels, handler`callbacks, handler.channels.Values
    ensures handler.Valid() && fresh(handler.channels.Values - old(handler.channels.Values))
    ensures FeedState(handler.View(), handler.callbacks, status)
         == Dispatched(layout, NoReaction, n, FeedState(old(handler.View()), old(handler.callbacks), Alive), buffer)
    ensures accepted
       <==> HasHeader(buffer) && status == Alive
            && var before, header := old(handler.View()), Decode(buffer);
               Observe(Fetch(before, KeyOf(header.channelId)).sequencer, header.seqNum).verdict == Accepted
  {
    if |buffer| < HEADER_SIZE {
      return Status.Aborted(ShortDatagram), false;
    }
    ghost var before := FeedState(handler.View(), handler.callbacks, Alive);
    var verdict;
    status, verdict := DispatchPacket(layout, handler, Decode(buffer), buffer[HEADER_SIZE..]);
    accepted := verdict == Accepted && status == Alive;
    DispatchedWithoutReactions(layout, n, before, buffer);
  }
}
