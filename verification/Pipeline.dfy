/** From datagrams to callbacks: header decoding, routing, sequencing and framing put together. */
module Pipeline {
  import opened ByteOrder
  import opened PacketHeaders
  import opened Framing
  import opened Sequencing
  import opened Channels
  import opened Feeds

  /** The virtual calls a feed handler receives. */
  datatype Callback = OnHeader(header: PacketHeader) | OnMessage(header: PacketHeader, message: Message)

  datatype Cause = ShortDatagram | SequencerAssertion | BadFrame(fault: Fault)

  /** Aborted: the process ends. Diverged: the framing loop never ends. */
  datatype Status = Alive | Aborted(cause: Cause) | Diverged

  datatype FeedState = FeedState(channels: ChannelMap, callbacks: seq<Callback>, status: Status)

  const START := FeedState(map[], [], Alive)

  /** What the message handlers do to the channel of their packet: react(n, i, message) is what they do when called
      with the i-th message of the n-th datagram of a run. Handlers see the packet header and keep state of their
      own; since the datagrams of a run fix both, every handler's behaviour in a run is one of these functions, and
      a result for all of them is a result for all handlers. In the repository every handler is empty
      (NoReaction). */
  type Reaction = (nat, nat, Message) -> seq<Action>

  function NoReaction(n: nat, i: nat, message: Message): seq<Action>
  {
    []
  }

  /** What the handlers do in the course of the n-th datagram. */
  function Reactions(react: Reaction, n: nat, messages: seq<Message>): seq<Action>
    decreases |messages|
  {
    if messages == [] then [] else
    var i := |messages| - 1;
    Reactions(react, n, messages[..i]) + react(n, i, messages[i])
  }

  /** How many actions the handlers take before the i-th message. */
  function Offset(react: Reaction, n: nat, messages: seq<Message>, i: nat): nat
    requires i <= |messages|
  {
    if i == 0 then 0 else Offset(react, n, messages, i - 1) + |react(n, i - 1, messages[i - 1])|
  }

  lemma {:induction false} OffsetOfPrefix(react: Reaction, n: nat, messages: seq<Message>, count: nat, i: nat)
    requires i <= count <= |messages|
    ensures Offset(react, n, messages[..count], i) == Offset(react, n, messages, i)
  {
    if i > 0 { OffsetOfPrefix(react, n, messages, count, i - 1); }
  }

  /** The handlers of a packet act in the order of its messages, and every one of them acts: the actions for message i
      come right after those for the messages before it, and there are no others. */
  lemma {:induction false} HandlersActInOrder(react: Reaction, n: nat, messages: seq<Message>, i: nat)
    requires i < |messages|
    ensures var actions, own := Reactions(react, n, messages), react(n, i, messages[i]);
            var from := Offset(react, n, messages, i);
            && |actions| == Offset(react, n, messages, |messages|)
            && from + |own| <= |actions| && actions[from..from + |own|] == own
    decreases |messages|
  {
    var last := |messages| - 1;
    ReactionsCounted(react, n, messages);
    ReactionsCounted(react, n, messages[..last]);
    OffsetOfPrefix(react, n, messages, last, last);
    if i < last {
      HandlersActInOrder(react, n, messages[..last], i);
      OffsetOfPrefix(react, n, messages, last, i);
      var before, own := Reactions(react, n, messages[..last]), react(n, i, messages[i]);
      var from := Offset(react, n, messages, i);
      assert Reactions(react, n, messages)[from..from + |own|] == before[from..from + |own|];
    }
  }

  lemma {:induction false} ReactionsCounted(react: Reaction, n: nat, messages: seq<Message>)
    ensures |Reactions(react, n, messages)| == Offset(react, n, messages, |messages|)
    decreases |messages|
  {
    if messages != [] {
      var last := |messages| - 1;
      ReactionsCounted(react, n, messages[..last]);
      OffsetOfPrefix(react, n, messages, last, last);
    }
  }

  function Calls(header: PacketHeader, messages: seq<Message>): (calls: seq<Callback>)
    ensures |calls| == |messages|
    ensures forall i :: 0 <= i < |calls| ==> calls[i] == OnMessage(header, messages[i])
  {
    seq(|messages|, i requires 0 <= i < |messages| => OnMessage(header, messages[i]))
  }

  function StatusOf(ending: Ending): Status
  {
    match ending
    case Completed => Alive
    case Aborted(fault) => Status.Aborted(BadFrame(fault))
    case Diverges => Diverged
  }

  /** The event a packet is to its channel. */
  function PacketEvent(layout: Layout, react: Reaction, n: nat, header: PacketHeader, packet: seq<byte>): Event
  {
    Packet(header.seqNum, Reactions(react, n, Walk(layout, packet).messages))
  }

  /** The calls one packet makes: always its header, and its messages only when the header was accepted. */
  function PacketCalls(layout: Layout, verdict: Verdict, header: PacketHeader, packet: seq<byte>): seq<Callback>
  {
    [OnHeader(header)] + if verdict == Accepted then Calls(header, Walk(layout, packet).messages) else []
  }

  function PacketStatus(layout: Layout, verdict: Verdict, packet: seq<byte>): Status
  {
    match verdict
    case Accepted => StatusOf(Walk(layout, packet).ending)
    case AssertionFails => Status.Aborted(SequencerAssertion)
    case _ => Alive
  }

  /** The n-th datagram of a run, from the socket buffer to the last callback. */
  function Dispatched(layout: Layout, react: Reaction, n: nat, st: FeedState, datagram: seq<byte>): FeedState
  {
    match Parse(datagram)
    case TooShort => st.(status := Status.Aborted(ShortDatagram))
    case Split(header, packet) =>
      var key := KeyOf(header.channelId);
      var c := Fetch(st.channels, key);
      var verdict := Observe(c.sequencer, header.seqNum).verdict;
      FeedState(
        st.channels[key := Handle(c, PacketEvent(layout, react, n, header, packet))],
        st.callbacks + PacketCalls(layout, verdict, header, packet),
        PacketStatus(layout, verdict, packet))
  }

  /** Datagrams are dispatched one after the other until the process ends or hangs. */
  function Receive(layout: Layout, react: Reaction, datagrams: seq<seq<byte>>): FeedState
  {
    if datagrams == [] then START else
    var n := |datagrams| - 1;
    var st := Receive(layout, react, datagrams[..n]);
    if st.status == Alive then Dispatched(layout, react, n, st, datagrams[n]) else st
  }

  lemma ReceiveOneMore(layout: Layout, react: Reaction, datagrams: seq<seq<byte>>, datagram: seq<byte>)
    ensures Receive(layout, react, datagrams + [datagram])
         == if Receive(layout, react, datagrams).status == Alive
            then Dispatched(layout, react, |datagrams|, Receive(layout, react, datagrams), datagram)
            else Receive(layout, react, datagrams)
  {
    var longer := datagrams + [datagram];
    assert longer[..|longer| - 1] == datagrams && longer[|longer| - 1] == datagram;
  }

  // ----- the feed seen from one channel -----

  predicate HasHeader(datagram: seq<byte>)
  {
    |datagram| >= HEADER_SIZE
  }

  predicate AllHaveHeaders(datagrams: seq<seq<byte>>)
  {
    forall i :: 0 <= i < |datagrams| ==> HasHeader(datagrams[i])
  }

  /** The datagrams that carry one channel's packets. */
  function DatagramsOf(datagrams: seq<seq<byte>>, key: uint16): (own: seq<seq<byte>>)
    requires AllHaveHeaders(datagrams)
    ensures AllHaveHeaders(own)
  {
    if datagrams == [] then [] else
    var last := datagrams[|datagrams| - 1];
    DatagramsOf(datagrams[..|datagrams| - 1], key) + if KeyOf(Decode(last).channelId) == key then [last] else []
  }

  function SeqNums(datagrams: seq<seq<byte>>): (numbers: seq<int64>)
    requires AllHaveHeaders(datagrams)
    ensures |numbers| == |datagrams|
    ensures forall i :: 0 <= i < |datagrams| ==> numbers[i] == Decode(datagrams[i]).seqNum
  {
    seq(|datagrams|, i requires 0 <= i < |datagrams| => Decode(datagrams[i]).seqNum)
  }

  /** A stand-alone sequencer, run on one channel's datagrams, accepts the i-th of them. */
  predicate AcceptsAt(own: seq<seq<byte>>, i: nat)
    requires AllHaveHeaders(own) && i < |own|
  {
    VerdictOn(SeqNums(own)[..i], SeqNums(own)[i]) == Accepted
  }

  /** What the channel's subscribers should see: the frames of the accepted datagrams, in order. */
  function Expected(layout: Layout, own: seq<seq<byte>>): seq<Callback>
    requires AllHaveHeaders(own)
  {
    if own == [] then [] else
    var n := |own| - 1;
    Expected(layout, own[..n])
    + if AcceptsAt(own, n) then Calls(Decode(own[n]), Walk(layout, own[n][HEADER_SIZE..]).messages) else []
  }

  /** The message callbacks that belong to one channel. */
  function MessagesFor(callbacks: seq<Callback>, key: uint16): seq<Callback>
  {
    if callbacks == [] then [] else
    var last := callbacks[|callbacks| - 1];
    MessagesFor(callbacks[..|callbacks| - 1], key)
    + if last.OnMessage? && KeyOf(last.header.channelId) == key then [last] else []
  }

  lemma {:induction false} MessagesForAppended(a: seq<Callback>, b: seq<Callback>, key: uint16)
    ensures MessagesFor(a + b, key) == MessagesFor(a, key) + MessagesFor(b, key)
    decreases |b|
  {
    if b == [] {
      assert a + b == a;
    } else {
      MessagesForAppended(a, b[..|b| - 1], key);
      assert (a + b)[..|a + b| - 1] == a + b[..|b| - 1];
    }
  }

  lemma {:induction false} MessagesForCalls(header: PacketHeader, messages: seq<Message>, key: uint16)
    ensures MessagesFor(Calls(header, messages), key)
         == if KeyOf(header.channelId) == key then Calls(header, messages) else []
    decreases |messages|
  {
    if messages != [] {
      MessagesForCalls(header, messages[..|messages| - 1], key);
      assert Calls(header, messages)[..|messages| - 1] == Calls(header, messages[..|messages| - 1]);
    }
  }

  // ----- the feed as a run of routed events -----

  /** The n-th datagram as an event of its channel. */
  function EventOf(layout: Layout, react: Reaction, n: nat, datagram: seq<byte>): FeedEvent
    requires HasHeader(datagram)
  {
    var header := Decode(datagram);
    FeedEvent(header.channelId, PacketEvent(layout, react, n, header, datagram[HEADER_SIZE..]))
  }

  function FeedEvents(layout: Layout, react: Reaction, datagrams: seq<seq<byte>>): seq<FeedEvent>
    requires AllHaveHeaders(datagrams)
  {
    if datagrams == [] then [] else
    var n := |datagrams| - 1;
    FeedEvents(layout, react, datagrams[..n]) + [EventOf(layout, react, n, datagrams[n])]
  }

  lemma FeedEventsOneMore(layout: Layout, react: Reaction, datagrams: seq<seq<byte>>, datagram: seq<byte>)
    requires AllHaveHeaders(datagrams) && HasHeader(datagram)
    ensures FeedEvents(layout, react, datagrams + [datagram])
         == FeedEvents(layout, react, datagrams) + [EventOf(layout, react, |datagrams|, datagram)]
  {
    var longer := datagrams + [datagram];
    assert longer[..|longer| - 1] == datagrams && longer[|longer| - 1] == datagram;
  }

  lemma {:induction false} FeedEventsInOrder(layout: Layout, react: Reaction, datagrams: seq<seq<byte>>)
    requires AllHaveHeaders(datagrams)
    ensures |FeedEvents(layout, react, datagrams)| == |datagrams|
    ensures forall i :: 0 <= i < |datagrams| ==>
              FeedEvents(layout, react, datagrams)[i] == EventOf(layout, react, i, datagrams[i])
    decreases |datagrams|
  {
    if datagrams != [] { FeedEventsInOrder(layout, react, datagrams[..|datagrams| - 1]); }
  }

  /** Each datagram is one event of its channel: its number, and what the handlers do with each of its messages. */
  lemma FeedEventsAt(layout: Layout, react: Reaction, datagrams: seq<seq<byte>>, i: nat)
    requires AllHaveHeaders(datagrams) && i < |datagrams|
    ensures var header, messages := Decode(datagrams[i]), Walk(layout, datagrams[i][HEADER_SIZE..]).messages;
            && |FeedEvents(layout, react, datagrams)| == |datagrams|
            && FeedEvents(layout, react, datagrams)[i]
               == FeedEvent(header.channelId, Packet(header.seqNum, Reactions(react, i, messages)))
  {
    FeedEventsInOrder(layout, react, datagrams);
  }

  lemma SeqNumsOneMore(datagrams: seq<seq<byte>>, datagram: seq<byte>)
    requires AllHaveHeaders(datagrams) && HasHeader(datagram)
    ensures SeqNums(datagrams + [datagram]) == SeqNums(datagrams) + [Decode(datagram).seqNum]
  {
  }

  lemma DatagramsOfOneMore(datagrams: seq<seq<byte>>, datagram: seq<byte>, key: uint16)
    requires AllHaveHeaders(datagrams) && HasHeader(datagram)
    ensures DatagramsOf(datagrams + [datagram], key)
         == if KeyOf(Decode(datagram).channelId) == key then DatagramsOf(datagrams, key) + [datagram]
            else DatagramsOf(datagrams, key)
  {
    assert (datagrams + [datagram])[..|datagrams|] == datagrams;
    assert DatagramsOf(datagrams, key) + [] == DatagramsOf(datagrams, key);
  }

  lemma {:induction false} NumbersOfFeed(
    layout: Layout, react: Reaction, datagrams: seq<seq<byte>>, key: uint16)
    requires AllHaveHeaders(datagrams)
    ensures Numbers(EventsOf(FeedEvents(layout, react, datagrams), key)) == SeqNums(DatagramsOf(datagrams, key))
    decreases |datagrams|
  {
    if datagrams != [] {
      var before, last := datagrams[..|datagrams| - 1], datagrams[|datagrams| - 1];
      var events, e := FeedEvents(layout, react, before), EventOf(layout, react, |before|, last);
      assert datagrams == before + [last];
      FeedEventsOneMore(layout, react, before, last);
      NumbersOfFeed(layout, react, before, key);
      EventsOfOneMore(events, e, key);
      NumbersOneMore(EventsOf(events, key), e.event);
      DatagramsOfOneMore(before, last, key);
      SeqNumsOneMore(DatagramsOf(before, key), last);
    }
  }

  /** A dispatch that leaves the process alive is one routed event. */
  lemma DispatchRoutes(layout: Layout, react: Reaction, n: nat, st: FeedState, datagram: seq<byte>)
    requires st.status == Alive && Dispatched(layout, react, n, st, datagram).status == Alive
    ensures HasHeader(datagram)
    ensures RouteAlive(FeedRun(st.channels, true), EventOf(layout, react, n, datagram))
         == FeedRun(Dispatched(layout, react, n, st, datagram).channels, true)
  {
  }

  /** While the process lives, its channel map is that of the routed events. */
  lemma {:induction false} ChannelsOfReceive(layout: Layout, react: Reaction, datagrams: seq<seq<byte>>)
    requires Receive(layout, react, datagrams).status == Alive
    ensures AllHaveHeaders(datagrams)
    ensures RunOf(FeedEvents(layout, react, datagrams))
         == FeedRun(Receive(layout, react, datagrams).channels, true)
    decreases |datagrams|
  {
    if datagrams != [] {
      var before, last := datagrams[..|datagrams| - 1], datagrams[|datagrams| - 1];
      assert datagrams == before + [last];
      ReceiveOneMore(layout, react, before, last);
      ChannelsOfReceive(layout, react, before);
      DispatchRoutes(layout, react, |before|, Receive(layout, react, before), last);
      FeedEventsOneMore(layout, react, before, last);
      RunOneMore(FeedEvents(layout, react, before), EventOf(layout, react, |before|, last));
    }
  }

  /** In a live process, the next verdict on a channel is that of the stand-alone sequencer. */
  lemma VerdictIsOwn(layout: Layout, react: Reaction, datagrams: seq<seq<byte>>, key: uint16)
    requires Receive(layout, react, datagrams).status == Alive
    ensures AllHaveHeaders(datagrams)
    ensures After(SeqNums(DatagramsOf(datagrams, key)))
         == Run(Fetch(Receive(layout, react, datagrams).channels, key).sequencer, true)
  {
    ChannelsOfReceive(layout, react, datagrams);
    ChannelsIndependent(FeedEvents(layout, react, datagrams), key);
    SequencerOfLife(EventsOf(FeedEvents(layout, react, datagrams), key));
    NumbersOfFeed(layout, react, datagrams, key);
  }

  // ----- end to end -----

  /** What one more datagram adds to a channel's expected callbacks. */
  function ExpectedNext(layout: Layout, numbers: seq<int64>, datagram: seq<byte>): seq<Callback>
    requires HasHeader(datagram)
  {
    if VerdictOn(numbers, Decode(datagram).seqNum) == Accepted
    then Calls(Decode(datagram), Walk(layout, datagram[HEADER_SIZE..]).messages)
    else []
  }

  lemma ExpectedOneMore(layout: Layout, own: seq<seq<byte>>, datagram: seq<byte>)
    requires AllHaveHeaders(own) && HasHeader(datagram)
    ensures Expected(layout, own + [datagram]) == Expected(layout, own) + ExpectedNext(layout, SeqNums(own), datagram)
  {
    SeqNumsOneMore(own, datagram);
    assert (own + [datagram])[..|own|] == own;
    assert SeqNums(own + [datagram])[..|own|] == SeqNums(own);
  }

  /** What one packet calls back for one channel. */
  lemma PacketCallsFor(layout: Layout, verdict: Verdict, header: PacketHeader, packet: seq<byte>, key: uint16)
    ensures MessagesFor(PacketCalls(layout, verdict, header, packet), key)
         == if verdict == Accepted && KeyOf(header.channelId) == key
            then Calls(header, Walk(layout, packet).messages) else []
  {
    var calls := if verdict == Accepted then Calls(header, Walk(layout, packet).messages) else [];
    assert MessagesFor([OnHeader(header)], key) == [];
    MessagesForAppended([OnHeader(header)], calls, key);
    MessagesForCalls(header, Walk(layout, packet).messages, key);
  }

  lemma DispatchDelivers(
    layout: Layout, react: Reaction, n: nat, st: FeedState, datagram: seq<byte>, key: uint16, numbers: seq<int64>)
    requires HasHeader(datagram)
    requires After(numbers).sequencer == Fetch(st.channels, key).sequencer
    ensures MessagesFor(Dispatched(layout, react, n, st, datagram).callbacks, key)
         == MessagesFor(st.callbacks, key)
            + if KeyOf(Decode(datagram).channelId) == key then ExpectedNext(layout, numbers, datagram) else []
  {
    var header, packet := Decode(datagram), datagram[HEADER_SIZE..];
    var verdict := Observe(Fetch(st.channels, KeyOf(header.channelId)).sequencer, header.seqNum).verdict;
    MessagesForAppended(st.callbacks, PacketCalls(layout, verdict, header, packet), key);
    PacketCallsFor(layout, verdict, header, packet, key);
  }

  /** End-to-end delivery, for every run of datagrams that leaves the process alive: the messages called back for a
      channel are exactly those framed in the datagrams of its own subsequence that a stand-alone sequencer accepts,
      in order; everything else the feed carried makes no difference. */
  lemma {:induction false} EndToEndDelivery(layout: Layout, react: Reaction, datagrams: seq<seq<byte>>, key: uint16)
    requires Receive(layout, react, datagrams).status == Alive
    ensures AllHaveHeaders(datagrams)
    ensures MessagesFor(Receive(layout, react, datagrams).callbacks, key)
         == Expected(layout, DatagramsOf(datagrams, key))
    decreases |datagrams|
  {
    ChannelsOfReceive(layout, react, datagrams);
    if datagrams != [] {
      var before, last := datagrams[..|datagrams| - 1], datagrams[|datagrams| - 1];
      assert datagrams == before + [last];
      ReceiveOneMore(layout, react, before, last);
      EndToEndDelivery(layout, react, before, key);
      VerdictIsOwn(layout, react, before, key);
      var own := DatagramsOf(before, key);
      DispatchDelivers(layout, react, |before|, Receive(layout, react, before), last, key, SeqNums(own));
      DatagramsOfOneMore(before, last, key);
      ExpectedOneMore(layout, own, last);
    }
  }

  /** All callbacks of a run in order, without its state: each datagram makes one for its header, and then, if a
      stand-alone sequencer accepts it after its own channel's earlier numbers, one for each frame. */
  function AllCalls(layout: Layout, datagrams: seq<seq<byte>>): seq<Callback>
    requires AllHaveHeaders(datagrams)
  {
    if datagrams == [] then [] else
    var before, last := datagrams[..|datagrams| - 1], datagrams[|datagrams| - 1];
    AllCalls(layout, before) + [OnHeader(Decode(last))]
    + ExpectedNext(layout, SeqNums(DatagramsOf(before, KeyOf(Decode(last).channelId))), last)
  }

  lemma DispatchCalls(
    layout: Layout, react: Reaction, n: nat, st: FeedState, datagram: seq<byte>, numbers: seq<int64>)
    requires HasHeader(datagram)
    requires After(numbers).sequencer == Fetch(st.channels, KeyOf(Decode(datagram).channelId)).sequencer
    ensures Dispatched(layout, react, n, st, datagram).callbacks
         == st.callbacks + [OnHeader(Decode(datagram))] + ExpectedNext(layout, numbers, datagram)
  {
  }

  /** The callbacks of the whole feed, channels interleaved as they arrived, up to and with the datagram that ends the
      process, if one does. */
  lemma {:induction false} CallbacksInOrder(layout: Layout, react: Reaction, datagrams: seq<seq<byte>>)
    requires AllHaveHeaders(datagrams)
    requires datagrams != [] ==> Receive(layout, react, datagrams[..|datagrams| - 1]).status == Alive
    ensures Receive(layout, react, datagrams).callbacks == AllCalls(layout, datagrams)
    decreases |datagrams|
  {
    if datagrams != [] {
      var before, last := datagrams[..|datagrams| - 1], datagrams[|datagrams| - 1];
      var key := KeyOf(Decode(last).channelId);
      assert datagrams == before + [last];
      if before != [] {
        assert before == before[..|before| - 1] + [before[|before| - 1]];
        ReceiveOneMore(layout, react, before[..|before| - 1], before[|before| - 1]);
      }
      CallbacksInOrder(layout, react, before);
      ReceiveOneMore(layout, react, before, last);
      VerdictIsOwn(layout, react, before, key);
      DispatchCalls(
        layout, react, |before|, Receive(layout, react, before), last, SeqNums(DatagramsOf(before, key)));
    }
  }

  /** The accepted datagrams of one channel hold chains that the framing loop consumes to the end. */
  predicate AcceptedComplete(layout: Layout, own: seq<seq<byte>>)
    requires AllHaveHeaders(own)
  {
    forall i :: 0 <= i < |own| && AcceptsAt(own, i) ==> Walk(layout, own[i][HEADER_SIZE..]).ending == Completed
  }

  predicate OwnSound(layout: Layout, own: seq<seq<byte>>)
    requires AllHaveHeaders(own)
  {
    Survives(SeqNums(own)) && AcceptedComplete(layout, own)
  }

  predicate NextSound(layout: Layout, numbers: seq<int64>, datagram: seq<byte>)
    requires HasHeader(datagram)
  {
    var verdict := VerdictOn(numbers, Decode(datagram).seqNum);
    && verdict != AssertionFails
    && (verdict == Accepted ==> Walk(layout, datagram[HEADER_SIZE..]).ending == Completed)
  }

  lemma OwnSoundOneMore(layout: Layout, own: seq<seq<byte>>, datagram: seq<byte>)
    requires AllHaveHeaders(own) && HasHeader(datagram)
    ensures OwnSound(layout, own + [datagram])
       <==> OwnSound(layout, own) && NextSound(layout, SeqNums(own), datagram)
  {
    var longer := own + [datagram];
    SeqNumsOneMore(own, datagram);
    AfterOneMore(SeqNums(own), Decode(datagram).seqNum);
    assert SeqNums(longer)[..|own|] == SeqNums(own);
    forall i | 0 <= i < |own|
      ensures AcceptsAt(longer, i) <==> AcceptsAt(own, i)
      ensures longer[i] == own[i]
    {
      assert SeqNums(longer)[..i] == SeqNums(own)[..i];
    }
    assert AcceptsAt(longer, |own|) <==> VerdictOn(SeqNums(own), Decode(datagram).seqNum) == Accepted;
    assert longer[|own|] == datagram;
  }

  ghost predicate Sound(layout: Layout, datagrams: seq<seq<byte>>)
  {
    && AllHaveHeaders(datagrams)
    && forall key: uint16 :: OwnSound(layout, DatagramsOf(datagrams, key))
  }

  lemma SoundOneMore(layout: Layout, datagrams: seq<seq<byte>>, datagram: seq<byte>)
    requires AllHaveHeaders(datagrams) && HasHeader(datagram)
    ensures Sound(layout, datagrams + [datagram])
       <==> Sound(layout, datagrams)
            && NextSound(layout, SeqNums(DatagramsOf(datagrams, KeyOf(Decode(datagram).channelId))), datagram)
  {
    var own := KeyOf(Decode(datagram).channelId);
    forall key: uint16
      ensures OwnSound(layout, DatagramsOf(datagrams + [datagram], key))
         <==> OwnSound(layout, DatagramsOf(datagrams, key))
              && (key == own ==> NextSound(layout, SeqNums(DatagramsOf(datagrams, key)), datagram))
    {
      DatagramsOfOneMore(datagrams, datagram, key);
      OwnSoundOneMore(layout, DatagramsOf(datagrams, key), datagram);
    }
  }

  /** A dispatch leaves the process as the verdict on its header and the framing of its packet say. */
  lemma DispatchedStatus(layout: Layout, react: Reaction, n: nat, st: FeedState, datagram: seq<byte>)
    requires HasHeader(datagram)
    ensures Dispatched(layout, react, n, st, datagram).status
         == PacketStatus(
              layout,
              Observe(Fetch(st.channels, KeyOf(Decode(datagram).channelId)).sequencer, Decode(datagram).seqNum).verdict,
              datagram[HEADER_SIZE..])
  {
  }

  lemma PacketStatusMeans(layout: Layout, verdict: Verdict, packet: seq<byte>)
    ensures PacketStatus(layout, verdict, packet) == Alive
       <==> verdict != AssertionFails && (verdict == Accepted ==> Walk(layout, packet).ending == Completed)
    ensures PacketStatus(layout, verdict, packet) == Status.Aborted(SequencerAssertion) <==> verdict == AssertionFails
    ensures PacketStatus(layout, verdict, packet) == Diverged
       <==> verdict == Accepted && Walk(layout, packet).ending == Diverges
    ensures forall fault ::
              (PacketStatus(layout, verdict, packet) == Status.Aborted(BadFrame(fault)))
              == (verdict == Accepted && Walk(layout, packet).ending == Ending.Aborted(fault))
  {
  }

  /** The fate of one more datagram with a header: it leaves the process alive exactly when it is sound for its own
      channel, ends it with the sequencer's assertion exactly when its own channel's numbers fail it, and ends it with
      a fault of the framing loop, or hangs it, exactly when it is accepted and the loop does. */
  lemma DispatchAliveIff(layout: Layout, react: Reaction, datagrams: seq<seq<byte>>, datagram: seq<byte>)
    requires Receive(layout, react, datagrams).status == Alive && AllHaveHeaders(datagrams) && HasHeader(datagram)
    ensures var own := SeqNums(DatagramsOf(datagrams, KeyOf(Decode(datagram).channelId)));
            var status := Receive(layout, react, datagrams + [datagram]).status;
            && (status == Alive <==> NextSound(layout, own, datagram))
            && (status == Status.Aborted(SequencerAssertion)
                <==> VerdictOn(own, Decode(datagram).seqNum) == AssertionFails)
            && (status == Diverged
                <==> VerdictOn(own, Decode(datagram).seqNum) == Accepted
                     && Walk(layout, datagram[HEADER_SIZE..]).ending == Diverges)
            && (forall fault ::
                  (status == Status.Aborted(BadFrame(fault)))
                  == (VerdictOn(own, Decode(datagram).seqNum) == Accepted
                      && Walk(layout, datagram[HEADER_SIZE..]).ending == Ending.Aborted(fault)))
  {
    var own := SeqNums(DatagramsOf(datagrams, KeyOf(Decode(datagram).channelId)));
    VerdictIsOwn(layout, react, datagrams, KeyOf(Decode(datagram).channelId));
    ReceiveOneMore(layout, react, datagrams, datagram);
    DispatchedStatus(layout, react, |datagrams|, Receive(layout, react, datagrams), datagram);
    PacketStatusMeans(layout, VerdictOn(own, Decode(datagram).seqNum), datagram[HEADER_SIZE..]);
  }

  /** A datagram without a whole header ends the process before any callback, and only such a datagram does. */
  lemma ShortDatagramIff(layout: Layout, react: Reaction, datagrams: seq<seq<byte>>, datagram: seq<byte>)
    requires Receive(layout, react, datagrams).status == Alive
    ensures var before, after := Receive(layout, react, datagrams), Receive(layout, react, datagrams + [datagram]);
            && (after.status == Status.Aborted(ShortDatagram) <==> |datagram| < 24)
            && (|datagram| < 24 ==> after.callbacks == before.callbacks && after.channels == before.channels)
  {
    ReceiveOneMore(layout, react, datagrams, datagram);
  }

  /** The process is alive after a run if and only if every datagram has a header, every channel's own numbers
      survive the sequencer, and the framing loop gets through every accepted packet; rejected packets may hold
      anything. */
  lemma {:induction false} AliveIffSound(layout: Layout, react: Reaction, datagrams: seq<seq<byte>>)
    ensures Receive(layout, react, datagrams).status == Alive <==> Sound(layout, datagrams)
    decreases |datagrams|
  {
    if datagrams == [] {
      assert forall key: uint16 :: DatagramsOf(datagrams, key) == [];
    } else {
      var before, last := datagrams[..|datagrams| - 1], datagrams[|datagrams| - 1];
      assert datagrams == before + [last];
      ReceiveOneMore(layout, react, before, last);
      AliveIffSound(layout, react, before);
      if AllHaveHeaders(datagrams) {
        SoundOneMore(layout, before, last);
        if Receive(layout, react, before).status == Alive {
          DispatchAliveIff(layout, react, before, last);
        }
      } else if AllHaveHeaders(before) {
        assert !HasHeader(last);
      }
    }
  }
}
