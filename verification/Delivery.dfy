/** What the pipeline owes a publisher: well-formed packets, on any interleaving of channels, come out as frames. */
module Delivery {
  import opened ByteOrder
  import opened PacketHeaders
  import opened Framing
  import opened Sequencing
  import opened WideSequencing
  import opened Channels
  import opened Feeds
  import opened Pipeline

  /** A packet as its publisher wrote it. */
  datatype Sent = Sent(header: PacketHeader, frames: seq<Frame>)

  function EncodeSent(sent: Sent): (datagram: seq<byte>)
    ensures HasHeader(datagram)
  {
    Encode(sent.header) + EncodeFrames(sent.frames)
  }

  function EncodeAll(sents: seq<Sent>): (datagrams: seq<seq<byte>>)
    ensures |datagrams| == |sents| && AllHaveHeaders(datagrams)
    ensures forall i :: 0 <= i < |sents| ==> datagrams[i] == EncodeSent(sents[i])
  {
    seq(|sents|, i requires 0 <= i < |sents| => EncodeSent(sents[i]))
  }

  predicate AllSentWellFormed(layout: Layout, sents: seq<Sent>)
  {
    forall i :: 0 <= i < |sents| ==> AllWellFormed(layout, sents[i].frames)
  }

  function SentOn(sents: seq<Sent>, key: uint16): seq<Sent>
  {
    if sents == [] then [] else
    var last := sents[|sents| - 1];
    SentOn(sents[..|sents| - 1], key) + if KeyOf(last.header.channelId) == key then [last] else []
  }

  function SentNumbers(sents: seq<Sent>): (numbers: seq<int64>)
    ensures |numbers| == |sents|
    ensures forall i :: 0 <= i < |sents| ==> numbers[i] == sents[i].header.seqNum
  {
    seq(|sents|, i requires 0 <= i < |sents| => sents[i].header.seqNum)
  }

  /** The frames of the packets a stand-alone sequencer accepts, in the order they were sent. */
  function AcceptedFrames(layout: Layout, own: seq<Sent>): seq<Callback>
    requires AllSentWellFormed(layout, own)
  {
    if own == [] then [] else
    var before, last := own[..|own| - 1], own[|own| - 1];
    AcceptedFrames(layout, before)
    + if VerdictOn(SentNumbers(before), last.header.seqNum) == Accepted
      then Calls(last.header, MessagesOf(layout, last.frames)) else []
  }

  lemma SentParses(sent: Sent)
    ensures Decode(EncodeSent(sent)) == sent.header
    ensures EncodeSent(sent)[HEADER_SIZE..] == EncodeFrames(sent.frames)
  {
    DecodeOfEncode(sent.header, EncodeFrames(sent.frames));
  }

  lemma EncodeAllOneMore(sents: seq<Sent>, sent: Sent)
    ensures EncodeAll(sents + [sent]) == EncodeAll(sents) + [EncodeSent(sent)]
  {
  }

  lemma SentNumbersEncoded(sents: seq<Sent>)
    ensures SeqNums(EncodeAll(sents)) == SentNumbers(sents)
  {
    forall i | 0 <= i < |sents| ensures Decode(EncodeAll(sents)[i]).seqNum == sents[i].header.seqNum {
      SentParses(sents[i]);
    }
  }

  lemma SentOnOneMore(sents: seq<Sent>, sent: Sent, key: uint16)
    ensures SentOn(sents + [sent], key)
         == if KeyOf(sent.header.channelId) == key then SentOn(sents, key) + [sent] else SentOn(sents, key)
  {
    assert (sents + [sent])[..|sents|] == sents;
    assert SentOn(sents, key) + [] == SentOn(sents, key);
  }

  lemma {:induction false} SentOnWellFormed(layout: Layout, sents: seq<Sent>, key: uint16)
    requires AllSentWellFormed(layout, sents)
    ensures AllSentWellFormed(layout, SentOn(sents, key))
    decreases |sents|
  {
    if sents != [] { SentOnWellFormed(layout, sents[..|sents| - 1], key); }
  }

  lemma {:induction false} SentOnEncoded(sents: seq<Sent>, key: uint16)
    ensures DatagramsOf(EncodeAll(sents), key) == EncodeAll(SentOn(sents, key))
    decreases |sents|
  {
    if sents != [] {
      var before, last := sents[..|sents| - 1], sents[|sents| - 1];
      assert sents == before + [last];
      SentOnEncoded(before, key);
      EncodeAllOneMore(before, last);
      SentParses(last);
      DatagramsOfOneMore(EncodeAll(before), EncodeSent(last), key);
      SentOnOneMore(before, last, key);
      EncodeAllOneMore(SentOn(before, key), last);
    }
  }

  lemma {:induction false} ExpectedIsAcceptedFrames(layout: Layout, own: seq<Sent>)
    requires AllSentWellFormed(layout, own)
    ensures Expected(layout, EncodeAll(own)) == AcceptedFrames(layout, own)
    decreases |own|
  {
    if own != [] {
      var before, last := own[..|own| - 1], own[|own| - 1];
      assert own == before + [last];
      ExpectedIsAcceptedFrames(layout, before);
      EncodeAllOneMore(before, last);
      ExpectedOneMore(layout, EncodeAll(before), EncodeSent(last));
      SentNumbersEncoded(before);
      SentParses(last);
      WalkOfEncodedFrames(layout, last.frames);
    }
  }

  lemma SentComplete(layout: Layout, own: seq<Sent>)
    requires AllSentWellFormed(layout, own)
    ensures AcceptedComplete(layout, EncodeAll(own))
  {
    forall i | 0 <= i < |own| ensures Walk(layout, EncodeAll(own)[i][HEADER_SIZE..]).ending == Completed {
      SentParses(own[i]);
      WalkOfEncodedFrames(layout, own[i].frames);
    }
  }

  /** The handler's verdict on a header, in the state a run has reached. */
  function VerdictNow(st: FeedState, header: PacketHeader): Verdict
  {
    Observe(Fetch(st.channels, KeyOf(header.channelId)).sequencer, header.seqNum).verdict
  }

  /** The round trip of one datagram: a handler that accepts its header gets one header callback, then one callback
      for each frame, in order, and the parser returns true with the process alive. */
  lemma AcceptedRoundTrip(layout: Layout, react: Reaction, n: nat, st: FeedState, sent: Sent)
    requires AllWellFormed(layout, sent.frames)
    requires VerdictNow(st, sent.header) == Accepted
    ensures var after := Dispatched(layout, react, n, st, EncodeSent(sent));
            && after.callbacks
               == st.callbacks + ([OnHeader(sent.header)] + Calls(sent.header, MessagesOf(layout, sent.frames)))
            && after.status == Alive
  {
    SentParses(sent);
    WalkOfEncodedFrames(layout, sent.frames);
  }

  lemma SentSoundIffSurvives(layout: Layout, sents: seq<Sent>, key: uint16)
    requires AllSentWellFormed(layout, sents)
    ensures OwnSound(layout, DatagramsOf(EncodeAll(sents), key)) <==> Survives(SentNumbers(SentOn(sents, key)))
  {
    SentOnWellFormed(layout, sents, key);
    SentOnEncoded(sents, key);
    SentNumbersEncoded(SentOn(sents, key));
    SentComplete(layout, SentOn(sents, key));
  }

  /** Well-formed packets on any interleaving of channels, whatever the message handlers do: the process survives
      exactly when each channel's numbers survive its own sequencer. */
  lemma PublishedSurvivesIff(layout: Layout, react: Reaction, sents: seq<Sent>)
    requires AllSentWellFormed(layout, sents)
    ensures Receive(layout, react, EncodeAll(sents)).status == Alive
       <==> forall key: uint16 :: Survives(SentNumbers(SentOn(sents, key)))
  {
    var datagrams := EncodeAll(sents);
    AliveIffSound(layout, react, datagrams);
    if Sound(layout, datagrams) {
      forall key: uint16 ensures Survives(SentNumbers(SentOn(sents, key))) {
        SentSoundIffSurvives(layout, sents, key);
      }
    } else {
      var key: uint16 :| !OwnSound(layout, DatagramsOf(datagrams, key));
      SentSoundIffSurvives(layout, sents, key);
    }
  }

  /** End-to-end delivery of well-formed packets: each channel's callbacks are its accepted packets' frames, each
      with its own template, fields and block, in the order they were sent. */
  lemma PublishedFramesDelivered(layout: Layout, react: Reaction, sents: seq<Sent>, key: uint16)
    requires AllSentWellFormed(layout, sents)
    requires Receive(layout, react, EncodeAll(sents)).status == Alive
    ensures AllSentWellFormed(layout, SentOn(sents, key))
    ensures MessagesFor(Receive(layout, react, EncodeAll(sents)).callbacks, key)
         == AcceptedFrames(layout, SentOn(sents, key))
  {
    SentOnWellFormed(layout, sents, key);
    SentOnEncoded(sents, key);
    ExpectedIsAcceptedFrames(layout, SentOn(sents, key));
    EndToEndDelivery(layout, react, EncodeAll(sents), key);
  }

  lemma OneThenThreeAborts(layout: Layout, react: Reaction, a: seq<byte>, b: seq<byte>)
    requires HasHeader(a) && HasHeader(b) && KeyOf(Decode(a).channelId) == KeyOf(Decode(b).channelId)
    requires Decode(a).seqNum == 1 && Decode(b).seqNum == 3
    requires Walk(layout, a[HEADER_SIZE..]).ending == Completed
    ensures Receive(layout, react, [] + [a] + [b]).status == Status.Aborted(SequencerAssertion)
  {
    var key := KeyOf(Decode(a).channelId);
    DatagramsOfOneMore([], a, key);
    SeqNumsOneMore([], a);
    assert SeqNums(DatagramsOf([], key)) == [];
    assert SeqNums(DatagramsOf([] + [a], key)) == [1];
    DispatchAliveIff(layout, react, [], a);
    DispatchAliveIff(layout, react, [] + [a], b);
    JumpAfterOneFails();
  }

  /** One packet lost right after the first ends the process: two packets without frames on one channel, numbered 1
      and 3, fail the sequencer's assertion. */
  lemma LossAfterFirstPacketAborts(layout: Layout, react: Reaction, first: Sent, second: Sent)
    requires first == Sent(PacketHeader(0, 1, 7, 0, 0), []) && second == Sent(PacketHeader(0, 3, 7, 0, 0), [])
    ensures Receive(layout, react, EncodeAll([first, second])).status == Status.Aborted(SequencerAssertion)
  {
    SentParses(first);
    SentParses(second);
    OneThenThreeAborts(layout, react, EncodeSent(first), EncodeSent(second));
    assert EncodeAll([first, second]) == [] + [EncodeSent(first)] + [EncodeSent(second)];
  }

  // ----- reordered datagrams -----

  ghost predicate SameChannels(a: seq<seq<byte>>, b: seq<seq<byte>>)
  {
    && AllHaveHeaders(a) && AllHaveHeaders(b)
    && forall key: uint16 :: DatagramsOf(a, key) == DatagramsOf(b, key)
  }

  lemma SameSoundness(layout: Layout, a: seq<seq<byte>>, b: seq<seq<byte>>)
    requires SameChannels(a, b)
    ensures Sound(layout, a) <==> Sound(layout, b)
  {
    if Sound(layout, a) {
      forall key: uint16 ensures OwnSound(layout, DatagramsOf(b, key)) {
        assert DatagramsOf(a, key) == DatagramsOf(b, key);
      }
    }
    if Sound(layout, b) {
      forall key: uint16 ensures OwnSound(layout, DatagramsOf(a, key)) {
        assert DatagramsOf(a, key) == DatagramsOf(b, key);
      }
    }
  }

  /** Any reordering of the datagrams that keeps each channel's own order leaves the process alive exactly when the
      original does, and then makes the same message callbacks for every channel and leaves it the same sequencer,
      whatever the handlers do in either run. */
  lemma ReorderingDatagramsIsHarmless(
      layout: Layout, reactA: Reaction, reactB: Reaction, a: seq<seq<byte>>, b: seq<seq<byte>>)
    requires SameChannels(a, b)
    ensures var first, second := Receive(layout, reactA, a), Receive(layout, reactB, b);
            && (first.status == Alive <==> second.status == Alive)
            && (first.status == Alive ==> forall key: uint16 ::
                  && MessagesFor(first.callbacks, key) == MessagesFor(second.callbacks, key)
                  && Fetch(first.channels, key).sequencer == Fetch(second.channels, key).sequencer)
  {
    AliveIffSound(layout, reactA, a);
    AliveIffSound(layout, reactB, b);
    SameSoundness(layout, a, b);
    var first, second := Receive(layout, reactA, a), Receive(layout, reactB, b);
    if first.status == Alive {
      forall key: uint16
        ensures MessagesFor(first.callbacks, key) == MessagesFor(second.callbacks, key)
        ensures Fetch(first.channels, key).sequencer == Fetch(second.channels, key).sequencer
      {
        assert DatagramsOf(a, key) == DatagramsOf(b, key);
        EndToEndDelivery(layout, reactA, a, key);
        EndToEndDelivery(layout, reactB, b, key);
        VerdictIsOwn(layout, reactA, a, key);
        VerdictIsOwn(layout, reactB, b, key);
      }
    }
  }

  // ----- rejected packets -----

  /** The same datagrams, but for the bodies of those that the run rejects. */
  ghost predicate SameButRejectedBodies(layout: Layout, react: Reaction, a: seq<seq<byte>>, b: seq<seq<byte>>)
  {
    && |a| == |b|
    && forall i :: 0 <= i < |a| ==>
         a[i] == b[i]
         || (HasHeader(a[i]) && HasHeader(b[i]) && a[i][..HEADER_SIZE] == b[i][..HEADER_SIZE]
             && VerdictNow(Receive(layout, react, a[..i]), Decode(a[i])) != Accepted)
  }

  lemma SameHeaderBytes(a: seq<byte>, b: seq<byte>)
    requires HasHeader(a) && HasHeader(b) && a[..HEADER_SIZE] == b[..HEADER_SIZE]
    ensures Decode(a) == Decode(b)
  {
    EncodeOfDecode(a);
    EncodeOfDecode(b);
    DecodeOfEncode(Decode(a), []);
    DecodeOfEncode(Decode(b), []);
    assert Encode(Decode(a)) + [] == Encode(Decode(b)) + [];
  }

  lemma RejectedBodyIgnored(layout: Layout, react: Reaction, n: nat, st: FeedState, a: seq<byte>, b: seq<byte>)
    requires a == b
          || (HasHeader(a) && HasHeader(b) && a[..HEADER_SIZE] == b[..HEADER_SIZE]
              && VerdictNow(st, Decode(a)) != Accepted)
    ensures Dispatched(layout, react, n, st, a) == Dispatched(layout, react, n, st, b)
  {
    if a != b { SameHeaderBytes(a, b); }
  }

  /** Rejected packets deliver nothing, whatever their bodies hold: changing those bodies, even to bytes the framing
      loop could not survive, changes neither the callbacks, nor the channels, nor the fate of the process. */
  lemma {:induction false} RejectedBodiesIgnored(layout: Layout, react: Reaction, a: seq<seq<byte>>, b: seq<seq<byte>>)
    requires SameButRejectedBodies(layout, react, a, b)
    ensures Receive(layout, react, a) == Receive(layout, react, b)
    decreases |a|
  {
    if a != [] {
      var n := |a| - 1;
      assert a == a[..n] + [a[n]] && b == b[..n] + [b[n]];
      ReceiveOneMore(layout, react, a[..n], a[n]);
      ReceiveOneMore(layout, react, b[..n], b[n]);
      assert SameButRejectedBodies(layout, react, a[..n], b[..n]) by {
        assert forall i :: 0 <= i < n ==> a[..n][..i] == a[..i];
      }
      RejectedBodiesIgnored(layout, react, a[..n], b[..n]);
      RejectedBodyIgnored(layout, react, n, Receive(layout, react, a[..n]), a[n], b[n]);
    }
  }

  // ----- book buffers, end to end -----

  /** Book-buffer integrity from the wire up, whatever the message handlers do: a channel's buffers hold exactly what
      its packets accepted since its last rejection appended, every entry carries the number of one of those packets,
      and the numbers count up to the channel's previous sequence number if and only if they are unwrapped, as they
      are when positive or when the channel's history stays in range. */
  lemma BooksHoldUnbrokenPackets(
    layout: Layout, react: Reaction, datagrams: seq<seq<byte>>, key: uint16, update: Update)
    requires Receive(layout, react, datagrams).status == Alive
    ensures AllHaveHeaders(datagrams)
    ensures var c := Fetch(Receive(layout, react, datagrams).channels, key);
            var tail := AcceptedTail(EventsOf(FeedEvents(layout, react, datagrams), key));
            && c.bids == AllBids(tail) && c.asks == AllAsks(tail)
            && c.instrumentId == InstrumentAfter(0, AllActions(tail))
            && (update in c.bids || update in c.asks ==> update.seqNum in NumbersOf(tail))
            && (CountsUpTo(NumbersOf(tail), c.sequencer.previous) <==> Unwrapped(NumbersOf(tail)))
            && (AllPositive(NumbersOf(tail)) || AllInRange(SeqNums(DatagramsOf(datagrams, key)))
                ==> Unwrapped(NumbersOf(tail)))
  {
    ChannelsOfReceive(layout, react, datagrams);
    var events := EventsOf(FeedEvents(layout, react, datagrams), key);
    ChannelsIndependent(FeedEvents(layout, react, datagrams), key);
    NumbersOfFeed(layout, react, datagrams, key);
    BuffersHoldAcceptedTail(events);
    InstrumentFollowsTail(events);
    AcceptedTailConsecutive(events);
    var c := Fetch(Receive(layout, react, datagrams).channels, key);
    if update in c.bids || update in c.asks { BookBufferIntegrity(events, update); }
  }
}
