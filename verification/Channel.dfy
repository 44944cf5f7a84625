/** One multicast channel: its sequencer, its book buffers and its snapshot flag. */
module Channels {
  import opened ByteOrder
  import opened PacketHeaders
  import opened Sequencing
  import opened WideSequencing

  /** An entry of a book buffer, tagged with the number of the packet whose handler appended it. */
  datatype Update = Update(seqNum: int64, level: int)

  datatype ChannelState = ChannelState(
    instrumentId: uint32, bids: seq<Update>, asks: seq<Update>, sequencer: Sequencer, ready: bool)

  const FRESH := ChannelState(0, [], [], INITIAL, false)

  // ----- the operations as functions of the state -----

  /** The call operator: only a detected gap touches anything beside the sequencer. */
  function Sequenced(c: ChannelState, seqNum: int64): ChannelState
  {
    var observed := Observe(c.sequencer, seqNum);
    c.(sequencer := observed.next, ready := c.ready && observed.verdict != Gap)
  }

  function Cleared(c: ChannelState): ChannelState
  {
    c.(instrumentId := 0, bids := [], asks := [], ready := false)
  }

  function SnapshotStarted(c: ChannelState): ChannelState
  {
    c.(ready := true)
  }

  function SnapshotEnded(c: ChannelState): ChannelState
  {
    c.(ready := false)
  }

  /** What a feed handler does with a packet header: sequence it, and reset the channel unless it was accepted. */
  function Admitted(c: ChannelState, seqNum: int64): ChannelState
  {
    match Observe(c.sequencer, seqNum).verdict
    case Accepted => Sequenced(c, seqNum)
    case AssertionFails => c
    case _ => Cleared(Sequenced(c, seqNum))
  }

  // ----- the operations as methods -----

  class Channel {
    var instrumentId: uint32
    var bids: seq<Update>
    var asks: seq<Update>
    var previousSequenceNumber: uint32
    var initialized: bool
    var ready: bool

    ghost function State(): ChannelState
      reads this
    {
      ChannelState(instrumentId, bids, asks, Sequencer(previousSequenceNumber, initialized), ready)
    }

    constructor ()
      ensures State() == FRESH
    {
      instrumentId, bids, asks, previousSequenceNumber, initialized, ready := 0, [], [], 0, false, false;
    }

    /** Accepted stands for true, Repeat and Gap for false; AssertionFails ends the process. */
    method Sequence(header: PacketHeader) returns (verdict: Verdict)
      modifies this`previousSequenceNumber, this`initialized, this`ready
      ensures verdict == Observe(old(State()).sequencer, header.seqNum).verdict
      ensures State() == Sequenced(old(State()), header.seqNum)
    {
      verdict := Accepted;
      if header.seqNum == Truncate(previousSequenceNumber + 1) {
        previousSequenceNumber := Truncate(header.seqNum);
      } else if header.seqNum == previousSequenceNumber {
        verdict := Repeat;
      } else {
        if initialized {
          verdict := Gap;
          ready := false;
        } else {
          if previousSequenceNumber != 0 {
            return AssertionFails;
          }
          initialized := true;
        }
        previousSequenceNumber := Truncate(header.seqNum);
      }
    }

    method Reset()
      modifies this`bids, this`asks, this`instrumentId, this`ready
      ensures State() == Cleared(old(State()))
    {
      bids, asks := [], [];
      instrumentId := 0;
      ready := false;
    }

    method SnapshotStart()
      modifies this`ready
      ensures State() == SnapshotStarted(old(State()))
    {
      ready := true;
    }

    method SnapshotEnd()
      modifies this`ready
      ensures State() == SnapshotEnded(old(State()))
    {
      ready := false;
    }
  }

  // ----- runs of one channel -----

  /** What the handlers of an accepted packet's messages may do to their channel. */
  datatype Action =
    | AppendBid(level: int) | AppendAsk(level: int) | SetInstrument(id: uint32) | StartSnapshot | EndSnapshot

  /** Handlers run only while an accepted packet is dispatched, with that packet's header; snapshot starts and
      ends may also come from outside any packet. */
  datatype Event = Packet(seqNum: int64, actions: seq<Action>) | SnapshotStarts | SnapshotEnds

  function Act(c: ChannelState, seqNum: int64, action: Action): ChannelState
  {
    match action
    case AppendBid(level) => c.(bids := c.bids + [Update(seqNum, level)])
    case AppendAsk(level) => c.(asks := c.asks + [Update(seqNum, level)])
    case SetInstrument(id) => c.(instrumentId := id)
    case StartSnapshot => SnapshotStarted(c)
    case EndSnapshot => SnapshotEnded(c)
  }

  function ActAll(c: ChannelState, seqNum: int64, actions: seq<Action>): ChannelState
    decreases |actions|
  {
    if actions == [] then c else ActAll(Act(c, seqNum, actions[0]), seqNum, actions[1..])
  }

  /** The handler's verdict on an event: snapshot calls are never refused. */
  function VerdictIn(c: ChannelState, event: Event): Verdict
  {
    if event.Packet? then Observe(c.sequencer, event.seqNum).verdict else Accepted
  }

  function Handle(c: ChannelState, event: Event): ChannelState
  {
    match event
    case SnapshotStarts => SnapshotStarted(c)
    case SnapshotEnds => SnapshotEnded(c)
    case Packet(seqNum, actions) =>
      if Observe(c.sequencer, seqNum).verdict == Accepted then ActAll(Admitted(c, seqNum), seqNum, actions)
      else Admitted(c, seqNum)
  }

  datatype Life = Life(state: ChannelState, alive: bool)

  function HandleAlive(life: Life, event: Event): Life
  {
    if !life.alive then life
    else Life(Handle(life.state, event), VerdictIn(life.state, event) != AssertionFails)
  }

  /** The life of a fresh channel through a list of events; it ends at the first failed assertion. */
  function LifeOf(events: seq<Event>): Life
  {
    if events == [] then Life(FRESH, true)
    else HandleAlive(LifeOf(events[..|events| - 1]), events[|events| - 1])
  }

  function Numbers(events: seq<Event>): seq<int64>
  {
    if events == [] then [] else
    var event := events[|events| - 1];
    Numbers(events[..|events| - 1]) + if event.Packet? then [event.seqNum] else []
  }

  lemma LifeOneMore(events: seq<Event>, event: Event)
    ensures LifeOf(events + [event]) == HandleAlive(LifeOf(events), event)
  {
    assert (events + [event])[..|events|] == events;
  }

  lemma NumbersOneMore(events: seq<Event>, event: Event)
    ensures Numbers(events + [event])
         == if event.Packet? then Numbers(events) + [event.seqNum] else Numbers(events)
  {
    assert (events + [event])[..|events|] == events;
    assert Numbers(events) + [] == Numbers(events);
  }

  lemma {:induction false} ActAllKeepsSequencer(c: ChannelState, seqNum: int64, actions: seq<Action>)
    ensures ActAll(c, seqNum, actions).sequencer == c.sequencer
    decreases |actions|
  {
    if actions != [] { ActAllKeepsSequencer(Act(c, seqNum, actions[0]), seqNum, actions[1..]); }
  }

  lemma HandleSequences(c: ChannelState, event: Event)
    ensures Handle(c, event).sequencer
         == if event.Packet? then Observe(c.sequencer, event.seqNum).next else c.sequencer
  {
    if event.Packet? { ActAllKeepsSequencer(Admitted(c, event.seqNum), event.seqNum, event.actions); }
  }

  /** Handlers and snapshot calls never disturb the sequencer: a channel lives and numbers exactly as the
      stand-alone sequencer does on the numbers of its packets. */
  lemma {:induction false} SequencerOfLife(events: seq<Event>)
    ensures LifeOf(events).alive <==> Survives(Numbers(events))
    ensures LifeOf(events).state.sequencer == After(Numbers(events)).sequencer
    decreases |events|
  {
    if events != [] {
      var before, event := events[..|events| - 1], events[|events| - 1];
      SequencerOfLife(before);
      HandleSequences(LifeOf(before).state, event);
      if event.Packet? {
        AfterOneMore(Numbers(before), event.seqNum);
      } else {
        assert Numbers(events) == Numbers(before);
      }
    }
  }

  // ----- book buffers -----

  /** The accepted packets since the last rejected one, oldest first. */
  function AcceptedTail(events: seq<Event>): (tail: seq<Event>)
    ensures forall event :: event in tail ==> event.Packet?
  {
    if events == [] then [] else
    var before, event := events[..|events| - 1], events[|events| - 1];
    if !event.Packet? then AcceptedTail(before)
    else if VerdictOn(Numbers(before), event.seqNum) == Accepted then AcceptedTail(before) + [event]
    else []
  }

  function BidsOf(seqNum: int64, actions: seq<Action>): seq<Update>
  {
    if actions == [] then [] else
    (if actions[0].AppendBid? then [Update(seqNum, actions[0].level)] else []) + BidsOf(seqNum, actions[1..])
  }

  function AsksOf(seqNum: int64, actions: seq<Action>): seq<Update>
  {
    if actions == [] then [] else
    (if actions[0].AppendAsk? then [Update(seqNum, actions[0].level)] else []) + AsksOf(seqNum, actions[1..])
  }

  function AllBids(packets: seq<Event>): seq<Update>
    requires forall event :: event in packets ==> event.Packet?
  {
    if packets == [] then [] else
    var last := packets[|packets| - 1];
    AllBids(packets[..|packets| - 1]) + BidsOf(last.seqNum, last.actions)
  }

  function AllAsks(packets: seq<Event>): seq<Update>
    requires forall event :: event in packets ==> event.Packet?
  {
    if packets == [] then [] else
    var last := packets[|packets| - 1];
    AllAsks(packets[..|packets| - 1]) + AsksOf(last.seqNum, last.actions)
  }

  lemma {:induction false} ActAllAppends(c: ChannelState, seqNum: int64, actions: seq<Action>)
    ensures ActAll(c, seqNum, actions).bids == c.bids + BidsOf(seqNum, actions)
    ensures ActAll(c, seqNum, actions).asks == c.asks + AsksOf(seqNum, actions)
    decreases |actions|
  {
    if actions != [] {
      ActAllAppends(Act(c, seqNum, actions[0]), seqNum, actions[1..]);
    }
  }

  /** The buffers hold, in order, exactly what the packets accepted since the last rejection appended. */
  lemma {:induction false} BuffersHoldAcceptedTail(events: seq<Event>)
    requires LifeOf(events).alive
    ensures LifeOf(events).state.bids == AllBids(AcceptedTail(events))
    ensures LifeOf(events).state.asks == AllAsks(AcceptedTail(events))
    decreases |events|
  {
    if events != [] {
      var before, event := events[..|events| - 1], events[|events| - 1];
      BuffersHoldAcceptedTail(before);
      SequencerOfLife(before);
      if event.Packet? {
        ActAllAppends(Admitted(LifeOf(before).state, event.seqNum), event.seqNum, event.actions);
        assert (AcceptedTail(before) + [event])[..|AcceptedTail(before)|] == AcceptedTail(before);
      }
    }
  }

  lemma {:induction false} AppendedByActions(seqNum: int64, actions: seq<Action>, update: Update)
    ensures update in BidsOf(seqNum, actions) <==> update.seqNum == seqNum && AppendBid(update.level) in actions
    ensures update in AsksOf(seqNum, actions) <==> update.seqNum == seqNum && AppendAsk(update.level) in actions
  {
    if actions != [] {
      AppendedByActions(seqNum, actions[1..], update);
      assert actions == [actions[0]] + actions[1..];
    }
  }

  /** Handlers took this action for one of these packets, and it carries the number. */
  predicate Took(packets: seq<Event>, seqNum: int64, action: Action)
  {
    exists i :: 0 <= i < |packets| && packets[i].Packet? && packets[i].seqNum == seqNum && action in packets[i].actions
  }

  lemma TookOneMore(packets: seq<Event>, packet: Event, seqNum: int64, action: Action)
    requires packet.Packet?
    ensures Took(packets + [packet], seqNum, action)
       <==> Took(packets, seqNum, action) || (packet.seqNum == seqNum && action in packet.actions)
  {
    var longer := packets + [packet];
    assert longer[|packets|] == packet;
    assert forall i :: 0 <= i < |packets| ==> longer[i] == packets[i];
  }

  lemma {:induction false} AppendedByPackets(packets: seq<Event>, update: Update)
    requires forall event :: event in packets ==> event.Packet?
    ensures update in AllBids(packets) <==> Took(packets, update.seqNum, AppendBid(update.level))
    ensures update in AllAsks(packets) <==> Took(packets, update.seqNum, AppendAsk(update.level))
    decreases |packets|
  {
    if packets != [] {
      var before, last := packets[..|packets| - 1], packets[|packets| - 1];
      assert packets == before + [last];
      AppendedByPackets(before, update);
      AppendedByActions(last.seqNum, last.actions, update);
      TookOneMore(before, last, update.seqNum, AppendBid(update.level));
      TookOneMore(before, last, update.seqNum, AppendAsk(update.level));
    }
  }

  /** An entry is buffered if and only if the handlers of one of those packets appended it, on the same side and under
      that packet's number. */
  lemma EntryBufferedIff(events: seq<Event>, update: Update)
    requires LifeOf(events).alive
    ensures var c, tail := LifeOf(events).state, AcceptedTail(events);
            && (update in c.bids <==> Took(tail, update.seqNum, AppendBid(update.level)))
            && (update in c.asks <==> Took(tail, update.seqNum, AppendAsk(update.level)))
  {
    BuffersHoldAcceptedTail(events);
    AppendedByPackets(AcceptedTail(events), update);
  }

  // ----- the instrument -----

  /** The instrument these actions leave behind on a channel that had `before`. */
  function InstrumentAfter(before: uint32, actions: seq<Action>): uint32
  {
    if actions == [] then before else
    var last := actions[|actions| - 1];
    if last.SetInstrument? then last.id else InstrumentAfter(before, actions[..|actions| - 1])
  }

  /** Everything the handlers of these packets did, in order. */
  function AllActions(packets: seq<Event>): seq<Action>
    requires forall event :: event in packets ==> event.Packet?
  {
    if packets == [] then [] else AllActions(packets[..|packets| - 1]) + packets[|packets| - 1].actions
  }

  lemma {:induction false} InstrumentAppended(before: uint32, a: seq<Action>, b: seq<Action>)
    ensures InstrumentAfter(before, a + b) == InstrumentAfter(InstrumentAfter(before, a), b)
    decreases |b|
  {
    if b == [] {
      assert a + b == a;
    } else {
      InstrumentAppended(before, a, b[..|b| - 1]);
      assert (a + b)[..|a + b| - 1] == a + b[..|b| - 1];
    }
  }

  lemma {:induction false} ActAllInstrument(c: ChannelState, seqNum: int64, actions: seq<Action>)
    ensures ActAll(c, seqNum, actions).instrumentId == InstrumentAfter(c.instrumentId, actions)
    decreases |actions|
  {
    if actions != [] {
      ActAllInstrument(Act(c, seqNum, actions[0]), seqNum, actions[1..]);
      InstrumentAppended(c.instrumentId, [actions[0]], actions[1..]);
      assert actions == [actions[0]] + actions[1..];
      assert InstrumentAfter(c.instrumentId, [actions[0]]) == Act(c, seqNum, actions[0]).instrumentId by {
        assert [actions[0]][..0] == [];
      }
    }
  }

  /** The channel's instrument is the last one set by the packets accepted since the last rejection, or none. */
  lemma {:induction false} InstrumentFollowsTail(events: seq<Event>)
    requires LifeOf(events).alive
    ensures LifeOf(events).state.instrumentId == InstrumentAfter(0, AllActions(AcceptedTail(events)))
    decreases |events|
  {
    if events != [] {
      var before, event := events[..|events| - 1], events[|events| - 1];
      InstrumentFollowsTail(before);
      SequencerOfLife(before);
      if event.Packet? && VerdictOn(Numbers(before), event.seqNum) == Accepted {
        var tail := AcceptedTail(before);
        ActAllInstrument(Admitted(LifeOf(before).state, event.seqNum), event.seqNum, event.actions);
        assert (tail + [event])[..|tail|] == tail;
        InstrumentAppended(0, AllActions(tail), event.actions);
      }
    }
  }

  function NumbersOf(packets: seq<Event>): (numbers: seq<int64>)
    requires forall event :: event in packets ==> event.Packet?
    ensures |numbers| == |packets|
    ensures forall i :: 0 <= i < |packets| ==> numbers[i] == packets[i].seqNum
  {
    if packets == [] then [] else NumbersOf(packets[..|packets| - 1]) + [packets[|packets| - 1].seqNum]
  }

  lemma TailGrows(numbers: seq<int64>, k: nat, tail: seq<Event>, event: Event)
    requires forall e :: e in tail ==> e.Packet?
    requires event.Packet? && VerdictOn(numbers, event.seqNum) == Accepted
    requires AcceptedFrom(numbers, k) && numbers[k..] == NumbersOf(tail)
    ensures AcceptedFrom(numbers + [event.seqNum], k)
    ensures (numbers + [event.seqNum])[k..] == NumbersOf(tail + [event])
  {
    AcceptedFromOneMore(numbers, event.seqNum, k);
    assert (numbers + [event.seqNum])[k..] == numbers[k..] + [event.seqNum];
    assert (tail + [event])[..|tail|] == tail;
  }

  /** Those packets are the last ones the channel processed, and all of them were accepted. */
  lemma {:induction false} AcceptedTailIsSuffix(events: seq<Event>) returns (k: nat)
    ensures AcceptedFrom(Numbers(events), k)
    ensures Numbers(events)[k..] == NumbersOf(AcceptedTail(events))
    decreases |events|
  {
    if events == [] {
      k := 0;
    } else {
      var before, event := events[..|events| - 1], events[|events| - 1];
      assert events == before + [event];
      NumbersOneMore(before, event);
      k := AcceptedTailIsSuffix(before);
      if event.Packet? {
        if VerdictOn(Numbers(before), event.seqNum) == Accepted {
          TailGrows(Numbers(before), k, AcceptedTail(before), event);
        } else {
          k := |Numbers(events)|;
        }
      }
    }
  }

  /** Nothing comes before k, or a packet that was not accepted. */
  predicate BeginsAt(numbers: seq<int64>, k: nat)
  {
    k <= |numbers| && (k > 0 ==> VerdictOn(numbers[..k - 1], numbers[k - 1]) != Accepted)
  }

  lemma BeginsAtOneMore(numbers: seq<int64>, seqNum: int64, k: nat)
    ensures BeginsAt(numbers, k) ==> BeginsAt(numbers + [seqNum], k)
    ensures VerdictOn(numbers, seqNum) != Accepted ==> BeginsAt(numbers + [seqNum], |numbers| + 1)
  {
    var longer := numbers + [seqNum];
    assert longer[..|numbers|] == numbers;
    if 0 < k <= |numbers| { assert longer[..k - 1] == numbers[..k - 1]; }
  }

  /** No accepted packet is missing from them: the packet before the first of them, if there is one, was rejected. */
  lemma {:induction false} AcceptedTailIsLongest(events: seq<Event>)
    ensures |AcceptedTail(events)| <= |Numbers(events)|
    ensures BeginsAt(Numbers(events), |Numbers(events)| - |AcceptedTail(events)|)
    decreases |events|
  {
    if events != [] {
      var before, event := events[..|events| - 1], events[|events| - 1];
      assert events == before + [event];
      NumbersOneMore(before, event);
      AcceptedTailIsLongest(before);
      if event.Packet? {
        BeginsAtOneMore(Numbers(before), event.seqNum, |Numbers(before)| - |AcceptedTail(before)|);
      }
    }
  }

  /** Those packets count up by one to the channel's previous sequence number if and only if their numbers are
      unwrapped: a condition on their own numbers, met by positive 32-bit ones and by every history in range. */
  lemma AcceptedTailConsecutive(events: seq<Event>)
    requires LifeOf(events).alive
    ensures var numbers := NumbersOf(AcceptedTail(events));
            && (CountsUpTo(numbers, LifeOf(events).state.sequencer.previous) <==> Unwrapped(numbers))
            && (AllPositive(numbers) || AllInRange(Numbers(events)) ==> Unwrapped(numbers))
  {
    SequencerOfLife(events);
    var k := AcceptedTailIsSuffix(events);
    AcceptedStretchCounts(Numbers(events), k);
    if AllInRange(Numbers(events)) { InRangeStretchUnwrapped(Numbers(events), k); }
    if AllPositive(Numbers(events)[k..]) { PositiveStretchUnwrapped(Numbers(events), k); }
  }

  lemma {:induction false} TagsComeFromPackets(packets: seq<Event>, update: Update)
    requires forall event :: event in packets ==> event.Packet?
    requires update in AllBids(packets) || update in AllAsks(packets)
    ensures exists i :: 0 <= i < |packets| && packets[i].seqNum == update.seqNum
    decreases |packets|
  {
    var before, last := packets[..|packets| - 1], packets[|packets| - 1];
    if update in AllBids(before) || update in AllAsks(before) {
      TagsComeFromPackets(before, update);
      var i :| 0 <= i < |before| && before[i].seqNum == update.seqNum;
      assert packets[i].seqNum == update.seqNum;
    } else {
      TagsOfActions(last.seqNum, last.actions, update);
    }
  }

  lemma {:induction false} TagsOfActions(seqNum: int64, actions: seq<Action>, update: Update)
    requires update in BidsOf(seqNum, actions) || update in AsksOf(seqNum, actions)
    ensures update.seqNum == seqNum
  {
    if update in BidsOf(seqNum, actions[1..]) || update in AsksOf(seqNum, actions[1..]) {
      TagsOfActions(seqNum, actions[1..], update);
    }
  }

  /** Book-buffer integrity: in every state reached without a failed assertion, every buffered entry carries the
      number of a packet accepted since the last rejection; when those numbers are unwrapped, it lies within the
      unbroken count that ends at the channel's previous sequence number. */
  lemma BookBufferIntegrity(events: seq<Event>, update: Update)
    requires LifeOf(events).alive
    requires update in LifeOf(events).state.bids || update in LifeOf(events).state.asks
    ensures update.seqNum in NumbersOf(AcceptedTail(events))
    ensures var c, numbers := LifeOf(events).state, NumbersOf(AcceptedTail(events));
            Unwrapped(numbers) ==>
              && CountsUpTo(numbers, c.sequencer.previous)
              && c.sequencer.previous - |numbers| < update.seqNum <= c.sequencer.previous
  {
    BuffersHoldAcceptedTail(events);
    AcceptedTailConsecutive(events);
    TagsComeFromPackets(AcceptedTail(events), update);
  }

  lemma NegativeTail(event: Event)
    requires event.Packet? && event.seqNum == -5
    ensures NumbersOf(AcceptedTail([event])) == [-5]
  {
    NegativeFirstNumber();
    assert [] + [event] == [event];
    assert VerdictOn([-5][..0], -5) == Accepted;
    AcceptedTailOneMore([], event);
    TailGrows([], 0, [], event);
  }

  lemma NegativeLife(event: Event)
    requires event == Packet(-5, [AppendBid(7), AppendAsk(8)])
    ensures LifeOf([event]).alive
    ensures LifeOf([event]).state.bids == [Update(-5, 7)] && LifeOf([event]).state.asks == [Update(-5, 8)]
    ensures LifeOf([event]).state.sequencer.previous == 0xFFFF_FFFB
  {
    LifeOneMore([], event);
    assert [] + [event] == [event];
    ActAllAppends(Admitted(FRESH, -5), -5, [AppendBid(7), AppendAsk(8)]);
    ActAllKeepsSequencer(Admitted(FRESH, -5), -5, [AppendBid(7), AppendAsk(8)]);
    assert [AppendBid(7), AppendAsk(8)][1..] == [AppendAsk(8)] && [AppendAsk(8)][1..] == [];
    assert Truncate(-5) == 0xFFFF_FFFB;
  }

  /** Outside that condition both fail: a first packet -5 is accepted and does not count up to the previous number,
      and the entries it buffers lie beyond that number. */
  lemma NegativeTagEscapes()
    ensures var events := [Packet(-5, [AppendBid(7), AppendAsk(8)])];
            && LifeOf(events).alive
            && LifeOf(events).state.bids == [Update(-5, 7)] && LifeOf(events).state.asks == [Update(-5, 8)]
            && LifeOf(events).state.sequencer.previous == 0xFFFF_FFFB
            && NumbersOf(AcceptedTail(events)) == [-5]
            && !CountsUpTo(NumbersOf(AcceptedTail(events)), LifeOf(events).state.sequencer.previous)
  {
    var event := Packet(-5, [AppendBid(7), AppendAsk(8)]);
    NegativeTail(event);
    NegativeLife(event);
    NegativeFirstNumber();
  }

  function PacketsOf(numbers: seq<int64>): (events: seq<Event>)
    ensures |events| == |numbers|
  {
    if numbers == [] then [] else PacketsOf(numbers[..|numbers| - 1]) + [Packet(numbers[|numbers| - 1], [])]
  }

  lemma AcceptedTailOneMore(events: seq<Event>, event: Event)
    requires event.Packet? && VerdictOn(Numbers(events), event.seqNum) == Accepted
    ensures AcceptedTail(events + [event]) == AcceptedTail(events) + [event]
  {
    assert (events + [event])[..|events|] == events;
  }

  lemma {:induction false} AcceptedTailOfAccepted(numbers: seq<int64>)
    requires AcceptedFrom(numbers, 0)
    ensures Numbers(PacketsOf(numbers)) == numbers
    ensures NumbersOf(AcceptedTail(PacketsOf(numbers))) == numbers
    decreases |numbers|
  {
    if numbers != [] {
      var n := |numbers| - 1;
      var before, event := numbers[..n], Packet(numbers[n], []);
      assert numbers == before + [numbers[n]];
      assert AcceptedFrom(before, 0) by {
        assert forall i :: 0 <= i < n ==> before[..i] == numbers[..i];
      }
      AcceptedTailOfAccepted(before);
      NumbersOneMore(PacketsOf(before), event);
      AcceptedTailOneMore(PacketsOf(before), event);
      TailGrows(before, 0, AcceptedTail(PacketsOf(before)), event);
      assert PacketsOf(numbers) == PacketsOf(before) + [event];
    }
  }

  /** Nor do the accepted packets count up after a climb that has wrapped round to zero: the next number is accepted
      whatever it is. */
  lemma WrappedTailJumps(seqNum: int64)
    requires seqNum != 0 && seqNum != 1
    ensures var events := PacketsOf(ClimbTo(0x1_0000_0000) + [seqNum]);
            && LifeOf(events).alive
            && |AcceptedTail(events)| == |events|
            && !CountsUpTo(NumbersOf(AcceptedTail(events)), LifeOf(events).state.sequencer.previous)
  {
    var numbers := ClimbTo(0x1_0000_0000) + [seqNum];
    WrappedClimbJumps(seqNum);
    AcceptedTailOfAccepted(numbers);
    SequencerOfLife(PacketsOf(numbers));
  }

  // ----- the snapshot flag -----

  datatype Moment = Admits(seqNum: int64) | Refuses(seqNum: int64) | Starts | Ends

  function MomentOf(action: Action): seq<Moment>
  {
    match action
    case StartSnapshot => [Starts]
    case EndSnapshot => [Ends]
    case _ => []
  }

  function MomentsOf(actions: seq<Action>): seq<Moment>
  {
    if actions == [] then [] else MomentOf(actions[0]) + MomentsOf(actions[1..])
  }

  /** What an event adds to the history of a channel that has processed these numbers. */
  function Added(numbers: seq<int64>, event: Event): seq<Moment>
  {
    match event
    case SnapshotStarts => [Starts]
    case SnapshotEnds => [Ends]
    case Packet(seqNum, actions) =>
      if VerdictOn(numbers, seqNum) == Accepted then [Admits(seqNum)] + MomentsOf(actions) else [Refuses(seqNum)]
  }

  /** The channel's history as an observer outside would write it down. */
  function Moments(events: seq<Event>): seq<Moment>
  {
    if events == [] then [] else
    var before := events[..|events| - 1];
    Moments(before) + Added(Numbers(before), events[|events| - 1])
  }

  /** Moment i starts a snapshot that nothing since has ended or interrupted. */
  predicate LiveStart(moments: seq<Moment>, i: nat)
  {
    && i < |moments| && moments[i] == Starts
    && forall j :: i < j < |moments| ==> moments[j].Admits? || moments[j].Starts?
  }

  ghost predicate Live(moments: seq<Moment>)
  {
    exists i: nat :: LiveStart(moments, i)
  }

  lemma LiveOneMore(moments: seq<Moment>, moment: Moment)
    ensures Live(moments + [moment]) <==> moment == Starts || (Live(moments) && moment.Admits?)
  {
    var longer := moments + [moment];
    if moment == Starts { assert LiveStart(longer, |moments|); }
    if Live(moments) && moment.Admits? {
      var i: nat :| LiveStart(moments, i);
      assert LiveStart(longer, i);
    }
    if Live(longer) {
      var i: nat :| LiveStart(longer, i);
      if i < |moments| {
        assert longer[|moments|] == moment;
        forall j | i < j < |moments| ensures moments[j].Admits? || moments[j].Starts? {
          assert longer[j] == moments[j];
        }
        assert LiveStart(moments, i);
      }
    }
  }

  lemma ActLive(c: ChannelState, seqNum: int64, action: Action, moments: seq<Moment>)
    requires c.ready <==> Live(moments)
    ensures Act(c, seqNum, action).ready <==> Live(moments + MomentOf(action))
  {
    if MomentOf(action) == [] {
      assert moments + MomentOf(action) == moments;
    } else {
      LiveOneMore(moments, MomentOf(action)[0]);
    }
  }

  lemma {:induction false} ActAllLive(c: ChannelState, seqNum: int64, actions: seq<Action>, moments: seq<Moment>)
    requires c.ready <==> Live(moments)
    ensures ActAll(c, seqNum, actions).ready <==> Live(moments + MomentsOf(actions))
    decreases |actions|
  {
    if actions == [] {
      assert moments + MomentsOf(actions) == moments;
    } else {
      ActLive(c, seqNum, actions[0], moments);
      ActAllLive(Act(c, seqNum, actions[0]), seqNum, actions[1..], moments + MomentOf(actions[0]));
      assert moments + MomentOf(actions[0]) + MomentsOf(actions[1..]) == moments + MomentsOf(actions);
    }
  }

  lemma HandleLive(c: ChannelState, numbers: seq<int64>, event: Event, moments: seq<Moment>)
    requires c.sequencer == After(numbers).sequencer && VerdictIn(c, event) != AssertionFails
    requires c.ready <==> Live(moments)
    ensures Handle(c, event).ready <==> Live(moments + Added(numbers, event))
  {
    match event
    case SnapshotStarts => LiveOneMore(moments, Starts);
    case SnapshotEnds => LiveOneMore(moments, Ends);
    case Packet(seqNum, actions) =>
      if VerdictOn(numbers, seqNum) == Accepted {
        LiveOneMore(moments, Admits(seqNum));
        ActAllLive(Admitted(c, seqNum), seqNum, actions, moments + [Admits(seqNum)]);
        assert moments + [Admits(seqNum)] + MomentsOf(actions) == moments + Added(numbers, event);
      } else {
        LiveOneMore(moments, Refuses(seqNum));
      }
  }

  /** Readiness safety: a channel is ready if and only if some snapshot start was followed by no snapshot end and by
      no refused packet, over every interleaving of packets, handler actions and snapshot calls. */
  lemma {:induction false} ReadyIffLiveSnapshot(events: seq<Event>)
    requires LifeOf(events).alive
    ensures LifeOf(events).state.ready <==> Live(Moments(events))
    decreases |events|
  {
    if events != [] {
      var before := events[..|events| - 1];
      ReadyIffLiveSnapshot(before);
      SequencerOfLife(before);
      HandleLive(LifeOf(before).state, Numbers(before), events[|events| - 1], Moments(before));
    }
  }

  /** The call operator on its own, before any reset, after any surviving life: the channel stays ready if it was and
      this packet is no gap, and its buffers and instrument are untouched. */
  lemma SequencingBeforeReset(events: seq<Event>, seqNum: int64)
    requires LifeOf(events).alive
    ensures var c, verdict := Sequenced(LifeOf(events).state, seqNum), VerdictOn(Numbers(events), seqNum);
            && (c.ready <==> Live(Moments(events)) && verdict != Gap)
            && c.bids == AllBids(AcceptedTail(events)) && c.asks == AllAsks(AcceptedTail(events))
            && c.instrumentId == InstrumentAfter(0, AllActions(AcceptedTail(events)))
            && c.sequencer == After(Numbers(events) + [seqNum]).sequencer
  {
    ReadyIffLiveSnapshot(events);
    SequencerOfLife(events);
    BuffersHoldAcceptedTail(events);
    InstrumentFollowsTail(events);
    AfterOneMore(Numbers(events), seqNum);
  }

  function AdmittedIn(moments: seq<Moment>): seq<int64>
  {
    if moments == [] then [] else
    var last := moments[|moments| - 1];
    AdmittedIn(moments[..|moments| - 1]) + if last.Admits? then [last.seqNum] else []
  }

  predicate NoneRefused(moments: seq<Moment>)
  {
    forall j :: 0 <= j < |moments| ==> !moments[j].Refuses?
  }

  lemma {:induction false} AdmittedInAppended(a: seq<Moment>, b: seq<Moment>)
    ensures AdmittedIn(a + b) == AdmittedIn(a) + AdmittedIn(b)
    decreases |b|
  {
    if b == [] {
      assert a + b == a;
    } else {
      AdmittedInAppended(a, b[..|b| - 1]);
      assert (a + b)[..|a + b| - 1] == a + b[..|b| - 1];
    }
  }

  lemma {:induction false} ActionsAdmitNothing(actions: seq<Action>)
    ensures forall j :: 0 <= j < |MomentsOf(actions)| ==> MomentsOf(actions)[j].Starts? || MomentsOf(actions)[j].Ends?
  {
    if actions != [] { ActionsAdmitNothing(actions[1..]); }
  }

  lemma {:induction false} AdmittedInNone(moments: seq<Moment>)
    requires forall j :: 0 <= j < |moments| ==> moments[j].Starts? || moments[j].Ends?
    ensures AdmittedIn(moments) == []
    decreases |moments|
  {
    if moments != [] { AdmittedInNone(moments[..|moments| - 1]); }
  }

  /** The moments an event adds admit its packet, when it is accepted, and nothing else. */
  lemma AdmittedInAdded(numbers: seq<int64>, event: Event)
    ensures Added(numbers, event) != []
    ensures AdmittedIn(Added(numbers, event))
         == if event.Packet? && VerdictOn(numbers, event.seqNum) == Accepted then [event.seqNum] else []
    ensures forall j :: 0 < j < |Added(numbers, event)| ==>
              Added(numbers, event)[j].Starts? || Added(numbers, event)[j].Ends?
  {
    if event.Packet? && VerdictOn(numbers, event.seqNum) == Accepted {
      ActionsAdmitNothing(event.actions);
      AdmittedInAppended([Admits(event.seqNum)], MomentsOf(event.actions));
      AdmittedInNone(MomentsOf(event.actions));
    }
  }

  lemma StretchGrows(numbers: seq<int64>, n: nat, moments: seq<Moment>, k: nat, event: Event)
    requires k <= |moments| && NoneRefused((moments + Added(numbers, event))[k..])
    requires AcceptedFrom(numbers, n) && numbers[n..] == AdmittedIn(moments[k..])
    ensures var after := if event.Packet? then numbers + [event.seqNum] else numbers;
            && AcceptedFrom(after, n)
            && after[n..] == AdmittedIn((moments + Added(numbers, event))[k..])
  {
    var added := Added(numbers, event);
    AdmittedInAdded(numbers, event);
    EarlySuffix(moments, added, k);
    if event.Packet? {
      assert !added[0].Refuses?;
      AcceptedFromOneMore(numbers, event.seqNum, n);
      assert (numbers + [event.seqNum])[n..] == numbers[n..] + [event.seqNum];
    } else {
      assert numbers[n..] + [] == numbers[n..];
    }
  }

  /** The packets of a stretch without a refusal are the last ones the channel processed, all of them accepted. */
  lemma {:induction false} UnrefusedStretchIsSuffix(events: seq<Event>, k: nat) returns (n: nat)
    requires k <= |Moments(events)| && NoneRefused(Moments(events)[k..])
    ensures AcceptedFrom(Numbers(events), n)
    ensures Numbers(events)[n..] == AdmittedIn(Moments(events)[k..])
    decreases |events|
  {
    if events == [] {
      n := 0;
    } else {
      var before, event := events[..|events| - 1], events[|events| - 1];
      assert events == before + [event];
      NumbersOneMore(before, event);
      if k <= |Moments(before)| {
        EarlySuffix(Moments(before), Added(Numbers(before), event), k);
        n := UnrefusedStretchIsSuffix(before, k);
        StretchGrows(Numbers(before), n, Moments(before), k, event);
      } else {
        AdmittedInAdded(Numbers(before), event);
        LateSuffix(Moments(before), Added(Numbers(before), event), k);
        n := |Numbers(events)|;
      }
    }
  }

  /** Any stretch of a channel's history without a refused packet is gap-free and duplicate-free: the packets in it
      count up by one and end at the previous sequence number, if and only if their numbers are unwrapped, as they
      are in every history in range. */
  lemma UnrefusedStretchConsecutive(events: seq<Event>, k: nat)
    requires LifeOf(events).alive
    requires k <= |Moments(events)| && NoneRefused(Moments(events)[k..])
    ensures var stretch := AdmittedIn(Moments(events)[k..]);
            && (CountsUpTo(stretch, LifeOf(events).state.sequencer.previous) <==> Unwrapped(stretch))
            && (AllPositive(stretch) || AllInRange(Numbers(events)) ==> Unwrapped(stretch))
  {
    SequencerOfLife(events);
    var n := UnrefusedStretchIsSuffix(events, k);
    AcceptedStretchCounts(Numbers(events), n);
    if AllInRange(Numbers(events)) { InRangeStretchUnwrapped(Numbers(events), n); }
    if AllPositive(Numbers(events)[n..]) { PositiveStretchUnwrapped(Numbers(events), n); }
  }

  lemma EarlySuffix(a: seq<Moment>, b: seq<Moment>, k: nat)
    requires k <= |a| && NoneRefused((a + b)[k..])
    ensures NoneRefused(a[k..]) && NoneRefused(b)
    ensures AdmittedIn((a + b)[k..]) == AdmittedIn(a[k..]) + AdmittedIn(b)
  {
    assert (a + b)[k..] == a[k..] + b;
    UnrefusedParts(a[k..], b);
    AdmittedInAppended(a[k..], b);
  }

  lemma LateSuffix(a: seq<Moment>, b: seq<Moment>, k: nat)
    requires |a| < k <= |a + b|
    requires forall j :: 0 < j < |b| ==> b[j].Starts? || b[j].Ends?
    ensures AdmittedIn((a + b)[k..]) == []
  {
    assert (a + b)[k..] == b[k - |a|..];
    AdmittedInNone(b[k - |a|..]);
  }

  lemma UnrefusedParts(a: seq<Moment>, b: seq<Moment>)
    requires NoneRefused(a + b)
    ensures NoneRefused(a) && NoneRefused(b)
  {
    assert forall j :: 0 <= j < |a| ==> (a + b)[j] == a[j];
    assert forall j :: 0 <= j < |b| ==> (a + b)[|a| + j] == b[j];
  }

  /** While a channel is ready, the packets seen since any snapshot start that is still live are gap-free and
      duplicate-free up to the previous sequence number, if and only if their numbers are unwrapped, as they are in
      every history in range. */
  lemma ReadyMeansGapFree(events: seq<Event>, start: nat)
    requires LifeOf(events).alive && LiveStart(Moments(events), start)
    ensures LifeOf(events).state.ready
    ensures var stretch := AdmittedIn(Moments(events)[start..]);
            && (CountsUpTo(stretch, LifeOf(events).state.sequencer.previous) <==> Unwrapped(stretch))
            && (AllPositive(stretch) || AllInRange(Numbers(events)) ==> Unwrapped(stretch))
  {
    ReadyIffLiveSnapshot(events);
    UnrefusedStretchConsecutive(events, start);
  }
}
