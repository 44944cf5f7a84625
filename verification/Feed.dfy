/** A feed handler's map of channels: every packet is routed to the channel of its id and to no other. */
module Feeds {
  import opened ByteOrder
  import opened Sequencing
  import opened WideSequencing
  import opened Channels

  /** The map is keyed by 16-bit numbers, so the 32-bit channel id of a header is truncated on the way in. */
  function KeyOf(channelId: int32): uint16
  {
    channelId % 0x1_0000
  }

  /** Two channel ids share a channel if and only if they differ by a multiple of 2^16; ids in the 16-bit range of
      the map's key type are their own keys. */
  lemma IdsShareChannelIff(a: int32, b: int32)
    ensures KeyOf(a) == KeyOf(b) <==> (a - b) % 0x1_0000 == 0
    ensures 0 <= a < 0x1_0000 ==> KeyOf(a) == a
  {
  }

  type ChannelMap = map<uint16, ChannelState>

  /** A channel is created, fresh, by the first event routed to it. */
  function Fetch(channels: ChannelMap, key: uint16): ChannelState
  {
    if key in channels then channels[key] else FRESH
  }

  datatype FeedEvent = FeedEvent(channelId: int32, event: Event)

  datatype FeedRun = FeedRun(channels: ChannelMap, alive: bool)

  function RouteAlive(run: FeedRun, e: FeedEvent): FeedRun
  {
    if !run.alive then run else
    var key := KeyOf(e.channelId);
    var c := Fetch(run.channels, key);
    FeedRun(run.channels[key := Handle(c, e.event)], VerdictIn(c, e.event) != AssertionFails)
  }

  function RunOf(events: seq<FeedEvent>): FeedRun
  {
    if events == [] then FeedRun(map[], true)
    else RouteAlive(RunOf(events[..|events| - 1]), events[|events| - 1])
  }

  /** The subsequence of events that are routed to one channel. */
  function EventsOf(events: seq<FeedEvent>, key: uint16): seq<Event>
  {
    if events == [] then [] else
    var last := events[|events| - 1];
    EventsOf(events[..|events| - 1], key) + if KeyOf(last.channelId) == key then [last.event] else []
  }

  lemma EventsOfOneMore(events: seq<FeedEvent>, e: FeedEvent, key: uint16)
    ensures EventsOf(events + [e], key)
         == if KeyOf(e.channelId) == key then EventsOf(events, key) + [e.event] else EventsOf(events, key)
  {
    assert (events + [e])[..|events|] == events;
    assert EventsOf(events, key) + [] == EventsOf(events, key);
  }

  lemma RunOneMore(events: seq<FeedEvent>, e: FeedEvent)
    ensures RunOf(events + [e]) == RouteAlive(RunOf(events), e)
  {
    assert (events + [e])[..|events|] == events;
  }

  /** Non-interference: a channel's entry is what a fresh channel becomes on that channel's own events, whatever
      else the feed carried, and an entry exists exactly for the channels that had an event. */
  lemma {:induction false} ChannelsIndependent(events: seq<FeedEvent>, key: uint16)
    requires RunOf(events).alive
    ensures LifeOf(EventsOf(events, key)) == Life(Fetch(RunOf(events).channels, key), true)
    ensures key in RunOf(events).channels <==> EventsOf(events, key) != []
    decreases |events|
  {
    if events != [] {
      var before, last := events[..|events| - 1], events[|events| - 1];
      ChannelsIndependent(before, key);
      if KeyOf(last.channelId) == key {
        LifeOneMore(EventsOf(before, key), last.event);
      } else {
        assert EventsOf(events, key) == EventsOf(before, key);
      }
    }
  }

  /** The process survives a run of the feed if and only if every channel survives its own part of it. */
  lemma AliveIffAllChannelsAlive(events: seq<FeedEvent>)
    ensures RunOf(events).alive <==> forall key: uint16 :: LifeOf(EventsOf(events, key)).alive
  {
    if RunOf(events).alive {
      forall key: uint16 ensures LifeOf(EventsOf(events, key)).alive {
        ChannelsIndependent(events, key);
      }
    } else {
      var key := DeadChannel(events);
    }
  }

  lemma {:induction false} DeadChannel(events: seq<FeedEvent>) returns (key: uint16)
    requires !RunOf(events).alive
    ensures !LifeOf(EventsOf(events, key)).alive
    decreases |events|
  {
    var before, last := events[..|events| - 1], events[|events| - 1];
    if RunOf(before).alive {
      key := KeyOf(last.channelId);
      ChannelsIndependent(before, key);
      LifeOneMore(EventsOf(before, key), last.event);
    } else {
      key := DeadChannel(before);
      LifeOneMore(EventsOf(before, key), last.event);
      assert EventsOf(before, key) + [] == EventsOf(before, key);
    }
  }

  /** The verdicts the feed handler gave to the events of one channel, in the course of the whole run. */
  function VerdictsFor(events: seq<FeedEvent>, key: uint16): seq<Verdict>
  {
    if events == [] then [] else
    var before, last := events[..|events| - 1], events[|events| - 1];
    VerdictsFor(before, key)
    + if KeyOf(last.channelId) == key then [VerdictIn(Fetch(RunOf(before).channels, key), last.event)] else []
  }

  /** The verdicts a channel on its own gives. */
  function OwnVerdicts(events: seq<Event>): seq<Verdict>
  {
    if events == [] then [] else
    var before := events[..|events| - 1];
    OwnVerdicts(before) + [VerdictIn(LifeOf(before).state, events[|events| - 1])]
  }

  lemma {:induction false} VerdictsIndependent(events: seq<FeedEvent>, key: uint16)
    requires RunOf(events).alive
    ensures VerdictsFor(events, key) == OwnVerdicts(EventsOf(events, key))
    decreases |events|
  {
    if events != [] {
      var before, last := events[..|events| - 1], events[|events| - 1];
      VerdictsIndependent(before, key);
      ChannelsIndependent(before, key);
      if KeyOf(last.channelId) == key {
        var own := EventsOf(before, key);
        assert (own + [last.event])[..|own|] == own;
      } else {
        assert EventsOf(events, key) == EventsOf(before, key);
      }
    }
  }

  /** Any reordering that keeps each channel's own order ends with the same map, survives exactly when the original
      does, and gives every channel the same verdicts. */
  lemma ReorderingChannelsIsHarmless(a: seq<FeedEvent>, b: seq<FeedEvent>)
    requires forall key: uint16 :: EventsOf(a, key) == EventsOf(b, key)
    ensures RunOf(a).alive <==> RunOf(b).alive
    ensures RunOf(a).alive ==> RunOf(a).channels == RunOf(b).channels
    ensures RunOf(a).alive ==> forall key: uint16 :: VerdictsFor(a, key) == VerdictsFor(b, key)
  {
    SameLives(a, b);
    SameLives(b, a);
    if RunOf(a).alive {
      forall key: uint16
        ensures key in RunOf(a).channels <==> key in RunOf(b).channels
        ensures Fetch(RunOf(a).channels, key) == Fetch(RunOf(b).channels, key)
        ensures VerdictsFor(a, key) == VerdictsFor(b, key)
      {
        assert EventsOf(a, key) == EventsOf(b, key);
        ChannelsIndependent(a, key);
        ChannelsIndependent(b, key);
        VerdictsIndependent(a, key);
        VerdictsIndependent(b, key);
      }
      SameMap(RunOf(a).channels, RunOf(b).channels);
    }
  }

  lemma SameLives(a: seq<FeedEvent>, b: seq<FeedEvent>)
    requires forall key: uint16 :: EventsOf(a, key) == EventsOf(b, key)
    ensures RunOf(a).alive ==> RunOf(b).alive
  {
    if !RunOf(b).alive {
      var key := DeadChannel(b);
      assert EventsOf(a, key) == EventsOf(b, key);
      if RunOf(a).alive { ChannelsIndependent(a, key); }
    }
  }

  lemma SameMap(a: ChannelMap, b: ChannelMap)
    requires forall key: uint16 :: key in a <==> key in b
    requires forall key: uint16 :: Fetch(a, key) == Fetch(b, key)
    ensures a == b
  {
    forall key | key in a ensures a[key] == b[key] {
      assert Fetch(a, key) == Fetch(b, key);
    }
  }

  /** Readiness through the feed handler: over every interleaving of all channels' packets with snapshot starts and
      ends, a channel is ready if and only if its own history holds a snapshot start that no snapshot end and no
      refused packet of that channel has followed. */
  lemma FeedReadyIff(events: seq<FeedEvent>, key: uint16)
    requires RunOf(events).alive
    ensures Fetch(RunOf(events).channels, key).ready <==> Live(Moments(EventsOf(events, key)))
  {
    ChannelsIndependent(events, key);
    ReadyIffLiveSnapshot(EventsOf(events, key));
  }

  /** Readiness safety through the feed handler: while a channel of the feed is ready, its packets since any live
      snapshot start count up by one to its previous sequence number, if and only if their numbers are unwrapped, as
      they are when the channel's own numbers stay in range, whatever the other channels carry. */
  lemma FeedReadyMeansGapFree(events: seq<FeedEvent>, key: uint16, start: nat)
    requires RunOf(events).alive && LiveStart(Moments(EventsOf(events, key)), start)
    ensures var c, stretch := Fetch(RunOf(events).channels, key), AdmittedIn(Moments(EventsOf(events, key))[start..]);
            && c.ready
            && (CountsUpTo(stretch, c.sequencer.previous) <==> Unwrapped(stretch))
            && (AllPositive(stretch) || AllInRange(Numbers(EventsOf(events, key))) ==> Unwrapped(stretch))
  {
    ChannelsIndependent(events, key);
    ReadyMeansGapFree(EventsOf(events, key), start);
  }
}
