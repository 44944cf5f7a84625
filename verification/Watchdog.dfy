/** The silence detector of a feed handler: when it warns, and how it re-arms. */
module Watchdog {

  /** Heard: the stream was started, or a read event arrived, at this receive time. */
  datatype Event = Heard(time: int) | Tick(now: int)

  predicate Warns(lastUpdate: int, now: int, timeout: int)
  {
    lastUpdate != 0 && lastUpdate + timeout < now
  }

  /** A warning disarms the detector until something is heard again. */
  function Next(lastUpdate: int, e: Event, timeout: int): int
  {
    match e
    case Heard(time) => time
    case Tick(now) => if Warns(lastUpdate, now, timeout) then 0 else lastUpdate
  }

  function LastUpdate(events: seq<Event>, timeout: int): int
  {
    if events == [] then 0
    else Next(LastUpdate(events[..|events| - 1], timeout), events[|events| - 1], timeout)
  }

  /** Event i was the last thing heard, at a non-zero time, and no tick since has come later than its deadline. */
  predicate OpenSilence(events: seq<Event>, timeout: int, i: nat)
  {
    && i < |events| && events[i].Heard? && events[i].time != 0
    && forall j :: i < j < |events| ==> events[j].Tick? && events[j].now <= events[i].time + timeout
  }

  lemma OpenSilenceOneMore(events: seq<Event>, e: Event, timeout: int, i: nat)
    requires i < |events|
    ensures OpenSilence(events + [e], timeout, i)
       <==> OpenSilence(events, timeout, i) && e.Tick? && e.now <= events[i].time + timeout
  {
    var longer := events + [e];
    assert forall j :: 0 <= j < |events| ==> longer[j] == events[j];
    assert longer[|events|] == e;
    if OpenSilence(longer, timeout, i) {
      assert forall j :: i < j < |events| ==> longer[j].Tick?;
    }
  }

  /** The field read off the history: it is the time last heard while that silence is open, and zero otherwise. */
  lemma {:induction false} LastUpdateFollowsHistory(events: seq<Event>, timeout: int)
    ensures LastUpdate(events, timeout) != 0
       <==> exists i: nat :: OpenSilence(events, timeout, i)
    ensures forall i: nat :: OpenSilence(events, timeout, i) ==> events[i].time == LastUpdate(events, timeout)
    decreases |events|
  {
    if events != [] {
      var before, e := events[..|events| - 1], events[|events| - 1];
      assert events == before + [e];
      LastUpdateFollowsHistory(before, timeout);
      forall i: nat | i < |before|
        ensures OpenSilence(events, timeout, i)
           <==> OpenSilence(before, timeout, i) && e.Tick? && e.now <= before[i].time + timeout
      {
        OpenSilenceOneMore(before, e, timeout, i);
      }
      if e.Heard? && e.time != 0 { assert OpenSilence(events, timeout, |before|); }
    }
  }

  /** A tick warns if and only if something was last heard at a non-zero time, the tick is past its deadline, and
      no tick before it since then was: one warning for each silence. */
  lemma WarnsOncePerSilence(events: seq<Event>, timeout: int, now: int)
    ensures Warns(LastUpdate(events, timeout), now, timeout)
       <==> exists i: nat :: OpenSilence(events, timeout, i) && events[i].time + timeout < now
  {
    LastUpdateFollowsHistory(events, timeout);
  }
}
