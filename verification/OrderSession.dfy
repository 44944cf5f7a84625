/** The life of an order entry connection as a state machine over its events, and what holds over all its runs. */
module OrderSession {

  datatype ConnectionStatus = Undefined | Disconnected | LoginSent | Ready

  /** Periods in nanoseconds. */
  datatype Config = Config(requestTimeout: int, pingFreq: int, testOrderLogon: int, testOrderDisconnect: int)

  /** Times in nanoseconds; zero means unset. */
  datatype Session = Session(
    ready: bool, status: ConnectionStatus, nextHeartbeat: int, lastLogonOrHeartbeat: int,
    testDisconnectTime: int, testLogonTime: int)

  const INITIAL := Session(false, Undefined, 0, 0, 0, 0)

  datatype DownloadState = UndefinedState | Positions | Orders | Done

  /** Timer carries what the connection manager's refresh answered: whether the connection is up. */
  datatype Event = Timer(now: int, live: bool) | Connected(createTime: int) | Lost | Download(state: DownloadState)

  datatype Output = Logon | TestRequest(now: int) | Close

  /** A failed assertion ends the process. */
  datatype Step = Fails | Steps(next: Session, outputs: seq<Output>)

  function OnTimer(config: Config, s: Session, now: int, live: bool): Step
  {
    if !live then Steps(s, [])
    else if s.lastLogonOrHeartbeat != 0 && config.requestTimeout != 0
            && now - s.lastLogonOrHeartbeat > config.requestTimeout then Steps(s, [Close])
    else if s.ready then
      if s.testDisconnectTime != 0 && s.testDisconnectTime < now then
        Steps(s, if config.testOrderDisconnect != 0 then [Close] else [])
      else if s.nextHeartbeat <= now then
        if config.pingFreq > 0 then Steps(s.(nextHeartbeat := now + config.pingFreq), [TestRequest(now)]) else Fails
      else Steps(s, [])
    else if s.testLogonTime != 0 && s.testLogonTime < now then
      Steps(s.(testLogonTime := 0, status := LoginSent), [Logon])
    else Steps(s, [])
  }

  function OnConnected(config: Config, s: Session, createTime: int): Step
  {
    if s.testLogonTime != 0 then Fails else
    Steps(
      s.(testLogonTime := createTime + config.testOrderLogon,
         testDisconnectTime := if config.testOrderDisconnect != 0 then createTime + config.testOrderDisconnect
                               else s.testDisconnectTime),
      [])
  }

  function OnLost(s: Session): Step
  {
    Steps(Session(false, Disconnected, 0, 0, 0, 0), [])
  }

  function OnDownload(s: Session, state: DownloadState): Step
  {
    match state
    case UndefinedState => Fails
    case Done => if s.ready then Fails else Steps(s.(ready := true, status := Ready), [])
    case _ => Steps(s, [])
  }

  function StepOn(config: Config, s: Session, e: Event): Step
  {
    match e
    case Timer(now, live) => OnTimer(config, s, now, live)
    case Connected(createTime) => OnConnected(config, s, createTime)
    case Lost => OnLost(s)
    case Download(state) => OnDownload(s, state)
  }

  /** The gate on every order action: the public ready(), not the private flag. */
  predicate PassesGate(s: Session)
  {
    s.status == Ready
  }

  // ----- runs -----

  datatype Run = Run(session: Session, outputs: seq<Output>, alive: bool)

  function Advance(config: Config, run: Run, e: Event): Run
  {
    if !run.alive then run else
    match StepOn(config, run.session, e)
    case Fails => run.(alive := false)
    case Steps(next, outputs) => Run(next, run.outputs + outputs, true)
  }

  /** Runs from any session; the outputs are those of these events alone. */
  function RunFrom(config: Config, s: Session, events: seq<Event>): Run
  {
    if events == [] then Run(s, [], true)
    else Advance(config, RunFrom(config, s, events[..|events| - 1]), events[|events| - 1])
  }

  lemma RunOneMore(config: Config, s: Session, events: seq<Event>, e: Event)
    ensures RunFrom(config, s, events + [e]) == Advance(config, RunFrom(config, s, events), e)
  {
    assert (events + [e])[..|events|] == events;
  }

  // ----- readiness -----

  /** Event i was not followed by a lost connection. */
  predicate Stands(events: seq<Event>, i: nat)
    requires i < |events|
  {
    forall j :: i < j < |events| ==> events[j] != Lost
  }

  /** A download has reached DONE and the connection has not been lost since. */
  predicate DoneSinceLost(events: seq<Event>)
  {
    exists i :: 0 <= i < |events| && events[i] == Download(Done) && Stands(events, i)
  }

  /** A connection has been made and not been lost since. */
  predicate Up(events: seq<Event>)
  {
    exists i :: 0 <= i < |events| && events[i].Connected? && Stands(events, i)
  }

  lemma StandsOneMore(events: seq<Event>, e: Event)
    ensures Stands(events + [e], |events|)
    ensures forall i :: 0 <= i < |events| ==> (Stands(events + [e], i) <==> Stands(events, i) && e != Lost)
    ensures forall i :: 0 <= i < |events| ==> (events + [e])[i] == events[i]
  {
    var longer := events + [e];
    assert longer[|events|] == e;
    forall i | 0 <= i < |events| && Stands(longer, i) ensures Stands(events, i) {
      assert forall j :: i < j < |events| ==> longer[j] == events[j];
    }
  }

  lemma DoneSinceLostOneMore(events: seq<Event>, e: Event)
    ensures DoneSinceLost(events + [e]) <==> e == Download(Done) || (DoneSinceLost(events) && e != Lost)
  {
    StandsOneMore(events, e);
    if e == Download(Done) { assert (events + [e])[|events|] == e; }
  }

  /** What one event does to the readiness flags. */
  lemma ReadyStep(config: Config, s: Session, e: Event)
    requires (s.ready <==> s.status == Ready) && s.lastLogonOrHeartbeat == 0 && StepOn(config, s, e).Steps?
    ensures var next := StepOn(config, s, e).next;
            && (next.ready <==> next.status == Ready)
            && (next.ready <==> e == Download(Done) || (s.ready && e != Lost))
            && next.lastLogonOrHeartbeat == 0
  {
  }

  /** The two readiness flags agree after every event of every run, and hold exactly when a download reached DONE and
      the connection has not been lost since; so order actions pass their gate in exactly those states. */
  lemma {:induction false} ReadinessFlagsAgree(config: Config, events: seq<Event>)
    requires RunFrom(config, INITIAL, events).alive
    ensures var s := RunFrom(config, INITIAL, events).session;
            && (s.ready <==> s.status == Ready)
            && (PassesGate(s) <==> DoneSinceLost(events))
            && s.lastLogonOrHeartbeat == 0
    decreases |events|
  {
    if events != [] {
      var before, e := events[..|events| - 1], events[|events| - 1];
      assert events == before + [e];
      RunOneMore(config, INITIAL, before, e);
      ReadinessFlagsAgree(config, before);
      ReadyStep(config, RunFrom(config, INITIAL, before).session, e);
      DoneSinceLostOneMore(before, e);
    }
  }

  // ----- logons -----

  function Deadline(config: Config, e: Event): int
    requires e.Connected?
  {
    e.createTime + config.testOrderLogon
  }

  /** Event e is a tick on a live connection past a deadline. */
  predicate LiveTickAfter(e: Event, deadline: int)
  {
    e.Timer? && e.live && deadline < e.now
  }

  /** The connection made by event i still waits for its logon: it stands, no tick has sent the logon, and a deadline
      of exactly zero never counts, because zero means unset. */
  predicate Waiting(config: Config, events: seq<Event>, i: nat)
  {
    && i < |events| && events[i].Connected? && Deadline(config, events[i]) != 0
    && Stands(events, i)
    && forall j :: i < j < |events| ==>
         !events[j].Connected?
         && !(LiveTickAfter(events[j], Deadline(config, events[i])) && !DoneSinceLost(events[..j]))
  }

  lemma WaitingOneMore(config: Config, events: seq<Event>, e: Event, i: nat)
    requires i < |events|
    ensures Waiting(config, events + [e], i)
       <==> Waiting(config, events, i) && e != Lost && !e.Connected?
            && !(LiveTickAfter(e, Deadline(config, events[i])) && !DoneSinceLost(events))
  {
    var longer := events + [e];
    StandsOneMore(events, e);
    assert longer[|events|] == e && longer[..|events|] == events;
    assert forall j :: 0 <= j < |events| ==> longer[..j] == events[..j];
    if Waiting(config, longer, i) {
      assert forall j :: i < j < |events| ==> longer[j] == events[j];
    }
  }

  /** The pending logon time read off the history: the deadline of the connection that still waits, or unset. */
  lemma {:induction false} LogonTimeFollowsHistory(config: Config, events: seq<Event>)
    requires RunFrom(config, INITIAL, events).alive
    ensures var s := RunFrom(config, INITIAL, events).session;
            && (s.testLogonTime != 0 <==> exists i: nat :: Waiting(config, events, i))
            && (forall i: nat :: Waiting(config, events, i) ==> s.testLogonTime == Deadline(config, events[i]))
    decreases |events|
  {
    if events != [] {
      var before, e := events[..|events| - 1], events[|events| - 1];
      assert events == before + [e];
      RunOneMore(config, INITIAL, before, e);
      LogonTimeFollowsHistory(config, before);
      ReadinessFlagsAgree(config, before);
      forall i: nat | i < |before|
        ensures Waiting(config, events, i)
           <==> Waiting(config, before, i) && e != Lost && !e.Connected?
                && !(LiveTickAfter(e, Deadline(config, before[i])) && !DoneSinceLost(before))
        ensures before[i] == events[i]
      {
        WaitingOneMore(config, before, e, i);
      }
      StandsOneMore(before, e);
      if e.Connected? && Deadline(config, e) != 0 { assert Waiting(config, events, |before|); }
    }
  }

  /** A step sends a logon if and only if it is a live tick past the deadline of a connection that still waits for its
      logon, before readiness. */
  lemma LogonSentIff(config: Config, events: seq<Event>, e: Event)
    requires RunFrom(config, INITIAL, events).alive
    ensures var step := StepOn(config, RunFrom(config, INITIAL, events).session, e);
            (step.Steps? && Logon in step.outputs)
            == (!DoneSinceLost(events)
                && exists i: nat :: Waiting(config, events, i) && LiveTickAfter(e, Deadline(config, events[i])))
  {
    ReadinessFlagsAgree(config, events);
    LogonTimeFollowsHistory(config, events);
  }

  // ----- the public status -----

  /** The event, coming after these, sends a logon (LogonSentIff). */
  ghost predicate SendsLogon(config: Config, events: seq<Event>, e: Event)
  {
    && !DoneSinceLost(events)
    && exists i: nat :: Waiting(config, events, i) && LiveTickAfter(e, Deadline(config, events[i]))
  }

  /** A logon has been sent since the connection was last lost. */
  ghost predicate LogonSinceLost(config: Config, events: seq<Event>)
  {
    exists j :: 0 <= j < |events| && Stands(events, j) && SendsLogon(config, events[..j], events[j])
  }

  lemma LogonSinceLostOneMore(config: Config, events: seq<Event>, e: Event)
    ensures LogonSinceLost(config, events + [e])
       <==> e != Lost && (LogonSinceLost(config, events) || SendsLogon(config, events, e))
  {
    var longer := events + [e];
    StandsOneMore(events, e);
    assert longer[|events|] == e && longer[..|events|] == events;
    assert forall j :: 0 <= j < |events| ==> longer[..j] == events[..j];
  }

  /** What one event does to the public status. */
  lemma StatusStep(config: Config, s: Session, e: Event)
    requires StepOn(config, s, e).Steps?
    ensures var step := StepOn(config, s, e);
            && (Logon in step.outputs ==> e.Timer?)
            && step.next.status == (if e == Download(Done) then Ready else if e == Lost then Disconnected
                                    else if Logon in step.outputs then LoginSent else s.status)
  {
  }

  /** The public status read off the history: ready from a DONE on, otherwise login sent once a logon has gone out on
      this connection, otherwise disconnected after a loss, and undefined before the first one. */
  lemma {:induction false} StatusFollowsHistory(config: Config, events: seq<Event>)
    requires RunFrom(config, INITIAL, events).alive
    ensures RunFrom(config, INITIAL, events).session.status
         == if DoneSinceLost(events) then Ready else if LogonSinceLost(config, events) then LoginSent
            else if Lost in events then Disconnected else Undefined
    decreases |events|
  {
    if events != [] {
      var before, e := events[..|events| - 1], events[|events| - 1];
      assert events == before + [e];
      RunOneMore(config, INITIAL, before, e);
      StatusFollowsHistory(config, before);
      StatusStep(config, RunFrom(config, INITIAL, before).session, e);
      LogonSentIff(config, before, e);
      DoneSinceLostOneMore(before, e);
      LogonSinceLostOneMore(config, before, e);
    }
  }

  // ----- the assertions -----

  /** Connections alternate with losses: none is made while another stands. */
  predicate Alternates(events: seq<Event>)
  {
    forall j :: 0 <= j < |events| && events[j].Connected? ==> !Up(events[..j])
  }

  /** No download reports UNDEFINED, and none finishes twice without a lost connection in between. */
  predicate DownloadsInOrder(events: seq<Event>)
  {
    forall j :: 0 <= j < |events| ==>
      events[j] != Download(UndefinedState) && (events[j] == Download(Done) ==> !DoneSinceLost(events[..j]))
  }

  /** Event i made the connection that stands. */
  predicate Latest(events: seq<Event>, i: nat)
  {
    && i < |events| && events[i].Connected? && Stands(events, i)
    && forall j :: i < j < |events| ==> !events[j].Connected?
  }

  lemma LatestOneMore(events: seq<Event>, e: Event)
    ensures Latest(events + [e], |events|) <==> e.Connected?
    ensures forall i: nat :: i < |events| ==>
              (Latest(events + [e], i) <==> Latest(events, i) && e != Lost && !e.Connected?)
  {
    var longer := events + [e];
    StandsOneMore(events, e);
    assert longer[|events|] == e;
    forall i: nat | i < |events| && Latest(longer, i) ensures Latest(events, i) {
      assert forall j :: i < j < |events| ==> longer[j] == events[j];
    }
  }

  /** A configured test disconnect is due on the standing connection; a time of exactly zero never counts. */
  predicate PastDisconnect(config: Config, events: seq<Event>, now: int)
  {
    && config.testOrderDisconnect != 0
    && exists i :: 0 <= i < |events| && Latest(events, i) && events[i].createTime + config.testOrderDisconnect != 0
                   && events[i].createTime + config.testOrderDisconnect < now
  }

  /** The test-disconnect time read off the history. */
  lemma {:induction false} DisconnectTimeFollowsHistory(config: Config, events: seq<Event>)
    requires RunFrom(config, INITIAL, events).alive
    ensures var time := RunFrom(config, INITIAL, events).session.testDisconnectTime;
            && (config.testOrderDisconnect == 0 ==> time == 0)
            && (time != 0 ==> exists i :: 0 <= i < |events| && Latest(events, i))
            && (config.testOrderDisconnect != 0 ==>
                  forall i: nat :: Latest(events, i) ==> time == events[i].createTime + config.testOrderDisconnect)
    decreases |events|
  {
    if events != [] {
      var before, e := events[..|events| - 1], events[|events| - 1];
      assert events == before + [e];
      RunOneMore(config, INITIAL, before, e);
      DisconnectTimeFollowsHistory(config, before);
      LatestOneMore(before, e);
      assert forall i :: 0 <= i < |before| ==> events[i] == before[i];
    }
  }

  /** The assertion before a test request fails on this event: the configured frequency is not positive, and a request
      is due. */
  predicate PingFails(config: Config, events: seq<Event>, e: Event)
  {
    && e.Timer? && e.live && config.pingFreq <= 0 && 0 <= e.now
    && DoneSinceLost(events) && !PastDisconnect(config, events, e.now)
  }

  /** The event fails an assertion after these events: a download is UNDEFINED or finishes twice, a connection is made
      while an earlier one still waits for its logon, or a due test request has no positive frequency. */
  ghost predicate Breaks(config: Config, events: seq<Event>, e: Event)
  {
    || e == Download(UndefinedState)
    || (e == Download(Done) && DoneSinceLost(events))
    || (e.Connected? && exists i: nat :: Waiting(config, events, i))
    || PingFails(config, events, e)
  }

  lemma {:induction false} NoHeartbeatWithoutFrequency(config: Config, events: seq<Event>)
    requires RunFrom(config, INITIAL, events).alive && config.pingFreq <= 0
    ensures RunFrom(config, INITIAL, events).session.nextHeartbeat == 0
    decreases |events|
  {
    if events != [] {
      var before, e := events[..|events| - 1], events[|events| - 1];
      assert events == before + [e];
      RunOneMore(config, INITIAL, before, e);
      NoHeartbeatWithoutFrequency(config, before);
    }
  }

  /** Exactly which event ends the process, after any surviving run under any configuration. */
  lemma BreaksIff(config: Config, events: seq<Event>, e: Event)
    requires RunFrom(config, INITIAL, events).alive
    ensures StepOn(config, RunFrom(config, INITIAL, events).session, e).Fails? <==> Breaks(config, events, e)
  {
    ReadinessFlagsAgree(config, events);
    LogonTimeFollowsHistory(config, events);
    DisconnectTimeFollowsHistory(config, events);
    if config.pingFreq <= 0 { NoHeartbeatWithoutFrequency(config, events); }
  }

  /** Any run under any configuration survives if and only if none of its events breaks it. */
  lemma {:induction false} SurvivesIffNothingBreaks(config: Config, events: seq<Event>)
    ensures RunFrom(config, INITIAL, events).alive
       <==> forall j :: 0 <= j < |events| ==> !Breaks(config, events[..j], events[j])
    decreases |events|
  {
    if events != [] {
      var n := |events| - 1;
      var before, e := events[..n], events[n];
      assert events == before + [e];
      SurvivesIffNothingBreaks(config, before);
      RunOneMore(config, INITIAL, before, e);
      assert forall j :: 0 <= j < n ==> before[..j] == events[..j] && before[j] == events[j];
      if RunFrom(config, INITIAL, before).alive { BreaksIff(config, before, e); }
    }
  }

  lemma WaitingMeansUp(config: Config, events: seq<Event>, i: nat)
    requires Waiting(config, events, i)
    ensures Up(events)
  {
  }

  /** When connections alternate with losses the assertion on a new connection never fails: the process survives
      exactly when the downloads come in order and no test request is due without a positive frequency. */
  lemma SurvivesIffDownloadsInOrder(config: Config, events: seq<Event>)
    requires Alternates(events)
    ensures RunFrom(config, INITIAL, events).alive
       <==> DownloadsInOrder(events)
            && forall j :: 0 <= j < |events| ==> !PingFails(config, events[..j], events[j])
    ensures RunFrom(config, INITIAL, events).alive && !Up(events)
        ==> RunFrom(config, INITIAL, events).session.testLogonTime == 0
  {
    SurvivesIffNothingBreaks(config, events);
    forall j | 0 <= j < |events|
      ensures Breaks(config, events[..j], events[j])
         <==> events[j] == Download(UndefinedState)
              || (events[j] == Download(Done) && DoneSinceLost(events[..j]))
              || PingFails(config, events[..j], events[j])
    {
      if events[j].Connected? {
        forall i: nat ensures !Waiting(config, events[..j], i) {
          if Waiting(config, events[..j], i) { WaitingMeansUp(config, events[..j], i); }
        }
      }
    }
    if RunFrom(config, INITIAL, events).alive { LogonTimeFollowsHistory(config, events); }
  }

  // ----- one session -----

  /** The events of one session after its connection was made. */
  predicate WithinSession(events: seq<Event>)
  {
    forall j :: 0 <= j < |events| ==> events[j] != Lost && !events[j].Connected?
  }

  function LogonCount(outputs: seq<Output>): nat
  {
    if outputs == [] then 0
    else LogonCount(outputs[..|outputs| - 1]) + if outputs[|outputs| - 1] == Logon then 1 else 0
  }

  lemma {:induction false} LogonCountAppended(a: seq<Output>, b: seq<Output>)
    ensures LogonCount(a + b) == LogonCount(a) + LogonCount(b)
    decreases |b|
  {
    if b == [] {
      assert a + b == a;
    } else {
      LogonCountAppended(a, b[..|b| - 1]);
      assert (a + b)[..|a + b| - 1] == a + b[..|b| - 1];
    }
  }

  /** A live tick past the deadline came before any download reached DONE. */
  predicate LogonDue(events: seq<Event>, deadline: int)
  {
    exists i :: 0 <= i < |events| && LiveTickAfter(events[i], deadline) && Download(Done) !in events[..i]
  }

  lemma LogonDueOneMore(events: seq<Event>, e: Event, deadline: int)
    ensures LogonDue(events + [e], deadline)
       <==> LogonDue(events, deadline) || (LiveTickAfter(e, deadline) && Download(Done) !in events)
  {
    var longer := events + [e];
    assert longer[|events|] == e && longer[..|events|] == events;
    assert forall i :: 0 <= i < |events| ==> longer[i] == events[i] && longer[..i] == events[..i];
  }

  /** What one event within a session does to the logon. */
  lemma LogonStep(config: Config, s: Session, e: Event)
    requires e != Lost && !e.Connected? && s.lastLogonOrHeartbeat == 0 && StepOn(config, s, e).Steps?
    ensures var step := StepOn(config, s, e);
            var sends := s.testLogonTime != 0 && !s.ready && LiveTickAfter(e, s.testLogonTime);
            && LogonCount(step.outputs) == (if sends then 1 else 0)
            && step.next.testLogonTime == (if sends then 0 else s.testLogonTime)
            && step.next.lastLogonOrHeartbeat == 0
            && (step.next.ready <==> s.ready || e == Download(Done))
  {
    var outputs := StepOn(config, s, e).outputs;
    assert outputs != [] ==> LogonCount(outputs) == LogonCount([]) + if outputs[0] == Logon then 1 else 0;
  }

  /** From the moment a connection is made, a session sends exactly one logon if a live tick comes after the deadline
      and before readiness, and none otherwise. */
  lemma {:induction false} LogonsOfSession(config: Config, s: Session, events: seq<Event>)
    requires WithinSession(events) && s.lastLogonOrHeartbeat == 0 && RunFrom(config, s, events).alive
    ensures var run := RunFrom(config, s, events);
            var due := s.testLogonTime != 0 && !s.ready && LogonDue(events, s.testLogonTime);
            && LogonCount(run.outputs) == (if due then 1 else 0)
            && run.session.testLogonTime == (if due then 0 else s.testLogonTime)
            && run.session.lastLogonOrHeartbeat == 0
            && (run.session.ready <==> s.ready || Download(Done) in events)
    decreases |events|
  {
    if events != [] {
      var before, e := events[..|events| - 1], events[|events| - 1];
      assert events == before + [e];
      RunOneMore(config, s, before, e);
      LogonsOfSession(config, s, before);
      LogonDueOneMore(before, e, s.testLogonTime);
      var run := RunFrom(config, s, before);
      LogonStep(config, run.session, e);
      LogonCountAppended(run.outputs, StepOn(config, run.session, e).outputs);
      assert Download(Done) in events <==> Download(Done) in before || e == Download(Done);
    }
  }

  lemma Regroup(a: seq<Output>, b: seq<Output>, c: seq<Output>)
    ensures a + (b + c) == a + b + c
  {
  }

  lemma {:induction false} RunsCompose(config: Config, s: Session, a: seq<Event>, b: seq<Event>)
    requires RunFrom(config, s, a).alive
    ensures var first := RunFrom(config, s, a);
            var second := RunFrom(config, first.session, b);
            RunFrom(config, s, a + b) == Run(second.session, first.outputs + second.outputs, second.alive)
    decreases |b|
  {
    if b == [] {
      assert a + b == a;
    } else {
      var before, e := b[..|b| - 1], b[|b| - 1];
      RunsCompose(config, s, a, before);
      RunOneMore(config, s, a + before, e);
      assert a + before + [e] == a + b;
      var first := RunFrom(config, s, a);
      var second := RunFrom(config, first.session, before);
      var step := StepOn(config, second.session, e);
      if step.Steps? { Regroup(first.outputs, second.outputs, step.outputs); }
    }
  }

  /** One logon per session: in any run, what a session adds to the outputs holds one logon if a live tick comes after
      connect time plus the configured delay and before readiness, and no logon otherwise. */
  lemma OneLogonPerSession(config: Config, before: seq<Event>, createTime: int, session: seq<Event>)
    requires !Up(before) && WithinSession(session)
    requires RunFrom(config, INITIAL, before).alive
    requires RunFrom(config, INITIAL, before + [Connected(createTime)] + session).alive
    ensures var earlier := RunFrom(config, INITIAL, before).outputs;
            var deadline := createTime + config.testOrderLogon;
            && earlier <= RunFrom(config, INITIAL, before + [Connected(createTime)] + session).outputs
            && LogonCount(RunFrom(config, INITIAL, before + [Connected(createTime)] + session).outputs[|earlier|..])
               == if deadline != 0 && !DoneSinceLost(before) && LogonDue(session, deadline) then 1 else 0
  {
    var connected := before + [Connected(createTime)];
    LogonTimeFollowsHistory(config, before);
    ReadinessFlagsAgree(config, before);
    RunOneMore(config, INITIAL, before, Connected(createTime));
    var run := RunFrom(config, INITIAL, connected);
    assert run.outputs == RunFrom(config, INITIAL, before).outputs + [];
    RunsCompose(config, INITIAL, connected, session);
    LogonsOfSession(config, run.session, session);
  }

  /** A concrete failure: a second connection while the first still waits for its logon ends the process. */
  lemma SecondConnectionFails(config: Config, first: int, second: int)
    requires first + config.testOrderLogon != 0
    ensures !RunFrom(config, INITIAL, [Connected(first), Connected(second)]).alive
  {
    RunOneMore(config, INITIAL, [], Connected(first));
    RunOneMore(config, INITIAL, [Connected(first)], Connected(second));
    assert [] + [Connected(first)] == [Connected(first)];
    assert [Connected(first)] + [Connected(second)] == [Connected(first), Connected(second)];
  }

  /** A connection whose logon deadline is exactly zero sends no logon, whatever its session brings. */
  lemma ZeroDeadlineSendsNoLogon(config: Config, session: seq<Event>)
    requires WithinSession(session)
    requires RunFrom(config, INITIAL, [] + [Connected(-config.testOrderLogon)] + session).alive
    ensures LogonCount(RunFrom(config, INITIAL, [] + [Connected(-config.testOrderLogon)] + session).outputs) == 0
  {
    OneLogonPerSession(config, [], -config.testOrderLogon, session);
    var outputs := RunFrom(config, INITIAL, [] + [Connected(-config.testOrderLogon)] + session).outputs;
    assert outputs[0..] == outputs;
  }

  // ----- test requests -----

  function Pings(outputs: seq<Output>): seq<int>
  {
    if outputs == [] then [] else
    var last := outputs[|outputs| - 1];
    Pings(outputs[..|outputs| - 1]) + if last.TestRequest? then [last.now] else []
  }

  lemma PingsOneMore(outputs: seq<Output>, more: seq<Output>)
    requires |more| <= 1
    ensures Pings(outputs + more)
         == Pings(outputs) + if more != [] && more[0].TestRequest? then [more[0].now] else []
  {
    if more == [] {
      assert outputs + more == outputs;
    } else {
      assert (outputs + more)[..|outputs|] == outputs;
    }
  }

  predicate Spaced(times: seq<int>, gap: int)
  {
    forall i :: 0 < i < |times| ==> times[i - 1] + gap <= times[i]
  }

  predicate NeverLost(events: seq<Event>)
  {
    forall j :: 0 <= j < |events| ==> events[j] != Lost
  }

  /** What one event does to the heartbeat while the connection is not lost. */
  lemma PingStep(config: Config, s: Session, e: Event)
    requires e != Lost && StepOn(config, s, e).Steps?
    ensures var step := StepOn(config, s, e);
            && |step.outputs| <= 1
            && step.next.nextHeartbeat
               == (if step.outputs != [] && step.outputs[0].TestRequest? then step.outputs[0].now + config.pingFreq
                   else s.nextHeartbeat)
            && (step.outputs != [] && step.outputs[0].TestRequest? ==>
                  config.pingFreq > 0 && s.nextHeartbeat <= step.outputs[0].now)
  {
  }

  /** Requests at these times leave the next heartbeat here, when it started out at `start`. */
  predicate HeartbeatFollows(times: seq<int>, gap: int, start: int, next: int)
  {
    && Spaced(times, gap)
    && next == (if times == [] then start else times[|times| - 1] + gap)
    && (times != [] ==> gap > 0)
  }

  lemma HeartbeatOneMore(times: seq<int>, gap: int, start: int, next: int, time: int)
    requires HeartbeatFollows(times, gap, start, next) && gap > 0 && next <= time
    ensures HeartbeatFollows(times + [time], gap, start, time + gap)
  {
  }

  /** While the connection is not lost, test requests are at least the ping frequency apart, on any clock, and the
      next one is due one period after the last. */
  lemma {:induction false} PingsSpaced(config: Config, s: Session, events: seq<Event>)
    requires NeverLost(events)
    ensures var run := RunFrom(config, s, events);
            HeartbeatFollows(Pings(run.outputs), config.pingFreq, s.nextHeartbeat, run.session.nextHeartbeat)
    decreases |events|
  {
    if events != [] {
      var before, e := events[..|events| - 1], events[|events| - 1];
      assert events == before + [e];
      PingsSpaced(config, s, before);
      var run := RunFrom(config, s, before);
      RunOneMore(config, s, before, e);
      var step := StepOn(config, run.session, e);
      if run.alive && step.Steps? {
        PingStep(config, run.session, e);
        PingsOneMore(run.outputs, step.outputs);
        if step.outputs != [] && step.outputs[0].TestRequest? {
          HeartbeatOneMore(
            Pings(run.outputs), config.pingFreq, s.nextHeartbeat, run.session.nextHeartbeat, step.outputs[0].now);
        } else {
          assert Pings(run.outputs) + [] == Pings(run.outputs);
        }
      }
    }
  }

  lemma PingStepIff(config: Config, s: Session, now: int, live: bool)
    requires config.pingFreq > 0 && s.lastLogonOrHeartbeat == 0
    ensures TestRequest(now) in StepOn(config, s, Timer(now, live)).outputs
       <==> live && s.ready && !(s.testDisconnectTime != 0 && s.testDisconnectTime < now) && s.nextHeartbeat <= now
  {
  }

  lemma PingSentWithin(config: Config, s: Session, events: seq<Event>, now: int, live: bool)
    requires config.pingFreq > 0 && NeverLost(events) && s.nextHeartbeat == 0
    requires RunFrom(config, s, events).alive && RunFrom(config, s, events).session.lastLogonOrHeartbeat == 0
    ensures var run := RunFrom(config, s, events);
            var times := Pings(run.outputs);
            (TestRequest(now) in StepOn(config, run.session, Timer(now, live)).outputs)
            == (live && run.session.ready
                && !(run.session.testDisconnectTime != 0 && run.session.testDisconnectTime < now)
                && (if times == [] then 0 <= now else times[|times| - 1] + config.pingFreq <= now))
  {
    PingsSpaced(config, s, events);
    PingStepIff(config, RunFrom(config, s, events).session, now, live);
  }

  /** How many events there are up to and with the last lost connection: where the present session began. */
  function SessionStart(events: seq<Event>): (n: nat)
    ensures n <= |events|
    ensures n > 0 ==> events[n - 1] == Lost
    ensures NeverLost(events[n..])
  {
    if events == [] then 0
    else if events[|events| - 1] == Lost then |events|
    else
      var n := SessionStart(events[..|events| - 1]);
      assert events[n..] == events[..|events| - 1][n..] + [events[|events| - 1]];
      n
  }

  lemma {:induction false} AliveBefore(config: Config, events: seq<Event>, n: nat)
    requires RunFrom(config, INITIAL, events).alive && n <= |events|
    ensures RunFrom(config, INITIAL, events[..n]).alive
    decreases |events|
  {
    if n == |events| {
      assert events[..n] == events;
    } else {
      AliveBefore(config, events[..|events| - 1], n);
      assert events[..|events| - 1][..n] == events[..n];
    }
  }

  lemma {:induction false} PingsAppended(a: seq<Output>, b: seq<Output>)
    ensures Pings(a + b) == Pings(a) + Pings(b)
    decreases |b|
  {
    if b == [] {
      assert a + b == a;
    } else {
      PingsAppended(a, b[..|b| - 1]);
      assert (a + b)[..|a + b| - 1] == a + b[..|b| - 1];
    }
  }

  /** The times of the test requests a run has sent since the connection was last lost: those of the whole run without
      those sent before. */
  ghost predicate SentSinceLost(config: Config, events: seq<Event>, times: seq<int>)
  {
    var earlier := Pings(RunFrom(config, INITIAL, events[..SessionStart(events)]).outputs);
    Pings(RunFrom(config, INITIAL, events).outputs) == earlier + times
  }

  lemma StartsWithoutHeartbeat(config: Config, events: seq<Event>)
    requires RunFrom(config, INITIAL, events).alive
    ensures var start := RunFrom(config, INITIAL, events[..SessionStart(events)]);
            start.alive && start.session.nextHeartbeat == 0
  {
    var n := SessionStart(events);
    AliveBefore(config, events, n);
    if n > 0 {
      AliveBefore(config, events, n - 1);
      assert events[..n] == events[..n - 1] + [Lost];
      RunOneMore(config, INITIAL, events[..n - 1], Lost);
    }
  }

  /** The present session is a run of its own, from a session without a heartbeat. */
  lemma SessionOf(config: Config, events: seq<Event>) returns (s: Session, session: seq<Event>)
    requires RunFrom(config, INITIAL, events).alive
    ensures s.nextHeartbeat == 0 && NeverLost(session)
    ensures RunFrom(config, s, session).alive
    ensures RunFrom(config, s, session).session == RunFrom(config, INITIAL, events).session
    ensures SentSinceLost(config, events, Pings(RunFrom(config, s, session).outputs))
  {
    var n := SessionStart(events);
    var before := events[..n];
    session := events[n..];
    assert events == before + session;
    StartsWithoutHeartbeat(config, events);
    s := RunFrom(config, INITIAL, before).session;
    RunsCompose(config, INITIAL, before, session);
    PingsAppended(RunFrom(config, INITIAL, before).outputs, RunFrom(config, s, session).outputs);
  }

  lemma SameTimes(config: Config, events: seq<Event>, a: seq<int>, b: seq<int>)
    requires SentSinceLost(config, events, a) && SentSinceLost(config, events, b)
    ensures a == b
  {
    var earlier := Pings(RunFrom(config, INITIAL, events[..SessionStart(events)]).outputs);
    assert (earlier + a)[|earlier|..] == a && (earlier + b)[|earlier|..] == b;
  }

  lemma PastDisconnectIff(config: Config, events: seq<Event>, now: int)
    requires RunFrom(config, INITIAL, events).alive
    ensures var time := RunFrom(config, INITIAL, events).session.testDisconnectTime;
            time != 0 && time < now <==> PastDisconnect(config, events, now)
  {
    DisconnectTimeFollowsHistory(config, events);
  }

  /** Exactly when a test request is sent, in any surviving run: on a live tick, once a download has reached DONE with
      no lost connection since, unless a configured test disconnect is past; one period or more after the last
      request sent since the connection was last lost, or at a time that is not negative if none was. */
  lemma PingSentIff(config: Config, events: seq<Event>, now: int, live: bool, times: seq<int>)
    requires config.pingFreq > 0 && RunFrom(config, INITIAL, events).alive
    requires SentSinceLost(config, events, times)
    ensures TestRequest(now) in StepOn(config, RunFrom(config, INITIAL, events).session, Timer(now, live)).outputs
       <==> live && DoneSinceLost(events) && !PastDisconnect(config, events, now)
            && (if times == [] then 0 <= now else times[|times| - 1] + config.pingFreq <= now)
  {
    var s, session := SessionOf(config, events);
    SameTimes(config, events, times, Pings(RunFrom(config, s, session).outputs));
    ReadinessFlagsAgree(config, events);
    PastDisconnectIff(config, events, now);
    PingSentWithin(config, s, session, now, live);
  }

  /** Exactly when the connection is closed, in any surviving run: on a live tick, once a download has reached DONE with
      no lost connection since, when a configured test disconnect is past. No step does two things at once. */
  lemma CloseSentIff(config: Config, events: seq<Event>, e: Event)
    requires RunFrom(config, INITIAL, events).alive
    ensures var step := StepOn(config, RunFrom(config, INITIAL, events).session, e);
            && (step.Steps? && Close in step.outputs
                <==> e.Timer? && e.live && DoneSinceLost(events) && PastDisconnect(config, events, e.now))
            && (step.Steps? ==> |step.outputs| <= 1)
  {
    ReadinessFlagsAgree(config, events);
    DisconnectTimeFollowsHistory(config, events);
    if e.Timer? { PastDisconnectIff(config, events, e.now); }
  }

  /** The request timeout, which no run arms, would close the connection before anything else is looked at, and make
      no difference before it has expired. */
  lemma TimeoutClosesFirst(config: Config, s: Session, now: int)
    ensures var expired := s.lastLogonOrHeartbeat != 0 && config.requestTimeout != 0
                           && now > s.lastLogonOrHeartbeat + config.requestTimeout;
            var step := OnTimer(config, s, now, true);
            var unarmed := OnTimer(config, s.(lastLogonOrHeartbeat := 0), now, true);
            && (expired ==> step == Steps(s, [Close]))
            && (!expired ==> (step.Fails? <==> unarmed.Fails?))
            && (!expired && step.Steps? ==>
                  step == unarmed.(next := unarmed.next.(lastLogonOrHeartbeat := s.lastLogonOrHeartbeat)))
  {
  }

  /** Every surviving run has one list of requests sent since the connection was last lost. */
  lemma SentSinceLostUnique(config: Config, events: seq<Event>) returns (times: seq<int>)
    requires RunFrom(config, INITIAL, events).alive
    ensures SentSinceLost(config, events, times)
    ensures forall other: seq<int> :: SentSinceLost(config, events, other) ==> other == times
  {
    var s, session := SessionOf(config, events);
    times := Pings(RunFrom(config, s, session).outputs);
    forall other: seq<int> | SentSinceLost(config, events, other) ensures other == times {
      SameTimes(config, events, other, times);
    }
  }

  function CountWithin(times: seq<int>, from: int, to: int): nat
  {
    if times == [] then 0 else
    var last := times[|times| - 1];
    CountWithin(times[..|times| - 1], from, to) + if from <= last <= to then 1 else 0
  }

  lemma {:induction false} SpacedFromLast(times: seq<int>, gap: int, i: nat)
    requires Spaced(times, gap) && gap > 0 && i < |times| - 1
    ensures times[i] + gap <= times[|times| - 1]
    decreases |times| - i
  {
    assert times[i + 1 - 1] + gap <= times[i + 1];
    if i + 1 < |times| - 1 { SpacedFromLast(times, gap, i + 1); }
  }

  lemma {:induction false} CountUpTo(times: seq<int>, from: int, low: int, high: int)
    requires low <= high
    requires forall i :: 0 <= i < |times| ==> times[i] <= low
    ensures CountWithin(times, from, low) == CountWithin(times, from, high)
    decreases |times|
  {
    if times != [] { CountUpTo(times[..|times| - 1], from, low, high); }
  }

  lemma {:induction false} WindowBound(times: seq<int>, gap: int, from: int, to: int)
    requires Spaced(times, gap) && gap > 0
    ensures CountWithin(times, from, to) > 0 ==> (CountWithin(times, from, to) - 1) * gap <= to - from
    decreases |times|
  {
    if times != [] {
      var before, last := times[..|times| - 1], times[|times| - 1];
      assert Spaced(before, gap);
      if from <= last <= to {
        forall i | 0 <= i < |before| ensures before[i] <= last - gap {
          SpacedFromLast(times, gap, i);
        }
        CountUpTo(before, from, last - gap, to);
        WindowBound(before, gap, from, last - gap);
        var n := CountWithin(before, from, last - gap);
        assert n * gap == (n - 1) * gap + gap;
      } else {
        WindowBound(before, gap, from, to);
      }
    }
  }

  /** Test-request rate: however the clock moves, any window of a session holds at most one request more than the
      periods that fit in it. */
  lemma TestRequestRate(config: Config, s: Session, events: seq<Event>, from: int, to: int)
    requires config.pingFreq > 0 && NeverLost(events) && from <= to
    ensures var n := CountWithin(Pings(RunFrom(config, s, events).outputs), from, to);
            && (n > 0 ==> (n - 1) * config.pingFreq <= to - from)
            && n <= (to - from) / config.pingFreq + 1
  {
    var times := Pings(RunFrom(config, s, events).outputs);
    PingsSpaced(config, s, events);
    WindowBound(times, config.pingFreq, from, to);
    var n := CountWithin(times, from, to);
    if n > 0 { QuotientBound(n - 1, config.pingFreq, to - from); }
    if n == 0 { QuotientBound(0, config.pingFreq, to - from); }
  }

  lemma ProductMonotone(a: int, b: int, gap: int)
    requires a <= b && gap > 0
    ensures a * gap <= b * gap
  {
    assert b * gap == a * gap + (b - a) * gap;
  }

  lemma QuotientBound(n: nat, gap: int, span: int)
    requires gap > 0 && n * gap <= span
    ensures n <= span / gap
  {
    var quotient, remainder := span / gap, span % gap;
    assert span == quotient * gap + remainder && remainder < gap;
    assert (quotient + 1) * gap == quotient * gap + gap;
    if quotient + 1 <= n { ProductMonotone(quotient + 1, n, gap); }
  }

  lemma {:induction false} SpacedSpan(times: seq<int>, gap: int)
    requires Spaced(times, gap) && times != []
    ensures times[|times| - 1] - times[0] >= (|times| - 1) * gap
    decreases |times|
  {
    if |times| > 1 {
      var n := |times| - 1;
      SpacedSpan(times[..n], gap);
      assert times[n - 1] + gap <= times[n];
      assert n * gap == (n - 1) * gap + gap;
    }
  }

  /** The n test requests of a session span at least n - 1 periods. */
  lemma TestRequestsSpan(config: Config, s: Session, events: seq<Event>)
    requires NeverLost(events) && Pings(RunFrom(config, s, events).outputs) != []
    ensures var times := Pings(RunFrom(config, s, events).outputs);
            times[|times| - 1] - times[0] >= (|times| - 1) * config.pingFreq
  {
    PingsSpaced(config, s, events);
    SpacedSpan(Pings(RunFrom(config, s, events).outputs), config.pingFreq);
  }

  /** Within a session whose test-disconnect time is set, no test request is sent on a later tick. */
  lemma {:induction false} NoPingPastDisconnectTime(config: Config, s: Session, events: seq<Event>)
    requires WithinSession(events) && s.testDisconnectTime != 0
    ensures RunFrom(config, s, events).session.testDisconnectTime == s.testDisconnectTime
    ensures forall i :: 0 <= i < |Pings(RunFrom(config, s, events).outputs)| ==>
              Pings(RunFrom(config, s, events).outputs)[i] <= s.testDisconnectTime
    decreases |events|
  {
    if events != [] {
      var before, e := events[..|events| - 1], events[|events| - 1];
      assert events == before + [e];
      NoPingPastDisconnectTime(config, s, before);
      var run := RunFrom(config, s, before);
      RunOneMore(config, s, before, e);
      var step := StepOn(config, run.session, e);
      if run.alive && step.Steps? { PingsOneMore(run.outputs, step.outputs); }
    }
  }

  /** A configured test disconnect: after a connection at createTime, every test request of the session carries a time
      no later than createTime plus the period, unless that sum is zero, which means unset. */
  lemma TestDisconnectSilencesPings(config: Config, s: Session, createTime: int, session: seq<Event>)
    requires config.testOrderDisconnect != 0 && createTime + config.testOrderDisconnect != 0
    requires WithinSession(session) && OnConnected(config, s, createTime).Steps?
    ensures var connected := OnConnected(config, s, createTime).next;
            forall i :: 0 <= i < |Pings(RunFrom(config, connected, session).outputs)| ==>
              Pings(RunFrom(config, connected, session).outputs)[i] <= createTime + config.testOrderDisconnect
  {
    NoPingPastDisconnectTime(config, OnConnected(config, s, createTime).next, session);
  }
}
