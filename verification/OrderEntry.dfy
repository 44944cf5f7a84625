/** The order entry stream: event methods that update its flags and timers in place. */
module OrderEntryStream {
  import opened OrderSession

  /** A gated order action is refused, or goes on to a body that is fatal because it is not implemented. */
  datatype ActionOutcome = NotReady | FatalNotImplemented

  class OrderEntry {
    const config: Config
    var ready: bool
    var connectionStatus: ConnectionStatus
    var nextHeartbeat: int
    var lastLogonOrHeartbeat: int
    var testDisconnectTime: int
    var testLogonTime: int
    /** The messages sent and the closes requested so far. */
    var outputs: seq<Output>

    ghost function State(): Session
      reads this
    {
      Session(ready, connectionStatus, nextHeartbeat, lastLogonOrHeartbeat, testDisconnectTime, testLogonTime)
    }

    /** This object after the run of these events from the start. */
    ghost predicate HasRun(events: seq<Event>)
      reads this
    {
      RunFrom(config, INITIAL, events) == Run(State(), outputs, true)
    }

    constructor (config: Config)
      ensures this.config == config && HasRun([])
    {
      this.config := config;
      ready, connectionStatus, nextHeartbeat, lastLogonOrHeartbeat := false, Undefined, 0, 0;
      testDisconnectTime, testLogonTime, outputs := 0, 0, [];
    }

    /** `failed` says that an assertion failed; `live` is what the connection manager's refresh returned. */
    method OnTimer(now: int, live: bool, ghost events: seq<Event>) returns (failed: bool)
      requires HasRun(events)
      modifies this
      ensures failed <==> !RunFrom(config, INITIAL, events + [Timer(now, live)]).alive
      ensures !failed ==> HasRun(events + [Timer(now, live)])
    {
      RunOneMore(config, INITIAL, events, Timer(now, live));
      assert outputs + [] == outputs;
      if !live {
        return false;
      }
      if lastLogonOrHeartbeat != 0 && config.requestTimeout != 0 && now - lastLogonOrHeartbeat > config.requestTimeout {
        outputs := outputs + [Close];
      } else {
        if ready {
          if testDisconnectTime != 0 && testDisconnectTime < now {
            if config.testOrderDisconnect != 0 {
              outputs := outputs + [Close];
            }
          } else {
            if nextHeartbeat <= now {
              if config.pingFreq <= 0 {
                return true;
              }
              nextHeartbeat := now + config.pingFreq;
              outputs := outputs + [TestRequest(now)];
            }
          }
        } else {
          if testLogonTime != 0 && testLogonTime < now {
            testLogonTime := 0;
            outputs := outputs + [Logon];
            connectionStatus := LoginSent;
          }
        }
      }
      failed := false;
    }

    method OnConnected(createTime: int, ghost events: seq<Event>) returns (failed: bool)
      requires HasRun(events)
      modifies this
      ensures failed <==> !RunFrom(config, INITIAL, events + [Connected(createTime)]).alive
      ensures !failed ==> HasRun(events + [Connected(createTime)])
    {
      RunOneMore(config, INITIAL, events, Connected(createTime));
      assert outputs + [] == outputs;
      if testLogonTime != 0 {
        return true;
      }
      testLogonTime := createTime + config.testOrderLogon;
      if config.testOrderDisconnect != 0 {
        testDisconnectTime := createTime + config.testOrderDisconnect;
      }
      failed := false;
    }

    method OnDisconnected(ghost events: seq<Event>)
      requires HasRun(events)
      modifies this
      ensures HasRun(events + [Lost])
    {
      RunOneMore(config, INITIAL, events, Lost);
      assert outputs + [] == outputs;
      ready := false;
      nextHeartbeat := 0;
      connectionStatus := Disconnected;
      lastLogonOrHeartbeat := 0;
      testLogonTime := 0;
      testDisconnectTime := 0;
    }

    method OnDownload(state: DownloadState, ghost events: seq<Event>) returns (failed: bool)
      requires HasRun(events)
      modifies this
      ensures failed <==> !RunFrom(config, INITIAL, events + [Download(state)]).alive
      ensures !failed ==> HasRun(events + [Download(state)])
    {
      RunOneMore(config, INITIAL, events, Download(state));
      assert outputs + [] == outputs;
      match state
      case UndefinedState => failed := true;
      case Positions => failed := false;
      case Orders => failed := false;
      case Done =>
        connectionStatus := Ready;
        failed := ready;
        ready := true;
    }

    /** Create, modify, cancel and cancel-all share this gate: after any run, an action is refused unless a download
        has reached DONE and the connection has not been lost since. */
    method OrderAction(ghost events: seq<Event>) returns (outcome: ActionOutcome)
      requires HasRun(events)
      ensures outcome == NotReady <==> !DoneSinceLost(events)
    {
      ReadinessFlagsAgree(config, events);
      if connectionStatus != Ready {
        return NotReady;
      }
      return FatalNotImplemented;
    }
  }
}
