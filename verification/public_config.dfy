/**
 * `PublicConfigService` (root `src/` copy): remembers which applications asked for
 * the public configuration and, on each periodic check, sends the configuration text
 * to those of them that are deployed.
 *
 * The loaded `Properties` are given in their iteration order; the clock, the
 * deployed-applications map and whether the outbound send throws are parameters.
 */
module PublicConfig {
  import opened Wrappers
  import Periodic
  import Client
  import InboundMessaging

  /** `OutboundMessagingService.DataTypeOutbound`, as far as this service uses it. */
  datatype DataTypeOutbound = GlobalCfgResponse

  /** `InternalMessageOutbound(text, type)`. */
  datatype OutboundMsg = OutboundMsg(text: string, kind: DataTypeOutbound)

  /** One `OutboundMessagingService.send(message, destinations)` call; destinations map app name to version. */
  datatype Dispatch = Dispatch(message: OutboundMsg, destinations: map<string, string>)

  /** The outbound send threw; `doCheck` passes the exception on. */
  datatype SendError = SendFailed

  datatype Service = Service(props: seq<(string, string)>, requests: set<string>, interval: int, timeLastRun: int)

  /** The constructor, once the configuration file is loaded: nobody has asked yet. */
  function NewService(props: seq<(string, string)>, interval: int): (r: Service)
    ensures r.requests == {} && r.props == props && r.interval == interval && r.timeLastRun == 0
  {
    Service(props, {}, interval, 0)
  }

  /** The applications that sent the messages. */
  function Senders(msgs: seq<InboundMessaging.InboundMsg>): set<string> {
    set i | 0 <= i < |msgs| :: msgs[i].from
  }

  /**
   * `onConfigRequestMessageReceived`: each message's sender joins the requester set,
   * in turn; a sender already there, or named twice, is recorded once.
   */
  function OnConfigRequest(s: Service, msgs: seq<InboundMessaging.InboundMsg>): (r: Service)
    ensures r.requests == s.requests + Senders(msgs)
    ensures r.props == s.props && r.interval == s.interval && r.timeLastRun == s.timeLastRun
    decreases |msgs|
  {
    if msgs == [] then s
    else
      var r := OnConfigRequest(s.(requests := s.requests + {msgs[0].from}), msgs[1..]);
      assert Senders(msgs) == {msgs[0].from} + Senders(msgs[1..]) by {
        forall a | a in Senders(msgs) ensures a in {msgs[0].from} + Senders(msgs[1..]) {
          var i :| 0 <= i < |msgs| && msgs[i].from == a;
          if i > 0 {
            assert msgs[1..][i - 1].from == a;
          }
        }
        forall a | a in Senders(msgs[1..]) ensures a in Senders(msgs) {
          var i :| 0 <= i < |msgs[1..]| && msgs[1..][i].from == a;
          assert msgs[i + 1].from == a;
        }
      }
      r
  }

  /** The destinations: the deployed applications whose names asked, each with its deployed version. */
  function Destinations(deployed: map<string, string>, requests: set<string>): map<string, string> {
    map k | k in deployed && k in requests :: deployed[k]
  }

  /**
   * `doCheck`: when an interval has passed, and somebody has asked, the configuration
   * text goes out once, as a `GLOBAL_CFG_RESPONSE`, to the deployed requesters. The
   * requester set is never emptied, and the time of the run is recorded even when the
   * send throws.
   */
  function DoCheck(s: Service, now: int, finishedAt: int, deployed: map<string, string>, sendOk: bool)
    : (r: (Service, Option<Dispatch>, Outcome<SendError>))
    ensures r.0.props == s.props && r.0.requests == s.requests && r.0.interval == s.interval
    ensures r.0.timeLastRun == (if Periodic.ShouldRun(now, s.timeLastRun, s.interval) then finishedAt else s.timeLastRun)
    ensures r.1.Some? <==> Periodic.ShouldRun(now, s.timeLastRun, s.interval) && s.requests != {}
    ensures r.1.Some? ==> r.1.value.message == OutboundMsg(Client.Render(s.props), GlobalCfgResponse)
    ensures r.1.Some? ==> forall k :: k in r.1.value.destinations <==> k in deployed && k in s.requests
    ensures r.1.Some? ==> forall k | k in r.1.value.destinations :: r.1.value.destinations[k] == deployed[k]
    ensures r.2.Fail? <==> r.1.Some? && !sendOk
  {
    if !Periodic.ShouldRun(now, s.timeLastRun, s.interval) then (s, None, Pass)
    else
      var s' := s.(timeLastRun := finishedAt);
      if s.requests == {} then (s', None, Pass)
      else
        var d := Dispatch(OutboundMsg(Client.Render(s.props), GlobalCfgResponse), Destinations(deployed, s.requests));
        (s', Some(d), if sendOk then Pass else Fail(SendFailed))
  }

  /**
   * Requests are never consumed: once an application has asked, every later run that
   * is due sends the configuration again to the same deployed requesters, and a check
   * before a whole interval has passed sends nothing.
   */
  lemma RequestersServedEveryRun(s: Service, now1: int, finishedAt: int, now2: int,
                                 deployed: map<string, string>, ok1: bool, ok2: bool)
    requires Periodic.ShouldRun(now1, s.timeLastRun, s.interval) && s.requests != {}
    ensures var s1 := DoCheck(s, now1, finishedAt, deployed, ok1).0;
      var second := DoCheck(s1, now2, finishedAt, deployed, ok2).1;
      && (finishedAt + s.interval <= now2 ==> second == DoCheck(s, now1, finishedAt, deployed, ok1).1)
      && (now2 < finishedAt + s.interval ==> second.None?)
  {
    var first := DoCheck(s, now1, finishedAt, deployed, ok1);
    var second := DoCheck(first.0, now2, finishedAt, deployed, ok2);
    if finishedAt + s.interval <= now2 {
      assert second.1.value.destinations == first.1.value.destinations;
    }
  }

  /**
   * The text sent is one the client's corrected parse reads back as the configured
   * map, whatever the values hold.
   */
  lemma ResponseReadsBack(s: Service, now: int, finishedAt: int, deployed: map<string, string>, ok: bool)
    requires Client.Renderable(s.props)
    requires DoCheck(s, now, finishedAt, deployed, ok).1.Some?
    ensures Client.ParseConfig(DoCheck(s, now, finishedAt, deployed, ok).1.value.message.text)
      == Success(Client.ToMap(s.props, map[]))
  {
    Client.ParseRoundTrip(s.props);
  }

  /**
   * The service's own tests, for any two deployed applications and configuration:
   * when both ask, both get the configuration with their versions; when one asks, only
   * it does; when nobody asks, nothing is sent.
   */
  lemma RequestScenarios(props: seq<(string, string)>, app1: string, v1: string, app2: string, v2: string,
                         m1: InboundMessaging.InboundMsg, m2: InboundMessaging.InboundMsg, now: int, finishedAt: int)
    requires app1 != app2 && m1.from == app1 && m2.from == app2 && -1 <= now
    ensures var deployed := map[app1 := v1, app2 := v2];
      var initial := NewService(props, -1);
      && DoCheck(OnConfigRequest(initial, [m1, m2]), now, finishedAt, deployed, true).1
           == Some(Dispatch(OutboundMsg(Client.Render(props), GlobalCfgResponse), deployed))
      && DoCheck(OnConfigRequest(initial, [m1]), now, finishedAt, deployed, true).1
           == Some(Dispatch(OutboundMsg(Client.Render(props), GlobalCfgResponse), map[app1 := v1]))
      && DoCheck(initial, now, finishedAt, deployed, true).1 == None
  {
    var deployed := map[app1 := v1, app2 := v2];
    var initial := NewService(props, -1);
    assert Senders([m1, m2]) == {app1, app2} by {
      assert [m1, m2][0].from == app1 && [m1, m2][1].from == app2;
    }
    assert Senders([m1]) == {app1} by {
      assert [m1][0].from == app1;
    }
    var both := DoCheck(OnConfigRequest(initial, [m1, m2]), now, finishedAt, deployed, true).1;
    assert both.value.destinations == deployed;
    var one := DoCheck(OnConfigRequest(initial, [m1]), now, finishedAt, deployed, true).1;
    assert one.value.destinations == map[app1 := v1];
  }
}
