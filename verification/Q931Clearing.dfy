/** Q.931 call clearing (sections 5.3.3 to 5.3.5 of Q.931; libpri/q931.c): hanging up, the peer's
    clearing messages, and the T305/T308 expiries.

    `Call` holds the fields of `struct q931_call` that clearing uses; `pooled` is whether it is still
    in the call pool. The functions give the next call and the messages written. `CallObject` in
    Q931CallObject.dfy is the mutable structure proved against them. */
module Q931Clearing {

  datatype State =
    | NullState | CallInitiated | OverlapSending | OutgoingCallProceeding | CallDelivered | CallPresent
    | CallReceived | ConnectRequest | IncomingCallProceeding | Active | DisconnectRequest
    | DisconnectIndication | ReleaseRequest | OverlapReceiving | Restart | RestartRequest
    | OtherState       // suspend, resume, abort and call-independent states

  /** What the one retransmission timer of a call is running for. */
  datatype Timer = NoTimer | T305 | T308 | T308Final | T313

  datatype Message =
    | DISCONNECT | RELEASE | RELEASE_COMPLETE
    | CALL_PROCEEDING | ALERTING | SETUP_ACKNOWLEDGE | CONNECT | PROGRESS | STATUS

  /** The application's answers to a presented call. */
  datatype Answer =
    | Proceeding
    | Alerting(proceeded: bool)    // whether CALL PROCEEDING has been sent
    | NeedMoreInfo
    | Connects(network: bool)      // a network side, or Q.SIG, is active at once
    | Progress

  datatype Call = Call(
    our: State,
    peer: State,
    alive: bool,
    acked: bool,
    t308: nat,             // t308_timedout
    timer: Timer,
    cause: int,
    hangupAck: bool,       // sendhangupack
    newCall: bool,
    pooled: bool)

  datatype Out = Out(c: Call, sent: seq<Message>)

  const MANDATORY_IE_MISSING := 96
  const NORMAL_CLEARING := 16
  const INVALID_CALL_REFERENCE := 81
  const BEARERCAPABILITY_NOTIMPL := 65
  const WRONG_MESSAGE := 98

  // ------------------------------------------------------------------ sending

  /** `q931_disconnect`. */
  function Disconnect(c: Call, cause: int): Out {
    var c1 := c.(our := DisconnectRequest, peer := DisconnectIndication);
    if c.alive then
      Out(c1.(alive := false, cause := cause, hangupAck := true, timer := T305, acked := true), [DISCONNECT])
    else Out(c1, [])
  }

  /** `q931_release`. Only an acknowledged call gets a timer. */
  function Release(c: Call, cause: int): Out {
    var c1 := c.(our := ReleaseRequest);
    if !c.alive then Out(c1, [])
    else
      var c2 := c1.(alive := false, cause := cause, acked := true);
      if c.acked then Out(c2.(timer := if c.t308 == 0 then T308 else T308Final), [RELEASE])
      else Out(c2, [RELEASE_COMPLETE])
  }

  /** `q931_destroy`: out of the pool, its timer deleted. */
  function Destroy(c: Call): Call {
    c.(pooled := false, timer := NoTimer)
  }

  /** `q931_release_complete`: both states are null, so the hangup it ends with frees the call. */
  function ReleaseComplete(c: Call, cause: int): Out {
    var kept := if cause > -1 then cause else c.cause;
    var c1 := c.(our := NullState, peer := NullState, cause := kept, acked := true, alive := false);
    Out(Destroy(c1), [RELEASE_COMPLETE])
  }

  predicate SendsReleaseComplete(cause: int) {
    cause in {34, 44, 82, 1, 81}
  }

  predicate SendsRelease(cause: int) {
    cause in {6, 7, 26}
  }

  /** The states in which a hangup chooses the message by its cause. */
  predicate BeforeAnswer(s: State) {
    s in {CallInitiated, OverlapSending, OutgoingCallProceeding, CallDelivered, CallPresent, CallReceived,
          ConnectRequest, IncomingCallProceeding, OverlapReceiving}
  }

  predicate PeerClearing(s: State) {
    s in {NullState, DisconnectRequest, DisconnectIndication, ReleaseRequest, RestartRequest, Restart}
  }

  function InsistedCause(c: Call, cause: int): int {
    if c.cause == MANDATORY_IE_MISSING then c.cause else cause
  }

  /** `q931_hangup`. */
  function Hangup(c: Call, requested: int): Out {
    var cause := InsistedCause(c, requested);
    if c.our == NullState then
      if c.peer == NullState then Out(Destroy(c), [])
      else if c.peer == ReleaseRequest then ReleaseComplete(c, cause)
      else Out(c, [])
    else if BeforeAnswer(c.our) then
      if PeerClearing(c.peer) then Out(c, [])
      else if SendsReleaseComplete(cause) then ReleaseComplete(c, cause)
      else if SendsRelease(cause) then Release(c, cause)
      else Disconnect(c, cause)
    else
      match c.our
      case Active => Disconnect(c, cause)
      case DisconnectRequest => Release(c, cause)
      case DisconnectIndication => if c.peer == DisconnectRequest then Release(c.(alive := true), cause) else Out(c, [])
      case _ => Out(c, [])
  }

  /** `pri_hangup`. */
  function AppHangup(c: Call, cause: int): Out {
    Hangup(c, if cause == -1 then NORMAL_CLEARING else cause)
  }

  // ------------------------------------------------------------------ expiries

  /** The callback of the running timer. */
  function Expire(c: Call): Out
    requires c.timer != NoTimer
  {
    var c0 := c.(timer := NoTimer);
    match c.timer
    case T305 => Release(c0.(alive := true), NORMAL_CLEARING)
    case T308 => Release(c0.(t308 := c.t308 + 1, alive := true), c.cause)
    case T308Final =>
      Hangup(c0.(alive := true, t308 := c.t308 + 1, our := NullState, peer := NullState), c.cause)
    case T313 => Disconnect(c0, NORMAL_CLEARING)
  }

  // ------------------------------------------------------------------ what the peer sends

  /** The preparation for DISCONNECT, RELEASE and RELEASE COMPLETE: the timer is deleted, the cause is
      the one in the message (-1 if none). */
  function Prepare(c: Call, cause: int): Call {
    c.(timer := NoTimer, cause := cause)
  }

  /** A peer DISCONNECT, in-band disconnect off. `missing`: a mandatory element is missing. */
  function PeerDisconnect(c: Call, cause: int, missing: bool): Out {
    var c1 := Prepare(c, if missing then MANDATORY_IE_MISSING else cause);
    if c.newCall then ReleaseComplete(c1, INVALID_CALL_REFERENCE)
    else
      var c2 := c1.(our := DisconnectIndication, peer := DisconnectRequest, hangupAck := true);
      if c.alive then Out(c2, []) else Hangup(c2, c2.cause)
  }

  /** A peer RELEASE: the application is told, and hangs up. */
  function PeerRelease(c: Call, cause: int, missing: bool): Out {
    var c1 := Prepare(c, if missing then MANDATORY_IE_MISSING else cause);
    var c2 := c1.(peer := if c.our == ReleaseRequest then NullState else ReleaseRequest, our := NullState);
    if c.newCall then ReleaseComplete(c2, INVALID_CALL_REFERENCE) else Out(c2, [])
  }

  /** A peer RELEASE COMPLETE. A call still alive is left for the application to hang up. */
  function PeerReleaseComplete(c: Call, cause: int): Out {
    var c1 := Prepare(c, cause).(our := NullState, peer := NullState);
    if c.alive then Out(c1.(alive := false), [])
    else if c.hangupAck then AppHangup(c1, c1.cause)
    else Hangup(c1, c1.cause)
  }

  // ------------------------------------------------------------------ a call comes in

  /** What `q931_getcall` makes for a new reference. */
  function NewCall(): Call {
    Call(NullState, NullState, false, false, 0, NoTimer, 0, false, true, true)
  }

  /** A peer SETUP; `circuit`: it asks for a 64 kbit/s circuit. An accepted call is not yet alive. */
  function PeerSetup(c: Call, missing: bool, circuit: bool): Out {
    var c0 := c.(cause := -1);
    if missing then ReleaseComplete(c0, MANDATORY_IE_MISSING)
    else if !c.newCall then Out(c0, [])
    else
      var c1 := c0.(newCall := false, our := CallPresent, peer := CallInitiated, alive := false);
      if circuit then Out(c1, []) else ReleaseComplete(c1, BEARERCAPABILITY_NOTIMPL)
  }

  /** `q931_call_proceeding`, `q931_alerting`, `q931_setup_ack`, `q931_connect`, `q931_call_progress`. */
  function Respond(c: Call, a: Answer): Out {
    var c1 := c.(alive := true, acked := true);
    match a
    case Proceeding => Out(c1.(our := IncomingCallProceeding, peer := OutgoingCallProceeding), [CALL_PROCEEDING])
    case Alerting(proceeded) =>
      Out(c1.(our := CallReceived, peer := CallDelivered),
          if proceeded then [ALERTING] else [CALL_PROCEEDING, ALERTING])
    case NeedMoreInfo => Out(c1.(our := OverlapReceiving, peer := OverlapSending), [SETUP_ACKNOWLEDGE])
    case Connects(network) =>
      Out(if network then c1.(our := State.Active, peer := State.Active, timer := NoTimer)
          else c1.(our := ConnectRequest, peer := State.Active, timer := T313), [CONNECT])
    case Progress => Out(c1, [PROGRESS])
  }

  /** A peer CONNECT ACKNOWLEDGE; `network`: a network side, or Q.SIG. Whatever timer was running is
      deleted first, also one of the clearing timers. */
  function PeerConnectAck(c: Call, network: bool): Out {
    var c1 := c.(timer := NoTimer);
    if c.newCall then ReleaseComplete(c1, INVALID_CALL_REFERENCE)
    else if c.our == ConnectRequest || (c.our == State.Active && network) then
      Out(c1.(our := State.Active, peer := State.Active), [])
    else Out(c1.(cause := WRONG_MESSAGE, acked := true), [STATUS])
  }

  // ------------------------------------------------------------------ runs

  datatype Event =
    | AppHangsUp(cause: int)
    | TimerExpires
    | PeerSendsDisconnect(cause: int, missing: bool)

  predicate Enabled(c: Call, ev: Event) {
    c.pooled && (ev.TimerExpires? ==> c.timer != NoTimer)
  }

  function Step(c: Call, ev: Event): Out
    requires Enabled(c, ev)
  {
    match ev
    case AppHangsUp(cause) => AppHangup(c, cause)
    case TimerExpires => Expire(c)
    case PeerSendsDisconnect(cause, missing) => PeerDisconnect(c, cause, missing)
  }

  predicate CanRun(c: Call, events: seq<Event>)
    decreases |events|
  {
    events == [] || (Enabled(c, events[0]) && CanRun(Step(c, events[0]).c, events[1..]))
  }

  /** The events one after the other: the call at the end and everything written on the way. */
  function Run(c: Call, events: seq<Event>): Out
    requires CanRun(c, events)
    decreases |events|
  {
    if events == [] then Out(c, [])
    else
      var o := Step(c, events[0]);
      var rest := Run(o.c, events[1..]);
      Out(rest.c, o.sent + rest.sent)
  }

  function Expiries(events: seq<Event>): nat {
    if events == [] then 0 else (if events[0].TimerExpires? then 1 else 0) + Expiries(events[1..])
  }

  // ------------------------------------------------------------------ clearing completes

  /** Expiries a call can still need. */
  function Remaining(c: Call): nat {
    if !c.pooled then 0
    else match c.timer
      case T305 => 3
      case T308 => 2
      case _ => 1
  }

  /** A call that has sent DISCONNECT or RELEASE: it is not alive, and a clearing timer runs. */
  predicate Clearing(c: Call) {
    && !c.alive && c.acked && !c.newCall
    && match c.timer
       case T305 => c.t308 == 0 && (c.our == DisconnectRequest || c.our == ReleaseRequest)
       case T308 => c.t308 == 0 && c.our == ReleaseRequest
       case T308Final => c.t308 > 0 && c.our == ReleaseRequest
       case _ => false
  }

  predicate ClearingOrGone(c: Call) {
    c.pooled ==> Clearing(c)
  }

  lemma DisconnectStartsClearing(c: Call, cause: int)
    requires c.pooled && c.alive && !c.newCall && c.t308 == 0
    ensures var o := Disconnect(c, cause);
            o.c.pooled && Clearing(o.c) && Remaining(o.c) == 3 && o.sent == [DISCONNECT]
  {
  }

  lemma StepClears(c: Call, ev: Event)
    requires Clearing(c) && Enabled(c, ev)
    ensures var d := Step(c, ev).c;
            ClearingOrGone(d) && Remaining(d) + (if ev.TimerExpires? then 1 else 0) <= Remaining(c)
  {
  }

  /** Over any run: each expiry uses up one of those the call still had, and while the call is pooled
      a clearing timer is running. */
  lemma {:induction false} RunClears(c: Call, events: seq<Event>)
    requires ClearingOrGone(c) && CanRun(c, events)
    ensures var d := Run(c, events).c;
            ClearingOrGone(d) && Remaining(d) + Expiries(events) <= Remaining(c)
    decreases |events|
  {
    if events != [] {
      StepClears(c, events[0]);
      RunClears(Step(c, events[0]).c, events[1..]);
    }
  }

  /** Clearing always completes: once an alive call has sent DISCONNECT, under any interleaving of
      hangups, expiries and peer DISCONNECTs, it is out of the pool after at most three expiries; until
      then a timer is running. */
  lemma ClearingCompletes(c: Call, cause: int, events: seq<Event>)
    requires c.pooled && c.alive && !c.newCall && c.t308 == 0
    requires CanRun(Disconnect(c, cause).c, events)
    ensures var d := Run(Disconnect(c, cause).c, events).c;
            && Expiries(events) <= 3
            && (Expiries(events) == 3 ==> !d.pooled)
            && (d.pooled ==> d.timer in {T305, T308, T308Final})
  {
    DisconnectStartsClearing(c, cause);
    RunClears(Disconnect(c, cause).c, events);
  }

  // ------------------------------------------------------------------ a silent peer

  predicate Silent(events: seq<Event>) {
    forall i :: 0 <= i < |events| ==> !events[i].PeerSendsDisconnect?
  }

  /** How many RELEASEs a silent peer has been sent after that many expiries. */
  function Releases(n: nat): seq<Message> {
    if n == 0 then [] else if n == 1 then [RELEASE] else [RELEASE, RELEASE]
  }

  lemma SilentStep(c: Call, ev: Event)
    requires Clearing(c) && Enabled(c, ev) && !ev.PeerSendsDisconnect?
    ensures var o := Step(c, ev);
            var k := Remaining(c);
            if ev.TimerExpires? then Remaining(o.c) == k - 1 && o.sent == (if k == 1 then [] else [RELEASE])
            else Remaining(o.c) == k && o.sent == []
  {
  }

  lemma {:induction false} SilentRun(c: Call, events: seq<Event>)
    requires ClearingOrGone(c) && CanRun(c, events) && Silent(events)
    ensures var o := Run(c, events);
            && Remaining(o.c) == Remaining(c) - Expiries(events)
            && |o.sent| == (if Remaining(c) == 0 then 0
                            else if Expiries(events) < Remaining(c) then Expiries(events)
                            else Remaining(c) - 1)
            && forall i :: 0 <= i < |o.sent| ==> o.sent[i] == RELEASE
    decreases |events|
  {
    if events != [] {
      StepClears(c, events[0]);
      SilentStep(c, events[0]);
      assert Silent(events[1..]) by {
        forall i | 0 <= i < |events[1..]| ensures !events[1..][i].PeerSendsDisconnect? {
          assert events[1..][i] == events[i + 1];
        }
      }
      SilentRun(Step(c, events[0]).c, events[1..]);
    }
  }

  /** With a silent peer and any hangups, three expiries send exactly one DISCONNECT and two RELEASEs
      and free the call; fewer expiries leave it pooled. */
  lemma SilentPeerSeesOneDisconnectTwoReleases(c: Call, cause: int, events: seq<Event>)
    requires c.pooled && c.alive && !c.newCall && c.t308 == 0
    requires CanRun(Disconnect(c, cause).c, events) && Silent(events)
    ensures var first := Disconnect(c, cause);
            var o := Run(first.c, events);
            && first.sent + o.sent == [DISCONNECT] + Releases(Expiries(events))
            && (o.c.pooled <==> Expiries(events) < 3)
  {
    DisconnectStartsClearing(c, cause);
    SilentRun(Disconnect(c, cause).c, events);
    var o := Run(Disconnect(c, cause).c, events);
    assert o.sent == Releases(Expiries(events));
    RunClears(Disconnect(c, cause).c, events);
  }

  // ------------------------------------------------------------------ the peer's answers

  /** While clearing, a peer RELEASE COMPLETE frees the call at once, and a peer RELEASE followed by one
      hangup frees it. */
  lemma PeerAnswersFree(c: Call, cause: int, missing: bool, hangup: int)
    requires c.pooled && Clearing(c)
    ensures !PeerReleaseComplete(c, cause).c.pooled && PeerReleaseComplete(c, cause).sent == []
    ensures var d := PeerRelease(c, cause, missing);
            d.sent == [] && d.c.pooled && !AppHangup(d.c, hangup).c.pooled
    ensures AppHangup(PeerRelease(c, cause, missing).c, hangup).sent ==
            if c.our == ReleaseRequest then [] else [RELEASE_COMPLETE]
  {
  }

  // ------------------------------------------------------------------ hanging up an early call

  /** Hanging up a call before it is answered puts it on the way out (freed, or a clearing timer
      running) exactly when the cause is one answered by RELEASE COMPLETE, or the call is alive and
      either a message has been sent on it or the cause is not one answered by RELEASE. Otherwise the
      call stays in the pool: with a RELEASE COMPLETE written if it was alive, with nothing if not. */
  lemma EarlyHangupClearsIff(c: Call, cause: int)
    requires c.pooled && !c.newCall && c.t308 == 0 && c.timer in {NoTimer, T313}
    requires BeforeAnswer(c.our) && !PeerClearing(c.peer)
    ensures var k := InsistedCause(c, if cause == -1 then NORMAL_CLEARING else cause);
            var o := AppHangup(c, cause);
            var clears := SendsReleaseComplete(k) || (c.alive && (c.acked || !SendsRelease(k)));
            && (ClearingOrGone(o.c) <==> clears)
            && (!clears ==> o.c.pooled && o.c.timer == c.timer && o.sent == if c.alive then [RELEASE_COMPLETE] else [])
  {
  }

  /** A call that is not alive, on its way out without a timer: no number of hangups frees it, and
      nothing is ever written. */
  lemma {:induction false} HangupsChangeNothing(c: Call, events: seq<Event>)
    requires c.pooled && !c.alive && c.timer == NoTimer && c.our in {DisconnectRequest, ReleaseRequest}
    requires CanRun(c, events) && Silent(events)
    ensures var o := Run(c, events);
            o.sent == [] && o.c == c.(our := o.c.our) && o.c.our in {DisconnectRequest, ReleaseRequest}
    decreases |events|
  {
    if events != [] {
      assert events[0].AppHangsUp?;
      assert Silent(events[1..]) by {
        forall i | 0 <= i < |events[1..]| ensures !events[1..][i].PeerSendsDisconnect? {
          assert events[1..][i] == events[i + 1];
        }
      }
      HangupsChangeNothing(Step(c, events[0]).c, events[1..]);
    }
  }

  /** The failing case at work: the call a SETUP has just presented, hung up unanswered any number of
      times. It is freed if and only if the first hangup has a cause answered by RELEASE COMPLETE; with
      any other nothing is ever written and no timer runs. */
  lemma PresentedCallIsFreedIff(events: seq<Event>)
    requires var c := PeerSetup(NewCall(), false, true).c; CanRun(c, events) && Silent(events) && events != []
    ensures var o := Run(PeerSetup(NewCall(), false, true).c, events);
            var k := if events[0].cause == -1 then NORMAL_CLEARING else events[0].cause;
            && (!o.c.pooled <==> SendsReleaseComplete(k))
            && (o.c.pooled ==> o.sent == [] && o.c.timer == NoTimer)
  {
    var c := PeerSetup(NewCall(), false, true).c;
    assert events[0].AppHangsUp?;
    var o := Step(c, events[0]);
    assert Silent(events[1..]) by {
      forall i | 0 <= i < |events[1..]| ensures !events[1..][i].PeerSendsDisconnect? {
        assert events[1..][i] == events[i + 1];
      }
    }
    if o.c.pooled {
      HangupsChangeNothing(o.c, events[1..]);
    } else {
      RunClears(o.c, events[1..]);
    }
  }

  /** An answer of any kind mends that: the next hangup clears, whatever its cause. */
  lemma AnsweredCallClears(c: Call, a: Answer, cause: int)
    requires c.pooled && !c.newCall && c.t308 == 0
    requires BeforeAnswer(c.our) && !PeerClearing(c.peer)
    ensures var o := AppHangup(Respond(c, a).c, cause);
            ClearingOrGone(o.c) && |o.sent| == 1
  {
  }
}
