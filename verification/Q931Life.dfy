/** The life of an incoming Q.931 call, from the SETUP on: what it can come to over any history of
    answers, hangups, expiries and peer messages, and when a hangup still ends it. */
module Q931Life {
  import opened Q931Clearing

  datatype Happening =
    | AppAnswers(a: Answer)
    | AppHangs(cause: int)
    | Expires
    | GetsSetup(missing: bool, circuit: bool)
    | GetsConnectAck(network: bool)
    | GetsDisconnect(cause: int, missing: bool)
    | GetsRelease(cause: int, missing: bool)
    | GetsReleaseComplete(cause: int)

  /** An application answers only a call that is still to be answered. */
  predicate Possible(c: Call, h: Happening) {
    && c.pooled
    && (h.Expires? ==> c.timer != NoTimer)
    && (h.AppAnswers? ==> BeforeAnswer(c.our))
  }

  function After(c: Call, h: Happening): Out
    requires Possible(c, h)
  {
    match h
    case AppAnswers(a) => Respond(c, a)
    case AppHangs(cause) => AppHangup(c, cause)
    case Expires => Expire(c)
    case GetsSetup(missing, circuit) => PeerSetup(c, missing, circuit)
    case GetsConnectAck(network) => PeerConnectAck(c, network)
    case GetsDisconnect(cause, missing) => PeerDisconnect(c, cause, missing)
    case GetsRelease(cause, missing) => PeerRelease(c, cause, missing)
    case GetsReleaseComplete(cause) => PeerReleaseComplete(c, cause)
  }

  predicate CanLive(c: Call, hs: seq<Happening>)
    decreases |hs|
  {
    hs == [] || (Possible(c, hs[0]) && CanLive(After(c, hs[0]).c, hs[1..]))
  }

  function Live(c: Call, hs: seq<Happening>): Out
    requires CanLive(c, hs)
    decreases |hs|
  {
    if hs == [] then Out(c, [])
    else
      var o := After(c, hs[0]);
      var rest := Live(o.c, hs[1..]);
      Out(rest.c, o.sent + rest.sent)
  }

  lemma LiveStep(c: Call, hs: seq<Happening>, i: nat, w: seq<Message>)
    requires i < |hs| && CanLive(c, hs[i..])
    ensures Possible(c, hs[i])
    ensures var o := After(c, hs[i]);
            && CanLive(o.c, hs[i + 1..])
            && Live(c, hs[i..]).c == Live(o.c, hs[i + 1..]).c
            && w + Live(c, hs[i..]).sent == w + o.sent + Live(o.c, hs[i + 1..]).sent
  {
    assert hs[i..][0] == hs[i] && hs[i..][1..] == hs[i + 1..];
  }

  lemma LiveEnd(c: Call, hs: seq<Happening>, i: nat)
    requires i == |hs|
    ensures CanLive(c, hs[i..]) && Live(c, hs[i..]) == Out(c, [])
  {
  }

  // ------------------------------------------------------------------ what a call can come to

  /** Made for a new reference; no SETUP has been accepted. */
  predicate IsNew(c: Call) {
    c.newCall && c.our == c.peer == NullState && !c.alive && c.t308 == 0 && c.timer == NoTimer
  }

  /** A SETUP has been accepted, and the application has not answered. */
  predicate Presented(c: Call) {
    && !c.newCall && c.our == CallPresent && c.peer == CallInitiated
    && !c.alive && c.t308 == 0 && c.timer == NoTimer
  }

  /** Answered, up to active. */
  predicate Talking(c: Call) {
    && !c.newCall && c.alive && c.acked && c.t308 == 0 && c.timer in {NoTimer, T313}
    && (c.our == State.Active || (BeforeAnswer(c.our) && !PeerClearing(c.peer)))
  }

  /** The peer has sent DISCONNECT and the application is to hang up. */
  predicate ToldOff(c: Call) {
    && !c.newCall && c.alive && c.acked && c.timer == NoTimer
    && c.our == DisconnectIndication && c.peer == DisconnectRequest
  }

  /** The peer has let go, and one hangup frees the call. */
  predicate Waiting(c: Call) {
    && !c.newCall && (c.alive ==> c.acked) && c.timer == NoTimer
    && c.our == NullState && (c.peer == NullState || c.peer == ReleaseRequest)
  }

  /** On its way out with no timer left to see to it. */
  predicate Stuck(c: Call) {
    !c.newCall && !c.alive && c.timer == NoTimer && c.our in {DisconnectRequest, ReleaseRequest}
  }

  predicate Healthy(c: Call) {
    Talking(c) || ToldOff(c) || Waiting(c) || Clearing(c)
  }

  predicate Sound(c: Call) {
    c.pooled ==> IsNew(c) || Presented(c) || Healthy(c) || Stuck(c)
  }

  /** The three ways to lose a call: a hangup that writes nothing, a peer DISCONNECT on a call that no
      message has been sent on, and a CONNECT ACKNOWLEDGE that deletes a clearing timer. */
  predicate Loses(c: Call, h: Happening) {
    || (Presented(c) && h.AppHangs? && !SendsReleaseComplete(Cause(c, h.cause)))
    || (!c.newCall && !c.alive && !c.acked && h.GetsDisconnect?)
    || (Clearing(c) && h.GetsConnectAck?)
  }

  /** The cause a hangup goes by. */
  function Cause(c: Call, cause: int): int {
    InsistedCause(c, if cause == -1 then NORMAL_CLEARING else cause)
  }

  lemma HangupSteps(c: Call, h: Happening)
    requires c.pooled && Sound(c) && h.AppHangs?
    ensures Sound(After(c, h).c)
    ensures !Stuck(c) ==> (After(c, h).c.pooled && Stuck(After(c, h).c) <==> Loses(c, h))
  {
  }

  lemma AppSteps(c: Call, h: Happening)
    requires c.pooled && Sound(c) && Possible(c, h) && (h.AppAnswers? || h.Expires?)
    ensures Sound(After(c, h).c)
    ensures !Stuck(c) ==> (After(c, h).c.pooled && Stuck(After(c, h).c) <==> Loses(c, h))
  {
  }

  lemma SetupSteps(c: Call, h: Happening)
    requires c.pooled && Sound(c) && (h.GetsSetup? || h.GetsConnectAck?)
    ensures Sound(After(c, h).c)
    ensures !Stuck(c) ==> (After(c, h).c.pooled && Stuck(After(c, h).c) <==> Loses(c, h))
  {
  }

  lemma DisconnectSteps(c: Call, h: Happening)
    requires c.pooled && Sound(c) && h.GetsDisconnect?
    ensures Sound(After(c, h).c)
    ensures !Stuck(c) ==> (After(c, h).c.pooled && Stuck(After(c, h).c) <==> Loses(c, h))
  {
  }

  lemma ReleaseSteps(c: Call, h: Happening)
    requires c.pooled && Sound(c) && (h.GetsRelease? || h.GetsReleaseComplete?)
    ensures Sound(After(c, h).c)
    ensures !Stuck(c) ==> (After(c, h).c.pooled && Stuck(After(c, h).c) <==> Loses(c, h))
  {
  }

  /** Whatever happens, a call stays in one of these conditions, and it becomes stuck exactly in the
      three ways of `Loses`. */
  lemma BecomesStuckIff(c: Call, h: Happening)
    requires Sound(c) && Possible(c, h)
    ensures Sound(After(c, h).c)
    ensures !Stuck(c) ==> (After(c, h).c.pooled && Stuck(After(c, h).c) <==> Loses(c, h))
  {
    hide Sound, Stuck, Loses, After;
    if h.AppHangs? {
      HangupSteps(c, h);
    } else if h.AppAnswers? || h.Expires? {
      AppSteps(c, h);
    } else if h.GetsSetup? || h.GetsConnectAck? {
      SetupSteps(c, h);
    } else if h.GetsDisconnect? {
      DisconnectSteps(c, h);
    } else {
      ReleaseSteps(c, h);
    }
  }

  lemma {:induction false} LiveIsSound(c: Call, hs: seq<Happening>)
    requires Sound(c) && CanLive(c, hs)
    ensures Sound(Live(c, hs).c)
    decreases |hs|
  {
    hide Sound, After, Possible;
    if hs != [] {
      BecomesStuckIff(c, hs[0]);
      LiveIsSound(After(c, hs[0]).c, hs[1..]);
    }
  }

  // ------------------------------------------------------------------ when a hangup still ends it

  lemma HangupClearsIff(c: Call, cause: int)
    requires Sound(c) && c.pooled
    ensures ClearingOrGone(AppHangup(c, cause).c) <==>
            !Stuck(c) && (Presented(c) ==> SendsReleaseComplete(Cause(c, cause)))
  {
  }

  /** After every history of a call: one hangup frees it or leaves it with a clearing timer running, unless
      it is stuck, or still unanswered and the cause is not one answered by RELEASE COMPLETE. */
  lemma HangupClearsInHistoryIff(hs: seq<Happening>, cause: int)
    requires CanLive(NewCall(), hs) && Live(NewCall(), hs).c.pooled
    ensures var c := Live(NewCall(), hs).c;
            ClearingOrGone(AppHangup(c, cause).c) <==>
            !Stuck(c) && (Presented(c) ==> SendsReleaseComplete(Cause(c, cause)))
  {
    hide Live, CanLive, Stuck, Presented;
    LiveIsSound(NewCall(), hs);
    HangupClearsIff(Live(NewCall(), hs).c, cause);
  }

  // ------------------------------------------------------------------ an answered call is not lost

  predicate GoneOrHealthy(c: Call) {
    c.pooled ==> Healthy(c) && c.acked
  }

  /** Gone or healthy all along. */
  predicate StaysHealthy(c: Call, hs: seq<Happening>)
    requires CanLive(c, hs)
    decreases |hs|
  {
    GoneOrHealthy(c) && (hs == [] || StaysHealthy(After(c, hs[0]).c, hs[1..]))
  }

  /** Does a CONNECT ACKNOWLEDGE arrive while the call is being cleared? */
  predicate Crosses(c: Call, hs: seq<Happening>)
    requires CanLive(c, hs)
    decreases |hs|
  {
    hs != [] && ((Clearing(c) && hs[0].GetsConnectAck?) || Crosses(After(c, hs[0]).c, hs[1..]))
  }

  lemma HealthyStep(c: Call, h: Happening)
    requires GoneOrHealthy(c) && Possible(c, h)
    ensures GoneOrHealthy(After(c, h).c) <==> !(Clearing(c) && h.GetsConnectAck?)
  {
    hide After, Talking, ToldOff, Waiting, Clearing;
    HealthyIsNot(c);
    HealthyIsNot(After(c, h).c);
    BecomesStuckIff(c, h);
    StaysAcked(c, h);
    NotPresentedAgain(c, h);
  }

  lemma HangupStaysAcked(c: Call, cause: int)
    requires c.acked && !c.newCall
    ensures Hangup(c, cause).c.acked && !Hangup(c, cause).c.newCall
  {
    hide BeforeAnswer, PeerClearing, SendsRelease, SendsReleaseComplete;
  }

  lemma StaysAcked(c: Call, h: Happening)
    requires Possible(c, h) && c.acked && !c.newCall
    ensures After(c, h).c.acked && !After(c, h).c.newCall
  {
    hide BeforeAnswer, Hangup;
    forall d: Call, cause: int | d.acked && !d.newCall
      ensures Hangup(d, cause).c.acked && !Hangup(d, cause).c.newCall
    {
      HangupStaysAcked(d, cause);
    }
  }

  lemma NotPresentedAgain(c: Call, h: Happening)
    requires Healthy(c) && Possible(c, h)
    ensures !Presented(After(c, h).c)
  {
    hide SendsRelease, SendsReleaseComplete;
  }

  lemma HealthyIsNot(c: Call)
    ensures Healthy(c) ==> !Stuck(c) && !c.newCall && !Presented(c)
  {
  }

  lemma {:induction false} HealthyUnlessCrossed(c: Call, hs: seq<Happening>)
    requires GoneOrHealthy(c) && CanLive(c, hs)
    ensures StaysHealthy(c, hs) <==> !Crosses(c, hs)
    decreases |hs|
  {
    hide GoneOrHealthy, After, Possible, Clearing;
    if hs != [] {
      HealthyStep(c, hs[0]);
      if GoneOrHealthy(After(c, hs[0]).c) {
        HealthyUnlessCrossed(After(c, hs[0]).c, hs[1..]);
      } else {
        Unhealthy(After(c, hs[0]).c, hs[1..]);
      }
    }
  }

  lemma Unhealthy(c: Call, hs: seq<Happening>)
    requires !GoneOrHealthy(c) && CanLive(c, hs)
    ensures !StaysHealthy(c, hs)
  {
  }

  /** Once the application has answered, the call is gone or healthy at every point of every history if
      and only if no CONNECT ACKNOWLEDGE arrives while it is being cleared. */
  lemma AnsweredCallIsKeptIff(c: Call, a: Answer, hs: seq<Happening>)
    requires c.pooled && (Presented(c) || (Talking(c) && BeforeAnswer(c.our)))
    requires CanLive(Respond(c, a).c, hs)
    ensures StaysHealthy(Respond(c, a).c, hs) <==> !Crosses(Respond(c, a).c, hs)
  {
    hide CanLive, StaysHealthy, Crosses;
    AnswerIsHealthy(c, a);
    HealthyUnlessCrossed(Respond(c, a).c, hs);
  }

  lemma AnswerIsHealthy(c: Call, a: Answer)
    requires Presented(c) || (Talking(c) && BeforeAnswer(c.our))
    ensures Talking(Respond(c, a).c) && Respond(c, a).c.acked
  {
  }

  // ------------------------------------------------------------------ calls that are lost

  lemma LiveOne(c: Call, h: Happening, hs: seq<Happening>)
    requires Possible(c, h)
    ensures CanLive(c, [h] + hs) <==> CanLive(After(c, h).c, hs)
    ensures CanLive(c, [h] + hs) ==>
              Live(c, [h] + hs) == Out(Live(After(c, h).c, hs).c, After(c, h).sent + Live(After(c, h).c, hs).sent)
  {
    assert ([h] + hs)[1..] == hs;
  }

  /** The caller gives up before anything is answered: RELEASE COMPLETE is written, but the call stays,
      stuck, and a new SETUP on its reference is ignored. */
  lemma AbandonedCallIsLost(cause: int)
    ensures var hs := [GetsSetup(false, true)] + ([GetsDisconnect(cause, false)] + ([GetsSetup(false, true)] + []));
            && CanLive(NewCall(), hs)
            && var o := Live(NewCall(), hs);
            o.c.pooled && Stuck(o.c) && o.sent == [RELEASE_COMPLETE]
  {
    var c1 := PeerSetup(NewCall(), false, true).c;
    var c2 := PeerDisconnect(c1, cause, false).c;
    LiveOne(c2, GetsSetup(false, true), []);
    LiveOne(c1, GetsDisconnect(cause, false), [GetsSetup(false, true)] + []);
    LiveOne(NewCall(), GetsSetup(false, true), [GetsDisconnect(cause, false)] + ([GetsSetup(false, true)] + []));
    assert [RELEASE_COMPLETE] + [] == [RELEASE_COMPLETE];
  }

  /** A call answered with CONNECT and hung up. */
  function HungUp(): Call {
    AppHangup(Respond(PeerSetup(NewCall(), false, true).c, Connects(false)).c, -1).c
  }

  function Crossed(): Call {
    PeerConnectAck(HungUp(), false).c
  }

  function CrossedLife(): seq<Happening> {
    [GetsSetup(false, true)] + ([AppAnswers(Connects(false))] + ([AppHangs(-1)] + ([GetsConnectAck(false)] + [])))
  }

  lemma CrossedIsStuck()
    ensures Clearing(HungUp()) && HungUp().pooled
    ensures Stuck(Crossed()) && Crossed().pooled && PeerConnectAck(HungUp(), false).sent == [STATUS]
  {
  }

  lemma CrossedLives()
    ensures CanLive(NewCall(), CrossedLife())
    ensures Live(NewCall(), CrossedLife()) == Out(Crossed(), [CONNECT, DISCONNECT, STATUS])
  {
    var c1 := PeerSetup(NewCall(), false, true).c;
    var c2 := Respond(c1, Connects(false)).c;
    var c3 := HungUp();
    assert c2.our == ConnectRequest && c2.alive && AppHangup(c2, -1).sent == [DISCONNECT];
    CrossedIsStuck();
    hide AppHangup, PeerConnectAck, Crossed, Clearing, Stuck;
    LiveOne(c3, GetsConnectAck(false), []);
    LiveOne(c2, AppHangs(-1), [GetsConnectAck(false)] + []);
    LiveOne(c1, AppAnswers(Connects(false)), [AppHangs(-1)] + ([GetsConnectAck(false)] + []));
    LiveOne(NewCall(), GetsSetup(false, true),
            [AppAnswers(Connects(false))] + ([AppHangs(-1)] + ([GetsConnectAck(false)] + [])));
  }

  /** A CONNECT ACKNOWLEDGE that crosses our DISCONNECT deletes T305: with a peer that is silent from then
      on nothing frees the call. */
  lemma CrossedCallIsLost(hangups: seq<Event>)
    requires CanRun(Crossed(), hangups) && Silent(hangups)
    ensures CanLive(NewCall(), CrossedLife())
    ensures Live(NewCall(), CrossedLife()) == Out(Crossed(), [CONNECT, DISCONNECT, STATUS])
    ensures Run(Crossed(), hangups).c.pooled && Run(Crossed(), hangups).sent == []
  {
    hide Crossed, CrossedLife, Live, CanLive, HungUp;
    CrossedLives();
    CrossedIsStuck();
    HangupsChangeNothing(Crossed(), hangups);
  }

  // ------------------------------------------------------------------ one DISCONNECT in a life

  function Count(s: seq<Message>, m: Message): nat {
    if s == [] then 0 else (if s[0] == m then 1 else 0) + Count(s[1..], m)
  }

  lemma {:induction false} CountSum(s: seq<Message>, t: seq<Message>, m: Message)
    ensures Count(s + t, m) == Count(s, m) + Count(t, m)
    decreases |s|
  {
    if s == [] {
      assert s + t == t;
    } else {
      CountSum(s[1..], t, m);
      assert (s + t)[1..] == s[1..] + t;
    }
  }

  /** Whether a DISCONNECT can still be written. */
  function Budget(c: Call): nat {
    if c.pooled && (IsNew(c) || Presented(c) || Talking(c)) then 1 else 0
  }

  lemma HangupBudget(c: Call, cause: int)
    requires Sound(c) && c.pooled
    ensures Count(AppHangup(c, cause).sent, DISCONNECT) + Budget(AppHangup(c, cause).c) <= Budget(c)
  {
  }

  lemma CountFew(a: Message, b: Message, m: Message)
    ensures Count([a], m) == if a == m then 1 else 0
    ensures Count([a, b], m) == (if a == m then 1 else 0) + if b == m then 1 else 0
  {
    assert [a][1..] == [] && [b][1..] == [] && [a, b][1..] == [b];
    assert Count([], m) == 0 && Count([b], m) == if b == m then 1 else 0;
  }

  lemma AnswerBudget(c: Call, a: Answer)
    requires Sound(c) && c.pooled && BeforeAnswer(c.our)
    ensures Count(Respond(c, a).sent, DISCONNECT) == 0 && Budget(Respond(c, a).c) <= Budget(c)
  {
    CountFew(CALL_PROCEEDING, ALERTING, DISCONNECT);
  }

  lemma ExpiryBudget(c: Call)
    requires Sound(c) && c.pooled && c.timer != NoTimer
    ensures Count(Expire(c).sent, DISCONNECT) + Budget(Expire(c).c) <= Budget(c)
  {
  }

  lemma MessageBudget(c: Call, h: Happening)
    requires Sound(c) && c.pooled && (h.GetsSetup? || h.GetsConnectAck?)
    ensures Count(After(c, h).sent, DISCONNECT) + Budget(After(c, h).c) <= Budget(c)
  {
  }

  lemma PeerClearsBudget(c: Call, h: Happening)
    requires Sound(c) && c.pooled && (h.GetsDisconnect? || h.GetsRelease? || h.GetsReleaseComplete?)
    ensures Count(After(c, h).sent, DISCONNECT) + Budget(After(c, h).c) <= Budget(c)
  {
  }

  lemma StepBudget(c: Call, h: Happening)
    requires Sound(c) && Possible(c, h)
    ensures Count(After(c, h).sent, DISCONNECT) + Budget(After(c, h).c) <= Budget(c)
  {
    hide Sound, Budget, Count, Respond, AppHangup, Expire, PeerSetup, PeerConnectAck, PeerDisconnect, PeerRelease,
         PeerReleaseComplete;
    match h
    case AppAnswers(a) => AnswerBudget(c, a);
    case AppHangs(cause) => HangupBudget(c, cause);
    case Expires => ExpiryBudget(c);
    case GetsSetup(_, _) => MessageBudget(c, h);
    case GetsConnectAck(_) => MessageBudget(c, h);
    case _ => PeerClearsBudget(c, h);
  }

  /** Over its whole life, whatever happens, at most one DISCONNECT is written for a call. */
  lemma {:induction false} AtMostOneDisconnect(c: Call, hs: seq<Happening>)
    requires Sound(c) && CanLive(c, hs)
    ensures Count(Live(c, hs).sent, DISCONNECT) <= Budget(c) <= 1
    decreases |hs|
  {
    hide Sound, After, Possible, Budget;
    if hs != [] {
      var o := After(c, hs[0]);
      BecomesStuckIff(c, hs[0]);
      StepBudget(c, hs[0]);
      AtMostOneDisconnect(o.c, hs[1..]);
      CountSum(o.sent, Live(o.c, hs[1..]).sent, DISCONNECT);
    }
    BudgetIsOne(c);
  }

  lemma BudgetIsOne(c: Call)
    ensures Budget(c) <= 1
  {
  }
}
