/** The call structure of libpri/q931.c, updated in place by hangups, timer callbacks and peer
    messages; each method does to it what the functions of Q931Clearing say. */
module Q931CallObject {
  import opened Q931Clearing
  import opened Q931Life

  class CallObject {
    var our: State
    var peer: State
    var alive: bool
    var acked: bool
    var t308: nat
    var timer: Timer
    var cause: int
    var hangupAck: bool
    var newCall: bool
    var pooled: bool
    /** Messages written to Layer 2 so far. */
    var wire: seq<Message>

    ghost function View(): Call
      reads this
    {
      Call(our, peer, alive, acked, t308, timer, cause, hangupAck, newCall, pooled)
    }

    ghost predicate Became(o: Out, w: seq<Message>)
      reads this
    {
      View() == o.c && wire == w + o.sent
    }

    /** `q931_getcall` on a new reference. */
    constructor ()
      ensures View() == NewCall() && wire == []
    {
      our, peer := NullState, NullState;
      alive, acked, hangupAck, newCall, pooled := false, false, false, true, true;
      t308, cause := 0, 0;
      timer := NoTimer;
      wire := [];
    }

    /** `send_message`: the call counts as acknowledged from now on. */
    method Send(m: Message)
      modifies this`wire, this`acked
      ensures wire == old(wire) + [m] && acked
    {
      wire := wire + [m];
      acked := true;
    }

    /** `q931_disconnect`. */
    method SendDisconnect(why: int)
      modifies this
      ensures Became(Disconnect(old(View()), why), old(wire))
    {
      our := DisconnectRequest;
      peer := DisconnectIndication;
      if alive {
        alive := false;
        cause := why;
        hangupAck := true;
        timer := T305;
        Send(DISCONNECT);
      }
    }

    /** `q931_release`. */
    method SendRelease(why: int)
      modifies this
      ensures Became(Release(old(View()), why), old(wire))
    {
      our := ReleaseRequest;
      if alive {
        alive := false;
        cause := why;
        if acked {
          if t308 == 0 { timer := T308; } else { timer := T308Final; }
          Send(RELEASE);
        } else {
          Send(RELEASE_COMPLETE);
        }
      }
    }

    /** `q931_destroy`. */
    method Free()
      modifies this`pooled, this`timer
      ensures View() == Destroy(old(View()))
    {
      timer := NoTimer;
      pooled := false;
    }

    /** `q931_release_complete`: the message, then a hangup in the null state. */
    method SendReleaseComplete(why: int)
      modifies this
      ensures Became(ReleaseComplete(old(View()), why), old(wire))
      decreases 1
    {
      our := NullState;
      peer := NullState;
      if why > -1 { cause := why; }
      Send(RELEASE_COMPLETE);
      alive := false;
      HangUpNull(why);
    }

    /** `q931_hangup` in the null state. */
    method HangUpNull(why: int)
      requires our == NullState && peer == NullState
      modifies this`pooled, this`timer
      ensures View() == Destroy(old(View()))
    {
      Free();
    }

    /** The message `q931_hangup` chooses before the answer. */
    method HangUpEarly(why: int, disconnect: bool, complete: bool)
      modifies this
      ensures Became(if disconnect then Disconnect(old(View()), why)
                     else if complete then ReleaseComplete(old(View()), why)
                     else Release(old(View()), why), old(wire))
    {
      hide Disconnect, Release, ReleaseComplete;
      if disconnect {
        SendDisconnect(why);
      } else if complete {
        SendReleaseComplete(why);
      } else {
        SendRelease(why);
      }
    }

    /** `q931_hangup`. */
    method HangUp(requested: int)
      modifies this
      ensures Became(Hangup(old(View()), requested), old(wire))
    {
      hide Disconnect, Release, ReleaseComplete;
      var why := requested;
      if cause == MANDATORY_IE_MISSING { why := cause; }
      var disconnect, complete := true, false;
      if why == 34 || why == 44 || why == 82 || why == 1 || why == 81 {
        disconnect := false;
        complete := true;
      }
      if why == 6 || why == 7 || why == 26 {
        disconnect := false;
      }
      assert why == InsistedCause(old(View()), requested);
      match our {
        case NullState =>
          if peer == NullState { HangUpNull(why); } else if peer == ReleaseRequest { SendReleaseComplete(why); }
        case Active =>
          SendDisconnect(why);
        case DisconnectRequest =>
          SendRelease(why);
        case DisconnectIndication =>
          if peer == DisconnectRequest {
            alive := true;
            SendRelease(why);
          }
        case ReleaseRequest =>
        case Restart =>
        case RestartRequest =>
        case OtherState =>
        case _ =>
          if !PeerClearing(peer) { HangUpEarly(why, disconnect, complete); }
      }
    }

    /** `pri_disconnect_timeout`, `pri_release_timeout`, `pri_release_finaltimeout`, `pri_connect_timeout`. */
    method OnExpiry()
      requires timer != NoTimer
      modifies this
      ensures Became(Expire(old(View())), old(wire))
    {
      var fired := timer;
      timer := NoTimer;
      match fired {
        case T305 =>
          alive := true;
          SendRelease(NORMAL_CLEARING);
        case T308 =>
          t308 := t308 + 1;
          alive := true;
          SendRelease(cause);
        case T308Final =>
          alive := true;
          t308 := t308 + 1;
          our, peer := NullState, NullState;
          HangUp(cause);
        case T313 =>
          SendDisconnect(NORMAL_CLEARING);
      }
    }

    /** SETUP from the peer. */
    method OnSetup(missing: bool, circuit: bool)
      modifies this
      ensures Became(PeerSetup(old(View()), missing, circuit), old(wire))
    {
      cause := -1;
      if missing {
        SendReleaseComplete(MANDATORY_IE_MISSING);
        return;
      }
      if !newCall { return; }
      newCall := false;
      our := CallPresent;
      peer := CallInitiated;
      alive := false;
      if !circuit { SendReleaseComplete(BEARERCAPABILITY_NOTIMPL); }
    }

    /** The application's answer to a presented call. */
    method OnAnswer(a: Answer)
      modifies this
      ensures Became(Respond(old(View()), a), old(wire))
    {
      alive := true;
      match a {
        case Proceeding =>
          our, peer := IncomingCallProceeding, OutgoingCallProceeding;
          Send(CALL_PROCEEDING);
        case Alerting(proceeded) =>
          if !proceeded {
            our, peer := IncomingCallProceeding, OutgoingCallProceeding;
            Send(CALL_PROCEEDING);
          }
          our, peer := CallReceived, CallDelivered;
          Send(ALERTING);
        case NeedMoreInfo =>
          our, peer := OverlapReceiving, OverlapSending;
          Send(SETUP_ACKNOWLEDGE);
        case Connects(network) =>
          our := if network then State.Active else ConnectRequest;
          peer := State.Active;
          timer := if our == ConnectRequest then T313 else NoTimer;
          Send(CONNECT);
        case Progress =>
          Send(PROGRESS);
      }
    }

    /** CONNECT ACKNOWLEDGE from the peer. */
    method OnConnectAck(network: bool)
      modifies this
      ensures Became(PeerConnectAck(old(View()), network), old(wire))
    {
      timer := NoTimer;
      if newCall {
        SendReleaseComplete(INVALID_CALL_REFERENCE);
      } else if our == ConnectRequest || (our == State.Active && network) {
        our, peer := State.Active, State.Active;
      } else {
        cause := WRONG_MESSAGE;
        Send(STATUS);
      }
    }

    /** DISCONNECT from the peer; `why` is the cause element, -1 if there is none. */
    method OnDisconnect(why: int, missing: bool)
      modifies this
      ensures Became(PeerDisconnect(old(View()), why, missing), old(wire))
    {
      timer := NoTimer;
      cause := why;
      if missing { cause := MANDATORY_IE_MISSING; }
      if newCall {
        SendReleaseComplete(INVALID_CALL_REFERENCE);
        return;
      }
      our := DisconnectIndication;
      peer := DisconnectRequest;
      hangupAck := true;
      if !alive { HangUp(cause); }
    }

    /** RELEASE from the peer. */
    method OnRelease(why: int, missing: bool)
      modifies this
      ensures Became(PeerRelease(old(View()), why, missing), old(wire))
    {
      timer := NoTimer;
      cause := why;
      if missing { cause := MANDATORY_IE_MISSING; }
      peer := if our == ReleaseRequest then NullState else ReleaseRequest;
      our := NullState;
      if newCall { SendReleaseComplete(INVALID_CALL_REFERENCE); }
    }

    /** RELEASE COMPLETE from the peer. */
    method OnReleaseComplete(why: int)
      modifies this
      ensures Became(PeerReleaseComplete(old(View()), why), old(wire))
    {
      timer := NoTimer;
      cause := why;
      our, peer := NullState, NullState;
      if alive {
        alive := false;
      } else if hangupAck {
        HangUp(if cause == -1 then NORMAL_CLEARING else cause);
      } else {
        HangUp(cause);
      }
    }

    /** Anything that can happen to the call. */
    method Handle(h: Happening)
      requires Possible(View(), h)
      modifies this
      ensures Became(After(old(View()), h), old(wire))
    {
      hide PeerSetup, PeerConnectAck, PeerDisconnect, PeerRelease, PeerReleaseComplete, Respond, Hangup, Expire;
      match h {
        case AppAnswers(a) => OnAnswer(a);
        case AppHangs(why) => HangUp(if why == -1 then NORMAL_CLEARING else why);
        case Expires => OnExpiry();
        case GetsSetup(missing, circuit) => OnSetup(missing, circuit);
        case GetsConnectAck(network) => OnConnectAck(network);
        case GetsDisconnect(why, missing) => OnDisconnect(why, missing);
        case GetsRelease(why, missing) => OnRelease(why, missing);
        case GetsReleaseComplete(why) => OnReleaseComplete(why);
      }
    }

    /** A whole history of the call. */
    method HandleAll(hs: seq<Happening>)
      requires CanLive(View(), hs)
      modifies this
      ensures Became(Live(old(View()), hs), old(wire))
    {
      hide After, Possible, Live, CanLive;
      ghost var goal := Live(View(), hs);
      ghost var before := wire;
      var i := 0;
      assert hs[0..] == hs;
      while i < |hs|
        invariant 0 <= i <= |hs| && CanLive(View(), hs[i..])
        invariant Live(View(), hs[i..]).c == goal.c && wire + Live(View(), hs[i..]).sent == before + goal.sent
      {
        LiveStep(View(), hs, i, wire);
        Handle(hs[i]);
        i := i + 1;
      }
      LiveEnd(View(), hs, i);
    }
  }
}
