/** What every entry point of Q921Endpoint does to the retransmission queue, and which frames
    it may write, provided the peer's N(R) is honest. */
module Q921Ops {
  import opened Q921Endpoint
  import opened Q921Ack

  ghost predicate SameContent(a: Queued, b: Queued) {
    a.ns == b.ns && a.data == b.data
  }

  /** Every frame written carries the current V(R); an I-frame is one of the queue. */
  ghost predicate Emits(e: Endpoint, sent: seq<Frame>) {
    forall f :: f in sent ==>
      && f.nr == e.vr
      && (f.IFrame? ==> exists i :: 0 <= i < |e.queue| && e.queue[i].ns == f.ns && e.queue[i].data == f.data)
  }

  ghost predicate WellNumbered(e: Endpoint) {
    ConsecutiveRun(e) && VaNearHead(e)
  }

  /** The call released the first `n` queued frames, kept the others in order, appended `msgs`. */
  ghost predicate QueueStep(e: Endpoint, e': Endpoint, n: nat, msgs: seq<Payload>) {
    && n <= |e.queue|
    && |e'.queue| == |e.queue| - n + |msgs|
    && (forall i :: 0 <= i < |e.queue| - n ==> SameContent(e'.queue[i], e.queue[n + i]))
    && (forall j :: 0 <= j < |msgs| ==> e'.queue[|e.queue| - n + j].data == msgs[j])
    && (e'.vs - e.vs - |msgs|) % 128 == 0
    && WellNumbered(e')
  }

  ghost predicate OpOk(e: Endpoint, o: Out, n: nat, msgs: seq<Payload>) {
    QueueStep(e, o.e, n, msgs) && Emits(o.e, o.sent) && !o.restarted
  }

  lemma EmitsAppend(e: Endpoint, s: seq<Frame>, t: seq<Frame>)
    requires Emits(e, s) && Emits(e, t)
    ensures Emits(e, s + t)
  {
  }

  lemma StepThenStep(e: Endpoint, e1: Endpoint, e2: Endpoint, n: nat, msgs: seq<Payload>, more: seq<Payload>)
    requires QueueStep(e, e1, n, msgs) && QueueStep(e1, e2, 0, more)
    ensures QueueStep(e, e2, n, msgs + more)
  {
    forall i | 0 <= i < |e.queue| - n ensures SameContent(e2.queue[i], e.queue[n + i]) {
      assert SameContent(e2.queue[i], e1.queue[0 + i]);
    }
    forall j | 0 <= j < |msgs + more| ensures e2.queue[|e.queue| - n + j].data == (msgs + more)[j] {
      if j < |msgs| {
        assert SameContent(e2.queue[|e.queue| - n + j], e1.queue[0 + (|e.queue| - n + j)]);
      } else {
        assert e2.queue[|e1.queue| - 0 + (j - |msgs|)].data == more[j - |msgs|];
      }
    }
  }

  lemma EmitsLater(e: Endpoint, e': Endpoint, sent: seq<Frame>, msgs: seq<Payload>)
    requires Emits(e, sent) && QueueStep(e, e', 0, msgs) && e'.vr == e.vr
    ensures Emits(e', sent)
  {
    forall f | f in sent && f.IFrame?
      ensures exists i :: 0 <= i < |e'.queue| && e'.queue[i].ns == f.ns && e'.queue[i].data == f.data
    {
      var i :| 0 <= i < |e.queue| && e.queue[i].ns == f.ns && e.queue[i].data == f.data;
      assert SameContent(e'.queue[i], e.queue[0 + i]);
    }
  }

  lemma TransmitOk(e: Endpoint, data: Payload)
    requires WellNumbered(e)
    ensures OpOk(e, Transmit(e, data), 0, [data])
    ensures Transmit(e, data).e.vr == e.vr
  {
    var o := Transmit(e, data);
    var last := o.e.queue[|e.queue|];
    assert last.ns == e.vs % 128 && last.data == data;
  }

  lemma {:induction false} TransmitAllOk(e: Endpoint, msgs: seq<Payload>)
    requires WellNumbered(e)
    ensures OpOk(e, TransmitAll(e, msgs), 0, msgs)
    ensures TransmitAll(e, msgs).e.vr == e.vr
    decreases |msgs|
  {
    if msgs != [] {
      var first := Transmit(e, msgs[0]);
      TransmitOk(e, msgs[0]);
      TransmitAllOk(first.e, msgs[1..]);
      var rest := TransmitAll(first.e, msgs[1..]);
      StepThenStep(e, first.e, rest.e, 0, [msgs[0]], msgs[1..]);
      assert [msgs[0]] + msgs[1..] == msgs;
      EmitsLater(first.e, rest.e, first.sent, msgs[1..]);
      EmitsAppend(rest.e, first.sent, rest.sent);
    }
  }

  lemma {:induction false} SendQueuedEmits(e: Endpoint, i: nat)
    requires i <= |e.queue|
    ensures var r := SendQueued(e, i);
            && SameFrames(r.0.queue, e.queue)
            && r.0 == e.(queue := r.0.queue, windowlen := r.0.windowlen)
            && Emits(r.0, r.1)
    decreases |e.queue| - i
  {
    SendQueuedKeeps(e, i);
    if i == |e.queue| || e.windowlen >= e.window {
    } else if e.queue[i].transmitted {
      SendQueuedEmits(e, i + 1);
    } else {
      var f := e.queue[i];
      var e' := e.(queue := e.queue[i := f.(transmitted := true)], windowlen := e.windowlen + 1);
      SendQueuedEmits(e', i + 1);
      var r := SendQueued(e', i + 1);
      assert r.0.queue[i].ns == f.ns && r.0.queue[i].data == f.data;
      EmitsAppend(r.0, [IFrame(f.ns, e.vr, false, f.data)], r.1);
    }
  }

  lemma {:induction false} ResendEmits(e: Endpoint, i: nat)
    requires i <= |e.queue|
    ensures var r := ResendFrom(e, i);
            r.0 == e.(windowlen := r.0.windowlen) && Emits(r.0, r.1)
    decreases |e.queue| - i
  {
    if i < |e.queue| {
      var f := e.queue[i];
      if f.transmitted || e.windowlen < e.window {
        var e' := if f.transmitted then e else e.(windowlen := e.windowlen + 1);
        ResendEmits(e', i + 1);
        var r := ResendFrom(e', i + 1);
        assert r.0.queue[i].ns == f.ns && r.0.queue[i].data == f.data;
        EmitsAppend(r.0, [IFrame(f.ns, e.vr, false, f.data)], r.1);
      } else {
        ResendEmits(e, i + 1);
      }
    }
  }

  lemma StayOk(e: Endpoint, e': Endpoint)
    requires WellNumbered(e)
    requires SameFrames(e'.queue, e.queue) && e'.vs == e.vs && e'.va == e.va
    ensures QueueStep(e, e', 0, [])
  {
    SameFramesKeepRun(e', e);
    forall i | 0 <= i < |e.queue| ensures SameContent(e'.queue[i], e.queue[0 + i]) {}
  }

  lemma T200Ok(e: Endpoint)
    requires WellNumbered(e) && !T200Expire(e).restarted
    ensures OpOk(e, T200Expire(e), 0, [])
    ensures T200Expire(e).e.vr == e.vr
  {
    StayOk(e, T200Expire(e).e);
  }

  lemma T203Ok(e: Endpoint)
    requires WellNumbered(e)
    ensures OpOk(e, T203Expire(e), 0, [])
    ensures T203Expire(e).e.vr == e.vr
  {
    StayOk(e, T203Expire(e).e);
  }

  lemma ChannelUpOk(e: Endpoint)
    requires WellNumbered(e)
    ensures OpOk(e, ChannelUp(e), 0, [])
    ensures ChannelUp(e).e.vr == e.vr
  {
    SendQueuedEmits(e.(sentrej := false, state := Established), 0);
    StayOk(e, ChannelUp(e).e);
  }

  /** `f` acknowledges the first `n` queued frames and no more. */
  ghost predicate Honest(e: Endpoint, f: Frame, n: nat) {
    && n <= |e.queue|
    && f.nr == (e.vs - |e.queue| + n) % 128
  }

  lemma AckRxOk(e: Endpoint, nr: int, n: nat, sendUntransmitted: bool)
    requires WellNumbered(e) && |e.queue| <= 127
    requires n <= |e.queue| && nr == (e.vs - |e.queue| + n) % 128
    ensures IsSeqNo(e.va)
    ensures var o := AckRx(e, nr, sendUntransmitted);
            OpOk(e, o, TakenOff(e, n), []) && o.e.vr == e.vr && o.e.vs == e.vs
  {
    AckRxIs(e, n, sendUntransmitted);
    var m := TakenOff(e, n);
    DropKeepsRun(e, m);
    var e1 := DropBelow(e, m);
    DropStep(e, m);
    var o := AfterAck(e1, sendUntransmitted);
    if e1.queue != [] && !e1.busy && sendUntransmitted {
      SendQueuedEmits(e1.(retrans := 0), 0);
      StayOk(e1, o.e);
      StepThenStep(e, e1, o.e, m, [], []);
      var none: seq<Payload> := [];
      assert none + none == none;
    }
  }

  lemma DropStep(e: Endpoint, n: nat)
    requires WellNumbered(e) && n <= |e.queue|
    ensures QueueStep(e, DropBelow(e, n), n, [])
  {
    DropKeepsRun(e, n);
    forall i | 0 <= i < |e.queue| - n ensures SameContent(DropBelow(e, n).queue[i], e.queue[n + i]) {
      assert e.queue[n..][i] == e.queue[n + i];
    }
  }

  /** Two endpoints that differ only in fields the queue does not depend on. */
  ghost predicate SameQueue(e: Endpoint, e': Endpoint) {
    e'.queue == e.queue && e'.vs == e.vs && e'.va == e.va
  }

  lemma OpOkFrame(e: Endpoint, e0: Endpoint, o: Out, o': Out, n: nat, msgs: seq<Payload>)
    requires SameQueue(e, e0) && OpOk(e0, o, n, msgs)
    requires SameQueue(o.e, o'.e) && o'.e.vr == o.e.vr && !o'.restarted && Emits(o'.e, o'.sent)
    ensures OpOk(e, o', n, msgs)
  {
    forall i | 0 <= i < |e.queue| - n ensures SameContent(o'.e.queue[i], e.queue[n + i]) {
      assert SameContent(o.e.queue[i], e0.queue[n + i]);
    }
  }

  lemma HandleRrOk(e: Endpoint, f: Frame, n: nat)
    requires f.SFrame? && WellNumbered(e) && |e.queue| <= 127 && Honest(e, f, n)
    ensures IsSeqNo(e.va)
    ensures OpOk(e, HandleRr(e, f), TakenOff(e, n), []) && HandleRr(e, f).e.vr == e.vr && HandleRr(e, f).delivered == []
  {
    var e0 := e.(busy := false);
    AckRxOk(e0, f.nr, n, true);
    var a := AckRx(e0, f.nr, true);
    var o := HandleRr(e, f);
    EmitsLaterSame(a.e, o.e, a.sent);
    OpOkFrame(e, e0, a, o, TakenOff(e, n), []);
  }

  lemma EmitsLaterSame(e: Endpoint, e': Endpoint, sent: seq<Frame>)
    requires Emits(e, sent) && e'.queue == e.queue && e'.vr == e.vr
    ensures Emits(e', sent)
  {
  }

  lemma HandleRnrOk(e: Endpoint, f: Frame, n: nat)
    requires f.SFrame? && WellNumbered(e) && |e.queue| <= 127 && Honest(e, f, n)
    ensures IsSeqNo(e.va)
    ensures OpOk(e, HandleRnr(e, f), TakenOff(e, n), [])
    ensures HandleRnr(e, f).e.vr == e.vr && HandleRnr(e, f).delivered == []
  {
    var e0 := e.(busy := true);
    AckRxOk(e0, f.nr, n, false);
    var a := AckRx(e0, f.nr, false);
    var o := HandleRnr(e, f);
    EmitsLaterSame(a.e, o.e, a.sent);
    OpOkFrame(e, e0, a, o, TakenOff(e, n), []);
  }

  lemma ChainOps(e: Endpoint, e0: Endpoint, a: Out, o: Out, n: nat, msgs: seq<Payload>)
    requires SameQueue(e, e0) && OpOk(e0, a, n, []) && OpOk(a.e, o, 0, msgs)
    ensures OpOk(e, o, n, msgs)
  {
    StepThenStep(e0, a.e, o.e, n, [], msgs);
    assert [] + msgs == msgs;
    OpOkFrame(e, e0, o, o, n, msgs);
  }

  lemma RejectRecoveryOk(e: Endpoint, f: Frame)
    requires f.SFrame? && WellNumbered(e)
    requires e.queue == [] ==> f.nr == e.vs % 128
    ensures var o := RejectRecovery(e, f);
            OpOk(e, o, 0, []) && o.e.vr == e.vr && o.delivered == []
  {
    var o := RejectRecovery(e, f);
    var e1 := e.(solicitfbit := false, retrans := 0);
    var start := FindNs(e1.queue, f.nr);
    if start < |e1.queue| {
      ResendEmits(e1, start);
    }
    if e.queue != [] {
      assert SameFrames(o.e.queue, e.queue);
      StayOk(e, o.e);
    }
  }

  /** REJ. In the "nothing to send" branch V(A) and V(S) are set to N(R), which is where they
      already were modulo 128. */
  lemma HandleRejOk(e: Endpoint, f: Frame, n: nat)
    requires f.SFrame? && WellNumbered(e) && |e.queue| <= 127 && Honest(e, f, n)
    ensures IsSeqNo(e.va)
    ensures OpOk(e, HandleRej(e, f), TakenOff(e, n), [])
    ensures HandleRej(e, f).e.vr == e.vr && HandleRej(e, f).delivered == []
  {
    var e1 := RejectSeen(e, f).e;
    var s1 := RejectSeen(e, f).sent;
    AckRxOk(e1, f.nr, n, false);
    var a := AckRx(e1, f.nr, false);
    assert a.e.queue == [] ==> f.nr == a.e.vs % 128;
    RejectRecoveryOk(a.e, f);
    var r := RejectRecovery(a.e, f);
    assert Emits(r.e, s1);
    EmitsAppend(r.e, s1, r.sent);
    ChainOps(e, e1, a, Out(r.e, s1 + r.sent, [], false), TakenOff(e, n), []);
  }

  lemma DeliverOk(e: Endpoint, f: Frame, replies: seq<Payload>)
    requires f.IFrame? && WellNumbered(e)
    ensures var o := Deliver(e, f, replies);
            OpOk(e, o, 0, replies) && o.delivered == [f.data] && o.e.vr == e.vr
  {
    var ack := f.poll || e.busy || e.retrans != 0;
    var e1 := if ack then NoteAcked(e) else e;
    var s1 := if ack then [Rr(e, f.poll, false)] else [];
    var t := TransmitAll(e1, replies);
    TransmitAllOk(e1, replies);
    EmitsAppend(t.e, s1, t.sent);
    EmitsAppend(t.e, s1 + t.sent, [Rr(t.e, false, false)]);
    var o := Deliver(e, f, replies);
    EmitsLaterSame(t.e, o.e, o.sent);
    OpOkFrame(e, e1, t, o, 0, replies);
  }

  /** An in-sequence I-frame releases `n` frames, is delivered, and may be answered. */
  lemma InSequenceOk(e: Endpoint, f: Frame, replies: seq<Payload>, n: nat)
    requires f.IFrame? && WellNumbered(e) && |e.queue| <= 127 && Honest(e, f, n)
    requires f.ns == e.vr
    ensures IsSeqNo(e.va)
    ensures var o := HandleIFrame(e, f, replies);
            OpOk(e, o, TakenOff(e, n), replies) && o.delivered == [f.data] && o.e.vr == Inc(e.vr)
  {
    var e0 := e.(solicitfbit := false).(vr := Inc(e.vr), sentrej := false);
    AckRxOk(e0, f.nr, n, false);
    var a := AckRx(e0, f.nr, false);
    DeliverOk(a.e, f, replies);
    ChainOps(e, e0, a, Deliver(a.e, f, replies), TakenOff(e, n), replies);
  }

  /** Any other I-frame is dropped whole, its N(R) included; at most a REJ or an RR goes out. */
  lemma OutOfSequenceOk(e: Endpoint, f: Frame, replies: seq<Payload>)
    requires f.IFrame? && WellNumbered(e) && IsSeqNo(f.nr) && IsSeqNo(e.va)
    requires f.ns != e.vr
    ensures var o := HandleIFrame(e, f, replies);
            OpOk(e, o, 0, []) && o.delivered == [] && o.e.vr == e.vr
  {
    StayOk(e, HandleIFrame(e, f, replies).e);
  }
}
