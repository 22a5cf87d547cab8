/** The numbering of a Q.921 endpoint over whole histories, and the acknowledgement that is lost when
    127 frames are queued. */
module Q921Reach {
  import opened Q921Endpoint
  import opened Q921Ack
  import opened Q921Ops
  import opened Q921Bounds

  /** A frame that is acted on acknowledges some number of the frames queued. */
  ghost predicate HonestStimulus(e: Endpoint, s: Stimulus) {
    s.Arrives? && e.state == Established ==> exists n: nat :: Honest(e, s.f, n)
  }

  /** A history from a reset on with an honest peer. */
  ghost predicate HonestHistory(start: Endpoint, stimuli: seq<Stimulus>, after: seq<Endpoint>) {
    && IsHistory(Reset(start), stimuli, after)
    && (forall i :: 0 <= i < |stimuli| ==> HonestStimulus(after[i], stimuli[i]))
  }

  /** Up to state `i`, frames arrive only while at most 127 frames are queued. */
  ghost predicate ShortQueues(stimuli: seq<Stimulus>, after: seq<Endpoint>, i: nat)
    requires i <= |stimuli| < |after|
  {
    forall j :: 0 <= j < i && stimuli[j].Arrives? ==> |after[j].queue| <= 127
  }

  lemma RestartIsWellNumbered(e: Endpoint)
    ensures WellNumbered(Restart(e)) && WellNumbered(Reset(e))
  {
  }

  lemma ArrivalKeepsNumbers(e: Endpoint, f: Frame, replies: seq<Payload>)
    requires WellNumbered(e) && |e.queue| <= 127 && IsSeqNo(f.nr) && IsSeqNo(e.va)
    requires HonestStimulus(e, Arrives(f, replies))
    ensures WellNumbered(Receive(e, f, replies).e)
  {
    hide WellNumbered, HandleIFrame, HandleRr, HandleRnr, HandleRej;
    if e.state == Established {
      var n: nat :| Honest(e, f, n);
      if f.IFrame? {
        if f.ns == e.vr { InSequenceOk(e, f, replies, n); } else { OutOfSequenceOk(e, f, replies); }
      } else if f.kind.ReceiverReady? {
        HandleRrOk(e, f, n);
      } else if f.kind.ReceiverNotReady? {
        HandleRnrOk(e, f, n);
      } else {
        HandleRejOk(e, f, n);
      }
    }
  }

  /** In every state of such a history the queue is numbered consecutively up to V(S), and V(A) is its
      head or, once a frame has been released, lags it by one. */
  lemma {:induction false} HistoryIsWellNumbered(start: Endpoint, stimuli: seq<Stimulus>, after: seq<Endpoint>, i: nat)
    requires HonestHistory(start, stimuli, after) && i <= |stimuli| && ShortQueues(stimuli, after, i)
    ensures ConsecutiveRun(after[i]) && VaNearHead(after[i])
  {
    hide ConsecutiveRun, VaNearHead;
    if i == 0 {
      RestartIsWellNumbered(start);
    } else {
      HistoryIsWellNumbered(start, stimuli, after, i - 1);
      var e, s := after[i - 1], stimuli[i - 1];
      assert Possible(e, s) && HonestStimulus(e, s) && after[i] == Apply(e, s).e;
      match s
      case Send(data) => TransmitOk(e, data);
      case T200 => if T200Expire(e).restarted { RestartIsWellNumbered(e); } else { T200Ok(e); }
      case T203 => T203Ok(e);
      case LinkUp => ChannelUpOk(e);
      case Arrives(f, replies) => ArrivalKeepsNumbers(e, f, replies);
    }
  }

  /** In every such state with at most 127 frames queued an honest acknowledgement restarts nothing, and
      releases the frames below N(R) except in one case: 127 frames are queued, V(A) lags, and all of them
      are acknowledged. */
  lemma AckInHistoryTakesEffectIff(start: Endpoint, stimuli: seq<Stimulus>, after: seq<Endpoint>, i: nat,
                                   n: nat, sendUntransmitted: bool)
    requires HonestHistory(start, stimuli, after) && i <= |stimuli| && ShortQueues(stimuli, after, i)
    requires 0 < n <= |after[i].queue| <= 127
    ensures var e := after[i];
            && IsSeqNo(e.va)
            && var o := AckRx(e, (e.vs - |e.queue| + n) % 128, sendUntransmitted);
            && !o.restarted
            && (SameFrames(o.e.queue, e.queue[n..]) <==> (|e.queue| < 127 || e.va != e.vs % 128 || n < 127))
  {
    HistoryIsWellNumbered(start, stimuli, after, i);
    AckTakesEffectIff(after[i], n, sendUntransmitted);
  }

  /** With 128 queued the code falls short: once V(A) lags, every acknowledgement but one that is lost
      takes the last frame off as well. */
  lemma AckInHistoryOf128(start: Endpoint, stimuli: seq<Stimulus>, after: seq<Endpoint>, i: nat, n: nat)
    requires HonestHistory(start, stimuli, after) && i <= |stimuli| && ShortQueues(stimuli, after, i)
    requires 0 < n <= |after[i].queue| == 128
    ensures var e := after[i];
            && IsSeqNo(e.va)
            && var o := AckRx(e, (e.vs - 128 + n) % 128, false);
            && !o.restarted
            && (o.e.queue == e.queue[n..] <==> e.va == e.vs % 128 && n < 128)
            && (e.va != e.vs % 128 && n < 127 ==> o.e.queue == e.queue[n..127])
  {
    HistoryIsWellNumbered(start, stimuli, after, i);
    AckOf128(after[i], n);
    assert |after[i].queue[n..]| == 128 - n;
  }

  // ------------------------------------------------------------------ the lost acknowledgement

  function RrOf(nr: int): Stimulus {
    Arrives(SFrame(ReceiverReady, nr, false, false), [])
  }

  /** After the link came up, `msgs[0]` was sent and acknowledged, and `j` more were queued: as many are
      sent as the window takes. */
  function Loaded(start: Endpoint, msgs: seq<Payload>, j: nat): Endpoint
    requires j < |msgs|
  {
    Reset(start).(state := Established, vs := 1 + j, windowlen := if j < start.k then j else start.k,
                  queue := seq(j, i requires 0 <= i < j => Queued((1 + i) % 128, i < start.k, msgs[1 + i])))
  }

  /** Up, the first message sent and acknowledged, the others queued. */
  function LoadStimuli(msgs: seq<Payload>): seq<Stimulus>
    requires msgs != []
  {
    [LinkUp, Send(msgs[0]), RrOf(1)] + seq(|msgs| - 1, j requires 0 <= j < |msgs| - 1 => Send(msgs[1 + j]))
  }

  lemma QueuesOneMore(start: Endpoint, msgs: seq<Payload>, j: nat)
    requires start.k >= 1 && j + 1 < |msgs|
    ensures Apply(Loaded(start, msgs, j), Send(msgs[1 + j])).e == Loaded(start, msgs, j + 1)
  {
    var e, d := Loaded(start, msgs, j), Loaded(start, msgs, j + 1);
    assert d.queue == e.queue + [Queued((1 + j) % 128, j < start.k, msgs[1 + j])];
  }

  lemma FirstIsAcknowledged(start: Endpoint, msgs: seq<Payload>)
    requires start.k >= 1 && msgs != []
    ensures var e := Apply(Reset(start), LinkUp).e;
            var d := Apply(e, Send(msgs[0])).e;
            && e == Reset(start).(state := Established) && e.queue == []
            && d == e.(vs := 1, windowlen := 1, queue := [Queued(0, true, msgs[0])])
            && Apply(d, RrOf(1)).e == Loaded(start, msgs, 0)
  {
    var e := Reset(start).(state := Established);
    var d := e.(vs := 1, windowlen := 1, queue := [Queued(0, true, msgs[0])]);
    assert FindNs(d.queue, 0) == 0;
    assert AckPacket(d, 0) == e.(vs := 1);
    assert AckAll(e.(vs := 1), 1, 1) == e.(vs := 1);
    assert WalkToAck(1, 1, 1) == 1;
    assert Loaded(start, msgs, 0).queue == [];
  }

  lemma FirstAckIsHonest(start: Endpoint, msgs: seq<Payload>)
    requires start.k >= 1 && msgs != []
    ensures var d := Apply(Apply(Reset(start), LinkUp).e, Send(msgs[0])).e;
            Possible(d, RrOf(1)) && HonestStimulus(d, RrOf(1)) && |d.queue| == 1
  {
    FirstIsAcknowledged(start, msgs);
    var d := Apply(Apply(Reset(start), LinkUp).e, Send(msgs[0])).e;
    assert Honest(d, RrOf(1).f, 1);
  }

  /** That is a history from a reset on. */
  lemma LoadHistory(start: Endpoint, msgs: seq<Payload>) returns (after: seq<Endpoint>)
    requires start.k >= 1 && msgs != []
    ensures HonestHistory(start, LoadStimuli(msgs), after) && ShortQueues(LoadStimuli(msgs), after, |msgs| + 2)
    ensures after[|msgs| + 2] == Loaded(start, msgs, |msgs| - 1)
  {
    hide Loaded, Apply, Reset, Honest;
    var stimuli := LoadStimuli(msgs);
    var e0 := Reset(start);
    var e1 := Apply(e0, LinkUp).e;
    var e2 := Apply(e1, Send(msgs[0])).e;
    after := [e0, e1, e2] + seq(|msgs|, j requires 0 <= j < |msgs| => Loaded(start, msgs, j));
    FirstIsAcknowledged(start, msgs);
    FirstAckIsHonest(start, msgs);
    forall i | 0 <= i < |stimuli|
      ensures Possible(after[i], stimuli[i]) && after[i + 1] == Apply(after[i], stimuli[i]).e
      ensures HonestStimulus(after[i], stimuli[i])
      ensures stimuli[i].Arrives? ==> |after[i].queue| <= 127
    {
      if i >= 3 {
        assert stimuli[i] == Send(msgs[1 + (i - 3)]);
        QueuesOneMore(start, msgs, i - 3);
      } else if i == 2 {
        assert stimuli[i] == RrOf(1) && after[i] == e2;
      }
    }
  }

  lemma OneMore(start: Endpoint, stimuli: seq<Stimulus>, after: seq<Endpoint>, s: Stimulus)
    requires HonestHistory(start, stimuli, after)
    requires Possible(after[|stimuli|], s) && HonestStimulus(after[|stimuli|], s)
    ensures HonestHistory(start, stimuli + [s], after + [Apply(after[|stimuli|], s).e])
  {
    hide HonestStimulus, Apply, Reset;
    var longer, states := stimuli + [s], after + [Apply(after[|stimuli|], s).e];
    forall i | 0 <= i < |longer|
      ensures Possible(states[i], longer[i]) && states[i + 1] == Apply(states[i], longer[i]).e
      ensures HonestStimulus(states[i], longer[i])
    {
      if i < |stimuli| { assert longer[i] == stimuli[i] && states[i] == after[i] && states[i + 1] == after[i + 1]; }
    }
  }

  lemma {:induction false} NothingToSend(e: Endpoint, i: nat)
    requires i <= |e.queue| && forall j :: 0 <= j < |e.queue| ==> e.queue[j].transmitted
    ensures SendQueued(e, i) == (e, [])
    decreases |e.queue| - i
  {
    if i < |e.queue| && e.windowlen < e.window { NothingToSend(e, i + 1); }
  }

  lemma FullAckDoesNothing(start: Endpoint, msgs: seq<Payload>)
    requires start.k >= 127 && |msgs| == 128
    ensures var e := Loaded(start, msgs, 127);
            Apply(e, RrOf(0)) == Out(e, [], [], false) && Possible(e, RrOf(0)) && Honest(e, RrOf(0).f, 127)
  {
    var e := Loaded(start, msgs, 127);
    assert WalkToAck(0, 128, 0) == 0;
    assert AckAll(e, 0, 0) == e;
    NothingToSend(e, 0);
  }

  /** The loss, from a reset on, for any window of 127 or more and any messages: the first is
      acknowledged, 127 more go out, all of them are acknowledged by an honest N(R), and all 127 stay
      queued. */
  lemma FullAckOf127IsLost(start: Endpoint, msgs: seq<Payload>) returns (after: seq<Endpoint>)
    requires start.k >= 127 && |msgs| == 128
    ensures HonestHistory(start, LoadStimuli(msgs) + [RrOf(0)], after)
    ensures Honest(after[130], RrOf(0).f, 127)
    ensures |after[130].queue| == 127 && forall i :: 0 <= i < 127 ==>
              after[130].queue[i] == Queued((1 + i) % 128, true, msgs[1 + i])
    ensures after[131] == after[130]
  {
    hide Apply, Reset, Honest, HonestHistory;
    after := LoadHistory(start, msgs);
    FullAckDoesNothing(start, msgs);
    LengthOf(start, LoadStimuli(msgs), after);
    HonestlyRead(after[130], RrOf(0).f, 127);
    OneMore(start, LoadStimuli(msgs), after, RrOf(0));
    after := after + [Apply(after[130], RrOf(0)).e];
  }

  lemma HonestlyRead(e: Endpoint, f: Frame, n: nat)
    requires Honest(e, f, n)
    ensures HonestStimulus(e, Arrives(f, []))
  {
  }

  lemma LengthOf(start: Endpoint, stimuli: seq<Stimulus>, after: seq<Endpoint>)
    requires HonestHistory(start, stimuli, after)
    ensures |after| == |stimuli| + 1
  {
  }

  // ------------------------------------------------------------------ the lost message

  lemma AckOfOneTakesTwo(start: Endpoint, msgs: seq<Payload>)
    requires start.k >= 1 && |msgs| == 129
    ensures var e := Loaded(start, msgs, 128);
            && Possible(e, RrOf(2)) && Honest(e, RrOf(2).f, 1)
            && SameFrames(Apply(e, RrOf(2)).e.queue, e.queue[1..127])
  {
    hide Loaded, AckRx, Honest, ConsecutiveRun, SameFrames;
    var e := Loaded(start, msgs, 128);
    LoadedIsNumbered(start, msgs);
    AckOf128(e, 1);
    RestartedAlike(e, 2);
    RrAcks(e, 2);
    AckThenSend(e, 2);
  }

  lemma LoadedIsNumbered(start: Endpoint, msgs: seq<Payload>)
    requires |msgs| == 129
    ensures var e := Loaded(start, msgs, 128);
            && ConsecutiveRun(e) && VaNearHead(e) && |e.queue| == 128
            && e.vs == 129 && e.va == 0 && e.state == Established && !e.busy
            && Possible(e, RrOf(2)) && Honest(e, RrOf(2).f, 1)
  {
  }

  lemma RrAcks(e: Endpoint, nr: int)
    requires e.state == Established && !e.busy && IsSeqNo(nr) && IsSeqNo(e.va) && !AckRx(e, nr, true).restarted
    ensures Apply(e, RrOf(nr)).e == AckRx(e, nr, true).e
  {
    assert e.(busy := false) == e;
  }

  /** Sending what the window allows keeps the frames. */
  lemma AckThenSend(e: Endpoint, nr: int)
    requires IsSeqNo(nr) && IsSeqNo(e.va) && !AckRx(e, nr, false).restarted
    ensures SameFrames(AckRx(e, nr, true).e.queue, AckRx(e, nr, false).e.queue)
  {
    hide AckAll, WalkToAck, SendQueued;
    SendQueuedKeeps(AckAll(e, e.va, nr).(retrans := 0), 0);
  }

  lemma RestartedAlike(e: Endpoint, nr: int)
    requires IsSeqNo(nr) && IsSeqNo(e.va)
    ensures AckRx(e, nr, true).restarted == AckRx(e, nr, false).restarted
  {
  }

  /** One frame more and a message is lost, from a reset on, for every window and any messages. With the
      first message released and 128 more queued, an honest acknowledgement of the first of them takes off
      the last as well: it was never acknowledged, nor, with a window below 128, ever sent. */
  lemma LastOf128IsLost(start: Endpoint, msgs: seq<Payload>) returns (after: seq<Endpoint>)
    requires start.k >= 1 && |msgs| == 129
    ensures HonestHistory(start, LoadStimuli(msgs) + [RrOf(2)], after)
    ensures Honest(after[131], RrOf(2).f, 1)
    ensures |after[131].queue| == 128 && after[131].queue[127] == Queued(0, start.k >= 128, msgs[128])
    ensures SameFrames(after[132].queue, after[131].queue[1..127])
  {
    hide Apply, Reset, Honest, HonestHistory, SameFrames;
    after := LoadHistory(start, msgs);
    AckOfOneTakesTwo(start, msgs);
    LengthOf(start, LoadStimuli(msgs), after);
    HonestlyRead(after[131], RrOf(2).f, 1);
    OneMore(start, LoadStimuli(msgs), after, RrOf(2));
    after := after + [Apply(after[131], RrOf(2)).e];
  }
}
