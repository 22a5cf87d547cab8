/** Window and recovery bounds of one Q.921 endpoint, whatever its peer sends. */
module Q921Bounds {
  import opened Q921Endpoint

  datatype Stimulus =
    | Send(data: Payload)
    | T200
    | T203
    | LinkUp
    | Arrives(f: Frame, replies: seq<Payload>)

  ghost predicate Possible(e: Endpoint, s: Stimulus) {
    s.Arrives? ==> IsSeqNo(s.f.nr) && IsSeqNo(e.va)
  }

  function Apply(e: Endpoint, s: Stimulus): Out
    requires s.Arrives? ==> IsSeqNo(s.f.nr) && IsSeqNo(e.va)
  {
    match s
    case Send(data) => Transmit(e, data)
    case T200 => T200Expire(e)
    case T203 => T203Expire(e)
    case LinkUp => ChannelUp(e)
    case Arrives(f, replies) => Receive(e, f, replies)
  }

  /** `after[i]` is the endpoint after the first `i` stimuli. */
  ghost predicate IsHistory(start: Endpoint, stimuli: seq<Stimulus>, after: seq<Endpoint>) {
    && |after| == |stimuli| + 1 && after[0] == start
    && forall i :: 0 <= i < |stimuli| ==>
        Possible(after[i], stimuli[i]) && after[i + 1] == Apply(after[i], stimuli[i]).e
  }

  /** The limits a link was configured with hold. */
  ghost predicate Bounded(e: Endpoint, k: int, n200: int) {
    && e.windowlen <= e.window == e.k == k
    && e.retrans <= e.n200 == n200
    && IsSeqNo(e.va) && 0 <= k && 0 <= n200
  }

  lemma {:induction false} SendQueuedBounded(e: Endpoint, i: nat, k: int, n200: int)
    requires i <= |e.queue| && Bounded(e, k, n200)
    ensures Bounded(SendQueued(e, i).0, k, n200)
    decreases |e.queue| - i
  {
    if i == |e.queue| || e.windowlen >= e.window {
    } else if e.queue[i].transmitted {
      SendQueuedBounded(e, i + 1, k, n200);
    } else {
      var f := e.queue[i];
      var e' := e.(queue := e.queue[i := f.(transmitted := true)], windowlen := e.windowlen + 1);
      SendQueuedBounded(e', i + 1, k, n200);
    }
  }

  lemma {:induction false} ResendBounded(e: Endpoint, i: nat, k: int, n200: int)
    requires i <= |e.queue| && Bounded(e, k, n200)
    ensures Bounded(ResendFrom(e, i).0, k, n200)
    decreases |e.queue| - i
  {
    if i < |e.queue| {
      var f := e.queue[i];
      if f.transmitted || e.windowlen < e.window {
        ResendBounded(if f.transmitted then e else e.(windowlen := e.windowlen + 1), i + 1, k, n200);
      } else {
        ResendBounded(e, i + 1, k, n200);
      }
    }
  }

  lemma {:induction false} AckAllBounded(e: Endpoint, x: int, ack: int, k: int, n200: int)
    requires Bounded(e, k, n200) && IsSeqNo(x) && IsSeqNo(ack)
    ensures Bounded(AckAll(e, x, ack), k, n200)
    decreases (ack - x) % 128
  {
    if x != ack {
      AckAllBounded(AckPacket(e, x), Inc(x), ack, k, n200);
    }
  }

  lemma AckRxBounded(e: Endpoint, ack: int, sendUntransmitted: bool, k: int, n200: int)
    requires Bounded(e, k, n200) && IsSeqNo(ack)
    ensures Bounded(AckRx(e, ack, sendUntransmitted).e, k, n200)
  {
    if WalkToAck(e.va, e.vs, ack) == ack {
      AckAllBounded(e, e.va, ack, k, n200);
      SendQueuedBounded(AckAll(e, e.va, ack).(retrans := 0), 0, k, n200);
    }
  }

  lemma {:induction false} TransmitAllBounded(e: Endpoint, msgs: seq<Payload>, k: int, n200: int)
    requires Bounded(e, k, n200)
    ensures Bounded(TransmitAll(e, msgs).e, k, n200)
    decreases |msgs|
  {
    if msgs != [] {
      TransmitAllBounded(Transmit(e, msgs[0]).e, msgs[1..], k, n200);
    }
  }

  lemma IFrameBounded(e: Endpoint, f: Frame, replies: seq<Payload>, k: int, n200: int)
    requires Bounded(e, k, n200) && IsSeqNo(f.nr) && f.IFrame?
    ensures Bounded(HandleIFrame(e, f, replies).e, k, n200)
  {
    var e0 := e.(solicitfbit := false).(vr := Inc(e.vr), sentrej := false);
    AckRxBounded(e0, f.nr, false, k, n200);
    var a := AckRx(e0, f.nr, false);
    TransmitAllBounded(a.e, replies, k, n200);
    TransmitAllBounded(NoteAcked(a.e), replies, k, n200);
  }

  lemma RejectBounded(e: Endpoint, f: Frame, k: int, n200: int)
    requires Bounded(e, k, n200) && IsSeqNo(f.nr) && f.SFrame?
    ensures Bounded(HandleRej(e, f).e, k, n200)
  {
    var e1 := RejectSeen(e, f).e;
    AckRxBounded(e1, f.nr, false, k, n200);
    var e2 := AckRx(e1, f.nr, false).e.(solicitfbit := false, retrans := 0);
    ResendBounded(e2, FindNs(e2.queue, f.nr), k, n200);
  }

  lemma ArrivalBounded(e: Endpoint, f: Frame, replies: seq<Payload>, k: int, n200: int)
    requires Bounded(e, k, n200) && IsSeqNo(f.nr)
    ensures Bounded(Receive(e, f, replies).e, k, n200)
  {
    if f.IFrame? {
      IFrameBounded(e, f, replies, k, n200);
    } else if f.kind.ReceiverReady? {
      AckRxBounded(e.(busy := false), f.nr, true, k, n200);
    } else if f.kind.ReceiverNotReady? {
      AckRxBounded(e.(busy := true), f.nr, false, k, n200);
    } else {
      RejectBounded(e, f, k, n200);
    }
  }

  /** After any history at all, even with a peer that invents sequence numbers: the window is never
      over-full and the retry counter never passes N200. */
  lemma {:induction false} HistoryBounded(start: Endpoint, stimuli: seq<Stimulus>, after: seq<Endpoint>, i: nat)
    requires start.n200 >= 0 && start.k >= 0
    requires IsHistory(Reset(start), stimuli, after) && i <= |stimuli|
    ensures after[i].windowlen <= after[i].window == start.k
    ensures after[i].retrans <= start.n200
    ensures Bounded(after[i], start.k, start.n200)
  {
    if i > 0 {
      HistoryBounded(start, stimuli, after, i - 1);
      var e := after[i - 1];
      match stimuli[i - 1]
      case LinkUp => SendQueuedBounded(e.(sentrej := false, state := Established), 0, start.k, start.n200);
      case Arrives(f, replies) => ArrivalBounded(e, f, replies, start.k, start.n200);
      case _ =>
    }
  }

  // ------------------------------------------------------------------ T200 recovery ends

  function T200Count(stimuli: seq<Stimulus>): nat
  {
    if stimuli == [] then 0 else (if stimuli[0].T200? then 1 else 0) + T200Count(stimuli[1..])
  }

  /** Nothing is received: only sends and timer expiries. */
  ghost predicate Silent(stimuli: seq<Stimulus>) {
    forall i :: 0 <= i < |stimuli| ==> stimuli[i].Send? || stimuli[i].T200? || stimuli[i].T203?
  }

  /** Does some stimulus restart the link? */
  predicate Restarts(e: Endpoint, stimuli: seq<Stimulus>)
    requires forall i :: 0 <= i < |stimuli| ==> stimuli[i].Send? || stimuli[i].T200? || stimuli[i].T203?
    decreases |stimuli|
  {
    stimuli != [] &&
    (Apply(e, stimuli[0]).restarted || Restarts(Apply(e, stimuli[0]).e, stimuli[1..]))
  }

  /** The stimuli before the first T203 expiry. */
  function Stretch(stimuli: seq<Stimulus>): seq<Stimulus> {
    if stimuli == [] || stimuli[0].T203? then [] else [stimuli[0]] + Stretch(stimuli[1..])
  }

  /** Some T203 expiry is followed by more than `n200` T200 expiries before the next one. */
  ghost predicate LongStretch(stimuli: seq<Stimulus>, n200: int) {
    exists i :: 0 <= i < |stimuli| && stimuli[i].T203? && T200Count(Stretch(stimuli[i + 1..])) > n200
  }

  lemma LongStretchTail(stimuli: seq<Stimulus>, n200: int)
    requires stimuli != []
    ensures LongStretch(stimuli, n200) <==>
            LongStretch(stimuli[1..], n200) || (stimuli[0].T203? && T200Count(Stretch(stimuli[1..])) > n200)
  {
    var t := stimuli[1..];
    if LongStretch(stimuli, n200) {
      var i :| 0 <= i < |stimuli| && stimuli[i].T203? && T200Count(Stretch(stimuli[i + 1..])) > n200;
      if i > 0 { assert t[i - 1] == stimuli[i] && t[i..] == stimuli[i + 1..]; }
    }
    if LongStretch(t, n200) {
      var i :| 0 <= i < |t| && t[i].T203? && T200Count(Stretch(t[i + 1..])) > n200;
      assert stimuli[i + 1] == t[i] && stimuli[i + 2..] == t[i + 1..];
    }
  }

  lemma StretchTail(stimuli: seq<Stimulus>)
    requires stimuli != [] && !stimuli[0].T203?
    ensures T200Count(Stretch(stimuli)) == (if stimuli[0].T200? then 1 else 0) + T200Count(Stretch(stimuli[1..]))
  {
    assert Stretch(stimuli)[1..] == Stretch(stimuli[1..]);
  }

  /** What one such stimulus does to the retry count. */
  lemma SilentStep(e: Endpoint, s: Stimulus)
    requires s.Send? || s.T200? || s.T203?
    requires (e.queue != [] || e.solicitfbit) && 0 <= e.retrans <= e.n200
    ensures var o := Apply(e, s);
            && (o.restarted <==> s.T200? && e.retrans == e.n200)
            && (!o.restarted ==>
                  && o.e.state == e.state && o.e.n200 == e.n200 && (o.e.queue != [] || o.e.solicitfbit)
                  && o.e.retrans == if s.T200? then e.retrans + 1
                                    else if s.T203? && e.state == Established then 0 else e.retrans)
  {
  }

  /** With something queued or a poll outstanding, and nothing received, an established link restarts
      exactly when T200 expires more often than the retries left: N200 - `retrans` from the start, N200
      from any T203 expiry on, up to the next one. T203 does nothing on a link that is not established:
      there the bound is on all T200 expiries. */
  lemma {:induction false} SilenceRestarts(e: Endpoint, stimuli: seq<Stimulus>)
    requires Silent(stimuli) && (e.queue != [] || e.solicitfbit) && 0 <= e.retrans <= e.n200
    ensures e.state == Established ==>
              (Restarts(e, stimuli) <==>
               T200Count(Stretch(stimuli)) > e.n200 - e.retrans || LongStretch(stimuli, e.n200))
    ensures e.state != Established ==> (Restarts(e, stimuli) <==> T200Count(stimuli) > e.n200 - e.retrans)
    decreases |stimuli|
  {
    hide LongStretch, Stretch, Apply;
    if stimuli == [] {
      NoStretch(e.n200);
    } else {
      SilentStep(e, stimuli[0]);
      var o := Apply(e, stimuli[0]);
      LongStretchTail(stimuli, e.n200);
      if stimuli[0].T203? { EmptyStretch(stimuli); } else { StretchTail(stimuli); }
      if !o.restarted {
        SilenceRestarts(o.e, stimuli[1..]);
      }
    }
  }

  lemma NoStretch(n200: int)
    ensures Stretch([]) == [] && !LongStretch([], n200)
  {
  }

  lemma EmptyStretch(stimuli: seq<Stimulus>)
    requires stimuli != [] && stimuli[0].T203?
    ensures Stretch(stimuli) == []
  {
  }

  // ------------------------------------------------------------------ the window counts sent frames

  function SentCount(q: seq<Queued>): nat
  {
    if q == [] then 0 else SentCount(q[..|q| - 1]) + (if q[|q| - 1].transmitted then 1 else 0)
  }

  ghost predicate Exact(e: Endpoint) {
    e.windowlen == SentCount(e.queue)
  }

  lemma {:induction false} SentCountSplit(p: seq<Queued>, q: seq<Queued>)
    ensures SentCount(p + q) == SentCount(p) + SentCount(q)
    decreases |q|
  {
    if q == [] {
      assert p + q == p;
    } else {
      assert (p + q)[..|p + q| - 1] == p + q[..|q| - 1];
      SentCountSplit(p, q[..|q| - 1]);
    }
  }

  lemma SentCountOne(f: Queued)
    ensures SentCount([f]) == if f.transmitted then 1 else 0
  {
    assert [f][..0] == [];
  }

  lemma SentCountAround(q: seq<Queued>, i: nat)
    requires i < |q|
    ensures SentCount(q) == SentCount(q[..i]) + (if q[i].transmitted then 1 else 0) + SentCount(q[i + 1..])
  {
    SentCountOne(q[i]);
    SentCountSplit(q[..i], [q[i]]);
    SentCountSplit(q[..i] + [q[i]], q[i + 1..]);
    assert q == q[..i] + [q[i]] + q[i + 1..];
  }

  lemma MarkSent(q: seq<Queued>, i: nat)
    requires i < |q| && !q[i].transmitted
    ensures SentCount(q[i := q[i].(transmitted := true)]) == SentCount(q) + 1
  {
    var q' := q[i := q[i].(transmitted := true)];
    SentCountAround(q, i);
    SentCountAround(q', i);
    assert q'[..i] == q[..i] && q'[i + 1..] == q[i + 1..];
  }

  lemma {:induction false} SendQueuedExact(e: Endpoint, i: nat)
    requires i <= |e.queue| && Exact(e)
    ensures Exact(SendQueued(e, i).0)
    decreases |e.queue| - i
  {
    if i == |e.queue| || e.windowlen >= e.window {
    } else if e.queue[i].transmitted {
      SendQueuedExact(e, i + 1);
    } else {
      var f := e.queue[i];
      MarkSent(e.queue, i);
      SendQueuedExact(e.(queue := e.queue[i := f.(transmitted := true)], windowlen := e.windowlen + 1), i + 1);
    }
  }

  /** No unsent frame is numbered within the walk from `x` up to `ack`. */
  ghost predicate AcksOnlySent(e: Endpoint, x: int, ack: int) {
    forall i :: 0 <= i < |e.queue| && !e.queue[i].transmitted ==>
      (e.queue[i].ns - x) % 128 >= (ack - x) % 128
  }

  lemma AckPacketExact(e: Endpoint, x: int)
    requires Exact(e) && forall i :: 0 <= i < |e.queue| && e.queue[i].ns == x ==> e.queue[i].transmitted
    ensures Exact(AckPacket(e, x))
  {
    var i := FindNs(e.queue, x);
    if i < |e.queue| {
      SentCountAround(e.queue, i);
      SentCountSplit(e.queue[..i], e.queue[i + 1..]);
    }
  }

  lemma {:induction false} AckAllExact(e: Endpoint, x: int, ack: int)
    requires Exact(e) && IsSeqNo(x) && IsSeqNo(ack) && AcksOnlySent(e, x, ack)
    ensures Exact(AckAll(e, x, ack))
    decreases (ack - x) % 128
  {
    hide Exact, AcksOnlySent, AckPacket, FindNs;
    if x != ack {
      NextIsSent(e, x, ack);
      AckPacketExact(e, x);
      StillOnlySent(e, x, ack);
      AckAllExact(AckPacket(e, x), Inc(x), ack);
    }
  }

  lemma NextIsSent(e: Endpoint, x: int, ack: int)
    requires IsSeqNo(x) && IsSeqNo(ack) && x != ack && AcksOnlySent(e, x, ack)
    ensures forall i :: 0 <= i < |e.queue| && e.queue[i].ns == x ==> e.queue[i].transmitted
  {
    forall i | 0 <= i < |e.queue| && e.queue[i].ns == x ensures e.queue[i].transmitted {
      assert (e.queue[i].ns - x) % 128 == 0 < (ack - x) % 128;
    }
  }

  lemma StillOnlySent(e: Endpoint, x: int, ack: int)
    requires IsSeqNo(x) && IsSeqNo(ack) && x != ack && AcksOnlySent(e, x, ack)
    ensures AcksOnlySent(AckPacket(e, x), Inc(x), ack)
  {
    var e' := AckPacket(e, x);
    var k := FindNs(e.queue, x);
    forall i | 0 <= i < |e'.queue| && !e'.queue[i].transmitted
      ensures (e'.queue[i].ns - Inc(x)) % 128 >= (ack - Inc(x)) % 128
    {
      var f := e'.queue[i];
      assert f == e.queue[if i < k then i else if k < |e.queue| then i + 1 else i];
      assert (f.ns - x) % 128 >= (ack - x) % 128;
      StepDistance(x, f.ns, ack);
    }
  }

  lemma StepDistance(x: int, a: int, b: int)
    requires IsSeqNo(x) && IsSeqNo(b) && x != b && (a - x) % 128 >= (b - x) % 128
    ensures (a - Inc(x)) % 128 >= (b - Inc(x)) % 128
  {
    assert (b - x) % 128 >= 1;
    OneLess(x, a);
    OneLess(x, b);
  }

  lemma OneLess(x: int, a: int)
    requires IsSeqNo(x) && (a - x) % 128 >= 1
    ensures (a - Inc(x)) % 128 == (a - x) % 128 - 1
  {
  }

  lemma AckRxExact(e: Endpoint, ack: int, sendUntransmitted: bool)
    requires Exact(e) && IsSeqNo(e.va) && IsSeqNo(ack) && AcksOnlySent(e, e.va, ack)
    ensures Exact(AckRx(e, ack, sendUntransmitted).e)
  {
    if WalkToAck(e.va, e.vs, ack) == ack {
      AckAllExact(e, e.va, ack);
      var e1 := AckAll(e, e.va, ack);
      SendQueuedExact(e1.(retrans := 0), 0);
    }
  }

  lemma {:induction false} TransmitAllExact(e: Endpoint, msgs: seq<Payload>)
    requires Exact(e)
    ensures Exact(TransmitAll(e, msgs).e)
    decreases |msgs|
  {
    if msgs != [] {
      TransmitExact(e, msgs[0]);
      TransmitAllExact(Transmit(e, msgs[0]).e, msgs[1..]);
    }
  }

  lemma TransmitExact(e: Endpoint, data: Payload)
    requires Exact(e)
    ensures Exact(Transmit(e, data).e)
  {
    var q := Transmit(e, data).e.queue;
    assert q[..|q| - 1] == e.queue;
  }

  /** What the peer acknowledges, if anything, has been sent. */
  ghost predicate AcksSent(e: Endpoint, s: Stimulus) {
    s.Arrives? && e.state == Established ==> AcksOnlySent(e, e.va, s.f.nr)
  }

  /** A REJ that makes the count drift: recovery is taken, the window has room once the frames below
      N(R) are released, and an unsent frame is queued from N(R) on. */
  ghost predicate Drifts(e: Endpoint, s: Stimulus)
    requires Possible(e, s)
  {
    && s.Arrives? && e.state == Established && s.f.SFrame? && s.f.kind.Reject?
    && var a := AckRx(RejectSeen(e, s.f).e, s.f.nr, false).e;
    && (!a.solicitfbit || (!s.f.command && s.f.pf))
    && a.windowlen < a.window
    && UnsentFrom(a.queue, FindNs(a.queue, s.f.nr))
  }

  ghost predicate UnsentFrom(q: seq<Queued>, i: nat) {
    exists j :: i <= j < |q| && !q[j].transmitted
  }

  lemma {:induction false} ResendCounts(e: Endpoint, i: nat)
    requires i <= |e.queue|
    ensures ResendFrom(e, i).0.windowlen >= e.windowlen
    ensures ResendFrom(e, i).0.windowlen == e.windowlen <==> e.windowlen >= e.window || !UnsentFrom(e.queue, i)
    decreases |e.queue| - i
  {
    if i < |e.queue| {
      var f := e.queue[i];
      if f.transmitted || e.windowlen < e.window {
        ResendCounts(if f.transmitted then e else e.(windowlen := e.windowlen + 1), i + 1);
      } else {
        ResendCounts(e, i + 1);
      }
      assert UnsentFrom(e.queue, i) <==> !f.transmitted || UnsentFrom(e.queue, i + 1);
    }
  }

  lemma RejectExactIff(e: Endpoint, s: Stimulus)
    requires s.Arrives? && s.f.SFrame? && s.f.kind.Reject? && Possible(e, s) && e.state == Established
    requires Exact(e) && AcksOnlySent(e, e.va, s.f.nr)
    ensures Exact(HandleRej(e, s.f).e) <==> !Drifts(e, s)
  {
    hide AckRx, AcksOnlySent;
    var f := s.f;
    var e1 := RejectSeen(e, f).e;
    AcksOnlySentSame(e, e1, e.va, f.nr);
    AckRxExact(e1, f.nr, false);
    var a := AckRx(e1, f.nr, false).e;
    var e2 := a.(solicitfbit := false, retrans := 0);
    ResendCounts(e2, FindNs(e2.queue, f.nr));
  }

  lemma AcksOnlySentSame(e: Endpoint, d: Endpoint, x: int, ack: int)
    requires AcksOnlySent(e, x, ack) && d.queue == e.queue
    ensures AcksOnlySent(d, x, ack)
  {
  }

  lemma IFrameExact(e: Endpoint, f: Frame, replies: seq<Payload>)
    requires Exact(e) && f.IFrame? && IsSeqNo(f.nr) && IsSeqNo(e.va) && AcksOnlySent(e, e.va, f.nr)
    ensures Exact(HandleIFrame(e, f, replies).e)
  {
    if f.ns == e.vr {
      var e0 := e.(solicitfbit := false).(vr := Inc(e.vr), sentrej := false);
      AckRxExact(e0, f.nr, false);
      var a := AckRx(e0, f.nr, false);
      TransmitAllExact(a.e, replies);
      TransmitAllExact(NoteAcked(a.e), replies);
    }
  }

  lemma StimulusExactIff(e: Endpoint, s: Stimulus)
    requires Exact(e) && Possible(e, s) && AcksSent(e, s)
    ensures Exact(Apply(e, s).e) <==> !Drifts(e, s)
  {
    match s
    case Send(data) => TransmitExact(e, data);
    case LinkUp => SendQueuedExact(e.(sentrej := false, state := Established), 0);
    case Arrives(f, replies) =>
      if e.state == Established {
        if f.IFrame? {
          IFrameExact(e, f, replies);
        } else if f.kind.ReceiverReady? {
          AckRxExact(e.(busy := false), f.nr, true);
        } else if f.kind.ReceiverNotReady? {
          AckRxExact(e.(busy := true), f.nr, false);
        } else {
          RejectExactIff(e, s);
        }
      }
    case _ =>
  }

  /** In histories whose acknowledgements cover sent frames only, `windowlen` has been the number of
      transmitted frames still queued all along if and only if no REJ has made it drift. */
  lemma {:induction false} WindowCountsSentFrames(start: Endpoint, stimuli: seq<Stimulus>, after: seq<Endpoint>, n: nat)
    requires IsHistory(Reset(start), stimuli, after) && n <= |stimuli|
    requires forall j :: 0 <= j < n ==> AcksSent(after[j], stimuli[j])
    ensures (forall i :: 0 <= i <= n ==> after[i].windowlen == SentCount(after[i].queue)) <==>
            (forall j :: 0 <= j < n ==> !Drifts(after[j], stimuli[j]))
  {
    if n > 0 {
      var e, s := after[n - 1], stimuli[n - 1];
      WindowCountsSentFrames(start, stimuli, after, n - 1);
      assert Possible(e, s) && after[n] == Apply(e, s).e;
      if Exact(e) {
        StimulusExactIff(e, s);
        assert Exact(after[n]) <==> !Drifts(e, s);
      }
    }
  }

  function RnrOf(nr: int): Stimulus {
    Arrives(SFrame(ReceiverNotReady, nr, false, false), [])
  }

  function RejOf(nr: int): Stimulus {
    Arrives(SFrame(Reject, nr, false, false), [])
  }

  /** From a reset on, for any payload and any window: the peer is busy when a message is queued, and
      asks for it with a REJ. The frame goes out and is counted, but stays marked unsent. */
  lemma RejectOfUnsentDrifts(start: Endpoint, data: Payload) returns (after: seq<Endpoint>)
    requires start.k >= 1
    ensures IsHistory(Reset(start), [LinkUp, RnrOf(0), Send(data), RejOf(0)], after)
    ensures Drifts(after[3], RejOf(0)) && Receive(after[3], RejOf(0).f, []).sent == [IFrame(0, 0, false, data)]
    ensures Exact(after[3]) && after[4].windowlen == 1 && SentCount(after[4].queue) == 0 && |after[4].queue| == 1
  {
    var stimuli := [LinkUp, RnrOf(0), Send(data), RejOf(0)];
    var e0 := Reset(start);
    var e1 := e0.(state := Established);
    var e2 := e1.(busy := true, solicitfbit := true);
    var e3 := e2.(vs := 1, queue := [Queued(0, false, data)]);
    var e4 := e3.(busy := false, solicitfbit := false, windowlen := 1);
    after := [e0, e1, e2, e3, e4];
    assert e3.queue[..0] == [];
    var e := e3.(busy := false, solicitfbit := false);
    assert AckRx(e, 0, false).e == e;
    assert FindNs(e.queue, 0) == 0;
    assert !e.queue[0].transmitted;
    assert ResendFrom(e4, 1) == (e4, []);
    var sent := [IFrame(0, 0, false, data)];
    assert sent + [] == sent;
    assert ResendFrom(e, 0) == (e4, sent);
    forall i | 0 <= i < 4 ensures Possible(after[i], stimuli[i]) && after[i + 1] == Apply(after[i], stimuli[i]).e {
      assert stimuli[0] == LinkUp && stimuli[1] == RnrOf(0) && stimuli[2] == Send(data) && stimuli[3] == RejOf(0);
    }
  }
}
