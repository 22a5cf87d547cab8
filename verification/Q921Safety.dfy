/** Go-back-N safety: two Q.921 endpoints joined by FIFO channels that may lose frames.

    Each endpoint only sees wire frames with 7-bit numbers. Beside every frame in flight the
    model keeps its history: the absolute number of the message it carries and the absolute
    count of messages its sender had delivered when it was written. An epoch starts with both
    ends freshly reset and ends when either end restarts. */
module Q921Safety {
  import opened Q921Endpoint
  import opened Q921Ack
  import opened Q921Ops

  datatype InFlight = InFlight(f: Frame, ns: int, nr: int)

  /** One end: its endpoint, every payload given to `q921_transmit_iframe`, every payload handed
      to `q931_receive`, the channel to the peer (oldest frame first), and whether it restarted. */
  datatype Side = Side(e: Endpoint, sub: seq<Payload>, dlv: seq<Payload>, out: seq<InFlight>, over: bool)

  datatype System = System(a: Side, b: Side)

  datatype Event =
    | Submit(data: Payload)
    | T200
    | T203
    | LinkUp                                   // SABME or UA seen: `q921_dchannel_up`
    | PeerBusy(pf: bool, command: bool)        // an RNR written by this end
    | ReceiveFrame(replies: seq<Payload>)      // the oldest frame from the peer arrives
    | Lose(i: nat)                             // a frame from the peer is lost

  /** The number below `total` that is `ns` modulo 128 and nearest to it. */
  function AbsNs(ns: int, total: int): int
  {
    total - 1 - (total - 1 - ns) % 128
  }

  function Tag(f: Frame, total: int, delivered: int): InFlight
  {
    InFlight(f, if f.IFrame? then AbsNs(f.ns, total) else 0, delivered)
  }

  function TagAll(fs: seq<Frame>, total: int, delivered: int): (r: seq<InFlight>)
    ensures |r| == |fs|
    ensures forall i :: 0 <= i < |fs| ==> r[i] == Tag(fs[i], total, delivered)
  {
    seq(|fs|, i requires 0 <= i < |fs| => Tag(fs[i], total, delivered))
  }

  /** What an entry point with outcome `o` does to its side. */
  function Apply(x: Side, o: Out, submitted: seq<Payload>): Side
  {
    var sub := x.sub + submitted;
    var dlv := x.dlv + o.delivered;
    Side(o.e, sub, dlv, x.out + TagAll(o.sent, |sub|, |dlv|), x.over || o.restarted)
  }

  /** Side `x` acts (and reads from the channel of `y`); no more than 127 frames are ever queued. */
  ghost predicate StepBy(x: Side, y: Side, ev: Event, x': Side, y': Side)
  {
    && |x'.e.queue| <= 127
    && match ev
       case Submit(data) => x' == Apply(x, Transmit(x.e, data), [data]) && y' == y
       case T200 => x' == Apply(x, T200Expire(x.e), []) && y' == y
       case T203 => x' == Apply(x, T203Expire(x.e), []) && y' == y
       case LinkUp => x' == Apply(x, ChannelUp(x.e), []) && y' == y
       case PeerBusy(pf, command) =>
         x' == Apply(x, Out(x.e, [SFrame(ReceiverNotReady, x.e.vr, pf, command)], [], false), []) && y' == y
       case Lose(i) =>
         i < |y.out| && x' == x && y' == y.(out := y.out[..i] + y.out[i + 1..])
       case ReceiveFrame(replies) =>
         && y.out != [] && y' == y.(out := y.out[1..])
         && IsSeqNo(y.out[0].f.nr) && IsSeqNo(x.e.va)
         && var o := Receive(x.e, y.out[0].f, replies);
            x' == Apply(x, o, if o.delivered != [] then replies else [])
  }

  ghost predicate Next(s: System, s': System)
  {
    && !s.a.over && !s.b.over
    && exists ev ::
         StepBy(s.a, s.b, ev, s'.a, s'.b) || StepBy(s.b, s.a, ev, s'.b, s'.a)
  }

  ghost predicate Init(s: System)
  {
    && s.a == Side(Reset(s.a.e), [], [], [], false)
    && s.b == Side(Reset(s.b.e), [], [], [], false)
  }

  ghost predicate IsRun(run: seq<System>)
  {
    && run != [] && Init(run[0])
    && forall i :: 0 < i < |run| ==> Next(run[i - 1], run[i])
  }

  // ------------------------------------------------------------------ the invariant

  /** Absolute number of the oldest frame still queued at `x`. */
  function Base(x: Side): int
  {
    |x.sub| - |x.e.queue|
  }

  /** The queue is the tail of what was submitted, with the right numbers. */
  ghost predicate SenderOk(x: Side)
  {
    && WellNumbered(x.e) && |x.e.queue| <= 127 && Base(x) >= 0
    && (x.e.vs - |x.sub|) % 128 == 0
    && forall i :: 0 <= i < |x.e.queue| ==> x.e.queue[i].data == x.sub[Base(x) + i]
  }

  ghost predicate DatumOk(p: InFlight, sub: seq<Payload>, received: int)
  {
    p.f.IFrame? ==>
      && 0 <= p.ns < |sub| && p.f.ns == p.ns % 128
      && p.f.data == sub[p.ns] && received <= p.ns + 127
  }

  /** I-frames in flight carry what their number says and are at most 127 behind any earlier one. */
  ghost predicate DataOk(out: seq<InFlight>, sub: seq<Payload>, received: int)
  {
    && (forall i :: 0 <= i < |out| ==> DatumOk(out[i], sub, received))
    && (forall i, j :: 0 <= i < j < |out| && out[i].f.IFrame? && out[j].f.IFrame? ==> out[i].ns < out[j].ns + 127)
  }

  /** Acknowledgements in flight never decrease and stay between the two ends' counts. */
  ghost predicate AcksOk(out: seq<InFlight>, base: int, received: int)
  {
    && (forall i :: 0 <= i < |out| ==> out[i].f.nr == out[i].nr % 128 && base <= out[i].nr <= received)
    && (forall i, j :: 0 <= i < j < |out| ==> out[i].nr <= out[j].nr)
  }

  /** Messages from `x` to `y`. */
  ghost predicate HalfOk(x: Side, y: Side)
  {
    && SenderOk(x)
    && y.e.vr == |y.dlv| % 128
    && y.dlv <= x.sub
    && Base(x) <= |y.dlv|
    && DataOk(x.out, x.sub, |y.dlv|)
    && AcksOk(y.out, Base(x), |y.dlv|)
  }

  ghost predicate Inv(s: System)
  {
    && s.a.dlv <= s.b.sub && s.b.dlv <= s.a.sub
    && (!s.a.over && !s.b.over ==> HalfOk(s.a, s.b) && HalfOk(s.b, s.a))
  }

  // ------------------------------------------------------------------ preservation

  lemma AbsNsOf(n: int, total: int)
    requires total - 128 <= n < total
    ensures AbsNs(n % 128, total) == n
  {
  }

  lemma SameModulo(vs: int, total: int, k: int)
    requires (vs - total) % 128 == 0
    ensures (vs + k) % 128 == (total + k) % 128
  {
  }

  /** An emitted I-frame is tagged with the position of the queue entry it came from. */
  lemma TagOk(x: Side, f: Frame)
    requires SenderOk(x) && f.IFrame? && Emits(x.e, [f])
    ensures var p := Tag(f, |x.sub|, 0);
            Base(x) <= p.ns < |x.sub| && p.f.ns == p.ns % 128 && p.f.data == x.sub[p.ns]
  {
    assert f in [f];
    var i :| 0 <= i < |x.e.queue| && x.e.queue[i].ns == f.ns && x.e.queue[i].data == f.data;
    var n := Base(x) + i;
    SameModulo(x.e.vs, |x.sub|, i - |x.e.queue|);
    AbsNsOf(n, |x.sub|);
  }

  lemma SenderStep(x: Side, o: Out, n: nat, msgs: seq<Payload>)
    requires SenderOk(x) && OpOk(x.e, o, n, msgs) && |o.e.queue| <= 127
    ensures SenderOk(Apply(x, o, msgs))
    ensures Base(Apply(x, o, msgs)) == Base(x) + n
  {
    var x' := Apply(x, o, msgs);
    ModSum(x.e.vs - |x.sub|, o.e.vs - x.e.vs - |msgs|);
    assert (x.e.vs - |x.sub|) + (o.e.vs - x.e.vs - |msgs|) == o.e.vs - |x'.sub|;
    forall i | 0 <= i < |o.e.queue| ensures o.e.queue[i].data == x'.sub[Base(x') + i] {
      if i < |x.e.queue| - n {
        assert SameContent(o.e.queue[i], x.e.queue[n + i]);
      } else {
        var j := i - (|x.e.queue| - n);
        assert o.e.queue[|x.e.queue| - n + j].data == msgs[j];
      }
    }
  }

  lemma SenderBase(x: Side)
    requires SenderOk(x)
    ensures 0 <= Base(x) && |x.sub| <= Base(x) + 127
  {
  }

  lemma NewDatumOk(x: Side, sent: seq<Frame>, i: nat, delivered: int, received: int)
    requires SenderOk(x) && Emits(x.e, sent) && i < |sent| && sent[i].IFrame? && received <= |x.sub|
    ensures var p := Tag(sent[i], |x.sub|, delivered);
            Base(x) <= p.ns && DatumOk(p, x.sub, received)
  {
    var f := sent[i];
    assert f in sent;
    TagOk(x, f);
    SenderBase(x);
  }

  lemma NewDataOk(x: Side, o: Out, n: nat, msgs: seq<Payload>, received: int)
    requires SenderOk(x) && OpOk(x.e, o, n, msgs) && |o.e.queue| <= 127 && received <= |x.sub|
    ensures var x' := Apply(x, o, msgs);
            forall j :: |x.out| <= j < |x'.out| && x'.out[j].f.IFrame? ==>
              Base(x') <= x'.out[j].ns && DatumOk(x'.out[j], x'.sub, received)
  {
    hide SenderOk, QueueStep, Emits, DatumOk;
    var x' := Apply(x, o, msgs);
    SenderStep(x, o, n, msgs);
    forall j | |x.out| <= j < |x'.out| && x'.out[j].f.IFrame?
      ensures Base(x') <= x'.out[j].ns && DatumOk(x'.out[j], x'.sub, received)
    {
      NewDatumOk(x', o.sent, j - |x.out|, |x'.dlv|, received);
    }
  }

  /** Frames written by the new state extend the data channel. */
  lemma DataStep(x: Side, o: Out, n: nat, msgs: seq<Payload>, received: int)
    requires SenderOk(x) && OpOk(x.e, o, n, msgs) && |o.e.queue| <= 127
    requires DataOk(x.out, x.sub, received) && received <= |x.sub|
    ensures DataOk(Apply(x, o, msgs).out, Apply(x, o, msgs).sub, received)
  {
    hide SenderOk, OpOk;
    var x' := Apply(x, o, msgs);
    SenderStep(x, o, n, msgs);
    var k := |x.out|;
    NewDataOk(x, o, n, msgs, received);
    forall j | 0 <= j < k ensures DatumOk(x'.out[j], x'.sub, received) {
      assert DatumOk(x.out[j], x.sub, received);
    }
    SenderBase(x);
    SenderBase(x');
    forall i, j | 0 <= i < j < |x'.out| && x'.out[i].f.IFrame? && x'.out[j].f.IFrame?
      ensures x'.out[i].ns < x'.out[j].ns + 127
    {
      if j >= k {
        assert DatumOk(x'.out[i], x'.sub, received);
      }
    }
  }

  /** Frames written by the new state extend the acknowledgement channel. */
  lemma AckStep(x: Side, o: Out, msgs: seq<Payload>, base: int)
    requires AcksOk(x.out, base, |x.dlv|) && base <= |x.dlv|
    requires Emits(o.e, o.sent) && o.e.vr == |x.dlv + o.delivered| % 128
    ensures AcksOk(Apply(x, o, msgs).out, base, |Apply(x, o, msgs).dlv|)
  {
    var x' := Apply(x, o, msgs);
    forall j | |x.out| <= j < |x'.out|
      ensures x'.out[j].f.nr == x'.out[j].nr % 128 && x'.out[j].nr == |x'.dlv|
    {
      assert o.sent[j - |x.out|] in o.sent;
    }
  }

  /** An action of `x` that reads nothing from the channel. */
  lemma QuietStep(x: Side, y: Side, o: Out, msgs: seq<Payload>)
    requires HalfOk(x, y) && HalfOk(y, x)
    requires OpOk(x.e, o, 0, msgs) && o.delivered == [] && o.e.vr == x.e.vr && |o.e.queue| <= 127
    ensures HalfOk(Apply(x, o, msgs), y) && HalfOk(y, Apply(x, o, msgs))
  {
    SenderStep(x, o, 0, msgs);
    DataStep(x, o, 0, msgs, |y.dlv|);
    assert x.dlv + o.delivered == x.dlv;
    AckStep(x, o, msgs, Base(y));
  }

  lemma ChannelWithout(x: Side, y: Side, i: nat)
    requires HalfOk(x, y) && HalfOk(y, x) && i < |y.out|
    ensures var y' := y.(out := y.out[..i] + y.out[i + 1..]);
            HalfOk(x, y') && HalfOk(y', x)
  {
    var out := y.out[..i] + y.out[i + 1..];
    var y' := y.(out := out);
    forall j | 0 <= j < |out|
      ensures DatumOk(out[j], y.sub, |x.dlv|)
      ensures out[j].f.nr == out[j].nr % 128 && Base(x) <= out[j].nr <= |y.dlv|
    {
      assert out[j] == y.out[if j < i then j else j + 1];
    }
    forall j, l | 0 <= j < l < |out|
      ensures out[j].nr <= out[l].nr
      ensures out[j].f.IFrame? && out[l].f.IFrame? ==> out[j].ns < out[l].ns + 127
    {
      assert out[j] == y.out[if j < i then j else j + 1] && out[l] == y.out[if l < i then l else l + 1];
    }
    assert SenderOk(y');
  }

  /** The oldest frame's N(R), read by `x`, is an acknowledgement of `n` queued frames. */
  lemma HeadIsHonest(x: Side, y: Side) returns (n: nat)
    requires HalfOk(x, y) && y.out != []
    ensures n == y.out[0].nr - Base(x) && Honest(x.e, y.out[0].f, n)
    ensures IsSeqNo(y.out[0].f.nr) && IsSeqNo(x.e.va)
  {
    n := y.out[0].nr - Base(x);
    SameModulo(x.e.vs, |x.sub|, n - |x.e.queue|);
  }

  /** The oldest I-frame has V(R)'s number modulo 128 only if it is the very next message. */
  lemma HeadInSequence(y: Side, x: Side)
    requires HalfOk(y, x) && y.out != [] && y.out[0].f.IFrame? && y.out[0].f.ns == x.e.vr
    ensures y.out[0].ns == |x.dlv| && |x.dlv| < |y.sub| && y.out[0].f.data == y.sub[|x.dlv|]
  {
    var p := y.out[0];
    assert DatumOk(p, y.sub, |x.dlv|);
    assert Base(y) <= |x.dlv| && |y.sub| <= Base(y) + 127;
    assert (p.ns - |x.dlv|) % 128 == 0;
  }

  /** What `x` has delivered after reading the oldest frame of `y`. */
  ghost predicate Reads(x: Side, y: Side, o: Out)
    requires y.out != []
  {
    if o.delivered == [] then o.e.vr == x.e.vr
    else
      && y.out[0].f.IFrame? && y.out[0].f.ns == x.e.vr
      && o.delivered == [y.out[0].f.data] && o.e.vr == Inc(x.e.vr)
  }

  /** The receiving half of a read. */
  lemma ReceiverStep(x: Side, y: Side, o: Out, msgs: seq<Payload>)
    requires HalfOk(x, y) && HalfOk(y, x) && y.out != []
    requires Reads(x, y, o) && Emits(o.e, o.sent)
    ensures HalfOk(y.(out := y.out[1..]), Apply(x, o, msgs))
  {
    var x' := Apply(x, o, msgs);
    var y' := y.(out := y.out[1..]);
    ChannelWithout(x, y, 0);
    assert y.out[..0] + y.out[0 + 1..] == y.out[1..];
    assert SenderOk(y');
    if o.delivered != [] {
      HeadInSequence(y, x);
      assert x'.dlv == y.sub[..|x.dlv| + 1];
      IncMod(|x.dlv|);
      forall j | 0 <= j < |y'.out| ensures DatumOk(y'.out[j], y.sub, |x'.dlv|) {
        assert y'.out[j] == y.out[j + 1];
        assert DatumOk(y.out[j + 1], y.sub, |x.dlv|);
      }
    } else {
      assert x'.dlv == x.dlv;
    }
    AckStep(x, o, msgs, Base(y));
  }

  /** The sending half of a read that releases `n` frames. */
  lemma ReleaseStep(x: Side, y: Side, o: Out, n: nat, msgs: seq<Payload>)
    requires HalfOk(x, y) && HalfOk(y, x) && y.out != []
    requires OpOk(x.e, o, n, msgs) && |o.e.queue| <= 127
    requires n == 0 || n == y.out[0].nr - Base(x)
    ensures HalfOk(Apply(x, o, msgs), y.(out := y.out[1..]))
  {
    var x' := Apply(x, o, msgs);
    var y' := y.(out := y.out[1..]);
    SenderStep(x, o, n, msgs);
    DataStep(x, o, n, msgs, |y.dlv|);
    forall j | 0 <= j < |y'.out|
      ensures y'.out[j].f.nr == y'.out[j].nr % 128 && Base(x') <= y'.out[j].nr <= |y.dlv|
    {
      assert y'.out[j] == y.out[j + 1];
      assert y.out[0].nr <= y.out[j + 1].nr;
    }
    forall j, l | 0 <= j < l < |y'.out| ensures y'.out[j].nr <= y'.out[l].nr {
      assert y'.out[j] == y.out[j + 1] && y'.out[l] == y.out[l + 1];
    }
    assert Base(x') <= |y.dlv|;
    assert y.dlv <= x.sub <= x'.sub;
  }

  /** `x` reads the oldest frame of `y`, releasing `n` frames and perhaps delivering one. */
  lemma ReadStep(x: Side, y: Side, o: Out, n: nat, msgs: seq<Payload>)
    requires HalfOk(x, y) && HalfOk(y, x) && y.out != []
    requires OpOk(x.e, o, n, msgs) && |o.e.queue| <= 127
    requires n == 0 || n == y.out[0].nr - Base(x)
    requires Reads(x, y, o)
    ensures var y' := y.(out := y.out[1..]);
            HalfOk(Apply(x, o, msgs), y') && HalfOk(y', Apply(x, o, msgs))
  {
    ReleaseStep(x, y, o, n, msgs);
    ReceiverStep(x, y, o, msgs);
  }

  /** The outcome of receiving the oldest frame. */
  lemma ReceiveStep(x: Side, y: Side, replies: seq<Payload>)
    requires HalfOk(x, y) && HalfOk(y, x) && y.out != []
    ensures IsSeqNo(y.out[0].f.nr) && IsSeqNo(x.e.va)
    ensures var o := Receive(x.e, y.out[0].f, replies);
            var x' := Apply(x, o, if o.delivered != [] then replies else []);
            var y' := y.(out := y.out[1..]);
            !o.restarted && (|o.e.queue| <= 127 ==> HalfOk(x', y') && HalfOk(y', x'))
  {
    var n := HeadIsHonest(x, y);
    var f := y.out[0].f;
    var o := Receive(x.e, f, replies);
    if x.e.state != Established {
      StayOk(x.e, o.e);
      ReadStep(x, y, o, 0, []);
    } else if f.IFrame? {
      if f.ns == x.e.vr {
        InSequenceOk(x.e, f, replies, n);
        if |o.e.queue| <= 127 { ReadStep(x, y, o, TakenOff(x.e, n), replies); }
      } else {
        OutOfSequenceOk(x.e, f, replies);
        ReadStep(x, y, o, 0, []);
      }
    } else {
      if f.kind.ReceiverReady? {
        HandleRrOk(x.e, f, n);
      } else if f.kind.ReceiverNotReady? {
        HandleRnrOk(x.e, f, n);
      } else {
        HandleRejOk(x.e, f, n);
      }
      ReadStep(x, y, o, TakenOff(x.e, n), []);
    }
  }

  lemma StepKeepsHalves(x: Side, y: Side, ev: Event, x': Side, y': Side)
    requires !x.over && !y.over && HalfOk(x, y) && HalfOk(y, x)
    requires StepBy(x, y, ev, x', y')
    ensures x'.dlv <= y'.sub && y'.dlv <= x'.sub
    ensures !x'.over && !y'.over ==> HalfOk(x', y') && HalfOk(y', x')
    ensures x'.over ==> ev.T200?
    ensures !y'.over
  {
    match ev
    case Submit(data) =>
      TransmitOk(x.e, data);
      QuietStep(x, y, Transmit(x.e, data), [data]);
    case T200 =>
      if !T200Expire(x.e).restarted {
        T200Ok(x.e);
        QuietStep(x, y, T200Expire(x.e), []);
      } else {
        assert x'.dlv == x.dlv && x'.sub == x.sub;
      }
    case T203 =>
      T203Ok(x.e);
      QuietStep(x, y, T203Expire(x.e), []);
    case LinkUp =>
      ChannelUpOk(x.e);
      QuietStep(x, y, ChannelUp(x.e), []);
    case PeerBusy(pf, command) =>
      var o := Out(x.e, [SFrame(ReceiverNotReady, x.e.vr, pf, command)], [], false);
      StayOk(x.e, o.e);
      QuietStep(x, y, o, []);
    case Lose(i) =>
      ChannelWithout(x, y, i);
    case ReceiveFrame(replies) =>
      ReceiveStep(x, y, replies);
  }

  lemma NextKeepsInv(s: System, s': System)
    requires Inv(s) && Next(s, s')
    ensures Inv(s')
  {
    var ev :| StepBy(s.a, s.b, ev, s'.a, s'.b) || StepBy(s.b, s.a, ev, s'.b, s'.a);
    if StepBy(s.a, s.b, ev, s'.a, s'.b) {
      StepKeepsHalves(s.a, s.b, ev, s'.a, s'.b);
    } else {
      StepKeepsHalves(s.b, s.a, ev, s'.b, s'.a);
    }
  }

  lemma {:induction false} RunKeepsInv(run: seq<System>, i: nat)
    requires IsRun(run) && i < |run|
    ensures Inv(run[i])
  {
    if i > 0 {
      RunKeepsInv(run, i - 1);
      NextKeepsInv(run[i - 1], run[i]);
    }
  }

  /** In every state of every run, what either end has handed to Layer 3 is a prefix of what the
      other end's Layer 3 submitted: nothing lost, repeated, reordered or altered. */
  lemma DeliveredIsPrefixOfSubmitted(run: seq<System>, i: nat)
    requires IsRun(run) && i < |run|
    ensures run[i].a.dlv <= run[i].b.sub && run[i].b.dlv <= run[i].a.sub
  {
    RunKeepsInv(run, i);
  }

  /** Between two such ends only the T200 retry limit can end an epoch: the window test of
      `q921_ack_rx` never fails on a frame the peer really sent. */
  lemma OnlyT200EndsAnEpoch(run: seq<System>, i: nat, ev: Event)
    requires IsRun(run) && 0 < i < |run|
    requires StepBy(run[i - 1].a, run[i - 1].b, ev, run[i].a, run[i].b)
          || StepBy(run[i - 1].b, run[i - 1].a, ev, run[i].b, run[i].a)
    ensures run[i].a.over || run[i].b.over ==> ev.T200?
  {
    hide HalfOk;
    RunKeepsInv(run, i - 1);
    if StepBy(run[i - 1].a, run[i - 1].b, ev, run[i].a, run[i].b) {
      StepKeepsHalves(run[i - 1].a, run[i - 1].b, ev, run[i].a, run[i].b);
    } else {
      StepKeepsHalves(run[i - 1].b, run[i - 1].a, ev, run[i].b, run[i].a);
    }
  }

  /** While an epoch lasts, a message leaves the retransmission queue only after the peer has
      delivered it, and what is queued is exactly the rest of what was submitted. */
  lemma QueueIsUndelivered(run: seq<System>, i: nat)
    requires IsRun(run) && i < |run| && !run[i].a.over && !run[i].b.over
    ensures var a, b := run[i].a, run[i].b;
            && |a.e.queue| <= |a.sub| && |a.sub| - |a.e.queue| <= |b.dlv| <= |a.sub|
            && (forall j :: 0 <= j < |a.e.queue| ==> a.e.queue[j].data == a.sub[|a.sub| - |a.e.queue| + j])
            && |b.e.queue| <= |b.sub| && |b.sub| - |b.e.queue| <= |a.dlv| <= |b.sub|
            && (forall j :: 0 <= j < |b.e.queue| ==> b.e.queue[j].data == b.sub[|b.sub| - |b.e.queue| + j])
  {
    RunKeepsInv(run, i);
  }

  /** The runs are not empty talk: with both links up, a submitted payload can be delivered. */
  lemma DeliveryHappens(a: Endpoint, b: Endpoint, data: Payload) returns (run: seq<System>)
    requires a.k >= 1
    ensures IsRun(run) && run[|run| - 1].a.sub == [data] && run[|run| - 1].b.dlv == [data]
  {
    var a0, b0 := Side(Reset(a), [], [], [], false), Side(Reset(b), [], [], [], false);
    var a1, b1 := Apply(a0, ChannelUp(a0.e), []), Apply(b0, ChannelUp(b0.e), []);
    var a2 := Apply(a1, Transmit(a1.e, data), [data]);
    var f := IFrame(0, 0, false, data);
    assert a2.out == [Tag(f, 1, 0)];
    var b2 := Apply(b1, Receive(b1.e, f, []), []);
    var a3 := a2.(out := a2.out[1..]);
    run := [System(a0, b0), System(a1, b0), System(a1, b1), System(a2, b1), System(a3, b2)];
    assert StepBy(a0, b0, LinkUp, a1, b0) && Next(run[0], run[1]);
    assert StepBy(b0, a1, LinkUp, b1, a1) && Next(run[1], run[2]);
    assert StepBy(a1, b1, Submit(data), a2, b1) && Next(run[2], run[3]);
    assert StepBy(b1, a2, ReceiveFrame([]), b2, a3) && Next(run[3], run[4]);
  }
}
