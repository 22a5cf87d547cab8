/** One end of a Q.921 data link in multiple-frame operation (libpri/q921.c).

    `Endpoint` holds the fields of `struct pri` that the sliding window uses, and the
    functions below give what each entry point does to them: the next endpoint, the
    frames written to the D channel, the payloads handed to `q931_receive`, and whether
    the link was restarted. `Pri` in Q921Link.dfy is the mutable object proved against
    these functions.

    Timer handles are not part of the state: a T200 or T203 expiry may happen at any
    time. A queued frame keeps no N(R) or P bit because every path that writes a frame
    sets both just before writing it. */
module Q921Endpoint {

  type Payload = seq<int>


  datatype SupervisoryKind = ReceiverReady | ReceiverNotReady | Reject

  datatype Frame =
    | IFrame(ns: int, nr: int, poll: bool, data: Payload)
    | SFrame(kind: SupervisoryKind, nr: int, pf: bool, command: bool)

  datatype Queued = Queued(ns: int, transmitted: bool, data: Payload)

  datatype LinkState = Released | AwaitingEstablish | Established

  datatype Endpoint = Endpoint(
    state: LinkState,
    vs: int,           // next N(S); a plain int that is never reduced modulo 128
    va: int,           // last acknowledged frame
    vr: int,           // next frame expected
    vna: int,          // what the peer has been told is acknowledged
    window: int,
    windowlen: int,
    solicitfbit: bool,
    retrans: int,
    sentrej: bool,
    busy: bool,
    k: int,            // timers[PRI_TIMER_K]
    n200: int,         // timers[PRI_TIMER_N200]
    queue: seq<Queued>)

  datatype Out = Out(e: Endpoint, sent: seq<Frame>, delivered: seq<Payload>, restarted: bool)

  function Inc(x: int): (r: int)
  {
    (x + 1) % 128
  }

  predicate IsSeqNo(x: int) {
    0 <= x < 128
  }

  /** `q921_reset`: everything back to zero, the queue discarded. */
  function Reset(e: Endpoint): Endpoint
  {
    Endpoint(Released, 0, 0, 0, 0, e.k, 0, false, 0, false, false, e.k, e.n200, [])
  }

  /** `q921_dchannel_down` followed by `q921_start(pri, 1)`. */
  function Restart(e: Endpoint): Endpoint
  {
    Reset(e).(state := AwaitingEstablish)
  }

  // ------------------------------------------------------------------ acknowledging

  /** Position of the first queued frame numbered `num`, or |q|. */
  function FindNs(q: seq<Queued>, num: int): (i: nat)
    ensures i <= |q|
    ensures i < |q| ==> q[i].ns == num
    ensures forall j :: 0 <= j < i ==> q[j].ns != num
  {
    if |q| == 0 || q[0].ns == num then 0 else 1 + FindNs(q[1..], num)
  }

  /** `q921_ack_packet`: release the first queued frame numbered `num`, if any. */
  function AckPacket(e: Endpoint, num: int): Endpoint
  {
    var i := FindNs(e.queue, num);
    if i == |e.queue| then e
    else e.(queue := e.queue[..i] + e.queue[i + 1..], va := num, retrans := 0, windowlen := e.windowlen - 1)
  }

  /** The second loop of `q921_ack_rx`: acknowledge x, x+1, ... up to but not including `ack`. */
  function AckAll(e: Endpoint, x: int, ack: int): Endpoint
    requires IsSeqNo(x) && IsSeqNo(ack)
    decreases (ack - x) % 128
  {
    if x == ack then e else AckAll(AckPacket(e, x), Inc(x), ack)
  }

  /** The first loop of `q921_ack_rx`: where the walk from V(A) stops. */
  function WalkToAck(x: int, vs: int, ack: int): (r: int)
    requires IsSeqNo(x) && IsSeqNo(ack)
    ensures IsSeqNo(r)
    decreases (ack - x) % 128
  {
    if x == vs || x == ack then x else WalkToAck(Inc(x), vs, ack)
  }

  /** `q921_send_queued_iframes` from queue position `i` on. */
  function SendQueued(e: Endpoint, i: nat): (r: (Endpoint, seq<Frame>))
    requires i <= |e.queue|
    ensures |r.0.queue| == |e.queue|
    decreases |e.queue| - i
  {
    if i == |e.queue| || e.windowlen >= e.window then (e, [])
    else if e.queue[i].transmitted then SendQueued(e, i + 1)
    else
      var f := e.queue[i];
      var e' := e.(queue := e.queue[i := f.(transmitted := true)], windowlen := e.windowlen + 1);
      var rest := SendQueued(e', i + 1);
      (rest.0, [IFrame(f.ns, e.vr, false, f.data)] + rest.1)
  }

  /** The end of `q921_ack_rx`: send what the window now has room for. */
  function AfterAck(e: Endpoint, sendUntransmitted: bool): Out
  {
    if e.queue != [] && !e.busy && sendUntransmitted then
      var s := SendQueued(e.(retrans := 0), 0);
      Out(s.0, s.1, [], false)
    else
      Out(e, [], [], false)
  }

  /** `q921_ack_rx`. It writes no frame unless `sendUntransmitted`. */
  function AckRx(e: Endpoint, ack: int, sendUntransmitted: bool): Out
    requires IsSeqNo(e.va) && IsSeqNo(ack)
  {
    if WalkToAck(e.va, e.vs, ack) != ack then
      Out(Restart(e), [], [], true)
    else
      AfterAck(AckAll(e, e.va, ack), sendUntransmitted)
  }

  // ------------------------------------------------------------------ supervisory output

  /** `q921_rr`: the frame sent; V(NA) is moved up to V(R). */
  function Rr(e: Endpoint, pf: bool, command: bool): Frame
  {
    SFrame(ReceiverReady, e.vr, pf, command)
  }

  function NoteAcked(e: Endpoint): Endpoint
  {
    e.(vna := e.vr)
  }

  // ------------------------------------------------------------------ entry points

  /** `q921_transmit_iframe`. */
  function Transmit(e: Endpoint, data: Payload): Out
  {
    var now := e.state == Established && e.retrans == 0 && !e.busy && e.windowlen < e.window;
    var ns := e.vs % 128;
    var e' := e.(vs := e.vs + 1, vna := e.vr,
      windowlen := if now then e.windowlen + 1 else e.windowlen,
      queue := e.queue + [Queued(ns, now, data)]);
    Out(e', if now then [IFrame(ns, e.vr, false, data)] else [], [], false)
  }

  function TransmitAll(e: Endpoint, msgs: seq<Payload>): (r: Out)
    decreases |msgs|
  {
    if msgs == [] then Out(e, [], [], false)
    else
      var first := Transmit(e, msgs[0]);
      var rest := TransmitAll(first.e, msgs[1..]);
      Out(rest.e, first.sent + rest.sent, [], false)
  }

  /** Position of the last transmitted frame, or -1. */
  function LastTransmitted(q: seq<Queued>): (i: int)
    ensures -1 <= i < |q|
    ensures i >= 0 ==> q[i].transmitted
    ensures forall j :: i < j < |q| ==> !q[j].transmitted
  {
    if q == [] then -1
    else if q[|q| - 1].transmitted then |q| - 1
    else LastTransmitted(q[..|q| - 1])
  }

  /** `t200_expire`, non-BRI. */
  function T200Expire(e: Endpoint): Out
  {
    if e.queue != [] then
      var e1 := e.(solicitfbit := true);
      if e.retrans < e.n200 then
        var e2 := e1.(retrans := e1.retrans + 1);
        if e.busy then Out(NoteAcked(e2), [Rr(e2, true, true)], [], false)
        else
          var i := LastTransmitted(e.queue);
          if i < 0 then Out(e2, [], [], false)
          else Out(NoteAcked(e2), [IFrame(e.queue[i].ns, e.vr, true, e.queue[i].data)], [], false)
      else Out(Restart(e), [], [], true)
    else if e.solicitfbit then
      if e.retrans < e.n200 then
        Out(NoteAcked(e.(retrans := e.retrans + 1)), [Rr(e, true, true)], [], false)
      else Out(Restart(e), [], [], true)
    else Out(e, [], [], false)
  }

  /** `t203_expire`. */
  function T203Expire(e: Endpoint): Out
  {
    if e.state == Established then
      Out(NoteAcked(e.(solicitfbit := true, retrans := 0)), [Rr(e, true, true)], [], false)
    else Out(e, [], [], false)
  }

  /** `q921_dchannel_up`: no sequence variable is reset. */
  function ChannelUp(e: Endpoint): Out
  {
    var s := SendQueued(e.(sentrej := false, state := Established), 0);
    Out(s.0, s.1, [], false)
  }

  /** The rest of `q921_handle_iframe` once an in-sequence I-frame has been acknowledged. */
  function Deliver(e: Endpoint, f: Frame, replies: seq<Payload>): Out
    requires f.IFrame?
  {
    var ack := f.poll || e.busy || e.retrans != 0;
    var e1 := if ack then NoteAcked(e) else e;
    var s1 := if ack then [Rr(e, f.poll, false)] else [];
    var t := TransmitAll(e1, replies);
    if t.e.vna != t.e.vr then
      Out(NoteAcked(t.e), s1 + t.sent + [Rr(t.e, false, false)], [f.data], false)
    else
      Out(t.e, s1 + t.sent, [f.data], false)
  }

  /** `q921_handle_iframe`. `replies` are the messages Layer 3 queues from inside `q931_receive`. */
  function HandleIFrame(e: Endpoint, f: Frame, replies: seq<Payload>): Out
    requires f.IFrame? && IsSeqNo(f.nr) && IsSeqNo(e.va)
  {
    var e0 := e.(solicitfbit := false);
    if f.ns == e.vr then
      var a := AckRx(e0.(vr := Inc(e.vr), sentrej := false), f.nr, false);
      if a.restarted then a else Deliver(a.e, f, replies)
    else if !e.sentrej then
      Out(e0.(sentrej := true), [SFrame(Reject, e.vr, f.poll, false)], [], false)
    else if f.poll then
      Out(NoteAcked(e0), [Rr(e0, true, false)], [], false)
    else
      Out(e0, [], [], false)
  }

  /** The retransmission loop of the REJ case, from queue position `i` on. An unsent frame is
      counted in the window but is not marked as transmitted. */
  function ResendFrom(e: Endpoint, i: nat): (r: (Endpoint, seq<Frame>))
    requires i <= |e.queue|
    ensures r.0.queue == e.queue
    decreases |e.queue| - i
  {
    if i == |e.queue| then (e, [])
    else
      var f := e.queue[i];
      if f.transmitted || e.windowlen < e.window then
        var e' := if f.transmitted then e else e.(windowlen := e.windowlen + 1);
        var rest := ResendFrom(e', i + 1);
        (rest.0, [IFrame(f.ns, e.vr, false, f.data)] + rest.1)
      else ResendFrom(e, i + 1)
  }

  /** The RR case. */
  function HandleRr(e: Endpoint, f: Frame): Out
    requires f.SFrame? && IsSeqNo(f.nr) && IsSeqNo(e.va)
  {
    var a := AckRx(e.(busy := false), f.nr, true);
    if a.restarted then a
    else
      var e1 := if f.command then a.e.(solicitfbit := false) else a.e;
      if !f.pf then Out(e1, a.sent, [], false)
      else if !f.command then Out(e1.(retrans := 0), a.sent, [], false)
      else Out(NoteAcked(e1), a.sent + [Rr(e1, true, false)], [], false)
  }

  /** The RNR case. */
  function HandleRnr(e: Endpoint, f: Frame): Out
    requires f.SFrame? && IsSeqNo(f.nr) && IsSeqNo(e.va)
  {
    var a := AckRx(e.(busy := true), f.nr, false);
    if a.restarted then a
    else
      var respond := f.pf && f.command;
      var e1 := if respond then NoteAcked(a.e) else a.e;
      Out(e1.(solicitfbit := true, retrans := 0),
          a.sent + (if respond then [Rr(a.e, true, false)] else []), [], false)
  }

  /** The REJ case after `q921_ack_rx`: resend from N(R) on, if the state allows it. */
  function RejectRecovery(e: Endpoint, f: Frame): Out
    requires f.SFrame?
  {
    if !e.solicitfbit || (!f.command && f.pf) then
      var e1 := e.(solicitfbit := false, retrans := 0);
      var start := FindNs(e1.queue, f.nr);
      if start < |e1.queue| then
        var r := ResendFrom(e1, start);
        Out(r.0, r.1, [], false)
      else if e1.queue == [] then
        Out(e1.(va := f.nr, vs := f.nr), [], [], false)
      else
        Out(e1, [], [], false)
    else
      Out(e, [], [], false)
  }

  /** The REJ case before `q921_ack_rx`: the peer is ready again, and may be polling. */
  function RejectSeen(e: Endpoint, f: Frame): Out
    requires f.SFrame?
  {
    var e0 := e.(solicitfbit := if e.busy && !f.command then false else e.solicitfbit, busy := false);
    if f.command && f.pf then Out(NoteAcked(e0), [Rr(e0, true, false)], [], false) else Out(e0, [], [], false)
  }

  /** The REJ case. The event returned by `q921_ack_rx` is ignored. */
  function HandleRej(e: Endpoint, f: Frame): Out
    requires f.SFrame? && IsSeqNo(f.nr) && IsSeqNo(e.va)
  {
    var p := RejectSeen(e, f);
    var a := AckRx(p.e, f.nr, false);
    var r := RejectRecovery(a.e, f);
    Out(r.e, p.sent + r.sent, [], a.restarted)
  }

  /** `__q921_receive_qualified` for I and S frames. */
  function Receive(e: Endpoint, f: Frame, replies: seq<Payload>): Out
    requires IsSeqNo(f.nr) && IsSeqNo(e.va)
  {
    if e.state != Established then Out(e, [], [], false)
    else match f
      case IFrame(_, _, _, _) => HandleIFrame(e, f, replies)
      case SFrame(ReceiverReady, _, _, _) => HandleRr(e, f)
      case SFrame(ReceiverNotReady, _, _, _) => HandleRnr(e, f)
      case SFrame(Reject, _, _, _) => HandleRej(e, f)
  }
}
