/** The mutable link object of libpri/q921.c: the fields of `struct pri` that Q.921 uses, updated
    in place by loops over the retransmission queue, and proved against Q921Endpoint.

    `wire` is what has been passed to `write_func` and `layer3` what has been passed to
    `q931_receive`; both only grow. */
module Q921Link {
  import opened Q921Endpoint

  lemma Closer(x: int, ack: int)
    requires IsSeqNo(x) && IsSeqNo(ack) && x != ack
    ensures IsSeqNo(Inc(x)) && 0 <= (ack - Inc(x)) % 128 < (ack - x) % 128
  {
  }

  /** One step of the resending loop: what is written now and what is still to come. */
  lemma ResendStep(e: Endpoint, i: nat, w: seq<Frame>)
    requires i < |e.queue|
    ensures var f := e.queue[i];
            var sends := f.transmitted || e.windowlen < e.window;
            var d := if f.transmitted || !sends then e else e.(windowlen := e.windowlen + 1);
            && ResendFrom(e, i).0 == ResendFrom(d, i + 1).0
            && w + ResendFrom(e, i).1
                 == (if sends then w + [IFrame(f.ns, e.vr, false, f.data)] else w) + ResendFrom(d, i + 1).1
  {
  }

  lemma ResendEnd(e: Endpoint, i: nat)
    requires i == |e.queue|
    ensures ResendFrom(e, i) == (e, [])
  {
  }

  /** One message of several. */
  lemma TransmitStep(e: Endpoint, msgs: seq<Payload>, i: nat, w: seq<Frame>)
    requires i < |msgs|
    ensures var first := Transmit(e, msgs[i]);
            var rest := TransmitAll(first.e, msgs[i + 1..]);
            && first.delivered == []
            && TransmitAll(e, msgs[i..]).e == rest.e
            && w + TransmitAll(e, msgs[i..]).sent == w + first.sent + rest.sent
  {
    assert msgs[i..][0] == msgs[i] && msgs[i..][1..] == msgs[i + 1..];
  }

  lemma TransmitEnd(e: Endpoint, msgs: seq<Payload>, i: nat)
    requires i == |msgs|
    ensures TransmitAll(e, msgs[i..]) == Out(e, [], [], false)
  {
  }

  lemma TransmitAllHandsUpNothing(e: Endpoint, msgs: seq<Payload>)
    ensures TransmitAll(e, msgs).delivered == []
  {
  }

  class Pri {
    var state: LinkState
    var vs: int
    var va: int
    var vr: int
    var vna: int
    var window: int
    var windowlen: int
    var solicitfbit: bool
    var retrans: int
    var sentrej: bool
    var busy: bool
    var txqueue: seq<Queued>
    var wire: seq<Frame>
    var layer3: seq<Payload>
    const k: int
    const n200: int

    ghost function View(): Endpoint
      reads this
    {
      Endpoint(state, vs, va, vr, vna, window, windowlen, solicitfbit, retrans, sentrej, busy, k, n200, txqueue)
    }

    /** The object went from `e` with `w` and `l` sent upwards and outwards to the outcome `o`. */
    ghost predicate Became(o: Out, w: seq<Frame>, l: seq<Payload>)
      reads this
    {
      View() == o.e && wire == w + o.sent && layer3 == l + o.delivered
    }

    constructor (k: int, n200: int)
      ensures this.k == k && this.n200 == n200
      ensures View() == Reset(View()) && wire == [] && layer3 == []
    {
      this.k := k;
      this.n200 := n200;
      state := Released;
      vs, va, vr, vna := 0, 0, 0, 0;
      window, windowlen, retrans := k, 0, 0;
      solicitfbit, sentrej, busy := false, false, false;
      txqueue, wire, layer3 := [], [], [];
    }

    /** The sequence variables in `q921_reset`. */
    method ClearNumbers()
      modifies this`vs, this`va, this`vr, this`vna
      ensures vs == 0 && va == 0 && vr == 0 && vna == 0
    {
      vs, va, vr, vna := 0, 0, 0, 0;
    }

    /** The flags and timers in `q921_reset`. */
    method ClearFlags()
      modifies this`solicitfbit, this`retrans, this`sentrej, this`busy
      ensures !solicitfbit && retrans == 0 && !sentrej && !busy
    {
      solicitfbit, retrans, sentrej, busy := false, 0, false, false;
    }

    /** `q921_reset`. */
    method ResetLink()
      modifies this
      ensures View() == Reset(old(View())) && wire == old(wire) && layer3 == old(layer3)
    {
      state := Released;
      ClearNumbers();
      window, windowlen := k, 0;
      ClearFlags();
      txqueue := [];
    }

    /** `q921_dchannel_down` and `q921_start`: `q921_reset`, then waiting for the peer's UA. */
    method RestartLink()
      modifies this
      ensures View() == Restart(old(View())) && wire == old(wire) && layer3 == old(layer3)
    {
      ResetLink();
      state := AwaitingEstablish;
    }

    /** `q921_ack_packet`. */
    method AckOne(num: int) returns (found: bool)
      modifies this
      ensures View() == AckPacket(old(View()), num) && wire == old(wire) && layer3 == old(layer3)
      ensures found <==> exists i :: 0 <= i < |old(txqueue)| && old(txqueue)[i].ns == num
    {
      var i := 0;
      while i < |txqueue|
        invariant 0 <= i <= |txqueue|
        invariant forall j :: 0 <= j < i ==> txqueue[j].ns != num
        invariant View() == old(View()) && wire == old(wire) && layer3 == old(layer3)
      {
        if txqueue[i].ns == num {
          assert i == FindNs(txqueue, num);
          txqueue := txqueue[..i] + txqueue[i + 1..];
          va := num;
          retrans := 0;
          windowlen := windowlen - 1;
          return true;
        }
        i := i + 1;
      }
      return false;
    }

    /** `q921_send_queued_iframes`. */
    method SendQueuedFrames()
      modifies this
      ensures Became(Out(SendQueued(old(View()), 0).0, SendQueued(old(View()), 0).1, [], false), old(wire), old(layer3))
    {
      ghost var goal := SendQueued(View(), 0);
      var i := 0;
      ghost var sent := [];
      while i < |txqueue| && windowlen < window
        invariant 0 <= i <= |txqueue|
        invariant SendQueued(View(), i).0 == goal.0 && sent + SendQueued(View(), i).1 == goal.1
        invariant wire == old(wire) + sent && layer3 == old(layer3)
        decreases |txqueue| - i
      {
        var f := txqueue[i];
        if !f.transmitted {
          txqueue := txqueue[i := f.(transmitted := true)];
          windowlen := windowlen + 1;
          wire := wire + [IFrame(f.ns, vr, false, f.data)];
          sent := sent + [IFrame(f.ns, vr, false, f.data)];
        }
        i := i + 1;
      }
    }

    /** The acknowledging walk of `q921_ack_rx`. */
    method AckUpTo(ack: int)
      requires IsSeqNo(va) && IsSeqNo(ack)
      modifies this
      ensures View() == AckAll(old(View()), old(va), ack) && wire == old(wire) && layer3 == old(layer3)
    {
      hide AckPacket, FindNs;
      ghost var goal := AckAll(View(), va, ack);
      ghost var e := View();
      var x := va;
      while x != ack
        invariant IsSeqNo(x) && View() == e && AckAll(e, x, ack) == goal
        invariant wire == old(wire) && layer3 == old(layer3)
        decreases (ack - x) % 128
      {
        Closer(x, ack);
        var found := AckOne(x);
        e := AckPacket(e, x);
        x := Inc(x);
      }
    }

    /** `q921_ack_rx`: the window walk, the acknowledging walk, then what the window has room for. */
    method AckReceived(ack: int, sendUntransmitted: bool) returns (restarted: bool)
      requires IsSeqNo(va) && IsSeqNo(ack)
      modifies this
      ensures var o := AckRx(old(View()), ack, sendUntransmitted);
              Became(o, old(wire), old(layer3)) && restarted == o.restarted
    {
      ghost var e0 := View();
      var x := va;
      while x != vs && x != ack
        invariant IsSeqNo(x) && WalkToAck(x, vs, ack) == WalkToAck(e0.va, e0.vs, ack)
        decreases (ack - x) % 128
      {
        x := (x + 1) % 128;
      }
      if x != ack {
        RestartLink();
        return true;
      }
      AckUpTo(ack);
      assert AckRx(e0, ack, sendUntransmitted) == AfterAck(View(), sendUntransmitted);
      if txqueue != [] && !busy && sendUntransmitted {
        ghost var e1 := View();
        retrans := 0;
        assert View() == e1.(retrans := 0);
        SendQueuedFrames();
      }
      return false;
    }

    /** `q921_rr`. */
    method SendRr(pf: bool, command: bool)
      modifies this`vna, this`wire
      ensures View() == NoteAcked(old(View())) && wire == old(wire) + [Rr(old(View()), pf, command)]
    {
      vna := vr;
      wire := wire + [SFrame(ReceiverReady, vr, pf, command)];
    }

    /** `q921_transmit_iframe`. */
    method TransmitIFrame(data: Payload)
      modifies this
      ensures Became(Transmit(old(View()), data), old(wire), old(layer3))
    {
      var f := Queued(vs % 128, false, data);
      vs := vs + 1;
      vna := vr;
      if state == Established && retrans == 0 && !busy && windowlen < window {
        windowlen := windowlen + 1;
        wire := wire + [IFrame(f.ns, vr, false, data)];
        f := f.(transmitted := true);
      }
      txqueue := txqueue + [f];
    }

    method TransmitEach(msgs: seq<Payload>)
      modifies this
      ensures Became(TransmitAll(old(View()), msgs), old(wire), old(layer3))
    {
      hide TransmitAll, Transmit;
      ghost var goal := TransmitAll(View(), msgs);
      ghost var before := wire;
      var i := 0;
      assert msgs[0..] == msgs;
      while i < |msgs|
        invariant 0 <= i <= |msgs| && layer3 == old(layer3)
        invariant TransmitAll(View(), msgs[i..]).e == goal.e
        invariant wire + TransmitAll(View(), msgs[i..]).sent == before + goal.sent
      {
        TransmitStep(View(), msgs, i, wire);
        TransmitIFrame(msgs[i]);
        i := i + 1;
      }
      TransmitEnd(View(), msgs, i);
      TransmitAllHandsUpNothing(old(View()), msgs);
    }

    /** `t200_expire`. */
    method OnT200() returns (restarted: bool)
      modifies this
      ensures var o := T200Expire(old(View()));
              Became(o, old(wire), old(layer3)) && restarted == o.restarted
    {
      restarted := false;
      if txqueue != [] {
        if retrans < n200 {
          solicitfbit := true;
          retrans := retrans + 1;
          if busy {
            SendRr(true, true);
          } else {
            var last := -1;
            var i := 0;
            while i < |txqueue|
              invariant 0 <= i <= |txqueue| && last == LastTransmitted(txqueue[..i])
            {
              assert txqueue[..i + 1][..i] == txqueue[..i];
              if txqueue[i].transmitted { last := i; }
              i := i + 1;
            }
            assert txqueue[..i] == txqueue;
            if last >= 0 {
              vna := vr;
              wire := wire + [IFrame(txqueue[last].ns, vr, true, txqueue[last].data)];
            }
          }
        } else {
          RestartLink();
          restarted := true;
        }
      } else if solicitfbit {
        if retrans < n200 {
          retrans := retrans + 1;
          SendRr(true, true);
        } else {
          RestartLink();
          restarted := true;
        }
      }
    }

    /** `t203_expire`. */
    method OnT203()
      modifies this
      ensures Became(T203Expire(old(View())), old(wire), old(layer3))
    {
      if state == Established {
        solicitfbit := true;
        retrans := 0;
        SendRr(true, true);
      }
    }

    /** `q921_dchannel_up`. */
    method OnChannelUp()
      modifies this
      ensures Became(ChannelUp(old(View())), old(wire), old(layer3))
    {
      sentrej := false;
      state := Established;
      SendQueuedFrames();
    }

    /** The RR owed at once for a P bit, a busy peer or a recovery. */
    method AnswerNow(f: Frame)
      requires f.IFrame?
      modifies this`vna, this`wire
      ensures var e := old(View());
              var ack := f.poll || e.busy || e.retrans != 0;
              && View() == (if ack then NoteAcked(e) else e)
              && wire == old(wire) + (if ack then [Rr(e, f.poll, false)] else [])
    {
      if f.poll {
        SendRr(true, false);
      } else if busy || retrans != 0 {
        SendRr(false, false);
      }
    }

    /** The end of `q921_handle_iframe`: answer, hand the payload to Layer 3, answer again if needed. */
    method PassUp(f: Frame, replies: seq<Payload>)
      requires f.IFrame?
      modifies this
      ensures Became(Deliver(old(View()), f, replies), old(wire), old(layer3))
    {
      AnswerNow(f);
      ghost var e1 := View();
      layer3 := layer3 + [f.data];
      assert View() == e1;
      TransmitEach(replies);
      if vna != vr {
        SendRr(false, false);
      }
    }

    /** `q921_handle_iframe`, with the messages Layer 3 queues while it is called. */
    method OnIFrame(f: Frame, replies: seq<Payload>) returns (restarted: bool)
      requires f.IFrame? && IsSeqNo(f.nr) && IsSeqNo(va)
      modifies this
      ensures var o := HandleIFrame(old(View()), f, replies);
              Became(o, old(wire), old(layer3)) && restarted == o.restarted
    {
      hide AckAll, WalkToAck, TransmitAll;
      ghost var e0 := View();
      restarted := false;
      solicitfbit := false;
      if f.ns == vr {
        vr := (vr + 1) % 128;
        sentrej := false;
        assert View() == e0.(solicitfbit := false).(vr := Inc(e0.vr), sentrej := false);
        restarted := AckReceived(f.nr, false);
        if restarted { return; }
        PassUp(f, replies);
      } else if !sentrej {
        assert View() == e0.(solicitfbit := false);
        sentrej := true;
        wire := wire + [SFrame(Reject, vr, f.poll, false)];
      } else if f.poll {
        assert View() == e0.(solicitfbit := false);
        SendRr(true, false);
      }
    }

    /** The RR case of `__q921_receive_qualified`. */
    method OnRr(f: Frame) returns (restarted: bool)
      requires f.SFrame? && IsSeqNo(f.nr) && IsSeqNo(va)
      modifies this
      ensures var o := HandleRr(old(View()), f);
              Became(o, old(wire), old(layer3)) && restarted == o.restarted
    {
      hide AckAll, WalkToAck;
      busy := false;
      restarted := AckReceived(f.nr, true);
      if restarted { return; }
      if f.command { solicitfbit := false; }
      if f.pf {
        if !f.command { retrans := 0; } else { SendRr(true, false); }
      }
    }

    /** The RNR case. */
    method OnRnr(f: Frame) returns (restarted: bool)
      requires f.SFrame? && IsSeqNo(f.nr) && IsSeqNo(va)
      modifies this
      ensures var o := HandleRnr(old(View()), f);
              Became(o, old(wire), old(layer3)) && restarted == o.restarted
    {
      hide AckAll, WalkToAck;
      busy := true;
      restarted := AckReceived(f.nr, false);
      if restarted { return; }
      if f.pf && f.command { SendRr(true, false); }
      solicitfbit := true;
      retrans := 0;
    }

    /** The search for N(R) in the REJ case. */
    method FindNr(nr: int) returns (i: nat)
      ensures i == FindNs(txqueue, nr)
    {
      i := 0;
      while i < |txqueue| && txqueue[i].ns != nr
        invariant 0 <= i <= |txqueue|
        invariant forall j :: 0 <= j < i ==> txqueue[j].ns != nr
      {
        i := i + 1;
      }
      assert i == FindNs(txqueue, nr);
    }

    /** The resending loop of the REJ case. */
    method ResendFromIndex(start: nat)
      requires start <= |txqueue|
      modifies this`windowlen, this`wire
      ensures View() == ResendFrom(old(View()), start).0
      ensures wire == old(wire) + ResendFrom(old(View()), start).1
    {
      hide ResendFrom;
      ghost var goal := ResendFrom(View(), start);
      ghost var before := wire;
      var i := start;
      while i < |txqueue|
        invariant start <= i <= |txqueue|
        invariant ResendFrom(View(), i).0 == goal.0 && wire + ResendFrom(View(), i).1 == before + goal.1
      {
        ResendStep(View(), i, wire);
        var f := txqueue[i];
        if f.transmitted || windowlen < window {
          if !f.transmitted { windowlen := windowlen + 1; }
          wire := wire + [IFrame(f.ns, vr, false, f.data)];
        }
        i := i + 1;
      }
      ResendEnd(View(), i);
    }

    /** The REJ case after `q921_ack_rx`. */
    method Recover(f: Frame)
      requires f.SFrame?
      modifies this
      ensures Became(RejectRecovery(old(View()), f), old(wire), old(layer3))
    {
      ghost var e := View();
      if !solicitfbit || (!f.command && f.pf) {
        solicitfbit := false;
        retrans := 0;
        assert View() == e.(solicitfbit := false, retrans := 0);
        var start := FindNr(f.nr);
        ResendFromIndex(start);
        if start == |txqueue| == 0 {
          va := f.nr;
          vs := f.nr;
        }
      }
    }

    /** The REJ case before `q921_ack_rx`: the peer is ready again, and may be polling. */
    method NoteReject(f: Frame)
      requires f.SFrame?
      modifies this
      ensures Became(RejectSeen(old(View()), f), old(wire), old(layer3))
    {
      if busy && !f.command { solicitfbit := false; }
      busy := false;
      if f.command && f.pf { SendRr(true, false); }
    }

    /** The REJ case. */
    method OnReject(f: Frame) returns (restarted: bool)
      requires f.SFrame? && IsSeqNo(f.nr) && IsSeqNo(va)
      modifies this
      ensures var o := HandleRej(old(View()), f);
              Became(o, old(wire), old(layer3)) && restarted == o.restarted
    {
      NoteReject(f);
      restarted := AckReceived(f.nr, false);
      Recover(f);
    }

    /** `__q921_receive_qualified` for I and S frames. */
    method OnFrame(f: Frame, replies: seq<Payload>) returns (restarted: bool)
      requires IsSeqNo(f.nr) && IsSeqNo(va)
      modifies this
      ensures var o := Receive(old(View()), f, replies);
              Became(o, old(wire), old(layer3)) && restarted == o.restarted
    {
      restarted := false;
      if state == Established {
        match f {
          case IFrame(_, _, _, _) => restarted := OnIFrame(f, replies);
          case SFrame(ReceiverReady, _, _, _) => restarted := OnRr(f);
          case SFrame(ReceiverNotReady, _, _, _) => restarted := OnRnr(f);
          case SFrame(Reject, _, _, _) => restarted := OnReject(f);
        }
      }
    }
  }
}
