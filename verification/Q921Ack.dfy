/** Acknowledgement processing of Q.921 (`q921_ack_rx`, `q921_ack_packet`): on an honest
    N(R) the two walks modulo 128 amount to dropping a prefix of the queue. */
module Q921Ack {
  import opened Q921Endpoint

  /** The queue is a run of consecutive numbers modulo 128 that ends just below V(S). */
  ghost predicate ConsecutiveRun(e: Endpoint) {
    && e.vs >= 0
    && forall i :: 0 <= i < |e.queue| ==> e.queue[i].ns == (e.vs - |e.queue| + i) % 128
  }

  /** V(A) is the number of the queue's first frame, or lags it by one once a frame has been released. */
  ghost predicate VaNearHead(e: Endpoint) {
    var head := e.vs - |e.queue|;
    head >= 0 && (e.va == head % 128 || (head >= 1 && e.va == (head - 1) % 128))
  }

  /** How many of `n` acknowledged frames `q921_ack_rx` releases: none if 127 are queued, V(A) lags, and
      all are acknowledged, as N(R) then equals V(A). */
  function TakenOff(e: Endpoint, n: nat): (r: nat)
    ensures r <= n
  {
    if |e.queue| == n == 127 && e.va == e.vs % 128 then 0 else n
  }

  /** What Q.921 asks of an acknowledgement of the first `n` queued frames. */
  function DropBelow(e: Endpoint, n: nat): Endpoint
    requires n <= |e.queue|
  {
    if n == 0 then e
    else e.(queue := e.queue[n..],
            va := (e.vs - |e.queue| + n - 1) % 128,
            retrans := 0,
            windowlen := e.windowlen - n)
  }

  lemma ModMultiple(x: int, k: int)
    ensures (x + 128 * k) % 128 == x % 128
  {
  }

  lemma ModSum(a: int, b: int)
    requires a % 128 == 0 && b % 128 == 0
    ensures (a + b) % 128 == 0
  {
  }

  lemma ModShift(a: int, b: int)
    requires 0 <= b - a < 128
    ensures (b % 128 - a % 128) % 128 == b - a
  {
    var k := a / 128 - b / 128;
    assert b % 128 - a % 128 == b - a + 128 * k;
    ModMultiple(b - a, k);
  }

  lemma IncMod(a: int)
    ensures Inc(a % 128) == (a + 1) % 128
  {
  }

  lemma ModDistinct(a: int, b: int)
    requires 0 < b - a < 128
    ensures a % 128 != b % 128
  {
  }

  lemma FindHead(e: Endpoint)
    requires ConsecutiveRun(e) && e.queue != []
    ensures FindNs(e.queue, (e.vs - |e.queue|) % 128) == 0
  {
    assert e.queue[0].ns == (e.vs - |e.queue|) % 128;
  }

  lemma {:induction false} FindNone(q: seq<Queued>, num: int)
    requires forall i :: 0 <= i < |q| ==> q[i].ns != num
    ensures FindNs(q, num) == |q|
  {
    if q != [] {
      assert q[0].ns != num;
      FindNone(q[1..], num);
    }
  }

  lemma FindLagged(e: Endpoint)
    requires ConsecutiveRun(e) && |e.queue| < 128
    ensures FindNs(e.queue, (e.vs - |e.queue| - 1) % 128) == |e.queue|
  {
    var h := e.vs - |e.queue|;
    forall i | 0 <= i < |e.queue| ensures e.queue[i].ns != (h - 1) % 128 {
      ModDistinct(h - 1, h + i);
    }
    FindNone(e.queue, (h - 1) % 128);
  }

  lemma AckHead(e: Endpoint)
    requires ConsecutiveRun(e) && e.queue != []
    ensures var h := e.vs - |e.queue|;
            var d := DropBelow(e, 1);
            && AckPacket(e, h % 128) == d
            && ConsecutiveRun(d) && |d.queue| == |e.queue| - 1 && d.vs == e.vs
  {
    hide ConsecutiveRun, FindNs;
    FindHead(e);
    DropOneKeepsRun(e);
    var h := e.vs - |e.queue|;
    assert h + 1 - 1 == h;
    assert e.queue[..0] + e.queue[1..] == e.queue[1..];
    assert AckPacket(e, h % 128)
        == e.(queue := e.queue[1..], va := h % 128, retrans := 0, windowlen := e.windowlen - 1);
  }

  lemma DropOneKeepsRun(e: Endpoint)
    requires ConsecutiveRun(e) && e.queue != []
    ensures ConsecutiveRun(DropBelow(e, 1)) && |DropBelow(e, 1).queue| == |e.queue| - 1 && DropBelow(e, 1).vs == e.vs
  {
    var d := DropBelow(e, 1);
    forall i | 0 <= i < |d.queue| ensures d.queue[i].ns == (d.vs - |d.queue| + i) % 128 {
      assert d.queue[i] == e.queue[i + 1];
    }
  }

  lemma DropDrop(e: Endpoint, n: nat)
    requires 0 < n <= |e.queue|
    ensures DropBelow(DropBelow(e, 1), n - 1) == DropBelow(e, n)
  {
    if n > 1 {
      assert e.queue[1..][n - 1..] == e.queue[n..];
    }
  }

  /** `AckAll` by number of steps. */
  function AckSteps(e: Endpoint, x: int, steps: nat): Endpoint
    decreases steps
  {
    if steps == 0 then e else AckSteps(AckPacket(e, x), Inc(x), steps - 1)
  }

  lemma IncDistance(x: int, ack: int)
    requires IsSeqNo(x) && IsSeqNo(ack) && x != ack
    ensures IsSeqNo(Inc(x)) && (ack - x) % 128 >= 1 && (ack - Inc(x)) % 128 == (ack - x) % 128 - 1
  {
  }

  lemma {:induction false} AckAllBySteps(e: Endpoint, x: int, ack: int)
    requires IsSeqNo(x) && IsSeqNo(ack)
    ensures AckAll(e, x, ack) == AckSteps(e, x, (ack - x) % 128)
    decreases (ack - x) % 128
  {
    if x != ack {
      IncDistance(x, ack);
      AckAllBySteps(AckPacket(e, x), Inc(x), ack);
    }
  }

  /** Walking `n` steps from the head acknowledges exactly the first `n` frames. */
  lemma {:induction false} StepsFromHead(e: Endpoint, h: int, n: nat)
    requires ConsecutiveRun(e) && h == e.vs - |e.queue| && n <= |e.queue|
    ensures AckSteps(e, h % 128, n) == DropBelow(e, n)
    decreases n
  {
    hide FindNs, AckPacket, ConsecutiveRun;
    if n > 0 {
      AckHead(e);
      IncMod(h);
      StepsFromHead(DropBelow(e, 1), h + 1, n - 1);
      DropDrop(e, n);
    }
  }

  /** The first of `n + 1` steps, from one behind the head, finds nothing. */
  lemma StepsFromLagged(e: Endpoint, h: int, n: nat)
    requires ConsecutiveRun(e) && h == e.vs - |e.queue| && n <= |e.queue| < 128
    ensures AckSteps(e, (h - 1) % 128, n + 1) == DropBelow(e, n)
  {
    hide FindNs, ConsecutiveRun, DropBelow;
    FindLagged(e);
    IncMod(h - 1);
    StepsFromHead(e, h, n);
  }

  lemma AckAllIs(e: Endpoint, x: int, ack: int, n: nat, r: Endpoint)
    requires IsSeqNo(x) && IsSeqNo(ack) && (ack - x) % 128 == n && AckSteps(e, x, n) == r
    ensures AckAll(e, x, ack) == r
  {
    hide AckAll, AckSteps, DropBelow, ConsecutiveRun;
    AckAllBySteps(e, x, ack);
  }

  lemma AckFromHead(e: Endpoint, n: nat)
    requires ConsecutiveRun(e) && n <= |e.queue| < 128
    ensures var h := e.vs - |e.queue|;
            AckAll(e, h % 128, (h + n) % 128) == DropBelow(e, n)
  {
    hide AckAll, AckSteps, DropBelow, ConsecutiveRun;
    var h := e.vs - |e.queue|;
    ModShift(h, h + n);
    StepsFromHead(e, h, n);
    AckAllIs(e, h % 128, (h + n) % 128, n, DropBelow(e, n));
  }

  lemma AckFromLagged(e: Endpoint, n: nat)
    requires ConsecutiveRun(e) && n <= |e.queue| < 128 && n < 127
    ensures var h := e.vs - |e.queue|;
            AckAll(e, (h - 1) % 128, (h + n) % 128) == DropBelow(e, n)
  {
    hide AckAll, AckSteps, DropBelow, ConsecutiveRun;
    var h := e.vs - |e.queue|;
    ModShift(h - 1, h + n);
    StepsFromLagged(e, h, n);
    AckAllIs(e, (h - 1) % 128, (h + n) % 128, n + 1, DropBelow(e, n));
  }

  lemma {:induction false} WalkReaches(x: int, vs: int, ack: int)
    requires IsSeqNo(x) && IsSeqNo(ack)
    requires vs >= 128 || (0 <= vs && (ack - x) % 128 <= (vs - x) % 128)
    ensures WalkToAck(x, vs, ack) == ack
    decreases (ack - x) % 128
  {
    if x != vs && x != ack {
      WalkReaches(Inc(x), vs, ack);
    }
  }

  /** An honest N(R) lies inside the window test of `q921_ack_rx`, whether V(S) has passed 127 or not. */
  lemma HonestInWindow(e: Endpoint, n: nat)
    requires ConsecutiveRun(e) && VaNearHead(e) && n <= |e.queue| <= 127
    ensures var ack := (e.vs - |e.queue| + n) % 128;
            IsSeqNo(e.va) && WalkToAck(e.va, e.vs, ack) == ack
  {
    var h := e.vs - |e.queue|;
    var ack := (h + n) % 128;
    if e.vs < 128 {
      var base := if e.va == h % 128 then h else h - 1;
      ModShift(base, h + n);
      ModShift(base, e.vs);
      assert e.vs % 128 == e.vs;
    }
    WalkReaches(e.va, e.vs, ack);
  }

  lemma LostAck(e: Endpoint)
    requires ConsecutiveRun(e) && |e.queue| == 127 && e.va == (e.vs - 128) % 128
    ensures AckAll(e, e.va, e.vs % 128) == e
  {
    ModMultiple(e.vs, -1);
  }

  /** From a V(A) that is the head or lags it by one, the walk drops exactly `n` frames (none in the one
      case of `TakenOff`). */
  lemma AckAllDropsBelow(e: Endpoint, n: nat)
    requires ConsecutiveRun(e) && VaNearHead(e) && n <= |e.queue| <= 127
    ensures var ack := (e.vs - |e.queue| + n) % 128;
            AckAll(e, e.va, ack) == DropBelow(e, TakenOff(e, n))
  {
    hide AckAll, DropBelow, ConsecutiveRun;
    var h := e.vs - |e.queue|;
    ModMultiple(e.vs, -1);
    if e.va == h % 128 {
      if n == 127 { ModDistinct(e.vs - 128, h); }
      AckFromHead(e, n);
    } else if n < 127 {
      AckFromLagged(e, n);
    } else {
      LostAck(e);
      DropNone(e);
    }
  }

  lemma DropNone(e: Endpoint)
    ensures DropBelow(e, 0) == e
  {
  }

  /** Same numbers and contents in the same order; `transmitted` may only be switched on. */
  ghost predicate SameFrames(q: seq<Queued>, p: seq<Queued>) {
    && |q| == |p|
    && forall i :: 0 <= i < |q| ==>
        q[i].ns == p[i].ns && q[i].data == p[i].data && (p[i].transmitted ==> q[i].transmitted)
  }

  lemma {:induction false} SendQueuedKeeps(e: Endpoint, i: nat)
    requires i <= |e.queue|
    ensures var r := SendQueued(e, i);
            && SameFrames(r.0.queue, e.queue)
            && r.0 == e.(queue := r.0.queue, windowlen := r.0.windowlen)
    decreases |e.queue| - i
  {
    if i == |e.queue| || e.windowlen >= e.window {
    } else if e.queue[i].transmitted {
      SendQueuedKeeps(e, i + 1);
    } else {
      var f := e.queue[i];
      SendQueuedKeeps(e.(queue := e.queue[i := f.(transmitted := true)], windowlen := e.windowlen + 1), i + 1);
    }
  }

  lemma DropKeepsRun(e: Endpoint, n: nat)
    requires ConsecutiveRun(e) && VaNearHead(e) && n <= |e.queue|
    ensures ConsecutiveRun(DropBelow(e, n)) && VaNearHead(DropBelow(e, n))
    ensures DropBelow(e, n).queue == e.queue[n..]
  {
    if n == 0 { assert e.queue[n..] == e.queue; }
  }

  lemma SameFramesKeepRun(e: Endpoint, d: Endpoint)
    requires ConsecutiveRun(d) && VaNearHead(d)
    requires SameFrames(e.queue, d.queue) && e.vs == d.vs && e.va == d.va
    ensures ConsecutiveRun(e) && VaNearHead(e)
  {
  }

  lemma AckRxIs(e: Endpoint, n: nat, sendUntransmitted: bool)
    requires ConsecutiveRun(e) && VaNearHead(e) && n <= |e.queue| <= 127
    ensures IsSeqNo(e.va)
    ensures AckRx(e, (e.vs - |e.queue| + n) % 128, sendUntransmitted)
         == AfterAck(DropBelow(e, TakenOff(e, n)), sendUntransmitted)
  {
    HonestInWindow(e, n);
    AckAllDropsBelow(e, n);
  }

  /** `q921_ack_rx` on an honest N(R) never restarts the link, frees exactly the `n` frames
      before N(R), keeps the others in order, and leaves a run ending at V(S)-1 again with V(A)
      at most one behind. Only `transmitted` marks may change on the frames that are kept. */
  lemma AckRxDropsBelow(e: Endpoint, n: nat, sendUntransmitted: bool)
    requires ConsecutiveRun(e) && VaNearHead(e) && |e.queue| <= 126 && n <= |e.queue|
    ensures IsSeqNo(e.va)
    ensures var o := AckRx(e, (e.vs - |e.queue| + n) % 128, sendUntransmitted);
            && !o.restarted && o.delivered == []
            && SameFrames(o.e.queue, e.queue[n..])
            && (n > 0 ==> o.e.va == (e.vs - |e.queue| + n - 1) % 128)
            && o.e.vs == e.vs && o.e.vr == e.vr && o.e.state == e.state
            && ConsecutiveRun(o.e) && VaNearHead(o.e)
            && (!sendUntransmitted || e.busy ==> o.e == DropBelow(e, n) && o.sent == [])
  {
    AckRxIs(e, n, sendUntransmitted);
    DropKeepsRun(e, n);
    var e1 := DropBelow(e, n);
    if e1.queue != [] && !e1.busy && sendUntransmitted {
      SendQueuedKeeps(e1.(retrans := 0), 0);
      SameFramesKeepRun(SendQueued(e1.(retrans := 0), 0).0, e1);
    }
  }

  /** With at most 127 frames queued, an honest acknowledgement takes effect exactly when the queue is
      shorter than 127, or V(A) is not lagging, or not all 127 are acknowledged. */
  lemma AckTakesEffectIff(e: Endpoint, n: nat, sendUntransmitted: bool)
    requires ConsecutiveRun(e) && VaNearHead(e) && 0 < n <= |e.queue| <= 127
    ensures IsSeqNo(e.va)
    ensures var o := AckRx(e, (e.vs - |e.queue| + n) % 128, sendUntransmitted);
            && (SameFrames(o.e.queue, e.queue[n..]) <==> (|e.queue| < 127 || e.va != e.vs % 128 || n < 127))
            && (!SameFrames(o.e.queue, e.queue[n..]) ==> SameFrames(o.e.queue, e.queue))
            && !o.restarted
  {
    AckRxIs(e, n, sendUntransmitted);
    var e1 := DropBelow(e, TakenOff(e, n));
    SendQueuedKeeps(e1.(retrans := 0), 0);
  }

  // ------------------------------------------------------------------ one frame more

  lemma PacketIgnoresVs(e: Endpoint, v: int, x: int)
    ensures AckPacket(e.(vs := v), x) == AckPacket(e, x).(vs := v)
  {
  }

  lemma {:induction false} StepsIgnoreVs(e: Endpoint, v: int, x: int, steps: nat)
    ensures AckSteps(e.(vs := v), x, steps) == AckSteps(e, x, steps).(vs := v)
    decreases steps
  {
    hide AckPacket, FindNs;
    if steps > 0 {
      PacketIgnoresVs(e, v, x);
      StepsIgnoreVs(AckPacket(e, x), v, Inc(x), steps - 1);
    }
  }

  lemma FindLast(e: Endpoint)
    requires ConsecutiveRun(e) && |e.queue| == 128
    ensures FindNs(e.queue, (e.vs - 129) % 128) == 127
  {
    ModMultiple(e.vs - 1, -1);
    var num := (e.vs - 129) % 128;
    assert e.queue[127].ns == num;
    forall i | 0 <= i < 127 ensures e.queue[i].ns != num {
      ModDistinct(e.vs - 128 + i, e.vs - 1);
    }
    var k := FindNs(e.queue, num);
    assert k == 127;
  }

  /** The first step of the walk from a lagging V(A) takes the last of 128 frames off. */
  lemma LastIsTaken(e: Endpoint)
    requires ConsecutiveRun(e) && |e.queue| == 128 <= e.vs
    ensures var x := (e.vs - 129) % 128;
            var d := e.(queue := e.queue[..127], va := x, retrans := 0, windowlen := e.windowlen - 1);
            AckPacket(e, x) == d && ConsecutiveRun(d.(vs := e.vs - 1))
  {
    hide FindNs;
    FindLast(e);
    assert e.queue[..127] + e.queue[128..] == e.queue[..127];
    forall i | 0 <= i < 127 ensures e.queue[..127][i].ns == (e.vs - 1 - 127 + i) % 128 {
      assert e.queue[..127][i] == e.queue[i];
    }
  }

  lemma StepsOf128(e: Endpoint, n: nat)
    requires ConsecutiveRun(e) && |e.queue| == 128 <= e.vs && n <= 127
    ensures AckSteps(e, (e.vs - 129) % 128, n + 1).queue == e.queue[n..127]
  {
    hide ConsecutiveRun, FindNs, AckPacket;
    var h := e.vs - 128;
    LastIsTaken(e);
    var d := AckPacket(e, (e.vs - 129) % 128);
    var d' := d.(vs := e.vs - 1);
    assert h == d'.vs - |d'.queue| && h - 1 == e.vs - 129;
    IncMod(h - 1);
    StepsFromHead(d', h, n);
    StepsIgnoreVs(d, e.vs - 1, h % 128, n);
    assert d.queue[n..] == e.queue[n..127];
  }

  lemma WalkReachesOrRun(e: Endpoint, n: nat)
    requires ConsecutiveRun(e) && VaNearHead(e) && n <= |e.queue| == 128
    ensures IsSeqNo(e.va) && WalkToAck(e.va, e.vs, (e.vs - 128 + n) % 128) == (e.vs - 128 + n) % 128
  {
    WalkReaches(e.va, e.vs, (e.vs - 128 + n) % 128);
  }

  /** What is left of 128 queued frames once the first `n` are acknowledged, in all cases. With V(A) at the
      head all is well short of acknowledging all 128, which is lost. With V(A) lagging the last frame
      goes too, whether or not it was ever sent; 127 are then lost, and of all 128 only the last goes. */
  lemma AckOf128(e: Endpoint, n: nat)
    requires ConsecutiveRun(e) && VaNearHead(e) && 0 < n <= |e.queue| == 128
    ensures IsSeqNo(e.va)
    ensures var o := AckRx(e, (e.vs - 128 + n) % 128, false);
            && !o.restarted
            && o.e.queue == if e.va == e.vs % 128 then (if n == 128 then e.queue else e.queue[n..])
                            else if n == 127 then e.queue
                            else if n == 128 then e.queue[..127]
                            else e.queue[n..127]
  {
    hide AckSteps, ConsecutiveRun, FindNs, WalkToAck, AckAll;
    var h := e.vs - 128;
    var ack := (h + n) % 128;
    WalkReachesOrRun(e, n);
    ModMultiple(e.vs, -1);
    ModMultiple(h + n, -1);
    AckAllBySteps(e, e.va, ack);
    if e.va == e.vs % 128 {
      if n == 128 {
        NoSteps(e, e.va);
      } else {
        ModShift(h, h + n);
        StepsFromHead(e, h, n);
      }
    } else if n == 127 {
      NoSteps(e, e.va);
    } else if n == 128 {
      ModShift(h - 1, h);
      StepsOf128(e, 0);
    } else {
      ModShift(h - 1, h + n);
      StepsOf128(e, n);
    }
  }

  lemma NoSteps(e: Endpoint, x: int)
    ensures AckSteps(e, x, 0) == e
  {
  }
}
