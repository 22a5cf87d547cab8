/** The timer scheduler of libpri/prisched.c: a fixed table of 127 usable slots, and the comparison
    of `timeval`s it runs on.

    A callback is the list of scheduler calls it makes. Every scheduled event gets a serial number, so
    that what has run and what was deleted can be told; the C table has no such number. */
module Prisched {
  import opened Common

  const MAX_SCHED := 128

  datatype Time = Time(sec: int, usec: int)

  datatype Op =
    | Add(now: Time, ms: nat, action: Action)    // `pri_schedule_event`, with its gettimeofday reading
    | Delete(slot: nat)                          // `pri_schedule_del`
    | RaiseEvent                                 // `schedev = 1`

  datatype Action = Action(ops: seq<Op>)

  datatype Event = Event(serial: nat, when: Time, action: Action)

  datatype Table = Table(
    slots: seq<Option<Event>>,
    next: nat,               // serial of the next event scheduled
    ran: seq<Event>,         // events run, in order
    gone: set<nat>,          // serials deleted
    schedev: bool)

  predicate WellSized(t: Table) {
    |t.slots| == MAX_SCHED
  }

  // ------------------------------------------------------------------ time

  predicate Normal(t: Time) {
    0 <= t.usec < 1_000_000
  }

  /** What normalisation leaves: a million microseconds are not carried. */
  predicate NearlyNormal(t: Time) {
    0 <= t.usec <= 1_000_000
  }

  function Micros(t: Time): int {
    t.sec * 1_000_000 + t.usec
  }

  /** The expiry time `pri_schedule_event` stores. */
  function After(now: Time, ms: nat): Time {
    var t := Time(now.sec + ms / 1000, now.usec + ms % 1000 * 1000);
    if t.usec > 1_000_000 then Time(t.sec + 1, t.usec - 1_000_000) else t
  }

  /** The test of `__pri_schedule_run`. */
  predicate Due(when: Time, tv: Time) {
    when.sec < tv.sec || (when.sec == tv.sec && when.usec <= tv.usec)
  }

  /** The test of `pri_schedule_next`. */
  predicate Later(a: Time, b: Time) {
    a.sec > b.sec || (a.sec == b.sec && a.usec > b.usec)
  }

  /** The stored time is exactly `ms` milliseconds on, though it may not be carried. */
  lemma AfterIsExact(now: Time, ms: nat)
    requires Normal(now)
    ensures NearlyNormal(After(now, ms)) && Micros(After(now, ms)) == Micros(now) + ms * 1000
  {
  }

  /** For times as normalisation leaves them, an event is run if and only if its microsecond time is not
      after now, except where now has a million microseconds and the event is at the second it would
      carry to. A normalised now, as the clock gives it, has no such case. */
  lemma DueIffMicros(when: Time, tv: Time)
    requires NearlyNormal(when) && NearlyNormal(tv)
    ensures Due(when, tv) <==> Micros(when) <= Micros(tv) && !(tv.usec == 1_000_000 && when == Time(tv.sec + 1, 0))
    ensures Normal(tv) ==> (Due(when, tv) <==> Micros(when) <= Micros(tv))
  {
  }

  lemma NotLaterIsLeast(a: Time, b: Time)
    requires NearlyNormal(a) && NearlyNormal(b) && !Later(a, b)
    ensures Micros(a) <= Micros(b)
  {
  }

  lemma LaterIsNotLess(a: Time, b: Time)
    requires NearlyNormal(a) && NearlyNormal(b) && Later(a, b)
    ensures Micros(b) <= Micros(a)
  {
  }

  // ------------------------------------------------------------------ the operations

  /** First free slot from `x` on, or MAX_SCHED. */
  function FreeSlot(slots: seq<Option<Event>>, x: nat): (r: nat)
    requires x <= |slots|
    ensures x <= r <= |slots|
    ensures r < |slots| ==> slots[r].None?
    ensures forall y :: x <= y < r ==> slots[y].Some?
    decreases |slots| - x
  {
    if x == |slots| || slots[x].None? then x else FreeSlot(slots, x + 1)
  }

  /** `pri_schedule_event`: nothing happens when the table is full. */
  function Schedule(t: Table, now: Time, ms: nat, action: Action): (r: Table)
    requires WellSized(t)
    ensures WellSized(r)
  {
    var x := FreeSlot(t.slots, 1);
    if x == MAX_SCHED then t
    else t.(slots := t.slots[x := Some(Event(t.next, After(now, ms), action))], next := t.next + 1)
  }

  /** `pri_schedule_del`. */
  function Remove(t: Table, slot: nat): (r: Table)
    requires WellSized(t) && slot < MAX_SCHED
    ensures WellSized(r)
  {
    t.(slots := t.slots[slot := None],
       gone := if t.slots[slot].Some? then t.gone + {t.slots[slot].value.serial} else t.gone)
  }

  predicate ValidOps(ops: seq<Op>)
    decreases ops, 0
  {
    forall i :: 0 <= i < |ops| ==> ValidOp(ops[i])
  }

  predicate ValidOp(op: Op)
    decreases op, 1
  {
    match op
    case Add(now, _, action) => Normal(now) && ValidAction(action)
    case Delete(slot) => slot < MAX_SCHED
    case RaiseEvent => true
  }

  predicate ValidAction(a: Action)
    decreases a, 1
  {
    ValidOps(a.ops)
  }

  function Apply(t: Table, op: Op): (r: Table)
    requires WellSized(t) && ValidOp(op)
    ensures WellSized(r)
  {
    match op
    case Add(now, ms, action) => Schedule(t, now, ms, action)
    case Delete(slot) => Remove(t, slot)
    case RaiseEvent => t.(schedev := true)
  }

  function ApplyAll(t: Table, ops: seq<Op>): (r: Table)
    requires WellSized(t) && ValidOps(ops)
    ensures WellSized(r)
    decreases |ops|
  {
    if ops == [] then t else ApplyAll(Apply(t, ops[0]), ops[1..])
  }

  /** Slots hold callbacks that keep to the table and times as `pri_schedule_event` leaves them. */
  predicate ValidSlots(t: Table) {
    && WellSized(t) && t.slots[0].None?
    && forall x :: 0 <= x < MAX_SCHED && t.slots[x].Some? ==>
         NearlyNormal(t.slots[x].value.when) && ValidAction(t.slots[x].value.action)
  }

  /** One slot of the running loop whose event is due: it is taken out, then its callback runs. */
  function Fire(t: Table, x: nat): (r: Table)
    requires ValidSlots(t) && x < MAX_SCHED && t.slots[x].Some?
    ensures WellSized(r)
  {
    var e := t.slots[x].value;
    ApplyAll(t.(slots := t.slots[x := None], ran := t.ran + [e], schedev := false), e.action.ops)
  }

  predicate IsDue(t: Table, x: nat, tv: Time)
    requires WellSized(t) && x < MAX_SCHED
  {
    t.slots[x].Some? && Due(t.slots[x].value.when, tv)
  }

  // ------------------------------------------------------------------ what every operation keeps

  predicate Distinct(s: seq<Event>) {
    forall i, j :: 0 <= i < j < |s| ==> s[i].serial != s[j].serial
  }

  /** Serials are fresh. Those scheduled are distinct, and so are those run; none is both, and none that
      was deleted is scheduled or has run. */
  predicate Inv(t: Table) {
    && ValidSlots(t)
    && Distinct(t.ran)
    && (forall i :: 0 <= i < |t.ran| ==> t.ran[i].serial < t.next)
    && (forall x :: 0 <= x < MAX_SCHED && t.slots[x].Some? ==> t.slots[x].value.serial < t.next)
    && (forall x, i :: 0 <= x < MAX_SCHED && t.slots[x].Some? && 0 <= i < |t.ran| ==>
          t.slots[x].value.serial != t.ran[i].serial)
    && (forall x, y :: 0 <= x < y < MAX_SCHED && t.slots[x].Some? && t.slots[y].Some? ==>
          t.slots[x].value.serial != t.slots[y].value.serial)
    && (forall n :: n in t.gone ==> n < t.next)
    && (forall x :: 0 <= x < MAX_SCHED && t.slots[x].Some? ==> t.slots[x].value.serial !in t.gone)
    && (forall i :: 0 <= i < |t.ran| ==> t.ran[i].serial !in t.gone)
  }

  lemma ScheduleKeeps(t: Table, now: Time, ms: nat, action: Action)
    requires Inv(t) && Normal(now) && ValidAction(action)
    ensures Inv(Schedule(t, now, ms, action))
  {
    hide ValidAction;
    AfterIsExact(now, ms);
  }

  lemma ApplyKeeps(t: Table, op: Op)
    requires Inv(t) && ValidOp(op)
    ensures Inv(Apply(t, op)) && Apply(t, op).ran == t.ran
  {
    match op
    case Add(now, ms, action) => ScheduleKeeps(t, now, ms, action);
    case Delete(slot) => RemoveKeeps(t, slot);
    case RaiseEvent =>
  }

  lemma RemoveKeeps(t: Table, slot: nat)
    requires Inv(t) && slot < MAX_SCHED
    ensures Inv(Remove(t, slot))
  {
    hide ValidAction, NearlyNormal;
  }

  lemma {:induction false} ApplyAllKeeps(t: Table, ops: seq<Op>)
    requires Inv(t) && ValidOps(ops)
    ensures Inv(ApplyAll(t, ops)) && ApplyAll(t, ops).ran == t.ran
    decreases |ops|
  {
    hide Inv, ValidOp, Apply;
    Sized(t);
    if ops != [] {
      ApplyKeeps(t, ops[0]);
      ApplyAllKeeps(Apply(t, ops[0]), ops[1..]);
    }
  }

  lemma Sized(t: Table)
    requires Inv(t)
    ensures ValidSlots(t) && WellSized(t)
  {
  }

  lemma TakenKeeps(t: Table, x: nat)
    requires Inv(t) && x < MAX_SCHED && t.slots[x].Some?
    ensures var e := t.slots[x].value;
            Inv(t.(slots := t.slots[x := None], ran := t.ran + [e], schedev := false))
  {
    hide ValidAction, NearlyNormal;
  }

  lemma FireKeeps(t: Table, x: nat)
    requires Inv(t) && x < MAX_SCHED && t.slots[x].Some?
    ensures Inv(Fire(t, x)) && Fire(t, x).ran == t.ran + [t.slots[x].value]
  {
    hide Inv, ApplyAll;
    Sized(t);
    var e := t.slots[x].value;
    TakenKeeps(t, x);
    ApplyAllKeeps(t.(slots := t.slots[x := None], ran := t.ran + [e], schedev := false), e.action.ops);
  }

  /** `__pri_schedule_run` from slot `x` on: the table afterwards, and whether it stopped because a
      callback raised an event. */
  function RunFrom(t: Table, x: nat, tv: Time): (r: (Table, bool))
    requires Inv(t) && x <= MAX_SCHED
    ensures Inv(r.0)
    decreases MAX_SCHED - x
  {
    if x == MAX_SCHED then (t, false)
    else if IsDue(t, x, tv) then
      FireKeeps(t, x);
      var t' := Fire(t, x);
      if t'.schedev then (t', true) else RunFrom(t', x + 1, tv)
    else RunFrom(t, x + 1, tv)
  }

  // ------------------------------------------------------------------ histories

  /** Calls from outside: scheduling, deleting, and running what is due. */
  datatype Call =
    | Direct(op: Op)
    | RunPass(tv: Time)

  predicate ValidCalls(calls: seq<Call>) {
    forall i :: 0 <= i < |calls| ==> calls[i].Direct? ==> ValidOp(calls[i].op)
  }

  const EMPTY: Table := Table(seq(MAX_SCHED, _ => None), 0, [], {}, false)

  function AfterCall(t: Table, c: Call): (r: Table)
    requires Inv(t) && (c.Direct? ==> ValidOp(c.op))
    ensures Inv(r)
  {
    match c
    case Direct(op) => (ApplyKeeps(t, op); Apply(t, op))
    case RunPass(tv) => RunFrom(t, 1, tv).0
  }

  function AfterCalls(t: Table, calls: seq<Call>): (r: Table)
    requires Inv(t) && ValidCalls(calls)
    ensures Inv(r)
    decreases |calls|
  {
    if calls == [] then t else AfterCalls(AfterCall(t, calls[0]), calls[1..])
  }

  lemma EmptyInv()
    ensures Inv(EMPTY)
  {
  }

  /** Each scheduled event runs at most once, over every history of calls and whatever callbacks do. */
  lemma RunsAtMostOnce(calls: seq<Call>)
    requires ValidCalls(calls)
    ensures Inv(EMPTY) && Distinct(AfterCalls(EMPTY, calls).ran)
  {
    EmptyInv();
  }

  /** A deleted event never runs, over every history. */
  lemma DeletedNeverRuns(calls: seq<Call>)
    requires ValidCalls(calls)
    ensures Inv(EMPTY)
    ensures var t := AfterCalls(EMPTY, calls); forall e :: e in t.ran ==> e.serial !in t.gone
  {
    EmptyInv();
    var t := AfterCalls(EMPTY, calls);
    forall e | e in t.ran ensures e.serial !in t.gone {
      var i :| 0 <= i < |t.ran| && t.ran[i] == e;
    }
  }

  // ------------------------------------------------------------------ nothing is forgotten

  /** The event with serial `n` is scheduled, has run, or was deleted. */
  ghost predicate Placed(t: Table, n: nat) {
    || n in t.gone
    || (exists x :: 0 <= x < |t.slots| && t.slots[x].Some? && t.slots[x].value.serial == n)
    || (exists i :: 0 <= i < |t.ran| && t.ran[i].serial == n)
  }

  ghost predicate AllPlaced(t: Table) {
    forall n: nat :: n < t.next ==> Placed(t, n)
  }

  lemma SchedulePlaces(t: Table, now: Time, ms: nat, action: Action)
    requires WellSized(t) && AllPlaced(t)
    ensures AllPlaced(Schedule(t, now, ms, action))
  {
    var r := Schedule(t, now, ms, action);
    var f := FreeSlot(t.slots, 1);
    forall n: nat | n < r.next ensures Placed(r, n) {
      if n == t.next {
        assert r.slots[f].Some? && r.slots[f].value.serial == n;
      } else {
        assert Placed(t, n);
        if x :| 0 <= x < |t.slots| && t.slots[x].Some? && t.slots[x].value.serial == n {
          assert r.slots[x] == t.slots[x];
        }
      }
    }
  }

  lemma RemovePlaces(t: Table, slot: nat)
    requires WellSized(t) && AllPlaced(t) && slot < MAX_SCHED
    ensures AllPlaced(Remove(t, slot))
  {
    var r := Remove(t, slot);
    forall n: nat | n < r.next ensures Placed(r, n) {
      assert Placed(t, n);
      if x :| 0 <= x < |t.slots| && t.slots[x].Some? && t.slots[x].value.serial == n {
        assert x == slot || r.slots[x] == t.slots[x];
      }
    }
  }

  lemma {:induction false} ApplyAllPlaces(t: Table, ops: seq<Op>)
    requires WellSized(t) && ValidOps(ops) && AllPlaced(t)
    ensures AllPlaced(ApplyAll(t, ops))
    decreases |ops|
  {
    hide AllPlaced, ValidOp;
    if ops != [] {
      ApplyPlaces(t, ops[0]);
      ApplyAllPlaces(Apply(t, ops[0]), ops[1..]);
    }
  }

  lemma ApplyPlaces(t: Table, op: Op)
    requires WellSized(t) && ValidOp(op) && AllPlaced(t)
    ensures AllPlaced(Apply(t, op))
  {
    match op
    case Add(now, ms, action) => SchedulePlaces(t, now, ms, action);
    case Delete(slot) => RemovePlaces(t, slot);
    case RaiseEvent => assert forall n: nat :: Placed(t, n) <==> Placed(t.(schedev := true), n);
  }

  lemma FirePlaces(t: Table, x: nat)
    requires ValidSlots(t) && AllPlaced(t) && x < MAX_SCHED && t.slots[x].Some?
    ensures AllPlaced(Fire(t, x))
  {
    var e := t.slots[x].value;
    var taken := t.(slots := t.slots[x := None], ran := t.ran + [e], schedev := false);
    forall n: nat | n < taken.next ensures Placed(taken, n) {
      assert Placed(t, n);
      assert taken.ran[|t.ran|] == e;
      if y :| 0 <= y < |t.slots| && t.slots[y].Some? && t.slots[y].value.serial == n {
        assert y == x || taken.slots[y] == t.slots[y];
      } else if i :| 0 <= i < |t.ran| && t.ran[i].serial == n {
        assert taken.ran[i] == t.ran[i];
      }
    }
    ApplyAllPlaces(taken, e.action.ops);
  }

  lemma {:induction false} RunPlaces(t: Table, x: nat, tv: Time)
    requires Inv(t) && AllPlaced(t) && x <= MAX_SCHED
    ensures AllPlaced(RunFrom(t, x, tv).0)
    decreases MAX_SCHED - x
  {
    hide AllPlaced, Fire, ValidSlots;
    Sized(t);
    if x < MAX_SCHED {
      if IsDue(t, x, tv) {
        FirePlaces(t, x);
        FireKeeps(t, x);
        if !Fire(t, x).schedev { RunPlaces(Fire(t, x), x + 1, tv); }
      } else {
        RunPlaces(t, x + 1, tv);
      }
    }
  }

  lemma {:induction false} CallsPlace(t: Table, calls: seq<Call>)
    requires Inv(t) && AllPlaced(t) && ValidCalls(calls)
    ensures AllPlaced(AfterCalls(t, calls))
    decreases |calls|
  {
    hide Inv, AllPlaced, Apply, ValidOp, RunFrom;
    if calls != [] {
      Sized(t);
      match calls[0] {
        case Direct(op) => ApplyPlaces(t, op);
        case RunPass(tv) => RunPlaces(t, 1, tv);
      }
      CallsPlace(AfterCall(t, calls[0]), calls[1..]);
    }
  }

  /** Over every history each event ever scheduled is still scheduled, has run, or was deleted, and only
      one of the three. */
  lemma EveryEventIsPlacedOnce(calls: seq<Call>, n: nat)
    requires ValidCalls(calls)
    ensures Inv(EMPTY)
    ensures var t := AfterCalls(EMPTY, calls);
            var scheduled := exists x :: 0 <= x < MAX_SCHED && t.slots[x].Some? && t.slots[x].value.serial == n;
            var ran := exists i :: 0 <= i < |t.ran| && t.ran[i].serial == n;
            && (n < t.next <==> scheduled || ran || n in t.gone)
            && !(scheduled && ran) && !(scheduled && n in t.gone) && !(ran && n in t.gone)
  {
    hide ValidSlots, RunFrom;
    EmptyInv();
    CallsPlace(EMPTY, calls);
    var t := AfterCalls(EMPTY, calls);
    Sized(t);
    assert n < t.next ==> Placed(t, n);
  }

  // ------------------------------------------------------------------ a pass

  /** Event `e` of slot `x` is still there, was deleted, or has run. */
  predicate Accounted(t: Table, x: nat, e: Event)
    requires WellSized(t) && x < MAX_SCHED
  {
    t.slots[x] == Some(e) || e.serial in t.gone || e in t.ran
  }

  lemma ApplyAccounts(t: Table, op: Op, x: nat, e: Event)
    requires WellSized(t) && ValidOp(op) && 0 < x < MAX_SCHED && Accounted(t, x, e)
    ensures Accounted(Apply(t, op), x, e) && t.gone <= Apply(t, op).gone && Apply(t, op).ran == t.ran
  {
  }

  lemma {:induction false} ApplyAllAccounts(t: Table, ops: seq<Op>, x: nat, e: Event)
    requires WellSized(t) && ValidOps(ops) && 0 < x < MAX_SCHED && Accounted(t, x, e)
    ensures Accounted(ApplyAll(t, ops), x, e) && t.gone <= ApplyAll(t, ops).gone
    decreases |ops|
  {
    hide ValidOp, Apply, Accounted;
    if ops != [] {
      ApplyAccounts(t, ops[0], x, e);
      ApplyAllAccounts(Apply(t, ops[0]), ops[1..], x, e);
    }
  }

  lemma FireAccounts(t: Table, x: nat, y: nat, e: Event)
    requires Inv(t) && x < MAX_SCHED && t.slots[x].Some? && 0 < y < MAX_SCHED && Accounted(t, y, e)
    ensures Accounted(Fire(t, x), y, e)
    ensures t.slots[x] == Some(e) ==> e in Fire(t, x).ran
  {
    hide ApplyAll, NearlyNormal;
    var f := t.slots[x].value;
    var taken := t.(slots := t.slots[x := None], ran := t.ran + [f], schedev := false);
    assert forall k :: 0 <= k < |t.ran| ==> taken.ran[k] == t.ran[k];
    assert taken.ran[|t.ran|] == f;
    ApplyAllAccounts(taken, f.action.ops, y, e);
    FireKeeps(t, x);
  }

  /** A serial once run or deleted stays so for the rest of the pass. */
  lemma {:induction false} PassSettles(t: Table, x: nat, tv: Time, y: nat, e: Event)
    requires Inv(t) && x <= MAX_SCHED && 0 < y < MAX_SCHED && Accounted(t, y, e)
    requires y < x ==> e.serial in t.gone || e in t.ran
    requires Due(e.when, tv)
    ensures var r := RunFrom(t, x, tv);
            e.serial in r.0.gone || e in r.0.ran || (r.1 && r.0.slots[y] == Some(e))
    decreases MAX_SCHED - x
  {
    hide Fire, ValidSlots;
    Sized(t);
    if x < MAX_SCHED {
      if IsDue(t, x, tv) {
        FireKeeps(t, x);
        FireAccounts(t, x, y, e);
        if !(e.serial in t.gone || e in t.ran) {
          assert t.slots[y] == Some(e);
        }
        SettledByFire(t, x, e);
        if !Fire(t, x).schedev {
          PassSettles(Fire(t, x), x + 1, tv, y, e);
        }
      } else {
        PassSettles(t, x + 1, tv, y, e);
      }
    }
  }

  lemma {:induction false} ApplyAllGone(t: Table, ops: seq<Op>)
    requires WellSized(t) && ValidOps(ops)
    ensures t.gone <= ApplyAll(t, ops).gone && ApplyAll(t, ops).ran == t.ran
    decreases |ops|
  {
    if ops != [] {
      ApplyAllGone(Apply(t, ops[0]), ops[1..]);
    }
  }

  lemma SettledByFire(t: Table, x: nat, e: Event)
    requires Inv(t) && x < MAX_SCHED && t.slots[x].Some?
    ensures e.serial in t.gone || e in t.ran ==> e.serial in Fire(t, x).gone || e in Fire(t, x).ran
  {
    var f := t.slots[x].value;
    ApplyAllGone(t.(slots := t.slots[x := None], ran := t.ran + [f], schedev := false), f.action.ops);
  }

  /** A pass runs every event due at its start, unless a callback deletes it during the pass, or an
      earlier callback raises an event, which ends the pass with the event still in its slot. */
  lemma PassRunsWhatIsDue(t: Table, tv: Time, y: nat)
    requires Inv(t) && Normal(tv) && 0 < y < MAX_SCHED && t.slots[y].Some?
    requires Micros(t.slots[y].value.when) <= Micros(tv)
    ensures var r, e := RunFrom(t, 1, tv), t.slots[y].value;
            e in r.0.ran || e.serial in r.0.gone - t.gone || (r.1 && r.0.slots[y] == Some(e))
  {
    DueIffMicros(t.slots[y].value.when, tv);
    PassSettles(t, 1, tv, y, t.slots[y].value);
  }

  /** Nothing is run before its time: what a pass adds to the events run is all due by the clock. */
  lemma {:induction false} PassRunsOnlyDue(t: Table, x: nat, tv: Time)
    requires Inv(t) && x <= MAX_SCHED && Normal(tv)
    ensures var r := RunFrom(t, x, tv).0;
            t.ran <= r.ran && forall i :: |t.ran| <= i < |r.ran| ==> Micros(r.ran[i].when) <= Micros(tv)
    decreases MAX_SCHED - x
  {
    hide Fire;
    Sized(t);
    if x < MAX_SCHED {
      if IsDue(t, x, tv) {
        FireKeeps(t, x);
        DueIffMicros(t.slots[x].value.when, tv);
        if !Fire(t, x).schedev {
          PassRunsOnlyDue(Fire(t, x), x + 1, tv);
        }
      } else {
        PassRunsOnlyDue(t, x + 1, tv);
      }
    }
  }
}
