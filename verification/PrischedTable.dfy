/** The slot array of libpri/prisched.c, updated in place by the scanning loops. */
module PrischedTable {
  import opened Common
  import opened Prisched

  class Scheduler {
    /** `pri_sched[]`; slot 0 is never used. */
    var slots: array<Option<Event>>
    var schedev: bool
    /** The serial number to give next; the C table has none. */
    var next: nat
    ghost var ran: seq<Event>
    ghost var gone: set<nat>

    ghost predicate Sized()
      reads this
    {
      slots.Length == MAX_SCHED
    }

    ghost function View(): Table
      reads this, slots
    {
      Table(slots[..], next, ran, gone, schedev)
    }

    constructor ()
      ensures Sized() && fresh(slots) && View() == EMPTY
    {
      slots := new Option<Event>[MAX_SCHED](_ => None);
      schedev := false;
      next := 0;
      ran, gone := [], {};
      new;
      assert slots[..] == EMPTY.slots;
    }

    /** `pri_schedule_event`: the slot, or -1 if the table is full. */
    method ScheduleEvent(now: Time, ms: nat, action: Action) returns (slot: int)
      requires Sized()
      modifies this`next, slots
      ensures Sized() && View() == Schedule(old(View()), now, ms, action)
      ensures slot == -1 || (0 < slot < MAX_SCHED && old(slots[slot]) == None && slots[slot].Some?)
      ensures slot == -1 <==> forall y :: 1 <= y < MAX_SCHED ==> old(slots[y]).Some?
    {
      ghost var was := View();
      var x := 1;
      while x < MAX_SCHED && slots[x].Some?
        invariant 1 <= x <= MAX_SCHED && FreeSlot(was.slots, x) == FreeSlot(was.slots, 1)
        invariant forall y :: 1 <= y < x ==> slots[y].Some?
      {
        x := x + 1;
      }
      assert FreeSlot(was.slots, x) == x;
      if x == MAX_SCHED { return -1; }
      var tv := Time(now.sec + ms / 1000, now.usec + ms % 1000 * 1000);
      if tv.usec > 1_000_000 {
        tv := Time(tv.sec + 1, tv.usec - 1_000_000);
      }
      slots[x] := Some(Event(next, tv, action));
      next := next + 1;
      assert View().slots == was.slots[x := Some(Event(was.next, After(now, ms), action))];
      return x;
    }

    /** `pri_schedule_del`, on a slot of the table. */
    method ScheduleDel(slot: nat)
      requires Sized() && slot < MAX_SCHED
      modifies this`gone, slots
      ensures Sized() && View() == Remove(old(View()), slot)
    {
      ghost var was := View();
      if slots[slot].Some? { gone := gone + {slots[slot].value.serial}; }
      slots[slot] := None;
      assert View().slots == was.slots[slot := None];
    }

    /** `pri_schedule_next`: None if nothing is scheduled, else a time no scheduled event is before. */
    method ScheduleNext() returns (closest: Option<Time>)
      requires Sized() && ValidSlots(View())
      ensures closest == None <==> forall x :: 0 <= x < MAX_SCHED ==> slots[x].None?
      ensures closest.Some? ==>
                && (exists x :: 0 < x < MAX_SCHED && slots[x].Some? && slots[x].value.when == closest.value)
                && (forall x :: 0 <= x < MAX_SCHED && slots[x].Some?
                     ==> Micros(closest.value) <= Micros(slots[x].value.when))
    {
      hide ValidAction;
      assert slots[0] == View().slots[0];
      closest := None;
      var x := 1;
      while x < MAX_SCHED
        invariant 1 <= x <= MAX_SCHED
        invariant closest == None <==> forall y :: 0 <= y < x ==> slots[y].None?
        invariant closest.Some? ==> exists y :: 0 < y < x && slots[y].Some? && slots[y].value.when == closest.value
        invariant closest.Some? ==> NearlyNormal(closest.value)
        invariant forall y :: 0 <= y < x && slots[y].Some? ==>
                    closest.Some? && Micros(closest.value) <= Micros(slots[y].value.when)
      {
        if slots[x].Some? {
          var when := slots[x].value.when;
          assert View().slots[x] == slots[x];
          if closest.None? || Later(closest.value, when) {
            if closest.Some? { LaterIsNotLess(closest.value, when); }
            closest := Some(when);
          } else {
            NotLaterIsLeast(closest.value, when);
          }
        }
        x := x + 1;
      }
    }

    /** The scheduler calls a callback makes. */
    method CallBack(action: Action)
      requires Sized() && ValidAction(action)
      modifies this`next, this`gone, this`schedev, slots
      ensures Sized() && View() == ApplyAll(old(View()), action.ops)
    {
      hide ValidOp, Schedule, Remove;
      ghost var goal := ApplyAll(View(), action.ops);
      var ops := action.ops;
      while ops != []
        invariant Sized() && slots == old(slots) && ran == old(ran)
        invariant ValidOps(ops) && ApplyAll(View(), ops) == goal
        decreases |ops|
      {
        OpValid(ops);
        ghost var before := View();
        match ops[0] {
          case Add(now, ms, later) => var slot := ScheduleEvent(now, ms, later);
          case Delete(slot) => ScheduleDel(slot);
          case RaiseEvent => schedev := true;
        }
        assert View() == Apply(before, ops[0]);
        ops := ops[1..];
      }
    }

    static lemma OpValid(ops: seq<Op>)
      requires ValidOps(ops) && ops != []
      ensures ValidOp(ops[0]) && ValidOps(ops[1..])
      ensures ops[0].Delete? ==> ops[0].slot < MAX_SCHED
    {
    }

    /** One due slot: cleared, then called back. */
    method RunSlot(x: nat)
      requires Sized() && Inv(View()) && x < MAX_SCHED && slots[x].Some?
      modifies this`next, this`gone, this`schedev, this`ran, slots
      ensures Sized() && View() == Fire(old(View()), x)
    {
      hide ApplyAll;
      ghost var was := View();
      assert was.slots[x] == slots[x];
      var e := slots[x].value;
      schedev := false;
      slots[x] := None;
      ran := ran + [e];
      assert View().slots == was.slots[x := None];
      CallBack(e.action);
    }

    /** `__pri_schedule_run`: whether an event is to be returned. */
    method ScheduleRun(tv: Time) returns (event: bool)
      requires Sized() && Inv(View())
      modifies this`next, this`gone, this`schedev, this`ran, slots
      ensures Sized() && (View(), event) == RunFrom(old(View()), 1, tv)
    {
      hide Inv, Fire;
      ghost var goal := RunFrom(View(), 1, tv);
      var x := 1;
      while x < MAX_SCHED
        invariant 1 <= x <= MAX_SCHED && Sized() && slots == old(slots)
        invariant Inv(View()) && RunFrom(View(), x, tv) == goal
      {
        ghost var was := View();
        assert was.slots[x] == slots[x];
        if slots[x].Some? && Due(slots[x].value.when, tv) {
          FireKeeps(was, x);
          RunSlot(x);
          if schedev { return true; }
        }
        x := x + 1;
      }
      return false;
    }
  }
}
