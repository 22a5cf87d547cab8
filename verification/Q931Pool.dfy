/** The call pool and call references of a master controller (libpri/q931.c). The pool is the list of
    call references in list order; structures other than the reference are in Q931Clearing. */
module Q931Pool {

  const MAX_CREF := 32767
  const OUR_SIDE := 0x8000
  const GLOBAL_CALL := 0x8000

  predicate Distinct(pool: seq<int>) {
    forall i, j :: 0 <= i < j < |pool| ==> pool[i] != pool[j]
  }

  predicate IsCref(c: int) {
    1 <= c <= 32767
  }

  /** Some reference is free. */
  ghost predicate HasFree(pool: seq<int>) {
    exists c :: IsCref(c) && OUR_SIDE + c !in pool
  }

  /** How many steps of the counter lead from `c` to `d`, counting from 1. */
  function Ahead(c: int, d: int): (n: int)
    ensures 1 <= n <= 32767
  {
    (d - c - 1) % 32767 + 1
  }

  function Next(c: int): (r: int)
    requires IsCref(c)
    ensures IsCref(r)
  {
    if c + 1 > MAX_CREF then 1 else c + 1
  }

  lemma NextIsCloser(c: int, d: int)
    requires IsCref(c) && IsCref(d)
    ensures Ahead(c, d) == if Next(c) == d then 1 else Ahead(Next(c), d) + 1
  {
  }

  /** `q931_getcall`: the pool afterwards. */
  function AfterGet(pool: seq<int>, cr: int): seq<int> {
    if cr in pool then pool else pool + [cr]
  }

  /** `q931_destroycall`: the first call with that reference goes. */
  function AfterDestroy(pool: seq<int>, cr: int): seq<int>
  {
    if pool == [] then [] else if pool[0] == cr then pool[1..] else [pool[0]] + AfterDestroy(pool[1..], cr)
  }

  /** `r` is the reference the counter reaches first, going up from `c` and round, that is free. */
  ghost predicate FirstFree(pool: seq<int>, c: int, r: int) {
    && IsCref(r) && OUR_SIDE + r !in pool
    && forall d :: IsCref(d) && Ahead(c, d) < Ahead(c, r) ==> OUR_SIDE + d in pool
  }

  lemma {:induction false} DestroyRemoves(pool: seq<int>, cr: int)
    requires Distinct(pool)
    ensures var after := AfterDestroy(pool, cr);
            && Distinct(after) && cr !in after
            && forall x :: x != cr ==> (x in after <==> x in pool)
  {
    if pool != [] && pool[0] != cr {
      var rest := pool[1..];
      assert Distinct(rest);
      DestroyRemoves(rest, cr);
      var after := AfterDestroy(rest, cr);
      assert pool == [pool[0]] + rest;
      assert pool[0] !in rest;
      assert Distinct([pool[0]] + after);
    } else if pool != [] {
      assert pool == [pool[0]] + pool[1..];
    }
  }

  // ------------------------------------------------------------------ runs

  datatype Op =
    | Get(cr: int)         // a message with that reference arrives, or a restart
    | New
    | DestroyCall(cr: int)

  datatype State = State(pool: seq<int>, cref: int)

  ghost predicate Step(s: State, op: Op, t: State) {
    match op
    case Get(cr) => t == s.(pool := AfterGet(s.pool, cr))
    case New => FirstFree(s.pool, s.cref, t.cref) && t.pool == s.pool + [OUR_SIDE + t.cref]
    case DestroyCall(cr) => t == s.(pool := AfterDestroy(s.pool, cr))
  }

  ghost predicate IsRun(states: seq<State>, ops: seq<Op>) {
    && |states| == |ops| + 1 && states[0] == State([], 1)
    && forall i :: 0 <= i < |ops| ==> Step(states[i], ops[i], states[i + 1])
  }

  lemma StepKeeps(s: State, op: Op, t: State)
    requires Distinct(s.pool) && IsCref(s.cref) && Step(s, op, t)
    ensures Distinct(t.pool) && IsCref(t.cref)
  {
    if op.DestroyCall? { DestroyRemoves(s.pool, op.cr); }
  }

  lemma {:induction false} RunKeeps(states: seq<State>, ops: seq<Op>, i: nat)
    requires IsRun(states, ops) && i < |states|
    ensures Distinct(states[i].pool) && IsCref(states[i].cref)
  {
    if i > 0 {
      RunKeeps(states, ops, i - 1);
      StepKeeps(states[i - 1], ops[i - 1], states[i]);
    }
  }

  /** Over every run the references stay pairwise distinct, and each new call gets one that was not in
      the pool and is not the global call's. */
  lemma ReferencesStayDistinct(states: seq<State>, ops: seq<Op>, i: nat)
    requires IsRun(states, ops) && i < |ops|
    ensures Distinct(states[i + 1].pool)
    ensures ops[i].New? ==>
              var r := OUR_SIDE + states[i + 1].cref;
              r !in states[i].pool && r in states[i + 1].pool && r != GLOBAL_CALL
  {
    RunKeeps(states, ops, i);
    StepKeeps(states[i], ops[i], states[i + 1]);
  }

  /** A reference is not handed out again while any other is free: after a call is destroyed, the next
      new call takes its reference only if every other one is in use. */
  lemma ReferenceRestsAfterDestroy(s: State, t: State, u: State, v: State)
    requires Distinct(s.pool) && IsCref(s.cref)
    requires Step(s, New, t) && Step(t, DestroyCall(OUR_SIDE + t.cref), u) && Step(u, New, v)
    requires v.cref == t.cref
    ensures forall d :: IsCref(d) && d != t.cref ==> OUR_SIDE + d in s.pool
  {
    StepKeeps(s, New, t);
    DestroyRemoves(t.pool, OUR_SIDE + t.cref);
    forall d | IsCref(d) && d != t.cref ensures OUR_SIDE + d in s.pool {
      assert Ahead(t.cref, t.cref) == 32767;
      assert Ahead(t.cref, d) < 32767;
      assert OUR_SIDE + d in u.pool;
    }
  }

  // ------------------------------------------------------------------ the controller

  class Master {
    var callpool: seq<int>
    var cref: int

    ghost predicate Valid()
      reads this
    {
      Distinct(callpool) && IsCref(cref)
    }

    ghost function View(): State
      reads this
    {
      State(callpool, cref)
    }

    constructor ()
      ensures Valid() && View() == State([], 1)
    {
      callpool := [];
      cref := 1;
    }

    /** `q931_getcall`: the position of the call in the pool. */
    method GetCall(cr: int) returns (i: nat)
      requires Valid()
      modifies this`callpool
      ensures Valid() && Step(old(View()), Get(cr), View())
      ensures i < |callpool| && callpool[i] == cr
    {
      i := 0;
      while i < |callpool|
        invariant 0 <= i <= |callpool| && cr !in callpool[..i]
      {
        if callpool[i] == cr { return; }
        i := i + 1;
      }
      assert callpool[..i] == callpool;
      callpool := callpool + [cr];
    }

    method InUse(cr: int) returns (found: bool)
      ensures found <==> cr in callpool
    {
      var i := 0;
      while i < |callpool|
        invariant 0 <= i <= |callpool| && cr !in callpool[..i]
      {
        if callpool[i] == cr { return true; }
        i := i + 1;
      }
      assert callpool[..i] == callpool;
      return false;
    }

    /** `q931_new_call`. The search ends whenever some reference is free, which is what it requires: the
        C loop runs forever otherwise. */
    method NewCall() returns (i: nat)
      requires Valid() && HasFree(callpool)
      modifies this
      ensures Valid() && Step(old(View()), New, View())
      ensures i < |callpool| && callpool[i] == OUR_SIDE + cref
    {
      ghost var start := cref;
      ghost var goal :| IsCref(goal) && OUR_SIDE + goal !in callpool;
      ghost var steps := 0;
      var busy := true;
      while busy
        invariant IsCref(cref) && callpool == old(callpool) && 0 <= steps
        invariant busy ==> forall d :: IsCref(d) && Ahead(start, d) <= steps ==> OUR_SIDE + d in callpool
        invariant busy ==>
                    forall d :: IsCref(d) && Ahead(start, d) > steps ==> Ahead(start, d) == steps + Ahead(cref, d)
        invariant !busy ==> FirstFree(callpool, start, cref)
        decreases busy, Ahead(start, goal) - steps
      {
        ghost var was := cref;
        cref := cref + 1;
        if cref > MAX_CREF { cref := 1; }
        Stepped(start, was, steps);
        busy := InUse(OUR_SIDE + cref);
        steps := steps + 1;
      }
      i := GetCall(OUR_SIDE + cref);
    }

    /** What one turn of the counter means for every reference still ahead. */
    static lemma Stepped(start: int, c: int, steps: int)
      requires IsCref(c) && 0 <= steps
      requires forall d :: IsCref(d) && Ahead(start, d) > steps ==> Ahead(start, d) == steps + Ahead(c, d)
      ensures forall d :: IsCref(d) && Ahead(start, d) > steps + 1 ==> Ahead(start, d) == steps + 1 + Ahead(Next(c), d)
      ensures forall d :: IsCref(d) && Ahead(start, d) == steps + 1 ==> d == Next(c)
    {
      forall d | IsCref(d) && Ahead(start, d) > steps
        ensures Ahead(start, d) == steps + 1 ==> d == Next(c)
        ensures Ahead(start, d) > steps + 1 ==> Ahead(start, d) == steps + 1 + Ahead(Next(c), d)
      {
        NextIsCloser(c, d);
      }
    }

    /** `q931_destroycall`. */
    method Destroy(cr: int)
      requires Valid()
      modifies this`callpool
      ensures Valid() && Step(old(View()), DestroyCall(cr), View())
    {
      hide AfterDestroy, Distinct;
      var i := 0;
      assert callpool[..0] == [] && callpool[0..] == callpool;
      while i < |callpool|
        invariant 0 <= i <= |callpool| && callpool == old(callpool)
        invariant AfterDestroy(callpool, cr) == callpool[..i] + AfterDestroy(callpool[i..], cr)
      {
        DestroyStep(callpool[i..], cr);
        assert callpool[i..][1..] == callpool[i + 1..];
        if callpool[i] == cr {
          DestroyRemoves(callpool, cr);
          callpool := callpool[..i] + callpool[i + 1..];
          return;
        }
        assert callpool[..i + 1] == callpool[..i] + [callpool[i]];
        i := i + 1;
      }
      DestroyRemoves(callpool, cr);
      DestroyStep(callpool[i..], cr);
      assert callpool[..i] + [] == callpool;
    }

    static lemma DestroyStep(pool: seq<int>, cr: int)
      ensures AfterDestroy(pool, cr) ==
              if pool == [] then [] else if pool[0] == cr then pool[1..] else [pool[0]] + AfterDestroy(pool[1..], cr)
    {
    }
  }
}
