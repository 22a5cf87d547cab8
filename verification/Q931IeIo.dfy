/** `add_ie`, the element loop of `send_message` and the element loop of `q931_receive` over buffers. */
module Q931IeIo {
  import opened Common
  import opened Asn1Primitive
  import opened Asn1StringIo
  import opened Q931Ie

  // ------------------------------------------------------------------ writing

  lemma IesStep(xs: seq<Ie>, i: nat)
    requires i < |xs| && forall k :: 0 <= k < |xs| ==> ValidIe(xs[k])
    ensures IesOctets(xs[i..]) == IeOctets(xs[i]) + IesOctets(xs[i + 1..])
  {
    assert xs[i..][1..] == xs[i + 1..];
  }

  lemma PrefixOfPut(was: seq<byte>, pos: nat, s: seq<byte>)
    requires pos + |s| <= |was|
    ensures Put(was, pos, s)[..pos + |s|] == was[..pos] + s
  {
  }

  /** One element, as its `transmit` function leaves it: `add_ie` sets the identifier and the length. */
  method StoreIe(a: array<byte>, pos: nat, x: Ie) returns (res: nat)
    requires ValidIe(x) && pos + |IeOctets(x)| <= a.Length
    modifies a
    ensures res == |IeOctets(x)| && a[..pos + res] == old(a[..pos]) + IeOctets(x)
  {
    ghost var was := a[..];
    if x.id >= 0x80 {
      Store(a, pos, x.id);
      res := 1;
    } else {
      Store(a, pos, x.id);
      Store(a, pos + 1, |x.contents|);
      StoreAll(a, pos + 2, x.contents);
      PutThree(was, pos, [x.id], [|x.contents|], x.contents);
      assert [x.id] + ([|x.contents|] + x.contents) == IeOctets(x);
      res := 2 + |x.contents|;
    }
    PrefixOfPut(was, pos, IeOctets(x));
  }

  /** The do-while loop of `add_ie` over the elements an entry emits. Each is refused (-1) if it does not
      fit in what is left; `fails`: the `transmit` function fails in the end. */
  method StoreIes(a: array<byte>, pos: nat, maxlen: int, xs: seq<Ie>, fails: bool) returns (total: int)
    requires (forall k :: 0 <= k < |xs| ==> ValidIe(xs[k])) && pos <= a.Length && pos + maxlen <= a.Length
    modifies a
    ensures total >= 0 <==> !fails && (xs == [] || |IesOctets(xs)| <= maxlen)
    ensures total >= 0 ==> total == |IesOctets(xs)| && a[..pos + total] == old(a[..pos]) + IesOctets(xs)
  {
    hide IeOctets, ValidIe, IesOctets;
    total := 0;
    var order := 0;
    assert xs[0..] == xs;
    ghost var head := a[..pos];
    EmptyEntry(xs);
    while order < |xs|
      invariant 0 <= order <= |xs| && 0 <= total && total + |IesOctets(xs[order..])| == |IesOctets(xs)|
      invariant order > 0 ==> total <= maxlen
      invariant pos + total <= a.Length && a[..pos + total] + IesOctets(xs[order..]) == head + IesOctets(xs)
    {
      IesStep(xs, order);
      if |IeOctets(xs[order])| > maxlen - total { return -1; }
      ghost var sofar := a[..pos + total];
      var res := StoreIe(a, pos + total, xs[order]);
      assert sofar + IeOctets(xs[order]) + IesOctets(xs[order + 1..]) == sofar + IesOctets(xs[order..]);
      total := total + res;
      order := order + 1;
    }
    EmptyEntry(xs[order..]);
    assert IesOctets(xs[order..]) == [];
    assert a[..pos + total] + [] == a[..pos + total];
    if fails { total := -1; }
  }

  /** `add_ie` where a shift is needed. One written for an entry that emits nothing is not counted, and
      the next entry overwrites it. */
  method AddShifted(a: array<byte>, offset: nat, maxlen: nat, e: Entry, codeset: int) returns (res: int, after: int)
    requires ValidEntry(e) && offset + maxlen < a.Length && codeset != e.codeset
    modifies a
    ensures res >= 0 <==> !e.fails && |Shift(codeset, e)| + |IesOctets(e.ies)| <= maxlen
    ensures res >= 0 ==>
              && res == |Shift(codeset, e)| + |IesOctets(e.ies)| && after == AfterEntry(codeset, e)
              && a[..offset + res] == old(a[..offset]) + (Shift(codeset, e) + IesOctets(e.ies))
  {
    hide IesOctets, IeOctets, ValidIe, Put;
    ghost var head := a[..offset];
    var shift: byte := if e.codeset > 0 then LOCKING_SHIFT + e.codeset else NON_LOCKING_SHIFT;
    PrefixOfPut(a[..], offset, [shift]);
    Store(a, offset, shift);
    after := codeset;
    var total := StoreIes(a, offset + 1, maxlen - 1, e.ies, e.fails);
    EmptyEntry(e.ies);
    if total < 0 { return -1, after; }
    if total > 0 {
      if e.codeset > 0 { after := e.codeset; }
      res := total + 1;
      assert head + [shift] + IesOctets(e.ies) == head + ([shift] + IesOctets(e.ies));
    } else {
      res := 0;
      assert a[..offset] == a[..offset + 1 + total][..offset];
      assert head + ([] + IesOctets(e.ies)) == head;
    }
  }

  /** `add_ie`: -1 if the entry fails, or its shift and elements do not fit in `maxlen`. The octet behind
      `maxlen` is for a shift that turns out not to be needed. */
  method AddIe(a: array<byte>, offset: nat, maxlen: nat, e: Entry, codeset: int) returns (res: int, after: int)
    requires ValidEntry(e) && offset + maxlen < a.Length
    modifies a
    ensures res >= 0 <==> !e.fails && |Shift(codeset, e)| + |IesOctets(e.ies)| <= maxlen
    ensures res >= 0 ==>
              && res == |Shift(codeset, e)| + |IesOctets(e.ies)| && after == AfterEntry(codeset, e)
              && a[..offset + res] == old(a[..offset]) + (Shift(codeset, e) + IesOctets(e.ies))
  {
    hide IesOctets, ValidIe;
    if codeset != e.codeset {
      res, after := AddShifted(a, offset, maxlen, e, codeset);
    } else {
      EmptyEntry(e.ies);
      res := StoreIes(a, offset, maxlen, e.ies, e.fails);
      after := codeset;
      assert [] + IesOctets(e.ies) == IesOctets(e.ies);
    }
  }

  lemma EmptyEntry(xs: seq<Ie>)
    requires forall k :: 0 <= k < |xs| ==> ValidIe(xs[k])
    ensures |IesOctets(xs)| == 0 <==> xs == []
  {
    if xs != [] { assert IeOctets(xs[0]) != []; }
  }

  lemma WriteStep(es: seq<Entry>, i: nat, codeset: int)
    requires ValidEntries(es) && i < |es|
    ensures ValidEntries(es[i..]) && ValidEntries(es[i + 1..]) && ValidEntry(es[i])
    ensures Write(es[i..], codeset) ==
            Shift(codeset, es[i]) + (IesOctets(es[i].ies) + Write(es[i + 1..], AfterEntry(codeset, es[i])))
  {
    assert es[i..][1..] == es[i + 1..];
  }

  lemma WriteNothing(es: seq<Entry>, codeset: int)
    requires es == []
    ensures Write(es, codeset) == []
  {
  }

  predicate NoneFails(es: seq<Entry>) {
    forall i :: 0 <= i < |es| ==> !es[i].fails
  }

  /** The element loop of `send_message`: -1, and nothing is sent, exactly if an entry fails or the
      message does not fit in `room`. */
  method WriteMessage(a: array<byte>, room: nat, es: seq<Entry>) returns (offset: int)
    requires ValidEntries(es) && room < a.Length
    modifies a
    ensures offset >= 0 <==> NoneFails(es) && |Write(es, 0)| <= room
    ensures offset >= 0 ==> offset == |Write(es, 0)| && a[..offset] == Write(es, 0)
  {
    hide Write, Shift, IesOctets, ValidEntries, ValidEntry;
    offset := 0;
    var len: int := room;
    var codeset := 0;
    var x := 0;
    assert es[0..] == es;
    while x < |es|
      invariant 0 <= x <= |es| && ValidEntries(es[x..]) && 0 <= offset && 0 <= len && offset + len == room
      invariant a[..offset] + Write(es[x..], codeset) == Write(es, 0)
      invariant forall i :: 0 <= i < x ==> !es[i].fails
    {
      WriteStep(es, x, codeset);
      ghost var e, before, rest := es[x], a[..offset], Write(es[x + 1..], AfterEntry(codeset, es[x]));
      Regroup(before, Shift(codeset, e), IesOctets(e.ies), rest);
      ghost var shift := Shift(codeset, e);
      assert |before| + |shift| + |IesOctets(e.ies)| + |rest| == |Write(es, 0)|;
      var res, after := AddIe(a, offset, len, es[x], codeset);
      if res < 0 { return -1; }
      offset := offset + res;
      len := len - res;
      codeset := after;
      x := x + 1;
    }
    assert es[x..] == [];
    WriteNothing(es[x..], codeset);
    assert a[..offset] + [] == a[..offset];
  }

  lemma Regroup(a: seq<byte>, b: seq<byte>, c: seq<byte>, d: seq<byte>)
    ensures a + (b + (c + d)) == a + (b + c) + d
    ensures |a + (b + (c + d))| == |a| + |b| + |c| + |d|
  {
  }

  // ------------------------------------------------------------------ reading

  function HandledFrom(s: seq<byte>, codeset: int, current: int, ignore: bool): seq<Seen> {
    Interpret(Visited(s), codeset, current, ignore)
  }

  lemma HandledStep(s: seq<byte>, codeset: int, current: int, ignore: bool, done: seq<Seen>)
    requires s != []
    ensures done + HandledFrom(s, codeset, current, ignore) ==
            match ElementLength(s)
            case None => done
            case Some(n) =>
              if s[0] / 8 == LOCKING_SHIFT / 8 then
                if s[0] % 8 > 0 then done + HandledFrom(s[n..], s[0] % 8, s[0] % 8, ignore)
                else done + HandledFrom(s[n..], codeset, current, ignore)
              else if s[0] / 8 == NON_LOCKING_SHIFT / 8 then done + HandledFrom(s[n..], codeset, s[0] % 8, ignore)
              else done + (if ignore && current != codeset then [] else [Seen(current, IeOf(s[..n]))])
                   + HandledFrom(s[n..], codeset, codeset, ignore)
  {
    hide Interpret, IeOf;
    match ElementLength(s)
    case None =>
      HandledNothing(done, codeset, current, ignore);
    case Some(n) =>
      InterpretHead(s[..n], Visited(s[n..]), codeset, current, ignore, done);
  }

  lemma InterpretHead(e: seq<byte>, rest: seq<seq<byte>>, codeset: int, current: int, ignore: bool, done: seq<Seen>)
    requires e != [] && forall i :: 0 <= i < |rest| ==> rest[i] != []
    ensures done + Interpret([e] + rest, codeset, current, ignore) ==
            if e[0] / 8 == LOCKING_SHIFT / 8 then
              if e[0] % 8 > 0 then done + Interpret(rest, e[0] % 8, e[0] % 8, ignore)
              else done + Interpret(rest, codeset, current, ignore)
            else if e[0] / 8 == NON_LOCKING_SHIFT / 8 then done + Interpret(rest, codeset, e[0] % 8, ignore)
            else done + (if ignore && current != codeset then [] else [Seen(current, IeOf(e))])
                 + Interpret(rest, codeset, codeset, ignore)
  {
    assert ([e] + rest)[1..] == rest;
    JoinSeen(done, if ignore && current != codeset then [] else [Seen(current, IeOf(e))],
             Interpret(rest, codeset, codeset, ignore));
  }

  lemma HandledNothing(done: seq<Seen>, codeset: int, current: int, ignore: bool)
    ensures done + Interpret([], codeset, current, ignore) == done
  {
  }

  lemma HandledStart(s: seq<byte>, ignore: bool)
    ensures [] + HandledFrom(s, 0, 0, ignore) == Handled(s, ignore)
  {
  }

  lemma HandledEnd(done: seq<Seen>, codeset: int, current: int, ignore: bool)
    ensures done + HandledFrom([], codeset, current, ignore) == done && Elements([]).Some?
  {
  }

  lemma AcceptedStep(s: seq<byte>)
    requires s != []
    ensures Elements(s).Some? <==> ElementLength(s).Some? && Elements(s[ElementLength(s).value..]).Some?
  {
  }

  /** The element loop of `q931_receive`; `handled` is what it passed to `q931_handle_ie`, whether or not
      the message is then rejected. */
  method ReceiveIes(body: seq<byte>, ignore: bool) returns (ok: bool, handled: seq<Seen>)
    ensures ok <==> Read(body, ignore).Some?
    ensures handled == Handled(body, ignore)
    ensures ok ==> handled == Read(body, ignore).value
  {
    ReadIsHandled(body, ignore);
    hide HandledFrom, Handled, Elements, ElementLength;
    var x, len := 0, |body|;
    var codeset: int, current: int := 0, 0;
    handled := [];
    HandledStart(body, ignore);
    assert body[0..] == body;
    while len > 0
      invariant 0 <= x <= |body| && len == |body| - x
      invariant handled + HandledFrom(body[x..], codeset, current, ignore) == Handled(body, ignore)
      invariant Elements(body[x..]).Some? <==> Elements(body).Some?
    {
      ghost var s := body[x..];
      HandledStep(s, codeset, current, ignore, handled);
      AcceptedStep(s);
      var id := body[x];
      var r := ElementLength(body[x..]);
      if r == None { return false, handled; }
      assert s[r.value..] == body[x + r.value..] && s[..r.value] == body[x..x + r.value];
      if id / 8 == LOCKING_SHIFT / 8 {
        if id % 8 > 0 {
          codeset := id % 8;
          current := id % 8;
        }
      } else if id / 8 == NON_LOCKING_SHIFT / 8 {
        current := id % 8;
      } else {
        if !(ignore && current != codeset) {
          handled := handled + [Seen(current, IeOf(body[x..x + r.value]))];
        } else {
          assert handled + [] == handled;
        }
        current := codeset;
      }
      x := x + r.value;
      len := len - r.value;
    }
    assert body[x..] == [];
    HandledEnd(handled, codeset, current, ignore);
    return true, handled;
  }
}
