/** Information elements of Q.931 messages: what `add_ie` writes, with codeset shifts, and what the
    loop of `q931_receive` reads (sections 4.5.3 and 4.5.4 of Q.931; libpri/q931.c). */
module Q931Ie {
  import opened Common

  const LOCKING_SHIFT := 0x90
  const NON_LOCKING_SHIFT := 0x98

  /** An element without its codeset. A single-octet element (top bit set) has no contents. */
  datatype Ie = Ie(id: byte, contents: seq<byte>)

  /** An element as the receiver handles it. */
  datatype Seen = Seen(codeset: int, ie: Ie)

  /** One entry of a message's element list: its codeset, the elements its `transmit` function has for
      it, possibly none, and whether it then fails. */
  datatype Entry = Entry(codeset: int, ies: seq<Ie>, fails: bool)

  predicate IsShift(id: int) {
    id / 8 == LOCKING_SHIFT / 8 || id / 8 == NON_LOCKING_SHIFT / 8
  }

  predicate ValidIe(x: Ie) {
    && !IsShift(x.id)
    && if x.id >= 0x80 then x.contents == [] else |x.contents| < 256
  }

  predicate ValidEntry(e: Entry) {
    0 <= e.codeset < 8 && forall i :: 0 <= i < |e.ies| ==> ValidIe(e.ies[i])
  }

  predicate ValidEntries(es: seq<Entry>) {
    forall i :: 0 <= i < |es| ==> ValidEntry(es[i])
  }

  // ------------------------------------------------------------------ writing

  function IeOctets(x: Ie): (s: seq<byte>)
    requires ValidIe(x)
    ensures s != [] && s[0] == x.id
  {
    if x.id >= 0x80 then [x.id] else [x.id, |x.contents|] + x.contents
  }

  function IesOctets(xs: seq<Ie>): seq<byte>
    requires forall i :: 0 <= i < |xs| ==> ValidIe(xs[i])
  {
    if xs == [] then [] else IeOctets(xs[0]) + IesOctets(xs[1..])
  }

  /** The shift in front of an entry, if any: locking, except to codeset 0. */
  function Shift(codeset: int, e: Entry): seq<byte>
    requires ValidEntry(e)
  {
    if codeset == e.codeset || e.ies == [] then []
    else if e.codeset > 0 then [LOCKING_SHIFT + e.codeset]
    else [NON_LOCKING_SHIFT]
  }

  /** `*codeset` after `add_ie`: it never goes back to 0. */
  function AfterEntry(codeset: int, e: Entry): int {
    if e.ies != [] && e.codeset > 0 then e.codeset else codeset
  }

  /** What the calls of `add_ie` in `send_message` write. */
  function Write(es: seq<Entry>, codeset: int): seq<byte>
    requires ValidEntries(es)
    decreases |es|
  {
    if es == [] then []
    else Shift(codeset, es[0]) + (IesOctets(es[0].ies) + Write(es[1..], AfterEntry(codeset, es[0])))
  }

  // ------------------------------------------------------------------ reading

  /** `ielen` of the element at the head, None if it runs past the end. */
  function ElementLength(s: seq<byte>): (r: Option<nat>)
    requires s != []
    ensures r.Some? ==> 1 <= r.value <= |s|
  {
    if s[0] >= 0x80 then Some(1)
    else if |s| < 2 || |s| - 2 < s[1] then None
    else
      var n: nat := s[1];
      Some(n + 2)
  }

  /** The elements the receive loop visits, one slice each; None if one is longer than what is left. */
  function Elements(s: seq<byte>): (r: Option<seq<seq<byte>>>)
    decreases |s|
  {
    if s == [] then Some([])
    else
      var n :- ElementLength(s);
      var rest :- Elements(s[n..]);
      Some([s[..n]] + rest)
  }

  /** The elements the loop visits on any body, up to one that is longer than what is left. */
  function Visited(s: seq<byte>): (r: seq<seq<byte>>)
    ensures forall i :: 0 <= i < |r| ==> r[i] != []
    decreases |s|
  {
    if s == [] then []
    else match ElementLength(s)
      case None => []
      case Some(n) => [s[..n]] + Visited(s[n..])
  }

  /** The element handed to its handler. */
  function IeOf(e: seq<byte>): Ie
    requires e != []
  {
    Ie(e[0], if |e| < 2 then [] else e[2..])
  }

  /** The loop body over the visited elements: locked and current codeset. `ignore` is the switch types
      that drop an element behind a non-locking shift. */
  function Interpret(es: seq<seq<byte>>, codeset: int, current: int, ignore: bool): seq<Seen>
    requires forall i :: 0 <= i < |es| ==> es[i] != []
  {
    if es == [] then []
    else
      var id := es[0][0];
      if id / 8 == LOCKING_SHIFT / 8 then
        if id % 8 > 0 then Interpret(es[1..], id % 8, id % 8, ignore)
        else Interpret(es[1..], codeset, current, ignore)
      else if id / 8 == NON_LOCKING_SHIFT / 8 then Interpret(es[1..], codeset, id % 8, ignore)
      else
        (if ignore && current != codeset then [] else [Seen(current, IeOf(es[0]))])
        + Interpret(es[1..], codeset, codeset, ignore)
  }

  /** The receive loop: what is handled, None if the message is rejected. */
  function Read(s: seq<byte>, ignore: bool): Option<seq<Seen>> {
    var es :- Elements(s);
    ElementsTile(s);
    Some(Interpret(es, 0, 0, ignore))
  }

  /** What the receive loop has handled when it ends, also by rejecting the message. */
  function Handled(s: seq<byte>, ignore: bool): seq<Seen> {
    Interpret(Visited(s), 0, 0, ignore)
  }

  // ------------------------------------------------------------------ the visited elements tile the body

  function Concat(es: seq<seq<byte>>): seq<byte> {
    if es == [] then [] else es[0] + Concat(es[1..])
  }

  /** One element: a single octet with the top bit, or an octet, a length and that many octets. */
  predicate IsElement(e: seq<byte>) {
    e != [] && if e[0] >= 0x80 then |e| == 1 else |e| >= 2 && |e| - 2 == e[1]
  }

  /** Nothing skipped, nothing shared: the slices are elements and concatenate to the body. */
  lemma {:induction false} ElementsTile(s: seq<byte>)
    ensures var es := Elements(s);
            es.Some? ==> Concat(es.value) == s && forall i :: 0 <= i < |es.value| ==> IsElement(es.value[i])
    decreases |s|
  {
    if s != [] && Elements(s).Some? {
      var n := ElementLength(s).value;
      ElementsTile(s[n..]);
      var rest := Elements(s[n..]).value;
      assert Elements(s).value[1..] == rest;
      assert s[..n] + s[n..] == s;
      assert s[..n][0] == s[0];
    }
  }

  lemma HeadElement(e: seq<byte>, t: seq<byte>)
    requires IsElement(e)
    ensures Elements(e + t) == match Elements(t) case None => None case Some(rest) => Some([e] + rest)
  {
    var s := e + t;
    assert s[0] == e[0] && (|e| >= 2 ==> s[1] == e[1]);
    assert s[..|e|] == e && s[|e|..] == t;
  }

  lemma {:induction false} TilingIsVisited(es: seq<seq<byte>>)
    requires forall i :: 0 <= i < |es| ==> IsElement(es[i])
    ensures Elements(Concat(es)) == Some(es)
    decreases |es|
  {
    if es != [] {
      TilingIsVisited(es[1..]);
      HeadElement(es[0], Concat(es[1..]));
      assert [es[0]] + es[1..] == es;
    }
  }

  /** The loop accepts a body exactly when it can be cut into elements, and visits that cut: it is the
      only one. */
  lemma VisitsTheOnlyTiling(s: seq<byte>, es: seq<seq<byte>>)
    ensures Elements(s) == Some(es) <==> Concat(es) == s && forall i :: 0 <= i < |es| ==> IsElement(es[i])
  {
    ElementsTile(s);
    if Concat(es) == s && forall i :: 0 <= i < |es| ==> IsElement(es[i]) {
      TilingIsVisited(es);
    }
  }

  lemma {:induction false} VisitedTile(s: seq<byte>)
    ensures var es := Visited(s);
            && (forall i :: 0 <= i < |es| ==> IsElement(es[i]))
            && Concat(es) <= s
            && (var rest := s[|Concat(es)|..]; rest == [] || ElementLength(rest) == None)
    ensures Elements(s) == if Concat(Visited(s)) == s then Some(Visited(s)) else None
    decreases |s|
  {
    if s != [] && ElementLength(s).Some? {
      var n := ElementLength(s).value;
      var t := s[n..];
      var es := Visited(s);
      VisitedTile(t);
      assert es[1..] == Visited(t);
      assert s[..n] + t == s;
      assert s[|Concat(es)|..] == t[|Concat(Visited(t))|..];
      assert Concat(es) == s <==> Concat(Visited(t)) == t by {
        if Concat(es) == s { assert Concat(es)[n..] == Concat(Visited(t)); }
      }
    }
  }

  lemma HeadVisited(e: seq<byte>, t: seq<byte>)
    requires IsElement(e)
    ensures Visited(e + t) == [e] + Visited(t)
  {
    var s := e + t;
    assert s[0] == e[0] && (|e| >= 2 ==> s[1] == e[1]);
    assert s[..|e|] == e && s[|e|..] == t;
  }

  lemma {:induction false} CutIsVisited(es: seq<seq<byte>>, rest: seq<byte>)
    requires forall i :: 0 <= i < |es| ==> IsElement(es[i])
    requires rest == [] || ElementLength(rest) == None
    ensures Visited(Concat(es) + rest) == es
    decreases |es|
  {
    if es == [] {
      assert Concat(es) + rest == rest;
    } else {
      CutIsVisited(es[1..], rest);
      HeadVisited(es[0], Concat(es[1..]) + rest);
      assert Concat(es) + rest == es[0] + (Concat(es[1..]) + rest);
      assert [es[0]] + es[1..] == es;
    }
  }

  /** On every body, rejected or not, the loop visits the only cut of a prefix into elements behind which
      there is nothing, or only an element longer than what is left; it accepts in the first case. */
  lemma VisitsTheLongestTiling(s: seq<byte>, es: seq<seq<byte>>)
    ensures Visited(s) == es <==>
            && (forall i :: 0 <= i < |es| ==> IsElement(es[i]))
            && Concat(es) <= s
            && (var rest := s[|Concat(es)|..]; rest == [] || ElementLength(rest) == None)
    ensures Elements(s).Some? <==> Concat(Visited(s)) == s
  {
    hide Visited, Elements, ElementLength, IsElement, Concat;
    VisitedTile(s);
    if (forall i :: 0 <= i < |es| ==> IsElement(es[i])) && Concat(es) <= s {
      var rest := s[|Concat(es)|..];
      if rest == [] || ElementLength(rest) == None {
        CutIsVisited(es, rest);
        assert Concat(es) + rest == s;
      }
    }
  }

  /** An accepted message has had all its elements handled. */
  lemma ReadIsHandled(s: seq<byte>, ignore: bool)
    ensures Read(s, ignore).Some? ==> Read(s, ignore).value == Handled(s, ignore)
  {
    VisitedTile(s);
  }

  // ------------------------------------------------------------------ what the receiver makes of a message

  /** What the sender meant. */
  function Meant(es: seq<Entry>): seq<Seen>
    decreases |es|
  {
    if es == [] then [] else InCodeset(es[0].ies, es[0].codeset) + Meant(es[1..])
  }

  function InCodeset(xs: seq<Ie>, codeset: int): seq<Seen> {
    if xs == [] then [] else [Seen(codeset, xs[0])] + InCodeset(xs[1..], codeset)
  }

  /** An entry written behind a non-locking shift. */
  predicate Returns(codeset: int, e: Entry) {
    e.codeset == 0 && codeset != 0
  }

  /** What the receiver sees of one entry: only the first element of a returning one is in codeset 0. */
  function SeenOfEntry(codeset: int, e: Entry, ignore: bool): seq<Seen> {
    if Returns(codeset, e) && e.ies != [] then
      (if ignore then [] else [Seen(0, e.ies[0])]) + InCodeset(e.ies[1..], codeset)
    else InCodeset(e.ies, e.codeset)
  }

  function SeenOf(es: seq<Entry>, codeset: int, ignore: bool): seq<Seen>
    decreases |es|
  {
    if es == [] then []
    else SeenOfEntry(codeset, es[0], ignore) + SeenOf(es[1..], AfterEntry(codeset, es[0]), ignore)
  }

  // ------------------------------------------------------------------ writing, element by element

  function Slices(xs: seq<Ie>): (r: seq<seq<byte>>)
    requires forall i :: 0 <= i < |xs| ==> ValidIe(xs[i])
    ensures |r| == |xs| && forall i :: 0 <= i < |xs| ==> r[i] == IeOctets(xs[i])
  {
    seq(|xs|, i requires 0 <= i < |xs| => IeOctets(xs[i]))
  }

  /** The elements of the written message. */
  function Written(es: seq<Entry>, codeset: int): seq<seq<byte>>
    requires ValidEntries(es)
    decreases |es|
  {
    if es == [] then []
    else
      var shift := Shift(codeset, es[0]);
      (if shift == [] then [] else [shift]) + (Slices(es[0].ies) + Written(es[1..], AfterEntry(codeset, es[0])))
  }

  lemma IeIsElement(x: Ie)
    requires ValidIe(x)
    ensures IsElement(IeOctets(x)) && IeOf(IeOctets(x)) == x
  {
    if x.id < 0x80 { assert IeOctets(x)[2..] == x.contents; }
  }

  lemma {:induction false} ConcatAppend(a: seq<seq<byte>>, b: seq<seq<byte>>)
    ensures Concat(a + b) == Concat(a) + Concat(b)
    decreases |a|
  {
    if a == [] {
      assert a + b == b;
    } else {
      ConcatAppend(a[1..], b);
      assert (a + b)[1..] == a[1..] + b;
    }
  }

  lemma {:induction false} SlicesConcat(xs: seq<Ie>)
    requires forall i :: 0 <= i < |xs| ==> ValidIe(xs[i])
    ensures Concat(Slices(xs)) == IesOctets(xs)
    decreases |xs|
  {
    if xs != [] {
      SlicesConcat(xs[1..]);
      assert Slices(xs)[1..] == Slices(xs[1..]);
    }
  }

  lemma ShiftIsElement(codeset: int, e: Entry)
    requires ValidEntry(e)
    ensures Shift(codeset, e) != [] ==> IsElement(Shift(codeset, e))
    ensures Concat(if Shift(codeset, e) == [] then [] else [Shift(codeset, e)]) == Shift(codeset, e)
  {
    var s := Shift(codeset, e);
    var none: seq<seq<byte>> := [];
    assert [s][1..] == none;
    assert Concat([s]) == s + [];
  }

  lemma {:induction false} WrittenTiles(es: seq<Entry>, codeset: int)
    requires ValidEntries(es)
    ensures Concat(Written(es, codeset)) == Write(es, codeset)
    ensures forall i :: 0 <= i < |Written(es, codeset)| ==> IsElement(Written(es, codeset)[i])
    decreases |es|
  {
    hide IsElement, IeOctets, Shift;
    if es != [] {
      var e := es[0];
      var shift := Shift(codeset, e);
      var first := if shift == [] then [] else [shift];
      var rest := Written(es[1..], AfterEntry(codeset, e));
      WrittenTiles(es[1..], AfterEntry(codeset, e));
      ShiftIsElement(codeset, e);
      SlicesConcat(e.ies);
      ConcatAppend(Slices(e.ies), rest);
      ConcatAppend(first, Slices(e.ies) + rest);
      forall i | 0 <= i < |e.ies| ensures IsElement(Slices(e.ies)[i]) { IeIsElement(e.ies[i]); }
    }
  }

  // ------------------------------------------------------------------ reading it back

  lemma JoinSeen(a: seq<Seen>, b: seq<Seen>, c: seq<Seen>)
    ensures a + (b + c) == a + b + c
  {
  }

  lemma InterpretOne(x: Ie, tail: seq<seq<byte>>, codeset: int, current: int, ignore: bool)
    requires ValidIe(x) && forall i :: 0 <= i < |tail| ==> tail[i] != []
    ensures Interpret([IeOctets(x)] + tail, codeset, current, ignore) ==
            (if ignore && current != codeset then [] else [Seen(current, x)])
            + Interpret(tail, codeset, codeset, ignore)
  {
    IeIsElement(x);
    assert ([IeOctets(x)] + tail)[1..] == tail;
  }

  lemma {:induction false} InterpretPlain(xs: seq<Ie>, rest: seq<seq<byte>>, codeset: int, ignore: bool)
    requires forall i :: 0 <= i < |xs| ==> ValidIe(xs[i])
    requires forall i :: 0 <= i < |rest| ==> rest[i] != []
    ensures forall i :: 0 <= i < |Slices(xs) + rest| ==> (Slices(xs) + rest)[i] != []
    ensures Interpret(Slices(xs) + rest, codeset, codeset, ignore) ==
            InCodeset(xs, codeset) + Interpret(rest, codeset, codeset, ignore)
    decreases |xs|
  {
    hide Interpret, IeOctets;
    if xs == [] {
      assert Slices(xs) + rest == rest;
    } else {
      var tail := Slices(xs[1..]) + rest;
      InterpretPlain(xs[1..], rest, codeset, ignore);
      assert Slices(xs) + rest == [IeOctets(xs[0])] + tail;
      InterpretOne(xs[0], tail, codeset, codeset, ignore);
      JoinSeen([Seen(codeset, xs[0])], InCodeset(xs[1..], codeset), Interpret(rest, codeset, codeset, ignore));
    }
  }

  /** One element behind a non-locking shift, then the locked codeset again. */
  lemma InterpretReturning(xs: seq<Ie>, rest: seq<seq<byte>>, codeset: int, ignore: bool)
    requires xs != [] && codeset != 0 && forall i :: 0 <= i < |xs| ==> ValidIe(xs[i])
    requires forall i :: 0 <= i < |rest| ==> rest[i] != []
    ensures forall i :: 0 <= i < |Slices(xs) + rest| ==> (Slices(xs) + rest)[i] != []
    ensures Interpret(Slices(xs) + rest, codeset, 0, ignore) ==
            (if ignore then [] else [Seen(0, xs[0])]) + InCodeset(xs[1..], codeset)
            + Interpret(rest, codeset, codeset, ignore)
  {
    hide Interpret, IeOctets;
    var tail := Slices(xs[1..]) + rest;
    InterpretPlain(xs[1..], rest, codeset, ignore);
    assert Slices(xs) + rest == [IeOctets(xs[0])] + tail;
    InterpretOne(xs[0], tail, codeset, 0, ignore);
    JoinSeen(if ignore then [] else [Seen(0, xs[0])],
             InCodeset(xs[1..], codeset), Interpret(rest, codeset, codeset, ignore));
  }

  lemma InterpretShift(shift: seq<byte>, rest: seq<seq<byte>>, codeset: int, ignore: bool)
    requires |shift| == 1 && IsShift(shift[0]) && (shift[0] / 8 == LOCKING_SHIFT / 8 ==> shift[0] % 8 > 0)
    requires forall i :: 0 <= i < |rest| ==> rest[i] != []
    ensures Interpret([shift] + rest, codeset, codeset, ignore) ==
            if shift[0] / 8 == LOCKING_SHIFT / 8 then Interpret(rest, shift[0] % 8, shift[0] % 8, ignore)
            else Interpret(rest, codeset, shift[0] % 8, ignore)
  {
    assert ([shift] + rest)[1..] == rest;
  }

  lemma {:induction false} InterpretWritten(es: seq<Entry>, codeset: int, ignore: bool)
    requires ValidEntries(es) && 0 <= codeset < 8
    ensures forall i :: 0 <= i < |Written(es, codeset)| ==> Written(es, codeset)[i] != []
    ensures Interpret(Written(es, codeset), codeset, codeset, ignore) == SeenOf(es, codeset, ignore)
    decreases |es|
  {
    hide Interpret, IeOctets;
    if es == [] {
      InterpretNone(codeset, ignore);
    } else {
      var e := es[0];
      var after := AfterEntry(codeset, e);
      var rest := Written(es[1..], after);
      InterpretWritten(es[1..], after, ignore);
      var shift := Shift(codeset, e);
      if shift == [] {
        assert [] + (Slices(e.ies) + rest) == Slices(e.ies) + rest;
        InterpretPlain(e.ies, rest, codeset, ignore);
        if e.ies == [] { assert InCodeset(e.ies, codeset) == InCodeset(e.ies, e.codeset) == []; }
      } else if Returns(codeset, e) {
        InterpretReturning(e.ies, rest, codeset, ignore);
        InterpretShift(shift, Slices(e.ies) + rest, codeset, ignore);
      } else {
        InterpretPlain(e.ies, rest, e.codeset, ignore);
        InterpretShift(shift, Slices(e.ies) + rest, codeset, ignore);
      }
    }
  }

  lemma InterpretNone(codeset: int, ignore: bool)
    ensures Interpret([], codeset, codeset, ignore) == []
  {
  }

  /** On every message: what the receiver sees. */
  lemma ReadOfWrite(es: seq<Entry>, ignore: bool)
    requires ValidEntries(es)
    ensures Read(Write(es, 0), ignore) == Some(SeenOf(es, 0, ignore))
  {
    hide Interpret, Elements, Written, Write;
    WrittenTiles(es, 0);
    TilingIsVisited(Written(es, 0));
    InterpretWritten(es, 0, ignore);
  }

  // ------------------------------------------------------------------ when that is what was meant

  /** Every entry that returns to codeset 0 writes at most one element, and none where the receiver
      drops elements behind a non-locking shift. */
  predicate ReturnsAreShort(es: seq<Entry>, codeset: int, ignore: bool)
    decreases |es|
  {
    es == [] ||
    ((Returns(codeset, es[0]) ==> |es[0].ies| <= if ignore then 0 else 1)
     && ReturnsAreShort(es[1..], AfterEntry(codeset, es[0]), ignore))
  }

  lemma {:induction false} InCodesetLength(xs: seq<Ie>, codeset: int)
    ensures |InCodeset(xs, codeset)| == |xs|
    decreases |xs|
  {
    if xs != [] { InCodesetLength(xs[1..], codeset); }
  }

  /** What is seen of one entry against what was meant: never longer, and equal only if short. */
  lemma EntrySeen(codeset: int, e: Entry, ignore: bool)
    requires ValidEntry(e)
    ensures |SeenOfEntry(codeset, e, ignore)| <= |InCodeset(e.ies, e.codeset)|
    ensures SeenOfEntry(codeset, e, ignore) == InCodeset(e.ies, e.codeset) <==>
            (Returns(codeset, e) ==> |e.ies| <= if ignore then 0 else 1)
  {
    InCodesetLength(e.ies, e.codeset);
    if Returns(codeset, e) && e.ies != [] {
      InCodesetLength(e.ies[1..], codeset);
      InCodesetLength(e.ies[1..], 0);
      if |e.ies| >= 2 && !ignore {
        assert SeenOfEntry(codeset, e, ignore)[1] == Seen(codeset, e.ies[1]);
        assert InCodeset(e.ies, 0)[1] == Seen(0, e.ies[1]);
      }
    }
  }

  lemma {:induction false} SeenLength(es: seq<Entry>, codeset: int, ignore: bool)
    requires ValidEntries(es)
    ensures |SeenOf(es, codeset, ignore)| <= |Meant(es)|
    decreases |es|
  {
    if es != [] {
      EntrySeen(codeset, es[0], ignore);
      SeenLength(es[1..], AfterEntry(codeset, es[0]), ignore);
    }
  }

  lemma EqualParts(a: seq<Seen>, b: seq<Seen>, c: seq<Seen>, d: seq<Seen>)
    requires |a| <= |c| && |b| <= |d|
    ensures a + b == c + d <==> a == c && b == d
  {
    if a + b == c + d {
      assert |a| == |c|;
      assert a == (a + b)[..|a|] == c;
      assert b == (a + b)[|a|..] == d;
    }
  }

  lemma {:induction false} SeenIsMeantIff(es: seq<Entry>, codeset: int, ignore: bool)
    requires ValidEntries(es)
    ensures SeenOf(es, codeset, ignore) == Meant(es) <==> ReturnsAreShort(es, codeset, ignore)
    decreases |es|
  {
    hide SeenOfEntry, InCodeset;
    if es != [] {
      var after := AfterEntry(codeset, es[0]);
      SeenIsMeantIff(es[1..], after, ignore);
      EntrySeen(codeset, es[0], ignore);
      SeenLength(es[1..], after, ignore);
      EqualParts(SeenOfEntry(codeset, es[0], ignore), SeenOf(es[1..], after, ignore),
                 InCodeset(es[0].ies, es[0].codeset), Meant(es[1..]));
    }
  }

  /** The receive loop recovers exactly the ordered list the sender meant if and only if every entry
      returning to codeset 0 writes at most one element (none on the switch types that drop them). */
  lemma ReadRecoversIff(es: seq<Entry>, ignore: bool)
    requires ValidEntries(es)
    ensures Read(Write(es, 0), ignore) == Some(Meant(es)) <==> ReturnsAreShort(es, 0, ignore)
  {
    ReadOfWrite(es, ignore);
    SeenIsMeantIff(es, 0, ignore);
  }
}
