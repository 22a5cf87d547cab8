/** Skipping an indefinite-length component (`asn1_dec_indef_end_fixup_helper`): the helper
    returns position q exactly when the octets up to q are a sequence of well-formed components
    followed by the matching end-of-contents. */
module Asn1Skip {
  import opened Common
  import opened Asn1

  /** An indefinite-length component the helper takes to be constructed, by the ITU rules. */
  predicate IsItu(tag: int) {
    IsConstructed(tag) || tag == 0x10 || tag == 0x11
  }

  /** The inner loop over a component that is not. */
  function FindZero(buf: seq<byte>, pos: nat, end: nat): (q: nat)
    requires pos <= end <= |buf|
    ensures pos <= q <= end
    ensures forall i :: pos <= i < q ==> buf[i] != 0
    ensures q < end ==> buf[q] == 0
    decreases end - pos
  {
    if pos < end && buf[pos] != 0 then FindZero(buf, pos + 1, end) else pos
  }

  /** `asn1_dec_indef_end_fixup_helper`. `pos` can pass `end` after a zero-terminated component. */
  function Skip(buf: seq<byte>, pos: nat, end: nat): (r: Option<nat>)
    requires end <= |buf|
    ensures r.Some? ==> pos + 2 <= r.value <= end
    decreases (if pos < end then end - pos else 0), 1
  {
    if pos < end && buf[pos] != INDEF_TERM then
      match Component(buf, pos, end)
      case None => None
      case Some(q) => Skip(buf, q, end)
    else if end < pos + INDEF_TERM_LEN then None
    else Some(pos + INDEF_TERM_LEN)
  }

  /** The body of its loop: one component, whatever its form. */
  function Component(buf: seq<byte>, pos: nat, end: nat): (r: Option<nat>)
    requires pos < end && end <= |buf|
    ensures r.Some? ==> pos < r.value
    decreases end - pos, 0
  {
    match DecTag(buf, pos, end)
    case None => None
    case Some(t) =>
      match DecLength(buf, t.1, end)
      case None => None
      case Some(l) =>
        if l.0 >= 0 then Some(l.1 + l.0)
        else if IsItu(t.0) then Skip(buf, l.1, end)
        else Some(FindZero(buf, l.1, end) + INDEF_TERM_LEN)
  }

  // ------------------------------------------------------------------ what is being skipped

  /** A component: tag octets, length octets, and contents. `last` is the octet after the zero that
      ends an indefinite component; the helper steps over it without looking. */
  datatype Node =
    | Definite(tag: seq<byte>, len: seq<byte>, body: seq<byte>)
    | Nested(tag: seq<byte>, len: seq<byte>, kids: seq<Node>, last: byte)
    | ZeroEnded(tag: seq<byte>, len: seq<byte>, body: seq<byte>, last: byte)

  function NodeOctets(n: Node): seq<byte>
    decreases n, 0
  {
    match n
    case Definite(tag, len, body) => tag + len + body
    case Nested(tag, len, kids, last) => tag + len + (ForestOctets(kids) + [0, last])
    case ZeroEnded(tag, len, body, last) => tag + len + (body + [0, last])
  }

  function ForestOctets(ns: seq<Node>): seq<byte>
    decreases ns, 1
  {
    if ns == [] then [] else NodeOctets(ns[0]) + ForestOctets(ns[1..])
  }

  /** `s` is exactly one tag, not the end-of-contents one, and decodes to `t`. */
  predicate TagOctets(s: seq<byte>, t: nat) {
    s != [] && s[0] != INDEF_TERM && DecTag(s, 0, |s|) == Some((t, |s|))
  }

  /** `s` is exactly the length octets for `v` (negative: indefinite). */
  predicate LengthOctets(s: seq<byte>, v: int) {
    s != [] &&
    if s[0] < 0x80 then |s| == 1 && v == s[0]
    else if s[0] == 0x80 then |s| == 1 && v == -1
    else s[0] != 0xFF && |s| == 1 + (s[0] - 0x80) && v == Accumulate(s[1..])
  }

  ghost predicate WellFormed(n: Node)
    decreases n, 0
  {
    match n
    case Definite(tag, len, body) => (exists t: nat :: TagOctets(tag, t)) && LengthOctets(len, |body|)
    case Nested(tag, len, kids, _) =>
      && (exists t: nat :: TagOctets(tag, t) && IsItu(t)) && (exists v :: v < 0 && LengthOctets(len, v))
      && AllWellFormed(kids)
    case ZeroEnded(tag, len, body, _) =>
      && (exists t: nat :: TagOctets(tag, t) && !IsItu(t)) && (exists v :: v < 0 && LengthOctets(len, v))
      && 0 !in body
  }

  ghost predicate AllWellFormed(ns: seq<Node>)
    decreases ns, 1
  {
    ns == [] || (WellFormed(ns[0]) && AllWellFormed(ns[1..]))
  }

  // ------------------------------------------------------------------ decoders are local

  lemma {:induction false} ExtendedTagLocal(buf: seq<byte>, pos: nat, end: nat, s: seq<byte>, i: nat, acc: nat)
    requires end <= |buf| && At(buf, pos, s) && pos + |s| <= end && i <= |s|
    requires ExtendedTag(s, i, |s|, acc).Some? && ExtendedTag(s, i, |s|, acc).value.1 == |s|
    ensures ExtendedTag(buf, pos + i, end, acc) == Some((ExtendedTag(s, i, |s|, acc).value.0, pos + |s|))
    decreases |s| - i
  {
    AtIndex(buf, pos, s, i);
    if s[i] >= 128 {
      ExtendedTagLocal(buf, pos, end, s, i + 1, (acc * 128 + s[i] % 128) % 0x1_0000_0000);
    }
  }

  lemma TagLocal(buf: seq<byte>, pos: nat, end: nat, s: seq<byte>, t: nat)
    requires end <= |buf| && At(buf, pos, s) && pos + |s| <= end && TagOctets(s, t)
    ensures DecTag(buf, pos, end) == Some((t, pos + |s|))
  {
    AtIndex(buf, pos, s, 0);
    if s[0] % 32 == TYPE_EXTENSION {
      ExtendedTagLocal(buf, pos, end, s, 1, 0);
    }
  }

  lemma LengthLocal(buf: seq<byte>, pos: nat, end: nat, s: seq<byte>, v: int)
    requires end <= |buf| && At(buf, pos, s) && pos + |s| <= end && LengthOctets(s, v)
    requires v >= 0 ==> pos + |s| + v <= end
    requires v < 0 ==> pos + |s| + 2 <= end
    ensures DecLength(buf, pos, end) == Some((v, pos + |s|))
  {
    AtIndex(buf, pos, s, 0);
    if s[0] > 0x80 {
      assert s == [s[0]] + s[1..];
      AtParts(buf, pos, [s[0]], s[1..]);
    }
  }

  lemma ZeroLocal(buf: seq<byte>, pos: nat, end: nat, body: seq<byte>, q: nat)
    requires pos <= q <= end && end <= |buf| && At(buf, pos, body) && 0 !in body
    requires pos + |body| < end && buf[pos + |body|] == 0
    requires q == FindZero(buf, pos, end)
    ensures q == pos + |body|
  {
    if q < pos + |body| {
      AtIndex(buf, pos, body, q - pos);
      assert false;
    }
  }

  // ------------------------------------------------------------------ the helper skips what it should

  /** Tag and length octets of a component at `pos`, and where they leave the decoders. */
  lemma HeaderLocal(buf: seq<byte>, pos: nat, end: nat, tag: seq<byte>, t: nat, len: seq<byte>, v: int, rest: seq<byte>)
    requires end <= |buf| && TagOctets(tag, t) && LengthOctets(len, v)
    requires At(buf, pos, tag + len + rest) && pos + |tag + len + rest| <= end
    requires if v >= 0 then |rest| == v else |rest| >= 2
    ensures pos < end && buf[pos] != INDEF_TERM
    ensures DecTag(buf, pos, end) == Some((t, pos + |tag|))
    ensures DecLength(buf, pos + |tag|, end) == Some((v, pos + |tag| + |len|))
    ensures At(buf, pos + |tag| + |len|, rest)
  {
    AtParts(buf, pos, tag + len, rest);
    AtParts(buf, pos, tag, len);
    AtIndex(buf, pos, tag, 0);
    TagLocal(buf, pos, end, tag, t);
    LengthLocal(buf, pos + |tag|, end, len, v);
  }

  lemma SkipsZeroEnded(buf: seq<byte>, p: nat, end: nat, body: seq<byte>, last: byte)
    requires end <= |buf| && At(buf, p, body + [0, last]) && p + |body| + 2 <= end && 0 !in body
    ensures FindZero(buf, p, end) == p + |body|
  {
    AtParts(buf, p, body, [0, last]);
    AtIndex(buf, p + |body|, [0, last], 0);
    ZeroLocal(buf, p, end, body, FindZero(buf, p, end));
  }

  lemma AtEnd(buf: seq<byte>, pos: nat, end: nat, last: byte)
    requires end <= |buf| && At(buf, pos, [] + [0, last]) && pos + 2 <= end
    ensures Skip(buf, pos, end) == Some(pos + 2)
  {
    AtIndex(buf, pos, [0, last], 0);
  }

  lemma DefiniteComponent(buf: seq<byte>, pos: nat, end: nat, t: nat, tEnd: nat, v: nat, p: nat)
    requires pos < end && end <= |buf|
    requires DecTag(buf, pos, end) == Some((t, tEnd)) && DecLength(buf, tEnd, end) == Some((v, p))
    ensures Component(buf, pos, end) == Some(p + v)
  {
    hide DecTag, DecLength;
  }

  lemma SkipsDefinite(buf: seq<byte>, pos: nat, end: nat, n: Node, q: nat)
    requires n.Definite?
    requires end <= |buf| && WellFormed(n) && At(buf, pos, NodeOctets(n)) && q == pos + |NodeOctets(n)| <= end
    ensures pos < end && buf[pos] != INDEF_TERM && Component(buf, pos, end) == Some(q)
  {
    hide DecTag, DecLength;
    var t: nat :| TagOctets(n.tag, t);
    HeaderLocal(buf, pos, end, n.tag, t, n.len, |n.body|, n.body);
    DefiniteComponent(buf, pos, end, t, pos + |n.tag|, |n.body|, pos + |n.tag| + |n.len|);
  }

  /** Header of an indefinite component, and where its contents start. */
  lemma IndefiniteHeader(buf: seq<byte>, pos: nat, end: nat, n: Node, rest: seq<byte>) returns (t: nat, v: int)
    requires !n.Definite? && end <= |buf| && WellFormed(n) && |rest| >= 2
    requires At(buf, pos, n.tag + n.len + rest) && pos + |n.tag + n.len + rest| <= end
    ensures pos < end && buf[pos] != INDEF_TERM && v < 0 && (IsItu(t) <==> n.Nested?)
    ensures DecTag(buf, pos, end) == Some((t, pos + |n.tag|))
    ensures DecLength(buf, pos + |n.tag|, end) == Some((v, pos + |n.tag| + |n.len|))
    ensures At(buf, pos + |n.tag| + |n.len|, rest)
  {
    var t0: nat :| TagOctets(n.tag, t0) && (IsItu(t0) <==> n.Nested?);
    var v0 :| v0 < 0 && LengthOctets(n.len, v0);
    HeaderLocal(buf, pos, end, n.tag, t0, n.len, v0, rest);
    t, v := t0, v0;
  }

  /** The loop body on an indefinite component, once the header is known. */
  lemma IndefiniteComponent(buf: seq<byte>, pos: nat, end: nat, t: nat, tEnd: nat, v: int, p: nat)
    requires pos < end && end <= |buf| && v < 0
    requires DecTag(buf, pos, end) == Some((t, tEnd)) && DecLength(buf, tEnd, end) == Some((v, p))
    ensures Component(buf, pos, end) ==
            if IsItu(t) then Skip(buf, p, end) else Some(FindZero(buf, p, end) + INDEF_TERM_LEN)
  {
    hide DecLength, DecTag;
  }

  lemma SkipsZeroEndedNode(buf: seq<byte>, pos: nat, end: nat, n: Node, q: nat)
    requires n.ZeroEnded?
    requires end <= |buf| && WellFormed(n) && At(buf, pos, NodeOctets(n)) && q == pos + |NodeOctets(n)| <= end
    ensures pos < end && buf[pos] != INDEF_TERM && Component(buf, pos, end) == Some(q)
  {
    hide DecLength, DecTag;
    var p := pos + |n.tag| + |n.len|;
    var t, v := IndefiniteHeader(buf, pos, end, n, n.body + [0, n.last]);
    SkipsZeroEnded(buf, p, end, n.body, n.last);
    IndefiniteComponent(buf, pos, end, t, pos + |n.tag|, v, p);
  }

  lemma SkipsNestedNode(buf: seq<byte>, pos: nat, end: nat, n: Node, q: nat)
    requires end <= |buf| && n.Nested? && Skip(buf, pos + |n.tag| + |n.len|, end) == Some(q)
    requires WellFormed(n) && At(buf, pos, NodeOctets(n)) && q == pos + |NodeOctets(n)| <= end
    ensures pos < end && buf[pos] != INDEF_TERM && Component(buf, pos, end) == Some(q)
  {
    hide DecLength, DecTag;
    var t, v := IndefiniteHeader(buf, pos, end, n, ForestOctets(n.kids) + [0, n.last]);
    IndefiniteComponent(buf, pos, end, t, pos + |n.tag|, v, pos + |n.tag| + |n.len|);
  }

  /** One component is stepped over. */
  lemma {:induction false} SkipsNode(buf: seq<byte>, pos: nat, end: nat, n: Node, q: nat)
    requires end <= |buf| && WellFormed(n) && At(buf, pos, NodeOctets(n)) && q == pos + |NodeOctets(n)| <= end
    ensures pos < end && buf[pos] != INDEF_TERM && Component(buf, pos, end) == Some(q)
    decreases n, 0
  {
    hide DecLength, DecTag;
    match n
    case Definite(_, _, _) => SkipsDefinite(buf, pos, end, n, q);
    case ZeroEnded(_, _, _, _) => SkipsZeroEndedNode(buf, pos, end, n, q);
    case Nested(tag, len, kids, last) =>
      AtParts(buf, pos, tag + len, ForestOctets(kids) + [0, last]);
      SkipsAll(buf, pos + |tag| + |len|, end, kids, last, q);
      SkipsNestedNode(buf, pos, end, n, q);
  }

  lemma Regroup(a: seq<byte>, b: seq<byte>, c: seq<byte>)
    ensures a + b + c == a + (b + c)
  {
  }

  /** A forest and its end-of-contents are stepped over, whatever follows. */
  lemma {:induction false} SkipsAll(buf: seq<byte>, pos: nat, end: nat, ns: seq<Node>, last: byte, q: nat)
    requires end <= |buf| && AllWellFormed(ns)
    requires At(buf, pos, ForestOctets(ns) + [0, last]) && q == pos + |ForestOctets(ns)| + 2 <= end
    ensures Skip(buf, pos, end) == Some(q)
    decreases ns, 1
  {
    hide Component, DecLength, DecTag;
    if ns == [] {
      AtEnd(buf, pos, end, last);
    } else {
      var first, rest := NodeOctets(ns[0]), ForestOctets(ns[1..]);
      Regroup(first, rest, [0, last]);
      AtParts(buf, pos, first, rest + [0, last]);
      SkipsNode(buf, pos, end, ns[0], pos + |first|);
      SkipsAll(buf, pos + |first|, end, ns[1..], last, q);
    }
  }

  // ------------------------------------------------------------------ and nothing else

  lemma {:induction false} ExtendedTagSlice(buf: seq<byte>, base: nat, pos: nat, end: nat, q: nat, acc: nat)
    requires base <= pos < q <= end <= |buf|
    requires ExtendedTag(buf, pos, end, acc).Some? && ExtendedTag(buf, pos, end, acc).value.1 == q
    ensures var s := buf[base..q];
            ExtendedTag(s, pos - base, |s|, acc) == Some((ExtendedTag(buf, pos, end, acc).value.0, |s|))
    decreases end - pos
  {
    var s := buf[base..q];
    assert s[pos - base] == buf[pos];
    if buf[pos] >= 128 {
      var r := ExtendedTag(buf, pos + 1, end, (acc * 128 + buf[pos] % 128) % 0x1_0000_0000);
      assert pos + 1 < q;
      ExtendedTagSlice(buf, base, pos + 1, end, q, (acc * 128 + buf[pos] % 128) % 0x1_0000_0000);
    }
  }

  lemma TagSlice(buf: seq<byte>, pos: nat, end: nat)
    requires end <= |buf| && DecTag(buf, pos, end).Some? && buf[pos] != 0
    ensures var t := DecTag(buf, pos, end).value;
            TagOctets(buf[pos..t.1], t.0)
  {
    var t := DecTag(buf, pos, end).value;
    var s := buf[pos..t.1];
    assert s[0] == buf[pos];
    if buf[pos] % 32 == TYPE_EXTENSION {
      ExtendedTagSlice(buf, pos, pos + 1, end, t.1, 0);
    }
  }

  lemma LengthSlice(buf: seq<byte>, pos: nat, end: nat)
    requires end <= |buf| && DecLength(buf, pos, end).Some?
    ensures var l := DecLength(buf, pos, end).value;
            LengthOctets(buf[pos..l.1], l.0)
  {
    var l := DecLength(buf, pos, end).value;
    var s := buf[pos..l.1];
    assert s[0] == buf[pos];
    assert s[1..] == buf[pos + 1..l.1];
  }

  lemma Join(buf: seq<byte>, a: nat, b: nat, c: nat)
    requires a <= b <= c && c <= |buf|
    ensures buf[a..c] == buf[a..b] + buf[b..c]
  {
  }

  lemma DefiniteShape(buf: seq<byte>, pos: nat, end: nat, t: (nat, nat), l: (int, nat)) returns (n: Node)
    requires end <= |buf| && pos < end && buf[pos] != INDEF_TERM
    requires DecTag(buf, pos, end) == Some(t) && DecLength(buf, t.1, end) == Some(l) && l.0 >= 0
    ensures WellFormed(n) && NodeOctets(n) == buf[pos..l.1 + l.0]
  {
    TagSlice(buf, pos, end);
    LengthSlice(buf, t.1, end);
    n := Definite(buf[pos..t.1], buf[t.1..l.1], buf[l.1..l.1 + l.0]);
    Join(buf, pos, t.1, l.1);
    Join(buf, pos, l.1, l.1 + l.0);
  }

  lemma ZeroEndedShape(buf: seq<byte>, pos: nat, end: nat, t: (nat, nat), l: (int, nat)) returns (n: Node)
    requires end <= |buf| && pos < end && buf[pos] != INDEF_TERM
    requires DecTag(buf, pos, end) == Some(t) && DecLength(buf, t.1, end) == Some(l) && l.0 < 0 && !IsItu(t.0)
    requires FindZero(buf, l.1, end) + 2 <= end
    ensures WellFormed(n) && NodeOctets(n) == buf[pos..FindZero(buf, l.1, end) + 2]
  {
    TagSlice(buf, pos, end);
    LengthSlice(buf, t.1, end);
    var z := FindZero(buf, l.1, end);
    n := ZeroEnded(buf[pos..t.1], buf[t.1..l.1], buf[l.1..z], buf[z + 1]);
    Join(buf, pos, t.1, l.1);
    Join(buf, pos, l.1, z + 2);
    assert buf[l.1..z + 2] == buf[l.1..z] + [0, buf[z + 1]];
  }

  lemma NestedShape(buf: seq<byte>, pos: nat, end: nat, t: (nat, nat), l: (int, nat), q: nat,
      kids: seq<Node>, last: byte) returns (n: Node)
    requires end <= |buf| && pos < end && buf[pos] != INDEF_TERM
    requires DecTag(buf, pos, end) == Some(t) && DecLength(buf, t.1, end) == Some(l) && l.0 < 0 && IsItu(t.0)
    requires l.1 <= q <= end && AllWellFormed(kids) && buf[l.1..q] == ForestOctets(kids) + [0, last]
    ensures WellFormed(n) && NodeOctets(n) == buf[pos..q]
  {
    TagSlice(buf, pos, end);
    LengthSlice(buf, t.1, end);
    n := Nested(buf[pos..t.1], buf[t.1..l.1], kids, last);
    Join(buf, pos, t.1, l.1);
    Join(buf, pos, l.1, q);
  }

  lemma AddNode(n: Node, ns: seq<Node>, last: byte)
    ensures ForestOctets([n] + ns) + [0, last] == NodeOctets(n) + (ForestOctets(ns) + [0, last])
    ensures WellFormed(n) && AllWellFormed(ns) ==> AllWellFormed([n] + ns)
  {
    assert ([n] + ns)[1..] == ns;
  }

  /** Whenever the helper succeeds, the octets it stepped over are a well-formed forest and an
      end-of-contents. */
  lemma {:induction false} SkippedIsForest(buf: seq<byte>, pos: nat, end: nat) returns (ns: seq<Node>, last: byte)
    requires end <= |buf| && Skip(buf, pos, end).Some?
    ensures AllWellFormed(ns) && buf[pos..Skip(buf, pos, end).value] == ForestOctets(ns) + [0, last]
    decreases if pos < end then end - pos else 0
  {
    hide DecLength, DecTag, WellFormed, NodeOctets, FindZero;
    var q := Skip(buf, pos, end).value;
    if pos < end && buf[pos] != INDEF_TERM {
      var t := DecTag(buf, pos, end).value;
      var l := DecLength(buf, t.1, end).value;
      var next := Component(buf, pos, end).value;
      var rest;
      rest, last := SkippedIsForest(buf, next, end);
      var n: Node;
      if l.0 >= 0 {
        n := DefiniteShape(buf, pos, end, t, l);
      } else if IsItu(t.0) {
        var kids, x := SkippedIsForest(buf, l.1, end);
        n := NestedShape(buf, pos, end, t, l, next, kids, x);
      } else {
        n := ZeroEndedShape(buf, pos, end, t, l);
      }
      ns := [n] + rest;
      AddNode(n, rest, last);
      Join(buf, pos, next, q);
    } else {
      ns, last := [], buf[pos + 1];
      assert buf[pos..q] == [0, last];
    }
  }

  /** Exactness: the helper returns q if and only if the octets from `pos` to q are well-formed
      components followed by their own end-of-contents. */
  lemma SkipIsExact(buf: seq<byte>, pos: nat, end: nat, q: nat)
    requires end <= |buf|
    ensures Skip(buf, pos, end) == Some(q) <==>
            pos <= q <= end && exists ns, last ::
              AllWellFormed(ns) && buf[pos..q] == ForestOctets(ns) + [0, last]
  {
    if Skip(buf, pos, end) == Some(q) {
      var ns, last := SkippedIsForest(buf, pos, end);
    }
    if pos <= q <= end {
      forall ns, last | AllWellFormed(ns) && buf[pos..q] == ForestOctets(ns) + [0, last]
        ensures Skip(buf, pos, end) == Some(q)
      {
        var s := ForestOctets(ns) + [0, last];
        assert |s| == q - pos && At(buf, pos, s);
        SkipsAll(buf, pos, end, ns, last, q);
      }
    }
  }
}
