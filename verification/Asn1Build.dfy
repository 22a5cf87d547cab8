/** Building components in place: ASN1_CONSTRUCTED_BEGIN reserves one length octet, and
    ASN1_CONSTRUCTED_END (`asn1_enc_length_fixup`) moves the body when its length needs more. For any
    nesting the buffer ends up with the definite-length octets of the tree. */
module Asn1Build {
  import opened Common
  import opened Asn1
  import opened Asn1Primitive
  import opened Asn1StringIo

  /** What a sequence of encoder calls builds. */
  datatype Tree =
    | Prim(tag: byte, body: seq<byte>)
    | Cons(tag: byte, kids: seq<Tree>)

  /** The tag octet ASN1_CONSTRUCTED_BEGIN writes. */
  function Constructed(tag: byte): (r: byte)
    ensures IsConstructed(r)
  {
    if IsConstructed(tag) then tag else tag + 0x20
  }

  /** The definite-length octets of a tree. */
  function Ser(t: Tree): (s: seq<byte>)
    ensures |s| >= 2
    decreases t, 0
  {
    match t
    case Prim(tag, body) => [tag] + (EncLength(|body|) + body)
    case Cons(tag, kids) => [Constructed(tag)] + (EncLength(|SerAll(kids)|) + SerAll(kids))
  }

  function SerAll(ts: seq<Tree>): seq<byte>
    decreases ts, 1
  {
    if ts == [] then [] else Ser(ts[0]) + SerAll(ts[1..])
  }

  lemma {:induction false} SerAllSnoc(ts: seq<Tree>, i: nat)
    requires i < |ts|
    ensures SerAll(ts[..i + 1]) == SerAll(ts[..i]) + Ser(ts[i])
    decreases i
  {
    hide Ser;
    if i == 0 {
      assert ts[..1][1..] == [];
    } else {
      SerAllSnoc(ts[1..], i - 1);
      assert ts[1..][..i - 1] == ts[..i][1..] && ts[1..][..i] == ts[..i + 1][1..];
    }
  }

  lemma {:induction false} SerAllPrefix(ts: seq<Tree>, i: nat)
    requires i <= |ts|
    ensures |SerAll(ts[..i])| <= |SerAll(ts)|
    decreases |ts| - i
  {
    if i == |ts| {
      assert ts[..i] == ts;
    } else {
      SerAllSnoc(ts, i);
      SerAllPrefix(ts, i + 1);
    }
  }

  // ------------------------------------------------------------------ the macros

  /** ASN1_CONSTRUCTED_BEGIN: the position of the reserved length octet is one before the result. */
  method Begin(a: array<byte>, pos: nat, end: nat, tag: byte) returns (r: Option<nat>)
    requires pos <= end <= a.Length
    modifies a
    ensures r.Some? <==> pos + 2 <= end
    ensures r.None? ==> a[..] == old(a[..])
    ensures r.Some? ==> r.value == pos + 2 && a[..] == Put(old(a[..]), pos, [Constructed(tag), 1])
  {
    hide Put;
    ghost var was := a[..];
    if end < pos + 2 { return None; }
    Store(a, pos, Constructed(tag));
    Store(a, pos + 1, 1);
    PutPut(was, pos, [Constructed(tag)], [1]);
    assert [Constructed(tag)] + [1] == [Constructed(tag), 1];
    return Some(pos + 2);
  }

  /** memmove within the buffer. */
  method Move(a: array<byte>, dst: nat, src: nat, n: nat)
    requires dst + n <= a.Length && src + n <= a.Length
    modifies a
    ensures a[..] == Put(old(a[..]), dst, old(a[src..src + n]))
  {
    ghost var was := a[..];
    if dst <= src {
      var i := 0;
      while i < n
        invariant 0 <= i <= n
        invariant forall j :: dst <= j < dst + i ==> a[j] == was[src + (j - dst)]
        invariant forall j :: 0 <= j < a.Length && !(dst <= j < dst + i) ==> a[j] == was[j]
      {
        a[dst + i] := a[src + i];
        i := i + 1;
      }
    } else {
      var i := n;
      while i > 0
        invariant 0 <= i <= n
        invariant forall j :: dst + i <= j < dst + n ==> a[j] == was[src + (j - dst)]
        invariant forall j :: 0 <= j < a.Length && !(dst + i <= j < dst + n) ==> a[j] == was[j]
      {
        i := i - 1;
        a[dst + i] := a[src + i];
      }
    }
    MovedIsPut(a[..], was, dst, src, n);
  }

  lemma MovedIsPut(now: seq<byte>, was: seq<byte>, dst: nat, src: nat, n: nat)
    requires |now| == |was| && dst + n <= |was| && src + n <= |was|
    requires forall j :: dst <= j < dst + n ==> now[j] == was[src + (j - dst)]
    requires forall j :: 0 <= j < |was| && !(dst <= j < dst + n) ==> now[j] == was[j]
    ensures now == Put(was, dst, was[src..src + n])
  {
    assert now[..dst] == was[..dst];
    assert now[dst..dst + n] == was[src..src + n];
    assert now[dst + n..] == was[dst + n..];
  }

  lemma MovedThenLength(orig: seq<byte>, lenPos: nat, size: nat, len: seq<byte>, body: seq<byte>)
    requires |len| == size && lenPos + size + |body| <= |orig|
    ensures Put(Put(orig, lenPos + size, body), lenPos, len) == Put(orig, lenPos, len + body)
  {
  }

  /** `asn1_enc_length_fixup`. The octet at `lenPos` says how many octets were reserved for the length. */
  method FixLength(a: array<byte>, lenPos: nat, componentEnd: nat, end: nat) returns (r: Option<nat>)
    requires lenPos < componentEnd <= end && end <= a.Length && a.Length < 0x1_0000_0000
    modifies a
    ensures var from := lenPos + old(a[lenPos]);
            && (r.Some? <==>
                  from <= componentEnd && lenPos + LengthSize(componentEnd - from) + (componentEnd - from) <= end)
            && (r.Some? ==> r.value == lenPos + LengthSize(componentEnd - from) + (componentEnd - from))
            && (r.Some? ==>
                  a[..] == Put(old(a[..]), lenPos, EncLength(componentEnd - from) + old(a[from..componentEnd])))
    ensures r.None? ==> a[..] == old(a[..])
  {
    hide Put, EncLength;
    ghost var was := a[..];
    var hint := a[lenPos];
    if componentEnd < lenPos + hint { return None; }
    var from := lenPos + hint;
    var n := componentEnd - from;
    ghost var body := a[from..componentEnd];
    var size := FindLengthSize(n);
    if end < lenPos + size + n { return None; }
    if size != hint {
      Move(a, lenPos + size, from, n);
    } else {
      PutSame(was, from, componentEnd);
    }
    assert a[..] == Put(was, lenPos + size, body);
    StoreLength(a, lenPos, n, size);
    MovedThenLength(was, lenPos, size, EncLength(n), body);
    return Some(lenPos + size + n);
  }

  lemma PutSame(s: seq<byte>, from: nat, to: nat)
    requires from <= to <= |s|
    ensures Put(s, from, s[from..to]) == s
  {
  }

  // ------------------------------------------------------------------ any nesting

  lemma FitsLater(kids: seq<Tree>, tag: byte, i: nat)
    requires i <= |kids|
    ensures 2 + |SerAll(kids[..i])| <= |Ser(Cons(tag, kids))|
  {
    SerAllPrefix(kids, i);
  }

  /** A component before it is closed: the reserved length octet, then its body. */
  lemma Opened(orig: seq<byte>, pos: nat, t: byte, body: seq<byte>)
    requires pos + 2 + |body| <= |orig|
    ensures var open := Put(orig, pos, [t, 1] + body);
            open[pos + 1] == 1 && open[pos + 2..pos + 2 + |body|] == body
  {
    var open := Put(orig, pos, [t, 1] + body);
    assert open[pos..pos + 2 + |body|] == [t, 1] + body;
    assert open[pos + 1] == ([t, 1] + body)[1];
    assert open[pos + 2..pos + 2 + |body|] == ([t, 1] + body)[2..];
  }

  /** A constructed component: what stands at its length octet and behind once it is closed. */
  lemma Closed(orig: seq<byte>, pos: nat, tag: byte, kids: seq<Tree>)
    requires pos + |Ser(Cons(tag, kids))| <= |orig|
    ensures var body := SerAll(kids);
            var open := Put(orig, pos, [Constructed(tag), 1] + body);
            Put(open, pos + 1, EncLength(|body|) + body) == Put(orig, pos, Ser(Cons(tag, kids)))
  {
    hide SerAll;
    hide EncLength;
    var body := SerAll(kids);
    var t: byte := Constructed(tag);
    var open := Put(orig, pos, [t, 1] + body);
    var s := EncLength(|body|) + body;
    assert open[..pos + 1] == orig[..pos] + [t];
    assert open[pos + 1 + |s|..] == orig[pos + 1 + |s|..];
    assert Put(open, pos + 1, s) == orig[..pos] + ([t] + s) + orig[pos + 1 + |s|..];
  }

  /** Building any tree in place leaves exactly its definite-length octets at `pos`, and succeeds
      exactly when they fit; octets before `pos` and from `end` on are never touched. */
  method Build(a: array<byte>, pos: nat, end: nat, t: Tree) returns (r: Option<nat>)
    requires pos <= end <= a.Length && a.Length < 0x1_0000_0000
    modifies a
    ensures r.Some? <==> pos + |Ser(t)| <= end
    ensures r.Some? ==> r.value == pos + |Ser(t)| && a[..] == Put(old(a[..]), pos, Ser(t))
    ensures r.None? ==> a[..pos] == old(a[..pos]) && a[end..] == old(a[end..])
    decreases t, 2
  {
    match t {
      case Prim(tag, body) => r := BuildPrim(a, pos, end, tag, body);
      case Cons(tag, kids) => r := BuildCons(a, pos, end, t);
    }
  }

  method BuildPrim(a: array<byte>, pos: nat, end: nat, tag: byte, body: seq<byte>) returns (r: Option<nat>)
    requires pos <= end <= a.Length && a.Length < 0x1_0000_0000
    modifies a
    ensures r.Some? <==> pos + |Ser(Prim(tag, body))| <= end
    ensures r.Some? ==> r.value == pos + |Ser(Prim(tag, body))| && a[..] == Put(old(a[..]), pos, Ser(Prim(tag, body)))
    ensures r.None? ==> a[..pos] == old(a[..pos]) && a[end..] == old(a[end..])
  {
    hide Put;
    if end < pos + 1 + |body| {
      if pos < end { Store(a, pos, tag); }
      return None;
    }
    r := EncodeString(a, pos, end, tag, body);
  }

  method BuildCons(a: array<byte>, pos: nat, end: nat, t: Tree) returns (r: Option<nat>)
    requires t.Cons? && pos <= end <= a.Length && a.Length < 0x1_0000_0000
    modifies a
    ensures r.Some? <==> pos + |Ser(t)| <= end
    ensures r.Some? ==> r.value == pos + |Ser(t)| && a[..] == Put(old(a[..]), pos, Ser(t))
    ensures r.None? ==> a[..pos] == old(a[..pos]) && a[end..] == old(a[end..])
    decreases t, 1
  {
    hide Put, EncLength, SerAll, At;
    ghost var was := a[..];
    FitsLater(t.kids, t.tag, 0);
    var inner := Begin(a, pos, end, t.tag);
    if inner == None { return None; }
    PutFrame(was, pos, [Constructed(t.tag), 1], end);
    ghost var before := a[..];
    var last := BuildAll(a, inner.value, end, t.kids);
    if last == None {
      FrameBefore(before, a[..], pos, inner.value);
      return None;
    }
    PutPut(was, pos, [Constructed(t.tag), 1], SerAll(t.kids));
    PutFrame(was, pos, [Constructed(t.tag), 1] + SerAll(t.kids), end);
    Opened(was, pos, Constructed(t.tag), SerAll(t.kids));
    assert a[pos + 1] == a[..][pos + 1] && a[pos + 2..last.value] == a[..][pos + 2..last.value];
    if pos + |Ser(t)| <= end {
      Closed(was, pos, t.tag, t.kids);
    }
    r := FixLength(a, pos + 1, last.value, end);
  }

  lemma FrameBefore(before: seq<byte>, now: seq<byte>, pos: nat, at: nat)
    requires pos <= at <= |before| && |now| == |before| && now[..at] == before[..at]
    ensures now[..pos] == before[..pos]
  {
    assert now[..pos] == now[..at][..pos] && before[..pos] == before[..at][..pos];
  }

  method BuildAll(a: array<byte>, pos: nat, end: nat, ts: seq<Tree>) returns (r: Option<nat>)
    requires pos <= end <= a.Length && a.Length < 0x1_0000_0000
    modifies a
    ensures r.Some? <==> pos + |SerAll(ts)| <= end
    ensures r.Some? ==> r.value == pos + |SerAll(ts)| && a[..] == Put(old(a[..]), pos, SerAll(ts))
    ensures r.None? ==> a[..pos] == old(a[..pos]) && a[end..] == old(a[end..])
    decreases ts, 0
  {
    assert ts[..0] == [] && SerAll([]) == [];
    hide Put, Ser, SerAll;
    ghost var was := a[..];
    PutNone(was, pos);
    var at := pos;
    var i := 0;
    while i < |ts|
      invariant 0 <= i <= |ts| && at == pos + |SerAll(ts[..i])| && at <= end
      invariant a[..] == Put(was, pos, SerAll(ts[..i]))
    {
      SerAllSnoc(ts, i);
      SerAllPrefix(ts, i + 1);
      PutFrame(was, pos, SerAll(ts[..i]), end);
      ghost var before := a[..];
      var q := Build(a, at, end, ts[i]);
      if q == None {
        FrameBefore(before, a[..], pos, at);
        return None;
      }
      PutPut(was, pos, SerAll(ts[..i]), Ser(ts[i]));
      at := q.value;
      i := i + 1;
    }
    assert ts[..i] == ts;
    return Some(at);
  }
}
