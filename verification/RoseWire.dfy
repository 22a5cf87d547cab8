/** Components as the ROSE decoders meet them: what it means for octets to be one of the encodings
    of a component tree, whichever length form each node uses, and the steps every decoder is made
    of (libpri/asn1.h: ASN1_END_SETUP, ASN1_CHECK_TAG, ASN1_END_FIXUP). */
module RoseWire {
  import opened Common
  import opened Asn1
  import opened Asn1Build
  import opened Asn1Codec
  import opened Asn1Skip
  import opened Asn1Strings

  // ------------------------------------------------------------------ encodings of a tree

  function TagOf(t: Tree): byte {
    if t.Prim? then t.tag else Constructed(t.tag)
  }

  /** Octets `p` to `q` are an encoding of `t`: the length of every definite node in any valid form,
      and each constructed node either definite or indefinite with its end-of-contents. */
  ghost predicate Stands(buf: seq<byte>, p: nat, q: nat, t: Tree)
    decreases t, 0
  {
    && p < q <= |buf| && buf[p] == TagOf(t)
    && match t
       case Prim(_, body) =>
         exists m :: p < m && m + |body| == q && LengthOctets(buf[p + 1..m], |body|) && buf[m..q] == body
       case Cons(_, kids) =>
         exists m, e, indefinite :: Body(buf, p, q, m, e, indefinite) && StandAll(buf, m, e, kids)
  }

  /** The contents of a constructed component are octets `m` to `e`. */
  predicate Body(buf: seq<byte>, p: nat, q: nat, m: nat, e: nat, indefinite: bool)
  {
    && p + 1 < m <= e <= q <= |buf|
    && if indefinite then buf[p + 1..m] == [0x80] && q == e + 2 && buf[e..q] == [0, 0]
       else LengthOctets(buf[p + 1..m], e - m) && q == e
  }

  ghost predicate StandAll(buf: seq<byte>, p: nat, q: nat, ts: seq<Tree>)
    decreases ts, 1
  {
    p <= q <= |buf| &&
    if ts == [] then p == q
    else exists m :: Stands(buf, p, m, ts[0]) && StandAll(buf, m, q, ts[1..])
  }

  // ------------------------------------------------------------------ the built octets are one

  lemma EncLengthIsLength(n: nat)
    requires n < 0x8000_0000
    ensures LengthOctets(EncLength(n), n)
  {
    var s := EncLength(n);
    if n >= 128 {
      LengthSizeFits(n);
      AccumulateOctets(n, LengthSize(n) - 1);
      assert s[1..] == Octets(n, LengthSize(n) - 1);
    }
  }

  lemma SplitOctets(buf: seq<byte>, p: nat, tag: byte, len: seq<byte>, body: seq<byte>)
    requires At(buf, p, [tag] + (len + body))
    ensures buf[p] == tag && buf[p + 1..p + 1 + |len|] == len
    ensures At(buf, p + 1 + |len|, body)
  {
    AtParts(buf, p, [tag], len + body);
    AtIndex(buf, p, [tag], 0);
    AtParts(buf, p + 1, len, body);
  }

  /** `asn1_enc_*` output: the definite octets of a tree are one of its encodings. */
  lemma {:induction false} SerStands(buf: seq<byte>, p: nat, t: Tree)
    requires At(buf, p, Ser(t)) && |buf| < 0x8000_0000
    ensures Stands(buf, p, p + |Ser(t)|, t)
    decreases t, 0
  {
    hide EncLength, LengthOctets;
    var q := p + |Ser(t)|;
    match t {
      case Prim(tag, body) =>
        SplitOctets(buf, p, tag, EncLength(|body|), body);
        EncLengthIsLength(|body|);
        var m := p + 1 + |EncLength(|body|)|;
        assert LengthOctets(buf[p + 1..m], |body|) && buf[m..q] == body;
      case Cons(tag, kids) =>
        var n := |SerAll(kids)|;
        SplitOctets(buf, p, Constructed(tag), EncLength(n), SerAll(kids));
        EncLengthIsLength(n);
        var m := p + 1 + |EncLength(n)|;
        SerAllStands(buf, m, kids);
        assert Body(buf, p, q, m, q, false);
    }
  }

  lemma {:induction false} SerAllStands(buf: seq<byte>, p: nat, ts: seq<Tree>)
    requires At(buf, p, SerAll(ts)) && |buf| < 0x8000_0000
    ensures StandAll(buf, p, p + |SerAll(ts)|, ts)
    decreases ts, 1
  {
    hide Stands;
    if ts != [] {
      AtParts(buf, p, Ser(ts[0]), SerAll(ts[1..]));
      SerStands(buf, p, ts[0]);
      SerAllStands(buf, p + |Ser(ts[0])|, ts[1..]);
    }
  }

  // ------------------------------------------------------------------ taking a component list apart

  lemma Split(buf: seq<byte>, p: nat, q: nat, a: Tree, rest: seq<Tree>) returns (m: nat)
    requires StandAll(buf, p, q, [a] + rest)
    ensures p < m <= q && q <= |buf| && Stands(buf, p, m, a) && StandAll(buf, m, q, rest)
  {
    var ts := [a] + rest;
    assert ts[0] == a && ts[1..] == rest;
    m :| Stands(buf, p, m, ts[0]) && StandAll(buf, m, q, ts[1..]);
  }

  lemma Last(buf: seq<byte>, p: nat, q: nat, a: Tree)
    requires StandAll(buf, p, q, [a])
    ensures p < q && q <= |buf| && Stands(buf, p, q, a)
  {
    assert [a] == [a] + [];
    var m := Split(buf, p, q, a, []);
  }

  lemma NoneLeft(buf: seq<byte>, p: nat, q: nat)
    requires StandAll(buf, p, q, [])
    ensures p == q
  {
  }

  // ------------------------------------------------------------------ the steps of a decoder

  /** What ASN1_END_SETUP leaves behind: where the contents start, the end position to decode them
      against, and whether the length was indefinite. */
  datatype Frame = Frame(pos: nat, end: nat, indefinite: bool)

  /** `asn1_dec_length` and ASN1_END_SETUP. */
  function Open(buf: seq<byte>, pos: nat, end: nat): (r: Option<Frame>)
    requires end <= |buf|
    ensures r.Some? ==> pos < r.value.pos && r.value.end <= end
    ensures r.Some? && !r.value.indefinite ==> r.value.pos <= r.value.end
  {
    var l :- DecLength(buf, pos, end);
    if l.0 < 0 then Some(Frame(l.1, end, true)) else Some(Frame(l.1, l.1 + l.0, false))
  }

  /** ASN1_END_FIXUP: whatever is left of the component is skipped. */
  function Finish(buf: seq<byte>, pos: nat, f: Frame, end: nat): (r: Option<nat>)
    requires end <= |buf|
    ensures r.Some? ==> if f.indefinite then pos < r.value <= end else r.value == f.end
  {
    if f.indefinite then Skip(buf, pos, end) else Some(f.end)
  }

  /** The test before an optional component. */
  predicate More(buf: seq<byte>, pos: nat, end: nat)
    requires end <= |buf|
  {
    pos < end && buf[pos] != INDEF_TERM
  }

  /** `asn1_dec_tag` and ASN1_CHECK_TAG. */
  function TakeTag(buf: seq<byte>, pos: nat, end: nat, tag: byte): (r: Option<nat>)
    requires end <= |buf|
    ensures r.Some? ==> pos < r.value <= end
  {
    var t :- DecTag(buf, pos, end);
    if t.0 == tag then Some(t.1) else None
  }

  /** The same, followed by `asn1_dec_int`. */
  function TakeInt(buf: seq<byte>, pos: nat, end: nat, tag: byte): (r: Option<(int, nat)>)
    requires end <= |buf|
    ensures r.Some? ==> pos < r.value.1 <= end
  {
    var p :- TakeTag(buf, pos, end, tag);
    DecInt(buf, p, end)
  }

  /** Storing a decoded value in an unsigned field of `bits` bits. */
  function Unsigned(v: int, bits: nat): (r: nat)
    requires bits == 8 || bits == 16 || bits == 32
  {
    if bits == 8 then v % 0x100 else if bits == 16 then v % 0x1_0000 else v % 0x1_0000_0000
  }

  function ToInt16(v: int): (r: int)
    ensures -0x8000 <= r < 0x8000
    ensures -0x8000 <= v < 0x8000 ==> r == v
  {
    (v + 0x8000) % 0x1_0000 - 0x8000
  }

  // ------------------------------------------------------------------ each step on an encoding

  /** Tag octets that no decoder here can confuse: one octet, and not the end-of-contents. */
  predicate PlainTag(t: Tree) {
    TagOf(t) != 0 && TagOf(t) % 32 != TYPE_EXTENSION
  }

  /** The decoder sees the component and its tag. */
  lemma SeesTag(buf: seq<byte>, p: nat, q: nat, end: nat, t: Tree)
    requires Stands(buf, p, q, t) && q <= end <= |buf| && PlainTag(t)
    ensures DecTag(buf, p, end) == Some((TagOf(t), p + 1)) && More(buf, p, end)
    ensures TakeTag(buf, p, end, TagOf(t)) == Some(p + 1)
  {
  }

  /** The contents of a primitive component. */
  lemma SeesPrim(buf: seq<byte>, p: nat, q: nat, end: nat, t: Tree) returns (m: nat)
    requires t.Prim? && Stands(buf, p, q, t) && q <= end <= |buf|
    ensures p < m && m + |t.body| == q && buf[m..q] == t.body
    ensures DecLength(buf, p + 1, end) == Some((|t.body|, m))
  {
    m :| p < m && m + |t.body| == q && LengthOctets(buf[p + 1..m], |t.body|) && buf[m..q] == t.body;
    LengthLocal(buf, p + 1, end, buf[p + 1..m], |t.body|);
  }

  function IntTree(tag: byte, v: int): Tree {
    Prim(tag, EncIntBody(v))
  }

  function NullTree(tag: byte): Tree {
    Prim(tag, [])
  }

  lemma SeesInt(buf: seq<byte>, p: nat, q: nat, end: nat, tag: byte, v: int)
    requires Stands(buf, p, q, IntTree(tag, v)) && q <= end <= |buf| && -0x8000_0000 <= v < 0x8000_0000
    ensures DecInt(buf, p + 1, end) == Some((v, q))
    ensures tag != 0 && tag % 32 != 31 ==> TakeInt(buf, p, end, tag) == Some((v, q))
  {
    hide DecLength, Stands, IntValue, EncIntBody;
    var m := SeesPrim(buf, p, q, end, IntTree(tag, v));
    IntBodyRoundTrip(v);
    if tag != 0 && tag % 32 != 31 {
      SeesTag(buf, p, q, end, IntTree(tag, v));
    }
  }

  lemma SeesNull(buf: seq<byte>, p: nat, q: nat, end: nat, tag: byte)
    requires Stands(buf, p, q, NullTree(tag)) && q <= end <= |buf|
    ensures DecNull(buf, p + 1, end) == Some(q)
  {
    hide DecLength, Stands;
    var m := SeesPrim(buf, p, q, end, NullTree(tag));
  }

  lemma SeesBoolean(buf: seq<byte>, p: nat, q: nat, end: nat, tag: byte, b: bool)
    requires Stands(buf, p, q, Prim(tag, [if b then 1 else 0])) && q <= end <= |buf|
    ensures DecBoolean(buf, p + 1, end) == Some((b, q))
  {
    hide DecLength, Stands;
    var m := SeesPrim(buf, p, q, end, Prim(tag, [if b then 1 else 0]));
    assert buf[m] == buf[m..q][0];
  }

  /** A definite string that fits its field. */
  lemma SeesString(buf: seq<byte>, p: nat, q: nat, end: nat, tag: byte, s: seq<byte>, size: nat, truncate: bool)
    requires Stands(buf, p, q, Prim(tag, s)) && q <= end <= |buf| && |s| < size
    ensures DecString(buf, p + 1, end, tag, size, truncate) == Some((s, q))
  {
    hide DecLength, Stands, DecSegments, FindZero;
    var m := SeesPrim(buf, p, q, end, Prim(tag, s));
  }

  /** Entering a constructed component: `e` is where its contents end, and finishing from there
      leaves the decoder at `q`. */
  lemma Enters(buf: seq<byte>, p: nat, q: nat, end: nat, t: Tree) returns (f: Frame, e: nat)
    requires t.Cons? && Stands(buf, p, q, t) && q <= end <= |buf|
    ensures Open(buf, p + 1, end) == Some(f) && f.pos <= e <= f.end <= end && e <= q
    ensures StandAll(buf, f.pos, e, t.kids)
    ensures Finish(buf, e, f, end) == Some(q) && !More(buf, e, f.end)
  {
    hide DecLength, Skip;
    var m: nat, e0: nat, indefinite: bool :| Body(buf, p, q, m, e0, indefinite) && StandAll(buf, m, e0, t.kids);
    e := e0;
    if indefinite {
      EntersIndefinite(buf, p, q, end, m, e);
      f := Frame(m, end, true);
    } else {
      EntersDefinite(buf, p, q, end, m, e);
      f := Frame(m, e, false);
    }
  }

  /** The length of a component reads the same against any end position behind it. */
  lemma SameLength(buf: seq<byte>, p: nat, q: nat, end: nat, limit: nat, t: Tree)
    requires t.Cons? && Stands(buf, p, q, t) && q <= limit <= end && end <= |buf|
    ensures DecLength(buf, p + 1, end) == DecLength(buf, p + 1, limit)
  {
    hide DecLength;
    var m: nat, e: nat, indefinite: bool :| Body(buf, p, q, m, e, indefinite) && StandAll(buf, m, e, t.kids);
    if indefinite {
      EntersIndefinite(buf, p, q, end, m, e);
      EntersIndefinite(buf, p, q, limit, m, e);
    } else {
      EntersDefinite(buf, p, q, end, m, e);
      EntersDefinite(buf, p, q, limit, m, e);
    }
  }

  lemma EntersDefinite(buf: seq<byte>, p: nat, q: nat, end: nat, m: nat, e: nat)
    requires Body(buf, p, q, m, e, false) && q <= end <= |buf|
    ensures DecLength(buf, p + 1, end) == Some((e - m, m))
  {
    LengthLocal(buf, p + 1, end, buf[p + 1..m], e - m);
  }

  lemma EntersIndefinite(buf: seq<byte>, p: nat, q: nat, end: nat, m: nat, e: nat)
    requires Body(buf, p, q, m, e, true) && q <= end <= |buf|
    ensures DecLength(buf, p + 1, end) == Some((-1, m))
    ensures Skip(buf, e, end) == Some(q) && buf[e] == 0
  {
    assert buf[e] == buf[e..q][0];
    assert buf[p + 1] == buf[p + 1..m][0];
  }
}
