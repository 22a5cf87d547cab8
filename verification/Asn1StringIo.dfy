/** The string primitives of libpri/asn1_primitive.c over arrays: the recursive decoders that
    collect segments behind each other in the caller's buffer, and the encoders. */
module Asn1StringIo {
  import opened Common
  import opened Asn1
  import opened Asn1Primitive
  import opened Asn1Strings

  /** Outside `size` octets at `at`, `now` is what it was. */
  predicate SameAround(now: seq<byte>, was: seq<byte>, at: nat, size: nat)
    requires |now| == |was| && at + size <= |was|
  {
    now[..at] == was[..at] && now[at + size..] == was[at + size..]
  }

  /** The buffer holds `s` at `at`, null terminated. */
  predicate Holds(now: seq<byte>, at: nat, s: seq<byte>) {
    At(now, at, s + [0])
  }

  lemma Untouched(was: seq<byte>, at: nat, size: nat)
    requires at + size <= |was|
    ensures SameAround(was, was, at, size)
  {
  }

  /** Writing only behind `s` keeps it, and keeps what lies around the whole buffer. */
  lemma AroundTwice(a: seq<byte>, b: seq<byte>, c: seq<byte>, at: nat, size: nat, s: seq<byte>)
    requires |a| == |b| == |c| && |s| <= size && at + size <= |a|
    requires SameAround(b, a, at, size) && SameAround(c, b, at + |s|, size - |s|) && At(b, at, s)
    ensures SameAround(c, a, at, size) && At(c, at, s)
  {
    var at' := at + |s|;
    assert c[..at] == c[..at'][..at] && b[..at] == b[..at'][..at];
    assert c[at..at'] == c[..at'][at..] && b[at..at'] == b[..at'][at..];
  }

  lemma HoldsAppend(now: seq<byte>, at: nat, a: seq<byte>, b: seq<byte>)
    requires At(now, at, a) && Holds(now, at + |a|, b)
    ensures Holds(now, at, a + b)
  {
    AtParts(now, at, a, b + [0]);
    assert a + (b + [0]) == a + b + [0];
  }

  lemma HoldsStarts(now: seq<byte>, at: nat, s: seq<byte>)
    requires Holds(now, at, s)
    ensures At(now, at, s)
  {
    AtParts(now, at, s, [0]);
  }

  lemma StoredAt(orig: seq<byte>, at: nat, size: nat, s: seq<byte>)
    requires |s| < size && at + size <= |orig|
    ensures var now := Put(orig, at, s + [0]);
            Holds(now, at, s) && SameAround(now, orig, at, size)
  {
    var now := Put(orig, at, s + [0]);
    var n := at + |s| + 1;
    assert now[at + size..] == now[n..][at + size - n..];
    assert orig[at + size..] == orig[n..][at + size - n..];
  }

  /** memcpy and the terminating null. */
  method StoreText(str: array<byte>, at: nat, size: nat, s: seq<byte>)
    requires |s| < size && at + size <= str.Length
    modifies str
    ensures Holds(str[..], at, s) && SameAround(str[..], old(str[..]), at, size)
  {
    hide Put, Holds, SameAround;
    ghost var was := str[..];
    StoreAll(str, at, s);
    Store(str, at + |s|, 0);
    PutPut(was, at, s, [0]);
    StoredAt(was, at, size, s);
  }

  /** memcpy. */
  method StoreAll(a: array<byte>, at: nat, s: seq<byte>)
    requires at + |s| <= a.Length
    modifies a
    ensures a[..] == Put(old(a[..]), at, s)
  {
    hide Put;
    ghost var was := a[..];
    PutNone(was, at);
    var i := 0;
    while i < |s|
      invariant 0 <= i <= |s| && a[..] == Put(was, at, s[..i])
    {
      Store(a, at + i, s[i]);
      PutPut(was, at, s[..i], [s[i]]);
      assert s[..i] + [s[i]] == s[..i + 1];
      i := i + 1;
    }
    assert s[..i] == s;
  }

  /** The end of the string branches: fit, store, terminate. */
  method StoreFitting(str: array<byte>, at: nat, size: nat, s: seq<byte>, truncate: bool) returns (r: Option<nat>)
    requires size > 0 && at + size <= str.Length
    modifies str
    ensures SameAround(str[..], old(str[..]), at, size)
    ensures r.None? <==> Fit(s, size, truncate) == None
    ensures r.Some? ==> r.value == |Fit(s, size, truncate).value| && Holds(str[..], at, Fit(s, size, truncate).value)
  {
    var len := |s|;
    if size - 1 < len {
      if !truncate { return None; }
      len := size - 1;
    }
    assert s[..|s|] == s;
    StoreText(str, at, size, s[..len]);
    return Some(len);
  }

  function Prepend(done: seq<byte>, x: Option<(seq<byte>, nat)>): Option<(seq<byte>, nat)> {
    match x
    case None => None
    case Some(v) => Some((done + v.0, v.1))
  }

  /** One turn of the collecting loop. */
  lemma SegmentStep(buf: seq<byte>, pos: nat, end: nat, size: nat, truncate: bool, done: seq<byte>, t: (nat, nat))
    requires size > 0 && end <= |buf| && DecTag(buf, pos, end) == Some(t)
    ensures Prepend(done, DecSegments(buf, pos, end, size, truncate)) ==
            if t.0 == INDEF_TERM then Some((done, t.1))
            else
              match DecString(buf, t.1, end, t.0, size, truncate)
              case None => None
              case Some(x) => Prepend(done + x.0, DecSegments(buf, x.1, end, size - |x.0|, truncate))
  {
    hide DecTag, DecString;
    assert done + [] == done;
    if t.0 != INDEF_TERM {
      var x := DecString(buf, t.1, end, t.0, size, truncate);
      if x.Some? {
        var y := DecSegments(buf, x.value.1, end, size - |x.value.0|, truncate);
        if y.Some? {
          assert done + (x.value.0 + y.value.0) == done + x.value.0 + y.value.0;
        }
      }
    }
  }

  lemma NoSegments(buf: seq<byte>, pos: nat, end: nat, size: nat, truncate: bool)
    requires size > 0 && end <= |buf|
    ensures DecTag(buf, pos, end) == None ==> DecSegments(buf, pos, end, size, truncate) == None
    ensures Prepend([], DecSegments(buf, pos, end, size, truncate)) == DecSegments(buf, pos, end, size, truncate)
  {
    var x := DecSegments(buf, pos, end, size, truncate);
    assert x.Some? ==> [] + x.value.0 == x.value.0;
  }

  /** The collecting loop of the string decoders. */
  method CollectSegments(buf: seq<byte>, start: nat, end: nat, str: array<byte>, at: nat, size: nat, truncate: bool)
    returns (r: Option<(nat, nat)>)
    requires size > 0 && at + size <= str.Length && end <= |buf|
    modifies str
    ensures SameAround(str[..], old(str[..]), at, size)
    ensures r.None? <==> DecSegments(buf, start, end, size, truncate) == None
    ensures r.Some? ==> var x := DecSegments(buf, start, end, size, truncate).value;
                        r.value == (|x.0|, x.1) && Holds(str[..], at, x.0)
    decreases end - start, 1
  {
    hide DecTag, DecString, DecSegments, SameAround, Holds, Prepend;
    ghost var was := str[..];
    ghost var goal := DecSegments(buf, start, end, size, truncate);
    NoSegments(buf, start, end, size, truncate);
    StoreText(str, at, size, []);
    var pos := start;
    var len: nat := 0;
    ghost var done: seq<byte> := [];
    while true
      invariant start <= pos && len == |done| < size
      invariant Holds(str[..], at, done) && SameAround(str[..], was, at, size)
      invariant Prepend(done, DecSegments(buf, pos, end, size - len, truncate)) == goal
      decreases end - pos
    {
      var t := DecodeTag(buf, pos, end);
      if t == None {
        NoneStays(buf, pos, end, size - len, truncate, done);
        return None;
      }
      SegmentStep(buf, pos, end, size - len, truncate, done, t.value);
      if t.value.0 == INDEF_TERM { return Some((len, t.value.1)); }
      ghost var before := str[..];
      HoldsStarts(before, at, done);
      var x := DecodeString(buf, t.value.1, end, t.value.0, str, at + len, size - len, truncate);
      AroundTwice(was, before, str[..], at, size, done);
      if x == None { return None; }
      ghost var part := DecString(buf, t.value.1, end, t.value.0, size - len, truncate).value.0;
      HoldsAppend(str[..], at, done, part);
      done := done + part;
      len := len + x.value.0;
      pos := x.value.1;
    }
  }

  lemma NoneStays(buf: seq<byte>, pos: nat, end: nat, size: nat, truncate: bool, done: seq<byte>)
    requires size > 0 && end <= |buf| && DecTag(buf, pos, end) == None
    ensures Prepend(done, DecSegments(buf, pos, end, size, truncate)) == None
  {
  }

  /** `asn1_dec_string_max` if `truncate`, else `asn1_dec_string_bin`: the string and its null are in
      the `size` octets at `at`, and nothing else is written. */
  method DecodeString(buf: seq<byte>, start: nat, end: nat, tag: nat, str: array<byte>, at: nat, size: nat,
      truncate: bool)
    returns (r: Option<(nat, nat)>)
    requires size > 0 && at + size <= str.Length && end <= |buf|
    modifies str
    ensures SameAround(str[..], old(str[..]), at, size)
    ensures r.None? <==> DecString(buf, start, end, tag, size, truncate) == None
    ensures r.Some? ==> var x := DecString(buf, start, end, tag, size, truncate).value;
                        r.value == (|x.0|, x.1) && Holds(str[..], at, x.0)
    decreases end - start, 0
  {
    hide DecLength, DecSegments, SameAround, Holds, Fit;
    Untouched(str[..], at, size);
    var l := DecodeLength(buf, start, end);
    if l == None { return None; }
    var pos: nat := l.value.1;
    var length: int := l.value.0;
    var len: nat;
    if length >= 0 {
      var n := StoreFitting(str, at, size, buf[pos..pos + length], truncate);
      if n == None { return None; }
      return Some((n.value, pos + length));
    }
    if IsConstructed(tag) {
      var x := CollectSegments(buf, pos, end, str, at, size, truncate);
      if x == None { return None; }
      len := x.value.0;
      pos := x.value.1;
    } else {
      var z := FindZeroFrom(buf, pos, end);
      if end <= z { return None; }
      var n := StoreFitting(str, at, size, buf[pos..z], truncate);
      if n == None { return None; }
      len := n.value;
      pos := z + 1;
    }
    if end <= pos { return None; }
    if buf[pos] != 0 { return None; }
    return Some((len, pos + 1));
  }

  // ------------------------------------------------------------------ encoders

  /** `asn1_enc_string_bin`. On failure only the tag octet may have been written. */
  method EncodeString(a: array<byte>, start: nat, end: nat, tag: byte, s: seq<byte>) returns (r: Option<nat>)
    requires start <= end <= a.Length && |s| < 0x1_0000_0000
    modifies a
    ensures r.Some? <==> start + 1 + LengthSize(|s|) + |s| <= end
    ensures r.None? ==> a[..start] == old(a[..start]) && a[end..] == old(a[end..])
    ensures r.Some? ==> r.value == start + 1 + LengthSize(|s|) + |s|
    ensures r.Some? ==> a[..] == Put(old(a[..]), start, [tag] + (EncLength(|s|) + s))
  {
    ghost var was := a[..];
    if end < start + 1 { return None; }
    Store(a, start, tag);
    var p := EncodeLength(a, start + 1, end, |s|);
    if p == None { return None; }
    StoreAll(a, p.value, s);
    PutThree(was, start, [tag], EncLength(|s|), s);
    return Some(p.value + |s|);
  }

  lemma PutThree(orig: seq<byte>, pos: nat, s: seq<byte>, t: seq<byte>, u: seq<byte>)
    requires pos + |s| + |t| + |u| <= |orig|
    ensures Put(Put(Put(orig, pos, s), pos + |s|, t), pos + |s| + |t|, u) == Put(orig, pos, s + (t + u))
  {
    PutPut(orig, pos, s, t);
    PutPut(orig, pos, s + t, u);
    assert s + t + u == s + (t + u);
  }

  /** strlen: the octets before the first null. */
  method Strlen(s: seq<byte>) returns (n: nat)
    requires 0 in s
    ensures n < |s| && s[n] == 0 && 0 !in s[..n]
  {
    n := 0;
    while s[n] != 0
      invariant n < |s| && 0 !in s[..n]
      decreases |s| - n
    {
      n := n + 1;
    }
  }

  /** `asn1_enc_string_max`: a null-terminated string cut to `max` octets. */
  method EncodeStringMax(a: array<byte>, start: nat, end: nat, tag: byte, s: seq<byte>, max: nat)
    returns (r: Option<nat>)
    requires start <= end <= a.Length && 0 in s && |s| < 0x1_0000_0000
    modifies a
    ensures r.None? ==> a[..start] == old(a[..start]) && a[end..] == old(a[end..])
    ensures exists n :: 0 <= n < |s| && s[n] == 0 && 0 !in s[..n] &&
              var kept := s[..if max < n then max else n];
              && (r.Some? <==> start + 1 + LengthSize(|kept|) + |kept| <= end)
              && (r.Some? ==> r.value == start + 1 + LengthSize(|kept|) + |kept|)
              && (r.Some? ==> a[..] == Put(old(a[..]), start, [tag] + (EncLength(|kept|) + kept)))
  {
    var n := Strlen(s);
    var len := if max < n then max else n;
    r := EncodeString(a, start, end, tag, s[..len]);
  }
}
