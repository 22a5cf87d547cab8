/** The loops of libpri/asn1_primitive.c: decoders over a constant buffer and encoders that store
    into an array, each proved against the functions of module Asn1. */
module Asn1Primitive {
  import opened Common
  import opened Asn1
  import opened Asn1Codec
  import opened Asn1Skip

  // ------------------------------------------------------------------ decoding

  /** `asn1_dec_tag`. */
  method DecodeTag(buf: seq<byte>, start: nat, end: nat) returns (r: Option<(nat, nat)>)
    requires end <= |buf|
    ensures r == DecTag(buf, start, end)
  {
    if end <= start { return None; }
    var tag := buf[start];
    var pos := start + 1;
    if tag % 32 != TYPE_EXTENSION { return Some((tag, pos)); }
    var extended: nat := 0;
    ghost var goal := ExtendedTag(buf, pos, end, 0);
    while true
      invariant start < pos <= end && ExtendedTag(buf, pos, end, extended) == goal
      decreases end - pos
    {
      if end <= pos { return None; }
      extended := (extended * 128 + buf[pos] % 128) % 0x1_0000_0000;
      pos := pos + 1;
      if buf[pos - 1] < 128 { break; }
    }
    assert goal == Some((extended, pos));
    if 0 < extended < TYPE_EXTENSION {
      r := Some((tag - TYPE_EXTENSION + extended, pos));
    } else {
      r := Some((tag, pos));
    }
  }

  /** `asn1_dec_length`. */
  method DecodeLength(buf: seq<byte>, start: nat, end: nat) returns (r: Option<(int, nat)>)
    requires end <= |buf|
    ensures r == DecLength(buf, start, end)
  {
    hide ToInt32;
    if end <= start { return None; }
    var pos := start + 1;
    var length: int := 0;
    if buf[start] < 0x80 {
      length := buf[start];
    } else if buf[start] == 0x80 {
      if end < pos + INDEF_TERM_LEN { return None; }
      return Some((-1, pos));
    } else {
      var size: nat := buf[start] - 0x80;
      if size == 0x7f || end < pos + size { return None; }
      var first := pos;
      while pos < first + size
        invariant first <= pos <= first + size && length == Accumulate(buf[first..pos])
      {
        length := ToInt32(length * 256 + buf[pos]);
        pos := pos + 1;
        assert buf[first..pos][..pos - first - 1] == buf[first..pos - 1];
      }
    }
    if end < pos + length { return None; }
    return Some((length, pos));
  }

  /** `asn1_dec_int`. */
  method DecodeInt(buf: seq<byte>, start: nat, end: nat) returns (r: Option<(int, nat)>)
    requires end <= |buf|
    ensures r == DecInt(buf, start, end)
  {
    hide DecLength, ToInt32;
    var l := DecodeLength(buf, start, end);
    if l == None || l.value.0 <= 0 { return None; }
    var first := l.value.1;
    var pos := first;
    var initial: int := if buf[pos] >= 0x80 then -1 else 0;
    var value := initial;
    while pos < first + l.value.0
      invariant first <= pos <= first + l.value.0 && value == ShiftIn(initial, buf[first..pos])
    {
      value := ToInt32(value * 256 + buf[pos]);
      pos := pos + 1;
      assert buf[first..pos][..pos - first - 1] == buf[first..pos - 1];
    }
    return Some((value, pos));
  }

  /** What the loops of `asn1_dec_oid` still have to produce, given what they have produced. */
  function Rest(done: seq<int>, s: seq<byte>, acc: nat, inside: bool): Option<seq<int>>
  {
    match DecOidBody(s, acc, inside)
    case None => None
    case Some(more) => Some(done + more)
  }

  lemma RestStep(done: seq<int>, s: seq<byte>, acc: nat, inside: bool)
    requires s != []
    ensures var v := (acc * 128 + s[0] % 128) % 0x1_0000_0000;
            Rest(done, s, acc, inside) ==
            if s[0] >= 0x80 then Rest(done, s[1..], v, true) else Rest(done + [v % 0x1_0000], s[1..], 0, false)
  {
    var v := (acc * 128 + s[0] % 128) % 0x1_0000_0000;
    if s[0] < 0x80 {
      var more := DecOidBody(s[1..], 0, false);
      if more.Some? {
        assert done + ([v % 0x1_0000] + more.value) == done + [v % 0x1_0000] + more.value;
      }
    }
  }

  /** The inner loop of `asn1_dec_oid`: one subidentifier, None if it is not terminated. `done` is
      what the outer loop has read so far. */
  method DecodeSubId(buf: seq<byte>, start: nat, stop: nat, ghost done: seq<int>) returns (r: Option<(int, nat)>)
    requires start < stop <= |buf|
    ensures r.Some? ==> start < r.value.1 <= stop
    ensures r.Some? ==>
              Rest(done, buf[start..stop], 0, false) == Rest(done + [r.value.0], buf[r.value.1..stop], 0, false)
    ensures r.None? ==> Rest(done, buf[start..stop], 0, false) == None
  {
    hide Rest;
    var pos := start;
    var value: nat := 0;
    ghost var inside := false;
    while true
      invariant start <= pos < stop
      invariant Rest(done, buf[pos..stop], value, inside) == Rest(done, buf[start..stop], 0, false)
      decreases stop - pos
    {
      RestStep(done, buf[pos..stop], value, inside);
      assert buf[pos..stop][1..] == buf[pos + 1..stop];
      value := (value * 128 + buf[pos] % 128) % 0x1_0000_0000;
      pos := pos + 1;
      if buf[pos - 1] < 0x80 { return Some((value % 0x1_0000, pos)); }
      inside := true;
      if pos == stop {
        RestNone(done, buf[pos..stop], value);
        return None;
      }
    }
  }

  lemma RestNone(done: seq<int>, s: seq<byte>, acc: nat)
    requires s == []
    ensures Rest(done, s, acc, true) == None && Rest(done, s, 0, false) == Some(done)
  {
    assert done + [] == done;
  }

  lemma RestStart(s: seq<byte>)
    ensures Rest([], s, 0, false) == DecOidBody(s, 0, false)
  {
    var r := DecOidBody(s, 0, false);
    assert r.Some? ==> [] + r.value == r.value;
  }

  /** `asn1_dec_oid`: values past the tenth are counted and not stored. */
  method DecodeOid(buf: seq<byte>, start: nat, end: nat) returns (r: Option<(seq<int>, nat)>)
    requires end <= |buf|
    ensures r == DecOid(buf, start, end)
  {
    hide Rest, DecOidBody, DecLength;
    var l := DecodeLength(buf, start, end);
    if l == None || l.value.0 < 0 { return None; }
    var pos: nat := l.value.1;
    var stop: nat := pos + l.value.0;
    RestStart(buf[pos..stop]);
    ghost var goal := DecOidBody(buf[pos..stop], 0, false);
    ghost var all: seq<int> := [];
    var values: seq<int> := [];
    var count: nat := 0;
    while pos < stop
      invariant l.value.1 <= pos <= stop
      invariant count == |all| && values == (if count <= OID_MAX then all else all[..OID_MAX])
      invariant Rest(all, buf[pos..stop], 0, false) == goal
    {
      var x := DecodeSubId(buf, pos, stop, all);
      if x == None { return None; }
      if count < OID_MAX { values := values + [x.value.0]; }
      all := all + [x.value.0];
      count := count + 1;
      pos := x.value.1;
    }
    RestNone(all, buf[pos..stop], 0);
    if count <= OID_MAX { return Some((values, pos)); }
    return None;
  }

  /** `asn1_dec_indef_end_fixup_helper`. */
  method SkipToEnd(buf: seq<byte>, start: nat, end: nat) returns (r: Option<nat>)
    requires end <= |buf|
    ensures r == Skip(buf, start, end)
    decreases if start < end then end - start else 0
  {
    hide DecTag, DecLength;
    var pos := start;
    while pos < end && buf[pos] != INDEF_TERM
      invariant start <= pos && Skip(buf, pos, end) == Skip(buf, start, end)
      decreases end - pos
    {
      var t := DecodeTag(buf, pos, end);
      if t == None { return None; }
      var l := DecodeLength(buf, t.value.1, end);
      if l == None { return None; }
      ghost var next := Component(buf, pos, end);
      if l.value.0 >= 0 {
        pos := l.value.1 + l.value.0;
      } else if IsItu(t.value.0) {
        var q := SkipToEnd(buf, l.value.1, end);
        if q == None { return None; }
        pos := q.value;
      } else {
        var z := FindZeroFrom(buf, l.value.1, end);
        pos := z + INDEF_TERM_LEN;
      }
      assert next == Some(pos);
    }
    if end < pos + INDEF_TERM_LEN { return None; }
    return Some(pos + INDEF_TERM_LEN);
  }

  method FindZeroFrom(buf: seq<byte>, start: nat, end: nat) returns (q: nat)
    requires start <= end <= |buf|
    ensures q == FindZero(buf, start, end)
  {
    q := start;
    while q < end && buf[q] != 0
      invariant start <= q <= end && FindZero(buf, q, end) == FindZero(buf, start, end)
    {
      q := q + 1;
    }
  }

  // ------------------------------------------------------------------ storing

  /** `old` with `s` stored at `pos`. */
  function Put(orig: seq<byte>, pos: nat, s: seq<byte>): (r: seq<byte>)
    requires pos + |s| <= |orig|
    ensures |r| == |orig| && At(r, pos, s)
    ensures r[..pos] == orig[..pos] && r[pos + |s|..] == orig[pos + |s|..]
  {
    orig[..pos] + s + orig[pos + |s|..]
  }

  lemma PutPut(orig: seq<byte>, pos: nat, s: seq<byte>, t: seq<byte>)
    requires pos + |s| + |t| <= |orig|
    ensures Put(Put(orig, pos, s), pos + |s|, t) == Put(orig, pos, s + t)
  {
  }

  /** Storing changes nothing before, nor from any position behind. */
  lemma PutFrame(orig: seq<byte>, pos: nat, s: seq<byte>, end: nat)
    requires pos + |s| <= end <= |orig|
    ensures Put(orig, pos, s)[..pos] == orig[..pos] && Put(orig, pos, s)[end..] == orig[end..]
  {
    var n := pos + |s|;
    assert Put(orig, pos, s)[end..] == Put(orig, pos, s)[n..][end - n..];
    assert orig[end..] == orig[n..][end - n..];
  }

  lemma PutNone(orig: seq<byte>, pos: nat)
    requires pos <= |orig|
    ensures Put(orig, pos, []) == orig
  {
  }

  lemma PutOver(orig: seq<byte>, pos: nat, t: byte, x: byte, y: byte, body: seq<byte>)
    requires pos + 2 + |body| <= |orig|
    ensures Put(Put(orig, pos, [t, x] + body), pos + 1, [y]) == Put(orig, pos, [t] + ([y] + body))
  {
  }

  method Store(a: array<byte>, pos: nat, x: byte)
    requires pos < a.Length
    modifies a
    ensures a[..] == Put(old(a[..]), pos, [x])
  {
    a[pos] := x;
  }

  /** The low `k` octets of `n`, most significant first: the storing loop of the encoders. */
  method StoreOctets(a: array<byte>, pos: nat, n: nat, k: nat)
    requires pos + k <= a.Length
    modifies a
    ensures a[..] == Put(old(a[..]), pos, Octets(n, k))
  {
    hide Put, Octets, Shr8;
    ghost var was := a[..];
    PutNone(was, pos);
    var i := k;
    while i > 0
      invariant 0 <= i <= k && a[..] == Put(was, pos, Octets(n, k)[..k - i])
    {
      ghost var j := k - i;
      OctetsAt(n, k, j);
      i := i - 1;
      Store(a, pos + (k - 1 - i), Shr8(n, i) % 256);
      PutPut(was, pos, Octets(n, k)[..j], [Octets(n, k)[j]]);
      assert Octets(n, k)[..j] + [Octets(n, k)[j]] == Octets(n, k)[..j + 1];
    }
    assert Octets(n, k)[..k] == Octets(n, k);
  }

  /** The size search of `asn1_enc_length` and `asn1_enc_length_fixup`: masks from the top octet down. */
  method FindLengthSize(n: nat) returns (size: nat)
    requires n < 0x1_0000_0000
    ensures size == LengthSize(n)
  {
    if n < 128 { return 1; }
    size := 3;
    while size > 0 && Shr8(n, size) % 256 == 0
      invariant 0 <= size <= 3
      invariant forall k :: size < k <= 3 ==> Shr8(n, k) == 0
    {
      ShrOctet(n, size);
      size := size - 1;
    }
    ShrSizes(n);
    size := size + 2;
  }

  lemma ShrSizes(n: nat)
    ensures Shr8(n, 1) == n / 0x100 && Shr8(n, 2) == n / 0x1_0000 && Shr8(n, 3) == n / 0x100_0000
  {
    assert Shr8(n, 2) == Shr8(n / 256, 1) == n / 256 / 256;
    assert Shr8(n, 3) == Shr8(n / 256, 2) == Shr8(n / 256 / 256, 1);
  }

  lemma ShrOctet(n: nat, k: nat)
    requires n < 0x1_0000_0000 && 1 <= k <= 3 && (k < 3 ==> Shr8(n, k + 1) == 0)
    ensures Shr8(n, k) < 256
  {
    ShrSizes(n);
  }

  /** `asn1_enc_length`: the length octets, if they and the body they announce fit. */
  method EncodeLength(a: array<byte>, pos: nat, end: nat, n: nat) returns (r: Option<nat>)
    requires pos <= end <= a.Length && n < 0x1_0000_0000
    modifies a
    ensures r.Some? <==> pos + LengthSize(n) + n <= end
    ensures r.None? ==> a[..] == old(a[..])
    ensures r.Some? ==> r.value == pos + LengthSize(n) && a[..] == Put(old(a[..]), pos, EncLength(n))
  {
    var size := FindLengthSize(n);
    if end < pos + size + n { return None; }
    StoreLength(a, pos, n, size);
    return Some(pos + size);
  }

  method StoreLength(a: array<byte>, pos: nat, n: nat, size: nat)
    requires n < 0x1_0000_0000 && size == LengthSize(n) && pos + size <= a.Length
    modifies a
    ensures a[..] == Put(old(a[..]), pos, EncLength(n))
  {
    ghost var was := a[..];
    if size == 1 {
      Store(a, pos, n);
    } else {
      Store(a, pos, 0x80 + (size - 1));
      StoreOctets(a, pos + 1, n, size - 1);
      PutPut(was, pos, [0x80 + (size - 1)], Octets(n, size - 1));
    }
  }

  /** `asn1_enc_int`. */
  method EncodeInt(a: array<byte>, start: nat, end: nat, tag: byte, value: int) returns (r: Option<nat>)
    requires start <= end <= a.Length && -0x8000_0000 <= value < 0x8000_0000
    modifies a
    ensures r.Some? <==> start + 2 + IntSize(value) <= end
    ensures r.None? ==> a[..] == old(a[..])
    ensures r.Some? ==> r.value == start + 2 + IntSize(value)
    ensures r.Some? ==> a[..] == Put(old(a[..]), start, [tag] + ([IntSize(value)] + EncIntBody(value)))
  {
    hide Put, EncIntBody;
    ghost var was := a[..];
    var count := FindIntSize(value);
    if end < start + 3 + count { return None; }
    Store(a, start, tag);
    Store(a, start + 1, count + 1);
    StoreIntBody(a, start + 2, value, count);
    PutPut(was, start, [tag], [count + 1]);
    PutPut(was, start, [tag] + [count + 1], EncIntBody(value));
    assert [tag] + [count + 1] + EncIntBody(value) == [tag] + ([IntSize(value)] + EncIntBody(value));
    return Some(start + 3 + count);
  }

  method StoreIntBody(a: array<byte>, pos: nat, value: int, count: nat)
    requires IntSize(value) == count + 1 && pos + count + 1 <= a.Length
    modifies a
    ensures a[..] == Put(old(a[..]), pos, EncIntBody(value))
  {
    StoreOctets(a, pos, value % 0x1_0000_0000, count + 1);
  }

  /** The mask search of `asn1_enc_int`. */
  method FindIntSize(value: int) returns (count: nat)
    ensures IntSize(value) == count + 1
  {
    hide NineBitsMixed;
    count := 3;
    while count > 0 && !NineBitsMixed(value, count)
      invariant 0 <= count <= 3
      invariant forall k :: count < k <= 3 ==> !NineBitsMixed(value, k)
    {
      count := count - 1;
    }
  }

  lemma {:induction false} MarkedSplit(v: nat, k: nat)
    requires k <= Chunks(v)
    ensures Chunks(Shr7(v, k)) == Chunks(v) - k
    ensures Marked(Shr7(v, k)) == Marked(v)[..Chunks(v) - k]
    decreases k
  {
    if k > 0 {
      MarkedSplit(v / 128, k - 1);
      assert Marked(v)[..Chunks(v) - 1] == Marked(v / 128);
    } else {
      assert Marked(v)[..Chunks(v)] == Marked(v);
    }
  }

  /** Octet `j` of a subidentifier, as the storing loop computes it. */
  lemma SubIdAt(v: nat, j: nat)
    requires j <= Chunks(v / 128)
    ensures EncSubId(v)[j] ==
            Shr7(v, Chunks(v / 128) - j) % 128 + (if j < Chunks(v / 128) then 0x80 else 0)
  {
    var c := Chunks(v / 128);
    if j < c {
      MarkedSplit(v / 128, c - j - 1);
      var w := Shr7(v / 128, c - j - 1);
      assert Marked(w)[j] == 0x80 + w % 128;
    }
  }

  /** One subidentifier of `asn1_enc_oid`. */
  /** How many octets follow the first. */
  method CountChunks(v: nat) returns (count: nat)
    ensures count == Chunks(v / 128)
  {
    var rest: nat := v / 128;
    count := 0;
    while rest != 0
      invariant count + Chunks(rest) == Chunks(v / 128)
    {
      rest := rest / 128;
      count := count + 1;
    }
  }

  method StoreSubId(a: array<byte>, pos: nat, end: nat, v: nat) returns (r: Option<nat>)
    requires pos <= end <= a.Length
    modifies a
    ensures r.Some? <==> pos + |EncSubId(v)| <= end
    ensures r.None? ==> a[..] == old(a[..])
    ensures r.Some? ==> r.value == pos + |EncSubId(v)| && a[..] == Put(old(a[..]), pos, EncSubId(v))
  {
    hide Put, EncSubId, Shr7, Chunks;
    ghost var was := a[..];
    PutNone(was, pos);
    var count := CountChunks(v);
    if end < pos + count + 1 { return None; }
    ghost var s := EncSubId(v);
    var at := pos;
    var left: int := count;
    while left >= 0
      invariant -1 <= left <= count && at == pos + (count - left) && a[..] == Put(was, pos, s[..count - left])
    {
      SubIdAt(v, count - left);
      Store(a, at, Shr7(v, left) % 128 + (if left > 0 then 0x80 else 0));
      PutPut(was, pos, s[..count - left], [s[count - left]]);
      assert s[..count - left] + [s[count - left]] == s[..count - left + 1];
      at := at + 1;
      left := left - 1;
    }
    assert s[..count + 1] == s;
    return Some(at);
  }

  lemma {:induction false} OidBodySnoc(oid: Oid, i: nat)
    requires i < |oid|
    ensures var a: Oid := oid[..i];
            var b: Oid := oid[..i + 1];
            EncOidBody(b) == EncOidBody(a) + EncSubId(oid[i])
    decreases i
  {
    var a: Oid := oid[..i];
    var b: Oid := oid[..i + 1];
    var rest: Oid := oid[1..];
    if i == 0 {
      assert b[1..] == [];
    } else {
      OidBodySnoc(rest, i - 1);
      assert rest[..i - 1] == a[1..] && rest[..i] == b[1..];
    }
  }

  lemma {:induction false} OidPrefixFits(oid: Oid, i: nat)
    requires i <= |oid|
    ensures var a: Oid := oid[..i];
            |EncOidBody(a)| <= |EncOidBody(oid)|
    decreases |oid| - i
  {
    if i < |oid| {
      OidBodySnoc(oid, i);
      OidPrefixFits(oid, i + 1);
    } else {
      assert oid[..i] == oid;
    }
  }

  /** The subidentifier loop of `asn1_enc_oid`. */
  method StoreSubIds(a: array<byte>, start: nat, end: nat, oid: Oid) returns (r: Option<nat>)
    requires start <= end <= a.Length
    modifies a
    ensures r.Some? <==> start + |EncOidBody(oid)| <= end
    ensures r.Some? ==> r.value == start + |EncOidBody(oid)| && a[..] == Put(old(a[..]), start, EncOidBody(oid))
    ensures r.None? ==> a[..start] == old(a[..start]) && a[end..] == old(a[end..])
  {
    hide Put, EncOidBody, EncSubId;
    ghost var was := a[..];
    ghost var done: Oid := [];
    EmptyOid();
    PutNone(was, start);
    var pos := start;
    var i := 0;
    while i < |oid|
      invariant 0 <= i <= |oid| && done == oid[..i]
      invariant pos == start + |EncOidBody(done)| && pos <= end
      invariant a[..] == Put(was, start, EncOidBody(done))
    {
      OidBodySnoc(oid, i);
      OidPrefixFits(oid, i + 1);
      PutFrame(was, start, EncOidBody(done), end);
      ghost var before := a[..];
      var q := StoreSubId(a, pos, end, oid[i]);
      if q == None {
        assert a[..] == before;
        return None;
      }
      PutPut(was, start, EncOidBody(done), EncSubId(oid[i]));
      pos := q.value;
      done := oid[..i + 1];
      i := i + 1;
    }
    assert oid[..i] == oid;
    return Some(pos);
  }

  /** `asn1_enc_oid`: it fits exactly when the whole component does. On failure the octets before
      `start` and from `end` on are as before. */
  method EncodeOid(a: array<byte>, start: nat, end: nat, tag: byte, oid: Oid) returns (r: Option<nat>)
    requires start <= end <= a.Length && |oid| <= OID_MAX
    modifies a
    ensures r.Some? <==> start + 2 + |EncOidBody(oid)| <= end
    ensures r.None? ==> a[..start] == old(a[..start]) && a[end..] == old(a[end..])
    ensures |EncOidBody(oid)| <= 30
    ensures r.Some? ==> r.value == start + 2 + |EncOidBody(oid)|
    ensures r.Some? ==> a[..] == Put(old(a[..]), start, [tag] + ([|EncOidBody(oid)|] + EncOidBody(oid)))
  {
    hide Put, EncOidBody;
    ghost var was := a[..];
    OidBodySize(oid);
    if end < start + 2 { return None; }
    Store(a, start, tag);
    ghost var x := was[start + 1];
    PutTwo(was, start, tag);
    var pos := StoreSubIds(a, start + 2, end, oid);
    if pos == None {
      assert a[..start] == a[..start + 2][..start];
      return None;
    }
    PutPut(was, start, [tag, x], EncOidBody(oid));
    Store(a, start + 1, pos.value - (start + 1) - 1);
    PutOver(was, start, tag, x, |EncOidBody(oid)|, EncOidBody(oid));
    return pos;
  }

  lemma EmptyOid()
    ensures EncOidBody([]) == []
  {
  }

  lemma PutTwo(orig: seq<byte>, pos: nat, t: byte)
    requires pos + 2 <= |orig|
    ensures Put(orig, pos, [t]) == Put(orig, pos, [t, orig[pos + 1]])
  {
  }
}
