/** Round trips and minimality of the BER length, INTEGER and OBJECT IDENTIFIER codecs
    (sections 8.1.3, 8.3 and 8.19 of ITU-T X.690). */
module Asn1Codec {
  import opened Common
  import opened Asn1

  // ------------------------------------------------------------------ lengths

  function Pow256(k: nat): (r: nat)
    ensures r > 0
  {
    if k == 0 then 1 else 256 * Pow256(k - 1)
  }

  lemma Pow256Values()
    ensures Pow256(1) == 0x100 && Pow256(2) == 0x1_0000 && Pow256(3) == 0x100_0000 && Pow256(4) == 0x1_0000_0000
  {
    assert Pow256(3) == 256 * Pow256(2);
    assert Pow256(4) == 256 * Pow256(3);
  }

  lemma OctetsAt(n: nat, k: nat, j: nat)
    requires j < k
    ensures Octets(n, k)[j] == Shr8(n, k - 1 - j) % 256
    decreases k
  {
    if j < k - 1 {
      OctetsAt(n / 256, k - 1, j);
    }
  }

  lemma {:induction false} AccumulateOctets(n: nat, k: nat)
    requires n < 0x8000_0000 && n < Pow256(k)
    ensures Accumulate(Octets(n, k)) == n
    decreases k
  {
    if k > 0 {
      AccumulateOctets(n / 256, k - 1);
      var s := Octets(n, k);
      assert s[..|s| - 1] == Octets(n / 256, k - 1);
    }
  }

  lemma LengthSizeFits(n: nat)
    requires 128 <= n < 0x1_0000_0000
    ensures n < Pow256(LengthSize(n) - 1)
    ensures LengthSize(n) > 2 ==> Pow256(LengthSize(n) - 2) <= n
  {
    Pow256Values();
  }

  /** `asn1_dec_length` inverts `asn1_enc_length` wherever the body still fits in the buffer. */
  lemma LengthRoundTrip(buf: seq<byte>, pos: nat, end: nat, n: nat)
    requires end <= |buf| && n < 0x8000_0000
    requires At(buf, pos, EncLength(n))
    ensures DecLength(buf, pos, end) ==
            if pos + LengthSize(n) + n <= end then Some((n, pos + LengthSize(n))) else None
  {
    hide Accumulate, Octets, LengthSize;
    var s := EncLength(n);
    AtIndex(buf, pos, s, 0);
    if n >= 128 {
      LengthSizeFits(n);
      var k := LengthSize(n) - 1;
      AtParts(buf, pos, [0x80 + k], Octets(n, k));
      AccumulateOctets(n, k);
    }
  }

  /** No definite form spends fewer octets: any octets that decode to `n` are at least as many. */
  lemma LengthIsMinimal(buf: seq<byte>, pos: nat, end: nat, n: nat, q: nat)
    requires end <= |buf| && n < 0x8000_0000 && DecLength(buf, pos, end) == Some((n, q))
    ensures q - pos >= |EncLength(n)|
  {
    if buf[pos] >= 0x80 {
      var s := buf[pos + 1..q];
      AccumulateBound(s);
      Pow256Values();
      if |s| < LengthSize(n) - 1 {
        LengthSizeFits(n);
        Pow256Mono(|s|, LengthSize(n) - 2);
      }
    }
  }

  lemma {:induction false} Pow256Mono(a: nat, b: nat)
    requires a <= b
    ensures Pow256(a) <= Pow256(b)
    decreases b
  {
    if a < b { Pow256Mono(a, b - 1); }
  }

  /** Wrapping a 32-bit `int` can only lose magnitude: up to four octets reach less than 256^k. */
  lemma {:induction false} AccumulateBound(s: seq<byte>)
    ensures Accumulate(s) < Pow256(|s|)
    ensures |s| < 4 ==> Accumulate(s) >= 0
  {
    if s != [] {
      AccumulateBound(s[..|s| - 1]);
      Pow256Values();
      if |s| > 4 {
        Pow256Mono(4, |s|);
      }
    }
  }

  // ------------------------------------------------------------------ integers

  function Half256(k: nat): int
  {
    if k == 1 then 0x80 else if k == 2 then 0x8000 else if k == 3 then 0x80_0000 else 0x8000_0000
  }

  /** The mask tests pick the least size whose two's-complement range holds the value. */
  lemma IntSizeIsRange(v: int)
    requires -0x8000_0000 <= v < 0x8000_0000
    ensures -Half256(IntSize(v)) <= v < Half256(IntSize(v))
    ensures IntSize(v) > 1 ==> !(-Half256(IntSize(v) - 1) <= v < Half256(IntSize(v) - 1))
  {
    MixedIsRange(v, 3);
    if !NineBitsMixed(v, 3) {
      MixedIsRange(v, 2);
      if !NineBitsMixed(v, 2) {
        MixedIsRange(v, 1);
      }
    }
  }

  lemma MixedIsRange(v: int, count: nat)
    requires 1 <= count <= 3
    requires -0x8000_0000 <= v < 0x8000_0000 && (count < 3 ==> -Half256(count + 1) <= v < Half256(count + 1))
    ensures NineBitsMixed(v, count) <==> !(-Half256(count) <= v < Half256(count))
  {
    if count == 1 { Mixed1(v); } else if count == 2 { Mixed2(v); } else { Mixed3(v); }
  }

  lemma Mixed1(v: int)
    requires -0x8000 <= v < 0x8000
    ensures NineBitsMixed(v, 1) <==> !(-0x80 <= v < 0x80)
  {
    var u := v % 0x1_0000_0000;
    assert u == if v >= 0 then v else v + 0x1_0000_0000;
    assert u / 0x80 == if v >= 0 then v / 0x80 else v / 0x80 + 0x200_0000;
  }

  lemma Mixed2(v: int)
    requires -0x80_0000 <= v < 0x80_0000
    ensures NineBitsMixed(v, 2) <==> !(-0x8000 <= v < 0x8000)
  {
    var u := v % 0x1_0000_0000;
    assert u == if v >= 0 then v else v + 0x1_0000_0000;
    assert u / 0x8000 == if v >= 0 then v / 0x8000 else v / 0x8000 + 0x2_0000;
  }

  lemma Mixed3(v: int)
    requires -0x8000_0000 <= v < 0x8000_0000
    ensures NineBitsMixed(v, 3) <==> !(-0x80_0000 <= v < 0x80_0000)
  {
    var u := v % 0x1_0000_0000;
    assert u == if v >= 0 then v else v + 0x1_0000_0000;
    assert u / 0x80_0000 == if v >= 0 then v / 0x80_0000 else v / 0x80_0000 + 0x200;
  }

  lemma Split16(n: nat)
    ensures n % 0x1_0000 == n / 256 % 0x100 * 256 + n % 256
  {
    var q, r := n / 256, n % 256;
    var h, l := q / 0x100, q % 0x100;
    assert n == 0x1_0000 * h + (256 * l + r);
    assert 0 <= 256 * l + r < 0x1_0000;
  }

  lemma Split24(n: nat)
    ensures n % 0x100_0000 == n / 256 % 0x1_0000 * 256 + n % 256
  {
    var q, r := n / 256, n % 256;
    var h, l := q / 0x1_0000, q % 0x1_0000;
    assert n == 0x100_0000 * h + (256 * l + r);
    assert 0 <= 256 * l + r < 0x100_0000;
  }

  lemma Split32(n: nat)
    ensures n % 0x1_0000_0000 == n / 256 % 0x100_0000 * 256 + n % 256
  {
    var q, r := n / 256, n % 256;
    var h, l := q / 0x100_0000, q % 0x100_0000;
    assert n == 0x1_0000_0000 * h + (256 * l + r);
    assert 0 <= 256 * l + r < 0x1_0000_0000;
  }

  lemma SplitModulo(n: nat, k: nat)
    requires 2 <= k <= 4
    ensures n % Pow256(k) == n / 256 % Pow256(k - 1) * 256 + n % 256
  {
    Pow256Values();
    if k == 2 { Split16(n); } else if k == 3 { Split24(n); } else { Split32(n); }
  }

  lemma ShiftInLast(start: int, n: nat, k: nat)
    requires k >= 1
    ensures ShiftIn(start, Octets(n, k)) == ToInt32(ShiftIn(start, Octets(n / 256, k - 1)) * 256 + n % 256)
  {
    var s := Octets(n, k);
    assert s[..|s| - 1] == Octets(n / 256, k - 1);
  }

  /** What the starting value has become after `k` octets. */
  function Base(start: int, k: nat): int
  {
    if start == 0 then 0 else -(Pow256(k) as int)
  }

  lemma {:induction false} ShiftInOctets(start: int, n: nat, k: nat)
    requires (start == 0 || start == -1) && 1 <= k <= 4
    requires -0x8000_0000 <= Base(start, k) + n % Pow256(k) < 0x8000_0000
    ensures ShiftIn(start, Octets(n, k)) == Base(start, k) + n % Pow256(k)
    decreases k
  {
    ShiftInLast(start, n, k);
    if k == 1 {
      assert Octets(n / 256, 0) == [];
    } else {
      SplitModulo(n, k);
      assert Pow256(k) == 256 * Pow256(k - 1);
      ShiftInOctets(start, n / 256, k - 1);
    }
  }

  lemma {:induction false} FirstOctet(n: nat, k: nat)
    requires 1 <= k <= 4
    ensures Octets(n, k)[0] >= 0x80 <==> n % Pow256(k) >= Half256(k)
    decreases k
  {
    Pow256Values();
    if k > 1 {
      FirstOctet(n / 256, k - 1);
      SplitModulo(n, k);
    }
  }

  /** The low `k` octets of the 32-bit pattern of a value that fits in them. */
  lemma LowPattern(v: int, k: nat)
    requires 1 <= k <= 4 && -Half256(k) <= v < Half256(k)
    ensures var u := v % 0x1_0000_0000;
            u % Pow256(k) == if v >= 0 then v else v + Pow256(k)
  {
    Pow256Values();
    var u := v % 0x1_0000_0000;
    assert u == if v >= 0 then v else v + 0x1_0000_0000;
    if v < 0 {
      if k == 1 {
        assert u == 0x100 * 0xFF_FFFF + (v + 0x100);
      } else if k == 2 {
        assert u == 0x1_0000 * 0xFFFF + (v + 0x1_0000);
      } else if k == 3 {
        assert u == 0x100_0000 * 0xFF + (v + 0x100_0000);
      }
    }
  }

  /** Every 32-bit value comes back from its contents octets. */
  lemma IntBodyRoundTrip(v: int)
    requires -0x8000_0000 <= v < 0x8000_0000
    ensures IntValue(EncIntBody(v)) == v
  {
    var k := IntSize(v);
    var u := v % 0x1_0000_0000;
    IntSizeIsRange(v);
    LowPattern(v, k);
    FirstOctet(u, k);
    PatternSign(v, k);
    ShiftInOctets(if v < 0 then -1 else 0, u, k);
  }

  lemma PatternSign(v: int, k: nat)
    requires 1 <= k <= 4 && -Half256(k) <= v < Half256(k)
    ensures (if v >= 0 then v else v + Pow256(k)) >= Half256(k) <==> v < 0
  {
    Pow256Values();
  }

  /** `asn1_dec_int` inverts `asn1_enc_int`: the octets after the tag are a length and `EncIntBody`. */
  lemma IntRoundTrip(buf: seq<byte>, pos: nat, end: nat, v: int)
    requires -0x8000_0000 <= v < 0x8000_0000
    requires end <= |buf| && pos + 1 + IntSize(v) <= end
    requires At(buf, pos, [IntSize(v)] + EncIntBody(v))
    ensures DecInt(buf, pos, end) == Some((v, pos + 1 + IntSize(v)))
  {
    AtParts(buf, pos, [IntSize(v)], EncIntBody(v));
    AtIndex(buf, pos, [IntSize(v)], 0);
    IntBodyRoundTrip(v);
  }

  lemma IntValueRange(s: seq<byte>)
    requires 1 <= |s| <= 3
    ensures -Half256(|s|) <= IntValue(s) < Half256(|s|)
  {
    var start: int := if s[0] >= 0x80 then -1 else 0;
    assert s[..1][..0] == [] && s[..1] == [s[0]];
    assert ShiftIn(start, s[..1]) == start * 256 + s[0];
    if |s| >= 2 {
      assert s[..2][..1] == s[..1];
      assert ShiftIn(start, s[..2]) == ShiftIn(start, s[..1]) * 256 + s[1];
    }
    if |s| == 3 {
      assert s[..3][..2] == s[..2];
    }
    assert s[..|s|] == s;
  }

  /** No contents octets for the same value are shorter. */
  lemma IntIsShortest(v: int, s: seq<byte>)
    requires -0x8000_0000 <= v < 0x8000_0000 && s != [] && IntValue(s) == v
    ensures |EncIntBody(v)| <= |s|
  {
    IntSizeIsRange(v);
    if |s| <= 3 {
      IntValueRange(s);
    }
  }

  lemma {:induction false} ShiftInFront(start: int, s: seq<byte>)
    requires s != []
    ensures ShiftIn(start, s) == ShiftIn(ToInt32(start * 256 + s[0]), s[1..])
    decreases |s|
  {
    if |s| == 1 {
      assert s[..0] == [] && s[1..] == [];
    } else {
      ShiftInFront(start, s[..|s| - 1]);
      assert s[..|s| - 1][1..] == s[1..][..|s| - 2];
    }
  }

  /** Section 8.3.2 of X.690: the first nine bits of a longer encoding are never all equal. */
  lemma FirstNineBitsDiffer(v: int)
    requires -0x8000_0000 <= v < 0x8000_0000 && IntSize(v) > 1
    ensures var s := EncIntBody(v);
            !(s[0] == 0 && s[1] < 0x80) && !(s[0] == 0xFF && s[1] >= 0x80)
  {
    var s := EncIntBody(v);
    if (s[0] == 0 && s[1] < 0x80) || (s[0] == 0xFF && s[1] >= 0x80) {
      IntBodyRoundTrip(v);
      ShiftInFront(if s[0] >= 0x80 then -1 else 0, s);
      IntIsShortest(v, s[1..]);
      assert false;
    }
  }

  // ------------------------------------------------------------------ object identifiers

  lemma ReadMarked(w: nat, t: seq<byte>, inside: bool)
    requires w < 0x200_0000
    ensures DecOidBody([0x80 + w % 128] + t, w / 128, inside) == DecOidBody(t, w, true)
  {
    var x: byte := 0x80 + w % 128;
    var s := [x] + t;
    assert s[0] == x && s[1..] == t && x % 128 == w % 128;
  }

  lemma ReadLast(v: nat, t: seq<byte>, inside: bool)
    requires v < 0x1_0000
    ensures DecOidBody([v % 128] + t, v / 128, inside) ==
            match DecOidBody(t, 0, false) case None => None case Some(rest) => Some([v] + rest)
  {
    var x: byte := v % 128;
    var s := [x] + t;
    assert s[0] == x && s[1..] == t;
  }

  lemma {:induction false} MarkedRead(w: nat, t: seq<byte>, inside: bool)
    requires w < 0x200_0000
    ensures DecOidBody(Marked(w) + t, 0, inside) == DecOidBody(t, w, inside || w > 0)
    decreases w
  {
    if w == 0 {
      assert Marked(w) + t == t;
    } else {
      var tail := [0x80 + w % 128] + t;
      assert Marked(w) + t == Marked(w / 128) + tail;
      MarkedRead(w / 128, tail, inside);
      ReadMarked(w, t, inside || w / 128 > 0);
    }
  }

  lemma SubIdRead(v: nat, t: seq<byte>)
    requires v < 0x1_0000
    ensures DecOidBody(EncSubId(v) + t, 0, false) ==
            match DecOidBody(t, 0, false) case None => None case Some(rest) => Some([v] + rest)
  {
    var tail := [v % 128] + t;
    assert EncSubId(v) + t == Marked(v / 128) + tail;
    MarkedRead(v / 128, tail, false);
    ReadLast(v, t, v / 128 > 0);
  }

  lemma {:induction false} OidBodyRoundTrip(oid: Oid)
    ensures DecOidBody(EncOidBody(oid), 0, false) == Some(oid)
    decreases |oid|
  {
    if oid != [] {
      var rest: Oid := oid[1..];
      OidBodyRoundTrip(rest);
      SubIdRead(oid[0], EncOidBody(rest));
      assert [oid[0]] + rest == oid;
    }
  }

  lemma {:induction false} OidBodySize(oid: Oid)
    ensures |EncOidBody(oid)| <= 3 * |oid|
    decreases |oid|
  {
    if oid != [] {
      var rest: Oid := oid[1..];
      OidBodySize(rest);
      assert Chunks(oid[0] / 128) <= 2;
    }
  }

  /** `asn1_dec_oid` inverts `asn1_enc_oid` on every list of at most ten 16-bit subidentifiers; the
      one length octet the encoder reserves is always enough. */
  lemma OidRoundTrip(buf: seq<byte>, pos: nat, end: nat, oid: Oid)
    requires |oid| <= OID_MAX && end <= |buf| && pos + 1 + |EncOidBody(oid)| <= end
    ensures |EncOidBody(oid)| <= 30
    ensures At(buf, pos, [|EncOidBody(oid)|] + EncOidBody(oid)) ==>
            DecOid(buf, pos, end) == Some((oid, pos + 1 + |EncOidBody(oid)|))
  {
    hide EncOidBody, DecOidBody, Accumulate;
    OidBodySize(oid);
    var body := EncOidBody(oid);
    if At(buf, pos, [|body|] + body) {
      AtParts(buf, pos, [|body|], body);
      AtIndex(buf, pos, [|body|], 0);
      assert DecLength(buf, pos, end) == Some((|body|, pos + 1));
      OidBodyRoundTrip(oid);
    }
  }
}
