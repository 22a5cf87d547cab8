/** A-law companding (include/sbridge_g711.h; section 3 of ITU-T G.711). */
module Alaw {
  import opened Binary
  import opened Common

  // ------------------------------------------------------------------ the highest set bit

  /** `x` masked to the bits whose position, counted from `s`, lies in an upper group of `g`:
      0xFFFF0000 for g = 16, 0xFF00FF00 for 8, 0xF0F0F0F0 for 4, 0xCCCCCCCC for 2, 0xAAAAAAAA for 1. */
  function Upper(x: nat, g: nat, s: nat): nat
    requires g > 0
    decreases x
  {
    if x == 0 then 0 else (if s / g % 2 == 1 then x % 2 else 0) + 2 * Upper(x / 2, g, s + 1)
  }

  /** One of the five tests of `sbridge_top_bit`. */
  function Halve(w: (nat, int), g: nat): (nat, int)
    requires g > 0
  {
    var m := Upper(w.0, g, 0);
    if m != 0 then (m, w.1 + g) else w
  }

  /** `sbridge_top_bit`, the portable version. */
  function TopBit(bits: nat): int {
    if bits == 0 then -1 else Halve(Halve(Halve(Halve(Halve((bits, 0), 16), 8), 4), 2), 1).1
  }

  predicate IsTop(x: nat, r: nat) {
    Pow2(r) <= x < Pow2(r + 1)
  }

  lemma {:induction false} BitOfUpper(x: nat, g: nat, s: nat, i: nat)
    requires g > 0
    ensures Bit(Upper(x, g, s), i) <==> Bit(x, i) && (s + i) / g % 2 == 1
    decreases i
  {
    if x == 0 {
      NoBits(i);
    } else {
      var u := Upper(x / 2, g, s + 1);
      assert Upper(x, g, s) / 2 == u;
      if i > 0 {
        BitOfUpper(x / 2, g, s + 1, i - 1);
        assert s + 1 + (i - 1) == s + i;
      }
    }
  }

  lemma {:induction false} NoBits(i: nat)
    ensures !Bit(0, i)
    decreases i
  {
    if i > 0 { NoBits(i - 1); }
  }

  lemma {:induction false} AboveTop(x: nat, i: nat)
    requires x < Pow2(i)
    ensures !Bit(x, i)
    decreases i
  {
    if i > 0 { AboveTop(x / 2, i - 1); }
  }

  lemma {:induction false} Pow2Grows(a: nat, b: nat)
    requires a <= b
    ensures Pow2(a) <= Pow2(b)
    decreases b
  {
    if a < b { Pow2Grows(a, b - 1); }
  }

  lemma {:induction false} TopIsSet(x: nat, r: nat)
    requires IsTop(x, r)
    ensures Bit(x, r) && forall i :: i > r ==> !Bit(x, i)
    decreases r
  {
    if r == 0 {
      assert x == 1;
    } else {
      TopIsSet(x / 2, r - 1);
    }
    forall i | i > r ensures !Bit(x, i) {
      Pow2Grows(r + 1, i);
      AboveTop(x, i);
    }
  }

  lemma {:induction false} HasTop(x: nat, n: nat) returns (r: nat)
    requires 0 < x < Pow2(n)
    ensures r < n && IsTop(x, r)
    decreases n
  {
    if x < Pow2(n - 1) {
      r := HasTop(x, n - 1);
    } else {
      r := n - 1;
    }
  }

  lemma {:induction false} SetIsTop(x: nat, r: nat, n: nat)
    requires Bit(x, r) && (forall i :: i > r ==> !Bit(x, i)) && x < Pow2(n)
    ensures IsTop(x, r)
    decreases n
  {
    if x == 0 { NoBits(r); }
    var t := HasTop(x, n);
    TopIsSet(x, t);
    assert t == r;
  }

  lemma {:induction false} UpperSmaller(x: nat, g: nat, s: nat)
    requires g > 0
    ensures Upper(x, g, s) <= x
    decreases x
  {
    if x > 0 { UpperSmaller(x / 2, g, s + 1); }
  }

  lemma {:induction false} SomeBit(x: nat, n: nat) returns (i: nat)
    requires 0 < x < Pow2(n)
    ensures Bit(x, i)
  {
    var t := HasTop(x, n);
    TopIsSet(x, t);
    i := t;
  }

  /** Every set bit of the word lies in the group of `g` bits that the result so far starts. */
  ghost predicate Within(w: (nat, int), g: nat)
    requires g > 0
  {
    && w.1 >= 0 && 0 < w.0 < Pow2(32)
    && forall i: nat :: Bit(w.0, i) ==> w.1 <= i < w.1 + g
  }

  /** A test narrows the group to half and keeps the top bit. */
  lemma HalveNarrows(w: (nat, int), g: nat, r: nat)
    requires g in {1, 2, 4, 8, 16} && Within(w, 2 * g) && w.1 % (2 * g) == 0 && IsTop(w.0, r)
    ensures Within(Halve(w, g), g) && Halve(w, g).1 % g == 0 && IsTop(Halve(w, g).0, r)
  {
    hide Upper, Bit, IsTop, Pow2;
    var m := Upper(w.0, g, 0);
    UpperSmaller(w.0, g, 0);
    forall i: nat ensures Bit(m, i) <==> Bit(w.0, i) && i / g % 2 == 1 {
      BitOfUpper(w.0, g, 0, i);
    }
    forall i: nat | Bit(w.0, i) ensures i / g % 2 == 1 <==> i >= w.1 + g {
      GroupHalf(w.1, i, g);
    }
    TopIsSet(w.0, r);
    if m != 0 {
      var i := SomeBit(m, 32);
      assert i <= r;
      assert Bit(m, r);
      SetIsTop(m, r, 32);
    } else {
      NoBits(r);
      forall i: nat | Bit(w.0, i) ensures i < w.1 + g {
        NoBits(i);
      }
    }
    GroupStart(w.1, g);
  }

  lemma GroupHalf(start: int, i: int, g: nat)
    requires g in {1, 2, 4, 8, 16} && start >= 0 && start % (2 * g) == 0 && start <= i < start + 2 * g
    ensures i / g % 2 == 1 <==> i >= start + g
  {
    if g == 1 { Half1(start, i); }
    else if g == 2 { Half2(start, i); }
    else if g == 4 { Half4(start, i); }
    else if g == 8 { Half8(start, i); }
    else { Half16(start, i); }
  }

  lemma Parity(q: int, k: int, odd: bool)
    requires q == 2 * k + (if odd then 1 else 0)
    ensures q % 2 == 1 <==> odd
  {
  }

  lemma Half1(start: int, i: int)
    requires start >= 0 && start % 2 == 0 && start <= i < start + 2
    ensures i / 1 % 2 == 1 <==> i >= start + 1
  {
    var k := start / 2;
    assert i / 1 == 2 * k + (if i >= start + 1 then 1 else 0);
    Parity(i / 1, k, i >= start + 1);
  }

  lemma Half2(start: int, i: int)
    requires start >= 0 && start % 4 == 0 && start <= i < start + 4
    ensures i / 2 % 2 == 1 <==> i >= start + 2
  {
    var k := start / 4;
    assert i / 2 == 2 * k + (if i >= start + 2 then 1 else 0);
    Parity(i / 2, k, i >= start + 2);
  }

  lemma Half4(start: int, i: int)
    requires start >= 0 && start % 8 == 0 && start <= i < start + 8
    ensures i / 4 % 2 == 1 <==> i >= start + 4
  {
    var k := start / 8;
    assert i / 4 == 2 * k + (if i >= start + 4 then 1 else 0);
    Parity(i / 4, k, i >= start + 4);
  }

  lemma Half8(start: int, i: int)
    requires start >= 0 && start % 16 == 0 && start <= i < start + 16
    ensures i / 8 % 2 == 1 <==> i >= start + 8
  {
    var k := start / 16;
    assert i / 8 == 2 * k + (if i >= start + 8 then 1 else 0);
    Parity(i / 8, k, i >= start + 8);
  }

  lemma Half16(start: int, i: int)
    requires start >= 0 && start % 32 == 0 && start <= i < start + 32
    ensures i / 16 % 2 == 1 <==> i >= start + 16
  {
    var k := start / 32;
    assert i / 16 == 2 * k + (if i >= start + 16 then 1 else 0);
    Parity(i / 16, k, i >= start + 16);
  }

  lemma GroupStart(start: int, g: nat)
    requires g in {1, 2, 4, 8, 16} && start >= 0 && start % (2 * g) == 0
    ensures start % g == 0 && (start + g) % g == 0
  {
    if g == 1 { }
    else if g == 2 { Multiple2(start, start / 4 * 2); }
    else if g == 4 { Multiple4(start, start / 8 * 2); }
    else if g == 8 { Multiple8(start, start / 16 * 2); }
    else { Multiple16(start, start / 32 * 2); }
  }

  lemma Multiple2(y: int, k: int)
    requires y == 2 * k
    ensures y % 2 == 0 && (y + 2) % 2 == 0
  {
    assert y + 2 == 2 * (k + 1);
  }

  lemma Multiple4(y: int, k: int)
    requires y == 4 * k
    ensures y % 4 == 0 && (y + 4) % 4 == 0
  {
    assert y + 4 == 4 * (k + 1);
  }

  lemma Multiple8(y: int, k: int)
    requires y == 8 * k
    ensures y % 8 == 0 && (y + 8) % 8 == 0
  {
    assert y + 8 == 8 * (k + 1);
  }

  lemma Multiple16(y: int, k: int)
    requires y == 16 * k
    ensures y % 16 == 0 && (y + 16) % 16 == 0
  {
    assert y + 16 == 16 * (k + 1);
  }

  /** `sbridge_top_bit` is the floor of the base-2 logarithm. */
  lemma TopBitIsFloorLog2(bits: nat, r: nat)
    requires bits < Pow2(32)
    ensures bits > 0 ==> 0 <= TopBit(bits) < 32 && IsTop(bits, TopBit(bits))
    ensures IsTop(bits, r) ==> TopBit(bits) == r
  {
    hide Halve, IsTop, Pow2;
    if bits > 0 {
      var t := HasTop(bits, 32);
      WithinWord(bits);
      var w0 := (bits, 0);
      HalveNarrows(w0, 16, t);
      var w1 := Halve(w0, 16);
      HalveNarrows(w1, 8, t);
      var w2 := Halve(w1, 8);
      HalveNarrows(w2, 4, t);
      var w3 := Halve(w2, 4);
      HalveNarrows(w3, 2, t);
      var w4 := Halve(w3, 2);
      HalveNarrows(w4, 1, t);
      TopIsSet(Halve(w4, 1).0, t);
      if IsTop(bits, r) { OneTop(bits, t, r); }
    } else if IsTop(bits, r) {
      NotZero(bits, r);
    }
  }

  lemma NotZero(x: nat, r: nat)
    requires IsTop(x, r)
    ensures x > 0
  {
  }

  lemma OneTop(x: nat, a: nat, b: nat)
    requires IsTop(x, a) && IsTop(x, b)
    ensures a == b
  {
    if a < b { Pow2Grows(a + 1, b); } else if b < a { Pow2Grows(b + 1, a); }
  }

  lemma WithinWord(bits: nat)
    requires 0 < bits < Pow2(32)
    ensures Within((bits, 0), 32)
  {
    forall i: nat | Bit(bits, i) ensures i < 32 {
      if i >= 32 {
        Pow2Grows(32, i);
        AboveTop(bits, i);
      }
    }
  }

  // ------------------------------------------------------------------ the code

  /** Two bits with the lower one flipped. */
  function Flip(x: int): (r: int)
    ensures 0 <= x < 4 ==> 0 <= r < 4 && (r < 2 <==> x < 2)
  {
    if x % 2 == 0 then x + 1 else x - 1
  }

  /** `x ^ 0x55`: the lower bit of each pair. */
  function Xor55(x: byte): (r: byte)
    ensures r >= 128 <==> x >= 128
  {
    var y: int := x;
    Flip(y % 4) + 4 * Flip(y / 4 % 4) + 16 * Flip(y / 16 % 4) + 64 * Flip(y / 64)
  }

  lemma Pairs(y: int, a: int, b: int, c: int, d: int)
    requires 0 <= a < 4 && 0 <= b < 4 && 0 <= c < 4 && 0 <= d < 4 && y == a + 4 * b + 16 * c + 64 * d
    ensures y % 4 == a && y / 4 % 4 == b && y / 16 % 4 == c && y / 64 == d
  {
    assert y / 4 == b + 4 * (c + 4 * d);
    assert y / 16 == c + 4 * d;
  }

  lemma FlipTwice(x: int)
    ensures Flip(Flip(x)) == x
  {
  }

  lemma XorTwice(x: byte)
    ensures Xor55(Xor55(x)) == x
  {
    hide Flip;
    var y: int := x;
    var a, b, c, d := y % 4, y / 4 % 4, y / 16 % 4, y / 64;
    FlipTwice(a);
    FlipTwice(b);
    FlipTwice(c);
    FlipTwice(d);
    Pairs(Xor55(x), Flip(a), Flip(b), Flip(c), Flip(d));
    SumOfPairs(y);
  }

  lemma SumOfPairs(y: int)
    requires 0 <= y < 256
    ensures y == y % 4 + 4 * (y / 4 % 4) + 16 * (y / 16 % 4) + 64 * (y / 64)
  {
    var q := y / 4;
    assert y / 16 == q / 4 && y / 64 == q / 16;
    var r := q / 4;
    assert q / 16 == r / 4;
  }

  /** `linear >> (seg ? seg + 3 : 4)`. */
  function Quantize(y: nat, seg: nat): nat
    requires seg < 8
  {
    if seg <= 1 then y / 16
    else if seg == 2 then y / 32
    else if seg == 3 then y / 64
    else if seg == 4 then y / 128
    else if seg == 5 then y / 256
    else if seg == 6 then y / 512
    else y / 1024
  }

  /** The segment number: the top bit of `linear | 0xFF`, less 7. */
  function Segment(y: nat): int {
    TopBit(y / 256 * 256 + 255) - 7
  }

  /** The seven magnitude bits before the alternate bits are inverted; 0x7F out of range. */
  function Magnitude(y: nat): (r: int)
  {
    var seg := Segment(y);
    if seg >= 8 then 0x7F else if seg < 0 then 0 else seg * 16 + Quantize(y, seg) % 16
  }

  /** `sbridge_linear_to_alaw`. A negative sample is coded as -x - 1, which is never negative, so the
      second out-of-range return of the source is not reached. */
  function Encode(x: int): int {
    if x >= 0 then Xored(128, Magnitude(x)) else Xored(0, Magnitude(-x - 1))
  }

  function Xored(sign: int, magnitude: int): int {
    if 0 <= sign + magnitude < 256 then Xor55(sign + magnitude) else 0
  }

  /** The level of a magnitude code, as the decoder computes it. */
  function Level(code: int): int
  {
    var i := code % 16 * 16;
    var seg := code / 16 % 8;
    if seg == 0 then i + 8
    else if seg == 1 then i + 0x108
    else if seg == 2 then (i + 0x108) * 2
    else if seg == 3 then (i + 0x108) * 4
    else if seg == 4 then (i + 0x108) * 8
    else if seg == 5 then (i + 0x108) * 16
    else if seg == 6 then (i + 0x108) * 32
    else (i + 0x108) * 64
  }

  /** `sbridge_alaw_to_linear`. */
  function Decode(alaw: byte): int {
    var a := Xor55(alaw);
    if a >= 128 then Level(a) else -Level(a)
  }

  // ------------------------------------------------------------------ segments

  /** First magnitude of a segment. */
  function Start(seg: nat): nat
  {
    if seg == 0 then 0 else if seg == 1 then 256 else if seg == 2 then 512 else if seg == 3 then 1024
    else if seg == 4 then 2048 else if seg == 5 then 4096 else if seg == 6 then 8192 else if seg == 7 then 16384
    else 32768
  }

  lemma Powers()
    ensures Pow2(7) == 128 && Pow2(8) == 256 && Pow2(9) == 512 && Pow2(10) == 1024 && Pow2(11) == 2048
    ensures Pow2(12) == 4096 && Pow2(13) == 8192 && Pow2(14) == 16384 && Pow2(15) == 32768 && Pow2(31) == 0x8000_0000
    ensures Pow2(32) == 0x1_0000_0000
  {
    assert Pow2(2) == 4;
    assert Pow2(4) == 4 * Pow2(2);
    assert Pow2(6) == 4 * Pow2(4);
    assert Pow2(8) == 4 * Pow2(6);
    assert Pow2(10) == 4 * Pow2(8);
    assert Pow2(12) == 4 * Pow2(10);
    assert Pow2(14) == 4 * Pow2(12);
    assert Pow2(16) == 4 * Pow2(14);
    assert Pow2(18) == 4 * Pow2(16);
    assert Pow2(20) == 4 * Pow2(18);
    assert Pow2(22) == 4 * Pow2(20);
    assert Pow2(24) == 4 * Pow2(22);
    assert Pow2(26) == 4 * Pow2(24);
    assert Pow2(28) == 4 * Pow2(26);
    assert Pow2(30) == 4 * Pow2(28);
    assert Pow2(32) == 4 * Pow2(30);
  }

  lemma SegmentIs(y: nat, seg: nat)
    requires seg < 8 && Start(seg) <= y < Start(seg + 1)
    ensures Segment(y) == seg
  {
    hide TopBit;
    Powers();
    var w := y / 256 * 256 + 255;
    assert Pow2(seg + 7) <= w < Pow2(seg + 8);
    TopBitIsFloorLog2(w, seg + 7);
  }

  lemma SegmentBeyond(y: nat)
    requires 32768 <= y < 0x8000_0000
    ensures Segment(y) >= 8
  {
    hide TopBit;
    Powers();
    var w := y / 256 * 256 + 255;
    TopBitIsFloorLog2(w, 0);
    if TopBit(w) < 15 {
      Pow2Grows(TopBit(w) + 1, 15);
    }
  }

  lemma FindSegment(y: nat) returns (seg: nat)
    requires y < 32768
    ensures seg < 8 && Start(seg) <= y < Start(seg + 1)
  {
    seg := if y < 256 then 0 else if y < 512 then 1 else if y < 1024 then 2 else if y < 2048 then 3
           else if y < 4096 then 4 else if y < 8192 then 5 else if y < 16384 then 6 else 7;
  }

  /** Half a quantization step. */
  function HalfStep(seg: nat): nat
  {
    if seg <= 1 then 8 else if seg == 2 then 16 else if seg == 3 then 32 else if seg == 4 then 64
    else if seg == 5 then 128 else if seg == 6 then 256 else 512
  }

  /** In range: the code is seven bits, and its level is the middle of the cell the magnitude is in. */
  lemma LevelIsMiddle(y: nat, seg: nat)
    requires seg < 8 && Start(seg) <= y < Start(seg + 1)
    ensures 0 <= Magnitude(y) < 128
    ensures Level(Magnitude(y)) == Middle(y, seg)
    ensures y - Middle(y, seg) < HalfStep(seg) && Middle(y, seg) - y <= HalfStep(seg)
  {
    hide Segment;
    SegmentIs(y, seg);
    var n := Quantize(y, seg);
    CodeParts(seg, n % 16);
    QuantizeRange(y, seg);
  }

  lemma CodeParts(seg: nat, low: nat)
    requires seg < 8 && low < 16
    ensures (seg * 16 + low) % 16 == low && (seg * 16 + low) / 16 % 8 == seg
  {
  }

  /** The middle of the cell of `y` in segment `seg`. */
  function Middle(y: nat, seg: nat): nat
    requires seg < 8
  {
    if seg <= 1 then y / 16 * 16 + 8
    else if seg == 2 then y / 32 * 32 + 16
    else if seg == 3 then y / 64 * 64 + 32
    else if seg == 4 then y / 128 * 128 + 64
    else if seg == 5 then y / 256 * 256 + 128
    else if seg == 6 then y / 512 * 512 + 256
    else y / 1024 * 1024 + 512
  }

  lemma QuantizeRange(y: nat, seg: nat)
    requires seg < 8 && Start(seg) <= y < Start(seg + 1)
    ensures var n := Quantize(y, seg);
            if seg == 0 then n < 16 && n % 16 == n else 16 <= n < 32 && n % 16 == n - 16
  {
  }

  // ------------------------------------------------------------------ bounds

  lemma DecodeOfEncode(x: int)
    requires -0x8000_0000 < x < 0x8000_0000
    ensures 0 <= Encode(x) < 256
    ensures Decode(Encode(x)) == if x >= 0 then Level(Magnitude(x)) else -Level(Magnitude(-x - 1))
    ensures 0 <= Magnitude(if x >= 0 then x else -x - 1) < 128
  {
    hide Segment, Quantize, Level, Xor55;
    var y: nat := if x >= 0 then x else -x - 1;
    MagnitudeRange(y);
    XorTwice(if x >= 0 then 128 + Magnitude(y) else Magnitude(y));
    if x >= 0 { LevelOfSigned(Magnitude(y)); }
  }

  lemma MagnitudeRange(y: nat)
    requires y < 0x8000_0000
    ensures 0 <= Magnitude(y) < 128
    ensures y >= 32768 ==> Magnitude(y) == 127
  {
    hide Segment;
    if y < 32768 {
      var seg := FindSegment(y);
      SegmentIs(y, seg);
    } else {
      SegmentBeyond(y);
    }
  }

  /** The sign bit plays no part in the level. */
  lemma LevelOfSigned(code: nat)
    requires code < 128
    ensures Level(128 + code) == Level(code)
  {
    assert (128 + code) % 16 == code % 16;
    assert (128 + code) / 16 == 8 + code / 16;
  }

  function Abs(x: int): nat {
    if x >= 0 then x else -x
  }

  /** Every 16-bit sample comes back within 8, or within a thirty-second of itself. */
  lemma ErrorIsBounded(x: int)
    requires -32768 <= x <= 32767
    ensures 0 <= Encode(x) < 256
    ensures Abs(Decode(Encode(x)) - x) <= if Abs(x) / 32 > 8 then Abs(x) / 32 else 8
  {
    hide Decode, Encode, Magnitude, Level;
    DecodeOfEncode(x);
    var y: nat := if x >= 0 then x else -x - 1;
    var seg := FindSegment(y);
    LevelIsMiddle(y, seg);
    HalfStepIsSmall(y, seg);
  }

  lemma HalfStepIsSmall(y: nat, seg: nat)
    requires seg < 8 && Start(seg) <= y
    ensures HalfStep(seg) <= 8 || HalfStep(seg) <= y / 32
  {
  }

  lemma StartMono(a: nat, b: nat)
    requires a <= b <= 8
    ensures Start(a) <= Start(b)
  {
  }

  lemma SameSegment(y: nat, z: nat, s: nat)
    requires y <= z && s < 8
    ensures Middle(y, s) <= Middle(z, s)
  {
    assert y / 16 <= z / 16 && y / 32 <= z / 32 && y / 64 <= z / 64 && y / 128 <= z / 128;
    assert y / 256 <= z / 256 && y / 512 <= z / 512 && y / 1024 <= z / 1024;
  }

  lemma MiddleMono(y: nat, z: nat, s: nat, t: nat)
    requires y <= z && s < 8 && t < 8 && Start(s) <= y < Start(s + 1) && Start(t) <= z < Start(t + 1)
    ensures Middle(y, s) <= Middle(z, t)
  {
    hide Middle, Start;
    if s == t {
      SameSegment(y, z, s);
    } else if s < t {
      MiddleInSegment(y, s);
      MiddleInSegment(z, t);
      StartMono(s + 1, t);
    } else {
      StartMono(t + 1, s);
      assert false;
    }
  }

  lemma MiddleInSegment(y: nat, s: nat)
    requires s < 8 && Start(s) <= y < Start(s + 1)
    ensures Start(s) < Middle(y, s) < Start(s + 1)
  {
  }

  lemma LevelMono(y: nat, z: nat)
    requires y <= z < 0x8000_0000
    ensures 0 < Level(Magnitude(y)) <= Level(Magnitude(z)) <= 32256
  {
    hide Magnitude, Level, Middle;
    if y < 32768 {
      var s := FindSegment(y);
      LevelIsMiddle(y, s);
      MiddleInSegment(y, s);
      TopCell(y, s);
      if z < 32768 {
        var t := FindSegment(z);
        LevelIsMiddle(z, t);
        TopCell(z, t);
        MiddleMono(y, z, s, t);
      } else {
        Saturated(z);
      }
    } else {
      Saturated(y);
      Saturated(z);
    }
  }

  lemma TopCell(y: nat, s: nat)
    requires s < 8 && Start(s) <= y < Start(s + 1)
    ensures Middle(y, s) <= 32256
  {
  }

  /** Magnitudes out of range all get the highest level. */
  lemma Saturated(y: nat)
    requires 32768 <= y < 0x8000_0000
    ensures Level(Magnitude(y)) == 32256
  {
    hide Magnitude;
    MagnitudeRange(y);
  }

  /** Decoding what was encoded is monotone over all integers the C type holds, and saturates. */
  lemma CompandingIsMonotone(x: int, z: int)
    requires -0x8000_0000 < x <= z < 0x8000_0000
    ensures 0 <= Encode(x) < 256 && 0 <= Encode(z) < 256
    ensures -32256 <= Decode(Encode(x)) <= Decode(Encode(z)) <= 32256
  {
    hide Decode, Encode, Magnitude, Level;
    DecodeOfEncode(x);
    DecodeOfEncode(z);
    if x >= 0 {
      LevelMono(x, z);
    } else if z < 0 {
      LevelMono(-z - 1, -x - 1);
    } else {
      LevelMono(-x - 1, -x - 1);
      LevelMono(z, z);
    }
  }

  // ------------------------------------------------------------------ the code comes back

  lemma MagnitudeOfLevel(code: nat, y: nat)
    requires code < 128 && (y == Level(code) || y + 1 == Level(code))
    ensures Magnitude(y) == code
  {
    hide Segment;
    var seg, low := code / 16, code % 16;
    assert code == seg * 16 + low;
    LevelInSegment(seg, low, y);
    SegmentIs(y, seg);
  }

  lemma LevelInSegment(seg: nat, low: nat, y: nat)
    requires seg < 8 && low < 16 && (y == Level(seg * 16 + low) || y + 1 == Level(seg * 16 + low))
    ensures Start(seg) <= y < Start(seg + 1) && Quantize(y, seg) % 16 == low
  {
    if seg < 4 {
      LevelInLowSegment(seg, low, y);
    } else {
      LevelInHighSegment(seg, low, y);
    }
  }

  lemma LevelInLowSegment(seg: nat, low: nat, y: nat)
    requires seg < 4 && low < 16 && (y == Level(seg * 16 + low) || y + 1 == Level(seg * 16 + low))
    ensures Start(seg) <= y < Start(seg + 1) && Quantize(y, seg) % 16 == low
  {
    CodeParts(seg, low);
    if seg == 0 { assert y / 16 == low; }
    else if seg == 1 { assert y / 16 == 16 + low; }
    else if seg == 2 { assert y / 32 == 16 + low; }
    else { assert y / 64 == 16 + low; }
  }

  lemma LevelInHighSegment(seg: nat, low: nat, y: nat)
    requires 4 <= seg < 8 && low < 16 && (y == Level(seg * 16 + low) || y + 1 == Level(seg * 16 + low))
    ensures Start(seg) <= y < Start(seg + 1) && Quantize(y, seg) % 16 == low
  {
    CodeParts(seg, low);
    if seg == 4 { assert y / 128 == 16 + low; }
    else if seg == 5 { assert y / 256 == 16 + low; }
    else if seg == 6 { assert y / 512 == 16 + low; }
    else { assert y / 1024 == 16 + low; }
  }

  /** Encoding inverts decoding on all 256 codes. */
  lemma EncodeInvertsDecode(alaw: byte)
    ensures Encode(Decode(alaw)) == alaw
  {
    hide Magnitude, Xor55;
    XorTwice(alaw);
    var a := Xor55(alaw);
    if a >= 128 {
      LevelOfSigned(a - 128);
      LevelPositive(a - 128);
      MagnitudeOfLevel(a - 128, Level(a));
    } else {
      LevelPositive(a);
      MagnitudeOfLevel(a, Level(a) - 1);
    }
  }

  lemma LevelPositive(code: nat)
    ensures Level(code) > 0
  {
  }
}
