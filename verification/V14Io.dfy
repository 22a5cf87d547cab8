/** `v14_encode` and `v14_decode` over octet buffers: bits shifted in and masked out one by one. */
module V14Io {
  import opened Binary
  import opened Common
  import opened V14

  // ------------------------------------------------------------------ writing line bits

  /** Bits of the octet being filled. */
  function Tail(sent: Bits): (r: Bits)
    ensures |r| == |sent| % 8
  {
    sent[8 * (|sent| / 8)..]
  }

  /** The number with these bits, most significant first. */
  function Msb(t: Bits): nat
    decreases |t|
  {
    if t == [] then 0 else 2 * Msb(t[..|t| - 1]) + (if t[|t| - 1] then 1 else 0)
  }

  /** Full octets are packed; the low bits of the next hold what has been shifted into it. */
  ghost predicate Sent(now: seq<byte>, sent: Bits) {
    && |sent| <= 8 * |now|
    && (forall k :: 0 <= k < |sent| / 8 ==> now[k] == Octet8(Reversed8(Slot(sent, k))))
    && (|sent| % 8 > 0 ==> LowBits(now[|sent| / 8], |sent| % 8) == Msb(Tail(sent)))
  }

  /** The low `r` bits of an octet. */
  function LowBits(x: nat, r: nat): nat {
    if r == 0 then 0
    else if r == 1 then x % 2
    else if r == 2 then x % 4
    else if r == 3 then x % 8
    else if r == 4 then x % 16
    else if r == 5 then x % 32
    else if r == 6 then x % 64
    else if r == 7 then x % 128
    else x % 256
  }

  lemma Rem2(y: int, a: int, r: int)
    requires y == 2 * a + r && 0 <= r < 2
    ensures y % 2 == r
  {
  }

  lemma Shift2(x: nat, v: nat)
    requires v <= 1
    ensures (x * 2 + v) % 256 % 2 == v
  {
    var q := (x * 2 + v) / 256;
    Rem2((x * 2 + v) % 256, x - 128 * q, v);
  }

  lemma Rem4(y: int, a: int, r: int)
    requires y == 4 * a + r && 0 <= r < 4
    ensures y % 4 == r
  {
  }

  lemma Shift4(x: nat, v: nat)
    requires v <= 1
    ensures (x * 2 + v) % 256 % 4 == 2 * (x % 2) + v
  {
    var q, a, b := (x * 2 + v) / 256, x / 2, x % 2;
    Rem4((x * 2 + v) % 256, a - 64 * q, 2 * b + v);
  }

  lemma Rem8(y: int, a: int, r: int)
    requires y == 8 * a + r && 0 <= r < 8
    ensures y % 8 == r
  {
  }

  lemma Shift8(x: nat, v: nat)
    requires v <= 1
    ensures (x * 2 + v) % 256 % 8 == 2 * (x % 4) + v
  {
    var q, a, b := (x * 2 + v) / 256, x / 4, x % 4;
    Rem8((x * 2 + v) % 256, a - 32 * q, 2 * b + v);
  }

  lemma Rem16(y: int, a: int, r: int)
    requires y == 16 * a + r && 0 <= r < 16
    ensures y % 16 == r
  {
  }

  lemma Shift16(x: nat, v: nat)
    requires v <= 1
    ensures (x * 2 + v) % 256 % 16 == 2 * (x % 8) + v
  {
    var q, a, b := (x * 2 + v) / 256, x / 8, x % 8;
    Rem16((x * 2 + v) % 256, a - 16 * q, 2 * b + v);
  }

  lemma Rem32(y: int, a: int, r: int)
    requires y == 32 * a + r && 0 <= r < 32
    ensures y % 32 == r
  {
  }

  lemma Shift32(x: nat, v: nat)
    requires v <= 1
    ensures (x * 2 + v) % 256 % 32 == 2 * (x % 16) + v
  {
    var q, a, b := (x * 2 + v) / 256, x / 16, x % 16;
    Rem32((x * 2 + v) % 256, a - 8 * q, 2 * b + v);
  }

  lemma Rem64(y: int, a: int, r: int)
    requires y == 64 * a + r && 0 <= r < 64
    ensures y % 64 == r
  {
  }

  lemma Shift64(x: nat, v: nat)
    requires v <= 1
    ensures (x * 2 + v) % 256 % 64 == 2 * (x % 32) + v
  {
    var q, a, b := (x * 2 + v) / 256, x / 32, x % 32;
    Rem64((x * 2 + v) % 256, a - 4 * q, 2 * b + v);
  }

  lemma Rem128(y: int, a: int, r: int)
    requires y == 128 * a + r && 0 <= r < 128
    ensures y % 128 == r
  {
  }

  lemma Shift128(x: nat, v: nat)
    requires v <= 1
    ensures (x * 2 + v) % 256 % 128 == 2 * (x % 64) + v
  {
    var q, a, b := (x * 2 + v) / 256, x / 64, x % 64;
    Rem128((x * 2 + v) % 256, a - 2 * q, 2 * b + v);
  }

  lemma Rem256(y: int, a: int, r: int)
    requires y == 256 * a + r && 0 <= r < 256
    ensures y % 256 == r
  {
  }

  lemma Shift256(x: nat, v: nat)
    requires v <= 1
    ensures (x * 2 + v) % 256 % 256 == 2 * (x % 128) + v
  {
    var q, a, b := (x * 2 + v) / 256, x / 128, x % 128;
    Rem256((x * 2 + v) % 256, a - q, 2 * b + v);
  }

  function Val(b: bool): (r: nat)
    ensures r <= 1
  {
    if b then 1 else 0
  }

  /** `(*out) <<= 1`, and one more if the bit is set, in eight bits. */
  function Shifted(x: byte, b: bool): byte {
    var y: int := x;
    (y * 2 + Val(b)) % 256
  }

  /** Shifting one bit into an octet of which `r` bits are filled. */
  lemma ShiftIn(x: byte, b: bool, r: nat, t: Bits)
    requires r < 8 && |t| == r && LowBits(x, r) == Msb(t)
    ensures LowBits(Shifted(x, b), r + 1) == Msb(t + [b])
  {
    assert (t + [b])[..r] == t;
    LowBitsShift(x, Val(b), r);
  }

  lemma LowBitsShift(x: nat, v: nat, r: nat)
    requires r < 8 && v <= 1
    ensures LowBits((x * 2 + v) % 256, r + 1) == 2 * LowBits(x, r) + v
  {
    if r == 0 { Shift2(x, v); }
    else if r == 1 { Shift4(x, v); }
    else if r == 2 { Shift8(x, v); }
    else if r == 3 { Shift16(x, v); }
    else if r == 4 { Shift32(x, v); }
    else if r == 5 { Shift64(x, v); }
    else if r == 6 { Shift128(x, v); }
    else { Shift256(x, v); }
  }

  function Rev(t: Bits): (r: Bits)
    ensures |r| == |t| && forall j :: 0 <= j < |t| ==> r[j] == t[|t| - 1 - j]
  {
    seq(|t|, j requires 0 <= j < |t| => t[|t| - 1 - j])
  }

  lemma {:induction false} MsbIsValue(t: Bits)
    ensures Msb(t) == Value(Rev(t))
    decreases |t|
  {
    if t != [] {
      MsbIsValue(t[..|t| - 1]);
      assert Rev(t)[1..] == Rev(t[..|t| - 1]);
    }
  }

  lemma FullOctet(x: byte, t: Bits)
    requires |t| == 8 && LowBits(x, 8) == Msb(t)
    ensures x == Octet8(Reversed8(t))
  {
    hide Msb, Value;
    MsbIsValue(t);
    assert Rev(t) == Reversed8(t);
  }

  lemma SlotOfLonger(sent: Bits, b: bool, k: nat)
    requires k < |sent| / 8
    ensures Slot(sent + [b], k) == Slot(sent, k)
  {
  }

  /** `(*out) <<= 1`, plus the bit, and `out++` when the octet is full. */
  method PutBit(out: array<byte>, num: nat, b: bool, ghost sent: Bits)
    requires num == |sent| && num / 8 < out.Length && Sent(out[..], sent)
    modifies out
    ensures Sent(out[..], sent + [b])
    ensures forall k :: 0 <= k < out.Length && k != num / 8 ==> out[k] == old(out[k])
  {
    hide Octet8, Msb, LowBits;
    ghost var was := out[..];
    ghost var r, k := num % 8, num / 8;
    var x := out[num / 8];
    EmptyOctet(x);
    ShiftIn(x, b, r, Tail(sent));
    out[num / 8] := Shifted(x, b);
    ghost var more := sent + [b];
    forall i | 0 <= i < k ensures out[..][i] == Octet8(Reversed8(Slot(more, i))) {
      SlotOfLonger(sent, b, i);
    }
    ghost var t := Tail(sent) + [b];
    if r == 7 {
      FullOctet(out[k], t);
      assert Slot(more, k) == t;
    } else {
      assert Tail(more) == t;
    }
  }

  lemma EmptyOctet(x: byte)
    ensures LowBits(x, 0) == Msb([])
  {
  }

  lemma SentIsPacked(now: seq<byte>, sent: Bits)
    requires Sent(now, sent) && |sent| % 8 == 0
    ensures now[..|sent| / 8] == PackLine(sent)
  {
  }

  /** `*out <<= n` in one go is `n` zero bits. */
  function ShiftLeft(x: byte, n: nat): byte
    decreases n
  {
    if n == 0 then x else ShiftLeft(Shifted(x, false), n - 1)
  }

  lemma {:induction false} ShiftFills(x: byte, n: nat, t: Bits)
    requires |t| + n == 8 && LowBits(x, |t|) == Msb(t)
    ensures LowBits(ShiftLeft(x, n), 8) == Msb(t + seq(n, _ => false))
    decreases n
  {
    if n == 0 {
      assert t + seq(n, _ => false) == t;
    } else {
      ShiftIn(x, false, |t|, t);
      ShiftFills(Shifted(x, false), n - 1, t + [false]);
      assert t + [false] + seq(n - 1, _ => false) == t + seq(n, _ => false);
    }
  }

  /** The last octet is filled up with zeroes. */
  method FillLast(out: array<byte>, num: nat, ghost sent: Bits)
    requires num == |sent| && Sent(out[..], sent)
    modifies out
    ensures out[..(num + 7) / 8] == PackLine(sent)
    ensures forall k :: (num + 7) / 8 <= k < out.Length ==> out[k] == old(out[k])
  {
    hide Octet8, Msb, LowBits;
    if num % 8 == 0 {
      SentIsPacked(out[..], sent);
    } else {
      ghost var k, n := num / 8, 8 - num % 8;
      ghost var was := out[..];
      ghost var t := Tail(sent) + seq(n, _ => false);
      ShiftFills(out[k], n, Tail(sent));
      out[num / 8] := ShiftLeft(out[num / 8], 8 - num % 8);
      FullOctet(out[k], t);
      assert Slot(sent, k) == t;
      assert out[..k + 1] == PackLine(sent);
    }
  }

  // ------------------------------------------------------------------ the encoder

  lemma EncodeNothing(state: int)
    requires EncoderState(state)
    ensures Encode([], state) == ([], state)
  {
  }

  lemma EncodeStep(data: Bits, state: int, sent: Bits)
    requires EncoderState(state) && data != []
    ensures var b := if state > 0 then data[0] else state < 0;
            var rest := Encode(if state > 0 then data[1..] else data, Advance(state));
            && sent + Encode(data, state).0 == sent + [b] + rest.0
            && Encode(data, state).1 == rest.1
  {
  }

  /** `v14_encode`: `inLen` data bits of `input`, at least `outLen` bits out. */
  method EncodeFrame(input: seq<byte>, inLen: nat, out: array<byte>, outLen: nat, start: int) returns (state: int)
    requires EncoderState(start) && inLen <= 8 * |input| && out.Length > 0
    requires |Padded(BitsOf(input)[..inLen], outLen, start)| <= 8 * out.Length
    modifies out
    ensures var bits := Padded(BitsOf(input)[..inLen], outLen, start);
            && out[..|PackLine(bits)|] == PackLine(bits)
            && state == Encode(BitsOf(input)[..inLen], start).1
    ensures forall k :: 0 < k < out.Length && k >= |PackLine(Padded(BitsOf(input)[..inLen], outLen, start))| ==>
              out[k] == old(out[k])
  {
    hide Sent, PackLine, Encode, Bit;
    ghost var data := BitsOf(input)[..inLen];
    ghost var goal := Encode(data, start);
    ghost var bits := Padded(data, outLen, start);
    ghost var octets := (|bits| + 7) / 8;
    ghost var sent: Bits := [];
    state := start;
    var num, i := 0, 0;
    out[0] := 0;
    NothingSent(out[..]);
    assert data[0..] == data;
    while i < inLen
      invariant 0 <= i <= inLen && EncoderState(state) && num == |sent| <= |goal.0|
      invariant sent + Encode(data[i..], state).0 == goal.0 && Encode(data[i..], state).1 == goal.1
      invariant Sent(out[..], sent)
      invariant forall k :: 0 < k < out.Length && k >= octets ==> out[k] == old(out[k])
      decreases inLen - i, if state > 0 then 0 else 1 - state
    {
      EncodeStep(data[i..], state, sent);
      assert data[i..][1..] == data[i + 1..];
      var b := state < 0;
      if state > 0 {
        b := Bit(input[i / 8], i % 8);
        i := i + 1;
      }
      OctetOfBit(num, |bits|);
      PutBit(out, num, b, sent);
      sent := sent + [b];
      num := num + 1;
      state := if state == DATA_BITS_NUM then -1 else state + 1;
    }
    assert data[i..] == [];
    EncodeNothing(state);
    assert sent + [] == sent;
    while num < outLen
      invariant |goal.0| <= num == |sent| <= |bits|
      invariant sent == goal.0 + Ones(num - |goal.0|)
      invariant Sent(out[..], sent)
      invariant forall k :: 0 < k < out.Length && k >= octets ==> out[k] == old(out[k])
    {
      OctetOfBit(num, |bits|);
      PutBit(out, num, true, sent);
      sent := sent + [true];
      num := num + 1;
    }
    assert sent == bits;
    FillLast(out, num, sent);
  }

  lemma OctetOfBit(num: nat, total: nat)
    requires num < total
    ensures num / 8 < (total + 7) / 8
  {
  }

  lemma NothingSent(now: seq<byte>)
    ensures Sent(now, [])
  {
  }

  // ------------------------------------------------------------------ the decoder

  /** Octets up to the current one hold the data bits so far, the rest of it zero. */
  ghost predicate Got(now: seq<byte>, got: Bits) {
    |got| / 8 < |now| && forall k :: 0 <= k <= |got| / 8 ==> now[k] == Octet8(Slot(got, k))
  }

  lemma Pow2Table()
    ensures Pow2(0) == 1 && Pow2(1) == 2 && Pow2(2) == 4 && Pow2(3) == 8 && Pow2(4) == 16
    ensures Pow2(5) == 32 && Pow2(6) == 64 && Pow2(7) == 128
  {
    assert Pow2(2) == 4;
    assert Pow2(4) == 4 * Pow2(2);
    assert Pow2(6) == 4 * Pow2(4);
  }

  lemma {:induction false} SetBit(b: Bits, j: nat)
    requires j < |b| && !b[j]
    ensures Value(b[j := true]) == Value(b) + Pow2(j)
    decreases |b|
  {
    if j == 0 {
      assert b[0 := true][1..] == b[1..];
    } else {
      SetBit(b[1..], j - 1);
      assert b[j := true][1..] == b[1..][j - 1 := true];
    }
  }

  lemma ZeroSlot(got: Bits, k: nat)
    requires 8 * k >= |got|
    ensures Octet8(Slot(got, k)) == 0
  {
    ZeroValue(Slot(got, k));
  }

  lemma {:induction false} ZeroValue(b: Bits)
    requires forall j :: 0 <= j < |b| ==> !b[j]
    ensures Value(b) == 0
    decreases |b|
  {
    if b != [] { ZeroValue(b[1..]); }
  }

  lemma NewBit(got: Bits, b: bool)
    ensures var k, j := |got| / 8, |got| % 8;
            Octet8(Slot(got + [b], k)) == Octet8(Slot(got, k)) + (if b then Pow2(j) else 0)
  {
    var k, j := |got| / 8, |got| % 8;
    var slot := Slot(got, k);
    if b {
      assert Slot(got + [b], k) == slot[j := true];
      SetBit(slot, j);
    } else {
      assert Slot(got + [b], k) == slot;
    }
  }

  lemma GotIsPacked(now: seq<byte>, got: Bits)
    requires Got(now, got)
    ensures now[..|PackData(got)|] == PackData(got)
  {
  }

  /** `if (tbit) (*out) |= obit; obit <<= 1`, and the next octet when this one is full. */
  method TakeBit(out: array<byte>, num: nat, b: bool, mask: nat, ghost got: Bits) returns (obit: nat)
    requires num == |got| && Got(out[..], got) && (num + 1) / 8 < out.Length && mask == Pow2(num % 8)
    modifies out
    ensures Got(out[..], got + [b]) && obit == Pow2((num + 1) % 8)
  {
    hide Octet8, Pow2;
    ghost var k := num / 8;
    NewBit(got, b);
    Pow2Table();
    ghost var more := got + [b];
    if b {
      out[num / 8] := out[num / 8] + mask;
    }
    obit := mask * 2 % 256;
    if obit == 0 {
      obit := 1;
      out[num / 8 + 1] := 0;
      ZeroSlot(more, k + 1);
    }
    forall i | 0 <= i < k ensures Slot(more, i) == Slot(got, i) {
      SlotOfLonger(got, b, i);
    }
  }

  lemma DecodeNothing(state: int)
    requires EncoderState(state)
    ensures Decode([], state) == ([], state)
  {
  }

  lemma DecodeStep(bits: Bits, state: int, got: Bits)
    requires EncoderState(state) && bits != []
    ensures if state < 0 then Decode(bits, state) == Decode(bits[1..], if bits[0] then state else 1)
            else var rest := Decode(bits[1..], Advance(state));
                 got + Decode(bits, state).0 == got + [bits[0]] + rest.0 && Decode(bits, state).1 == rest.1
  {
  }

  /** `v14_decode`: how many data bits, and the state to carry. It clears the octet after each full one,
      so the buffer must have one to spare. */
  method DecodeFrame(input: seq<byte>, out: array<byte>, inLen: nat, start: int) returns (num: nat, state: int)
    requires EncoderState(start) && inLen <= 8 * |input|
    requires |Decode(LineBits(input)[..inLen], start).0| / 8 < out.Length
    modifies out
    ensures var d := Decode(LineBits(input)[..inLen], start);
            && num == |d.0| && state == d.1
            && out[..|PackData(d.0)|] == PackData(d.0)
  {
    hide Got, PackData, Decode, Bit;
    ghost var bits := LineBits(input)[..inLen];
    ghost var goal := Decode(bits, start);
    ghost var got: Bits := [];
    state := start;
    num := 0;
    out[0] := 0;
    NothingGot(out[..]);
    var obit := 1;
    var i := 0;
    assert bits[0..] == bits;
    while i < inLen
      invariant 0 <= i <= inLen && EncoderState(state) && num == |got|
      invariant got + Decode(bits[i..], state).0 == goal.0 && Decode(bits[i..], state).1 == goal.1
      invariant Got(out[..], got) && obit == Pow2(num % 8)
    {
      DecodeStep(bits[i..], state, got);
      assert bits[i..][1..] == bits[i + 1..];
      var tbit := Bit(input[i / 8], 7 - i % 8);
      if state < 0 {
        if !tbit { state := 1; }
      } else {
        assert |got + [tbit]| <= |goal.0|;
        obit := TakeBit(out, num, tbit, obit, got);
        got := got + [tbit];
        num := num + 1;
        state := if state == DATA_BITS_NUM then -1 else state + 1;
      }
      i := i + 1;
    }
    assert bits[i..] == [];
    DecodeNothing(state);
    assert got + [] == got;
    GotIsPacked(out[..], got);
  }

  lemma NothingGot(now: seq<byte>)
    requires |now| > 0 && now[0] == 0
    ensures Got(now, [])
  {
    ZeroSlot([], 0);
  }
}
