/** V.14 start/stop framing (src/v14/v14.c; ITU-T V.14): the bit machines of the encoder and the
    decoder, with the state they carry from call to call, and the packing of bits into octets. */
module V14 {
  import opened Binary
  import opened Common

  const DATA_BITS_NUM := 8

  type Bits = seq<bool>

  // ------------------------------------------------------------------ the encoder

  /** `if (state++==DATA_BITS_NUM) state=-1`. */
  function Advance(state: int): int {
    if state == DATA_BITS_NUM then -1 else state + 1
  }

  predicate EncoderState(state: int) {
    -1 <= state <= 8
  }

  /** What is emitted until the data is used up: a stop bit in state -1, a start bit in state 0, a data
      bit in states 1 to 8. */
  function Encode(data: Bits, state: int): (r: (Bits, int))
    requires EncoderState(state)
    ensures EncoderState(r.1)
    decreases |data|, if state > 0 then 0 else 1 - state
  {
    if data == [] then ([], state)
    else if state > 0 then
      var rest := Encode(data[1..], Advance(state));
      ([data[0]] + rest.0, rest.1)
    else
      var rest := Encode(data, Advance(state));
      ([state < 0] + rest.0, rest.1)
  }

  // ------------------------------------------------------------------ the decoder

  /** State -1 hunts for a start bit; otherwise every bit is data. */
  function Decode(bits: Bits, state: int): (r: (Bits, int))
    requires EncoderState(state)
    ensures EncoderState(r.1)
    decreases |bits|
  {
    if bits == [] then ([], state)
    else if state < 0 then Decode(bits[1..], if bits[0] then state else 1)
    else
      var rest := Decode(bits[1..], Advance(state));
      ([bits[0]] + rest.0, rest.1)
  }

  function Ones(n: nat): (r: Bits)
    ensures |r| == n && forall i :: 0 <= i < n ==> r[i]
  {
    seq(n, _ => true)
  }

  // ------------------------------------------------------------------ splitting

  /** Decoding may be split at any bit, the state carried across. */
  lemma {:induction false} DecodeSplits(a: Bits, b: Bits, state: int)
    requires EncoderState(state)
    ensures Decode(a + b, state).0 == Decode(a, state).0 + Decode(b, Decode(a, state).1).0
    ensures Decode(a + b, state).1 == Decode(b, Decode(a, state).1).1
    decreases |a|
  {
    if a == [] {
      assert a + b == b;
    } else {
      assert (a + b)[1..] == a[1..] + b;
      if state < 0 {
        DecodeSplits(a[1..], b, if a[0] then state else 1);
      } else {
        DecodeSplits(a[1..], b, Advance(state));
      }
    }
  }

  lemma EncodeNothing(b: Bits, state: int)
    requires EncoderState(state)
    ensures Encode([], state) == ([], state)
    ensures Encode([] + b, state) == Encode(b, state) && [] + Encode(b, state).0 == Encode(b, state).0
  {
    assert [] + b == b;
  }

  lemma EncodeStep(data: Bits, state: int)
    requires data != [] && EncoderState(state)
    ensures var rest := Encode(if state > 0 then data[1..] else data, Advance(state));
            Encode(data, state) == ([if state > 0 then data[0] else state < 0] + rest.0, rest.1)
  {
  }

  /** Encoding in two calls emits what one call would. */
  lemma {:induction false} EncodeSplits(a: Bits, b: Bits, state: int)
    requires EncoderState(state)
    ensures Encode(a + b, state).0 == Encode(a, state).0 + Encode(b, Encode(a, state).1).0
    ensures Encode(a + b, state).1 == Encode(b, Encode(a, state).1).1
    decreases |a|, if state > 0 then 0 else 1 - state
  {
    hide Encode;
    if a == [] {
      EncodeNothing(b, state);
    } else {
      EncodeStep(a + b, state);
      EncodeStep(a, state);
      if state > 0 {
        assert (a + b)[1..] == a[1..] + b && (a + b)[0] == a[0];
        EncodeSplits(a[1..], b, Advance(state));
      } else {
        EncodeSplits(a, b, Advance(state));
      }
    }
  }

  lemma {:induction false} DecodeOnes(n: nat)
    ensures Decode(Ones(n), -1) == ([], -1)
    decreases n
  {
    if n > 0 {
      assert Ones(n)[1..] == Ones(n - 1);
      DecodeOnes(n - 1);
    }
  }

  // ------------------------------------------------------------------ one octet, then all of them

  /** The rest of an octet, from data bit `state` on. */
  lemma {:induction false} DataBits(data: Bits, state: int)
    requires 1 <= state <= 8 && |data| == 9 - state
    ensures Encode(data, state) == (data, -1)
    ensures Decode(data, state) == (data, -1)
    decreases |data|
  {
    if state < 8 {
      DataBits(data[1..], state + 1);
    } else {
      assert data[1..] == [];
    }
    assert [data[0]] + data[1..] == data;
  }

  lemma Octet(data: Bits, state: int)
    requires |data| == 8 && -1 <= state <= 0
    ensures Encode(data, state) == ((if state < 0 then [true, false] else [false]) + data, -1)
    ensures Decode(Encode(data, state).0, -1) == (data, -1)
  {
    DataBits(data, 1);
    assert Encode(data, 0) == ([false] + data, -1);
    var s := [false] + data;
    assert s[1..] == data;
    assert Decode(s, -1) == (data, -1);
    if state < 0 {
      var t := [true] + s;
      assert t[1..] == s && [true, false] + data == t;
      assert Encode(data, -1) == (t, -1);
      assert Decode(t, -1) == Decode(s, -1);
    }
  }

  /** Whole octets from the start of a character: what is emitted decodes to the data, hunting again. */
  lemma {:induction false} WholeOctets(data: Bits, state: int)
    requires |data| % 8 == 0 && -1 <= state <= 0
    ensures Decode(Encode(data, state).0, -1) == (data, -1)
    ensures Encode(data, state).1 == if data == [] then state else -1
    decreases |data|
  {
    if data != [] {
      var a, b := data[..8], data[8..];
      assert data == a + b;
      Octet(a, state);
      EncodeSplits(a, b, state);
      WholeOctets(b, -1);
      DecodeSplits(Encode(a, state).0, Encode(b, -1).0, -1);
    }
  }

  /** The framing round trip: any whole number of octets, either encoder state, any padding. */
  lemma FramingRoundTrip(data: Bits, state: int, padding: nat)
    requires |data| % 8 == 0 && -1 <= state <= 0
    ensures Decode(Encode(data, state).0 + Ones(padding), -1) == (data, -1)
  {
    WholeOctets(data, state);
    DecodeSplits(Encode(data, state).0, Ones(padding), -1);
    DecodeOnes(padding);
    assert data + [] == data;
  }

  /** A chain of encoder calls, each with its own padding, the state carried. */
  datatype Frame = Frame(data: Bits, padding: nat)

  function EncodeChain(frames: seq<Frame>, state: int): Bits
    requires EncoderState(state)
    decreases |frames|
  {
    if frames == [] then []
    else
      var e := Encode(frames[0].data, state);
      e.0 + Ones(frames[0].padding) + EncodeChain(frames[1..], e.1)
  }

  function DataOf(frames: seq<Frame>): Bits {
    if frames == [] then [] else frames[0].data + DataOf(frames[1..])
  }

  /** Chained calls concatenate. */
  lemma {:induction false} ChainRoundTrip(frames: seq<Frame>, state: int)
    requires -1 <= state <= 0 && forall i :: 0 <= i < |frames| ==> |frames[i].data| % 8 == 0
    ensures Decode(EncodeChain(frames, state), -1) == (DataOf(frames), -1)
    decreases |frames|
  {
    if frames != [] {
      var e := Encode(frames[0].data, state);
      WholeOctets(frames[0].data, state);
      FramingRoundTrip(frames[0].data, state, frames[0].padding);
      ChainRoundTrip(frames[1..], e.1);
      DecodeSplits(e.0 + Ones(frames[0].padding), EncodeChain(frames[1..], e.1), -1);
    }
  }

  /** A decoder that starts at 0, as its comment asks, takes the first start bit for data and the rest as
      it should. */
  lemma FromZero(data: Bits, padding: nat)
    requires |data| % 8 == 0 && data != []
    ensures Decode(Encode(data, 0).0 + Ones(padding), 0) == ([false] + data, -1)
  {
    hide Encode, Decode, Ones;
    var a, b := data[..8], data[8..];
    assert data == a + b;
    FirstFromZero(a);
    EncodeSplits(a, b, 0);
    var first, rest := [false] + a, Encode(b, -1).0;
    FramingRoundTrip(b, -1, padding);
    DecodeSplits(first, rest + Ones(padding), 0);
    assert first + rest + Ones(padding) == first + (rest + Ones(padding));
    assert first + b == [false] + data;
  }

  lemma FirstFromZero(data: Bits)
    requires |data| == 8
    ensures Encode(data, 0) == ([false] + data, -1) && Decode([false] + data, 0) == ([false] + data, -1)
  {
    Octet(data, 0);
    DataBits(data, 1);
    assert ([false] + data)[1..] == data;
  }

  /** Of the starts -1 and 0, the decoder gives back the data if and only if it starts hunting, for every
      whole number of octets and any padding; from 0 a zero bit comes out in front. */
  lemma DecoderInvertsIffHunting(data: Bits, padding: nat, start: int)
    requires |data| % 8 == 0 && data != [] && -1 <= start <= 0
    ensures Decode(Encode(data, 0).0 + Ones(padding), start).0 == data <==> start == -1
    ensures Decode(Encode(data, 0).0 + Ones(padding), start) == (if start == -1 then data else [false] + data, -1)
  {
    hide Encode, Decode, Ones;
    FramingRoundTrip(data, 0, padding);
    FromZero(data, padding);
    assert |[false] + data| == |data| + 1;
  }

  // ------------------------------------------------------------------ bits and octets

  /** The number with these bits, least significant first. */
  function Value(b: Bits): (r: nat)
    ensures r < Pow2(|b|)
  {
    if b == [] then 0 else (if b[0] then 1 else 0) + 2 * Value(b[1..])
  }

  lemma Pow2Of8()
    ensures Pow2(8) == 256
  {
    assert Pow2(2) == 4;
    assert Pow2(4) == 4 * Pow2(2);
    assert Pow2(6) == 4 * Pow2(4);
    assert Pow2(8) == 4 * Pow2(6);
  }

  function Octet8(b: Bits): (r: byte)
    requires |b| == 8
  {
    Pow2Of8();
    Value(b)
  }

  function Reversed8(b: Bits): (r: Bits)
    requires |b| == 8
    ensures |r| == 8 && forall j :: 0 <= j < 8 ==> r[j] == b[7 - j]
  {
    seq(8, j requires 0 <= j < 8 => b[7 - j])
  }

  lemma {:induction false} BitOfValue(b: Bits, j: nat)
    requires j < |b|
    ensures Bit(Value(b), j) == b[j]
    decreases |b|
  {
    assert Value(b) / 2 == Value(b[1..]);
    if j > 0 {
      BitOfValue(b[1..], j - 1);
    }
  }

  lemma {:induction false} ValueOfBits(x: nat, b: Bits)
    requires x < Pow2(|b|) && forall j :: 0 <= j < |b| ==> b[j] == Bit(x, j)
    ensures Value(b) == x
    decreases |b|
  {
    if b != [] {
      forall j | 0 <= j < |b[1..]| ensures b[1..][j] == Bit(x / 2, j) {
        assert b[1..][j] == b[j + 1] == Bit(x, j + 1);
      }
      ValueOfBits(x / 2, b[1..]);
      assert b[0] == Bit(x, 0);
    }
  }

  /** The bits of a data buffer, in the order the encoder takes them. */
  function BitsOf(s: seq<byte>): (r: Bits)
    ensures |r| == 8 * |s|
    ensures forall i :: 0 <= i < |r| ==> r[i] == Bit(s[i / 8], i % 8)
  {
    seq(8 * |s|, i requires 0 <= i < 8 * |s| => Bit(s[i / 8], i % 8))
  }

  /** The bits of a framed buffer, most significant first, as the decoder takes them. */
  function LineBits(s: seq<byte>): (r: Bits)
    ensures |r| == 8 * |s|
    ensures forall i :: 0 <= i < |r| ==> r[i] == Bit(s[i / 8], 7 - i % 8)
  {
    seq(8 * |s|, i requires 0 <= i < 8 * |s| => Bit(s[i / 8], 7 - i % 8))
  }

  /** Octet `k` of a bit stream, filled up with zeroes. */
  function Slot(bits: Bits, k: nat): (r: Bits)
    ensures |r| == 8
  {
    seq(8, j requires 0 <= j < 8 => 8 * k + j < |bits| && bits[8 * k + j])
  }

  /** Data bits packed least significant first. */
  function PackData(bits: Bits): (r: seq<byte>)
    ensures |r| == (|bits| + 7) / 8
  {
    seq((|bits| + 7) / 8, k requires 0 <= k < (|bits| + 7) / 8 => Octet8(Slot(bits, k)))
  }

  /** Line bits packed most significant first. */
  function PackLine(bits: Bits): (r: seq<byte>)
    ensures |r| == (|bits| + 7) / 8
  {
    seq((|bits| + 7) / 8, k requires 0 <= k < (|bits| + 7) / 8 => Octet8(Reversed8(Slot(bits, k))))
  }

  lemma LineBitsOfPack(bits: Bits)
    ensures |bits| <= |LineBits(PackLine(bits))| && LineBits(PackLine(bits))[..|bits|] == bits
  {
    hide Value;
    var r := LineBits(PackLine(bits));
    forall i | 0 <= i < |bits| ensures r[i] == bits[i] {
      var k, j := i / 8, i % 8;
      BitOfValue(Reversed8(Slot(bits, k)), 7 - j);
      assert 8 * k + j == i;
    }
  }

  lemma PackOfBits(s: seq<byte>)
    ensures PackData(BitsOf(s)) == s
  {
    hide Value, Bit;
    var bits := BitsOf(s);
    var r := PackData(bits);
    forall k | 0 <= k < |s| ensures r[k] == s[k] {
      var slot := Slot(bits, k);
      forall j | 0 <= j < 8 ensures slot[j] == Bit(s[k], j) {
        assert (8 * k + j) / 8 == k && (8 * k + j) % 8 == j;
        assert bits[8 * k + j] == Bit(s[k], j);
      }
      Pow2Of8();
      ValueOfBits(s[k], slot);
    }
  }

  function Padded(data: Bits, outLen: nat, state: int): Bits
    requires EncoderState(state)
  {
    var e := Encode(data, state).0;
    e + Ones(if outLen > |e| then outLen - |e| else 0)
  }

  /** The octets the encoder leaves: its bits, ones up to `outLen` bits, zeroes to fill the last octet. */
  function EncodeOctets(input: seq<byte>, outLen: nat, state: int): seq<byte>
    requires EncoderState(state)
  {
    PackLine(Padded(BitsOf(input), outLen, state))
  }

  lemma PaddedRoundTrip(data: Bits, outLen: nat, state: int)
    requires |data| % 8 == 0 && -1 <= state <= 0
    ensures Decode(Padded(data, outLen, state), -1) == (data, -1)
  {
    var e := Encode(data, state).0;
    FramingRoundTrip(data, state, if outLen > |e| then outLen - |e| else 0);
  }

  /** Decoding the octets of an encoder call, exactly the bits emitted, gives the input octets back. */
  lemma OctetRoundTrip(input: seq<byte>, outLen: nat, state: int)
    requires -1 <= state <= 0
    ensures var bits := Padded(BitsOf(input), outLen, state);
            var line := LineBits(EncodeOctets(input, outLen, state));
            && |bits| <= |line|
            && Decode(line[..|bits|], -1).1 == -1
            && PackData(Decode(line[..|bits|], -1).0) == input
  {
    hide Decode, Encode, Padded, PackData, PackLine, LineBits, Bit;
    LineBitsOfPack(Padded(BitsOf(input), outLen, state));
    PaddedRoundTrip(BitsOf(input), outLen, state);
    PackOfBits(input);
  }
}
