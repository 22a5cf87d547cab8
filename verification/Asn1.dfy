/** BER primitives of libpri/asn1_primitive.c, as functions on an octet buffer and a position.

    A decoder is given the buffer, a position and the end of the data; it yields the value and the
    next position, or None where the C code returns NULL. Octet tests by bit mask are written as
    the same arithmetic on 0..255. */
module Asn1 {
  import opened Common

  const INDEF_TERM := 0
  const INDEF_TERM_LEN := 2
  const TYPE_EXTENSION := 31

  // ------------------------------------------------------------------ tags

  /** The do-while loop of `asn1_dec_tag`: seven bits an octet into a 32-bit unsigned value. */
  function ExtendedTag(buf: seq<byte>, pos: nat, end: nat, acc: nat): (r: Option<(nat, nat)>)
    requires end <= |buf|
    ensures r.Some? ==> pos < r.value.1 <= end
    decreases end - pos
  {
    if end <= pos then None
    else
      var v := (acc * 128 + buf[pos] % 128) % 0x1_0000_0000;
      if buf[pos] >= 128 then ExtendedTag(buf, pos + 1, end, v) else Some((v, pos + 1))
  }

  /** `asn1_dec_tag`. */
  function DecTag(buf: seq<byte>, pos: nat, end: nat): (r: Option<(nat, nat)>)
    requires end <= |buf|
    ensures r.Some? ==> pos < r.value.1 <= end && r.value.0 < 256
  {
    if end <= pos then None
    else
      var tag := buf[pos];
      if tag % 32 != TYPE_EXTENSION then Some((tag, pos + 1))
      else
        match ExtendedTag(buf, pos + 1, end, 0)
        case None => None
        case Some(x) =>
          if 0 < x.0 < TYPE_EXTENSION then Some((tag - TYPE_EXTENSION + x.0, x.1)) else Some((tag, x.1))
  }

  predicate IsConstructed(tag: int) {
    tag / 32 % 2 == 1
  }

  // ------------------------------------------------------------------ lengths

  /** The octets of a long length, most significant first, as a C `int`. */
  function Accumulate(s: seq<byte>): int
  {
    if s == [] then 0 else ToInt32(Accumulate(s[..|s| - 1]) * 256 + s[|s| - 1])
  }

  /** `asn1_dec_length`; a negative length means indefinite. */
  function DecLength(buf: seq<byte>, pos: nat, end: nat): (r: Option<(int, nat)>)
    requires end <= |buf|
    ensures r.Some? ==> pos < r.value.1 <= end
    ensures r.Some? && r.value.0 >= 0 ==> r.value.1 + r.value.0 <= end
  {
    if end <= pos then None
    else if buf[pos] < 0x80 then
      if end < pos + 1 + buf[pos] then None else Some((buf[pos], pos + 1))
    else if buf[pos] == 0x80 then
      if end < pos + 1 + INDEF_TERM_LEN then None else Some((-1, pos + 1))
    else
      var size := buf[pos] - 0x80;
      if size == 0x7f || end < pos + 1 + size then None
      else
        var length := Accumulate(buf[pos + 1..pos + 1 + size]);
        if end < pos + 1 + size + length then None else Some((length, pos + 1 + size))
  }

  /** `n` shifted right by `k` octets. */
  function Shr8(n: nat, k: nat): (r: nat)
    ensures r <= n
    decreases k
  {
    if k == 0 then n else Shr8(n / 256, k - 1)
  }

  /** The low `k` octets of `n`, most significant first. */
  function Octets(n: nat, k: nat): (s: seq<byte>)
    ensures |s| == k
    decreases k
  {
    if k == 0 then [] else Octets(n / 256, k - 1) + [n % 256]
  }

  /** How many octets `asn1_enc_length` spends on a body of `n` octets. */
  function LengthSize(n: nat): (r: nat)
    ensures 1 <= r <= 5
  {
    if n < 128 then 1
    else if n >= 0x100_0000 then 5
    else if n >= 0x1_0000 then 4
    else if n >= 0x100 then 3
    else 2
  }

  /** What `asn1_enc_length` writes for a body of `n` octets (below 2^32, as its `u_int32_t` holds). */
  function EncLength(n: nat): (s: seq<byte>)
    ensures |s| == LengthSize(n)
  {
    if n < 128 then [n] else [0x80 + (LengthSize(n) - 1)] + Octets(n, LengthSize(n) - 1)
  }

  // ------------------------------------------------------------------ integers

  /** The loop of `asn1_dec_int`: octets shifted into a C `int` that starts at `start`. */
  function ShiftIn(start: int, s: seq<byte>): int
  {
    if s == [] then start else ToInt32(ShiftIn(start, s[..|s| - 1]) * 256 + s[|s| - 1])
  }

  function IntValue(s: seq<byte>): int
    requires s != []
  {
    ShiftIn(if s[0] >= 0x80 then -1 else 0, s)
  }

  /** `asn1_dec_int`. */
  function DecInt(buf: seq<byte>, pos: nat, end: nat): (r: Option<(int, nat)>)
    requires end <= |buf|
    ensures r.Some? ==> pos < r.value.1 <= end
  {
    match DecLength(buf, pos, end)
    case None => None
    case Some(l) =>
      if l.0 <= 0 then None else Some((IntValue(buf[l.1..l.1 + l.0]), l.1 + l.0))
  }

  /** The nine bits of the 32-bit pattern of `v` from bit `8 * count - 1` up are neither all ones
      nor all zeroes. */
  predicate NineBitsMixed(v: int, count: nat)
    requires 1 <= count <= 3
  {
    var u := v % 0x1_0000_0000;
    var bits := (if count == 3 then u / 0x80_0000 else if count == 2 then u / 0x8000 else u / 0x80) % 512;
    bits != 511 && bits != 0
  }

  /** Octets `asn1_enc_int` uses: the mask search counts down from 4. */
  function IntSize(v: int): (r: nat)
    ensures 1 <= r <= 4
  {
    if NineBitsMixed(v, 3) then 4
    else if NineBitsMixed(v, 2) then 3
    else if NineBitsMixed(v, 1) then 2
    else 1
  }

  /** The contents octets `asn1_enc_int` writes. */
  function EncIntBody(v: int): (s: seq<byte>)
    ensures |s| == IntSize(v)
  {
    Octets(v % 0x1_0000_0000, IntSize(v))
  }

  // ------------------------------------------------------------------ object identifiers

  /** `n` shifted right by `k` groups of seven bits. */
  function Shr7(n: nat, k: nat): (r: nat)
    ensures r <= n
    decreases k
  {
    if k == 0 then n else Shr7(n / 128, k - 1)
  }

  /** The chunk count loop of `asn1_enc_oid`. */
  function Chunks(n: nat): (r: nat)
    decreases n
  {
    if n == 0 then 0 else 1 + Chunks(n / 128)
  }

  /** One subidentifier: base 128, every octet but the last marked. */
  function EncSubId(v: nat): (s: seq<byte>)
    ensures |s| == Chunks(v / 128) + 1
  {
    Marked(v / 128) + [v % 128]
  }

  function Marked(v: nat): (s: seq<byte>)
    ensures |s| == Chunks(v)
    decreases v
  {
    if v == 0 then [] else Marked(v / 128) + [0x80 + v % 128]
  }

  type Oid = s: seq<int> | forall i :: 0 <= i < |s| ==> 0 <= s[i] < 0x1_0000

  const OID_MAX := 10

  function EncOidBody(oid: Oid): (s: seq<byte>)
    decreases |oid|
  {
    if oid == [] then [] else
      var rest: Oid := oid[1..];
      EncSubId(oid[0]) + EncOidBody(rest)
  }

  /** The loops of `asn1_dec_oid` over the contents octets: `acc` is the subidentifier being read
      (a 32-bit unsigned value), stored as 16 bits. None if the last one is not terminated. */
  function DecOidBody(s: seq<byte>, acc: nat, inside: bool): (r: Option<seq<int>>)
    decreases |s|
  {
    if s == [] then (if inside then None else Some([]))
    else
      var v := (acc * 128 + s[0] % 128) % 0x1_0000_0000;
      if s[0] >= 0x80 then DecOidBody(s[1..], v, true)
      else
        match DecOidBody(s[1..], 0, false)
        case None => None
        case Some(rest) => Some([v % 0x1_0000] + rest)
  }

  /** `asn1_dec_oid`. */
  function DecOid(buf: seq<byte>, pos: nat, end: nat): (r: Option<(seq<int>, nat)>)
    requires end <= |buf|
    ensures r.Some? ==> pos < r.value.1 <= end && |r.value.0| <= OID_MAX
  {
    match DecLength(buf, pos, end)
    case None => None
    case Some(l) =>
      if l.0 < 0 then None
      else
        match DecOidBody(buf[l.1..l.1 + l.0], 0, false)
        case None => None
        case Some(oid) => if |oid| <= OID_MAX then Some((oid, l.1 + l.0)) else None
  }

  // ------------------------------------------------------------------ other primitives

  /** `asn1_dec_boolean`. */
  function DecBoolean(buf: seq<byte>, pos: nat, end: nat): (r: Option<(bool, nat)>)
    requires end <= |buf|
    ensures r.Some? ==> pos < r.value.1 <= end
  {
    match DecLength(buf, pos, end)
    case None => None
    case Some(l) => if l.0 != 1 then None else Some((buf[l.1] != 0, l.1 + 1))
  }

  /** `asn1_dec_null`. */
  function DecNull(buf: seq<byte>, pos: nat, end: nat): (r: Option<nat>)
    requires end <= |buf|
    ensures r.Some? ==> pos < r.value <= end
  {
    match DecLength(buf, pos, end)
    case None => None
    case Some(l) => if l.0 != 0 then None else Some(l.1)
  }
}
