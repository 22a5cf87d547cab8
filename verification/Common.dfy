/** Types shared by the octet codecs. */
module Common {
  /** None is the NULL of the C code; `:-` passes it on as ASN1_CALL does. */
  datatype Option<+T> = None | Some(value: T) {
    predicate IsFailure() {
      None?
    }

    function PropagateFailure<U>(): Option<U>
      requires None?
    {
      None
    }

    function Extract(): T
      requires Some?
    {
      value
    }
  }

  type byte = x: int | 0 <= x < 256

  /** The C value range of a signed 32-bit integer, two's complement. */
  function ToInt32(v: int): (r: int)
    ensures -0x8000_0000 <= r < 0x8000_0000
    ensures -0x8000_0000 <= v < 0x8000_0000 ==> r == v
  {
    (v + 0x8000_0000) % 0x1_0000_0000 - 0x8000_0000
  }

  /** `buf` holds `s` at position `pos`. */
  predicate At(buf: seq<byte>, pos: int, s: seq<byte>) {
    0 <= pos && pos + |s| <= |buf| && buf[pos..pos + |s|] == s
  }

  lemma AtParts(buf: seq<byte>, pos: int, a: seq<byte>, b: seq<byte>)
    ensures At(buf, pos, a + b) <==> At(buf, pos, a) && At(buf, pos + |a|, b)
  {
    if At(buf, pos, a + b) {
      var s := buf[pos..pos + |a + b|];
      assert s[..|a|] == a && s[|a|..] == b;
      assert buf[pos..pos + |a|] == s[..|a|];
      assert buf[pos + |a|..pos + |a| + |b|] == s[|a|..];
    }
    if At(buf, pos, a) && At(buf, pos + |a|, b) {
      assert buf[pos..pos + |a + b|] == buf[pos..pos + |a|] + buf[pos + |a|..pos + |a| + |b|];
    }
  }

  lemma AtIndex(buf: seq<byte>, pos: int, s: seq<byte>, i: int)
    requires At(buf, pos, s) && 0 <= i < |s|
    ensures buf[pos + i] == s[i]
  {
    assert buf[pos..pos + |s|][i] == buf[pos + i];
  }
}
