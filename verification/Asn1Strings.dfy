/** String primitives (`asn1_dec_string_bin`, `asn1_dec_string_max`): definite, zero-terminated and
    segmented to any depth. Both decoders clip one unbounded reading of the octets, and that
    reading succeeds exactly on the well-formed string components. */
module Asn1Strings {
  import opened Common
  import opened Asn1
  import opened Asn1Skip

  // ------------------------------------------------------------------ the decoders

  /** How a run of octets is stored in a buffer of `size`: cut by `asn1_dec_string_max`, refused by
      `asn1_dec_string_bin`. One octet is kept for the terminating null. */
  function Fit(s: seq<byte>, size: nat, truncate: bool): (r: Option<seq<byte>>)
    requires size > 0
    ensures r.Some? ==> |r.value| < size && r.value <= s
  {
    if |s| < size then Some(s) else if truncate then Some(s[..size - 1]) else None
  }

  /** The second octet of the end-of-contents must be there, and zero. */
  function Close(buf: seq<byte>, pos: nat, end: nat): (r: Option<nat>)
    requires end <= |buf|
    ensures r.Some? ==> pos < r.value <= end
  {
    if pos < end && buf[pos] == 0 then Some(pos + 1) else None
  }

  /** `asn1_dec_string_max` if `truncate`, else `asn1_dec_string_bin`. */
  function DecString(buf: seq<byte>, pos: nat, end: nat, tag: nat, size: nat, truncate: bool)
    : (r: Option<(seq<byte>, nat)>)
    requires size > 0 && end <= |buf|
    ensures r.Some? ==> |r.value.0| < size && pos < r.value.1 <= end
    decreases end - pos, 0
  {
    match DecLength(buf, pos, end)
    case None => None
    case Some(l) =>
      if l.0 >= 0 then
        match Fit(buf[l.1..l.1 + l.0], size, truncate)
        case None => None
        case Some(s) => Some((s, l.1 + l.0))
      else if IsConstructed(tag) then
        match DecSegments(buf, l.1, end, size, truncate)
        case None => None
        case Some(x) =>
          match Close(buf, x.1, end)
          case None => None
          case Some(q) => Some((x.0, q))
      else
        var z := FindZero(buf, l.1, end);
        if end <= z then None
        else
          match Fit(buf[l.1..z], size, truncate)
          case None => None
          case Some(s) =>
            match Close(buf, z + 1, end)
            case None => None
            case Some(q) => Some((s, q))
  }

  /** The loop over substrings, each stored behind the ones before it. */
  function DecSegments(buf: seq<byte>, pos: nat, end: nat, size: nat, truncate: bool): (r: Option<(seq<byte>, nat)>)
    requires size > 0 && end <= |buf|
    ensures r.Some? ==> |r.value.0| < size && pos < r.value.1 <= end
    decreases end - pos, 1
  {
    match DecTag(buf, pos, end)
    case None => None
    case Some(t) =>
      if t.0 == INDEF_TERM then Some(([], t.1))
      else
        match DecString(buf, t.1, end, t.0, size, truncate)
        case None => None
        case Some(x) =>
          match DecSegments(buf, x.1, end, size - |x.0|, truncate)
          case None => None
          case Some(y) => Some((x.0 + y.0, y.1))
  }

  // ------------------------------------------------------------------ one unbounded reading

  /** The whole string and where it ends, with no buffer to fit it into. */
  function Read(buf: seq<byte>, pos: nat, end: nat, tag: nat): (r: Option<(seq<byte>, nat)>)
    requires end <= |buf|
    ensures r.Some? ==> pos < r.value.1 <= end
    decreases end - pos, 0
  {
    match DecLength(buf, pos, end)
    case None => None
    case Some(l) =>
      if l.0 >= 0 then Some((buf[l.1..l.1 + l.0], l.1 + l.0))
      else if IsConstructed(tag) then
        match ReadSegments(buf, l.1, end)
        case None => None
        case Some(x) =>
          match Close(buf, x.1, end)
          case None => None
          case Some(q) => Some((x.0, q))
      else
        var z := FindZero(buf, l.1, end);
        if end <= z then None
        else
          match Close(buf, z + 1, end)
          case None => None
          case Some(q) => Some((buf[l.1..z], q))
  }

  function ReadSegments(buf: seq<byte>, pos: nat, end: nat): (r: Option<(seq<byte>, nat)>)
    requires end <= |buf|
    ensures r.Some? ==> pos < r.value.1 <= end
    decreases end - pos, 1
  {
    match DecTag(buf, pos, end)
    case None => None
    case Some(t) =>
      if t.0 == INDEF_TERM then Some(([], t.1))
      else
        match Read(buf, t.1, end, t.0)
        case None => None
        case Some(x) =>
          match ReadSegments(buf, x.1, end)
          case None => None
          case Some(y) => Some((x.0 + y.0, y.1))
  }

  /** A reading as a buffer of `size` keeps it. */
  function Clip(x: Option<(seq<byte>, nat)>, size: nat, truncate: bool): Option<(seq<byte>, nat)>
    requires size > 0
  {
    match x
    case None => None
    case Some(v) =>
      match Fit(v.0, size, truncate)
      case None => None
      case Some(s) => Some((s, v.1))
  }

  /** Storing piece by piece keeps what storing the whole would. */
  lemma FitParts(a: seq<byte>, b: seq<byte>, size: nat, truncate: bool)
    requires size > 0
    ensures Fit(a + b, size, truncate) ==
            match Fit(a, size, truncate)
            case None => None
            case Some(x) =>
              match Fit(b, size - |x|, truncate)
              case None => None
              case Some(y) => Some(x + y)
  {
    if |a| < size && size <= |a| + |b| {
      assert (a + b)[..size - 1] == a + b[..size - 1 - |a|];
    } else if size <= |a| {
      assert (a + b)[..size - 1] == a[..size - 1];
      assert a[..size - 1] + [] == a[..size - 1];
      assert truncate ==> Fit(b, 1, true) == Some([]);
    }
  }

  /** On every input, `asn1_dec_string_bin` yields the whole string when it fits and fails
      otherwise, and `asn1_dec_string_max` yields its first `size` - 1 octets. */
  lemma {:induction false} StringIsClipped(buf: seq<byte>, pos: nat, end: nat, tag: nat, size: nat, truncate: bool)
    requires size > 0 && end <= |buf|
    ensures DecString(buf, pos, end, tag, size, truncate) == Clip(Read(buf, pos, end, tag), size, truncate)
    decreases end - pos, 0
  {
    var l := DecLength(buf, pos, end);
    if l.Some? && l.value.0 < 0 && IsConstructed(tag) {
      SegmentsAreClipped(buf, l.value.1, end, size, truncate);
    }
  }

  lemma FitNothing(size: nat, truncate: bool)
    requires size > 0
    ensures Fit([], size, truncate) == Some([])
  {
  }

  lemma SegmentIsClipped(buf: seq<byte>, pos: nat, end: nat, size: nat, truncate: bool, t: (nat, nat),
      x: (seq<byte>, nat), first: seq<byte>)
    requires size > 0 && end <= |buf| && DecTag(buf, pos, end) == Some(t) && t.0 != INDEF_TERM
    requires Read(buf, t.1, end, t.0) == Some(x) && Fit(x.0, size, truncate) == Some(first)
    requires DecString(buf, t.1, end, t.0, size, truncate) == Some((first, x.1))
    requires DecSegments(buf, x.1, end, size - |first|, truncate)
             == Clip(ReadSegments(buf, x.1, end), size - |first|, truncate)
    ensures DecSegments(buf, pos, end, size, truncate) == Clip(ReadSegments(buf, pos, end), size, truncate)
  {
    hide DecTag, Fit, Read, DecString;
    var y := ReadSegments(buf, x.1, end);
    if y.Some? {
      FitParts(x.0, y.value.0, size, truncate);
    }
  }

  lemma SegmentIsRefused(buf: seq<byte>, pos: nat, end: nat, size: nat, truncate: bool, t: (nat, nat),
      x: (seq<byte>, nat))
    requires size > 0 && end <= |buf| && DecTag(buf, pos, end) == Some(t) && t.0 != INDEF_TERM
    requires Read(buf, t.1, end, t.0) == Some(x) && Fit(x.0, size, truncate) == None
    requires DecString(buf, t.1, end, t.0, size, truncate) == None
    ensures DecSegments(buf, pos, end, size, truncate) == Clip(ReadSegments(buf, pos, end), size, truncate)
  {
    hide DecTag, Fit, Read, DecString;
    var y := ReadSegments(buf, x.1, end);
    if y.Some? {
      FitParts(x.0, y.value.0, size, truncate);
    }
  }

  lemma {:induction false} SegmentsAreClipped(buf: seq<byte>, pos: nat, end: nat, size: nat, truncate: bool)
    requires size > 0 && end <= |buf|
    ensures DecSegments(buf, pos, end, size, truncate) == Clip(ReadSegments(buf, pos, end), size, truncate)
    decreases end - pos, 1
  {
    hide DecTag, Read, DecString, Fit;
    FitNothing(size, truncate);
    var tag := DecTag(buf, pos, end);
    if tag.Some? && tag.value.0 != INDEF_TERM {
      var t := tag.value;
      StringIsClipped(buf, t.1, end, t.0, size, truncate);
      var read := Read(buf, t.1, end, t.0);
      if read.Some? {
        var x := read.value;
        match Fit(x.0, size, truncate)
        case None =>
          SegmentIsRefused(buf, pos, end, size, truncate, t, x);
        case Some(first) =>
          SegmentsAreClipped(buf, x.1, end, size - |first|, truncate);
          SegmentIsClipped(buf, pos, end, size, truncate, t, x, first);
      }
    }
  }

  // ------------------------------------------------------------------ what is being read

  /** A string component. The contents of a definite one are taken as they are. */
  datatype Str =
    | Plain(tag: seq<byte>, len: seq<byte>, body: seq<byte>)
    | Terminated(tag: seq<byte>, len: seq<byte>, body: seq<byte>)
    | Segmented(tag: seq<byte>, len: seq<byte>, parts: seq<Str>)

  /** Everything after the tag octets. */
  function AfterTag(n: Str): seq<byte>
    decreases n, 0
  {
    match n
    case Plain(_, len, body) => len + body
    case Terminated(_, len, body) => len + (body + [0, 0])
    case Segmented(_, len, parts) => len + (SerParts(parts) + [0, 0])
  }

  function SerParts(ns: seq<Str>): seq<byte>
    decreases ns, 1
  {
    if ns == [] then [] else ns[0].tag + (AfterTag(ns[0]) + SerParts(ns[1..]))
  }

  /** The leaves in order. */
  function Text(n: Str): seq<byte>
    decreases n, 0
  {
    if n.Segmented? then TextAll(n.parts) else n.body
  }

  function TextAll(ns: seq<Str>): seq<byte>
    decreases ns, 1
  {
    if ns == [] then [] else Text(ns[0]) + TextAll(ns[1..])
  }

  ghost predicate Indefinite(len: seq<byte>) {
    exists v :: v < 0 && LengthOctets(len, v)
  }

  /** `n` is a well-formed string under tag `t`. */
  ghost predicate Proper(n: Str, t: nat)
    decreases n, 0
  {
    match n
    case Plain(_, len, body) => LengthOctets(len, |body|)
    case Terminated(_, len, body) => !IsConstructed(t) && Indefinite(len) && 0 !in body
    case Segmented(_, len, parts) => IsConstructed(t) && Indefinite(len) && AllProper(parts)
  }

  ghost predicate AllProper(ns: seq<Str>)
    decreases ns, 1
  {
    ns == [] || ((exists t: nat :: TagOctets(ns[0].tag, t) && Proper(ns[0], t)) && AllProper(ns[1..]))
  }

  // ------------------------------------------------------------------ every such string is read

  lemma TagNotEnd(buf: seq<byte>, pos: nat, end: nat)
    requires end <= |buf| && DecTag(buf, pos, end).Some?
    ensures DecTag(buf, pos, end).value.0 == INDEF_TERM <==> buf[pos] == 0
    ensures buf[pos] == 0 ==> DecTag(buf, pos, end).value.1 == pos + 1
  {
  }

  lemma ReadsPlain(buf: seq<byte>, pos: nat, end: nat, n: Str, t: nat, q: nat)
    requires n.Plain? && end <= |buf| && Proper(n, t) && At(buf, pos, AfterTag(n)) && q == pos + |AfterTag(n)| <= end
    ensures Read(buf, pos, end, t) == Some((Text(n), q))
  {
    AtParts(buf, pos, n.len, n.body);
    LengthLocal(buf, pos, end, n.len, |n.body|);
  }

  /** Length octets of an indefinite string, and where its contents start. */
  lemma IndefiniteStart(buf: seq<byte>, pos: nat, end: nat, len: seq<byte>, rest: seq<byte>) returns (v: int)
    requires end <= |buf| && Indefinite(len) && |rest| >= 2
    requires At(buf, pos, len + rest) && pos + |len + rest| <= end
    ensures v < 0 && DecLength(buf, pos, end) == Some((v, pos + |len|)) && At(buf, pos + |len|, rest)
  {
    v :| v < 0 && LengthOctets(len, v);
    AtParts(buf, pos, len, rest);
    LengthLocal(buf, pos, end, len, v);
  }

  lemma ReadsTerminated(buf: seq<byte>, pos: nat, end: nat, n: Str, t: nat, q: nat)
    requires n.Terminated? && end <= |buf| && Proper(n, t)
    requires At(buf, pos, AfterTag(n)) && q == pos + |AfterTag(n)| <= end
    ensures Read(buf, pos, end, t) == Some((Text(n), q))
  {
    hide DecLength, DecTag, ReadSegments, LengthOctets;
    var v := IndefiniteStart(buf, pos, end, n.len, n.body + [0, 0]);
    var p := pos + |n.len|;
    SkipsZeroEnded(buf, p, end, n.body, 0);
    AtParts(buf, p, n.body, [0, 0]);
    AtIndex(buf, p + |n.body|, [0, 0], 1);
  }

  lemma ReadSegmented(buf: seq<byte>, pos: nat, end: nat, t: nat, v: int, p: nat, s: seq<byte>, z: nat)
    requires end <= |buf| && IsConstructed(t) && v < 0 && DecLength(buf, pos, end) == Some((v, p))
    requires ReadSegments(buf, p, end) == Some((s, z)) && z < end && buf[z] == 0
    ensures Read(buf, pos, end, t) == Some((s, z + 1))
  {
  }

  /** A segmented string reads as its segments, then the closing octet. */
  lemma ReadsSegmented(buf: seq<byte>, pos: nat, end: nat, len: seq<byte>, parts: seq<Str>, t: nat, z: nat)
    requires end <= |buf| && IsConstructed(t) && Indefinite(len)
    requires At(buf, pos, len + (SerParts(parts) + [0, 0])) && z == pos + |len| + |SerParts(parts)| + 1 && z < end
    requires ReadSegments(buf, pos + |len|, end) == Some((TextAll(parts), z))
    ensures Read(buf, pos, end, t) == Some((TextAll(parts), z + 1))
  {
    hide DecLength, DecTag;
    var rest := SerParts(parts) + [0, 0];
    var v := IndefiniteStart(buf, pos, end, len, rest);
    AtIndex(buf, pos + |len|, rest, |rest| - 1);
    ReadSegmented(buf, pos, end, t, v, pos + |len|, TextAll(parts), z);
  }

  lemma {:induction false} ReadsString(buf: seq<byte>, pos: nat, end: nat, n: Str, t: nat, q: nat)
    requires end <= |buf| && Proper(n, t) && At(buf, pos, AfterTag(n)) && q == pos + |AfterTag(n)| <= end
    ensures Read(buf, pos, end, t) == Some((Text(n), q))
    decreases n, 0
  {
    hide DecLength, DecTag, Read, ReadSegments, LengthOctets;
    match n
    case Plain(_, _, _) => ReadsPlain(buf, pos, end, n, t, q);
    case Terminated(_, _, _) => ReadsTerminated(buf, pos, end, n, t, q);
    case Segmented(_, len, parts) =>
      AtParts(buf, pos, len, SerParts(parts) + [0, 0]);
      ReadsParts(buf, pos + |len|, end, parts, q - 1);
      ReadsSegmented(buf, pos, end, len, parts, t, q - 1);
  }

  lemma ReadsEnd(buf: seq<byte>, pos: nat, end: nat)
    requires end <= |buf| && At(buf, pos, [] + [0, 0]) && pos + 2 <= end
    ensures ReadSegments(buf, pos, end) == Some(([], pos + 1))
  {
    AtIndex(buf, pos, [0, 0], 0);
  }

  lemma NextSegment(buf: seq<byte>, pos: nat, end: nat, t: (nat, nat), x: (seq<byte>, nat), y: (seq<byte>, nat))
    requires end <= |buf| && DecTag(buf, pos, end) == Some(t) && t.0 != INDEF_TERM
    requires Read(buf, t.1, end, t.0) == Some(x) && ReadSegments(buf, x.1, end) == Some(y)
    ensures ReadSegments(buf, pos, end) == Some((x.0 + y.0, y.1))
  {
  }

  lemma SplitParts(a: seq<byte>, b: seq<byte>, c: seq<byte>, d: seq<byte>)
    ensures a + (b + c) + d == a + (b + (c + d))
  {
  }

  lemma {:induction false} ReadsParts(buf: seq<byte>, pos: nat, end: nat, ns: seq<Str>, q: nat)
    requires end <= |buf| && AllProper(ns)
    requires At(buf, pos, SerParts(ns) + [0, 0]) && q == pos + |SerParts(ns)| + 1 && q + 1 <= end
    ensures ReadSegments(buf, pos, end) == Some((TextAll(ns), q))
    decreases ns, 1
  {
    hide DecLength, DecTag, Read, ReadSegments, LengthOctets;
    if ns == [] {
      ReadsEnd(buf, pos, end);
    } else {
      var tag, own, rest := ns[0].tag, AfterTag(ns[0]), SerParts(ns[1..]);
      var t: nat :| TagOctets(tag, t) && Proper(ns[0], t);
      SplitParts(tag, own, rest, [0, 0]);
      AtParts(buf, pos, tag, own + (rest + [0, 0]));
      AtParts(buf, pos + |tag|, own, rest + [0, 0]);
      TagLocal(buf, pos, end, tag, t);
      AtIndex(buf, pos, tag, 0);
      TagNotEnd(buf, pos, end);
      var mid := pos + |tag| + |own|;
      ReadsString(buf, pos + |tag|, end, ns[0], t, mid);
      ReadsParts(buf, mid, end, ns[1..], q);
      NextSegment(buf, pos, end, (t, pos + |tag|), (Text(ns[0]), mid), (TextAll(ns[1..]), q));
    }
  }

  // ------------------------------------------------------------------ and nothing else

  lemma {:induction false} ReadIsString(buf: seq<byte>, pos: nat, end: nat, tag: nat, name: seq<byte>) returns (n: Str)
    requires end <= |buf| && Read(buf, pos, end, tag).Some?
    ensures n.tag == name && Proper(n, tag) && Text(n) == Read(buf, pos, end, tag).value.0
    ensures buf[pos..Read(buf, pos, end, tag).value.1] == AfterTag(n)
    decreases end - pos, 0
  {
    hide DecTag, DecLength, FindZero;
    var q := Read(buf, pos, end, tag).value.1;
    var l := DecLength(buf, pos, end).value;
    LengthSlice(buf, pos, end);
    var len := buf[pos..l.1];
    Join(buf, pos, l.1, q);
    if l.0 >= 0 {
      n := Plain(name, len, buf[l.1..q]);
    } else if IsConstructed(tag) {
      var x := ReadSegments(buf, l.1, end).value;
      var parts := ReadIsParts(buf, l.1, end);
      n := Segmented(name, len, parts);
      assert buf[x.1..q] == [0];
      Join(buf, l.1, x.1, q);
      assert SerParts(parts) + [0] + [0] == SerParts(parts) + [0, 0];
    } else {
      var z := FindZero(buf, l.1, end);
      n := Terminated(name, len, buf[l.1..z]);
      Join(buf, l.1, z, q);
      assert buf[z..q] == [0, 0];
    }
  }

  lemma AddPart(n: Str, t: nat, ns: seq<Str>)
    requires TagOctets(n.tag, t) && Proper(n, t) && AllProper(ns)
    ensures AllProper([n] + ns) && TextAll([n] + ns) == Text(n) + TextAll(ns)
    ensures SerParts([n] + ns) == n.tag + (AfterTag(n) + SerParts(ns))
  {
    var all := [n] + ns;
    assert all[0] == n && all[1..] == ns;
    assert TagOctets(all[0].tag, t) && Proper(all[0], t);
  }

  lemma {:induction false} ReadIsParts(buf: seq<byte>, pos: nat, end: nat) returns (ns: seq<Str>)
    requires end <= |buf| && ReadSegments(buf, pos, end).Some?
    ensures AllProper(ns) && TextAll(ns) == ReadSegments(buf, pos, end).value.0
    ensures buf[pos..ReadSegments(buf, pos, end).value.1] == SerParts(ns) + [0]
    decreases end - pos, 1
  {
    var q := ReadSegments(buf, pos, end).value.1;
    var t := DecTag(buf, pos, end).value;
    TagNotEnd(buf, pos, end);
    if t.0 == INDEF_TERM {
      ns := [];
      assert buf[pos..q] == [0];
    } else {
      var x := Read(buf, t.1, end, t.0).value;
      TagSlice(buf, pos, end);
      var first := ReadIsString(buf, t.1, end, t.0, buf[pos..t.1]);
      var rest := ReadIsParts(buf, x.1, end);
      ns := [first] + rest;
      AddPart(first, t.0, rest);
      Join(buf, pos, t.1, q);
      Join(buf, t.1, x.1, q);
      SplitParts(first.tag, AfterTag(first), SerParts(rest), [0]);
    }
  }

  /** Exactness: the reading yields `s` and ends at `q` if and only if the octets from `pos` to `q`
      are one well-formed string under that tag whose leaves concatenate to `s`. */
  lemma ReadIsExact(buf: seq<byte>, pos: nat, end: nat, tag: nat, s: seq<byte>, q: nat)
    requires end <= |buf|
    ensures Read(buf, pos, end, tag) == Some((s, q)) <==>
            pos <= q <= end && exists n :: Proper(n, tag) && buf[pos..q] == AfterTag(n) && s == Text(n)
  {
    if Read(buf, pos, end, tag) == Some((s, q)) {
      var n := ReadIsString(buf, pos, end, tag, []);
    }
    if pos <= q <= end {
      forall n | Proper(n, tag) && buf[pos..q] == AfterTag(n) && s == Text(n)
        ensures Read(buf, pos, end, tag) == Some((s, q))
      {
        assert |AfterTag(n)| == q - pos;
        ReadsString(buf, pos, end, n, tag, q);
      }
    }
  }

  /** `asn1_dec_string_bin` on any well-formed string, with anything after it. */
  lemma SegmentedStringIsConcatenated(buf: seq<byte>, pos: nat, end: nat, n: Str, t: nat, size: nat)
    requires size > 0 && end <= |buf| && Proper(n, t)
    requires At(buf, pos, AfterTag(n)) && pos + |AfterTag(n)| <= end
    ensures var q := pos + |AfterTag(n)|;
            && DecString(buf, pos, end, t, size, false) == (if |Text(n)| < size then Some((Text(n), q)) else None)
            && DecString(buf, pos, end, t, size, true) ==
               Some((if |Text(n)| < size then Text(n) else Text(n)[..size - 1], q))
  {
    hide Read, DecString;
    ReadsString(buf, pos, end, n, t, pos + |AfterTag(n)|);
    StringIsClipped(buf, pos, end, t, size, false);
    StringIsClipped(buf, pos, end, t, size, true);
  }
}
