/** Every advice-of-charge value comes back from every encoding of it, whole. */
module RoseAocDecodes {
  import opened Common
  import opened Asn1
  import opened Asn1Build
  import opened Asn1Strings
  import opened RoseAddress
  import opened RoseAoc
  import opened RoseWire

  lemma Unsigned32(x: int)
    requires IsU32(x)
    ensures Unsigned(ToInt32(x), 32) == x
  {
  }

  lemma ScaledContents(buf: seq<byte>, p: nat, q: nat, end: nat, x: Scaled, tag: byte)
    requires ValidScaled(x) && Stands(buf, p, q, ScaledTree(x, tag)) && q <= end <= |buf|
    ensures DecScaled(buf, p + 1, end) == Some((x, q))
  {
    hide Stands, StandAll, Open, Finish, TakeInt, EncIntBody, ToInt32, Ser, SerAll, More, TakeTag;
    var f, e := Enters(buf, p, q, end, ScaledTree(x, tag));
    var m := Split(buf, f.pos, e, IntTree(0x81, ToInt32(x.value)), [IntTree(0x82, x.scale)]);
    SeesInt(buf, f.pos, m, f.end, 0x81, ToInt32(x.value));
    Last(buf, m, e, IntTree(0x82, x.scale));
    SeesInt(buf, m, e, f.end, 0x82, x.scale);
    Unsigned32(x.value);
  }

  lemma ScaledDecodes(buf: seq<byte>, p: nat, q: nat, end: nat, x: Scaled, tag: byte)
    requires ValidScaled(x) && Stands(buf, p, q, ScaledTree(x, tag)) && q <= end <= |buf|
    ensures DecScaled(buf, p + 1, end) == Some((x, q))
    ensures PlainTag(ScaledTree(x, tag)) ==> TakeScaled(buf, p, end, Constructed(tag)) == Some((x, q))
    ensures PlainTag(ScaledTree(x, tag)) ==> More(buf, p, end)
  {
    hide Stands, DecScaled, TakeTag, More, EncIntBody, ToInt32;
    ScaledContents(buf, p, q, end, x, tag);
    if PlainTag(ScaledTree(x, tag)) {
      SeesTag(buf, p, q, end, ScaledTree(x, tag));
    }
  }

  lemma NameDecodes(buf: seq<byte>, p: nat, m: nat, end: nat, name: seq<byte>)
    requires |name| <= 10 && Stands(buf, p, m, Prim(0x81, name)) && m <= end <= |buf|
    ensures TakeTag(buf, p, end, 0x81) == Some(p + 1)
    ensures DecString(buf, p + 1, end, 0x81, 11, true) == Some((name, m))
  {
    hide Stands, DecTag, DecString;
    SeesTag(buf, p, m, end, Prim(0x81, name));
    SeesString(buf, p, m, end, 0x81, name, 11, true);
  }

  /** Name and amount at the head of a record; `rest` is what follows. */
  lemma PricedTaken(buf: seq<byte>, p: nat, e: nat, end: nat, x: Priced, rest: seq<Tree>) returns (m: nat)
    requires ValidPriced(x) && e <= end <= |buf|
    requires StandAll(buf, p, e, [Prim(0x81, x.currency)] + ([ScaledTree(x.amount, 0x82)] + rest))
    ensures p < m <= e && TakePriced(buf, p, end) == Some((x, m)) && StandAll(buf, m, e, rest)
  {
    hide Stands, StandAll, DecString, DecScaled, ScaledTree, TakeTag;
    var n := Split(buf, p, e, Prim(0x81, x.currency), [ScaledTree(x.amount, 0x82)] + rest);
    NameDecodes(buf, p, n, end, x.currency);
    m := Split(buf, n, e, ScaledTree(x.amount, 0x82), rest);
    AmountTag(x.amount);
    ScaledDecodes(buf, n, m, end, x.amount, 0x82);
  }

  lemma AmountTag(x: Scaled)
    ensures PlainTag(ScaledTree(x, 0x82)) && PlainTag(ScaledTree(x, 0x84)) && PlainTag(ScaledTree(x, 0x85))
  {
  }

  lemma PricedDecodes(buf: seq<byte>, p: nat, q: nat, end: nat, x: Priced, tag: byte)
    requires ValidPriced(x) && Stands(buf, p, q, PricedTree(x, tag)) && q <= end <= |buf|
    ensures DecPriced(buf, p + 1, end) == Some((x, q))
  {
    hide Stands, StandAll, Open, Finish, More, TakePriced, ScaledTree;
    var f, e := Enters(buf, p, q, end, PricedTree(x, tag));
    assert [ScaledTree(x.amount, 0x82)] + [] == [ScaledTree(x.amount, 0x82)];
    var m := PricedTaken(buf, f.pos, e, f.end, x, []);
    NoneLeft(buf, m, e);
  }

  lemma OptIntTaken(buf: seq<byte>, p: nat, e: nat, end: nat, tag: byte, x: Option<int>)
    requires OptU8(x) && tag != 0 && tag % 32 != 31 && !IsConstructed(tag)
    requires StandAll(buf, p, e, OptInt(tag, x)) && e <= end <= |buf| && !More(buf, e, end)
    ensures TakeOptInt(buf, p, end, tag) == Some((x, e))
  {
    hide Stands, TakeInt, EncIntBody, DecTag;
    if x.Some? {
      Last(buf, p, e, IntTree(tag, x.value));
      SeesTag(buf, p, e, end, IntTree(tag, x.value));
      SeesInt(buf, p, e, end, tag, x.value);
    }
  }

  lemma OptScaledTaken(buf: seq<byte>, p: nat, e: nat, end: nat, x: Option<Scaled>)
    requires x.Some? ==> ValidScaled(x.value)
    requires StandAll(buf, p, e, OptScaled(0x85, x)) && e <= end <= |buf| && !More(buf, e, end)
    ensures TakeOptScaled(buf, p, end, 0xA5) == Some((x, e))
  {
    hide Stands, TakeScaled, ScaledTree;
    if x.Some? {
      Last(buf, p, e, ScaledTree(x.value, 0x85));
      AmountTag(x.value);
      ScaledDecodes(buf, p, e, end, x.value, 0x85);
    }
  }

  // ------------------------------------------------------------------ AOC-S

  lemma DurationDecodes(buf: seq<byte>, p: nat, q: nat, end: nat, r: Rate)
    requires r.DurationRate? && ValidRate(r) && Stands(buf, p, q, RateTree(r)) && q <= end <= |buf|
    ensures DecDuration(buf, p + 1, end) == Some((r, q))
  {
    hide Stands, StandAll, Open, Finish, More, TakePriced, TakeInt, TakeScaled, TakeOptScaled, ScaledTree, OptScaled,
         EncIntBody, DecScaled, ToInt32, Ser, SerAll;
    var f, e := Enters(buf, p, q, end, RateTree(r));
    var last := OptScaled(0x85, r.granularity);
    var rest := [IntTree(0x83, r.chargingType)] + ([ScaledTree(r.time, 0x84)] + last);
    var m := PricedTaken(buf, f.pos, e, f.end, r.price, rest);
    var n := Split(buf, m, e, IntTree(0x83, r.chargingType), [ScaledTree(r.time, 0x84)] + last);
    SeesInt(buf, m, n, f.end, 0x83, r.chargingType);
    var o := Split(buf, n, e, ScaledTree(r.time, 0x84), last);
    AmountTag(r.time);
    ScaledDecodes(buf, n, o, f.end, r.time, 0x84);
    OptScaledTaken(buf, o, e, f.end, r.granularity);
  }

  lemma VolumeDecodes(buf: seq<byte>, p: nat, q: nat, end: nat, r: Rate)
    requires r.VolumeRate? && ValidRate(r) && Stands(buf, p, q, RateTree(r)) && q <= end <= |buf|
    ensures DecVolume(buf, p + 1, end) == Some((r, q))
  {
    hide Stands, StandAll, Open, Finish, More, TakePriced, TakeInt, ScaledTree, EncIntBody;
    var f, e := Enters(buf, p, q, end, RateTree(r));
    var m := PricedTaken(buf, f.pos, e, f.end, r.price, [IntTree(0x83, r.volumeUnit)]);
    Last(buf, m, e, IntTree(0x83, r.volumeUnit));
    SeesInt(buf, m, e, f.end, 0x83, r.volumeUnit);
  }

  lemma RateDecodes(buf: seq<byte>, p: nat, q: nat, end: nat, r: Rate)
    requires ValidRate(r) && Stands(buf, p, q, RateTree(r)) && q <= end <= |buf|
    ensures PlainTag(RateTree(r)) && DecRate(buf, p + 1, end, TagOf(RateTree(r))) == Some((r, q))
  {
    hide Stands, DecDuration, DecPriced, DecVolume, DecInt, DecNull, EncIntBody;
    match r
    case SpecialCode(code) => SeesInt(buf, p, q, end, INTEGER, code);
    case DurationRate(_, _, _, _) => DurationDecodes(buf, p, q, end, r);
    case FlatRate(price) => PricedDecodes(buf, p, q, end, price, 0x82);
    case VolumeRate(_, _) => VolumeDecodes(buf, p, q, end, r);
    case NoCharge => SeesNull(buf, p, q, end, 0x84);
    case RateNotAvailable => SeesNull(buf, p, q, end, 0x85);
  }

  lemma InfoDecodes(buf: seq<byte>, p: nat, q: nat, end: nat, c: CurrencyInfo)
    requires ValidInfo(c) && Stands(buf, p, q, InfoTree(c)) && q <= end <= |buf|
    ensures DecInfo(buf, p + 1, end) == Some((c, q))
  {
    hide Stands, StandAll, Open, Finish, More, DecRate, RateTree, TakeInt, EncIntBody, DecTag;
    var f, e := Enters(buf, p, q, end, InfoTree(c));
    var m := Split(buf, f.pos, e, IntTree(ENUMERATED, c.item), [RateTree(c.rate)]);
    SeesInt(buf, f.pos, m, f.end, ENUMERATED, c.item);
    Last(buf, m, e, RateTree(c.rate));
    RateDecodes(buf, m, e, f.end, c.rate);
    SeesTag(buf, m, e, f.end, RateTree(c.rate));
  }

  lemma {:induction false} InfosTaken(buf: seq<byte>, p: nat, e: nat, end: nat, list: seq<CurrencyInfo>, room: nat)
    requires |list| <= room && forall i :: 0 <= i < |list| ==> ValidInfo(list[i])
    requires StandAll(buf, p, e, InfoTrees(list)) && e <= end <= |buf| && !More(buf, e, end)
    ensures TakeInfos(buf, p, end, room) == Some((list, e))
    decreases |list|
  {
    hide Stands, StandAll, DecInfo, ValidInfo, DecTag, InfoTree;
    if list == [] {
      NoneLeft(buf, p, e);
    } else {
      var m := Split(buf, p, e, InfoTree(list[0]), InfoTrees(list[1..]));
      RecordTags(list[0]);
      SeesTag(buf, p, m, end, InfoTree(list[0]));
      InfoDecodes(buf, p, m, end, list[0]);
      InfosTaken(buf, m, e, end, list[1..], room - 1);
      assert [list[0]] + list[1..] == list;
    }
  }

  lemma RecordTags(c: CurrencyInfo)
    ensures PlainTag(InfoTree(c)) && TagOf(InfoTree(c)) == SEQUENCE
  {
  }

  lemma {:induction false} TooManyInfos(buf: seq<byte>, p: nat, e: nat, end: nat, list: seq<CurrencyInfo>, room: nat)
    requires |list| > room && forall i :: 0 <= i < |list| ==> ValidInfo(list[i])
    requires StandAll(buf, p, e, InfoTrees(list)) && e <= end <= |buf|
    ensures TakeInfos(buf, p, end, room) == None
    decreases |list|
  {
    hide Stands, StandAll, DecInfo, ValidInfo, DecTag, InfoTree;
    var m := Split(buf, p, e, InfoTree(list[0]), InfoTrees(list[1..]));
    RecordTags(list[0]);
    SeesTag(buf, p, m, end, InfoTree(list[0]));
    if room > 0 {
      InfoDecodes(buf, p, m, end, list[0]);
      TooManyInfos(buf, m, e, end, list[1..], room - 1);
    }
  }

  /** Up to ten records decode; an eleventh makes the decoder fail, in every encoding. */
  lemma InfosDecode(buf: seq<byte>, p: nat, q: nat, end: nat, list: seq<CurrencyInfo>)
    requires forall i :: 0 <= i < |list| ==> ValidInfo(list[i])
    requires Stands(buf, p, q, Cons(SEQUENCE, InfoTrees(list))) && q <= end <= |buf|
    ensures DecInfos(buf, p + 1, end) == if |list| <= MAX_CURRENCY_INFO then Some((list, q)) else None
  {
    hide Stands, StandAll, Open, Finish, More, TakeInfos, ValidInfo;
    var f, e := Enters(buf, p, q, end, Cons(SEQUENCE, InfoTrees(list)));
    if |list| <= MAX_CURRENCY_INFO {
      InfosTaken(buf, f.pos, e, f.end, list, MAX_CURRENCY_INFO);
    } else {
      TooManyInfos(buf, f.pos, e, f.end, list, MAX_CURRENCY_INFO);
    }
  }

  // ------------------------------------------------------------------ recorded units and currency

  lemma UnitCountTaken(buf: seq<byte>, p: nat, q: nat, end: nat, n: Option<int>)
    requires n.Some? ==> IsU32(n.value)
    requires Stands(buf, p, q, match n case None => NullTree(NULL) case Some(v) => IntTree(INTEGER, ToInt32(v)))
    requires q <= end <= |buf|
    ensures TakeUnitCount(buf, p, end) == Some((n, q))
  {
    hide Stands, DecTag, DecInt, DecNull, EncIntBody, ToInt32;
    match n
    case None =>
      SeesTag(buf, p, q, end, NullTree(NULL));
      SeesNull(buf, p, q, end, NULL);
    case Some(v) =>
      SeesTag(buf, p, q, end, IntTree(INTEGER, ToInt32(v)));
      SeesInt(buf, p, q, end, INTEGER, ToInt32(v));
      Unsigned32(v);
  }

  lemma UnitsDecode(buf: seq<byte>, p: nat, q: nat, end: nat, u: RecordedUnits)
    requires ValidUnits(u) && Stands(buf, p, q, UnitsTree(u)) && q <= end <= |buf|
    ensures DecUnits(buf, p + 1, end) == Some((u, q))
  {
    hide Stands, StandAll, Open, Finish, More, TakeUnitCount, TakeOptInt, OptInt, EncIntBody, ToInt32;
    var f, e := Enters(buf, p, q, end, UnitsTree(u));
    var first := match u.units case None => NullTree(NULL) case Some(n) => IntTree(INTEGER, ToInt32(n));
    var m := Split(buf, f.pos, e, first, OptInt(INTEGER, u.kind));
    UnitCountTaken(buf, f.pos, m, f.end, u.units);
    OptIntTaken(buf, m, e, f.end, INTEGER, u.kind);
  }

  lemma UnitsTag(u: RecordedUnits)
    ensures PlainTag(UnitsTree(u)) && TagOf(UnitsTree(u)) == SEQUENCE
  {
  }

  lemma {:induction false} UnitsTaken(buf: seq<byte>, p: nat, e: nat, end: nat, list: seq<RecordedUnits>, room: nat)
    requires |list| <= room && forall i :: 0 <= i < |list| ==> ValidUnits(list[i])
    requires StandAll(buf, p, e, UnitsTrees(list)) && e <= end <= |buf| && !More(buf, e, end)
    ensures TakeUnits(buf, p, end, room) == Some((list, e))
    decreases |list|
  {
    hide Stands, StandAll, DecUnits, ValidUnits, DecTag, UnitsTree;
    if list == [] {
      NoneLeft(buf, p, e);
    } else {
      var m := Split(buf, p, e, UnitsTree(list[0]), UnitsTrees(list[1..]));
      UnitsTag(list[0]);
      SeesTag(buf, p, m, end, UnitsTree(list[0]));
      UnitsDecode(buf, p, m, end, list[0]);
      UnitsTaken(buf, m, e, end, list[1..], room - 1);
      assert [list[0]] + list[1..] == list;
    }
  }

  lemma {:induction false} TooManyUnits(buf: seq<byte>, p: nat, e: nat, end: nat, list: seq<RecordedUnits>, room: nat)
    requires |list| > room && forall i :: 0 <= i < |list| ==> ValidUnits(list[i])
    requires StandAll(buf, p, e, UnitsTrees(list)) && e <= end <= |buf|
    ensures TakeUnits(buf, p, end, room) == None
    decreases |list|
  {
    hide Stands, StandAll, DecUnits, ValidUnits, DecTag, UnitsTree;
    var m := Split(buf, p, e, UnitsTree(list[0]), UnitsTrees(list[1..]));
    UnitsTag(list[0]);
    SeesTag(buf, p, m, end, UnitsTree(list[0]));
    if room > 0 {
      UnitsDecode(buf, p, m, end, list[0]);
      TooManyUnits(buf, m, e, end, list[1..], room - 1);
    }
  }

  /** Up to thirty-two records decode; one more makes the decoder fail, in every encoding. */
  lemma UnitsListDecodes(buf: seq<byte>, p: nat, q: nat, end: nat, list: seq<RecordedUnits>, tag: byte)
    requires forall i :: 0 <= i < |list| ==> ValidUnits(list[i])
    requires Stands(buf, p, q, Cons(tag, UnitsTrees(list))) && q <= end <= |buf|
    ensures DecUnitsList(buf, p + 1, end) == if |list| <= MAX_RECORDED_UNITS then Some((list, q)) else None
  {
    hide Stands, StandAll, Open, Finish, More, TakeUnits, ValidUnits;
    var f, e := Enters(buf, p, q, end, Cons(tag, UnitsTrees(list)));
    if |list| <= MAX_RECORDED_UNITS {
      UnitsTaken(buf, f.pos, e, f.end, list, MAX_RECORDED_UNITS);
    } else {
      TooManyUnits(buf, f.pos, e, f.end, list, MAX_RECORDED_UNITS);
    }
  }

  lemma RecordedTaken(buf: seq<byte>, p: nat, q: nat, end: nat, r: Recorded)
    requires ValidRecorded(r) && Stands(buf, p, q, RecordedTree(r)) && q <= end <= |buf|
    ensures TakeRecorded(buf, p, end, r.Money?) == Some((r, q))
  {
    hide Stands, DecTag, DecPriced, DecUnitsList, ValidUnits, ValidPriced;
    SeesTag(buf, p, q, end, RecordedTree(r));
    match r
    case Money(price) => PricedDecodes(buf, p, q, end, price, 0x81);
    case Units(list) => UnitsListDecodes(buf, p, q, end, list, 0x81);
  }

  // ------------------------------------------------------------------ AOC-D and AOC-E

  lemma DuringSpecificDecodes(buf: seq<byte>, p: nat, q: nat, end: nat, d: During)
    requires d.DuringSpecific? && ValidDuring(d) && Stands(buf, p, q, DuringTree(d)) && q <= end <= |buf|
    ensures DecDuringSpecific(buf, p + 1, end, d.recorded.Money?) == Some((d, q))
  {
    hide Stands, StandAll, Open, Finish, More, TakeRecorded, TakeInt, TakeOptInt, OptInt, EncIntBody, RecordedTree,
         ValidRecorded, ToInt32, Ser, SerAll;
    var f, e := Enters(buf, p, q, end, DuringTree(d));
    var m := Split(buf, f.pos, e, RecordedTree(d.recorded), [IntTree(0x82, d.typeOfInfo)] + OptInt(0x83, d.billing));
    RecordedTaken(buf, f.pos, m, f.end, d.recorded);
    var n := Split(buf, m, e, IntTree(0x82, d.typeOfInfo), OptInt(0x83, d.billing));
    SeesInt(buf, m, n, f.end, 0x82, d.typeOfInfo);
    OptIntTaken(buf, n, e, f.end, 0x83, d.billing);
  }

  lemma DuringDecodes(buf: seq<byte>, p: nat, q: nat, end: nat, d: During, money: bool)
    requires ValidDuring(d) && (d.DuringSpecific? ==> d.recorded.Money? == money)
    requires Stands(buf, p, q, DuringTree(d)) && q <= end <= |buf|
    ensures PlainTag(DuringTree(d)) && DecDuring(buf, p + 1, end, TagOf(DuringTree(d)), money) == Some((d, q))
  {
    hide Stands, DecDuringSpecific, DecNull, RecordedTree, ValidRecorded, OptInt, EncIntBody;
    match d
    case DuringNotAvailable => SeesNull(buf, p, q, end, NULL);
    case DuringFree => SeesNull(buf, p, q, end, 0x81);
    case DuringSpecific(_, _, _) => DuringSpecificDecodes(buf, p, q, end, d);
  }

  /** Reading the inner length against the outer end makes no difference to a well-formed message. */
  lemma InnerOpens(buf: seq<byte>, p: nat, q: nat, outer: nat, limit: nat, t: Tree)
    requires t.Cons? && Stands(buf, p, q, t) && q <= limit <= outer <= |buf|
    ensures OpenInner(buf, p + 1, outer, limit) == Open(buf, p + 1, limit)
  {
    hide DecLength, Stands;
    SameLength(buf, p, q, outer, limit, t);
  }

  lemma SpecificTaken(buf: seq<byte>, p: nat, q: nat, outer: nat, limit: nat, s: Option<Specific>, money: bool)
    requires s.Some? ==> ValidRecorded(s.value.recorded) && OptU8(s.value.billing) && s.value.recorded.Money? == money
    requires Stands(buf, p, q, SpecificTree(s)) && q <= limit <= outer <= |buf|
    ensures TakeSpecific(buf, p, outer, limit, money) == Some((s, q))
  {
    hide Stands, StandAll, DecTag, Open, OpenInner, Finish, More, TakeRecorded, TakeOptInt, OptInt, DecNull,
         RecordedTree, ValidRecorded;
    SeesTag(buf, p, q, limit, SpecificTree(s));
    match s
    case None => SeesNull(buf, p, q, limit, 0x81);
    case Some(x) =>
      InnerOpens(buf, p, q, outer, limit, SpecificTree(s));
      var f, e := Enters(buf, p, q, limit, SpecificTree(s));
      var m := Split(buf, f.pos, e, RecordedTree(x.recorded), OptInt(0x82, x.billing));
      RecordedTaken(buf, f.pos, m, f.end, x.recorded);
      OptIntTaken(buf, m, e, f.end, 0x82, x.billing);
  }

  lemma AssociationDecodes(buf: seq<byte>, p: nat, q: nat, end: nat, a: Association)
    requires ValidAssociation(a) && Stands(buf, p, q, EncAssociation(a).value) && q <= end <= |buf|
    ensures PlainTag(EncAssociation(a).value)
    ensures DecAssociation(buf, p + 1, end, TagOf(EncAssociation(a).value)) == Some((a, q))
  {
    hide Stands, DecInt, DecExplicitNumber, EncNumber, EncIntBody;
    match a
    case ChargeId(id) => SeesInt(buf, p, q, end, INTEGER, id);
    case ChargedNumber(number) =>
      NumberEncodes(number);
      ExplicitNumberDecodes(buf, p, q, end, number, 0x80);
  }

  lemma OptAssociationTaken(buf: seq<byte>, p: nat, e: nat, end: nat, a: Option<Association>)
    requires a.Some? ==> ValidAssociation(a.value)
    requires EncOptAssociation(a).Some? && StandAll(buf, p, e, EncOptAssociation(a).value)
    requires e <= end <= |buf| && !More(buf, e, end)
    ensures TakeOptAssociation(buf, p, end) == Some((a, e))
  {
    hide Stands, DecTag, DecAssociation, EncAssociation;
    if a.Some? {
      var t := EncAssociation(a.value).value;
      Last(buf, p, e, t);
      AssociationDecodes(buf, p, e, end, a.value);
      SeesTag(buf, p, e, end, t);
    }
  }

  lemma EndEncodes(x: EndInfo)
    requires ValidEnd(x)
    ensures EncOptAssociation(x.association).Some? && EncEnd(x).Some?
    ensures EncEnd(x) == Some(Cons(SEQUENCE, [SpecificTree(x.specific)] + EncOptAssociation(x.association).value))
  {
    if x.association.Some? && x.association.value.ChargedNumber? {
      NumberEncodes(x.association.value.number);
    }
  }

  lemma EndDecodes(buf: seq<byte>, p: nat, q: nat, end: nat, x: EndInfo, money: bool)
    requires ValidEnd(x) && (x.specific.Some? ==> x.specific.value.recorded.Money? == money)
    requires EncEnd(x).Some? && Stands(buf, p, q, EncEnd(x).value) && q <= end <= |buf|
    ensures DecEnd(buf, p + 1, end, money) == Some((x, q))
  {
    hide Stands, StandAll, Open, Finish, More, TakeSpecific, TakeOptAssociation, SpecificTree, EncEnd,
         EncOptAssociation, ValidRecorded, ValidAssociation;
    EndEncodes(x);
    var f, e := Enters(buf, p, q, end, EncEnd(x).value);
    var m := Split(buf, f.pos, e, SpecificTree(x.specific), EncOptAssociation(x.association).value);
    SpecificTaken(buf, f.pos, m, end, f.end, x.specific, money);
    OptAssociationTaken(buf, m, e, f.end, x.association);
  }
}
