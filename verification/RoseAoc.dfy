/** ETSI advice-of-charge arguments (libpri/rose_etsi_aoc.c): lists of records, optional fields and
    choices. Encoders yield the component tree they build, decoders work on octets. */
module RoseAoc {
  import opened Common
  import opened Asn1
  import opened Asn1Build
  import opened Asn1Strings
  import opened RoseAddress
  import opened RoseWire

  const INTEGER: byte := 2
  const NULL: byte := 5

  const MAX_CURRENCY_INFO := 10
  const MAX_RECORDED_UNITS := 32

  /** Time (length of unit and scale) or Amount (currency and multiplier). */
  datatype Scaled = Scaled(value: int, scale: int)

  /** RecordedCurrency or FlatRateCurrency. The currency name is a C string. */
  datatype Priced = Priced(currency: seq<byte>, amount: Scaled)

  datatype Rate =
    | SpecialCode(code: int)
    | DurationRate(price: Priced, chargingType: int, time: Scaled, granularity: Option<Scaled>)
    | FlatRate(price: Priced)
    | VolumeRate(price: Priced, volumeUnit: int)
    | NoCharge
    | RateNotAvailable

  datatype CurrencyInfo = CurrencyInfo(item: int, rate: Rate)

  /** `units` is absent when the number of units is not available. */
  datatype RecordedUnits = RecordedUnits(units: Option<int>, kind: Option<int>)

  datatype Recorded =
    | Money(price: Priced)
    | Units(list: seq<RecordedUnits>)

  datatype Association =
    | ChargeId(id: int)
    | ChargedNumber(number: PartyNumber)

  datatype During =
    | DuringNotAvailable
    | DuringFree
    | DuringSpecific(recorded: Recorded, typeOfInfo: int, billing: Option<int>)

  datatype Specific = Specific(recorded: Recorded, billing: Option<int>)

  /** AOCECurrencyInfo or AOCEChargingUnitInfo; no specific part means free of charge. */
  datatype EndInfo = EndInfo(specific: Option<Specific>, association: Option<Association>)

  // ------------------------------------------------------------------ representable values

  predicate IsU32(x: int) {
    0 <= x < 0x1_0000_0000
  }

  predicate IsI16(x: int) {
    -0x8000 <= x < 0x8000
  }

  predicate OptU8(x: Option<int>) {
    x.Some? ==> IsU8(x.value)
  }

  predicate ValidScaled(x: Scaled) {
    IsU32(x.value) && IsU8(x.scale)
  }

  predicate ValidPriced(x: Priced) {
    |x.currency| <= 10 && 0 !in x.currency && ValidScaled(x.amount)
  }

  predicate ValidRate(r: Rate) {
    match r
    case SpecialCode(code) => IsU8(code)
    case DurationRate(price, chargingType, time, granularity) =>
      ValidPriced(price) && IsU8(chargingType) && ValidScaled(time)
          && (granularity.Some? ==> ValidScaled(granularity.value))
    case FlatRate(price) => ValidPriced(price)
    case VolumeRate(price, volumeUnit) => ValidPriced(price) && IsU8(volumeUnit)
    case _ => true
  }

  predicate ValidInfo(c: CurrencyInfo) {
    IsU8(c.item) && ValidRate(c.rate)
  }

  predicate ValidInfos(list: seq<CurrencyInfo>) {
    |list| <= MAX_CURRENCY_INFO && forall i :: 0 <= i < |list| ==> ValidInfo(list[i])
  }

  predicate ValidUnits(u: RecordedUnits) {
    (u.units.Some? ==> IsU32(u.units.value)) && OptU8(u.kind)
  }

  predicate ValidRecorded(r: Recorded) {
    match r
    case Money(price) => ValidPriced(price)
    case Units(list) => |list| <= MAX_RECORDED_UNITS && forall i :: 0 <= i < |list| ==> ValidUnits(list[i])
  }

  predicate ValidAssociation(a: Association) {
    match a
    case ChargeId(id) => IsI16(id)
    case ChargedNumber(number) => ValidNumber(number)
  }

  predicate ValidDuring(d: During) {
    d.DuringSpecific? ==> ValidRecorded(d.recorded) && IsU8(d.typeOfInfo) && OptU8(d.billing)
  }

  predicate ValidEnd(x: EndInfo) {
    && (x.specific.Some? ==> ValidRecorded(x.specific.value.recorded) && OptU8(x.specific.value.billing))
    && (x.association.Some? ==> ValidAssociation(x.association.value))
  }

  // ------------------------------------------------------------------ encoders

  /** `rose_enc_etsi_AOC_Time`, `rose_enc_etsi_AOC_Amount`: the 32-bit field is passed as `int32_t`. */
  function ScaledTree(x: Scaled, tag: byte): Tree {
    Cons(tag, [IntTree(0x81, ToInt32(x.value))] + [IntTree(0x82, x.scale)])
  }

  /** `rose_enc_etsi_AOC_RecordedCurrency`, `rose_enc_etsi_AOC_FlatRateCurrency`. */
  function PricedTree(x: Priced, tag: byte): Tree {
    Cons(tag, [Prim(0x81, x.currency)] + [ScaledTree(x.amount, 0x82)])
  }

  function OptInt(tag: byte, x: Option<int>): seq<Tree> {
    match x case None => [] case Some(v) => [IntTree(tag, v)]
  }

  function OptScaled(tag: byte, x: Option<Scaled>): seq<Tree> {
    match x case None => [] case Some(v) => [ScaledTree(v, tag)]
  }

  function RateTree(r: Rate): Tree {
    match r
    case SpecialCode(code) => IntTree(INTEGER, code)
    case DurationRate(price, chargingType, time, granularity) =>
      Cons(0x81, [Prim(0x81, price.currency)] + ([ScaledTree(price.amount, 0x82)] + ([IntTree(0x83, chargingType)] +
        ([ScaledTree(time, 0x84)] + OptScaled(0x85, granularity)))))
    case FlatRate(price) => PricedTree(price, 0x82)
    case VolumeRate(price, volumeUnit) =>
      Cons(0x83, [Prim(0x81, price.currency)] + ([ScaledTree(price.amount, 0x82)] + [IntTree(0x83, volumeUnit)]))
    case NoCharge => NullTree(0x84)
    case RateNotAvailable => NullTree(0x85)
  }

  /** `rose_enc_etsi_AOCSCurrencyInfo`. */
  function InfoTree(c: CurrencyInfo): Tree {
    Cons(SEQUENCE, [IntTree(ENUMERATED, c.item)] + [RateTree(c.rate)])
  }

  function InfoTrees(list: seq<CurrencyInfo>): seq<Tree> {
    if list == [] then [] else [InfoTree(list[0])] + InfoTrees(list[1..])
  }

  /** `rose_enc_etsi_AOC_RecordedUnits`. */
  function UnitsTree(u: RecordedUnits): Tree {
    var first := match u.units case None => NullTree(NULL) case Some(n) => IntTree(INTEGER, ToInt32(n));
    Cons(SEQUENCE, [first] + OptInt(INTEGER, u.kind))
  }

  function UnitsTrees(list: seq<RecordedUnits>): seq<Tree> {
    if list == [] then [] else [UnitsTree(list[0])] + UnitsTrees(list[1..])
  }

  /** The recorded part of AOC-D and AOC-E, tagged [1]. */
  function RecordedTree(r: Recorded): Tree {
    match r
    case Money(price) => PricedTree(price, 0x81)
    case Units(list) => Cons(0x81, UnitsTrees(list))
  }

  /** `rose_enc_etsi_AOC_ChargingAssociation`. */
  function EncAssociation(a: Association): Option<Tree> {
    match a
    case ChargeId(id) => Some(IntTree(INTEGER, id))
    case ChargedNumber(number) =>
      var n :- EncNumber(number);
      Some(Cons(0x80, [n]))
  }

  function EncOptAssociation(a: Option<Association>): Option<seq<Tree>> {
    match a
    case None => Some([])
    case Some(x) =>
      var t :- EncAssociation(x);
      Some([t])
  }

  /** `rose_enc_etsi_AOCDCurrency_ARG`, `rose_enc_etsi_AOCDChargingUnit_ARG`. */
  function DuringTree(d: During): Tree {
    match d
    case DuringNotAvailable => NullTree(NULL)
    case DuringFree => NullTree(0x81)
    case DuringSpecific(recorded, typeOfInfo, billing) =>
      Cons(SEQUENCE, [RecordedTree(recorded)] + ([IntTree(0x82, typeOfInfo)] + OptInt(0x83, billing)))
  }

  function SpecificTree(s: Option<Specific>): Tree {
    match s
    case None => NullTree(0x81)
    case Some(x) => Cons(SEQUENCE, [RecordedTree(x.recorded)] + OptInt(0x82, x.billing))
  }

  /** `rose_enc_etsi_AOCECurrencyInfo`, `rose_enc_etsi_AOCEChargingUnitInfo`. */
  function EncEnd(x: EndInfo): Option<Tree> {
    var a :- EncOptAssociation(x.association);
    Some(Cons(SEQUENCE, [SpecificTree(x.specific)] + a))
  }

  // ------------------------------------------------------------------ decoders

  /** `rose_dec_etsi_AOC_Time`, `rose_dec_etsi_AOC_Amount`. */
  function DecScaled(buf: seq<byte>, pos: nat, end: nat): (r: Option<(Scaled, nat)>)
    requires end <= |buf|
    ensures r.Some? ==> pos < r.value.1 <= end
  {
    var f :- Open(buf, pos, end);
    var v :- TakeInt(buf, f.pos, f.end, 0x81);
    var s :- TakeInt(buf, v.1, f.end, 0x82);
    var q :- Finish(buf, s.1, f, end);
    Some((Scaled(Unsigned(v.0, 32), Unsigned(s.0, 8)), q))
  }

  function TakeScaled(buf: seq<byte>, pos: nat, end: nat, tag: byte): (r: Option<(Scaled, nat)>)
    requires end <= |buf|
    ensures r.Some? ==> pos < r.value.1 <= end
  {
    var p :- TakeTag(buf, pos, end, tag);
    DecScaled(buf, p, end)
  }

  /** Currency name and amount, as every priced record starts. */
  function TakePriced(buf: seq<byte>, pos: nat, end: nat): (r: Option<(Priced, nat)>)
    requires end <= |buf|
    ensures r.Some? ==> pos < r.value.1 <= end
  {
    var p :- TakeTag(buf, pos, end, 0x81);
    var name :- DecString(buf, p, end, 0x81, 11, true);
    var a :- TakeScaled(buf, name.1, end, 0xA2);
    Some((Priced(name.0, a.0), a.1))
  }

  /** `rose_dec_etsi_AOC_RecordedCurrency`, `rose_dec_etsi_AOC_FlatRateCurrency`. */
  function DecPriced(buf: seq<byte>, pos: nat, end: nat): (r: Option<(Priced, nat)>)
    requires end <= |buf|
    ensures r.Some? ==> pos < r.value.1 <= end
  {
    var f :- Open(buf, pos, end);
    var x :- TakePriced(buf, f.pos, f.end);
    var q :- Finish(buf, x.1, f, end);
    Some((x.0, q))
  }

  function TakeOptInt(buf: seq<byte>, pos: nat, end: nat, tag: byte): (r: Option<(Option<int>, nat)>)
    requires end <= |buf|
    ensures r.Some? ==> pos <= r.value.1
  {
    if More(buf, pos, end) then
      var x :- TakeInt(buf, pos, end, tag);
      Some((Some(Unsigned(x.0, 8)), x.1))
    else Some((None, pos))
  }

  function TakeOptScaled(buf: seq<byte>, pos: nat, end: nat, tag: byte): (r: Option<(Option<Scaled>, nat)>)
    requires end <= |buf|
    ensures r.Some? ==> pos <= r.value.1
  {
    if More(buf, pos, end) then
      var x :- TakeScaled(buf, pos, end, tag);
      Some((Some(x.0), x.1))
    else Some((None, pos))
  }

  /** `rose_dec_etsi_AOC_DurationCurrency`. */
  function DecDuration(buf: seq<byte>, pos: nat, end: nat): (r: Option<(Rate, nat)>)
    requires end <= |buf|
    ensures r.Some? ==> pos < r.value.1 <= end
  {
    var f :- Open(buf, pos, end);
    var x :- TakePriced(buf, f.pos, f.end);
    var c :- TakeInt(buf, x.1, f.end, 0x83);
    var t :- TakeScaled(buf, c.1, f.end, 0xA4);
    var g :- TakeOptScaled(buf, t.1, f.end, 0xA5);
    var q :- Finish(buf, g.1, f, end);
    Some((DurationRate(x.0, Unsigned(c.0, 8), t.0, g.0), q))
  }

  /** `rose_dec_etsi_AOC_VolumeRateCurrency`. */
  function DecVolume(buf: seq<byte>, pos: nat, end: nat): (r: Option<(Rate, nat)>)
    requires end <= |buf|
    ensures r.Some? ==> pos < r.value.1 <= end
  {
    var f :- Open(buf, pos, end);
    var x :- TakePriced(buf, f.pos, f.end);
    var u :- TakeInt(buf, x.1, f.end, 0x83);
    var q :- Finish(buf, u.1, f, end);
    Some((VolumeRate(x.0, Unsigned(u.0, 8)), q))
  }

  /** The choice in `rose_dec_etsi_AOCSCurrencyInfo`. */
  function DecRate(buf: seq<byte>, pos: nat, end: nat, tag: nat): (r: Option<(Rate, nat)>)
    requires end <= |buf|
    ensures r.Some? ==> pos < r.value.1 <= end
  {
    if tag == INTEGER then
      var x :- DecInt(buf, pos, end);
      Some((SpecialCode(Unsigned(x.0, 8)), x.1))
    else if tag == 0xA1 then DecDuration(buf, pos, end)
    else if tag == 0xA2 then
      var x :- DecPriced(buf, pos, end);
      Some((FlatRate(x.0), x.1))
    else if tag == 0xA3 then DecVolume(buf, pos, end)
    else if tag == 0x84 || tag == 0x85 then
      var q :- DecNull(buf, pos, end);
      Some((if tag == 0x84 then NoCharge else RateNotAvailable, q))
    else None
  }

  /** `rose_dec_etsi_AOCSCurrencyInfo`. */
  function DecInfo(buf: seq<byte>, pos: nat, end: nat): (r: Option<(CurrencyInfo, nat)>)
    requires end <= |buf|
    ensures r.Some? ==> pos < r.value.1 <= end
  {
    var f :- Open(buf, pos, end);
    var item :- TakeInt(buf, f.pos, f.end, ENUMERATED);
    var t :- DecTag(buf, item.1, f.end);
    var rate :- DecRate(buf, t.1, f.end, t.0);
    var q :- Finish(buf, rate.1, f, end);
    Some((CurrencyInfo(Unsigned(item.0, 8), rate.0), q))
  }

  /** The record loop of `rose_dec_etsi_AOCSCurrencyInfoList`, with room for `room` more. */
  function TakeInfos(buf: seq<byte>, pos: nat, end: nat, room: nat): (r: Option<(seq<CurrencyInfo>, nat)>)
    requires end <= |buf|
    ensures r.Some? ==> pos <= r.value.1 && |r.value.0| <= room
    decreases room
  {
    if !More(buf, pos, end) then Some(([], pos))
    else if room == 0 then None
    else
      var p :- TakeTag(buf, pos, end, SEQUENCE);
      var x :- DecInfo(buf, p, end);
      var rest :- TakeInfos(buf, x.1, end, room - 1);
      Some(([x.0] + rest.0, rest.1))
  }

  function DecInfos(buf: seq<byte>, pos: nat, end: nat): (r: Option<(seq<CurrencyInfo>, nat)>)
    requires end <= |buf|
    ensures r.Some? ==> |r.value.0| <= MAX_CURRENCY_INFO
  {
    var f :- Open(buf, pos, end);
    var x :- TakeInfos(buf, f.pos, f.end, MAX_CURRENCY_INFO);
    var q :- Finish(buf, x.1, f, end);
    Some((x.0, q))
  }

  /** The number of units, or the NULL that stands for it. */
  function TakeUnitCount(buf: seq<byte>, pos: nat, end: nat): (r: Option<(Option<int>, nat)>)
    requires end <= |buf|
    ensures r.Some? ==> pos < r.value.1 <= end
  {
    var t :- DecTag(buf, pos, end);
    if t.0 == INTEGER then
      var x :- DecInt(buf, t.1, end);
      Some((Some(Unsigned(x.0, 32)), x.1))
    else if t.0 == NULL then
      var q :- DecNull(buf, t.1, end);
      Some((None, q))
    else None
  }

  /** `rose_dec_etsi_AOC_RecordedUnits`. */
  function DecUnits(buf: seq<byte>, pos: nat, end: nat): (r: Option<(RecordedUnits, nat)>)
    requires end <= |buf|
    ensures r.Some? ==> pos < r.value.1 <= end
  {
    var f :- Open(buf, pos, end);
    var n :- TakeUnitCount(buf, f.pos, f.end);
    var k :- TakeOptInt(buf, n.1, f.end, INTEGER);
    var q :- Finish(buf, k.1, f, end);
    Some((RecordedUnits(n.0, k.0), q))
  }

  /** The record loop of `rose_dec_etsi_AOC_RecordedUnitsList`. */
  function TakeUnits(buf: seq<byte>, pos: nat, end: nat, room: nat): (r: Option<(seq<RecordedUnits>, nat)>)
    requires end <= |buf|
    ensures r.Some? ==> pos <= r.value.1 && |r.value.0| <= room
    decreases room
  {
    if !More(buf, pos, end) then Some(([], pos))
    else if room == 0 then None
    else
      var p :- TakeTag(buf, pos, end, SEQUENCE);
      var x :- DecUnits(buf, p, end);
      var rest :- TakeUnits(buf, x.1, end, room - 1);
      Some(([x.0] + rest.0, rest.1))
  }

  function DecUnitsList(buf: seq<byte>, pos: nat, end: nat): (r: Option<(seq<RecordedUnits>, nat)>)
    requires end <= |buf|
    ensures r.Some? ==> |r.value.0| <= MAX_RECORDED_UNITS
    ensures r.Some? ==> pos < r.value.1 <= end
  {
    var f :- Open(buf, pos, end);
    var x :- TakeUnits(buf, f.pos, f.end, MAX_RECORDED_UNITS);
    var q :- Finish(buf, x.1, f, end);
    Some((x.0, q))
  }

  function TakeRecorded(buf: seq<byte>, pos: nat, end: nat, money: bool): (r: Option<(Recorded, nat)>)
    requires end <= |buf|
    ensures r.Some? ==> pos < r.value.1 <= end
  {
    var p :- TakeTag(buf, pos, end, 0xA1);
    if money then
      var x :- DecPriced(buf, p, end);
      Some((Money(x.0), x.1))
    else
      var x :- DecUnitsList(buf, p, end);
      Some((Units(x.0), x.1))
  }

  /** `rose_dec_etsi_AOC_ChargingAssociation`, after the tag octets. */
  function DecAssociation(buf: seq<byte>, pos: nat, end: nat, tag: nat): (r: Option<(Association, nat)>)
    requires end <= |buf|
    ensures r.Some? ==> pos < r.value.1 <= end
  {
    if tag == INTEGER then
      var x :- DecInt(buf, pos, end);
      Some((ChargeId(ToInt16(x.0)), x.1))
    else if tag == 0xA0 then
      var n :- DecExplicitNumber(buf, pos, end);
      Some((ChargedNumber(n.0), n.1))
    else None
  }

  function TakeOptAssociation(buf: seq<byte>, pos: nat, end: nat): (r: Option<(Option<Association>, nat)>)
    requires end <= |buf|
    ensures r.Some? ==> pos <= r.value.1
  {
    if More(buf, pos, end) then
      var t :- DecTag(buf, pos, end);
      var a :- DecAssociation(buf, t.1, end, t.0);
      Some((Some(a.0), a.1))
    else Some((None, pos))
  }

  /** The SEQUENCE of `rose_dec_etsi_AOCDCurrency_ARG` and `rose_dec_etsi_AOCDChargingUnit_ARG`. */
  function DecDuringSpecific(buf: seq<byte>, pos: nat, end: nat, money: bool): Option<(During, nat)>
    requires end <= |buf|
  {
    var f :- Open(buf, pos, end);
    var x :- TakeRecorded(buf, f.pos, f.end, money);
    var k :- TakeInt(buf, x.1, f.end, 0x82);
    var b :- TakeOptInt(buf, k.1, f.end, 0x83);
    var q :- Finish(buf, b.1, f, end);
    Some((DuringSpecific(x.0, Unsigned(k.0, 8), b.0), q))
  }

  /** `rose_dec_etsi_AOCDCurrency_ARG`, `rose_dec_etsi_AOCDChargingUnit_ARG`. */
  function DecDuring(buf: seq<byte>, pos: nat, end: nat, tag: nat, money: bool): Option<(During, nat)>
    requires end <= |buf|
  {
    if tag == NULL || tag == 0x81 then
      var q :- DecNull(buf, pos, end);
      Some((if tag == NULL then DuringNotAvailable else DuringFree, q))
    else if tag == SEQUENCE then DecDuringSpecific(buf, pos, end, money)
    else None
  }

  /** The inner SEQUENCE of the AOC-E decoders: its length is read against `outer`, the end of the
      whole component, and only an indefinite one is held to `limit`. */
  function OpenInner(buf: seq<byte>, pos: nat, outer: nat, limit: nat): (r: Option<Frame>)
    requires limit <= outer <= |buf|
    ensures r.Some? ==> pos < r.value.pos && r.value.end <= outer
    ensures r.Some? && !r.value.indefinite ==> r.value.pos <= r.value.end
  {
    var l :- DecLength(buf, pos, outer);
    if l.0 < 0 then Some(Frame(l.1, limit, true)) else Some(Frame(l.1, l.1 + l.0, false))
  }

  function DecSpecific(buf: seq<byte>, pos: nat, outer: nat, limit: nat, money: bool): (r: Option<(Specific, nat)>)
    requires limit <= outer <= |buf|
  {
    var f :- OpenInner(buf, pos, outer, limit);
    var x :- TakeRecorded(buf, f.pos, f.end, money);
    var b :- TakeOptInt(buf, x.1, f.end, 0x82);
    var q :- Finish(buf, b.1, f, limit);
    Some((Specific(x.0, b.0), q))
  }

  function TakeSpecific(buf: seq<byte>, pos: nat, outer: nat, limit: nat, money: bool)
    : (r: Option<(Option<Specific>, nat)>)
    requires limit <= outer <= |buf|
  {
    var t :- DecTag(buf, pos, limit);
    if t.0 == 0x81 then
      var q :- DecNull(buf, t.1, limit);
      Some((None, q))
    else if t.0 == SEQUENCE then
      var s :- DecSpecific(buf, t.1, outer, limit, money);
      Some((Some(s.0), s.1))
    else None
  }

  /** `rose_dec_etsi_AOCECurrencyInfo`, `rose_dec_etsi_AOCEChargingUnitInfo`. */
  function DecEnd(buf: seq<byte>, pos: nat, end: nat, money: bool): Option<(EndInfo, nat)>
    requires end <= |buf|
  {
    var f :- Open(buf, pos, end);
    var s :- TakeSpecific(buf, f.pos, end, f.end, money);
    var a :- TakeOptAssociation(buf, s.1, f.end);
    var q :- Finish(buf, a.1, f, end);
    Some((EndInfo(s.0, a.0), q))
  }

  // ------------------------------------------------------------------ the record loops

  function Behind<T>(done: seq<T>, x: Option<(seq<T>, nat)>): Option<(seq<T>, nat)> {
    match x
    case None => None
    case Some(v) => Some((done + v.0, v.1))
  }

  lemma NothingBehind<T>(x: Option<(seq<T>, nat)>)
    ensures Behind([], x) == x
  {
    assert x.Some? ==> [] + x.value.0 == x.value.0;
  }

  lemma UnitsStep(buf: seq<byte>, pos: nat, end: nat, room: nat, done: seq<RecordedUnits>)
    requires end <= |buf|
    ensures Behind(done, TakeUnits(buf, pos, end, room)) ==
            if !More(buf, pos, end) then Some((done, pos))
            else if room == 0 then None
            else
              match TakeTag(buf, pos, end, SEQUENCE)
              case None => None
              case Some(p) =>
                match DecUnits(buf, p, end)
                case None => None
                case Some(x) => Behind(done + [x.0], TakeUnits(buf, x.1, end, room - 1))
  {
    hide TakeTag, DecUnits;
    assert done + [] == done;
    if More(buf, pos, end) && room > 0 {
      var p := TakeTag(buf, pos, end, SEQUENCE);
      if p.Some? {
        var x := DecUnits(buf, p.value, end);
        if x.Some? {
          var rest := TakeUnits(buf, x.value.1, end, room - 1);
          if rest.Some? {
            assert done + ([x.value.0] + rest.value.0) == done + [x.value.0] + rest.value.0;
          }
        }
      }
    }
  }

  /** `rose_dec_etsi_AOC_RecordedUnitsList`. */
  method DecodeUnitsList(buf: seq<byte>, start: nat, end: nat) returns (r: Option<(seq<RecordedUnits>, nat)>)
    requires end <= |buf|
    ensures r == DecUnitsList(buf, start, end)
  {
    hide TakeTag, DecUnits, TakeUnits, More, Open, Finish;
    var f := Open(buf, start, end);
    if f == None { return None; }
    var pos := f.value.pos;
    var stop := f.value.end;
    var list: seq<RecordedUnits> := [];
    ghost var goal := Behind([], TakeUnits(buf, pos, stop, MAX_RECORDED_UNITS));
    NothingBehind(TakeUnits(buf, pos, stop, MAX_RECORDED_UNITS));
    while More(buf, pos, stop)
      invariant |list| <= MAX_RECORDED_UNITS
      invariant Behind(list, TakeUnits(buf, pos, stop, MAX_RECORDED_UNITS - |list|)) == goal
      decreases MAX_RECORDED_UNITS - |list|
    {
      UnitsStep(buf, pos, stop, MAX_RECORDED_UNITS - |list|, list);
      if |list| >= MAX_RECORDED_UNITS { return None; }
      var p := TakeTag(buf, pos, stop, SEQUENCE);
      if p == None { return None; }
      var x := DecUnits(buf, p.value, stop);
      if x == None { return None; }
      list := list + [x.value.0];
      pos := x.value.1;
    }
    UnitsStep(buf, pos, stop, MAX_RECORDED_UNITS - |list|, list);
    var q := Finish(buf, pos, f.value, end);
    if q == None { return None; }
    return Some((list, q.value));
  }
}
