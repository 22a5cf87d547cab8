/** The ROSE round trip: every representable message comes back from every encoding of it. */
module RoseDecodes {
  import opened Common
  import opened Asn1
  import opened Asn1Build
  import opened Asn1Codec
  import opened Asn1Primitive
  import opened Rose
  import opened RoseAddress
  import opened RoseAoc
  import opened RoseAocDecodes
  import opened RoseTables
  import opened RoseWire

  lemma SeesOid(buf: seq<byte>, p: nat, q: nat, end: nat, oid: Oid)
    requires |oid| <= OID_MAX && Stands(buf, p, q, Prim(OBJECT_IDENTIFIER, EncOidBody(oid))) && q <= end <= |buf|
    ensures DecOid(buf, p + 1, end) == Some((oid, q))
  {
    hide DecLength, Stands, EncOidBody, DecOidBody;
    var m := SeesPrim(buf, p, q, end, Prim(OBJECT_IDENTIFIER, EncOidBody(oid)));
    OidBodyRoundTrip(oid);
  }

  /** The value of a table entry, local or OID. */
  lemma ValueTaken<C>(buf: seq<byte>, p: nat, q: nat, end: nat, x: Entry<C>)
    requires 0 <= x.value < 0x1_0000 && EncValue(x).Some?
    requires Stands(buf, p, q, EncValue(x).value) && q <= end <= |buf|
    ensures PlainTag(EncValue(x).value) && DecTag(buf, p, end) == Some((TagOf(EncValue(x).value), p + 1))
    ensures TagOf(EncValue(x).value) != 0x80
    ensures TakeValue(buf, p + 1, end, TagOf(EncValue(x).value)) == Some((WireOf(x), q))
  {
    hide Stands, DecTag, DecInt, DecOid, EncIntBody, EncOidBody;
    SeesTag(buf, p, q, end, EncValue(x).value);
    match x.prefix
    case None => SeesInt(buf, p, q, end, INTEGER, x.value);
    case Some(prefix) => SeesOid(buf, p, q, end, prefix + [x.value]);
  }

  // ------------------------------------------------------------------ arguments

  lemma SetupDecodes(buf: seq<byte>, p: nat, q: nat, end: nat, a: Argument)
    requires (a.AOCSCurrency? || a.AOCSSpecialArr?) && ValidArgument(a)
    requires Stands(buf, p, q, EncArgument(a).value) && q <= end <= |buf|
    ensures PlainTag(EncArgument(a).value)
    ensures DecSetup(buf, p + 1, end, TagOf(EncArgument(a).value), OperationOf(a)) == Some((a, q))
  {
    hide Stands, DecInt, DecNull, DecInfos, EncIntBody, ValidInfo;
    match a
    case AOCSCurrency(x) =>
      if x.Some? { InfosDecode(buf, p, q, end, x.value); } else { SeesNull(buf, p, q, end, NULL); }
    case AOCSSpecialArr(x) =>
      if x.Some? { SeesInt(buf, p, q, end, INTEGER, x.value); } else { SeesNull(buf, p, q, end, NULL); }
  }

  lemma EndArgumentDecodes(buf: seq<byte>, p: nat, q: nat, end: nat, x: Option<EndInfo>, money: bool, t: Tree)
    requires x.Some? ==>
               ValidEnd(x.value) && (x.value.specific.Some? ==> x.value.specific.value.recorded.Money? == money)
    requires Some(t) == match x case None => Some(NullTree(NULL)) case Some(info) => EncEnd(info)
    requires Stands(buf, p, q, t) && q <= end <= |buf|
    ensures PlainTag(t) && DecEndArgument(buf, p + 1, end, TagOf(t), money) == Some((x, q))
  {
    hide Stands, DecNull, DecEnd, ValidEnd;
    if x.Some? {
      EndDecodes(buf, p, q, end, x.value, money);
    } else {
      SeesNull(buf, p, q, end, NULL);
    }
  }

  /** The argument of every operation. */
  lemma ArgumentDecodes(buf: seq<byte>, p: nat, q: nat, end: nat, a: Argument)
    requires ValidArgument(a) && EncArgument(a).Some?
    requires Stands(buf, p, q, EncArgument(a).value) && q <= end <= |buf|
    ensures PlainTag(EncArgument(a).value)
    ensures DecArgument(buf, p + 1, end, TagOf(EncArgument(a).value), OperationOf(a)) == Some((a, q))
  {
    hide Stands, DecInt, DecSetup, DecDuring, DecEndArgument, EncIntBody, ValidDuring, ValidEnd, DuringTree, EncEnd,
         ValidInfos;
    match a
    case ChargingRequest(c) => SeesInt(buf, p, q, end, ENUMERATED, c);
    case AOCSCurrency(_) => SetupDecodes(buf, p, q, end, a);
    case AOCSSpecialArr(_) => SetupDecodes(buf, p, q, end, a);
    case AOCDCurrency(d) => DuringDecodes(buf, p, q, end, d, true);
    case AOCDChargingUnit(d) => DuringDecodes(buf, p, q, end, d, false);
    case AOCECurrency(x) => EndArgumentDecodes(buf, p, q, end, x, true, EncArgument(a).value);
    case AOCEChargingUnit(x) => EndArgumentDecodes(buf, p, q, end, x, false, EncArgument(a).value);
  }

  // ------------------------------------------------------------------ components

  /** The optional linked id, and the tag of the operation value behind it. */
  lemma LinkedTaken(buf: seq<byte>, p: nat, m: nat, end: nat, linked: Option<int>, tag: byte)
    requires linked.Some? ==> IsI16(linked.value)
    requires StandAll(buf, p, m, OptInt(0x80, linked)) && m <= end <= |buf|
    requires DecTag(buf, m, end) == Some((tag, m + 1)) && tag != 0x80
    ensures TakeLinked(buf, p, end) == Some((linked, tag, m + 1))
  {
    hide Stands, DecTag, DecInt, EncIntBody;
    if linked.Some? {
      Last(buf, p, m, IntTree(0x80, linked.value));
      SeesTag(buf, p, m, end, IntTree(0x80, linked.value));
      SeesInt(buf, p, m, end, 0x80, linked.value);
    }
  }

  lemma SplitOpt(buf: seq<byte>, p: nat, q: nat, x: Option<int>, rest: seq<Tree>) returns (m: nat)
    requires StandAll(buf, p, q, OptInt(0x80, x) + rest)
    ensures p <= m <= q && q <= |buf| && StandAll(buf, p, m, OptInt(0x80, x)) && StandAll(buf, m, q, rest)
  {
    hide Stands;
    if x.Some? {
      var t := IntTree(0x80, x.value);
      m := Split(buf, p, q, t, rest);
      assert [t][0] == t && [t][1..] == [];
      assert StandAll(buf, m, m, []);
    } else {
      assert [] + rest == rest;
      m := p;
    }
  }

  lemma InvokeEncodes(m: Message) returns (value: Tree, arg: Tree, entry: Entry<Operation>)
    requires m.Invoke? && EncInvoke(m).Some?
    ensures ByCode(ETSI_MSGS, OperationOf(m.arg)) == Some(entry) && EncValue(entry) == Some(value)
            && EncArgument(m.arg) == Some(arg)
    ensures EncInvoke(m).value == Cons(0xA1, [IntTree(INTEGER, m.id)] + (OptInt(0x80, m.linked) + ([value] + [arg])))
  {
    hide ByCode, EncValue, EncArgument;
    entry := ByCode(ETSI_MSGS, OperationOf(m.arg)).value;
    value := EncValue(entry).value;
    arg := EncArgument(m.arg).value;
  }

  lemma InvokeDecodes(buf: seq<byte>, p: nat, q: nat, end: nat, m: Message)
    requires m.Invoke? && ValidMessage(m) && EncInvoke(m).Some?
    requires Stands(buf, p, q, EncInvoke(m).value) && q <= end <= |buf|
    ensures DecInvoke(buf, p + 1, end) == Some((m, q))
  {
    hide Stands, StandAll, Open, Finish, More, TakeInt, TakeLinked, TakeValue, DecTag, DecArgument, EncInvoke,
         EncArgument, EncValue, ByCode, ByWire, ValidArgument, OptInt, EncIntBody;
    var value, arg, entry := InvokeEncodes(m);
    var f, e := Enters(buf, p, q, end, EncInvoke(m).value);
    var i := Split(buf, f.pos, e, IntTree(INTEGER, m.id), OptInt(0x80, m.linked) + ([value] + [arg]));
    SeesInt(buf, f.pos, i, f.end, INTEGER, m.id);
    var j := SplitOpt(buf, i, e, m.linked, [value] + [arg]);
    var k := Split(buf, j, e, value, [arg]);
    ArgumentKnown(m.arg);
    OperationsInvert(OperationOf(m.arg));
    ValueTaken(buf, j, k, f.end, entry);
    LinkedTaken(buf, i, j, f.end, m.linked, TagOf(value));
    Last(buf, k, e, arg);
    ArgumentDecodes(buf, k, e, f.end, m.arg);
    SeesTag(buf, k, e, f.end, arg);
  }

  lemma ArgumentKnown(a: Argument)
    requires ValidArgument(a)
    ensures OperationOf(a) != OpUnknown
  {
  }

  lemma ChargingResultDecodes(buf: seq<byte>, p: nat, q: nat, end: nat, r: ChargingResult)
    requires ValidResult(r) && Stands(buf, p, q, ResultTree(r)) && q <= end <= |buf|
    ensures PlainTag(ResultTree(r)) && DecChargingResult(buf, p + 1, end, TagOf(ResultTree(r))) == Some((r, q))
  {
    hide Stands, DecInt, DecNull, DecInfos, EncIntBody, ValidInfo;
    match r
    case CurrencyList(list) => InfosDecode(buf, p, q, end, list);
    case SpecialArrangement(x) => SeesInt(buf, p, q, end, INTEGER, x);
    case InfoFollows => SeesNull(buf, p, q, end, NULL);
  }

  lemma ResultTaken(buf: seq<byte>, p: nat, e: nat, end: nat, o: Outcome, entry: Entry<Operation>)
    requires !o.NoOperation? && ValidMessage(Result(0, o)) && entry.code == OutcomeOperation(o)
    requires StandAll(buf, p, e, ResultTrees(o)) && e <= end <= |buf|
    ensures TakeResult(buf, p, end, Some(entry)) == Some((o, e))
  {
    hide Stands, DecTag, DecChargingResult, ResultTree, ValidResult;
    if o.ChargingRequestResult? {
      Last(buf, p, e, ResultTree(o.result));
      ChargingResultDecodes(buf, p, e, end, o.result);
      SeesTag(buf, p, e, end, ResultTree(o.result));
    } else {
      NoneLeft(buf, p, e);
    }
  }

  lemma OutcomeDecodes(buf: seq<byte>, p: nat, q: nat, end: nat, o: Outcome)
    requires !o.NoOperation? && ValidMessage(Result(0, o)) && EncOutcome(o).Some?
    requires Stands(buf, p, q, EncOutcome(o).value[0]) && q <= end <= |buf|
    ensures DecOutcome(buf, p + 1, end) == Some((o, q))
  {
    hide Stands, StandAll, Open, Finish, More, TakeValue, DecTag, TakeResult, EncValue, ByCode, ByWire, ResultTrees,
         ValidResult;
    var op := OutcomeOperation(o);
    var entry := ByCode(ETSI_MSGS, op).value;
    var value := EncValue(entry).value;
    var f, e := Enters(buf, p, q, end, EncOutcome(o).value[0]);
    var k := Split(buf, f.pos, e, value, ResultTrees(o));
    OperationsInvert(op);
    ValueTaken(buf, f.pos, k, f.end, entry);
    ResultTaken(buf, k, e, f.end, o, entry);
  }

  lemma OutcomeTaken(buf: seq<byte>, p: nat, e: nat, end: nat, o: Outcome)
    requires ValidMessage(Result(0, o)) && EncOutcome(o).Some? && StandAll(buf, p, e, EncOutcome(o).value)
    requires e <= end <= |buf| && !More(buf, e, end)
    ensures TakeOutcome(buf, p, end) == Some((o, e))
  {
    hide Stands, DecTag, DecOutcome, EncValue, ByCode, ValidResult;
    if !o.NoOperation? {
      Last(buf, p, e, EncOutcome(o).value[0]);
      OutcomeDecodes(buf, p, e, end, o);
      SeesTag(buf, p, e, end, EncOutcome(o).value[0]);
    }
  }

  lemma ResultDecodes(buf: seq<byte>, p: nat, q: nat, end: nat, m: Message)
    requires m.Result? && ValidMessage(m) && EncResult(m).Some?
    requires Stands(buf, p, q, EncResult(m).value) && q <= end <= |buf|
    ensures DecResult(buf, p + 1, end) == Some((m, q))
  {
    hide Stands, StandAll, Open, Finish, More, TakeInt, TakeOutcome, EncOutcome, ValidResult, EncIntBody;
    var f, e := Enters(buf, p, q, end, EncResult(m).value);
    var i := Split(buf, f.pos, e, IntTree(INTEGER, m.id), EncOutcome(m.outcome).value);
    SeesInt(buf, f.pos, i, f.end, INTEGER, m.id);
    OutcomeTaken(buf, i, e, f.end, m.outcome);
  }

  lemma ErrorDecodes(buf: seq<byte>, p: nat, q: nat, end: nat, m: Message)
    requires m.Error? && ValidMessage(m) && EncError(m).Some?
    requires Stands(buf, p, q, EncError(m).value) && q <= end <= |buf|
    ensures DecError(buf, p + 1, end) == Some((m, q))
  {
    hide Stands, StandAll, Open, Finish, More, TakeInt, TakeValue, DecTag, EncValue, ByCode, ByWire, EncIntBody;
    var entry := ByCode(ETSI_ERRORS, m.code).value;
    var f, e := Enters(buf, p, q, end, EncError(m).value);
    var i := Split(buf, f.pos, e, IntTree(INTEGER, m.id), [EncValue(entry).value]);
    SeesInt(buf, f.pos, i, f.end, INTEGER, m.id);
    Last(buf, i, e, EncValue(entry).value);
    ErrorsInvert(m.code);
    ValueTaken(buf, i, e, f.end, entry);
  }

  lemma RejectIdTaken(buf: seq<byte>, p: nat, q: nat, end: nat, id: Option<int>)
    requires id.Some? ==> IsI16(id.value)
    requires Stands(buf, p, q, match id case None => NullTree(NULL) case Some(v) => IntTree(INTEGER, v))
             && q <= end <= |buf|
    ensures TakeRejectId(buf, p, end) == Some((id, q))
  {
    hide Stands, DecTag, DecInt, DecNull, EncIntBody;
    match id
    case None =>
      SeesTag(buf, p, q, end, NullTree(NULL));
      SeesNull(buf, p, q, end, NULL);
    case Some(v) =>
      SeesTag(buf, p, q, end, IntTree(INTEGER, v));
      SeesInt(buf, p, q, end, INTEGER, v);
  }

  lemma RejectDecodes(buf: seq<byte>, p: nat, q: nat, end: nat, m: Message)
    requires m.Reject? && ValidMessage(m) && Stands(buf, p, q, EncReject(m).value) && q <= end <= |buf|
    ensures DecReject(buf, p + 1, end) == Some((m, q))
  {
    hide Stands, StandAll, Open, Finish, More, TakeRejectId, DecTag, DecInt, EncIntBody;
    var f, e := Enters(buf, p, q, end, EncReject(m).value);
    var id := match m.optId case None => NullTree(NULL) case Some(v) => IntTree(INTEGER, v);
    var base, low := m.problem / 0x100, m.problem % 0x100;
    var i := Split(buf, f.pos, e, id, [IntTree(0x80 + base, low)]);
    RejectIdTaken(buf, f.pos, i, f.end, m.optId);
    Last(buf, i, e, IntTree(0x80 + base, low));
    SeesTag(buf, i, e, f.end, IntTree(0x80 + base, low));
    SeesInt(buf, i, e, f.end, 0x80 + base, low);
  }

  // ------------------------------------------------------------------ the round trip

  lemma ArgumentEncodes(a: Argument)
    requires ValidArgument(a)
    ensures EncArgument(a).Some?
  {
    hide ValidInfos, ValidDuring, ValidEnd;
    match a
    case AOCECurrency(x) => if x.Some? { EndEncodes(x.value); }
    case AOCEChargingUnit(x) => if x.Some? { EndEncodes(x.value); }
    case _ =>
  }

  lemma InvokeHasEncoding(m: Message)
    requires m.Invoke? && ValidArgument(m.arg)
    ensures EncInvoke(m).Some?
  {
    hide ByCode, ByWire, ValidArgument, EncArgument;
    ArgumentKnown(m.arg);
    OperationsInvert(OperationOf(m.arg));
    ArgumentEncodes(m.arg);
  }

  lemma ResultHasEncoding(m: Message)
    requires m.Result? && ValidMessage(m)
    ensures EncResult(m).Some?
  {
    hide ByCode, ByWire, ValidResult;
    if !m.outcome.NoOperation? { OperationsInvert(OutcomeOperation(m.outcome)); }
  }

  lemma ErrorHasEncoding(m: Message)
    requires m.Error? && ValidMessage(m)
    ensures EncError(m).Some?
  {
    hide ByCode, ByWire;
    ErrorsInvert(m.code);
  }

  lemma RejectHasEncoding(m: Message)
    requires m.Reject? && ValidMessage(m)
    ensures EncReject(m).Some?
  {
  }

  lemma ComponentTags(m: Message)
    requires EncMessage(m).Some?
    ensures EncMessage(m).value.Cons? && PlainTag(EncMessage(m).value)
    ensures TagOf(EncMessage(m).value) ==
            match m case Invoke(_, _, _) => 0xA1 case Result(_, _) => 0xA2 case Error(_, _) => 0xA3
                case Reject(_, _) => 0xA4
  {
    hide ByCode, EncValue, EncArgument, EncOutcome;
  }

  /** Every representable message has an encoding. */
  lemma MessageEncodes(m: Message)
    requires ValidMessage(m)
    ensures EncMessage(m).Some?
  {
    hide EncInvoke, EncResult, EncError, EncReject, ValidArgument;
    match m
    case Invoke(_, _, arg) => InvokeHasEncoding(m);
    case Result(_, o) => ResultHasEncoding(m);
    case Error(_, code) => ErrorHasEncoding(m);
    case Reject(_, _) => RejectHasEncoding(m);
  }

  /** `rose_decode` after `rose_encode` is the identity, whichever length form each constructed node
      of the octets uses, and the whole component is consumed. */
  lemma MessageRoundTrip(buf: seq<byte>, p: nat, q: nat, end: nat, m: Message)
    requires ValidMessage(m) && q <= end <= |buf|
    requires EncMessage(m).Some? && Stands(buf, p, q, EncMessage(m).value)
    ensures Decode(buf, p, end) == Some((m, q))
  {
    hide Stands, DecTag, DecInvoke, DecResult, DecError, DecReject, EncInvoke, EncResult, EncError, EncReject,
         ValidMessage;
    ComponentTags(m);
    SeesTag(buf, p, q, end, EncMessage(m).value);
    match m
    case Invoke(_, _, _) => InvokeDecodes(buf, p, q, end, m);
    case Result(_, _) => ResultDecodes(buf, p, q, end, m);
    case Error(_, _) => ErrorDecodes(buf, p, q, end, m);
    case Reject(_, _) =>
      RejectHasEncoding(m);
      RejectDecodes(buf, p, q, end, m);
  }

  /** `rose_encode` into a buffer: it succeeds exactly when the message has an encoding and the octets
      fit, it writes nowhere else, and decoding what it wrote gives the message back. */
  method Encode(a: array<byte>, pos: nat, end: nat, m: Message) returns (r: Option<nat>)
    requires pos <= end <= a.Length && a.Length < 0x8000_0000
    modifies a
    ensures r.Some? <==> EncMessage(m).Some? && pos + |Ser(EncMessage(m).value)| <= end
    ensures r.Some? ==> pos < r.value <= end && a[..] == Put(old(a[..]), pos, Ser(EncMessage(m).value))
    ensures r.Some? && ValidMessage(m) ==> Decode(a[..], pos, end) == Some((m, r.value))
    ensures r.None? ==> a[..pos] == old(a[..pos]) && a[end..] == old(a[end..])
  {
    hide Decode, ValidMessage, EncMessage, Stands, Ser;
    var t := EncMessage(m);
    if t == None { return None; }
    r := Build(a, pos, end, t.value);
    if r.Some? {
      SerStands(a[..], pos, t.value);
      if ValidMessage(m) {
        MessageRoundTrip(a[..], pos, r.value, end, m);
      }
    }
  }

  // ------------------------------------------------------------------ the AOC-E total

  function Sum(list: seq<RecordedUnits>): int {
    if list == [] then 0 else (if list[0].units.Some? then list[0].units.value else 0) + Sum(list[1..])
  }

  lemma {:induction false} SumSplits(list: seq<RecordedUnits>, i: nat)
    requires i < |list|
    ensures Sum(list[i..]) == (if list[i].units.Some? then list[i].units.value else 0) + Sum(list[i + 1..])
  {
    assert list[i..][1..] == list[i + 1..];
  }

  lemma {:induction false} SumBound(list: seq<RecordedUnits>)
    requires forall i :: 0 <= i < |list| ==> ValidUnits(list[i])
    ensures 0 <= Sum(list) <= |list| * 0xFFFF_FFFF
    decreases |list|
  {
    if list != [] { SumBound(list[1..]); }
  }

  /** The charged units of an AOC-E invoke: nothing unless it carries recorded units. */
  function ChargedUnits(m: Message): int {
    if m.Invoke? && m.arg.AOCEChargingUnit? && m.arg.info.Some? && m.arg.info.value.specific.Some?
       && m.arg.info.value.specific.value.recorded.Units?
    then Sum(m.arg.info.value.specific.value.recorded.list)
    else 0
  }

  /** The adding loop of `rose_handle_invoke`, from the last record to the first. */
  method AddUnits(list: seq<RecordedUnits>) returns (units: int)
    ensures units == Sum(list)
  {
    units := 0;
    var index := |list|;
    while index > 0
      invariant 0 <= index <= |list| && units == Sum(list[index..])
    {
      index := index - 1;
      SumSplits(list, index);
      if list[index].units.Some? {
        units := units + list[index].units.value;
      }
    }
    assert list[0..] == list;
  }

  /** What the handler adds up for the decoded message is the sum of the units encoded, and it fits
      the 64-bit `long` it is kept in. */
  lemma TotalSurvives(buf: seq<byte>, p: nat, q: nat, end: nat, m: Message)
    requires ValidMessage(m) && q <= end <= |buf|
    requires EncMessage(m).Some? && Stands(buf, p, q, EncMessage(m).value)
    ensures Decode(buf, p, end).Some? && ChargedUnits(Decode(buf, p, end).value.0) == ChargedUnits(m)
    ensures 0 <= ChargedUnits(m) <= MAX_RECORDED_UNITS * 0xFFFF_FFFF
  {
    hide Decode, EncMessage, Stands;
    MessageRoundTrip(buf, p, q, end, m);
    if ChargedUnits(m) != 0 {
      SumBound(m.arg.info.value.specific.value.recorded.list);
    }
  }
}
