/** ROSE messages with ETSI advice-of-charge arguments (libpri/rose.c): invoke, result, error and
    reject components. */
module Rose {
  import opened Common
  import opened Asn1
  import opened Asn1Build
  import opened RoseAddress
  import opened RoseAoc
  import opened RoseTables
  import opened RoseWire

  const OBJECT_IDENTIFIER: byte := 6

  datatype Argument =
    | ChargingRequest(chargingCase: int)
    | AOCSCurrency(infos: Option<seq<CurrencyInfo>>)
    | AOCSSpecialArr(arrangement: Option<int>)
    | AOCDCurrency(during: During)
    | AOCDChargingUnit(during: During)
    | AOCECurrency(info: Option<EndInfo>)
    | AOCEChargingUnit(info: Option<EndInfo>)
    | UnknownArgument

  datatype ChargingResult =
    | CurrencyList(list: seq<CurrencyInfo>)
    | SpecialArrangement(arrangement: int)
    | InfoFollows

  /** Only ChargingRequest has result arguments. */
  datatype Outcome =
    | NoOperation
    | ChargingRequestResult(result: ChargingResult)
    | Bare(operation: Operation)

  datatype Message =
    | Invoke(id: int, linked: Option<int>, arg: Argument)
    | Result(id: int, outcome: Outcome)
    | Error(id: int, code: ErrorCode)
    | Reject(optId: Option<int>, problem: int)

  function OperationOf(a: Argument): Operation {
    match a
    case ChargingRequest(_) => OpChargingRequest
    case AOCSCurrency(_) => OpAOCSCurrency
    case AOCSSpecialArr(_) => OpAOCSSpecialArr
    case AOCDCurrency(_) => OpAOCDCurrency
    case AOCDChargingUnit(_) => OpAOCDChargingUnit
    case AOCECurrency(_) => OpAOCECurrency
    case AOCEChargingUnit(_) => OpAOCEChargingUnit
    case UnknownArgument => OpUnknown
  }

  function OutcomeOperation(o: Outcome): Operation
    requires !o.NoOperation?
  {
    if o.Bare? then o.operation else OpChargingRequest
  }

  // ------------------------------------------------------------------ representable messages

  predicate ValidArgument(a: Argument) {
    match a
    case ChargingRequest(c) => IsU8(c)
    case AOCSCurrency(x) => x.Some? ==> ValidInfos(x.value)
    case AOCSSpecialArr(x) => OptU8(x)
    case AOCDCurrency(d) => ValidDuring(d) && (d.DuringSpecific? ==> d.recorded.Money?)
    case AOCDChargingUnit(d) => ValidDuring(d) && (d.DuringSpecific? ==> d.recorded.Units?)
    case AOCECurrency(x) =>
      x.Some? ==> ValidEnd(x.value) && (x.value.specific.Some? ==> x.value.specific.value.recorded.Money?)
    case AOCEChargingUnit(x) =>
      x.Some? ==> ValidEnd(x.value) && (x.value.specific.Some? ==> x.value.specific.value.recorded.Units?)
    case UnknownArgument => false
  }

  predicate ValidResult(r: ChargingResult) {
    match r
    case CurrencyList(list) => ValidInfos(list)
    case SpecialArrangement(x) => IsU8(x)
    case InfoFollows => true
  }

  predicate ValidMessage(m: Message) {
    match m
    case Invoke(id, linked, arg) => IsI16(id) && (linked.Some? ==> IsI16(linked.value)) && ValidArgument(arg)
    case Result(id, outcome) =>
      IsI16(id) && (outcome.ChargingRequestResult? ==> ValidResult(outcome.result))
      && (outcome.Bare? ==> outcome.operation != OpUnknown && outcome.operation != OpChargingRequest)
    case Error(id, code) => IsI16(id) && code != ErrorUnknown
    case Reject(id, problem) => (id.Some? ==> IsI16(id.value)) && 0 <= problem < 0x400
  }

  // ------------------------------------------------------------------ encoders

  /** `rose_enc_operation_value`, `rose_enc_error_value`. */
  function EncValue<C>(x: Entry<C>): Option<Tree> {
    match x.prefix
    case None => Some(IntTree(INTEGER, x.value))
    case Some(prefix) =>
      if |prefix| >= OID_MAX || !(0 <= x.value < 0x1_0000) then None
      else
        var oid: Oid := prefix + [x.value];
        Some(Prim(OBJECT_IDENTIFIER, EncOidBody(oid)))
  }

  function InfosTree(list: seq<CurrencyInfo>): Tree {
    Cons(SEQUENCE, InfoTrees(list))
  }

  /** The `rose_enc_etsi_*_ARG` functions of the table. */
  function EncArgument(a: Argument): Option<Tree> {
    match a
    case ChargingRequest(c) => Some(IntTree(ENUMERATED, c))
    case AOCSCurrency(x) => Some(match x case None => NullTree(NULL) case Some(list) => InfosTree(list))
    case AOCSSpecialArr(x) => Some(match x case None => NullTree(NULL) case Some(v) => IntTree(INTEGER, v))
    case AOCDCurrency(d) => Some(DuringTree(d))
    case AOCDChargingUnit(d) => Some(DuringTree(d))
    case AOCECurrency(x) => (match x case None => Some(NullTree(NULL)) case Some(info) => EncEnd(info))
    case AOCEChargingUnit(x) => (match x case None => Some(NullTree(NULL)) case Some(info) => EncEnd(info))
    case UnknownArgument => None
  }

  /** `rose_enc_etsi_ChargingRequest_RES`. */
  function ResultTree(r: ChargingResult): Tree {
    match r
    case CurrencyList(list) => InfosTree(list)
    case SpecialArrangement(x) => IntTree(INTEGER, x)
    case InfoFollows => NullTree(NULL)
  }

  function ResultTrees(o: Outcome): seq<Tree> {
    if o.ChargingRequestResult? then [ResultTree(o.result)] else []
  }

  /** `rose_encode_invoke`. */
  function EncInvoke(m: Message): Option<Tree>
    requires m.Invoke?
  {
    var entry :- ByCode(ETSI_MSGS, OperationOf(m.arg));
    var value :- EncValue(entry);
    var arg :- EncArgument(m.arg);
    Some(Cons(0xA1, [IntTree(INTEGER, m.id)] + (OptInt(0x80, m.linked) + ([value] + [arg]))))
  }

  function EncOutcome(o: Outcome): Option<seq<Tree>> {
    if o.NoOperation? then Some([])
    else
      var entry :- ByCode(ETSI_MSGS, OutcomeOperation(o));
      var value :- EncValue(entry);
      Some([Cons(SEQUENCE, [value] + ResultTrees(o))])
  }

  /** `rose_encode_result`. */
  function EncResult(m: Message): Option<Tree>
    requires m.Result?
  {
    var rest :- EncOutcome(m.outcome);
    Some(Cons(0xA2, [IntTree(INTEGER, m.id)] + rest))
  }

  /** `rose_encode_error`. */
  function EncError(m: Message): Option<Tree>
    requires m.Error?
  {
    var entry :- ByCode(ETSI_ERRORS, m.code);
    var value :- EncValue(entry);
    Some(Cons(0xA3, [IntTree(INTEGER, m.id)] + [value]))
  }

  /** `rose_encode_reject`. */
  function EncReject(m: Message): Option<Tree>
    requires m.Reject?
  {
    var id := match m.optId case None => NullTree(NULL) case Some(v) => IntTree(INTEGER, v);
    if 0 <= m.problem < 0x400 then
      Some(Cons(0xA4, [id] + [IntTree(0x80 + m.problem / 0x100, m.problem % 0x100)]))
    else None
  }

  /** `rose_encode`. */
  function EncMessage(m: Message): Option<Tree> {
    match m
    case Invoke(_, _, _) => EncInvoke(m)
    case Result(_, _) => EncResult(m)
    case Error(_, _) => EncError(m)
    case Reject(_, _) => EncReject(m)
  }

  // ------------------------------------------------------------------ decoders

  /** The choice between a local value and an OID. An empty OID is searched for as local value 0. */
  function TakeValue(buf: seq<byte>, pos: nat, end: nat, tag: nat): (r: Option<(Wire, nat)>)
    requires end <= |buf|
    ensures r.Some? ==> r.value.0.oid == [] || r.value.0.local == 0
  {
    if tag == INTEGER then
      var x :- DecInt(buf, pos, end);
      Some((Wire([], Unsigned(x.0, 32)), x.1))
    else if tag == OBJECT_IDENTIFIER then
      var x :- DecOid(buf, pos, end);
      Some((Wire(x.0, 0), x.1))
    else None
  }

  /** AOCSCurrency and AOCSSpecialArr. */
  function DecSetup(buf: seq<byte>, pos: nat, end: nat, tag: nat, op: Operation): Option<(Argument, nat)>
    requires end <= |buf| && (op == OpAOCSCurrency || op == OpAOCSSpecialArr)
  {
    if tag == NULL then
      var q :- DecNull(buf, pos, end);
      Some((if op == OpAOCSCurrency then AOCSCurrency(None) else AOCSSpecialArr(None), q))
    else if tag == SEQUENCE && op == OpAOCSCurrency then
      var x :- DecInfos(buf, pos, end);
      Some((AOCSCurrency(Some(x.0)), x.1))
    else if tag == INTEGER && op == OpAOCSSpecialArr then
      var x :- DecInt(buf, pos, end);
      Some((AOCSSpecialArr(Some(Unsigned(x.0, 8))), x.1))
    else None
  }

  /** AOCECurrency and AOCEChargingUnit. */
  function DecEndArgument(buf: seq<byte>, pos: nat, end: nat, tag: nat, money: bool): Option<(Option<EndInfo>, nat)>
    requires end <= |buf|
  {
    if tag == NULL then
      var q :- DecNull(buf, pos, end);
      Some((None, q))
    else if tag == SEQUENCE then
      var x :- DecEnd(buf, pos, end, money);
      Some((Some(x.0), x.1))
    else None
  }

  /** The `rose_dec_etsi_*_ARG` functions of the table, after the tag octets. */
  function DecArgument(buf: seq<byte>, pos: nat, end: nat, tag: nat, op: Operation): Option<(Argument, nat)>
    requires end <= |buf| && op != OpUnknown
  {
    match op
    case OpChargingRequest =>
      if tag != ENUMERATED then None
      else
        var x :- DecInt(buf, pos, end);
        Some((ChargingRequest(Unsigned(x.0, 8)), x.1))
    case OpAOCSCurrency => DecSetup(buf, pos, end, tag, op)
    case OpAOCSSpecialArr => DecSetup(buf, pos, end, tag, op)
    case OpAOCDCurrency =>
      var x :- DecDuring(buf, pos, end, tag, true);
      Some((AOCDCurrency(x.0), x.1))
    case OpAOCDChargingUnit =>
      var x :- DecDuring(buf, pos, end, tag, false);
      Some((AOCDChargingUnit(x.0), x.1))
    case OpAOCECurrency =>
      var x :- DecEndArgument(buf, pos, end, tag, true);
      Some((AOCECurrency(x.0), x.1))
    case OpAOCEChargingUnit =>
      var x :- DecEndArgument(buf, pos, end, tag, false);
      Some((AOCEChargingUnit(x.0), x.1))
  }

  /** Any expected invoke arguments: none for an operation that is not in the table. */
  function TakeArgument(buf: seq<byte>, pos: nat, end: nat, found: Option<Entry<Operation>>): Option<(Argument, nat)>
    requires end <= |buf| && (found.Some? ==> found.value.code != OpUnknown)
  {
    if found == None then Some((UnknownArgument, pos))
    else
      var t :- DecTag(buf, pos, end);
      DecArgument(buf, t.1, end, t.0, found.value.code)
  }

  /** The optional linked id; the result carries the tag that follows, already read. */
  function TakeLinked(buf: seq<byte>, pos: nat, end: nat): Option<(Option<int>, nat, nat)>
    requires end <= |buf|
  {
    var t :- DecTag(buf, pos, end);
    if t.0 == 0x80 then
      var x :- DecInt(buf, t.1, end);
      var u :- DecTag(buf, x.1, end);
      Some((Some(ToInt16(x.0)), u.0, u.1))
    else Some((None, t.0, t.1))
  }

  lemma TableHasNoUnknown(w: Wire)
    ensures ByWire(ETSI_MSGS, w).Some? ==> ByWire(ETSI_MSGS, w).value.code != OpUnknown
  {
  }

  /** `rose_decode_invoke`, after the tag octets. */
  function DecInvoke(buf: seq<byte>, pos: nat, end: nat): Option<(Message, nat)>
    requires end <= |buf|
  {
    var f :- Open(buf, pos, end);
    var id :- TakeInt(buf, f.pos, f.end, INTEGER);
    var l :- TakeLinked(buf, id.1, f.end);
    var w :- TakeValue(buf, l.2, f.end, l.1);
    TableHasNoUnknown(w.0);
    var a :- TakeArgument(buf, w.1, f.end, ByWire(ETSI_MSGS, w.0));
    var q :- Finish(buf, a.1, f, end);
    Some((Invoke(ToInt16(id.0), l.0, a.0), q))
  }

  /** `rose_dec_etsi_ChargingRequest_RES`, after the tag octets. */
  function DecChargingResult(buf: seq<byte>, pos: nat, end: nat, tag: nat): Option<(ChargingResult, nat)>
    requires end <= |buf|
  {
    if tag == SEQUENCE then
      var x :- DecInfos(buf, pos, end);
      Some((CurrencyList(x.0), x.1))
    else if tag == INTEGER then
      var x :- DecInt(buf, pos, end);
      Some((SpecialArrangement(Unsigned(x.0, 8)), x.1))
    else if tag == NULL then
      var q :- DecNull(buf, pos, end);
      Some((InfoFollows, q))
    else None
  }

  /** Any expected result arguments. */
  function TakeResult(buf: seq<byte>, pos: nat, end: nat, found: Option<Entry<Operation>>): Option<(Outcome, nat)>
    requires end <= |buf|
  {
    if found == None then Some((Bare(OpUnknown), pos))
    else if found.value.code == OpChargingRequest then
      var t :- DecTag(buf, pos, end);
      var x :- DecChargingResult(buf, t.1, end, t.0);
      Some((ChargingRequestResult(x.0), x.1))
    else Some((Bare(found.value.code), pos))
  }

  /** The operation sequence of a result. */
  function DecOutcome(buf: seq<byte>, pos: nat, end: nat): Option<(Outcome, nat)>
    requires end <= |buf|
  {
    var f :- Open(buf, pos, end);
    var t :- DecTag(buf, f.pos, f.end);
    var w :- TakeValue(buf, t.1, f.end, t.0);
    var o :- TakeResult(buf, w.1, f.end, ByWire(ETSI_MSGS, w.0));
    var q :- Finish(buf, o.1, f, end);
    Some((o.0, q))
  }

  function TakeOutcome(buf: seq<byte>, pos: nat, end: nat): Option<(Outcome, nat)>
    requires end <= |buf|
  {
    if More(buf, pos, end) then
      var p :- TakeTag(buf, pos, end, SEQUENCE);
      DecOutcome(buf, p, end)
    else Some((NoOperation, pos))
  }

  /** `rose_decode_result`, after the tag octets. */
  function DecResult(buf: seq<byte>, pos: nat, end: nat): Option<(Message, nat)>
    requires end <= |buf|
  {
    var f :- Open(buf, pos, end);
    var id :- TakeInt(buf, f.pos, f.end, INTEGER);
    var o :- TakeOutcome(buf, id.1, f.end);
    var q :- Finish(buf, o.1, f, end);
    Some((Result(ToInt16(id.0), o.0), q))
  }

  /** `rose_decode_error`, after the tag octets. */
  function DecError(buf: seq<byte>, pos: nat, end: nat): Option<(Message, nat)>
    requires end <= |buf|
  {
    var f :- Open(buf, pos, end);
    var id :- TakeInt(buf, f.pos, f.end, INTEGER);
    var t :- DecTag(buf, id.1, f.end);
    var w :- TakeValue(buf, t.1, f.end, t.0);
    var found := ByWire(ETSI_ERRORS, w.0);
    var q :- Finish(buf, w.1, f, end);
    Some((Error(ToInt16(id.0), if found == None then ErrorUnknown else found.value.code), q))
  }

  function TakeRejectId(buf: seq<byte>, pos: nat, end: nat): Option<(Option<int>, nat)>
    requires end <= |buf|
  {
    var t :- DecTag(buf, pos, end);
    if t.0 == INTEGER then
      var x :- DecInt(buf, t.1, end);
      Some((Some(ToInt16(x.0)), x.1))
    else if t.0 == NULL then
      var q :- DecNull(buf, t.1, end);
      Some((None, q))
    else None
  }

  /** `rose_decode_reject`, after the tag octets. */
  function DecReject(buf: seq<byte>, pos: nat, end: nat): Option<(Message, nat)>
    requires end <= |buf|
  {
    var f :- Open(buf, pos, end);
    var id :- TakeRejectId(buf, f.pos, f.end);
    var t :- DecTag(buf, id.1, f.end);
    if !(0x80 <= t.0 <= 0x83) then None
    else
      var x :- DecInt(buf, t.1, f.end);
      var q :- Finish(buf, x.1, f, end);
      Some((Reject(id.0, (t.0 - 0x80) * 0x100 + x.0 % 0x100), q))
  }

  /** `rose_decode`. */
  function Decode(buf: seq<byte>, pos: nat, end: nat): Option<(Message, nat)>
    requires end <= |buf|
  {
    var t :- DecTag(buf, pos, end);
    if t.0 == 0xA1 then DecInvoke(buf, t.1, end)
    else if t.0 == 0xA2 then DecResult(buf, t.1, end)
    else if t.0 == 0xA3 then DecError(buf, t.1, end)
    else if t.0 == 0xA4 then DecReject(buf, t.1, end)
    else None
  }
}
