/** Operation-value and error-value tables (libpri/rose.c): searching by library code and searching
    by the value on the wire undo each other on any table without duplicates. */
module RoseTables {
  import opened Common
  import opened Asn1

  /** `prefix` is absent for a localValue; otherwise the wire value is an OID ending in `value`. */
  datatype Entry<C> = Entry(code: C, prefix: Option<Oid>, value: int)

  /** What stands on the wire for an entry: an OID, or a local value with an empty OID. */
  datatype Wire = Wire(oid: seq<int>, local: int)

  function WireOf<C>(x: Entry<C>): Wire {
    match x.prefix
    case None => Wire([], x.value)
    case Some(prefix) => Wire(prefix + [x.value], 0)
  }

  /** The match in the search by value. */
  predicate Matches<C>(x: Entry<C>, w: Wire) {
    if w.oid == [] then x.prefix == None && x.value == w.local
    else x.prefix.Some? && x.value == w.oid[|w.oid| - 1] && x.prefix.value == w.oid[..|w.oid| - 1]
  }

  /** First entry with that code (`rose_find_msg_by_op_code`, `rose_find_error_by_op_code`). */
  function ByCode<C(==)>(table: seq<Entry<C>>, code: C): (r: Option<Entry<C>>)
    ensures r.Some? ==> r.value in table && r.value.code == code
    ensures r == None ==> forall i :: 0 <= i < |table| ==> table[i].code != code
  {
    if table == [] then None
    else if table[0].code == code then Some(table[0])
    else ByCode(table[1..], code)
  }

  /** First entry with that wire value (`rose_find_msg_by_op_val`, `rose_find_error_by_op_val`). */
  function ByWire<C>(table: seq<Entry<C>>, w: Wire): (r: Option<Entry<C>>)
    ensures r.Some? ==> r.value in table && Matches(r.value, w)
    ensures r == None ==> forall i :: 0 <= i < |table| ==> !Matches(table[i], w)
  {
    if table == [] then None
    else if Matches(table[0], w) then Some(table[0])
    else ByWire(table[1..], w)
  }

  predicate NoDuplicates<C(==)>(table: seq<Entry<C>>) {
    && (forall i, j :: 0 <= i < j < |table| ==> table[i].code != table[j].code)
    && (forall i, j :: 0 <= i < j < |table| ==> WireOf(table[i]) != WireOf(table[j]))
  }

  lemma MatchesIsWire<C>(x: Entry<C>, w: Wire)
    requires w.oid == [] || w.local == 0
    ensures Matches(x, w) <==> WireOf(x) == w
  {
    if w.oid != [] {
      assert w.oid == w.oid[..|w.oid| - 1] + [w.oid[|w.oid| - 1]];
      if x.prefix.Some? && WireOf(x) == w {
        assert (x.prefix.value + [x.value])[..|w.oid| - 1] == x.prefix.value;
      }
    }
  }

  /** The two searches are inverse. */
  lemma SearchesInvert<C>(table: seq<Entry<C>>, code: C, w: Wire)
    requires NoDuplicates(table) && (w.oid == [] || w.local == 0)
    ensures ByCode(table, code).Some? ==> ByWire(table, WireOf(ByCode(table, code).value)) == ByCode(table, code)
    ensures ByWire(table, w).Some? ==>
              ByCode(table, ByWire(table, w).value.code) == ByWire(table, w) && WireOf(ByWire(table, w).value) == w
  {
    var byCode := ByCode(table, code);
    if byCode.Some? {
      var v := WireOf(byCode.value);
      MatchesIsWire(byCode.value, v);
      var back := ByWire(table, v);
      var i :| 0 <= i < |table| && table[i] == byCode.value;
      assert Matches(table[i], v);
      var j :| 0 <= j < |table| && table[j] == back.value;
      MatchesIsWire(back.value, v);
      assert WireOf(table[i]) == WireOf(table[j]);
    }
    var byWire := ByWire(table, w);
    if byWire.Some? {
      MatchesIsWire(byWire.value, w);
      var i :| 0 <= i < |table| && table[i] == byWire.value;
      var back := ByCode(table, byWire.value.code);
      var j :| 0 <= j < |table| && table[j] == back.value;
      assert table[i].code == table[j].code;
    }
  }

  // ------------------------------------------------------------------ the search loops

  method FindByCode<C(==)>(table: seq<Entry<C>>, code: C) returns (r: Option<Entry<C>>)
    ensures r == ByCode(table, code)
  {
    var index := 0;
    while index < |table|
      invariant 0 <= index <= |table| && ByCode(table, code) == ByCode(table[index..], code)
    {
      if table[index].code == code { return Some(table[index]); }
      assert table[index..][1..] == table[index + 1..];
      index := index + 1;
    }
    return None;
  }

  /** The OID branch: the last subidentifier, then the prefix from its end to its start. */
  method SameOid<C>(x: Entry<C>, oid: seq<int>) returns (same: bool)
    requires oid != []
    ensures same <==> Matches(x, Wire(oid, 0))
  {
    if x.value != oid[|oid| - 1] || x.prefix.None? || |x.prefix.value| != |oid| - 1 { return false; }
    var sub: int := |oid| - 2;
    while sub >= 0
      invariant -1 <= sub <= |oid| - 2
      invariant forall k :: sub < k < |oid| - 1 ==> oid[k] == x.prefix.value[k]
    {
      if oid[sub] != x.prefix.value[sub] {
        assert oid[..|oid| - 1][sub] != x.prefix.value[sub];
        return false;
      }
      sub := sub - 1;
    }
    assert oid[..|oid| - 1] == x.prefix.value;
    return true;
  }

  method FindByWire<C>(table: seq<Entry<C>>, w: Wire) returns (r: Option<Entry<C>>)
    requires w.oid == [] || w.local == 0
    ensures r == ByWire(table, w)
  {
    var index := 0;
    while index < |table|
      invariant 0 <= index <= |table| && ByWire(table, w) == ByWire(table[index..], w)
    {
      var found: bool;
      if w.oid != [] {
        found := SameOid(table[index], w.oid);
      } else {
        found := table[index].value == w.local && table[index].prefix.None?;
      }
      if found { return Some(table[index]); }
      assert table[index..][1..] == table[index + 1..];
      index := index + 1;
    }
    return None;
  }

  // ------------------------------------------------------------------ the ETSI tables

  datatype Operation =
    | OpChargingRequest
    | OpAOCSCurrency
    | OpAOCSSpecialArr
    | OpAOCDCurrency
    | OpAOCDChargingUnit
    | OpAOCECurrency
    | OpAOCEChargingUnit
    | OpUnknown

  const ETSI_MSGS: seq<Entry<Operation>> :=
    [ Entry(OpChargingRequest, None, 30),
      Entry(OpAOCSCurrency, None, 31),
      Entry(OpAOCSSpecialArr, None, 32),
      Entry(OpAOCDCurrency, None, 33),
      Entry(OpAOCDChargingUnit, None, 34),
      Entry(OpAOCECurrency, None, 35),
      Entry(OpAOCEChargingUnit, None, 36) ]

  datatype ErrorCode =
    | NotSubscribed
    | NotAvailable
    | NotImplemented
    | InvalidServedUserNr
    | InvalidCallState
    | BasicServiceNotProvided
    | NotIncomingCall
    | InteractionNotAllowed
    | ResourceUnavailable
    | NoChargingInfoAvailable
    | ErrorUnknown

  const ETSI_ERRORS: seq<Entry<ErrorCode>> :=
    [ Entry(NotSubscribed, None, 0),
      Entry(NotAvailable, None, 3),
      Entry(NotImplemented, None, 4),
      Entry(InvalidServedUserNr, None, 6),
      Entry(InvalidCallState, None, 7),
      Entry(BasicServiceNotProvided, None, 8),
      Entry(NotIncomingCall, None, 9),
      Entry(InteractionNotAllowed, None, 10),
      Entry(ResourceUnavailable, None, 11),
      Entry(NoChargingInfoAvailable, None, 26) ]

  /** Every operation but the unknown one is in the table under a local value, and comes back from it. */
  lemma OperationsInvert(op: Operation)
    requires op != OpUnknown
    ensures var x := ByCode(ETSI_MSGS, op);
            && x.Some? && x.value.prefix == None && 0 <= x.value.value < 0x1_0000
            && ByWire(ETSI_MSGS, WireOf(x.value)) == x && x.value.code == op
  {
    hide ByCode, ByWire;
    assert ETSI_MSGS[0].code == OpChargingRequest && ETSI_MSGS[1].code == OpAOCSCurrency
        && ETSI_MSGS[2].code == OpAOCSSpecialArr && ETSI_MSGS[3].code == OpAOCDCurrency
        && ETSI_MSGS[4].code == OpAOCDChargingUnit && ETSI_MSGS[5].code == OpAOCECurrency
        && ETSI_MSGS[6].code == OpAOCEChargingUnit;
    SearchesInvert(ETSI_MSGS, op, Wire([], 0));
  }

  function ErrorRank(code: ErrorCode): nat {
    match code
    case NotSubscribed => 0
    case NotAvailable => 1
    case NotImplemented => 2
    case InvalidServedUserNr => 3
    case InvalidCallState => 4
    case BasicServiceNotProvided => 5
    case NotIncomingCall => 6
    case InteractionNotAllowed => 7
    case ResourceUnavailable => 8
    case NoChargingInfoAvailable => 9
    case ErrorUnknown => 10
  }

  function ErrorValueAt(i: nat): int {
    if i == 0 then 0 else if i < 3 then i + 2 else if i < 9 then i + 3 else 26
  }

  lemma ErrorAt(i: nat)
    requires i < |ETSI_ERRORS|
    ensures ErrorRank(ETSI_ERRORS[i].code) == i
    ensures ETSI_ERRORS[i].prefix == None && ETSI_ERRORS[i].value == ErrorValueAt(i)
  {
  }

  lemma ErrorsHaveNoDuplicates()
    ensures NoDuplicates(ETSI_ERRORS)
  {
    forall i, j | 0 <= i < j < |ETSI_ERRORS|
      ensures ETSI_ERRORS[i].code != ETSI_ERRORS[j].code && WireOf(ETSI_ERRORS[i]) != WireOf(ETSI_ERRORS[j])
    {
      ErrorAt(i);
      ErrorAt(j);
    }
  }

  lemma ErrorsInvert(code: ErrorCode)
    requires code != ErrorUnknown
    ensures var x := ByCode(ETSI_ERRORS, code);
            && x.Some? && x.value.prefix == None && 0 <= x.value.value < 0x1_0000
            && ByWire(ETSI_ERRORS, WireOf(x.value)) == x && x.value.code == code
  {
    hide ByCode, ByWire;
    ErrorsHaveNoDuplicates();
    assert ETSI_ERRORS[0].code == NotSubscribed && ETSI_ERRORS[1].code == NotAvailable
        && ETSI_ERRORS[2].code == NotImplemented && ETSI_ERRORS[3].code == InvalidServedUserNr
        && ETSI_ERRORS[4].code == InvalidCallState && ETSI_ERRORS[5].code == BasicServiceNotProvided
        && ETSI_ERRORS[6].code == NotIncomingCall && ETSI_ERRORS[7].code == InteractionNotAllowed
        && ETSI_ERRORS[8].code == ResourceUnavailable && ETSI_ERRORS[9].code == NoChargingInfoAvailable;
    SearchesInvert(ETSI_ERRORS, code, Wire([], 0));
  }
}
