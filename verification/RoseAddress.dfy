/** PartyNumber, PartySubaddress, Address and the Presented* choices (libpri/rose_address.c).

    An encoder yields the component tree it builds through ASN1_CONSTRUCTED_BEGIN/END, None where
    it returns NULL; a decoder works on octets. Each decoder gives back the encoded value from
    every encoding of that tree. */
module RoseAddress {
  import opened Common
  import opened Asn1
  import opened Asn1Build
  import opened Asn1Strings
  import opened RoseWire

  const ENUMERATED: byte := 10
  const NUMERIC_STRING: byte := 18
  const OCTET_STRING: byte := 4
  const BOOLEAN: byte := 1
  const SEQUENCE: byte := 0x30

  /** Buffer size of every number and subaddress string. */
  const STR_SIZE := 21

  datatype PartyNumber = PartyNumber(plan: int, ton: int, digits: seq<byte>)

  datatype Subaddress =
    | UserSpecified(info: seq<byte>, oddCount: Option<bool>)
    | Nsap(info: seq<byte>)

  /** A subaddress whose length is zero is not present. */
  datatype Address = Address(number: PartyNumber, subaddress: Option<Subaddress>)

  datatype NumberScreened = NumberScreened(number: PartyNumber, screening: int)

  datatype AddressScreened = AddressScreened(number: PartyNumber, screening: int, subaddress: Option<Subaddress>)

  datatype Presented<T> =
    | Allowed(party: T)
    | Restricted
    | Interworking
    | RestrictedParty(party: T)

  predicate IsU8(x: int) {
    0 <= x < 256
  }

  predicate IsNetworkPlan(plan: int) {
    plan == 1 || plan == 5
  }

  /** A number the library can represent: a known plan, a type of number only where the plan has
      one, and digits that fit the field. */
  predicate ValidNumber(n: PartyNumber) {
    && n.plan in {0, 1, 2, 3, 4, 5, 8}
    && (if IsNetworkPlan(n.plan) then IsU8(n.ton) else n.ton == 0)
    && |n.digits| < STR_SIZE
  }

  predicate ValidSubaddress(s: Subaddress) {
    0 < |s.info| < STR_SIZE
  }

  predicate ValidOptional(s: Option<Subaddress>) {
    s.Some? ==> ValidSubaddress(s.value)
  }

  // ------------------------------------------------------------------ encoders

  /** `rose_enc_PartyNumber`. */
  function EncNumber(n: PartyNumber): Option<Tree> {
    if IsNetworkPlan(n.plan) then
      Some(Cons(0x80 + n.plan, [IntTree(ENUMERATED, n.ton)] + [Prim(NUMERIC_STRING, n.digits)]))
    else if n.plan in {0, 2, 3, 4, 8} then Some(Prim(0x80 + n.plan, n.digits))
    else None
  }

  function OddTree(odd: Option<bool>): seq<Tree> {
    match odd
    case None => []
    case Some(b) => [Prim(BOOLEAN, [if b then 1 else 0])]
  }

  /** `rose_enc_PartySubaddress`. */
  function SubaddressTree(s: Subaddress): Tree {
    match s
    case UserSpecified(info, odd) => Cons(SEQUENCE, [Prim(OCTET_STRING, info)] + OddTree(odd))
    case Nsap(info) => Prim(OCTET_STRING, info)
  }

  function OptionalTree(s: Option<Subaddress>): seq<Tree> {
    match s
    case None => []
    case Some(x) => if |x.info| == 0 then [] else [SubaddressTree(x)]
  }

  /** `rose_enc_Address`. */
  function EncAddress(a: Address, tag: byte): Option<Tree> {
    var n :- EncNumber(a.number);
    Some(Cons(tag, [n] + OptionalTree(a.subaddress)))
  }

  /** `rose_enc_NumberScreened`. */
  function EncNumberScreened(x: NumberScreened, tag: byte): Option<Tree> {
    var n :- EncNumber(x.number);
    Some(Cons(tag, [n] + [IntTree(ENUMERATED, x.screening)]))
  }

  /** `rose_enc_AddressScreened`. */
  function EncAddressScreened(x: AddressScreened, tag: byte): Option<Tree> {
    var n :- EncNumber(x.number);
    Some(Cons(tag, [n] + ([IntTree(ENUMERATED, x.screening)] + OptionalTree(x.subaddress))))
  }

  /** A number behind an EXPLICIT tag. */
  function EncExplicitNumber(number: PartyNumber, tag: byte): Option<Tree> {
    var n :- EncNumber(number);
    Some(Cons(tag, [n]))
  }

  /** `rose_enc_PresentedNumberUnscreened`. */
  function EncPresentedNumber(x: Presented<PartyNumber>): Option<Tree> {
    match x
    case Allowed(party) => EncExplicitNumber(party, 0x80)
    case Restricted => Some(NullTree(0x81))
    case Interworking => Some(NullTree(0x82))
    case RestrictedParty(party) => EncExplicitNumber(party, 0x83)
  }

  /** `rose_enc_PresentedNumberScreened`. */
  function EncPresentedScreened(x: Presented<NumberScreened>): Option<Tree> {
    match x
    case Allowed(party) => EncNumberScreened(party, 0x80)
    case Restricted => Some(NullTree(0x81))
    case Interworking => Some(NullTree(0x82))
    case RestrictedParty(party) => EncNumberScreened(party, 0x83)
  }

  /** `rose_enc_PresentedAddressScreened`. */
  function EncPresentedAddress(x: Presented<AddressScreened>): Option<Tree> {
    match x
    case Allowed(party) => EncAddressScreened(party, 0x80)
    case Restricted => Some(NullTree(0x81))
    case Interworking => Some(NullTree(0x82))
    case RestrictedParty(party) => EncAddressScreened(party, 0x83)
  }

  // ------------------------------------------------------------------ decoders

  function ClearConstructed(tag: nat): (r: nat)
  {
    if IsConstructed(tag) then tag - 0x20 else tag
  }

  /** `rose_dec_NetworkPartyNumber`. */
  function DecNetworkNumber(buf: seq<byte>, pos: nat, end: nat, plan: int): (r: Option<(PartyNumber, nat)>)
    requires end <= |buf|
    ensures r.Some? ==> pos < r.value.1 <= end
  {
    var f :- Open(buf, pos, end);
    var ton :- TakeInt(buf, f.pos, f.end, ENUMERATED);
    var t :- DecTag(buf, ton.1, f.end);
    if ClearConstructed(t.0) != NUMERIC_STRING then None
    else
      var s :- DecString(buf, t.1, f.end, t.0, STR_SIZE, true);
      var q :- Finish(buf, s.1, f, end);
      Some((PartyNumber(plan, Unsigned(ton.0, 8), s.0), q))
  }

  /** `rose_dec_PartyNumber`, after the tag octets. */
  function DecNumber(buf: seq<byte>, pos: nat, end: nat, tag: nat): (r: Option<(PartyNumber, nat)>)
    requires end <= |buf|
    ensures r.Some? ==> pos < r.value.1 <= end
  {
    var plan: int := ClearConstructed(tag) - 0x80;
    if IsNetworkPlan(plan) then DecNetworkNumber(buf, pos, end, plan)
    else if plan in {0, 2, 3, 4, 8} then
      var s :- DecString(buf, pos, end, tag, STR_SIZE, plan != 2);
      Some((PartyNumber(plan, 0, s.0), s.1))
    else None
  }

  /** `asn1_dec_tag` and `rose_dec_PartyNumber`. */
  function TakeNumber(buf: seq<byte>, pos: nat, end: nat): (r: Option<(PartyNumber, nat)>)
    requires end <= |buf|
    ensures r.Some? ==> pos < r.value.1 <= end
  {
    var t :- DecTag(buf, pos, end);
    DecNumber(buf, t.1, end, t.0)
  }

  /** The optional odd-count indicator of a user-specified subaddress. */
  function TakeOddCount(buf: seq<byte>, pos: nat, end: nat): (r: Option<(Option<bool>, nat)>)
    requires end <= |buf|
    ensures r.Some? ==> pos <= r.value.1
  {
    if More(buf, pos, end) then
      var p :- TakeTag(buf, pos, end, BOOLEAN);
      var b :- DecBoolean(buf, p, end);
      Some((Some(b.0), b.1))
    else Some((None, pos))
  }

  /** `rose_dec_UserSubaddress`. */
  function DecUserSubaddress(buf: seq<byte>, pos: nat, end: nat): (r: Option<(Subaddress, nat)>)
    requires end <= |buf|
    ensures r.Some? ==> pos < r.value.1 <= end
  {
    var f :- Open(buf, pos, end);
    var t :- DecTag(buf, f.pos, f.end);
    if ClearConstructed(t.0) != OCTET_STRING then None
    else
      var s :- DecString(buf, t.1, f.end, t.0, STR_SIZE, false);
      var odd :- TakeOddCount(buf, s.1, f.end);
      var q :- Finish(buf, odd.1, f, end);
      Some((UserSpecified(s.0, odd.0), q))
  }

  /** `rose_dec_PartySubaddress`, after the tag octets. */
  function DecSubaddress(buf: seq<byte>, pos: nat, end: nat, tag: nat): (r: Option<(Subaddress, nat)>)
    requires end <= |buf|
    ensures r.Some? ==> pos < r.value.1 <= end
  {
    if tag == SEQUENCE then DecUserSubaddress(buf, pos, end)
    else if tag == OCTET_STRING || tag == OCTET_STRING + 0x20 then
      var s :- DecString(buf, pos, end, tag, STR_SIZE, false);
      Some((Nsap(s.0), s.1))
    else None
  }

  /** The optional subaddress at the end of an address. */
  function TakeOptional(buf: seq<byte>, pos: nat, end: nat): (r: Option<(Option<Subaddress>, nat)>)
    requires end <= |buf|
    ensures r.Some? ==> pos <= r.value.1
  {
    if More(buf, pos, end) then
      var t :- DecTag(buf, pos, end);
      var s :- DecSubaddress(buf, t.1, end, t.0);
      Some((if |s.0.info| == 0 then None else Some(s.0), s.1))
    else Some((None, pos))
  }

  /** `rose_dec_Address`. */
  function DecAddress(buf: seq<byte>, pos: nat, end: nat): (r: Option<(Address, nat)>)
    requires end <= |buf|
    ensures r.Some? ==> pos < r.value.1 <= end
  {
    var f :- Open(buf, pos, end);
    var n :- TakeNumber(buf, f.pos, f.end);
    var s :- TakeOptional(buf, n.1, f.end);
    var q :- Finish(buf, s.1, f, end);
    Some((Address(n.0, s.0), q))
  }

  /** `rose_dec_NumberScreened`. */
  function DecNumberScreened(buf: seq<byte>, pos: nat, end: nat): (r: Option<(NumberScreened, nat)>)
    requires end <= |buf|
    ensures r.Some? ==> pos < r.value.1 <= end
  {
    var f :- Open(buf, pos, end);
    var n :- TakeNumber(buf, f.pos, f.end);
    var v :- TakeInt(buf, n.1, f.end, ENUMERATED);
    var q :- Finish(buf, v.1, f, end);
    Some((NumberScreened(n.0, Unsigned(v.0, 8)), q))
  }

  /** `rose_dec_AddressScreened`. */
  function DecAddressScreened(buf: seq<byte>, pos: nat, end: nat): (r: Option<(AddressScreened, nat)>)
    requires end <= |buf|
    ensures r.Some? ==> pos < r.value.1 <= end
  {
    var f :- Open(buf, pos, end);
    var n :- TakeNumber(buf, f.pos, f.end);
    var v :- TakeInt(buf, n.1, f.end, ENUMERATED);
    var s :- TakeOptional(buf, v.1, f.end);
    var q :- Finish(buf, s.1, f, end);
    Some((AddressScreened(n.0, Unsigned(v.0, 8), s.0), q))
  }

  /** A number behind an EXPLICIT tag. */
  function DecExplicitNumber(buf: seq<byte>, pos: nat, end: nat): (r: Option<(PartyNumber, nat)>)
    requires end <= |buf|
    ensures r.Some? ==> pos < r.value.1 <= end
  {
    var f :- Open(buf, pos, end);
    var n :- TakeNumber(buf, f.pos, f.end);
    var q :- Finish(buf, n.1, f, end);
    Some((n.0, q))
  }

  /** The two NULL alternatives shared by the Presented* choices. */
  function DecWithheld<T>(buf: seq<byte>, pos: nat, end: nat, tag: nat): Option<(Presented<T>, nat)>
    requires end <= |buf|
  {
    if tag == 0x81 || tag == 0x82 then
      var q :- DecNull(buf, pos, end);
      Some((if tag == 0x81 then Restricted else Interworking, q))
    else None
  }

  /** `rose_dec_PresentedNumberUnscreened`, after the tag octets. */
  function DecPresentedNumber(buf: seq<byte>, pos: nat, end: nat, tag: nat): Option<(Presented<PartyNumber>, nat)>
    requires end <= |buf|
  {
    if tag == 0xA0 || tag == 0xA3 then
      var n :- DecExplicitNumber(buf, pos, end);
      Some((if tag == 0xA0 then Allowed(n.0) else RestrictedParty(n.0), n.1))
    else DecWithheld(buf, pos, end, tag)
  }

  /** `rose_dec_PresentedNumberScreened`, after the tag octets. */
  function DecPresentedScreened(buf: seq<byte>, pos: nat, end: nat, tag: nat): Option<(Presented<NumberScreened>, nat)>
    requires end <= |buf|
  {
    if tag == 0xA0 || tag == 0xA3 then
      var n :- DecNumberScreened(buf, pos, end);
      Some((if tag == 0xA0 then Allowed(n.0) else RestrictedParty(n.0), n.1))
    else DecWithheld(buf, pos, end, tag)
  }

  /** `rose_dec_PresentedAddressScreened`, after the tag octets. */
  function DecPresentedAddress(buf: seq<byte>, pos: nat, end: nat, tag: nat): Option<(Presented<AddressScreened>, nat)>
    requires end <= |buf|
  {
    if tag == 0xA0 || tag == 0xA3 then
      var n :- DecAddressScreened(buf, pos, end);
      Some((if tag == 0xA0 then Allowed(n.0) else RestrictedParty(n.0), n.1))
    else DecWithheld(buf, pos, end, tag)
  }

  // ------------------------------------------------------------------ encoders fail only on unknown plans

  lemma NumberEncodes(n: PartyNumber)
    ensures EncNumber(n).Some? <==> n.plan in {0, 1, 2, 3, 4, 5, 8}
    ensures EncNumber(n).Some?
            ==> PlainTag(EncNumber(n).value) && ClearConstructed(TagOf(EncNumber(n).value)) == 0x80 + n.plan
  {
  }

  // ------------------------------------------------------------------ decoding what was encoded

  lemma NetworkNumberDecodes(buf: seq<byte>, p: nat, q: nat, end: nat, n: PartyNumber)
    requires ValidNumber(n) && IsNetworkPlan(n.plan)
    requires Stands(buf, p, q, EncNumber(n).value) && q <= end <= |buf|
    ensures DecNetworkNumber(buf, p + 1, end, n.plan) == Some((n, q))
  {
    hide Stands, StandAll, DecTag, DecString, Open, Finish, More, TakeInt, EncIntBody;
    var f, e := Enters(buf, p, q, end, EncNumber(n).value);
    var m := Split(buf, f.pos, e, IntTree(ENUMERATED, n.ton), [Prim(NUMERIC_STRING, n.digits)]);
    SeesInt(buf, f.pos, m, f.end, ENUMERATED, n.ton);
    Last(buf, m, e, Prim(NUMERIC_STRING, n.digits));
    SeesTag(buf, m, e, f.end, Prim(NUMERIC_STRING, n.digits));
    SeesString(buf, m, e, f.end, NUMERIC_STRING, n.digits, STR_SIZE, true);
  }

  /** `rose_dec_PartyNumber` on every encoding of a number. */
  lemma NumberDecodes(buf: seq<byte>, p: nat, q: nat, end: nat, n: PartyNumber)
    requires ValidNumber(n) && Stands(buf, p, q, EncNumber(n).value) && q <= end <= |buf|
    ensures DecNumber(buf, p + 1, end, TagOf(EncNumber(n).value)) == Some((n, q))
    ensures TakeNumber(buf, p, end) == Some((n, q))
  {
    hide Stands, DecTag, DecString, DecNetworkNumber;
    NumberEncodes(n);
    SeesTag(buf, p, q, end, EncNumber(n).value);
    if IsNetworkPlan(n.plan) {
      NetworkNumberDecodes(buf, p, q, end, n);
    } else {
      SeesString(buf, p, q, end, 0x80 + n.plan, n.digits, STR_SIZE, n.plan != 2);
    }
  }

  lemma OddCountDecodes(buf: seq<byte>, p: nat, e: nat, end: nat, odd: Option<bool>)
    requires StandAll(buf, p, e, OddTree(odd)) && e <= end <= |buf| && !More(buf, e, end)
    ensures TakeOddCount(buf, p, end) == Some((odd, e))
  {
    hide Stands, DecTag, DecBoolean;
    if odd.Some? {
      var t := Prim(BOOLEAN, [if odd.value then 1 else 0]);
      Last(buf, p, e, t);
      SeesTag(buf, p, e, end, t);
      SeesBoolean(buf, p, e, end, BOOLEAN, odd.value);
    }
  }

  lemma SubaddressDecodes(buf: seq<byte>, p: nat, q: nat, end: nat, s: Subaddress)
    requires ValidSubaddress(s) && Stands(buf, p, q, SubaddressTree(s)) && q <= end <= |buf|
    ensures PlainTag(SubaddressTree(s))
    ensures DecSubaddress(buf, p + 1, end, TagOf(SubaddressTree(s))) == Some((s, q))
  {
    hide Stands, StandAll, DecTag, DecString, Open, Finish, More, TakeOddCount;
    match s
    case UserSpecified(info, odd) =>
      var f, e := Enters(buf, p, q, end, SubaddressTree(s));
      var m := Split(buf, f.pos, e, Prim(OCTET_STRING, info), OddTree(odd));
      SeesTag(buf, f.pos, m, f.end, Prim(OCTET_STRING, info));
      SeesString(buf, f.pos, m, f.end, OCTET_STRING, info, STR_SIZE, false);
      OddCountDecodes(buf, m, e, f.end, odd);
    case Nsap(info) =>
      SeesString(buf, p, q, end, OCTET_STRING, info, STR_SIZE, false);
  }

  lemma OptionalDecodes(buf: seq<byte>, p: nat, e: nat, end: nat, s: Option<Subaddress>)
    requires ValidOptional(s) && StandAll(buf, p, e, OptionalTree(s)) && e <= end <= |buf| && !More(buf, e, end)
    ensures TakeOptional(buf, p, end) == Some((s, e))
  {
    hide Stands, DecTag, DecSubaddress, SubaddressTree;
    if s.Some? {
      Last(buf, p, e, SubaddressTree(s.value));
      SubaddressDecodes(buf, p, e, end, s.value);
      SeesTag(buf, p, e, end, SubaddressTree(s.value));
    }
  }

  /** Round trip and length-form independence of `rose_dec_Address`: every encoding of the tree that
      `rose_enc_Address` builds decodes to the same address and is consumed whole. */
  lemma AddressDecodes(buf: seq<byte>, p: nat, q: nat, end: nat, a: Address, tag: byte)
    requires ValidNumber(a.number) && ValidOptional(a.subaddress)
    requires Stands(buf, p, q, EncAddress(a, tag).value) && q <= end <= |buf|
    ensures DecAddress(buf, p + 1, end) == Some((a, q))
  {
    hide Stands, StandAll, Open, Finish, More, TakeNumber, TakeOptional;
    var f, e := Enters(buf, p, q, end, EncAddress(a, tag).value);
    var m := Split(buf, f.pos, e, EncNumber(a.number).value, OptionalTree(a.subaddress));
    NumberDecodes(buf, f.pos, m, f.end, a.number);
    OptionalDecodes(buf, m, e, f.end, a.subaddress);
  }

  lemma NumberScreenedDecodes(buf: seq<byte>, p: nat, q: nat, end: nat, x: NumberScreened, tag: byte)
    requires ValidNumber(x.number) && IsU8(x.screening)
    requires Stands(buf, p, q, EncNumberScreened(x, tag).value) && q <= end <= |buf|
    ensures DecNumberScreened(buf, p + 1, end) == Some((x, q))
  {
    hide Stands, StandAll, Open, Finish, More, TakeNumber, TakeInt, EncIntBody;
    var f, e := Enters(buf, p, q, end, EncNumberScreened(x, tag).value);
    var m := Split(buf, f.pos, e, EncNumber(x.number).value, [IntTree(ENUMERATED, x.screening)]);
    NumberDecodes(buf, f.pos, m, f.end, x.number);
    Last(buf, m, e, IntTree(ENUMERATED, x.screening));
    SeesInt(buf, m, e, f.end, ENUMERATED, x.screening);
  }

  lemma AddressScreenedDecodes(buf: seq<byte>, p: nat, q: nat, end: nat, x: AddressScreened, tag: byte)
    requires ValidNumber(x.number) && IsU8(x.screening) && ValidOptional(x.subaddress)
    requires Stands(buf, p, q, EncAddressScreened(x, tag).value) && q <= end <= |buf|
    ensures DecAddressScreened(buf, p + 1, end) == Some((x, q))
  {
    hide Stands, StandAll, Open, Finish, More, TakeNumber, TakeInt, TakeOptional, EncIntBody, OptionalTree,
         ValidOptional, ToInt32, Ser, SerAll;
    var f, e := Enters(buf, p, q, end, EncAddressScreened(x, tag).value);
    var rest := [IntTree(ENUMERATED, x.screening)] + OptionalTree(x.subaddress);
    var m := Split(buf, f.pos, e, EncNumber(x.number).value, rest);
    NumberDecodes(buf, f.pos, m, f.end, x.number);
    var n := Split(buf, m, e, IntTree(ENUMERATED, x.screening), OptionalTree(x.subaddress));
    SeesInt(buf, m, n, f.end, ENUMERATED, x.screening);
    OptionalDecodes(buf, n, e, f.end, x.subaddress);
  }

  lemma ExplicitNumberDecodes(buf: seq<byte>, p: nat, q: nat, end: nat, n: PartyNumber, tag: byte)
    requires ValidNumber(n) && Stands(buf, p, q, Cons(tag, [EncNumber(n).value])) && q <= end <= |buf|
    ensures DecExplicitNumber(buf, p + 1, end) == Some((n, q))
  {
    hide Stands, StandAll, Open, Finish, More, TakeNumber;
    var f, e := Enters(buf, p, q, end, Cons(tag, [EncNumber(n).value]));
    Last(buf, f.pos, e, EncNumber(n).value);
    NumberDecodes(buf, f.pos, e, f.end, n);
  }

  /** Every encoding of a PresentedNumberUnscreened decodes to it, whole. */
  lemma PresentedNumberDecodes(buf: seq<byte>, p: nat, q: nat, end: nat, x: Presented<PartyNumber>)
    requires x.Allowed? || x.RestrictedParty? ==> ValidNumber(x.party)
    requires Stands(buf, p, q, EncPresentedNumber(x).value) && q <= end <= |buf|
    ensures DecPresentedNumber(buf, p + 1, end, TagOf(EncPresentedNumber(x).value)) == Some((x, q))
  {
    hide Stands, DecExplicitNumber, DecNull, EncNumber;
    match x
    case Restricted => SeesNull(buf, p, q, end, 0x81);
    case Interworking => SeesNull(buf, p, q, end, 0x82);
    case _ =>
      NumberEncodes(x.party);
      ExplicitNumberDecodes(buf, p, q, end, x.party, if x.Allowed? then 0x80 else 0x83);
  }

  /** Every encoding of a PresentedNumberScreened decodes to it, whole. */
  lemma PresentedScreenedDecodes(buf: seq<byte>, p: nat, q: nat, end: nat, x: Presented<NumberScreened>)
    requires x.Allowed? || x.RestrictedParty? ==> ValidNumber(x.party.number) && IsU8(x.party.screening)
    requires Stands(buf, p, q, EncPresentedScreened(x).value) && q <= end <= |buf|
    ensures DecPresentedScreened(buf, p + 1, end, TagOf(EncPresentedScreened(x).value)) == Some((x, q))
  {
    hide Stands, DecNumberScreened, DecNull, EncNumber;
    match x
    case Restricted => SeesNull(buf, p, q, end, 0x81);
    case Interworking => SeesNull(buf, p, q, end, 0x82);
    case _ =>
      NumberEncodes(x.party.number);
      NumberScreenedDecodes(buf, p, q, end, x.party, if x.Allowed? then 0x80 else 0x83);
  }

  /** Every encoding of a PresentedAddressScreened decodes to it, whole. */
  lemma PresentedAddressDecodes(buf: seq<byte>, p: nat, q: nat, end: nat, x: Presented<AddressScreened>)
    requires x.Allowed? || x.RestrictedParty? ==>
               ValidNumber(x.party.number) && IsU8(x.party.screening) && ValidOptional(x.party.subaddress)
    requires Stands(buf, p, q, EncPresentedAddress(x).value) && q <= end <= |buf|
    ensures DecPresentedAddress(buf, p + 1, end, TagOf(EncPresentedAddress(x).value)) == Some((x, q))
  {
    hide Stands, DecAddressScreened, DecNull, EncNumber;
    match x
    case Restricted => SeesNull(buf, p, q, end, 0x81);
    case Interworking => SeesNull(buf, p, q, end, 0x82);
    case _ =>
      NumberEncodes(x.party.number);
      AddressScreenedDecodes(buf, p, q, end, x.party, if x.Allowed? then 0x80 else 0x83);
  }
}
