/** KNX group addresses and their 16-bit EIB form. Models src/knxgroupaddress.cpp. */
module GroupAddress {
  import opened Bits
  import opened Outcomes

  const MAIN_GROUP_MAX: nat := 31
  const MIDDLE_GROUP_MAX: nat := 7
  const SUB_GROUP_TRIPLE_MAX: nat := 255
  const SUB_GROUP_DOUBLE_MAX: nat := 2047
  const EIB_ADDRESS_MAX: nat := 0xFFFF

  datatype Triple = Triple(main: nat, middle: nat, sub: nat)

  predicate IsGroupAddress(a: Triple)
  {
    a.main <= MAIN_GROUP_MAX && a.middle <= MIDDLE_GROUP_MAX && a.sub <= SUB_GROUP_TRIPLE_MAX
  }

  /** Every initialiser rejects anything else. */
  type Address = a: Triple | IsGroupAddress(a) witness Triple(0, 0, 0)

  function OfTriple(main: nat, middle: nat, sub: nat): Result<Address>
  {
    if main > MAIN_GROUP_MAX || middle > MIDDLE_GROUP_MAX || sub > SUB_GROUP_TRIPLE_MAX then Err(AddressInvalid)
    else Ok(Triple(main, middle, sub))
  }

  function OfDouble(main: nat, sub: nat): Result<Address>
  {
    if main > MAIN_GROUP_MAX || sub > SUB_GROUP_DOUBLE_MAX then Err(AddressInvalid)
    else Ok(Triple(main, sub / 256 % 8, sub % 256))
  }

  function OfSingle(address: nat): Result<Address>
  {
    if address > EIB_ADDRESS_MAX then Err(AddressInvalid) else Ok(OfEib(address))
  }

  /** The constructor from a received 16-bit address. */
  function OfEib(address: nat): Address
    requires address <= EIB_ADDRESS_MAX
  {
    Triple(address / 2048 % 32, address / 256 % 8, address % 256)
  }

  function Eib(a: Address): (address: nat)
    ensures address <= EIB_ADDRESS_MAX
  {
    2048 * (a.main % 32) + 256 * (a.middle % 8) + a.sub % 256
  }

  /** operator<, by which the controller's map orders its keys. */
  predicate Less(a: Address, b: Address)
  {
    Eib(a) < Eib(b)
  }

  lemma EibOfEib(address: nat)
    requires address <= EIB_ADDRESS_MAX
    ensures Eib(OfEib(address)) == address
  {
    ModUnique(address / 2048, 32, 0, address / 2048);
    assert address / 256 / 8 == address / 2048;
  }

  lemma OfEibOfAddress(a: Address)
    ensures OfEib(Eib(a)) == a
  {
    var e := Eib(a);
    ModUnique(e, 256, 8 * a.main + a.middle, a.sub);
    ModUnique(e / 256, 8, a.main, a.middle);
    ModUnique(e, 2048, a.main, 256 * a.middle + a.sub);
  }

  /** Two addresses are equal exactly when neither comes before the other. */
  lemma OrderAgreesWithEquality(a: Address, b: Address)
    ensures a == b <==> !Less(a, b) && !Less(b, a)
  {
    OfEibOfAddress(a);
    OfEibOfAddress(b);
  }

  /** The two-level and one-level spellings of an address denote it too. */
  lemma SpellingsAgree(a: Address)
    ensures OfTriple(a.main, a.middle, a.sub) == Ok(a)
    ensures OfDouble(a.main, 256 * a.middle + a.sub) == Ok(a)
    ensures OfSingle(Eib(a)) == Ok(a)
  {
    OfEibOfAddress(a);
    DoubleSub(a.middle, a.sub);
  }

  lemma DoubleSub(middle: nat, sub: nat)
    requires middle <= MIDDLE_GROUP_MAX && sub <= SUB_GROUP_TRIPLE_MAX
    ensures (256 * middle + sub) / 256 % 8 == middle && (256 * middle + sub) % 256 == sub
  {
    ModUnique(256 * middle + sub, 256, middle, sub);
    ModUnique(middle, 8, 0, middle);
  }
}
