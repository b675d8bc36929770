/**
  What packing and unpacking mean for each other, over every layout. The statements quantify over
  layouts (positions, widths, types), payloads and assignments of values; nothing here depends
  on how a layout came about.
 */
module DptJsonTheorems {
  import opened Bits
  import opened JsonValues
  import opened DptJsonField
  import opened FieldTheorems
  import opened DptJson
  import opened Outcomes

  predicate Apart(f: Placed, g: Placed)
  {
    f.begin + f.width <= g.begin || g.begin + g.width <= f.begin || f.width == 0 || g.width == 0
  }

  predicate Disjoint(fields: seq<Placed>)
  {
    forall j, k :: 0 <= j < k < |fields| ==> Apart(fields[j], fields[k])
  }

  lemma ApartEitherWay(fields: seq<Placed>, j: nat, k: nat)
    requires Disjoint(fields) && j < |fields| && k < |fields| && j != k
    ensures Apart(fields[j], fields[k])
  {
    assert if j < k then Apart(fields[j], fields[k]) else Apart(fields[k], fields[j]);
  }

  lemma SoleContributor(lib: Library, fields: seq<Placed>, k: nat, p: nat)
    requires AllWellPlaced(fields) && Disjoint(fields) && k < |fields| && Covers(fields[k], p)
    ensures PackedBit(lib, fields, p) == Contributes(lib, fields[k], p)
  {
    if PackedBit(lib, fields, p) {
      var j :| 0 <= j < |fields| && Contributes(lib, fields[j], p);
      if j != k {
        ApartEitherWay(fields, j, k);
      }
    }
  }

  // ---- What a number field denotes ----

  /** The number whose binary digits are w consecutive bits of a payload, the first the most significant. */
  function BinaryNumber(payload: seq<byte>, begin: nat, w: nat): nat
    requires begin + w <= 8 * |payload|
  {
    if w == 0 then 0
    else 2 * BinaryNumber(payload, begin, w - 1) + (if BitAt(payload, begin + w - 1) then 1 else 0)
  }

  /** The number whose digits to base 256 are some octets, the first the most significant. */
  function BigEndian(octets: seq<byte>): nat
  {
    if octets == [] then 0 else 256 * BigEndian(octets[..|octets| - 1]) + NatOfByte(octets[|octets| - 1])
  }

  lemma {:induction false} RawBitsNumber(f: Placed, payload: seq<byte>)
    requires FitsPayload(f, |payload|) && f.width <= RAW_BITS && f.fieldType == UNSIGNED_INT
    ensures NatOfBits(RawBits(f, payload)[..f.width]) == BinaryNumber(payload, f.begin, f.width)
    decreases f.width
  {
    if f.width > 0 {
      var shorter := f.(width := f.width - 1);
      ShorterBits(f, payload);
      hide RawBits, Bit;
      RawBitsNumber(shorter, payload);
      var bits := RawBits(f, payload)[..f.width];
      assert bits[1..] == RawBits(shorter, payload)[..shorter.width];
    }
  }

  lemma ShorterBits(f: Placed, payload: seq<byte>)
    requires FitsPayload(f, |payload|) && 1 <= f.width <= RAW_BITS && f.fieldType == UNSIGNED_INT
    ensures FitsPayload(f.(width := f.width - 1), |payload|)
    ensures RawBits(f, payload)[0] == BitAt(payload, f.begin + f.width - 1)
    ensures RawBits(f, payload)[..f.width][1..] == RawBits(f.(width := f.width - 1), payload)[..f.width - 1]
  {
    hide Bit;
  }

  lemma SameBitsOfField(f: Placed, g: Placed, payload: seq<byte>)
    requires FitsPayload(f, |payload|) && FitsPayload(g, |payload|) && f.begin == g.begin && f.width == g.width
    ensures RawBits(f, payload) == RawBits(g, payload)
  {
  }

  /** A number field reads the binary number its bits spell, an integer field that number's two's complement. */
  lemma NumberFieldReads(lib: Library, f: Placed, payload: seq<byte>)
    requires FitsPayload(f, |payload|) && f.width <= 64
    requires f.fieldType == UNSIGNED_INT || f.fieldType == ENUM || f.fieldType == INT
    ensures var n := BinaryNumber(payload, f.begin, f.width);
            ReadField(lib, f, payload) == Ok(Integer(if f.fieldType == INT then Signed(n, Pow2(f.width)) else n))
  {
    hide NatOfBits;
    var unsigned := f.(fieldType := UNSIGNED_INT);
    SameBitsOfField(f, unsigned, payload);
    RawBitsNumber(unsigned, payload);
  }

  lemma {:induction false} BinaryBelow(payload: seq<byte>, begin: nat, w: nat)
    requires begin + w <= 8 * |payload|
    ensures BinaryNumber(payload, begin, w) < Pow2(w)
  {
    if w > 0 {
      BinaryBelow(payload, begin, w - 1);
    }
  }

  /** An integer field reads the number of its signed range that is congruent to the binary number of its bits. */
  lemma IntegerFieldReads(lib: Library, f: Placed, payload: seq<byte>)
    requires FitsPayload(f, |payload|) && f.fieldType == INT
    ensures var r := ReadField(lib, f, payload);
            && r.Ok? && r.value.Integer?
            && 0 - Pow2(f.width - 1) <= r.value.i < Pow2(f.width - 1)
            && r.value.i % Pow2(f.width) == BinaryNumber(payload, f.begin, f.width)
  {
    hide BinaryNumber, ReadField;
    NumberFieldReads(lib, f, payload);
    BinaryBelow(payload, f.begin, f.width);
    SignedModulo(BinaryNumber(payload, f.begin, f.width), f.width);
    assert Pow2(f.width) == 2 * Pow2(f.width - 1);
  }

  /** A bit field reads its bit. */
  lemma BitFieldReads(lib: Library, f: Placed, payload: seq<byte>)
    requires FitsPayload(f, |payload|) && f.fieldType == BIT && f.width == 1
    ensures ReadField(lib, f, payload) == Ok(Boolean(BitAt(payload, f.begin)))
  {
    assert RawBits(f, payload)[0] == FieldBitAt(f, payload, 0);
  }

  /** A FLOAT field reads what the library makes of the binary number of its bits. */
  lemma FloatFieldReads(lib: Library, f: Placed, payload: seq<byte>)
    requires FitsPayload(f, |payload|) && f.fieldType == FLOAT
    ensures ReadField(lib, f, payload) == Ok(lib.floatOfWord(f.width, BinaryNumber(payload, f.begin, f.width)))
  {
    hide NatOfBits;
    var unsigned := f.(fieldType := UNSIGNED_INT);
    SameBitsOfField(f, unsigned, payload);
    RawBitsNumber(unsigned, payload);
  }

  /** Eight bits in a row are an octet: of a raw value and of a payload. */
  lemma OctetNumber(f: Placed, payload: seq<byte>, j: nat)
    requires FitsPayload(f, |payload|) && f.width == RAW_BITS && j < RAW_OCTETS
    ensures NatOfByte(OctetAt(RawBits(f, payload), j)) == BinaryNumber(payload, f.begin + 8 * j, 8)
  {
    hide Bit, ByteOfBits, BitsOfByte, NatOfBits, BinaryNumber;
    var octet := Placed(f.name, UNSIGNED_INT, 8, f.begin + 8 * j, f.value);
    RawBitsNumber(octet, payload);
    var slice := RawBits(f, payload)[8 * (13 - j)..8 * (13 - j) + 8];
    assert slice == RawBits(octet, payload)[..8];
    BitsOfByteOfBits(slice);
  }

  /** A character field reads the octet of its eight bits. */
  lemma CharFieldReads(lib: Library, f: Placed, payload: seq<byte>)
    requires FitsPayload(f, |payload|) && f.fieldType == CHAR && f.width == CHAR_WIDTH
    ensures ReadField(lib, f, payload) == Ok(Text([ByteOfNat(OctetFrom(payload, f.begin))]))
  {
    hide ByteOfBits, BitsOfByte, NatOfBits, BinaryNumber;
    var unsigned := f.(fieldType := UNSIGNED_INT);
    SameBitsOfField(f, unsigned, payload);
    RawBitsNumber(unsigned, payload);
    BitsOfByteOfBits(RawBits(f, payload)[..8]);
    ByteOfNatOfByte(LowByte(RawBits(f, payload)));
  }

  /** The number of eight bits of a payload. */
  function OctetFrom(payload: seq<byte>, begin: nat): (n: nat)
    requires begin + 8 <= 8 * |payload|
    ensures n < 256
  {
    BinaryBelow(payload, begin, 8);
    assert Pow2(8) == 256;
    BinaryNumber(payload, begin, 8)
  }

  /** The octets that the bits of a string field spell. */
  function OctetsFrom(payload: seq<byte>, begin: nat): seq<byte>
    requires begin + RAW_BITS <= 8 * |payload|
  {
    seq(RAW_OCTETS, j requires 0 <= j < RAW_OCTETS => ByteOfNat(OctetFrom(payload, begin + 8 * j)))
  }

  lemma SpelledOctets(f: Placed, payload: seq<byte>)
    requires FitsPayload(f, |payload|) && f.width == RAW_BITS
    ensures Octets(RawBits(f, payload)) == OctetsFrom(payload, f.begin)
  {
    hide OctetAt, ByteOfNat, NatOfByte;
    forall j: nat | j < RAW_OCTETS
      ensures OctetAt(RawBits(f, payload), j) == OctetsFrom(payload, f.begin)[j]
    {
      OctetNumber(f, payload, j);
      ByteOfNatOfByte(OctetAt(RawBits(f, payload), j));
    }
  }

  /** A string field reads the octets its bits spell, in order, without the NUL ones. */
  lemma StringFieldReads(lib: Library, f: Placed, payload: seq<byte>)
    requires FitsPayload(f, |payload|) && f.fieldType == CHAR && f.width == RAW_BITS
    ensures ReadField(lib, f, payload) == Ok(Text(NonZero(OctetsFrom(payload, f.begin))))
  {
    SpelledOctets(f, payload);
  }

  lemma MaskedBits(b: byte)
    ensures Bit(b, 0) == BitsOfByte(b)[7] && Bit(b, 1) == BitsOfByte(b)[6]
    ensures Bit(b, 2) == BitsOfByte(b)[5] && Bit(b, 3) == BitsOfByte(b)[4]
    ensures Bit(b, 4) == BitsOfByte(b)[3] && Bit(b, 5) == BitsOfByte(b)[2]
    ensures Bit(b, 6) == BitsOfByte(b)[1] && Bit(b, 7) == BitsOfByte(b)[0]
  {
    MaskTable();
  }

  lemma DigitOfOctet(payload: seq<byte>, a: nat, k: nat)
    requires a < |payload| && k < 8
    ensures BitAt(payload, 8 * a + k) == BitsOfByte(payload[a])[7 - k]
  {
    hide Bit, BitsOfByte;
    MaskedBits(payload[a]);
    assert (8 * a + k) / 8 == a && (8 * a + k) % 8 == k;
  }

  /** The last k binary digits after w others, when they lie in one octet. */
  lemma {:induction false} DigitsOfOctet(payload: seq<byte>, begin: nat, a: nat, k: nat)
    requires begin <= 8 * a && a < |payload| && k <= 8
    ensures BinaryNumber(payload, begin, 8 * a + k - begin)
            == Pow2(k) * BinaryNumber(payload, begin, 8 * a - begin) + NatOfBits(BitsOfByte(payload[a])[8 - k..])
  {
    hide Bit, BitsOfByte;
    var bits, high := BitsOfByte(payload[a]), BinaryNumber(payload, begin, 8 * a - begin);
    if k > 0 {
      DigitsOfOctet(payload, begin, a, k - 1);
      DigitOfOctet(payload, a, k - 1);
      assert bits[8 - k..][1..] == bits[8 - (k - 1)..];
      MulTwice(Pow2(k - 1), high);
    }
  }

  lemma WholeOctet(payload: seq<byte>, begin: nat, a: nat)
    requires begin <= 8 * a && a < |payload|
    ensures BinaryNumber(payload, begin, 8 * a + 8 - begin)
            == 256 * BinaryNumber(payload, begin, 8 * a - begin) + NatOfByte(payload[a])
  {
    hide Bit, BitsOfByte, NatOfBits, BinaryNumber;
    DigitsOfOctet(payload, begin, a, 8);
    assert BitsOfByte(payload[a])[0..] == BitsOfByte(payload[a]);
    assert Pow2(8) == 256;
  }

  /** On whole octets that is the number with the most significant octet first. */
  lemma {:induction false} AlignedOctets(payload: seq<byte>, a: nat, m: nat)
    requires a + m <= |payload|
    ensures BinaryNumber(payload, 8 * a, 8 * m) == BigEndian(payload[a..a + m])
  {
    hide Bit, NatOfByte;
    if m > 0 {
      AlignedOctets(payload, a, m - 1);
      WholeOctet(payload, 8 * a, a + m - 1);
      assert payload[a..a + m][..m - 1] == payload[a..a + m - 1];
    }
  }

  lemma TextOctet(f: Placed, payload: seq<byte>, a: nat, j: nat)
    requires FitsPayload(f, |payload|) && f.begin == 8 * a && f.width == RAW_BITS && j < RAW_OCTETS
    ensures OctetAt(RawBits(f, payload), j) == payload[a + j]
  {
    hide Bit, BitsOfByte, ByteOfBits;
    var octet := RawBits(f, payload)[8 * (13 - j)..8 * (13 - j) + 8];
    forall k: nat | k < 8
      ensures octet[k] == BitsOfByte(payload[a + j])[k]
    {
      DigitOfOctet(payload, a + j, 7 - k);
    }
    assert octet == BitsOfByte(payload[a + j]);
    ByteOfBitsOfByte(payload[a + j]);
  }

  lemma TextOctets(f: Placed, payload: seq<byte>, a: nat)
    requires FitsPayload(f, |payload|) && f.begin == 8 * a && f.width == RAW_BITS
    ensures Octets(RawBits(f, payload)) == payload[a..a + RAW_OCTETS]
  {
    hide OctetAt;
    forall j: nat | j < RAW_OCTETS
      ensures OctetAt(RawBits(f, payload), j) == payload[a + j]
    {
      TextOctet(f, payload, a, j);
    }
  }

  /** A string field on whole octets reads those octets in order, without the NUL ones. */
  lemma TextFieldReads(lib: Library, f: Placed, payload: seq<byte>, a: nat)
    requires FitsPayload(f, |payload|) && f.begin == 8 * a && f.width == RAW_BITS && f.fieldType == CHAR
    ensures ReadField(lib, f, payload) == Ok(Text(NonZero(payload[a..a + RAW_OCTETS])))
  {
    TextOctets(f, payload, a);
  }

  // ---- Pack, then unpack ----

  /** A packed payload gives each field back exactly the bits it contributed. */
  lemma PackedFieldRead(lib: Library, fields: seq<Placed>, payload: seq<byte>, k: nat)
    requires AllWellPlaced(fields) && Disjoint(fields) && k < |fields|
    requires IsPacked(lib, fields, payload)
    ensures FitsPayload(fields[k], |payload|)
    ensures ReadRaw(fields[k], payload) == Ok(Clip(FieldBits(lib, fields[k]).value, fields[k].width))
  {
    hide RawOfValue, SupportedWidth, Bit;
    AllFieldsFit(fields);
    var f := fields[k];
    var bits := FieldBits(lib, f).value;
    forall position: nat | position < f.width
      ensures FieldBitAt(f, payload, position) == bits[position]
    {
      SoleContributor(lib, fields, k, f.begin + f.width - 1 - position);
    }
    RawBitsAre(f, payload, bits);
  }

  lemma RawBitsAre(f: Placed, payload: seq<byte>, bits: RawValue)
    requires FitsPayload(f, |payload|) && f.width <= RAW_BITS
    requires forall position: nat :: position < f.width ==> FieldBitAt(f, payload, position) == bits[position]
    ensures ReadRaw(f, payload) == Ok(Clip(bits, f.width))
  {
    assert RawBits(f, payload) == Clip(bits, f.width);
  }

  /**
    Pack then unpack: every field reads back the normal form of its own value, whatever the other
    fields hold and in whatever order they are listed.
   */
  lemma PackThenUnpack(lib: Library, fields: seq<Placed>, payload: seq<byte>, k: nat)
    requires AllWellPlaced(fields) && Disjoint(fields) && k < |fields|
    requires IsPacked(lib, fields, payload)
    ensures FitsPayload(fields[k], |payload|)
    ensures var f := fields[k];
            ReadField(lib, f, payload) == Normal(lib, f.fieldType, f.width, f.value)
  {
    PackedFieldRead(lib, fields, payload, k);
    var f := fields[k];
    assert FieldBits(lib, f).Ok?;
    if f.width == 0 {
      assert Clip(Zeros(RAW_BITS), 0) == Zeros(RAW_BITS);
    } else {
      ValueRoundTrip(lib, f.fieldType, f.width, f.value);
    }
  }

  // ---- What is packed, in numbers ----

  /** Any number field holds the residue of its number modulo 2^w. */
  lemma PackedNumber(lib: Library, fields: seq<Placed>, payload: seq<byte>, k: nat)
    requires AllWellPlaced(fields) && Disjoint(fields) && IsPacked(lib, fields, payload) && k < |fields|
    requires fields[k].fieldType == UNSIGNED_INT || fields[k].fieldType == ENUM || fields[k].fieldType == INT
    requires fields[k].value.Integer? && fields[k].width >= 1
    ensures var f := fields[k];
            FitsPayload(f, |payload|) && BinaryNumber(payload, f.begin, f.width) == f.value.i % Pow2(f.width)
  {
    hide BinaryNumber, NatOfBits, BitsOfNat, Pow2;
    PackedFieldRead(lib, fields, payload, k);
    var f := fields[k];
    var unsigned := f.(fieldType := UNSIGNED_INT);
    SameBitsOfField(f, unsigned, payload);
    RawBitsNumber(unsigned, payload);
    assert FieldBits(lib, f).Ok?;
    if f.fieldType == INT {
      LowBits(f.value.i % UINT64_LIMIT, f.width, f.width);
      ModOfMod(f.value.i, f.width);
    } else {
      LowBits(f.value.i, f.width, f.width);
    }
  }

  /** A bit field holds its truth value. */
  lemma PackedTruth(lib: Library, fields: seq<Placed>, payload: seq<byte>, k: nat)
    requires AllWellPlaced(fields) && Disjoint(fields) && IsPacked(lib, fields, payload) && k < |fields|
    requires fields[k].fieldType == BIT && fields[k].width == 1 && fields[k].value.Boolean?
    ensures FitsPayload(fields[k], |payload|) && BitAt(payload, fields[k].begin) == fields[k].value.b
  {
    PackedFieldRead(lib, fields, payload, k);
    BitFieldReads(lib, fields[k], payload);
  }

  /** A string field holds the text's first fourteen octets one after another, then zeros. */
  lemma PackedText(lib: Library, fields: seq<Placed>, payload: seq<byte>, k: nat, j: nat)
    requires AllWellPlaced(fields) && Disjoint(fields) && IsPacked(lib, fields, payload) && k < |fields|
    requires fields[k].fieldType == CHAR && fields[k].width == RAW_BITS && fields[k].value.Text? && j < RAW_OCTETS
    ensures var chars := fields[k].value.chars;
            && FitsPayload(fields[k], |payload|)
            && OctetFrom(payload, fields[k].begin + 8 * j) == if j < |chars| then NatOfByte(chars[j]) else 0
  {
    hide NatOfByte, RawOfOctets, OctetAt;
    PackedFieldRead(lib, fields, payload, k);
    var f := fields[k];
    ClipFitting(RawOfOctets(Padded(f.value.chars)), RAW_BITS);
    OctetsOfRawOfOctets(Padded(f.value.chars));
    OctetNumber(f, payload, j);
    assert OctetAt(RawBits(f, payload), j) == Octets(RawBits(f, payload))[j];
    ByteWeights(0);
  }

  /** A character field holds the first octet of its text. */
  lemma PackedChar(lib: Library, fields: seq<Placed>, payload: seq<byte>, k: nat)
    requires AllWellPlaced(fields) && Disjoint(fields) && IsPacked(lib, fields, payload) && k < |fields|
    requires fields[k].fieldType == CHAR && fields[k].width == CHAR_WIDTH
    requires fields[k].value.Text? && fields[k].value.chars != []
    ensures FitsPayload(fields[k], |payload|)
    ensures OctetFrom(payload, fields[k].begin) == NatOfByte(fields[k].value.chars[0])
  {
    var f := fields[k];
    PackedFieldRead(lib, fields, payload, k);
    hide BinaryNumber, NatOfBits, ByteOfBits, BitsOfByte;
    PackThenUnpack(lib, fields, payload, k);
    CharFieldReads(lib, f, payload);
    NatOfByteOfNat(OctetFrom(payload, f.begin));
  }

  /** The values that a field can hold as they are. */
  predicate FitsField(f: Placed)
  {
    match f.fieldType
    case CHAR => f.value.Text? && if f.width == RAW_BITS then |f.value.chars| <= RAW_OCTETS && 0 !in f.value.chars
                                  else |f.value.chars| == 1
    case BIT => f.width == 1 && f.value.Boolean?
    case INT => f.width >= 1 && f.value.Integer? && 0 - Pow2(f.width - 1) <= f.value.i < Pow2(f.width - 1)
    case FLOAT => false
    case _ => f.value.Integer? && 0 <= f.value.i < Pow2(f.width) && f.value.i < UINT64_LIMIT
  }

  lemma SignedOfResidue(i: int, half: int)
    requires half >= 1 && -half <= i < half
    ensures Signed(i % (2 * half), 2 * half) == i
  {
    ModUnique(i, 2 * half, if i < 0 then -1 else 0, if i < 0 then i + 2 * half else i);
  }

  lemma FittingIntegerIsNormal(lib: Library, i: int, w: nat)
    requires 1 <= w <= 64 && 0 - Pow2(w - 1) <= i < Pow2(w - 1)
    ensures AsInt64(Integer(i)).Ok? && Normal(lib, INT, w, Integer(i)) == Ok(Integer(i))
  {
    HalfRange(w);
    hide Signed, Pow2;
    SignedOfResidue(i, Pow2(w - 1));
  }

  lemma HalfRange(w: nat)
    requires 1 <= w <= 64
    ensures Pow2(w) == 2 * Pow2(w - 1) && 1 <= Pow2(w - 1) <= INT64_LIMIT
  {
    Pow2Widths();
    Pow2Monotone(w, 64);
  }

  lemma FittingIsNormal(lib: Library, f: Placed)
    requires WellPlaced(f) && FitsField(f)
    ensures Normal(lib, f.fieldType, f.width, f.value) == Ok(f.value)
  {
    match f.fieldType
    case CHAR =>
      NonZeroIdentity(f.value.chars);
      if f.width == CHAR_WIDTH {
        assert [f.value.chars[0]] == f.value.chars;
      }
    case BIT =>
    case INT => FittingIntegerIsNormal(lib, f.value.i, f.width);
    case FLOAT =>
    case _ => ModUnique(f.value.i, Pow2(f.width), 0, f.value.i);
  }

  /** A value that fits its field can be packed and comes back as itself. */
  lemma FittingValueReturns(lib: Library, fields: seq<Placed>, payload: seq<byte>, k: nat)
    requires AllWellPlaced(fields) && Disjoint(fields) && IsPacked(lib, fields, payload) && k < |fields|
    requires FitsField(fields[k])
    ensures FitsPayload(fields[k], |payload|) && ReadField(lib, fields[k], payload) == Ok(fields[k].value)
  {
    hide ReadField, Normal, FitsField;
    PackThenUnpack(lib, fields, payload, k);
    FittingIsNormal(lib, fields[k]);
  }

  lemma FittingValuePacks(lib: Library, f: Placed)
    requires WellPlaced(f) && FitsField(f) && f.width <= RAW_BITS
    ensures FieldBits(lib, f).Ok?
  {
    hide BitsOfNat;
    if f.fieldType == INT {
      HalfRange(f.width);
    }
  }

  // ---- Unpack, then pack ----

  predicate Covered(fields: seq<Placed>, p: nat)
  {
    exists k :: 0 <= k < |fields| && Covers(fields[k], p)
  }

  /** The payload with exactly the bits no field covers cleared. */
  predicate Masked(fields: seq<Placed>, payload: seq<byte>, out: seq<byte>)
  {
    && |out| == |payload|
    && forall p: nat :: p < 8 * |payload| ==> BitAt(out, p) == (BitAt(payload, p) && Covered(fields, p))
  }

  /** The field's bits survive a passage through JSON. */
  predicate Kept(lib: Library, f: Placed, payload: seq<byte>)
    requires FitsPayload(f, |payload|)
  {
    Survives(lib, f.fieldType, f.width, RawBits(f, payload))
  }

  predicate AllKept(lib: Library, fields: seq<Placed>, payload: seq<byte>)
    requires AllFit(fields, |payload|)
  {
    forall k :: 0 <= k < |fields| ==> Kept(lib, fields[k], payload)
  }

  lemma FieldRewritten(lib: Library, f: Placed, payload: seq<byte>)
    requires FitsPayload(f, |payload|) && f.width <= RAW_BITS && ReadField(lib, f, payload).Ok?
    ensures var bits := FieldBits(lib, f.(value := ReadField(lib, f, payload).value));
            && (f.fieldType != FLOAT ==> bits.Ok?)
            && (bits.Ok? && Clip(bits.value, f.width) == RawBits(f, payload) <==> Kept(lib, f, payload))
  {
    ReadableExactly(lib, f.fieldType, f.width, RawBits(f, payload));
    if f.width == 0 {
      assert Clip(Zeros(RAW_BITS), 0) == RawBits(f, payload);
    } else {
      RawRoundTrip(lib, f.fieldType, f.width, RawBits(f, payload));
    }
  }

  /** Two payloads agree on the bits of a field. */
  predicate AgreeOn(f: Placed, a: seq<byte>, b: seq<byte>)
    requires |a| == |b|
  {
    forall p: nat :: p < 8 * |a| && Covers(f, p) ==> BitAt(a, p) == BitAt(b, p)
  }

  lemma RawBitsDetermine(f: Placed, a: seq<byte>, b: seq<byte>)
    requires |a| == |b| && FitsPayload(f, |a|) && f.width <= RAW_BITS
    ensures AgreeOn(f, a, b) <==> RawBits(f, a) == RawBits(f, b)
  {
    if RawBits(f, a) == RawBits(f, b) {
      forall p: nat | p < 8 * |a| && Covers(f, p)
        ensures BitAt(a, p) == BitAt(b, p)
      {
        var position := f.begin + f.width - 1 - p;
        assert RawBits(f, a)[position] == BitAt(a, p);
        assert RawBits(f, b)[position] == BitAt(b, p);
      }
    }
  }

  lemma RewrittenAgrees(f: Placed, value: Json, clipped: RawValue, payload: seq<byte>, out: seq<byte>)
    requires FitsPayload(f, |payload|) && f.width <= RAW_BITS && |payload| == |out|
    requires RawBits(f.(value := value), out) == clipped
    ensures AgreeOn(f, out, payload) <==> clipped == RawBits(f, payload)
  {
    assert RawBits(f, out) == RawBits(f.(value := value), out);
    RawBitsDetermine(f, out, payload);
  }

  /** On the bits of one field the rewritten payload agrees exactly when they survive. */
  lemma FieldBitsAgree(lib: Library, fields: seq<Placed>, after: seq<Placed>, payload: seq<byte>, out: seq<byte>, k: nat)
    requires AllWellPlaced(fields) && Disjoint(fields) && k < |fields|
    requires AllFit(fields, |payload|) && AllWellPlaced(after) && |payload| == |out|
    requires UnpackedUpTo(lib, fields, after, payload, |fields|) && IsPacked(lib, after, out)
    ensures AgreeOn(fields[k], out, payload) <==> Kept(lib, fields[k], payload)
  {
    PackedWidth(lib, after, out, k);
    DisjointKept(fields, after);
    PackedFieldRead(lib, after, out, k);
    FieldRewritten(lib, fields[k], payload);
    RewrittenAgrees(fields[k], after[k].value, RawBits(after[k], out), payload, out);
  }

  lemma PackedWidth(lib: Library, fields: seq<Placed>, payload: seq<byte>, k: nat)
    requires AllWellPlaced(fields) && IsPacked(lib, fields, payload) && k < |fields|
    ensures fields[k].width <= RAW_BITS
  {
    assert FieldBits(lib, fields[k]).Ok?;
  }

  lemma DisjointKept(fields: seq<Placed>, after: seq<Placed>)
    requires Disjoint(fields) && |after| == |fields|
    requires forall k :: 0 <= k < |fields| ==> after[k] == fields[k].(value := after[k].value)
    ensures Disjoint(after)
  {
  }

  /**
    Unpack then pack is the projection onto the covered bits: the result is the payload with its
    reserved bits cleared, if and only if the bits of every field survive.
   */
  lemma UnpackThenPack(lib: Library, fields: seq<Placed>, after: seq<Placed>, payload: seq<byte>, out: seq<byte>)
    requires AllWellPlaced(fields) && Disjoint(fields)
    requires AllFit(fields, |payload|) && AllWellPlaced(after) && |payload| == |out|
    requires UnpackedUpTo(lib, fields, after, payload, |fields|) && IsPacked(lib, after, out)
    ensures Masked(fields, payload, out) <==> AllKept(lib, fields, payload)
  {
    hide Kept;
    if AllKept(lib, fields, payload) {
      forall p: nat | p < 8 * |payload|
        ensures BitAt(out, p) == (BitAt(payload, p) && Covered(fields, p))
      {
        if Covered(fields, p) {
          var k :| 0 <= k < |fields| && Covers(fields[k], p);
          FieldBitsAgree(lib, fields, after, payload, out, k);
        }
      }
    } else {
      var k :| 0 <= k < |fields| && !Kept(lib, fields[k], payload);
      FieldBitsAgree(lib, fields, after, payload, out, k);
      var p: nat :| p < 8 * |out| && Covers(fields[k], p) && BitAt(out, p) != BitAt(payload, p);
      assert Covered(fields, p);
    }
  }

  /** A NUL before an 'A' is gone once the payload has been unpacked and packed. */
  lemma GappedTextChanges(lib: Library)
    ensures var f := Placed("Text", CHAR, RAW_BITS, 8, Null);
            var payload := [0] + ([0, 65] + ZeroOctets(12));
            && FitsPayload(f, |payload|)
            && ReadField(lib, f, payload) == Ok(Text([65]))
            && FieldBits(lib, f.(value := Text([65]))) == Ok(RawOfOctets([65] + ZeroOctets(13)))
            && !Kept(lib, f, payload)
  {
    hide RawOfOctets, NonZero, Octets;
    var f := Placed("Text", CHAR, RAW_BITS, 8, Null);
    var octets: seq<byte> := [0, 65] + ZeroOctets(12);
    var payload := [0] + octets;
    TextFieldReads(lib, f, payload, 1);
    TextOctets(f, payload, 1);
    assert payload[1..15] == octets;
    NonZeroOfPadding([0, 65], 12);
    OneLetter();
    assert octets[0] == 0 && octets[1] == 65;
    assert Padded([65]) == [65] + ZeroOctets(13);
  }

  lemma OneLetter()
    ensures NonZero([0, 65]) == [65]
  {
    assert [0 as byte, 65][1..] == [65] && [65 as byte][1..] == [];
  }

  /** Unpacking refuses exactly a number field with a bit above its 64th; what was unpacked can be packed, FLOAT aside. */
  lemma UnpackAndPackSucceed(lib: Library, f: Placed, payload: seq<byte>)
    requires FitsPayload(f, |payload|) && f.width <= RAW_BITS
    ensures ReadField(lib, f, payload).Ok? <==> Readable(f.fieldType, RawBits(f, payload))
    ensures ReadField(lib, f, payload).Ok? && f.fieldType != FLOAT ==>
              FieldBits(lib, f.(value := ReadField(lib, f, payload).value)).Ok?
  {
    ReadableExactly(lib, f.fieldType, f.width, RawBits(f, payload));
    if ReadField(lib, f, payload).Ok? {
      FieldRewritten(lib, f, payload);
    }
  }

  // ---- Assigning some members leaves the other fields' bits alone ----

  predicate Mentions(members: seq<(string, Json)>, name: string)
  {
    exists i :: 0 <= i < |members| && members[i].0 == name
  }

  lemma {:induction false} UnmentionedUnchanged(fields: seq<Placed>, members: seq<(string, Json)>, k: nat)
    requires k < |fields| && !Mentions(members, fields[k].name)
    ensures |AllAssigned(fields, members)| == |fields| && AllAssigned(fields, members)[k] == fields[k]
  {
    NamesKept(fields, members);
    if members != [] {
      var init := members[..|members| - 1];
      assert forall i :: 0 <= i < |init| ==> init[i] == members[i];
      UnmentionedUnchanged(fields, init, k);
      NamesKept(fields, init);
      assert members[|members| - 1].0 != fields[k].name;
    }
  }

  /** The first field of a name takes the value of the last member of that name. */
  lemma {:induction false} LastMemberTaken(fields: seq<Placed>, members: seq<(string, Json)>, i: nat, k: nat)
    requires i < |members| && k == FirstIndex(fields, members[i].0) < |fields|
    requires forall j :: i < j < |members| ==> members[j].0 != members[i].0
    ensures |AllAssigned(fields, members)| == |fields|
    ensures AllAssigned(fields, members)[k] == fields[k].(value := members[i].1)
  {
    var n := |members| - 1;
    var before := AllAssigned(fields, members[..n]);
    NamesKept(fields, members);
    NamesKept(fields, members[..n]);
    if i == n {
      FirstIndexUnique(before, members[i].0, k);
    } else {
      LastMemberTaken(fields, members[..n], i, k);
      assert before[k].name == members[i].0 != members[n].0;
    }
  }

  /** A later field of a name that an earlier field has keeps its value, whatever is assigned. */
  lemma {:induction false} ShadowedUnchanged(fields: seq<Placed>, members: seq<(string, Json)>, k: nat)
    requires k < |fields| && FirstIndex(fields, fields[k].name) < k
    ensures |AllAssigned(fields, members)| == |fields| && AllAssigned(fields, members)[k] == fields[k]
  {
    NamesKept(fields, members);
    if members != [] {
      var n := |members| - 1;
      ShadowedUnchanged(fields, members[..n], k);
      NamesKept(fields, members[..n]);
      var before, first := AllAssigned(fields, members[..n]), FirstIndex(fields, fields[k].name);
      assert before[first].name == fields[k].name;
    }
  }

  /**
    A JSON object changes the packed payload only at bits of the fields it names, overlapping
    layouts and repeated names included.
   */
  lemma AssignmentFrame(lib: Library, fields: seq<Placed>, members: seq<(string, Json)>,
                        before: seq<byte>, after: seq<byte>, p: nat)
    requires AllWellPlaced(fields) && AllWellPlaced(AllAssigned(fields, members))
    requires IsPacked(lib, fields, before) && IsPacked(lib, AllAssigned(fields, members), after)
    requires p < 8 * |before|
    requires forall k :: 0 <= k < |fields| && Covers(fields[k], p) ==> !Mentions(members, fields[k].name)
    ensures |after| == |before| && BitAt(after, p) == BitAt(before, p)
  {
    var changed := AllAssigned(fields, members);
    NamesKept(fields, members);
    SizeOfSameLayout(fields, changed);
    forall k | 0 <= k < |fields|
      ensures Contributes(lib, fields[k], p) == Contributes(lib, changed[k], p)
    {
      if Covers(fields[k], p) {
        UnmentionedUnchanged(fields, members, k);
      }
    }
  }
}
