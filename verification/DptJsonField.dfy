/**
  One field of a JSON datapoint: a typed value and its raw form, the 112-bit set that is
  exchanged with the payload. Models src/knxgroupobject/dptjsonfield.cpp.
 */
module DptJsonField {
  import opened Bits
  import opened JsonValues
  import opened Outcomes

  datatype FieldType = CHAR | BIT | UNSIGNED_INT | INT | ENUM | FLOAT

  const RAW_BITS: nat := 112
  const RAW_OCTETS: nat := 14
  const CHAR_WIDTH: nat := 8

  /** A raw value, least significant bit first. */
  type RawValue = bits: seq<bool> | |bits| == RAW_BITS witness Zeros(RAW_BITS)

  function Zeros(n: nat): (bits: seq<bool>)
    ensures |bits| == n
    ensures forall i :: 0 <= i < n ==> !bits[i]
  {
    seq(n, _ => false)
  }

  /** The widths the constructor accepts. */
  predicate SupportedWidth(fieldType: FieldType, width: nat)
  {
    match fieldType
    case CHAR => width == CHAR_WIDTH || width == RAW_BITS
    case INT => width == 8 || width == 16 || width == 32 || width == 64
    case FLOAT => width == 16 || width == 32
    case _ => true
  }

  // ---- Bit set operations ----

  function ShiftRight(v: RawValue, n: nat): RawValue
  {
    seq(RAW_BITS, p requires 0 <= p < RAW_BITS => p + n < RAW_BITS && v[p + n])
  }

  function ShiftLeft(v: RawValue, n: nat): RawValue
  {
    seq(RAW_BITS, p requires 0 <= p < RAW_BITS => p >= n && v[p - n])
  }

  function Or(v: RawValue, w: RawValue): RawValue
  {
    seq(RAW_BITS, p requires 0 <= p < RAW_BITS => v[p] || w[p])
  }

  function RawOfByte(b: byte): RawValue
  {
    BitsOfByte(b) + Zeros(RAW_BITS - 8)
  }

  function LowByte(v: RawValue): byte
  {
    ByteOfBits(v[..8])
  }

  /** to_ullong throws when a bit above the 64th is set. */
  predicate FitsUInt64(v: RawValue)
  {
    forall p :: 64 <= p < RAW_BITS ==> !v[p]
  }

  /** All bits at or above the width are clear, as in every raw value read from a payload. */
  predicate FitsWidth(v: RawValue, width: nat)
  {
    forall p :: width <= p < RAW_BITS ==> !v[p]
  }

  /** The bits of a raw value that reach a payload through a field of this width. */
  function Clip(v: RawValue, width: nat): RawValue
  {
    seq(RAW_BITS, p requires 0 <= p < RAW_BITS => p < width && v[p])
  }

  // ---- Character strings as fourteen octets ----

  function OctetAt(v: RawValue, j: nat): byte
    requires j < RAW_OCTETS
  {
    ByteOfBits(v[8 * (13 - j)..8 * (13 - j) + 8])
  }

  /** The octets of a raw value, most significant first. */
  function Octets(v: RawValue): (octets: seq<byte>)
    ensures |octets| == RAW_OCTETS
  {
    seq(RAW_OCTETS, j requires 0 <= j < RAW_OCTETS => OctetAt(v, j))
  }

  function RawOfOctets(octets: seq<byte>): RawValue
    requires |octets| == RAW_OCTETS
  {
    seq(RAW_BITS, p requires 0 <= p < RAW_BITS => BitsOfByte(octets[13 - p / 8])[p % 8])
  }

  lemma OctetsOfRawOfOctets(octets: seq<byte>)
    requires |octets| == RAW_OCTETS
    ensures Octets(RawOfOctets(octets)) == octets
  {
    hide ByteOfBits, BitsOfByte;
    forall j | 0 <= j < RAW_OCTETS
      ensures OctetAt(RawOfOctets(octets), j) == octets[j]
    {
      OctetOfRawOfOctets(octets, j);
    }
  }

  lemma OctetOfRawOfOctets(octets: seq<byte>, j: nat)
    requires |octets| == RAW_OCTETS && j < RAW_OCTETS
    ensures OctetAt(RawOfOctets(octets), j) == octets[j]
  {
    hide ByteOfBits, BitsOfByte;
    var v, base := RawOfOctets(octets), 8 * (13 - j);
    forall k | 0 <= k < 8
      ensures v[base..base + 8][k] == BitsOfByte(octets[j])[k]
    {
      RawBit(octets, 13 - j, k);
    }
    assert v[base..base + 8] == BitsOfByte(octets[j]);
    ByteOfBitsOfByte(octets[j]);
  }

  lemma OctetBits(v: RawValue, j: nat, k: nat)
    requires j < RAW_OCTETS && k < 8
    ensures BitsOfByte(OctetAt(v, j))[k] == v[8 * (13 - j) + k]
  {
    BitsOfByteOfBits(v[8 * (13 - j)..8 * (13 - j) + 8]);
  }

  lemma RawOfOctetsOfRaw(v: RawValue)
    ensures RawOfOctets(Octets(v)) == v
  {
    hide ByteOfBits, BitsOfByte;
    forall p | 0 <= p < RAW_BITS
      ensures RawOfOctets(Octets(v))[p] == v[p]
    {
      OctetBits(v, 13 - p / 8, p % 8);
    }
  }

  function NonZero(octets: seq<byte>): seq<byte>
  {
    if octets == [] then [] else (if octets[0] != 0 then [octets[0]] else []) + NonZero(octets[1..])
  }

  function ZeroOctets(n: nat): (octets: seq<byte>)
    ensures |octets| == n
    ensures forall i :: 0 <= i < n ==> octets[i] == 0
  {
    seq(n, _ => 0)
  }

  /** The text that fits a string field. */
  function Fitting(text: seq<byte>): (t: seq<byte>)
    ensures |t| <= RAW_OCTETS
  {
    if |text| > RAW_OCTETS then text[..RAW_OCTETS] else text
  }

  function Padded(text: seq<byte>): (octets: seq<byte>)
    ensures |octets| == RAW_OCTETS
  {
    Fitting(text) + ZeroOctets(RAW_OCTETS - |Fitting(text)|)
  }

  // ---- The two conversions of a field ----

  function Signed(n: int, limit: int): int
  {
    if n < limit / 2 then n else n - limit
  }

  function Min(a: nat, b: nat): nat
  {
    if a < b then a else b
  }

  /** The JSON value a raw value denotes in a field of this type and width. */
  function ValueOfRaw(lib: Library, fieldType: FieldType, width: nat, raw: RawValue): Result<Json>
    requires SupportedWidth(fieldType, width)
  {
    match fieldType
    case CHAR =>
      if width == RAW_BITS then Ok(Text(NonZero(Octets(raw))))
      else if FitsUInt64(raw) then Ok(Text([LowByte(raw)])) else Err(RawValueOverflow)
    case BIT => Ok(Boolean(raw[0]))
    case UNSIGNED_INT => UnsignedOfRaw(width, raw)
    case ENUM => UnsignedOfRaw(width, raw)
    case INT =>
      if FitsUInt64(raw) then Ok(Integer(Signed(NatOfBits(raw[..width]), Pow2(width)))) else Err(RawValueOverflow)
    case FLOAT =>
      if FitsUInt64(raw) then Ok(lib.floatOfWord(width, NatOfBits(raw[..width]))) else Err(RawValueOverflow)
  }

  function UnsignedOfRaw(width: nat, raw: RawValue): Result<Json>
  {
    if FitsUInt64(raw) then Ok(Integer(NatOfBits(raw[..Min(width, 64)]))) else Err(RawValueOverflow)
  }

  /** The raw value of a JSON value in a field of this type and width. */
  function RawOfValue(lib: Library, fieldType: FieldType, width: nat, value: Json): Result<RawValue>
    requires SupportedWidth(fieldType, width)
  {
    match fieldType
    case CHAR =>
      var text :- AsString(lib, value);
      if width == RAW_BITS then Ok(RawOfOctets(Padded(text)))
      else Ok(if text == [] then Zeros(RAW_BITS) else RawOfByte(text[0]))
    case BIT =>
      var b :- AsBool(value);
      Ok([b] + Zeros(RAW_BITS - 1))
    case UNSIGNED_INT => RawOfUnsigned(value)
    case ENUM => RawOfUnsigned(value)
    case INT =>
      var i :- AsInt64(value);
      Ok(BitsOfNat(i % UINT64_LIMIT, RAW_BITS))
    case FLOAT =>
      var word :- lib.wordOfFloat(width, value);
      Ok(BitsOfNat(word % Pow2(width), RAW_BITS))
  }

  function RawOfUnsigned(value: Json): Result<RawValue>
  {
    var n :- AsUInt64(value);
    assert n >= 0;
    Ok(BitsOfNat(n, RAW_BITS))
  }

  // ---- The loops of the string conversions ----

  lemma ShiftedOctet(raw: RawValue, i: nat)
    requires i < RAW_OCTETS
    ensures ShiftRight(raw, 8 * i)[..8] == raw[8 * i..8 * i + 8]
  {
  }

  lemma ShiftTwice(raw: RawValue, i: nat)
    ensures ShiftRight(ShiftRight(raw, 8 * i), 8) == ShiftRight(raw, 8 * (i + 1))
  {
  }

  lemma RawBit(octets: seq<byte>, q: nat, k: nat)
    requires |octets| == RAW_OCTETS && q < RAW_OCTETS && k < 8
    ensures RawOfOctets(octets)[8 * q + k] == BitsOfByte(octets[13 - q])[k]
  {
    assert (8 * q + k) / 8 == q && (8 * q + k) % 8 == k;
  }

  lemma ShiftedBit(before: seq<byte>, after: seq<byte>, n: nat, q: nat, k: nat)
    requires |before| == |after| == RAW_OCTETS && n <= RAW_OCTETS && q < RAW_OCTETS && k < 8
    requires if q >= n then after[13 - q] == before[13 - (q - n)] else after[13 - q] == 0
    ensures ShiftLeft(RawOfOctets(before), 8 * n)[8 * q + k] == RawOfOctets(after)[8 * q + k]
  {
    RawBit(after, q, k);
    if q >= n {
      RawBit(before, q - n, k);
    }
  }

  /** Shifting whole octets towards the most significant end. */
  lemma ShiftOctets(before: seq<byte>, after: seq<byte>, n: nat)
    requires |before| == |after| == RAW_OCTETS && n <= RAW_OCTETS
    requires forall j :: 0 <= j < RAW_OCTETS - n ==> after[j] == before[j + n]
    requires forall j :: RAW_OCTETS - n <= j < RAW_OCTETS ==> after[j] == 0
    ensures ShiftLeft(RawOfOctets(before), 8 * n) == RawOfOctets(after)
  {
    forall p | 0 <= p < RAW_BITS
      ensures ShiftLeft(RawOfOctets(before), 8 * n)[p] == RawOfOctets(after)[p]
    {
      ShiftedBit(before, after, n, p / 8, p % 8);
    }
  }

  /** Or-ing an octet into the free low end. */
  lemma OrOctet(octets: seq<byte>, b: byte)
    requires |octets| == RAW_OCTETS && octets[13] == 0
    ensures Or(RawOfOctets(octets), RawOfByte(b)) == RawOfOctets(octets[13 := b])
  {
    hide BitsOfByte;
    ZeroBits();
    forall p | 0 <= p < RAW_BITS
      ensures Or(RawOfOctets(octets), RawOfByte(b))[p] == RawOfOctets(octets[13 := b])[p]
    {
      RawBit(octets, p / 8, p % 8);
      RawBit(octets[13 := b], p / 8, p % 8);
      if p < 8 {
        assert p / 8 == 0 && p % 8 == p;
      } else {
        assert p / 8 >= 1;
      }
    }
  }

  lemma ZeroBits()
    ensures forall k :: 0 <= k < 8 ==> !BitsOfByte(0)[k]
  {
  }

  /** A string of up to fourteen octets at the low end of a raw value, as the loop builds it. */
  function RightAligned(text: seq<byte>): RawValue
    requires |text| <= RAW_OCTETS
  {
    RawOfOctets(ZeroOctets(RAW_OCTETS - |text|) + text)
  }

  lemma AppendOctet(text: seq<byte>, b: byte)
    requires |text| < RAW_OCTETS
    ensures Or(ShiftLeft(RightAligned(text), 8), RawOfByte(b)) == RightAligned(text + [b])
  {
    var free := RAW_OCTETS - |text|;
    var shifted := ZeroOctets(free - 1) + text + [0];
    ShiftOctets(ZeroOctets(free) + text, shifted, 1);
    OrOctet(shifted, b);
    assert shifted[13 := b] == ZeroOctets(free - 1) + (text + [b]);
  }

  lemma AlignLeft(text: seq<byte>)
    requires |text| <= RAW_OCTETS
    ensures ShiftLeft(RightAligned(text), RAW_BITS - 8 * |text|) == RawOfOctets(Padded(text))
  {
    var free := RAW_OCTETS - |text|;
    ShiftOctets(ZeroOctets(free) + text, Padded(text), free);
  }

  lemma FirstOctet(b: byte)
    ensures RawOfByte(b) == RightAligned([b])
    ensures Zeros(RAW_BITS) == RawOfOctets(Padded([]))
  {
    var zero := ZeroOctets(RAW_OCTETS);
    assert RawOfOctets(zero) == Zeros(RAW_BITS);
    OrOctet(zero, b);
    assert Or(Zeros(RAW_BITS), RawOfByte(b)) == RawOfByte(b);
    assert zero[13 := b] == ZeroOctets(13) + [b];
    assert Padded([]) == zero;
  }

  lemma PaddedFitting(text: seq<byte>)
    ensures Padded(Fitting(text)) == Padded(text)
  {
  }

  /** The string case of GetRawValue. */
  method RawOfString(str: seq<byte>) returns (raw: RawValue)
    ensures raw == RawOfOctets(Padded(str))
  {
    var text := str;
    if text == [] {
      FirstOctet(0);
      return Zeros(RAW_BITS);
    } else if |text| > RAW_OCTETS {
      text := text[..RAW_OCTETS];
    }
    PaddedFitting(str);
    FirstOctet(text[0]);
    raw := RawOfByte(text[0]);
    assert [text[0]] == text[..1];
    for i := 1 to |text|
      invariant raw == RightAligned(text[..i])
    {
      AppendOctet(text[..i], text[i]);
      assert text[..i] + [text[i]] == text[..i + 1];
      raw := Or(ShiftLeft(raw, 8), RawOfByte(text[i]));
    }
    assert text[..|text|] == text;
    AlignLeft(text);
    raw := ShiftLeft(raw, RAW_BITS - 8 * |text|);
  }

  /** The string case of SetValue. */
  method StringOfRaw(raw: RawValue) returns (text: seq<byte>)
    ensures text == NonZero(Octets(raw))
  {
    hide ByteOfBits, BitsOfByte;
    text := [];
    var value := raw;
    assert ShiftRight(raw, 0) == raw;
    for i := 0 to RAW_OCTETS
      invariant value == ShiftRight(raw, 8 * i)
      invariant text == NonZero(Octets(raw)[RAW_OCTETS - i..])
    {
      var lowByte := LowByte(value);
      ShiftedOctet(raw, i);
      assert lowByte == Octets(raw)[13 - i];
      assert Octets(raw)[13 - i..] == [lowByte] + Octets(raw)[RAW_OCTETS - i..];
      if lowByte != 0 {
        text := [lowByte] + text;
      }
      value := ShiftRight(value, 8);
      ShiftTwice(raw, i);
    }
    assert Octets(raw)[0..] == Octets(raw);
  }

  /** Models TDptJsonField; the JSON value is overwritten in place. */
  class JsonField {
    const name: string
    const fieldKind: FieldType
    const bitWidth: nat
    const lib: Library
    var value: Json

    predicate Valid()
    {
      SupportedWidth(fieldKind, bitWidth)
    }

    constructor (lib: Library, name: string, fieldType: FieldType, width: nat, value: Json)
      ensures this.name == name && fieldKind == fieldType && bitWidth == width && this.lib == lib && this.value == value
    {
      this.name, fieldKind, bitWidth, this.lib, this.value := name, fieldType, width, lib, value;
    }

    /** The public constructor, which throws for a width its type does not support. */
    static method Create(lib: Library, name: string, fieldType: FieldType, width: nat) returns (r: Result<JsonField>)
      ensures r.Ok? <==> SupportedWidth(fieldType, width)
      ensures r.Err? ==> r.error == FieldWidthUnsupported
      ensures r.Ok? ==>
                && fresh(r.value) && r.value.Valid() && r.value.lib == lib && r.value.value == Null
                && r.value.name == name && r.value.fieldKind == fieldType && r.value.bitWidth == width
    {
      if !SupportedWidth(fieldType, width) {
        return Err(FieldWidthUnsupported);
      }
      var field := new JsonField(lib, name, fieldType, width, Null);
      r := Ok(field);
    }

    method SetValue(value: Json)
      modifies this`value
      ensures this.value == value
    {
      this.value := value;
    }

    /** Overwrites the value from a raw value, or leaves it alone and throws. */
    method SetRawValue(raw: RawValue) returns (r: Outcome)
      requires Valid()
      modifies this`value
      ensures match ValueOfRaw(lib, fieldKind, bitWidth, raw)
              case Ok(denoted) => r == Done && value == denoted
              case Err(e) => r == Failed(e) && value == old(value)
    {
      if fieldKind == CHAR && bitWidth == RAW_BITS {
        var text := StringOfRaw(raw);
        value := Text(text);
        return Done;
      }
      var denoted := ValueOfRaw(lib, fieldKind, bitWidth, raw);
      if denoted.Err? {
        return Failed(denoted.error);
      }
      value := denoted.value;
      r := Done;
    }

    /** The raw value that ToKnx writes. */
    method GetRawValue() returns (r: Result<RawValue>)
      requires Valid()
      ensures r == RawOfValue(lib, fieldKind, bitWidth, value)
    {
      if fieldKind == CHAR && bitWidth == RAW_BITS {
        var text :- AsString(lib, value);
        var raw := RawOfString(text);
        return Ok(raw);
      }
      r := RawOfValue(lib, fieldKind, bitWidth, value);
    }
  }
}
