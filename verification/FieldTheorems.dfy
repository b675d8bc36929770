/**
  What survives the two conversions of a field: a raw value through JSON and back, and a JSON
  value through its raw form and back.
 */
module FieldTheorems {
  import opened Bits
  import opened JsonValues
  import opened DptJsonField
  import opened Outcomes

  // ---- Raw to value to raw ----

  /** No zero octet precedes a non-zero one. */
  predicate NoGap(octets: seq<byte>)
  {
    forall i, j :: 0 <= i < j < |octets| && octets[i] == 0 ==> octets[j] == 0
  }

  function Compact(octets: seq<byte>): seq<byte>
  {
    NonZeroShorter(octets);
    NonZero(octets) + ZeroOctets(|octets| - |NonZero(octets)|)
  }

  lemma {:induction false} NonZeroShorter(octets: seq<byte>)
    ensures |NonZero(octets)| <= |octets|
    ensures forall i :: 0 <= i < |NonZero(octets)| ==> NonZero(octets)[i] != 0
    ensures NonZero(octets) == [] <==> forall i :: 0 <= i < |octets| ==> octets[i] == 0
  {
    if octets != [] {
      NonZeroShorter(octets[1..]);
      assert octets == [octets[0]] + octets[1..];
    }
  }

  lemma NoGapTail(octets: seq<byte>)
    requires octets != [] && octets[0] != 0
    ensures NoGap(octets) <==> NoGap(octets[1..])
  {
    var rest := octets[1..];
    if NoGap(rest) {
      forall i, j | 0 <= i < j < |octets| && octets[i] == 0
        ensures octets[j] == 0
      {
        assert rest[i - 1] == 0 ==> rest[j - 1] == 0;
      }
    } else {
      var i, j :| 0 <= i < j < |rest| && rest[i] == 0 && rest[j] != 0;
      assert octets[i + 1] == 0 && octets[j + 1] != 0;
    }
  }

  /** Closing the gaps of a string leaves it alone exactly when it has none. */
  lemma {:induction false} CompactIdentity(octets: seq<byte>)
    ensures Compact(octets) == octets <==> NoGap(octets)
  {
    NonZeroShorter(octets);
    if octets != [] {
      var rest := octets[1..];
      NonZeroShorter(rest);
      if octets[0] != 0 {
        CompactIdentity(rest);
        NoGapTail(octets);
        assert Compact(octets) == [octets[0]] + Compact(rest);
        assert octets == [octets[0]] + rest;
      } else if NonZero(rest) == [] {
        assert Compact(octets) == octets;
      } else {
        assert Compact(octets)[0] == NonZero(octets)[0] != 0;
        var j :| 0 <= j < |rest| && rest[j] != 0;
        assert octets[0] == 0 && octets[j + 1] != 0;
      }
    }
  }

  lemma {:induction false} NonZeroOfPadding(text: seq<byte>, n: nat)
    ensures NonZero(text + ZeroOctets(n)) == NonZero(text)
  {
    if text == [] {
      NonZeroShorter(ZeroOctets(n));
      assert [] + ZeroOctets(n) == ZeroOctets(n);
    } else {
      NonZeroOfPadding(text[1..], n);
      assert (text + ZeroOctets(n))[1..] == text[1..] + ZeroOctets(n);
    }
  }

  lemma {:induction false} NonZeroIdentity(text: seq<byte>)
    ensures NonZero(text) == text <==> 0 !in text
  {
    NonZeroShorter(text);
    if text != [] {
      NonZeroIdentity(text[1..]);
      NonZeroShorter(text[1..]);
      assert text == [text[0]] + text[1..];
    }
  }

  /**
    A string field gives back the first fourteen octets of the text written to it exactly when
    none of them is NUL.
   */
  lemma StringRoundTrip(text: seq<byte>)
    ensures NonZero(Octets(RawOfOctets(Padded(text)))) == Fitting(text) <==> 0 !in Fitting(text)
  {
    OctetsOfRawOfOctets(Padded(text));
    NonZeroOfPadding(Fitting(text), RAW_OCTETS - |Fitting(text)|);
    NonZeroIdentity(Fitting(text));
  }

  /** Reading a string field and writing it back moves the non-zero octets to the front, once. */
  lemma StringCompaction(octets: seq<byte>)
    requires |octets| == RAW_OCTETS
    ensures Padded(NonZero(octets)) == Compact(octets)
    ensures Compact(Compact(octets)) == Compact(octets)
  {
    NonZeroShorter(octets);
    NonZeroOfPadding(NonZero(octets), RAW_OCTETS - |NonZero(octets)|);
    NonZeroIdentity(NonZero(octets));
  }

  lemma Pow2Widths()
    ensures Pow2(8) == 0x100 && Pow2(16) == 0x1_0000
    ensures Pow2(32) == 0x1_0000_0000 && Pow2(64) == UINT64_LIMIT
  {
    assert Pow2(4) == 16;
    Pow2Add(4, 4);
    Pow2Add(8, 8);
    Pow2Add(16, 16);
    Pow2Add(32, 32);
  }

  /** An unsigned number of at most 64 bits keeps its bit pattern. */
  lemma NumberOfRaw(raw: RawValue, width: nat)
    requires width <= 64 && FitsWidth(raw, width)
    ensures NatOfBits(raw[..width]) < UINT64_LIMIT
    ensures BitsOfNat(NatOfBits(raw[..width]), RAW_BITS) == raw
  {
    var n := NatOfBits(raw[..width]);
    Pow2Monotone(width, 64);
    Pow2Widths();
    BitsOfNatOfBits(raw[..width]);
    BitsOfNatPrefix(n, width, RAW_BITS);
    BitsOfSmallNat(n, width, RAW_BITS);
    assert BitsOfNat(n, RAW_BITS) == BitsOfNat(n, RAW_BITS)[..width] + BitsOfNat(n, RAW_BITS)[width..];
    assert raw == raw[..width] + raw[width..];
  }

  lemma SignedModulo(n: nat, width: nat)
    requires n < Pow2(width) && (width == 8 || width == 16 || width == 32 || width == 64)
    ensures var i := Signed(n, Pow2(width));
            -INT64_LIMIT <= i < INT64_LIMIT && i % Pow2(width) == n
  {
    Pow2Widths();
    var i := Signed(n, Pow2(width));
    ModUnique(i, Pow2(width), if i == n then 0 else -1, n);
  }

  /** Two's complement extension agrees with the number modulo 2^width on the field's bits. */
  lemma SignedBits(n: nat, width: nat)
    requires n < Pow2(width) && (width == 8 || width == 16 || width == 32 || width == 64)
    ensures BitsOfNat(Signed(n, Pow2(width)) % UINT64_LIMIT, RAW_BITS)[..width] == BitsOfNat(n, width)
  {
    Pow2Widths();
    var i := Signed(n, Pow2(width));
    var u := i % UINT64_LIMIT;
    SignedModulo(n, width);
    ModOfMod(i, width);
    BitsOfNatPrefix(u, width, RAW_BITS);
    BitsModulo(u, width);
    BitsModulo(n, width);
  }

  lemma ModOfMod(i: int, width: nat)
    requires width <= 64
    ensures i % UINT64_LIMIT % Pow2(width) == i % Pow2(width)
  {
    Pow2Widths();
    Pow2Add(width, 64 - width);
    ModOfProduct(i, Pow2(width), Pow2(64 - width));
  }

  /** Only a number's residue modulo 2^w reaches its low w bits. */
  lemma BitsModulo(n: nat, w: nat)
    ensures BitsOfNat(n, w) == BitsOfNat(n % Pow2(w), w)
  {
    NatOfBitsOfNat(n, w);
    BitsOfNatOfBits(BitsOfNat(n, w));
  }

  lemma RawOfCompacted(raw: RawValue)
    ensures Clip(RawOfOctets(Compact(Octets(raw))), RAW_BITS) == raw <==> NoGap(Octets(raw))
  {
    var compacted := RawOfOctets(Compact(Octets(raw)));
    ClipFitting(compacted, RAW_BITS);
    CompactIdentity(Octets(raw));
    OctetsOfRawOfOctets(Compact(Octets(raw)));
    RawOfOctetsOfRaw(raw);
  }

  /** to_ullong accepts the raw value of a number field. */
  predicate Readable(fieldType: FieldType, raw: RawValue)
  {
    fieldType == UNSIGNED_INT || fieldType == ENUM ==> FitsUInt64(raw)
  }

  /**
    The raw values that survive a passage through JSON: strings without a gap, bit fields with
    nothing above their lowest bit, FLOAT words that the library's conversions give back, and all
    others.
   */
  predicate Survives(lib: Library, fieldType: FieldType, width: nat, raw: RawValue)
    requires SupportedWidth(fieldType, width)
  {
    match fieldType
    case CHAR => width == RAW_BITS ==> NoGap(Octets(raw))
    case BIT => FitsWidth(raw, 1)
    case FLOAT => FloatSurvives(lib, width, NatOfBits(raw[..width]))
    case _ => true
  }

  predicate FloatSurvives(lib: Library, width: nat, n: nat)
  {
    var word := lib.wordOfFloat(width, lib.floatOfWord(width, n));
    word.Ok? && word.value % Pow2(width) == n
  }

  /** Turned into JSON and back, a raw value of this field reappears on its bits, or does not. */
  predicate Rewrites(lib: Library, fieldType: FieldType, width: nat, raw: RawValue, same: bool)
    requires SupportedWidth(fieldType, width)
  {
    var value := ValueOfRaw(lib, fieldType, width, raw);
    && value.Ok?
    && var again := RawOfValue(lib, fieldType, width, value.value);
    && (fieldType != FLOAT ==> again.Ok?)
    && (again.Ok? && Clip(again.value, width) == raw <==> same)
  }

  lemma StringRawRoundTrip(lib: Library, raw: RawValue)
    ensures Rewrites(lib, CHAR, RAW_BITS, raw, NoGap(Octets(raw)))
  {
    var text := Text(NonZero(Octets(raw)));
    assert ValueOfRaw(lib, CHAR, RAW_BITS, raw) == Ok(text);
    StringCompaction(Octets(raw));
    assert RawOfValue(lib, CHAR, RAW_BITS, text) == Ok(RawOfOctets(Compact(Octets(raw))));
    RawOfCompacted(raw);
  }

  lemma CharRawRoundTrip(lib: Library, raw: RawValue)
    requires FitsWidth(raw, CHAR_WIDTH)
    ensures Rewrites(lib, CHAR, CHAR_WIDTH, raw, true)
  {
    ClipFitting(raw, CHAR_WIDTH);
    BitsOfByteOfBits(raw[..8]);
    assert RawOfByte(LowByte(raw)) == raw;
  }

  lemma BitRawRoundTrip(lib: Library, width: nat, raw: RawValue)
    requires FitsWidth(raw, width)
    ensures Rewrites(lib, BIT, width, raw, FitsWidth(raw, 1))
  {
    var bits: RawValue := [raw[0]] + Zeros(RAW_BITS - 1);
    if FitsWidth(raw, 1) {
      ClipFitting(raw, width);
      assert bits == raw;
    } else {
      var p :| 1 <= p < RAW_BITS && raw[p];
      assert Clip(bits, width)[p] != raw[p];
    }
  }

  lemma UnsignedRawRoundTrip(lib: Library, fieldType: FieldType, raw: RawValue, width: nat)
    requires fieldType == UNSIGNED_INT || fieldType == ENUM
    requires FitsWidth(raw, width) && FitsUInt64(raw)
    ensures Rewrites(lib, fieldType, width, raw, true)
  {
    ClipFitting(raw, width);
    NumberOfRaw(raw, Min(width, 64));
  }

  lemma FloatRawRoundTrip(lib: Library, raw: RawValue, width: nat)
    requires width == 16 || width == 32
    requires FitsWidth(raw, width)
    ensures Rewrites(lib, FLOAT, width, raw, FloatSurvives(lib, width, NatOfBits(raw[..width])))
  {
    hide BitsOfNat, NatOfBits, Pow2;
    var n := NatOfBits(raw[..width]);
    var word := lib.wordOfFloat(width, lib.floatOfWord(width, n));
    if word.Ok? {
      WordOnBits(raw, width, word.value % Pow2(width));
    }
  }

  /** A word put on the bits of a field is the raw value exactly when it is the number those bits spell. */
  lemma WordOnBits(raw: RawValue, width: nat, word: nat)
    requires width <= 64 && FitsWidth(raw, width) && word < Pow2(width)
    ensures Clip(BitsOfNat(word, RAW_BITS), width) == raw <==> word == NatOfBits(raw[..width])
  {
    LowBits(word, width, width);
    ModUnique(word, Pow2(width), 0, word);
    NumberOfRaw(raw, width);
    ClipFitting(raw, width);
  }

  lemma SignedRawBits(raw: RawValue, width: nat)
    requires width == 8 || width == 16 || width == 32 || width == 64
    requires FitsWidth(raw, width)
    ensures var i := Signed(NatOfBits(raw[..width]), Pow2(width));
            && -INT64_LIMIT <= i < INT64_LIMIT
            && Clip(BitsOfNat(i % UINT64_LIMIT, RAW_BITS), width) == raw
  {
    var n := NatOfBits(raw[..width]);
    SignedModulo(n, width);
    SignedBits(n, width);
    BitsOfNatOfBits(raw[..width]);
    ClipByPrefix(BitsOfNat(Signed(n, Pow2(width)) % UINT64_LIMIT, RAW_BITS), raw, width);
  }

  lemma ClipByPrefix(bits: RawValue, raw: RawValue, width: nat)
    requires width <= RAW_BITS && FitsWidth(raw, width) && bits[..width] == raw[..width]
    ensures Clip(bits, width) == raw
  {
    assert forall p :: 0 <= p < width ==> bits[p] == bits[..width][p] && raw[p] == raw[..width][p];
  }

  lemma SignedRawRoundTrip(lib: Library, raw: RawValue, width: nat)
    requires width == 8 || width == 16 || width == 32 || width == 64
    requires FitsWidth(raw, width)
    ensures Rewrites(lib, INT, width, raw, true)
  {
    hide BitsOfNat, NatOfBits, Pow2;
    SignedRawBits(raw, width);
  }

  /**
    A raw value read from a payload, turned into JSON and back, reappears on the field's bits if
    and only if it is one that survives.
   */
  lemma RawRoundTrip(lib: Library, fieldType: FieldType, width: nat, raw: RawValue)
    requires SupportedWidth(fieldType, width) && FitsWidth(raw, width) && Readable(fieldType, raw)
    ensures Rewrites(lib, fieldType, width, raw, Survives(lib, fieldType, width, raw))
  {
    match fieldType
    case CHAR =>
      if width == RAW_BITS {
        StringRawRoundTrip(lib, raw);
      } else {
        CharRawRoundTrip(lib, raw);
      }
    case BIT => BitRawRoundTrip(lib, width, raw);
    case UNSIGNED_INT => UnsignedRawRoundTrip(lib, fieldType, raw, width);
    case ENUM => UnsignedRawRoundTrip(lib, fieldType, raw, width);
    case INT => SignedRawRoundTrip(lib, raw, width);
    case FLOAT => FloatRawRoundTrip(lib, raw, width);
  }

  /** Reading throws exactly for a number with a bit above the 64th. */
  lemma ReadableExactly(lib: Library, fieldType: FieldType, width: nat, raw: RawValue)
    requires SupportedWidth(fieldType, width) && FitsWidth(raw, width)
    ensures ValueOfRaw(lib, fieldType, width, raw).Ok? <==> Readable(fieldType, raw)
  {
    hide Pow2, NatOfBits;
  }

  lemma ClipFitting(raw: RawValue, width: nat)
    requires FitsWidth(raw, width)
    ensures Clip(raw, width) == raw
  {
  }

  // ---- Value to raw to value ----

  /** What a JSON value has become after a passage through a payload. */
  function Normal(lib: Library, fieldType: FieldType, width: nat, value: Json): Result<Json>
  {
    if width == 0 then Ok(if fieldType == BIT then Boolean(false) else Integer(0))
    else NormalOnBits(lib, fieldType, width, value)
  }

  function NormalOnBits(lib: Library, fieldType: FieldType, width: nat, value: Json): Result<Json>
  {
    match fieldType
    case CHAR =>
      var text :- AsString(lib, value);
      Ok(Text(if width == RAW_BITS then NonZero(Fitting(text)) else if text == [] then [0] else [text[0]]))
    case BIT =>
      var b :- AsBool(value);
      Ok(Boolean(b))
    case INT =>
      var i :- AsInt64(value);
      Ok(Integer(Signed(i % Pow2(width), Pow2(width))))
    case FLOAT =>
      var word :- lib.wordOfFloat(width, value);
      Ok(lib.floatOfWord(width, word % Pow2(width)))
    case _ =>
      var n :- AsUInt64(value);
      Ok(Integer(n % Pow2(width)))
  }

  /** The low m bits of a clipped number are its residue modulo 2^m. */
  lemma LowBits(n: nat, m: nat, width: nat)
    requires m <= width <= RAW_BITS
    ensures NatOfBits(Clip(BitsOfNat(n, RAW_BITS), width)[..m]) == n % Pow2(m)
  {
    assert Clip(BitsOfNat(n, RAW_BITS), width)[..m] == BitsOfNat(n, RAW_BITS)[..m];
    BitsOfNatPrefix(n, m, RAW_BITS);
    NatOfBitsOfNat(n, m);
  }

  lemma UnsignedRoundTrip(n: nat, width: nat)
    requires n < Pow2(64) && width <= RAW_BITS
    ensures UnsignedOfRaw(width, Clip(BitsOfNat(n, RAW_BITS), width)) == Ok(Integer(n % Pow2(width)))
  {
    BitsOfSmallNat(n, 64, RAW_BITS);
    LowBits(n, Min(width, 64), width);
    SmallModulo(n, width);
  }

  /** A 64-bit number is its own residue modulo any wider power of two. */
  lemma SmallModulo(n: nat, width: nat)
    requires n < Pow2(64)
    ensures n % Pow2(Min(width, 64)) == n % Pow2(width)
  {
    if width > 64 {
      Pow2Monotone(64, width);
      ModUnique(n, Pow2(width), 0, n);
      ModUnique(n, Pow2(64), 0, n);
    }
  }

  lemma IntegerRoundTrip(i: int, width: nat)
    requires width == 8 || width == 16 || width == 32 || width == 64
    ensures var raw := Clip(BitsOfNat(i % UINT64_LIMIT, RAW_BITS), width);
            FitsUInt64(raw) && NatOfBits(raw[..width]) == i % Pow2(width)
  {
    LowBits(i % UINT64_LIMIT, width, width);
    ModOfMod(i, width);
  }

  lemma StringValueRoundTrip(text: seq<byte>)
    ensures NonZero(Octets(Clip(RawOfOctets(Padded(text)), RAW_BITS))) == NonZero(Fitting(text))
  {
    ClipFitting(RawOfOctets(Padded(text)), RAW_BITS);
    OctetsOfRawOfOctets(Padded(text));
    NonZeroOfPadding(Fitting(text), RAW_OCTETS - |Fitting(text)|);
  }

  lemma CharRoundTrip(text: seq<byte>)
    ensures var raw := Clip(if text == [] then Zeros(RAW_BITS) else RawOfByte(text[0]), CHAR_WIDTH);
            FitsUInt64(raw) && LowByte(raw) == if text == [] then 0 else text[0]
  {
    var b := if text == [] then 0 else text[0];
    assert RawOfByte(0) == Zeros(RAW_BITS);
    ByteOfBitsOfByte(b);
    assert Clip(RawOfByte(b), CHAR_WIDTH)[..8] == BitsOfByte(b);
  }

  lemma NumberRoundTrip(value: Json, width: nat)
    requires width <= RAW_BITS && AsUInt64(value).Ok?
    ensures UnsignedOfRaw(width, Clip(RawOfUnsigned(value).value, width))
            == Ok(Integer(AsUInt64(value).value % Pow2(width)))
  {
    Pow2Widths();
    UnsignedRoundTrip(AsUInt64(value).value, width);
  }

  lemma FloatRoundTrip(word: nat, width: nat)
    requires width == 16 || width == 32
    ensures var raw := Clip(BitsOfNat(word % Pow2(width), RAW_BITS), width);
            FitsUInt64(raw) && NatOfBits(raw[..width]) == word % Pow2(width)
  {
    LowBits(word % Pow2(width), width, width);
    ModUnique(word % Pow2(width), Pow2(width), 0, word % Pow2(width));
  }

  /** A value written to a payload is read back as its normal form. */
  lemma ValueRoundTrip(lib: Library, fieldType: FieldType, width: nat, value: Json)
    requires SupportedWidth(fieldType, width) && 1 <= width <= RAW_BITS
    requires RawOfValue(lib, fieldType, width, value).Ok?
    ensures var raw := Clip(RawOfValue(lib, fieldType, width, value).value, width);
            ValueOfRaw(lib, fieldType, width, raw) == Normal(lib, fieldType, width, value)
  {
    match fieldType
    case CHAR =>
      var text := AsString(lib, value).value;
      if width == RAW_BITS {
        StringValueRoundTrip(text);
      } else {
        CharRoundTrip(text);
      }
    case BIT =>
    case UNSIGNED_INT => NumberRoundTrip(value, width);
    case ENUM => NumberRoundTrip(value, width);
    case INT => IntegerRoundTrip(AsInt64(value).value, width);
    case FLOAT => FloatRoundTrip(lib.wordOfFloat(width, value).value, width);
  }
}
