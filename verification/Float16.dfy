/**
  The 2-octet float of section 3.10 of KNX 03_07_02, over integer hundredths: an 11-bit mantissa
  with a sign bit, shifted by a 4-bit exponent. Models src/knxgroupobject/datapointutils.cpp and
  src/knxgroupobject/dpt9.cpp.
 */
module Float16 {
  import opened Bits

  const MANTISSA_LIMIT: int := 2048
  const INT32_LIMIT: int := 0x8000_0000

  predicate FitsMantissa(m: int)
  {
    -MANTISSA_LIMIT <= m < MANTISSA_LIMIT
  }

  // ---- The normalised form of a number of hundredths ----

  /** The smallest number of halvings after which the mantissa fits. */
  function Exponent(h: int): nat
    decreases if h < 0 then -h else h
  {
    if FitsMantissa(h) then 0 else 1 + Exponent(h / 2)
  }

  function Mantissa(h: int): int
    decreases if h < 0 then -h else h
  {
    if FitsMantissa(h) then h else Mantissa(h / 2)
  }

  /** The raw word of a mantissa and an exponent, of which only four bits are kept. */
  function Word(m: int, e: nat): (raw: nat)
    requires FitsMantissa(m)
    ensures raw < 0x1_0000
  {
    (if m < 0 then 0x8000 else 0) + e % 16 * 0x800 + m % 0x800
  }

  function WordMantissa(raw: nat): (m: int)
    requires raw < 0x1_0000
    ensures FitsMantissa(m)
  {
    if raw >= 0x8000 then raw % 0x800 - 0x800 else raw % 0x800
  }

  function WordExponent(raw: nat): (e: nat)
    ensures e < 16
  {
    raw / 0x800 % 16
  }

  /** The number of hundredths that a raw word denotes. */
  function Decode(raw: nat): int
    requires raw < 0x1_0000
  {
    WordMantissa(raw) * Pow2(WordExponent(raw))
  }

  /** The raw word of a number of hundredths. */
  function Encode(h: int): (raw: nat)
    ensures raw < 0x1_0000
  {
    MantissaFits(h);
    Word(Mantissa(h), Exponent(h))
  }

  lemma {:induction false} MantissaFits(h: int)
    ensures FitsMantissa(Mantissa(h))
    decreases if h < 0 then -h else h
  {
    if !FitsMantissa(h) {
      MantissaFits(h / 2);
    }
  }

  // ---- 16-bit machine words ----

  type word = bv16

  function JoinedWord(low: byte, high: byte): word
  {
    ((high as bv16) << 8) | (low as bv16)
  }

  function LowHalf(w: word): byte
  {
    (w & 0xFF) as bv8
  }

  function HighHalf(w: word): byte
  {
    (w >> 8) as bv8
  }

  lemma Halves(low: byte, high: byte)
    ensures LowHalf(JoinedWord(low, high)) == low && HighHalf(JoinedWord(low, high)) == high
  {
  }

  function WordOfBits(bits: seq<bool>): word
    requires |bits| == 16
  {
    JoinedWord(ByteOfBits(bits[..8]), ByteOfBits(bits[8..]))
  }

  /** The bits of a word, least significant first. */
  function BitsOfWord(w: word): (bits: seq<bool>)
    ensures |bits| == 16
  {
    BitsOfByte(LowHalf(w)) + BitsOfByte(HighHalf(w))
  }

  lemma BitsOfWordOfBits(bits: seq<bool>)
    requires |bits| == 16
    ensures BitsOfWord(WordOfBits(bits)) == bits
  {
    hide ByteOfBits, BitsOfByte, JoinedWord, LowHalf, HighHalf;
    Halves(ByteOfBits(bits[..8]), ByteOfBits(bits[8..]));
    BitsOfByteOfBits(bits[..8]);
    BitsOfByteOfBits(bits[8..]);
  }

  /** A number cast to 16 bits. */
  function WordOfInt(n: int): word
  {
    WordOfBits(BitsOfNat(n % 0x1_0000, 16))
  }

  function NatOfWord(w: word): (n: nat)
    ensures n < 0x1_0000
  {
    Pow2Small();
    NatOfBits(BitsOfWord(w))
  }

  /** A 16-bit word read as a signed number. */
  function SignedOfWord(w: word): int
  {
    if w & 0x8000 != 0 then NatOfWord(w) - 0x1_0000 else NatOfWord(w)
  }

  /** The word that FloatToRaw16 returns for a mantissa and an exponent. */
  function Assembled(mantissa: word, exp: word): word
  {
    (mantissa & 0x87FF) | ((exp & 0x0F) << 11)
  }

  /** The mantissa, sign-extended, and the exponent that RawToFloat16 takes from a word. */
  function Disassembled(raw: word): (word, word)
  {
    ((if raw & 0x8000 != 0 then 0x1F << 11 else 0) | (raw & 0x7FF), (raw >> 11) & 0x0F)
  }

  lemma AssembledHalves(mantissa: word, exp: word)
    ensures LowHalf(Assembled(mantissa, exp)) == LowHalf(mantissa)
    ensures HighHalf(Assembled(mantissa, exp)) == Interleaved(HighHalf(mantissa), LowHalf(exp))
  {
  }

  lemma BitMeaning(b: byte)
    ensures var bits := BitsOfByte(b);
            && (bits[0] <==> b & 0x01 != 0) && (bits[1] <==> b & 0x02 != 0)
            && (bits[2] <==> b & 0x04 != 0) && (bits[3] <==> b & 0x08 != 0)
            && (bits[4] <==> b & 0x10 != 0) && (bits[5] <==> b & 0x20 != 0)
            && (bits[6] <==> b & 0x40 != 0) && (bits[7] <==> b & 0x80 != 0)
  {
  }

  /** The upper half of a word that FloatToRaw16 assembles. */
  function Interleaved(high: byte, exp: byte): byte
  {
    (high & 0x87) | ((exp & 0x0F) << 3)
  }

  lemma InterleavedMasks(high: byte, exp: byte)
    ensures var x := Interleaved(high, exp);
            && x & 0x01 == high & 0x01 && x & 0x02 == high & 0x02
            && x & 0x04 == high & 0x04 && x & 0x80 == high & 0x80
            && (x & 0x08 != 0 <==> exp & 0x01 != 0) && (x & 0x10 != 0 <==> exp & 0x02 != 0)
            && (x & 0x20 != 0 <==> exp & 0x04 != 0) && (x & 0x40 != 0 <==> exp & 0x08 != 0)
  {
  }

  lemma ExponentBetween(high: byte, exp: byte)
    ensures BitsOfByte(Interleaved(high, exp)) == BitsOfByte(high)[..3] + BitsOfByte(exp)[..4] + BitsOfByte(high)[7..]
  {
    hide BitsOfByte, Interleaved;
    InterleavedMasks(high, exp);
    BitMeaning(Interleaved(high, exp));
    BitMeaning(high);
    BitMeaning(exp);
  }

  lemma AssembledBits(mantissa: word, exp: word)
    ensures BitsOfWord(Assembled(mantissa, exp))
            == BitsOfWord(mantissa)[..11] + BitsOfWord(exp)[..4] + BitsOfWord(mantissa)[15..]
  {
    hide BitsOfByte, LowHalf, HighHalf, Assembled, Interleaved;
    AssembledHalves(mantissa, exp);
    ExponentBetween(HighHalf(mantissa), LowHalf(exp));
  }

  /** The upper half of the sign-extended mantissa. */
  function Extended(high: byte): byte
  {
    (if high & 0x80 != 0 then 0xF8 else 0) | (high & 0x07)
  }

  /** The exponent in the upper half of a word. */
  function ExponentOf(high: byte): byte
  {
    (high >> 3) & 0x0F
  }

  lemma DisassembledHalves(raw: word)
    ensures LowHalf(Disassembled(raw).0) == LowHalf(raw)
    ensures HighHalf(Disassembled(raw).0) == Extended(HighHalf(raw))
    ensures LowHalf(Disassembled(raw).1) == ExponentOf(HighHalf(raw)) && HighHalf(Disassembled(raw).1) == 0
  {
  }

  lemma ExtendedMasks(high: byte)
    ensures var x := Extended(high);
            && x & 0x01 == high & 0x01 && x & 0x02 == high & 0x02 && x & 0x04 == high & 0x04
            && (x & 0x08 != 0 <==> high & 0x80 != 0) && (x & 0x10 != 0 <==> high & 0x80 != 0)
            && (x & 0x20 != 0 <==> high & 0x80 != 0) && (x & 0x40 != 0 <==> high & 0x80 != 0)
            && x & 0x80 == high & 0x80
  {
  }

  lemma SignExtendedHalf(high: byte)
    ensures var sign := BitsOfByte(high)[7];
            BitsOfByte(Extended(high)) == BitsOfByte(high)[..3] + [sign, sign, sign, sign, sign]
  {
    hide BitsOfByte, Extended;
    ExtendedMasks(high);
    BitMeaning(Extended(high));
    BitMeaning(high);
  }

  lemma ExponentMasks(high: byte)
    ensures var x := ExponentOf(high);
            && (x & 0x01 != 0 <==> high & 0x08 != 0) && (x & 0x02 != 0 <==> high & 0x10 != 0)
            && (x & 0x04 != 0 <==> high & 0x20 != 0) && (x & 0x08 != 0 <==> high & 0x40 != 0)
            && x & 0x10 == 0 && x & 0x20 == 0 && x & 0x40 == 0 && x & 0x80 == 0
  {
  }

  lemma ExponentHalf(high: byte)
    ensures BitsOfByte(ExponentOf(high)) == BitsOfByte(high)[3..7] + [false, false, false, false]
  {
    hide BitsOfByte, ExponentOf;
    ExponentMasks(high);
    BitMeaning(ExponentOf(high));
    BitMeaning(high);
  }

  lemma ZeroHalf()
    ensures BitsOfByte(0) == [false, false, false, false, false, false, false, false]
  {
  }

  lemma MantissaTaken(raw: word)
    ensures var sign := BitsOfWord(raw)[15];
            BitsOfWord(Disassembled(raw).0) == BitsOfWord(raw)[..11] + [sign, sign, sign, sign, sign]
  {
    hide BitsOfByte, LowHalf, HighHalf, Disassembled, Extended, ExponentOf;
    DisassembledHalves(raw);
    SignExtendedHalf(HighHalf(raw));
  }

  lemma UpperSlice(low: seq<bool>, high: seq<bool>)
    requires |low| == 8 && |high| == 8
    ensures (low + high)[11..15] == high[3..7]
  {
  }

  lemma ExponentTaken(raw: word)
    ensures BitsOfWord(Disassembled(raw).1) == BitsOfWord(raw)[11..15] + seq(12, _ => false)
  {
    hide BitsOfByte, LowHalf, HighHalf, Disassembled, Extended, ExponentOf;
    DisassembledHalves(raw);
    ZeroHalf();
    ExponentHalf(HighHalf(raw));
    assert [false, false, false, false] + [false, false, false, false, false, false, false, false] == seq(12, _ => false);
    UpperSlice(BitsOfByte(LowHalf(raw)), BitsOfByte(HighHalf(raw)));
  }

  lemma Pow2Small()
    ensures Pow2(4) == 16 && Pow2(11) == 0x800 && Pow2(15) == 0x8000 && Pow2(16) == 0x1_0000
  {
    assert Pow2(7) == 128;
    Pow2Add(4, 7);
    Pow2Add(4, 11);
  }

  lemma SignBitOf(m: int)
    requires FitsMantissa(m)
    ensures BitsOfNat(m % 0x1_0000, 16)[15..] == [m < 0]
  {
    Pow2Small();
    var u := m % 0x1_0000;
    var bits := BitsOfNat(u, 16);
    ModUnique(m, 0x1_0000, if m < 0 then -1 else 0, u);
    BitsOfNatPrefix(u, 15, 16);
    NatOfBitsOfNat(u, 15);
    NatOfBitsOfNat(u, 16);
    assert bits == bits[..15] + [bits[15]];
    NatOfConcat(bits[..15], [bits[15]]);
  }

  lemma ThreeParts(low: seq<bool>, middle: seq<bool>, sign: bool)
    requires |low| == 11 && |middle| == 4
    ensures NatOfBits(low + middle + [sign])
            == NatOfBits(low) + 0x800 * NatOfBits(middle) + (if sign then 0x8000 else 0)
  {
    Pow2Small();
    NatOfConcat(low + middle, [sign]);
    NatOfConcat(low, middle);
    assert NatOfBits([sign]) == if sign then 1 else 0;
  }

  lemma MantissaBits(m: int)
    requires FitsMantissa(m)
    ensures NatOfBits(BitsOfNat(m % 0x1_0000, 16)[..11]) == m % 0x800
  {
    Pow2Small();
    var u := m % 0x1_0000;
    BitsOfNatPrefix(u, 11, 16);
    NatOfBitsOfNat(u, 11);
    ModOfProduct(m, 0x800, 32);
  }

  lemma AssembledParts(word: seq<bool>, exponentBits: seq<bool>, m: int, e: nat)
    requires FitsMantissa(m) && |word| == 16 && |exponentBits| == 4
    requires word[15..] == [m < 0] && NatOfBits(word[..11]) == m % 0x800 && NatOfBits(exponentBits) == e % 16
    ensures NatOfBits(word[..11] + exponentBits + word[15..]) == Word(m, e)
  {
    ThreeParts(word[..11], exponentBits, m < 0);
  }

  lemma ExponentBits(e: nat)
    ensures NatOfBits(BitsOfNat(e % 0x1_0000, 16)[..4]) == e % 16
  {
    Pow2Small();
    BitsOfNatPrefix(e % 0x1_0000, 4, 16);
    NatOfBitsOfNat(e % 0x1_0000, 4);
    ModOfProduct(e, 16, 0x1000);
  }

  /** The masks and the shift put sign, exponent and mantissa where the word has them. */
  lemma AssembledWord(m: int, e: nat)
    requires FitsMantissa(m)
    ensures NatOfWord(Assembled(WordOfInt(m), WordOfInt(e))) == Word(m, e)
  {
    hide WordOfBits, BitsOfWord, Assembled, Word;
    var mantissaBits, exponentBits := BitsOfNat(m % 0x1_0000, 16), BitsOfNat(e % 0x1_0000, 16);
    BitsOfWordOfBits(mantissaBits);
    BitsOfWordOfBits(exponentBits);
    AssembledBits(WordOfInt(m), WordOfInt(e));
    SignBitOf(m);
    MantissaBits(m);
    ExponentBits(e);
    AssembledParts(mantissaBits, exponentBits[..4], m, e);
  }

  /** The loop of FloatToRaw16 and the word it returns; right shifts of negative numbers round down. */
  method FloatToRaw16(hundredths: int) returns (raw: nat)
    requires -INT32_LIMIT <= hundredths < INT32_LIMIT
    ensures raw == Encode(hundredths)
  {
    hide WordOfInt, NatOfWord, Assembled, Word;
    var mantissa := hundredths;
    var exp := 0;
    while mantissa < -2048 || mantissa > 2047
      invariant Exponent(hundredths) == exp + Exponent(mantissa)
      invariant Mantissa(hundredths) == Mantissa(mantissa)
      decreases if mantissa < 0 then -mantissa else mantissa
    {
      mantissa := mantissa / 2;
      exp := exp + 1;
    }
    AssembledWord(mantissa, exp);
    raw := NatOfWord(Assembled(WordOfInt(mantissa), WordOfInt(exp)));
  }

  // ---- The number that a word denotes ----

  lemma {:induction false} AllSet(n: nat)
    ensures NatOfBits(seq(n, _ => true)) == Pow2(n) - 1
    ensures NatOfBits(seq(n, _ => false)) == 0
  {
    if n > 0 {
      AllSet(n - 1);
      assert seq(n, _ => true)[1..] == seq(n - 1, _ => true);
      assert seq(n, _ => false)[1..] == seq(n - 1, _ => false);
    }
  }

  lemma SignExtended(low: seq<bool>, sign: bool)
    requires |low| == 11
    ensures NatOfBits(low + [sign, sign, sign, sign, sign]) == NatOfBits(low) + (if sign then 0xF800 else 0)
  {
    hide NatOfBits;
    Pow2Small();
    NatOfConcat(low, [sign, sign, sign, sign, sign]);
    FiveSame(sign);
  }

  lemma FiveSame(sign: bool)
    ensures NatOfBits([sign, sign, sign, sign, sign]) == if sign then 31 else 0
  {
    assert Pow2(5) == 32;
    AllSet(5);
    assert [sign, sign, sign, sign, sign] == if sign then seq(5, _ => true) else seq(5, _ => false);
  }

  lemma SignBit(w: word)
    ensures w & 0x8000 != 0 <==> BitsOfWord(w)[15]
  {
  }

  lemma WordBits(low: seq<bool>, middle: seq<bool>, sign: bool, n: nat)
    requires |low| == 11 && |middle| == 4 && n == NatOfBits(low + middle + [sign])
    ensures n % 0x800 == NatOfBits(low) && n / 0x800 % 16 == NatOfBits(middle) && (n >= 0x8000 <==> sign)
  {
    Pow2Small();
    ThreeParts(low, middle, sign);
    var high := NatOfBits(middle) + (if sign then 16 else 0);
    ModUnique(n, 0x800, high, NatOfBits(low));
    ModUnique(high, 16, if sign then 1 else 0, NatOfBits(middle));
  }

  /** What RawToFloat16 takes apart is the mantissa and the exponent of the word. */
  lemma DisassembledWord(raw: word)
    ensures SignedOfWord(Disassembled(raw).0) == WordMantissa(NatOfWord(raw))
    ensures NatOfWord(Disassembled(raw).1) == WordExponent(NatOfWord(raw))
  {
    Pow2Small();
    var bits := BitsOfWord(raw);
    var low, middle, sign := bits[..11], bits[11..15], bits[15];
    MantissaTaken(raw);
    ExponentTaken(raw);
    SignBit(Disassembled(raw).0);
    hide Disassembled, BitsOfWord;
    assert bits == low + middle + [sign];
    WordBits(low, middle, sign, NatOfWord(raw));
    SignExtended(low, sign);
    NatOfConcat(middle, seq(12, _ => false));
    AllSet(12);
  }

  /** RawToFloat16, in hundredths. */
  function RawToFloat16(raw: word): (d: int)
    ensures d == Decode(NatOfWord(raw))
  {
    DisassembledWord(raw);
    var (mantissa, exp) := Disassembled(raw);
    SignedOfWord(mantissa) * Pow2(NatOfWord(exp))
  }

  // ---- The word and the number it denotes ----

  lemma WordParts(m: int, e: nat)
    requires FitsMantissa(m)
    ensures WordMantissa(Word(m, e)) == m && WordExponent(Word(m, e)) == e % 16
  {
    var low := m % 0x800;
    var sign := if m < 0 then 16 else 0;
    ModUnique(m, 0x800, if m < 0 then -1 else 0, if m < 0 then m + 0x800 else m);
    assert Word(m, e) == 0x800 * (sign + e % 16) + low;
    ModUnique(Word(m, e), 0x800, sign + e % 16, low);
  }

  lemma WordRebuilt(raw: nat)
    requires raw < 0x1_0000
    ensures Word(WordMantissa(raw), WordExponent(raw)) == raw
  {
    var m := WordMantissa(raw);
    ModUnique(m, 0x800, if m < 0 then -1 else 0, raw % 0x800);
  }

  /** The numbers that some mantissa and some exponent of four bits denote. */
  ghost predicate Representable(d: int)
  {
    exists m: int, e: nat :: FitsMantissa(m) && e < 16 && d == m * Pow2(e)
  }

  lemma DecodeRepresentable(raw: nat)
    requires raw < 0x1_0000
    ensures Representable(Decode(raw))
  {
  }

  /** The format in numbers: a sign bit of weight -2048, four bits of exponent, eleven bits of mantissa. */
  lemma WordInNumbers(sign: nat, e: nat, low: nat)
    requires sign < 2 && e < 16 && low < 2048
    ensures Decode(32768 * sign + 2048 * e + low) == (low - 2048 * sign) * Pow2(e)
  {
    var raw := 32768 * sign + 2048 * e + low;
    ModUnique(raw, 0x800, 16 * sign + e, low);
    ModUnique(16 * sign + e, 16, sign, e);
  }

  // ---- The exponent as a range ----

  predicate InRange(h: int, e: nat)
  {
    -MANTISSA_LIMIT * Pow2(e) <= h < MANTISSA_LIMIT * Pow2(e)
  }

  lemma HalfInRange(h: int, e: nat)
    ensures InRange(h / 2, e) <==> InRange(h, e + 1)
  {
    var bound := MANTISSA_LIMIT * Pow2(e);
    assert MANTISSA_LIMIT * Pow2(e + 1) == 2 * bound;
    assert h / 2 < bound <==> h < 2 * bound;
    assert -bound <= h / 2 <==> -2 * bound <= h;
  }

  lemma DoubledUnit(m: int, unit: int)
    ensures m * (2 * unit) == 2 * (m * unit)
  {
  }

  /** The loop halves exactly until the number is in range, and the mantissa is the rounded-down quotient. */
  lemma {:induction false} Normalised(h: int)
    ensures InRange(h, Exponent(h))
    ensures Exponent(h) > 0 ==> !InRange(h, Exponent(h) - 1)
    ensures Mantissa(h) * Pow2(Exponent(h)) <= h < (Mantissa(h) + 1) * Pow2(Exponent(h))
    decreases if h < 0 then -h else h
  {
    if !FitsMantissa(h) {
      var half, e := h / 2, Exponent(h / 2);
      Normalised(half);
      HalfInRange(h, e);
      if e > 0 {
        HalfInRange(h, e - 1);
      }
      DoubledUnit(Mantissa(half), Pow2(e));
      DoubledUnit(Mantissa(half) + 1, Pow2(e));
    }
  }

  lemma RangeMonotone(h: int, e: nat, e2: nat)
    requires e <= e2 && InRange(h, e)
    ensures InRange(h, e2)
  {
    Pow2Monotone(e, e2);
  }

  /** The exponent is the smallest one whose range holds the number. */
  lemma ExponentLeast(h: int, e: nat)
    ensures InRange(h, e) <==> Exponent(h) <= e
  {
    Normalised(h);
    if InRange(h, e) && e < Exponent(h) {
      RangeMonotone(h, e, Exponent(h) - 1);
    }
    if Exponent(h) <= e {
      RangeMonotone(h, Exponent(h), e);
    }
  }

  /** Four bits hold the exponent of exactly the numbers from -671088.64 to 671088.63. */
  lemma EncodableRange(h: int)
    ensures Exponent(h) < 16 <==> -67108864 <= h <= 67108863
  {
    Pow2Small();
    ExponentLeast(h, 15);
  }

  // ---- Error of one passage ----

  /** What is decoded from the word a number is encoded to. */
  function Rounded(h: int): int
  {
    Decode(Encode(h))
  }

  lemma RoundedValue(h: int)
    ensures FitsMantissa(Mantissa(h))
    ensures Rounded(h) == Mantissa(h) * Pow2(Exponent(h) % 16)
  {
    MantissaFits(h);
    WordParts(Mantissa(h), Exponent(h));
  }

  /** A mantissa that needed halving fills its top bit. */
  lemma MantissaLarge(h: int)
    requires Exponent(h) > 0
    ensures Mantissa(h) >= 1024 || Mantissa(h) < -1024
    ensures h >= 0 ==> 1024 * Pow2(Exponent(h)) <= h
    ensures h < 0 ==> h < -1024 * Pow2(Exponent(h))
  {
    Normalised(h);
    var m, unit := Mantissa(h), Pow2(Exponent(h));
    assert MANTISSA_LIMIT * Pow2(Exponent(h) - 1) == 1024 * unit;
    if -1024 <= m < 1024 {
      Scale(-1024, m, unit);
      Scale(m + 1, 1024, unit);
    }
  }

  lemma Scale(a: int, b: int, unit: nat)
    requires a <= b
    ensures a * unit <= b * unit
  {
  }

  lemma NextMultiple(m: int, unit: nat)
    ensures (m + 1) * unit == m * unit + unit
  {
  }

  lemma RoundedDown(h: int)
    requires Exponent(h) < 16
    ensures Rounded(h) == Mantissa(h) * Pow2(Exponent(h))
    ensures 0 <= h - Rounded(h) < Pow2(Exponent(h))
  {
    Normalised(h);
    RoundedValue(h);
    NextMultiple(Mantissa(h), Pow2(Exponent(h)));
  }

  /**
    Within the encodable range the decoded number is below the original by less than one unit of
    the chosen exponent: exactly equal without an exponent, closer than one part in 1024 with one.
   */
  lemma EncodingError(h: int)
    requires Exponent(h) < 16
    ensures 0 <= h - Rounded(h) < Pow2(Exponent(h))
    ensures Exponent(h) == 0 ==> Rounded(h) == h
    ensures Exponent(h) > 0 ==> (h - Rounded(h)) * 1024 < if h < 0 then -h else h
  {
    RoundedDown(h);
    if Exponent(h) > 0 {
      MantissaLarge(h);
    }
  }

  lemma WrappedExponent(m: int, unit: nat, factor: nat, h: int)
    requires unit >= 1 && factor >= 2 && (m >= 1024 || m < -1024)
    requires m * (factor * unit) <= h < (m + 1) * (factor * unit)
    ensures h - m * unit < 0 || h - m * unit >= factor * unit
  {
    var low := m * unit;
    assert m * (factor * unit) == factor * low;
    assert (m + 1) * (factor * unit) == factor * low + factor * unit;
    if m >= 1024 {
      Scale(1024, m, unit);
      assert low >= 1024 * unit;
      FactorGap(low, factor, unit);
    } else {
      Scale(m, -1025, unit);
      assert low <= -1025 * unit;
      FactorGapNegative(low, factor, unit);
    }
  }

  lemma FactorGap(low: int, factor: nat, unit: nat)
    requires factor >= 2 && low >= 2 * unit
    ensures factor * low - low >= factor * unit
  {
    assert (factor - 1) * low >= (factor - 1) * (2 * unit);
    assert (factor - 1) * (2 * unit) == 2 * (factor * unit) - 2 * unit;
    Scale(2, factor, unit);
  }

  lemma FactorGapNegative(low: int, factor: nat, unit: nat)
    requires factor >= 2 && low <= -2 * unit
    ensures factor * low + factor * unit <= low
  {
    assert (factor - 1) * (low + 2 * unit) <= 0;
    assert (factor - 1) * (low + 2 * unit) == factor * low - low + 2 * (factor * unit) - 2 * unit;
    Scale(2, factor, unit);
  }

  /** Outside that range the exponent wraps, and the error bound fails for every number. */
  lemma ErrorBoundExactly(h: int)
    ensures 0 <= h - Rounded(h) < Pow2(Exponent(h)) <==> -67108864 <= h <= 67108863
  {
    EncodableRange(h);
    if Exponent(h) < 16 {
      EncodingError(h);
    } else {
      var e := Exponent(h);
      Normalised(h);
      RoundedValue(h);
      MantissaLarge(h);
      Pow2Add(e - e % 16, e % 16);
      assert Pow2(e - e % 16) >= 2 by {
        Pow2Monotone(1, e - e % 16);
      }
      WrappedExponent(Mantissa(h), Pow2(e % 16), Pow2(e - e % 16), h);
    }
  }

  // ---- Encoding and decoding as one operator ----

  lemma RepresentableInRange(d: int)
    requires Representable(d)
    ensures Exponent(d) < 16
  {
    var m: int, e: nat :| FitsMantissa(m) && e < 16 && d == m * Pow2(e);
    CoarserUnit(m, Pow2(e), Pow2(e));
    ExponentLeast(d, e);
  }

  lemma RoundedRepresentable(h: int)
    requires Exponent(h) < 16
    ensures Representable(Rounded(h))
  {
    DecodeRepresentable(Encode(h));
  }

  /** A multiple of the unit that is not above h is not above h rounded down to that unit. */
  lemma MultipleBelow(k: int, m: int, unit: nat, h: int)
    requires unit >= 1 && k * unit <= h < (m + 1) * unit
    ensures k * unit <= m * unit
  {
    if k > m {
      Scale(m + 1, k, unit);
    } else {
      Scale(k, m, unit);
    }
  }

  lemma Associate(a: int, b: int, c: int)
    ensures a * (b * c) == a * b * c
  {
  }

  lemma FinerGrid(h: int, m: int, e2: nat)
    requires Exponent(h) < 16 && Exponent(h) <= e2 && m * Pow2(e2) <= h
    ensures m * Pow2(e2) <= Rounded(h)
  {
    var e := Exponent(h);
    RoundedDown(h);
    NextMultiple(Mantissa(h), Pow2(e));
    Pow2Add(e2 - e, e);
    Associate(m, Pow2(e2 - e), Pow2(e));
    MultipleBelow(m * Pow2(e2 - e), Mantissa(h), Pow2(e), h);
  }

  lemma CoarserGrid(h: int, m: int, e2: nat)
    requires e2 < Exponent(h) < 16 && FitsMantissa(m) && m * Pow2(e2) <= h
    ensures m * Pow2(e2) <= Rounded(h)
  {
    var e := Exponent(h);
    RoundedDown(h);
    NextMultiple(Mantissa(h), Pow2(e));
    MantissaLarge(h);
    Pow2Monotone(e2, e - 1);
    CoarserUnit(m, Pow2(e2), Pow2(e - 1));
    if h >= 0 {
      MultipleBelow(1024, Mantissa(h), Pow2(e), h);
    }
  }

  /** The decoded number is the greatest representable one that is not above the original. */
  lemma GreatestRepresentable(h: int, r: int)
    requires Exponent(h) < 16 && Representable(r) && r <= h
    ensures r <= Rounded(h) <= h
  {
    RoundedDown(h);
    var m: int, e2: nat :| FitsMantissa(m) && e2 < 16 && r == m * Pow2(e2);
    if e2 >= Exponent(h) {
      FinerGrid(h, m, e2);
    } else {
      CoarserGrid(h, m, e2);
    }
  }

  lemma CoarserUnit(m: int, unit: nat, larger: nat)
    requires FitsMantissa(m) && 1 <= unit <= larger
    ensures -MANTISSA_LIMIT * larger <= m * unit < MANTISSA_LIMIT * larger
  {
    Scale(-MANTISSA_LIMIT, m, unit);
    Scale(m + 1, MANTISSA_LIMIT, unit);
    assert (m + 1) * unit == m * unit + unit;
  }

  /** Encoding and decoding keeps order, across exponents and signs. */
  lemma RoundedMonotone(h: int, k: int)
    requires h <= k && Exponent(h) < 16 && Exponent(k) < 16
    ensures Rounded(h) <= Rounded(k)
  {
    EncodingError(h);
    RoundedRepresentable(h);
    GreatestRepresentable(k, Rounded(h));
  }

  /** A number that came out of a word goes back into a word of the same value. */
  lemma DecodedIsFixed(raw: nat)
    requires raw < 0x1_0000
    ensures Rounded(Decode(raw)) == Decode(raw)
  {
    DecodeRepresentable(raw);
    RepresentableInRange(Decode(raw));
    GreatestRepresentable(Decode(raw), Decode(raw));
  }

  lemma RoundedIdempotent(h: int)
    ensures Rounded(Rounded(h)) == Rounded(h)
  {
    DecodedIsFixed(Encode(h));
  }

  /** One past the range: 671088.64 is received as 10.24. */
  lemma OutOfRangeWraps()
    ensures Rounded(67108864) == 1024
  {
    hide Exponent, Mantissa, Rounded;
    var h := 67108864;
    Pow2Small();
    ExponentLeast(h, 15);
    ExponentLeast(h, 16);
    assert Exponent(h) == 16;
    Normalised(h);
    assert Mantissa(h) == 1024;
    RoundedValue(h);
    assert Pow2(0) == 1;
  }

  lemma SmallNumber(n: nat, bound: nat)
    requires n <= bound < 16
    ensures n % 16 == n
  {
  }

  /** Re-encoding picks the smallest exponent among all words of that value. */
  lemma SmallestExponent(raw: nat)
    requires raw < 0x1_0000
    ensures WordExponent(Encode(Decode(raw))) <= WordExponent(raw)
  {
    var m, e := WordMantissa(raw), WordExponent(raw);
    CoarserUnit(m, Pow2(e), Pow2(e));
    ExponentLeast(Decode(raw), e);
    MantissaFits(Decode(raw));
    WordParts(Mantissa(Decode(raw)), Exponent(Decode(raw)));
    hide Word, WordExponent, Exponent, Mantissa;
    SmallNumber(Exponent(Decode(raw)), e);
  }

  /** A word comes back unchanged exactly when it uses no exponent or all of its mantissa. */
  lemma WordRestoredExactly(raw: nat)
    requires raw < 0x1_0000
    ensures Encode(Decode(raw)) == raw <==>
            WordExponent(raw) == 0 || WordMantissa(raw) >= 1024 || WordMantissa(raw) < -1024
  {
    var h, m, e := Decode(raw), WordMantissa(raw), WordExponent(raw);
    MantissaFits(h);
    WordParts(Mantissa(h), Exponent(h));
    CoarserUnit(m, Pow2(e), Pow2(e));
    ExponentLeast(h, e);
    if Encode(h) == raw && e > 0 {
      MantissaLarge(h);
    }
    if e == 0 || m >= 1024 || m < -1024 {
      NormalForm(m, e);
      WordRebuilt(raw);
    }
  }

  lemma NormalForm(m: int, e: nat)
    requires FitsMantissa(m) && (e == 0 || m >= 1024 || m < -1024)
    ensures Exponent(m * Pow2(e)) == e && Mantissa(m * Pow2(e)) == m
  {
    var h := m * Pow2(e);
    CoarserUnit(m, Pow2(e), Pow2(e));
    ExponentLeast(h, e);
    if e > 0 {
      assert MANTISSA_LIMIT * Pow2(e - 1) == 1024 * Pow2(e);
      if m >= 1024 {
        Scale(1024, m, Pow2(e));
      } else {
        Scale(m, -1025, Pow2(e));
      }
      ExponentLeast(h, e - 1);
    }
    Normalised(h);
    var k := Mantissa(h);
    MultipleBelow(m, k, Pow2(e), h);
    NextMultiple(m, Pow2(e));
    if m < k {
      Scale(m + 1, k, Pow2(e));
    } else if k < m {
      Scale(k + 1, m, Pow2(e));
    }
  }
}
