/**
  Words, numbers and addresses in text. Models src/knxutils.cpp and the string constructor of
  src/knxgroupaddress.cpp; strtol, stoi, stream extraction and string splitting are the
  functions these sources call.
 */
module TextNumbers {
  import opened Bits
  import opened Digits
  import opened GroupAddress
  import opened Outcomes

  // ---- Words of a stream ----

  predicate IsSpace(c: char)
  {
    c == ' ' || 9 <= c as int <= 13
  }

  predicate IsWord(s: string)
  {
    s != [] && forall i :: 0 <= i < |s| ==> !IsSpace(s[i])
  }

  function SkipSpaces(s: string): (t: string)
    ensures |t| <= |s| && (t != [] ==> !IsSpace(t[0]))
  {
    if s != [] && IsSpace(s[0]) then SkipSpaces(s[1..]) else s
  }

  function WordLength(s: string): (n: nat)
    ensures n <= |s|
    ensures s != [] && !IsSpace(s[0]) ==> n >= 1
  {
    if s == [] || IsSpace(s[0]) then 0 else 1 + WordLength(s[1..])
  }

  /** One extraction from a stream: the word and what is left, or failure at the end. */
  function NextWord(s: string): (r: Option<(string, string)>)
    ensures r.Some? ==> |r.value.1| < |s| && r.value.0 != []
  {
    var t := SkipSpaces(s);
    if t == [] then None else Some((t[..WordLength(t)], t[WordLength(t)..]))
  }

  lemma {:induction false} WordLengthOf(word: string, rest: string)
    requires forall i :: 0 <= i < |word| ==> !IsSpace(word[i])
    requires rest == [] || IsSpace(rest[0])
    ensures WordLength(word + rest) == |word|
  {
    if word == [] {
      assert word + rest == rest;
    } else {
      WordLengthOf(word[1..], rest);
      assert (word + rest)[1..] == word[1..] + rest;
    }
  }

  /** A word followed by a space or by nothing is extracted whole. */
  lemma ExtractWord(word: string, rest: string)
    requires IsWord(word) && (rest == [] || IsSpace(rest[0]))
    ensures NextWord(word + rest) == Some((word, rest))
    ensures NextWord([' '] + (word + rest)) == Some((word, rest))
  {
    WordLengthOf(word, rest);
    assert (word + rest)[..|word|] == word && (word + rest)[|word|..] == rest;
    assert ([' '] + (word + rest))[1..] == word + rest;
  }

  lemma NothingLeft()
    ensures NextWord("") == None && NextWord(" ") == None
  {
    assert " "[1..] == "";
  }

  // ---- Numbers ----

  function DigitIn(c: char, base: nat): Option<nat>
  {
    var d := if '0' <= c <= '9' then c as int - '0' as int
             else if 'a' <= c <= 'z' then c as int - 'a' as int + 10
             else if 'A' <= c <= 'Z' then c as int - 'A' as int + 10
             else 36;
    if d < base then Some(d) else None
  }

  function DigitRunIn(s: string, base: nat): (n: nat)
    ensures n <= |s|
    ensures forall i :: 0 <= i < n ==> DigitIn(s[i], base).Some?
  {
    if s == [] || DigitIn(s[0], base).None? then 0 else 1 + DigitRunIn(s[1..], base)
  }

  function NumberIn(s: string, base: nat): nat
    requires forall i :: 0 <= i < |s| ==> DigitIn(s[i], base).Some?
  {
    if s == [] then 0
    else
      var high := NumberIn(s[..|s| - 1], base);
      ProductNonNegative(base, high);
      base * high + DigitIn(s[|s| - 1], base).value
  }

  lemma ProductNonNegative(a: nat, b: nat)
    ensures a * b >= 0
  {
  }

  /** A conversion: the signed number before any range check, and how many characters it used. */
  datatype Converted = Converted(value: int, used: nat)

  /** strtol and strtoul; base 0 reads the base from the prefix. No digits means nothing used. */
  function StrToInteger(s: string, base: nat): (r: Converted)
    ensures r.used <= |s|
  {
    var body := SkipSpaces(s);
    var skipped := |s| - |body|;
    var negative := body != [] && body[0] == '-';
    var unsigned := if negative || (body != [] && body[0] == '+') then body[1..] else body;
    var magnitude := Magnitude(unsigned, base);
    if magnitude.used == 0 then Converted(0, 0)
    else Converted(if negative then -magnitude.value else magnitude.value,
                   skipped + (|body| - |unsigned|) + magnitude.used)
  }

  function Magnitude(s: string, base: nat): (r: Converted)
    ensures r.used <= |s| && r.value >= 0
  {
    if base != 0 then Plain(s, base)
    else if |s| >= 3 && s[0] == '0' && (s[1] == 'x' || s[1] == 'X') && DigitIn(s[2], 16).Some? then
      var digits := Plain(s[2..], 16);
      Converted(digits.value, 2 + digits.used)
    else if s != [] && s[0] == '0' then Plain(s, 8)
    else Plain(s, 10)
  }

  function Plain(s: string, base: nat): (r: Converted)
    ensures r.used <= |s| && r.value >= 0
  {
    var n := DigitRunIn(s, base);
    Converted(NumberIn(s[..n], base), n)
  }

  const INT_MAX: int := 0x7FFF_FFFF
  const ULONG_MAX: int := 0xFFFF_FFFF_FFFF_FFFF

  /** std::stoi, which throws without digits and out of the range of int. */
  function StoI(s: string, base: nat): (r: Result<Converted>)
    ensures r.Ok? ==> r.value.used <= |s|
  {
    var c := StrToInteger(s, base);
    if c.used == 0 then Err(NumberMalformed)
    else if -INT_MAX - 1 <= c.value <= INT_MAX then Ok(c) else Err(NumberOutOfRange)
  }

  /** strtoul's result, saturating; a minus sign wraps. */
  function UnsignedLong(value: int): int
  {
    if -ULONG_MAX <= value <= ULONG_MAX then value % (ULONG_MAX + 1) else ULONG_MAX
  }

  /** StringValueToByte: a number in base 2, 8, 10 or 16 by its prefix, of which the low octet counts. */
  function StringValueToByte(text: string): Result<byte>
  {
    if text == "" then Err(NumberMalformed)
    else if "0b" <= text || "0B" <= text then
      if |text| == 2 then Err(NumberMalformed)
      else
        var c := StrToInteger(text[2..], 2);
        if c.used < |text| - 2 then Err(NumberMalformed)
        else Ok(ByteOfNat(UnsignedLong(c.value) % 256))
    else
      var c := StoI(text, 0);
      if c.Err? || c.value.used < |text| then Err(NumberMalformed)
      else Ok(ByteOfNat(c.value.value % 256))
  }

  // ---- Hexadecimal octets ----

  function HexChar(d: nat): (c: char)
    requires d < 16
    ensures DigitIn(c, 16) == Some(d) && !IsSpace(c)
  {
    if d < 10 then (d + '0' as int) as char else (d - 10 + 'a' as int) as char
  }

  /** How the printers write an octet: 0x and two digits. */
  function PrintedByte(b: byte): (s: string)
    ensures IsWord(s) && |s| == 4
  {
    ['0', 'x', HexChar(NatOfByte(b) / 16), HexChar(NatOfByte(b) % 16)]
  }

  lemma TwoHexDigits(h: char, l: char)
    requires DigitIn(h, 16).Some? && DigitIn(l, 16).Some?
    ensures Plain([h, l], 16) == Converted(16 * DigitIn(h, 16).value + DigitIn(l, 16).value, 2)
  {
    var s := [h, l];
    assert s[1..] == [l] && s[1..][1..] == [];
    assert DigitRunIn(s, 16) == 2;
    assert s[..2] == s && s[..1] == [h] && [h][..0] == [];
    assert NumberIn([h], 16) == DigitIn(h, 16).value;
  }

  /** The parser reads a printed octet back. */
  lemma PrintedByteParses(b: byte)
    ensures StringValueToByte(PrintedByte(b)) == Ok(b)
  {
    hide NatOfByte, ByteOfNat;
    var n := NatOfByte(b);
    var h, l := HexChar(n / 16), HexChar(n % 16);
    var s := PrintedByte(b);
    TwoHexDigits(h, l);
    assert s[2..] == [h, l];
    assert !("0b" <= s) && !("0B" <= s) by {
      assert s[1] == 'x';
    }
    assert SkipSpaces(s) == s;
    assert StrToInteger(s, 0) == Converted(n, 4);
    ModUnique(n, 256, 0, n);
    ByteOfNatOfByte(b);
  }

  /** The printed form is the octet's two hexadecimal digits, the upper one first. */
  lemma PrintedDigits(b: byte)
    ensures PrintedByte(b) == "0x" + ["0123456789abcdef"[NatOfByte(b) / 16], "0123456789abcdef"[NatOfByte(b) % 16]]
  {
    hide NatOfByte;
    HexDigit(NatOfByte(b) / 16);
    HexDigit(NatOfByte(b) % 16);
  }

  lemma HexDigit(d: nat)
    requires d < 16
    ensures HexChar(d) == "0123456789abcdef"[d] && DigitIn("0123456789ABCDEF"[d], 16) == Some(d)
  {
  }

  // ---- Decimal numbers ----

  lemma {:induction false} DecimalRun(digits: string, rest: string)
    requires AllDigits(digits) && (rest == [] || DigitIn(rest[0], 10).None?)
    ensures DigitRunIn(digits + rest, 10) == |digits|
  {
    if digits == [] {
      assert digits + rest == rest;
    } else {
      DecimalRun(digits[1..], rest);
      assert (digits + rest)[1..] == digits[1..] + rest;
    }
  }

  lemma {:induction false} DecimalValue(digits: string)
    requires AllDigits(digits)
    ensures forall i :: 0 <= i < |digits| ==> DigitIn(digits[i], 10).Some?
    ensures NumberIn(digits, 10) == NatOfDigits(digits)
  {
    if digits != [] {
      DecimalValue(digits[..|digits| - 1]);
    }
  }

  lemma PrintedDecimalParses(n: nat)
    requires n <= INT_MAX
    ensures StoI(DigitsOfNat(n), 10) == Ok(Converted(n, |DigitsOfNat(n)|))
  {
    var s := DigitsOfNat(n);
    DecimalRun(s, []);
    assert s + [] == s && s[..|s|] == s;
    DecimalValue(s);
    PrintThenParse(n);
    assert IsDigit(s[0]);
    assert SkipSpaces(s) == s;
  }

  // ---- The documented spellings of an octet ----

  /** A hexadecimal prefix, two digits of either case. */
  lemma HexSpelling(b: byte, x: char, h: char, l: char)
    requires x == 'x' || x == 'X'
    requires DigitIn(h, 16) == Some(NatOfByte(b) / 16) && DigitIn(l, 16) == Some(NatOfByte(b) % 16)
    ensures StringValueToByte(['0', x, h, l]) == Ok(b)
  {
    hide NatOfByte, ByteOfNat;
    var n, s := NatOfByte(b), ['0', x, h, l];
    TwoHexDigits(h, l);
    assert s[2..] == [h, l];
    assert !("0b" <= s) && !("0B" <= s) by {
      assert s[1] == x;
    }
    assert SkipSpaces(s) == s;
    assert StrToInteger(s, 0) == Converted(n, 4);
    ModUnique(n, 256, 0, n);
    ByteOfNatOfByte(b);
  }

  function BinaryChar(b: bool): char
  {
    if b then '1' else '0'
  }

  /** Bits as binary digits. */
  function BitText(bits: seq<bool>): (s: string)
    ensures |s| == |bits|
  {
    seq(|bits|, i requires 0 <= i < |bits| => BinaryChar(bits[i]))
  }

  /** The eight bits of an octet, the most significant first. */
  function BinaryText(b: byte): (s: string)
    ensures |s| == 8
  {
    BitText(FallingBits(b))
  }

  function FallingBits(b: byte): (bits: seq<bool>)
    ensures |bits| == 8
  {
    [b & 0x80 != 0, b & 0x40 != 0, b & 0x20 != 0, b & 0x10 != 0,
     b & 0x08 != 0, b & 0x04 != 0, b & 0x02 != 0, b & 0x01 != 0]
  }

  lemma NumberStep(s: string, k: nat)
    requires k < |s| && forall i :: 0 <= i < |s| ==> DigitIn(s[i], 2).Some?
    ensures NumberIn(s[..k + 1], 2) == 2 * NumberIn(s[..k], 2) + DigitIn(s[k], 2).value
  {
    assert s[..k + 1][..k] == s[..k];
  }

  lemma BinaryDigit(b: bool)
    ensures DigitIn(BinaryChar(b), 2) == Some(Weight(b, 1))
  {
  }

  lemma {:induction false} AllDigitsRun(s: string, base: nat)
    requires forall i :: 0 <= i < |s| ==> DigitIn(s[i], base).Some?
    ensures DigitRunIn(s, base) == |s|
  {
    if s != [] {
      AllDigitsRun(s[1..], base);
    }
  }

  predicate BinaryDigits(s: string)
  {
    forall i :: 0 <= i < |s| ==> DigitIn(s[i], 2).Some?
  }

  function DigitAt(s: string, i: nat): nat
    requires BinaryDigits(s) && i < |s|
  {
    DigitIn(s[i], 2).value
  }

  lemma FourDigits(s: string, k: nat)
    requires BinaryDigits(s) && k + 4 <= |s|
    ensures NumberIn(s[..k + 4], 2) == 16 * NumberIn(s[..k], 2) + 8 * DigitAt(s, k) + 4 * DigitAt(s, k + 1)
                                       + 2 * DigitAt(s, k + 2) + DigitAt(s, k + 3)
  {
    hide NumberIn;
    NumberStep(s, k);
    NumberStep(s, k + 1);
    NumberStep(s, k + 2);
    NumberStep(s, k + 3);
  }

  lemma EightDigits(s: string)
    requires |s| == 8 && BinaryDigits(s)
    ensures NumberIn(s, 2) == 128 * DigitAt(s, 0) + 64 * DigitAt(s, 1) + 32 * DigitAt(s, 2) + 16 * DigitAt(s, 3)
                              + 8 * DigitAt(s, 4) + 4 * DigitAt(s, 5) + 2 * DigitAt(s, 6) + DigitAt(s, 7)
  {
    hide *;
    NoDigits(s);
    FourDigits(s, 0);
    FourDigits(s, 4);
    assert s[..8] == s;
  }

  lemma NoDigits(s: string)
    ensures NumberIn(s[..0], 2) == 0
  {
  }

  lemma BitTextDigits(bits: seq<bool>)
    ensures BinaryDigits(BitText(bits))
    ensures forall i :: 0 <= i < |bits| ==> DigitAt(BitText(bits), i) == Weight(bits[i], 1)
  {
    forall i | 0 <= i < |bits|
      ensures DigitIn(BitText(bits)[i], 2) == Some(Weight(bits[i], 1))
    {
      BinaryDigit(bits[i]);
    }
  }

  lemma BitTextNumber(bits: seq<bool>)
    requires |bits| == 8
    ensures BinaryDigits(BitText(bits))
    ensures NumberIn(BitText(bits), 2) == 128 * Weight(bits[0], 1) + 64 * Weight(bits[1], 1) + 32 * Weight(bits[2], 1)
                                          + 16 * Weight(bits[3], 1) + 8 * Weight(bits[4], 1) + 4 * Weight(bits[5], 1)
                                          + 2 * Weight(bits[6], 1) + Weight(bits[7], 1)
  {
    BitTextDigits(bits);
    hide *;
    EightDigits(BitText(bits));
  }

  lemma WeightUnit(b: bool, weight: nat)
    ensures Weight(b, weight) == weight * Weight(b, 1)
  {
  }

  lemma BitTextWeights(bits: seq<bool>)
    requires |bits| == 8
    ensures BinaryDigits(BitText(bits))
    ensures NumberIn(BitText(bits), 2) == Weight(bits[0], 128) + Weight(bits[1], 64) + Weight(bits[2], 32)
                                          + Weight(bits[3], 16) + Weight(bits[4], 8) + Weight(bits[5], 4)
                                          + Weight(bits[6], 2) + Weight(bits[7], 1)
  {
    hide *;
    BitTextNumber(bits);
    WeightUnit(bits[0], 128);
    WeightUnit(bits[1], 64);
    WeightUnit(bits[2], 32);
    WeightUnit(bits[3], 16);
    WeightUnit(bits[4], 8);
    WeightUnit(bits[5], 4);
    WeightUnit(bits[6], 2);
  }

  lemma FallingWeights(b: byte)
    ensures var bits := FallingBits(b);
            NatOfByte(b) == Weight(bits[0], 128) + Weight(bits[1], 64) + Weight(bits[2], 32) + Weight(bits[3], 16)
                            + Weight(bits[4], 8) + Weight(bits[5], 4) + Weight(bits[6], 2) + Weight(bits[7], 1)
  {
    hide NatOfByte, Weight;
    ByteWeights(b);
  }

  lemma BitTextOf(b: byte)
    ensures BinaryText(b) == BitText(FallingBits(b))
  {
  }

  lemma BinaryTextNumber(b: byte)
    ensures BinaryDigits(BinaryText(b)) && NumberIn(BinaryText(b), 2) == NatOfByte(b)
  {
    hide *;
    BitTextOf(b);
    BitTextWeights(FallingBits(b));
    FallingWeights(b);
  }

  lemma DigitsAreUnsigned(s: string)
    requires s != [] && BinaryDigits(s)
    ensures SkipSpaces(s) == s && s[0] != '-' && s[0] != '+'
  {
    assert DigitIn(s[0], 2).Some?;
  }

  /** A binary prefix and eight digits. */
  lemma BinarySpelling(b: byte, prefix: string)
    requires prefix == "0b" || prefix == "0B"
    ensures StringValueToByte(prefix + BinaryText(b)) == Ok(b)
  {
    BinaryTextNumber(b);
    hide NatOfByte, ByteOfNat, NumberIn, BinaryText;
    var s, digits := prefix + BinaryText(b), BinaryText(b);
    assert s[2..] == digits && s[..2] == prefix;
    AllDigitsRun(digits, 2);
    assert digits[..8] == digits;
    DigitsAreUnsigned(digits);
    assert StrToInteger(digits, 2) == Converted(NatOfByte(b), 8);
    ModUnique(NatOfByte(b), 256, 0, NatOfByte(b));
    ByteOfNatOfByte(b);
  }

  lemma {:induction false} NoLeadingZero(n: nat)
    requires n > 0
    ensures DigitsOfNat(n)[0] != '0'
  {
    if n >= 10 {
      NoLeadingZero(n / 10);
    }
  }

  /** A decimal number. */
  lemma DecimalSpelling(b: byte)
    ensures StringValueToByte(DigitsOfNat(NatOfByte(b))) == Ok(b)
  {
    hide NatOfByte, ByteOfNat;
    var n := NatOfByte(b);
    var s := DigitsOfNat(n);
    DecimalRun(s, []);
    assert s + [] == s && s[..|s|] == s;
    DecimalValue(s);
    PrintThenParse(n);
    assert IsDigit(s[0]) && SkipSpaces(s) == s;
    assert !("0b" <= s) && !("0B" <= s) by {
      assert |s| >= 2 ==> IsDigit(s[1]);
    }
    if n > 0 {
      NoLeadingZero(n);
      assert StrToInteger(s, 0) == Converted(n, |s|);
    } else {
      assert s == "0";
      assert "0"[1..] == "" && "0"[..1] == "0" && "0"[..0] == "";
      assert StrToInteger("0", 0) == Converted(0, 1);
    }
    ModUnique(n, 256, 0, n);
    ByteOfNatOfByte(b);
  }

  // ---- Addresses ----

  /** WBMQTT::StringSplit by one character. */
  function Split(s: string, delimiter: char): (tokens: seq<string>)
    ensures |tokens| >= 1
  {
    if s == [] then [[]]
    else
      var rest := Split(s[1..], delimiter);
      if s[0] == delimiter then [[]] + rest else [[s[0]] + rest[0]] + rest[1..]
  }

  lemma {:induction false} SplitFirst(token: string, delimiter: char, rest: string)
    requires delimiter !in token
    ensures Split(token, delimiter) == [token]
    ensures Split(token + ([delimiter] + rest), delimiter) == [token] + Split(rest, delimiter)
  {
    if token == [] {
      assert token + ([delimiter] + rest) == [delimiter] + rest;
      assert ([delimiter] + rest)[1..] == rest;
    } else {
      SplitFirst(token[1..], delimiter, rest);
      assert (token + ([delimiter] + rest))[1..] == token[1..] + ([delimiter] + rest);
      assert [token[0]] + token[1..] == token;
    }
  }

  /** A token cast to uint32_t; negative numbers become too large for every limit. */
  function TokenNumber(token: string): Result<nat>
  {
    var c :- StoI(token, 10);
    Ok(c.value % 0x1_0000_0000)
  }

  /** TKnxGroupAddress(const std::string&), with one, two or three levels. */
  function ParseGroupAddress(text: string): Result<Address>
  {
    var tokens := Split(text, '/');
    if |tokens| == 3 then
      var main :- TokenNumber(tokens[0]);
      var middle :- TokenNumber(tokens[1]);
      var sub :- TokenNumber(tokens[2]);
      OfTriple(main, middle, sub)
    else if |tokens| == 2 then
      var main :- TokenNumber(tokens[0]);
      var sub :- TokenNumber(tokens[1]);
      OfDouble(main, sub)
    else if |tokens| == 1 then
      var address :- TokenNumber(tokens[0]);
      OfSingle(address)
    else Err(AddressInvalid)
  }

  function OneLevel(a: Address): string
  {
    DigitsOfNat(Eib(a))
  }

  function TwoLevels(a: Address): string
  {
    DigitsOfNat(a.main) + ("/" + DigitsOfNat(256 * a.middle + a.sub))
  }

  /** ToString. */
  function ThreeLevels(a: Address): string
  {
    DigitsOfNat(a.main) + ("/" + (DigitsOfNat(a.middle) + ("/" + DigitsOfNat(a.sub))))
  }

  lemma TokenParses(n: nat)
    requires n <= INT_MAX
    ensures TokenNumber(DigitsOfNat(n)) == Ok(n) && '/' !in DigitsOfNat(n)
  {
    PrintedDecimalParses(n);
    ModUnique(n, 0x1_0000_0000, 0, n);
  }

  /** The three spellings of an address parse to that address. */
  lemma SpellingsParse(a: Address)
    ensures ParseGroupAddress(ThreeLevels(a)) == Ok(a)
    ensures ParseGroupAddress(TwoLevels(a)) == Ok(a)
    ensures ParseGroupAddress(OneLevel(a)) == Ok(a)
  {
    hide TokenNumber, DigitsOfNat, Eib, OfTriple, OfDouble, OfSingle;
    SpellingsAgree(a);
    TokenParses(a.main);
    TokenParses(a.middle);
    TokenParses(a.sub);
    TokenParses(256 * a.middle + a.sub);
    TokenParses(Eib(a));
    SplitFirst(DigitsOfNat(a.main), '/', DigitsOfNat(a.middle) + ("/" + DigitsOfNat(a.sub)));
    SplitFirst(DigitsOfNat(a.middle), '/', DigitsOfNat(a.sub));
    SplitFirst(DigitsOfNat(a.sub), '/', "");
    SplitFirst(DigitsOfNat(a.main), '/', DigitsOfNat(256 * a.middle + a.sub));
    SplitFirst(DigitsOfNat(256 * a.middle + a.sub), '/', "");
    SplitFirst(DigitsOfNat(Eib(a)), '/', "");
  }
}
