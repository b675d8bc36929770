/**
  Datapoint type 9: a value in octets 1 and 2 of a three-octet payload. Models
  src/knxgroupobject/dpt9.cpp with exact arithmetic in place of double rounding.
 */
module Dpt9 {
  import opened Bits
  import opened Float16
  import opened Outcomes

  /** std::round: to the nearest integer, halves away from zero. */
  function Round(x: real): int
  {
    if x >= 0.0 then (x + 0.5).Floor else -((-x + 0.5).Floor)
  }

  function Hundredths(value: real): int
  {
    Round(value * 100.0)
  }

  function ValueOfWord(raw: nat): real
    requires raw < 0x1_0000
  {
    Decode(raw) as real / 100.0
  }

  function WordOfOctets(high: byte, low: byte): (raw: nat)
    ensures raw < 0x1_0000
  {
    256 * NatOfByte(high) + NatOfByte(low)
  }

  predicate CastDefined(value: real)
  {
    -INT32_LIMIT <= Hundredths(value) < INT32_LIMIT
  }

  lemma OctetsOfWord(raw: nat)
    requires raw < 0x1_0000
    ensures WordOfOctets(ByteOfNat(raw / 256), ByteOfNat(raw % 256)) == raw
  {
    NatOfByteOfNat(raw / 256);
    NatOfByteOfNat(raw % 256);
  }

  lemma JoinedNumber(low: byte, high: byte)
    ensures NatOfWord(JoinedWord(low, high)) == WordOfOctets(high, low)
  {
    hide JoinedWord, LowHalf, HighHalf, BitsOfByte;
    Halves(low, high);
    NatOfConcat(BitsOfByte(low), BitsOfByte(high));
    assert Pow2(8) == 256;
  }

  class Dpt9 {
    var fieldFloatValue: real

    constructor ()
      ensures fieldFloatValue == 0.0
    {
      fieldFloatValue := 0.0;
    }

    method FromMqtt(controlIndex: nat, value: real) returns (r: Outcome)
      modifies this
      ensures if controlIndex == 0 then r == Done && fieldFloatValue == value
              else r == Failed(ControlIndexInvalid) && fieldFloatValue == old(fieldFloatValue)
    {
      if controlIndex == 0 {
        fieldFloatValue := value;
        r := Done;
      } else {
        r := Failed(ControlIndexInvalid);
      }
    }

    method FromKnx(payload: seq<byte>) returns (r: Outcome)
      modifies this
      ensures if |payload| == 3 then r == Done && fieldFloatValue == ValueOfWord(WordOfOctets(payload[1], payload[2]))
              else r == Failed(PayloadSizeIncorrect) && fieldFloatValue == old(fieldFloatValue)
    {
      if |payload| == 3 {
        JoinedNumber(payload[2], payload[1]);
        fieldFloatValue := RawToFloat16(JoinedWord(payload[2], payload[1])) as real / 100.0;
        r := Done;
      } else {
        r := Failed(PayloadSizeIncorrect);
      }
    }

    method ToKnx() returns (payload: seq<byte>)
      requires CastDefined(fieldFloatValue)
      ensures |payload| == 3 && payload[0] == 0
      ensures WordOfOctets(payload[1], payload[2]) == Encode(Hundredths(fieldFloatValue))
    {
      var dValue := FloatToRaw16(Hundredths(fieldFloatValue));
      OctetsOfWord(dValue);
      payload := [0, ByteOfNat(dValue / 256), ByteOfNat(dValue % 256)];
    }
  }

  lemma RoundNear(x: real)
    ensures -0.5 <= x - Round(x) as real <= 0.5
  {
  }

  lemma RoundInteger(n: int)
    ensures Round(n as real) == n
  {
  }

  /** Halves are rounded away from zero. */
  lemma RoundHalf(n: nat)
    ensures Round(n as real + 0.5) == n + 1 && Round(-(n as real + 0.5)) == -(n + 1)
  {
  }

  /** 36.66 is the octets 0F 29 and -25 the octets 8B 1E, both ways. */
  lemma KnownValues()
    ensures ValueOfWord(WordOfOctets(0x0F, 0x29)) == 36.66 && Encode(Hundredths(36.66)) == WordOfOctets(0x0F, 0x29)
    ensures ValueOfWord(WordOfOctets(0x8B, 0x1E)) == -25.0 && Encode(Hundredths(-25.0)) == WordOfOctets(0x8B, 0x1E)
  {
    hide NatOfByte, Decode, Encode;
    ByteWeights(0x0F);
    ByteWeights(0x29);
    ByteWeights(0x8B);
    ByteWeights(0x1E);
    WordInNumbers(0, 1, 1833);
    WordInNumbers(1, 1, 798);
    assert Pow2(1) == 2;
    assert Hundredths(36.66) == 3666 && Hundredths(-25.0) == -2500;
    WordOf(WordOfOctets(0x0F, 0x29), 3666);
    WordOf(WordOfOctets(0x8B, 0x1E), -2500);
  }

  lemma WordOf(raw: nat, h: int)
    requires raw < 0x1_0000 && Decode(raw) == h && (WordMantissa(raw) >= 1024 || WordMantissa(raw) < -1024)
    ensures Encode(h) == raw
  {
    WordRestoredExactly(raw);
  }

  /** A value received from the bus and sent back carries the same number. */
  lemma ResendKeepsValue(raw: nat)
    requires raw < 0x1_0000
    ensures ValueOfWord(Encode(Hundredths(ValueOfWord(raw)))) == ValueOfWord(raw)
  {
    assert ValueOfWord(raw) * 100.0 == Decode(raw) as real;
    RoundInteger(Decode(raw));
    DecodedIsFixed(raw);
  }

  /** Over the declared range of the control a value loses less than one unit of its exponent and half a hundredth. */
  lemma DeclaredRangeError(value: real)
    requires -671088.64 <= value <= 670760.96
    ensures CastDefined(value) && Exponent(Hundredths(value)) < 16
    ensures var received := ValueOfWord(Encode(Hundredths(value)));
            -0.005 <= value - received < 0.005 + Pow2(Exponent(Hundredths(value))) as real / 100.0
  {
    var h := Hundredths(value);
    RoundNear(value * 100.0);
    assert -67108864 <= h <= 67076096;
    EncodableRange(h);
    EncodingError(h);
    HundredthsError(value * 100.0, h, Rounded(h), Pow2(Exponent(h)));
  }

  lemma HundredthsError(x: real, h: int, d: int, unit: nat)
    requires -0.5 <= x - h as real <= 0.5 && 0 <= h - d < unit
    ensures -0.005 <= x / 100.0 - d as real / 100.0 < 0.005 + unit as real / 100.0
  {
    assert 0.0 <= (h - d) as real <= unit as real - 1.0;
  }
}
