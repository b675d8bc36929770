/** The transport protocol data unit of a telegram. Models src/knxtelegramtpdu.cpp. */
module Tpdu {
  import opened Bits
  import opened Outcomes

  const MAX_PAYLOAD_SIZE: nat := 15

  // Communication types
  const UDP: byte := 0
  const NDP: byte := 1
  const UCD: byte := 2
  const NCD: byte := 3

  // APCI codes of group objects, and the largest code
  const GROUP_VALUE_READ: byte := 0
  const GROUP_VALUE_RESPONSE: byte := 1
  const GROUP_VALUE_WRITE: byte := 2
  const ESCAPE: byte := 15

  /** The fields of a TPDU as a value. */
  datatype TpduValue = TpduValue(
    communicationType: byte,
    sequenceNumber: byte,
    apci: byte,
    payload: seq<byte>,
    controlData: byte)

  /** What the setters guarantee about the fields. */
  predicate Sound(t: TpduValue)
  {
    && t.communicationType <= NCD && t.apci <= ESCAPE && t.controlData <= 3
    && 1 <= |t.payload| <= MAX_PAYLOAD_SIZE && t.payload[0] <= 0x3F
  }

  const FRESH_TPDU: TpduValue := TpduValue(UDP, 0, GROUP_VALUE_READ, [0], 0)

  predicate CarriesData(communicationType: byte)
  {
    communicationType == UDP || communicationType == NDP
  }

  /** The payload as SetPayload stores it: the first octet keeps six bits. */
  function Stored(payload: seq<byte>): seq<byte>
    requires payload != []
  {
    [payload[0] & 0x3F] + payload[1..]
  }

  predicate PayloadAccepted(payload: seq<byte>)
  {
    1 <= |payload| <= MAX_PAYLOAD_SIZE
  }

  function FirstOctet(t: TpduValue): byte
  {
    (t.communicationType << 6) | ((t.sequenceNumber & 0x0F) << 2)
  }

  function EncodeTpdu(t: TpduValue): (raw: seq<byte>)
    requires t.payload != []
    ensures |raw| == if CarriesData(t.communicationType) then |t.payload| + 1 else 1
  {
    if CarriesData(t.communicationType) then
      [FirstOctet(t) | ((t.apci >> 2) & 0x03), ((t.apci & 0x03) << 6) | (t.payload[0] & 0x3F)] + t.payload[1..]
    else
      [FirstOctet(t) | (t.controlData & 0x03)]
  }

  // The fields of the first two octets

  function TypeBits(b0: byte): byte {
    b0 >> 6
  }

  function SequenceBits(b0: byte): byte {
    (b0 >> 2) & 0x0F
  }

  function ApciBits(b0: byte, b1: byte): byte {
    ((b0 & 0x03) << 2) | (b1 >> 6)
  }

  function ControlBits(b0: byte): byte {
    b0 & 0x03
  }

  /** SetRaw reads a first octet and, for data, one more, which may lie past the range. */
  predicate Parsable(buffer: seq<byte>, begin: nat, end: nat)
  {
    begin < end <= |buffer| && (CarriesData(TypeBits(buffer[begin])) ==> begin + 1 < |buffer|)
  }

  /** The fields after SetRaw on buffer[begin..end]. */
  function SetRawResult(t: TpduValue, buffer: seq<byte>, begin: nat, end: nat): (TpduValue, Outcome)
    requires Parsable(buffer, begin, end)
  {
    var b0 := buffer[begin];
    var header := t.(communicationType := TypeBits(b0), sequenceNumber := SequenceBits(b0));
    if CarriesData(TypeBits(b0)) then
      var coded := header.(apci := ApciBits(b0, buffer[begin + 1]));
      var payload := buffer[begin + 1..end];
      if PayloadAccepted(payload) then (coded.(payload := Stored(payload)), Done)
      else (coded, Failed(PayloadSizeIncorrect))
    else
      (header.(controlData := ControlBits(b0), payload := [0]), Done)
  }

  lemma HeaderBits(b0: byte, b1: byte)
    ensures TypeBits(b0) <= NCD && ApciBits(b0, b1) <= ESCAPE && ControlBits(b0) <= 3
  {
  }

  lemma SixBits(b: byte)
    ensures b & 0x3F <= 0x3F
  {
  }

  lemma StoredIsSound(payload: seq<byte>)
    requires PayloadAccepted(payload)
    ensures 1 <= |Stored(payload)| <= MAX_PAYLOAD_SIZE && Stored(payload)[0] <= 0x3F
  {
    SixBits(payload[0]);
  }

  lemma StartsFromZero(b: byte)
    ensures 0 | b == b
  {
  }

  lemma PushBackTwice(buf: seq<byte>, a: byte, b: byte, rest: seq<byte>)
    ensures buf + [a] + [b] + rest == buf + ([a, b] + rest)
  {
  }

  class TpduObject {
    var communicationType: byte
    var sequenceNumber: byte
    var apci: byte
    var apduPayload: seq<byte>
    var cDataType: byte

    ghost function Value(): TpduValue
      reads this
    {
      TpduValue(communicationType, sequenceNumber, apci, apduPayload, cDataType)
    }

    ghost predicate Valid()
      reads this
    {
      Sound(Value())
    }

    constructor ()
      ensures Valid() && Value() == FRESH_TPDU
    {
      communicationType, sequenceNumber, apci, apduPayload, cDataType := UDP, 0, GROUP_VALUE_READ, [0], 0;
    }

    method SetCommunicationType(t: byte) returns (r: Outcome)
      requires Valid()
      modifies this
      ensures Valid()
      ensures if t > NCD then r == Failed(CommunicationTypeIncorrect) && Value() == old(Value())
              else r == Done && Value() == old(Value()).(communicationType := t)
    {
      if t > NCD {
        return Failed(CommunicationTypeIncorrect);
      }
      communicationType := t;
      r := Done;
    }

    method SetApci(apci: byte) returns (r: Outcome)
      requires Valid()
      modifies this
      ensures Valid()
      ensures if apci > ESCAPE then r == Failed(ApciIncorrect) && Value() == old(Value())
              else r == Done && Value() == old(Value()).(apci := apci)
    {
      if apci > ESCAPE {
        return Failed(ApciIncorrect);
      }
      this.apci := apci;
      r := Done;
    }

    method SetPayload(payload: seq<byte>) returns (r: Outcome)
      requires Valid()
      modifies this
      ensures Valid()
      ensures if PayloadAccepted(payload) then r == Done && Value() == old(Value()).(payload := Stored(payload))
              else r == Failed(PayloadSizeIncorrect) && Value() == old(Value())
    {
      if |payload| <= MAX_PAYLOAD_SIZE && |payload| > 0 {
        StoredIsSound(payload);
        apduPayload := payload;
        apduPayload := apduPayload[0 := apduPayload[0] & 0x3F];
        assert apduPayload == Stored(payload);
        r := Done;
      } else {
        r := Failed(PayloadSizeIncorrect);
      }
    }

    /** GetRawPushBack: the raw TPDU appended to a buffer. */
    method GetRawPushBack(buf: seq<byte>) returns (out: seq<byte>)
      requires Valid()
      ensures out == buf + EncodeTpdu(Value())
    {
      var tpduFirstByte: byte := 0;
      tpduFirstByte := tpduFirstByte | (communicationType << 6);
      tpduFirstByte := tpduFirstByte | ((sequenceNumber & 0x0F) << 2);
      StartsFromZero(communicationType << 6);
      assert tpduFirstByte == FirstOctet(Value());
      out := buf;
      if communicationType == UDP || communicationType == NDP {
        var first, second := tpduFirstByte | ((apci >> 2) & 0x03), ((apci & 0x03) << 6) | (apduPayload[0] & 0x3F);
        out := out + [first];
        out := out + [second];
        out := out + apduPayload[1..];
        PushBackTwice(buf, first, second, apduPayload[1..]);
      } else {
        out := out + [tpduFirstByte | (cDataType & 0x03)];
      }
    }

    method SetRaw(buffer: seq<byte>, begin: nat, end: nat) returns (r: Outcome)
      requires Valid() && Parsable(buffer, begin, end)
      modifies this
      ensures Valid()
      ensures (Value(), r) == SetRawResult(old(Value()), buffer, begin, end)
    {
      hide Stored, TypeBits, SequenceBits, ApciBits, ControlBits;
      var b0 := buffer[begin];
      HeaderBits(b0, if begin + 1 < |buffer| then buffer[begin + 1] else 0);
      r := SetCommunicationType(TypeBits(b0));
      sequenceNumber := SequenceBits(b0);
      if communicationType == UDP || communicationType == NDP {
        r := SetApci(ApciBits(b0, buffer[begin + 1]));
        r := SetPayload(buffer[begin + 1..end]);
      } else {
        cDataType := ControlBits(b0);
        ZeroStored();
        r := SetPayload([0]);
      }
    }
  }

  lemma ParsedIsSound(t: TpduValue, buffer: seq<byte>, begin: nat, end: nat)
    requires Sound(t) && Parsable(buffer, begin, end)
    ensures Sound(SetRawResult(t, buffer, begin, end).0)
  {
    hide Stored, TypeBits, SequenceBits, ApciBits, ControlBits;
    HeaderBits(buffer[begin], if begin + 1 < |buffer| then buffer[begin + 1] else 0);
    var payload := buffer[begin + 1..end];
    if PayloadAccepted(payload) {
      StoredIsSound(payload);
    }
  }

  lemma ZeroStored()
    ensures Stored([0]) == [0]
  {
    assert Stored([0]) == [0 & 0x3F] + [];
  }
}
