/** The telegram frame: header, length nibble, TPDU and parity octet. Models src/knxtelegram.cpp. */
module Telegram {
  import opened Bits
  import opened Outcomes
  import opened Tpdu

  const SIZE_WITHOUT_PAYLOAD: nat := 8
  const NPDU_FIRST: nat := 5
  const LOWEST_PRIORITY: byte := 3
  const UINT16_LIMIT: nat := 0x1_0000

  datatype TelegramValue = TelegramValue(
    repeated: bool,
    priority: byte,
    source: nat,
    receiver: nat,
    grouped: bool,
    routingCounter: byte,
    tpdu: TpduValue)

  predicate SoundTelegram(t: TelegramValue)
  {
    t.priority <= LOWEST_PRIORITY && t.source < UINT16_LIMIT && t.receiver < UINT16_LIMIT && Sound(t.tpdu)
  }

  const FRESH_TELEGRAM: TelegramValue := TelegramValue(false, LOWEST_PRIORITY, 0, 0, false, 0, FRESH_TPDU)

  // ---- Emission ----

  function ControlField(t: TelegramValue): byte
  {
    ((t.priority & 0x3) << 2) | (if t.repeated then 0 else 0x20) | 0x80 | 0x10
  }

  function NpduFirst(t: TelegramValue): byte
    requires Sound(t.tpdu)
  {
    (if t.grouped then 0x80 else 0) | ((t.routingCounter & 0x7) << 4) | ByteOfNat(|t.tpdu.payload|)
  }

  /** A 16-bit number as two octets, the more significant first. */
  function TwoOctets(n: nat): seq<byte>
    requires n < UINT16_LIMIT
  {
    [ByteOfNat(n / 256), ByteOfNat(n % 256)]
  }

  function Header(t: TelegramValue): (h: seq<byte>)
    requires SoundTelegram(t)
    ensures |h| == 6
  {
    [ControlField(t)] + TwoOctets(t.source) + TwoOctets(t.receiver) + [NpduFirst(t)]
  }

  function WithoutParity(t: TelegramValue): seq<byte>
    requires SoundTelegram(t)
  {
    Header(t) + EncodeTpdu(t.tpdu)
  }

  function Parity(data: seq<byte>): byte
  {
    !XorFold(data)
  }

  /** GetRawTelegram. */
  function Encode(t: TelegramValue): seq<byte>
    requires SoundTelegram(t)
  {
    WithoutParity(t) + [Parity(WithoutParity(t))]
  }

  // ---- Acceptance ----

  function LengthNibble(buf: seq<byte>): nat
    requires |buf| > NPDU_FIRST
  {
    NatOfByte(buf[NPDU_FIRST] & 0x0F)
  }

  predicate ControlFieldValid(b: byte)
  {
    b & 0xD3 == 0x90
  }

  function HeaderCheck(buf: seq<byte>): Outcome
  {
    if |buf| < SIZE_WITHOUT_PAYLOAD || |buf| > SIZE_WITHOUT_PAYLOAD + MAX_PAYLOAD_SIZE then Failed(FrameLengthInvalid)
    else if |buf| != SIZE_WITHOUT_PAYLOAD + LengthNibble(buf) then Failed(ApduLengthWrong)
    else if !ControlFieldValid(buf[0]) then Failed(ControlFieldIncorrect)
    else if Parity(buf) != 0 then Failed(ParityMismatch)
    else Done
  }

  function Joined(high: byte, low: byte): (n: nat)
    ensures n < UINT16_LIMIT
  {
    256 * NatOfByte(high) + NatOfByte(low)
  }

  /** The header fields of a frame that passed the checks. */
  function HeaderFields(t: TelegramValue, buf: seq<byte>): TelegramValue
    requires |buf| >= SIZE_WITHOUT_PAYLOAD
  {
    t.(repeated := buf[0] & 0x20 == 0, priority := (buf[0] >> 2) & 0x03,
       source := Joined(buf[1], buf[2]), receiver := Joined(buf[3], buf[4]),
       grouped := buf[NPDU_FIRST] & 0x80 != 0, routingCounter := (buf[NPDU_FIRST] & 0x7F) >> 4)
  }

  /** The telegram after SetRawTelegram, and whether that threw. */
  function SetRawTelegramResult(t: TelegramValue, buf: seq<byte>): (TelegramValue, Outcome)
  {
    if HeaderCheck(buf) != Done then (t, HeaderCheck(buf))
    else
      var parsed := SetRawResult(t.tpdu, buf, NPDU_FIRST + 1, |buf| - 1);
      (HeaderFields(t, buf).(tpdu := parsed.0), parsed.1)
  }

  /** The constructor from a buffer. */
  function Decode(buf: seq<byte>): Result<TelegramValue>
  {
    var r := SetRawTelegramResult(FRESH_TELEGRAM, buf);
    if r.1 == Done then Ok(r.0) else Err(r.1.error)
  }

  // ---- The telegram object ----

  lemma PriorityBits(b: byte)
    ensures (b >> 2) & 0x03 <= LOWEST_PRIORITY
  {
  }

  /** The three read-modify-write steps on the NPDU octet of a zeroed buffer. */
  lemma NpduSteps(grouped: bool, routing: byte, length: byte)
    ensures var b1: byte := if grouped then 0 | 0x80 else 0 & 0x7F;
            var b2 := (b1 & 0x8F) | ((routing & 0x7) << 4);
            (b2 & 0xF0) | length == (if grouped then 0x80 else 0) | ((routing & 0x7) << 4) | length
  {
  }

  class TelegramObject {
    var isRepeatedTelegram: bool
    var priority: byte
    var sourceAddress: nat
    var receiverAddress: nat
    var isReceiverAddressGrouped: bool
    var routingCounter: byte
    const mtpdu: TpduObject

    ghost function Value(): TelegramValue
      reads this, mtpdu
    {
      TelegramValue(isRepeatedTelegram, priority, sourceAddress, receiverAddress,
                    isReceiverAddressGrouped, routingCounter, mtpdu.Value())
    }

    ghost predicate Valid()
      reads this, mtpdu
    {
      SoundTelegram(Value())
    }

    constructor ()
      ensures Valid() && Value() == FRESH_TELEGRAM && fresh(mtpdu)
    {
      isRepeatedTelegram, priority, sourceAddress, receiverAddress := false, LOWEST_PRIORITY, 0, 0;
      isReceiverAddressGrouped, routingCounter := false, 0;
      mtpdu := new TpduObject();
    }

    method SetSourceAddress(address: nat)
      requires Valid() && address < UINT16_LIMIT
      modifies this
      ensures Valid() && Value() == old(Value()).(source := address)
    {
      sourceAddress := address;
    }

    method SetReceiverAddress(address: nat)
      requires Valid() && address < UINT16_LIMIT
      modifies this
      ensures Valid() && Value() == old(Value()).(receiver := address)
    {
      receiverAddress := address;
    }

    method SetGroupAddressedFlag(grouped: bool)
      requires Valid()
      modifies this
      ensures Valid() && Value() == old(Value()).(grouped := grouped)
    {
      isReceiverAddressGrouped := grouped;
    }

    method SetPriority(priority: byte) returns (r: Outcome)
      requires Valid()
      modifies this
      ensures Valid()
      ensures if priority > LOWEST_PRIORITY then r == Failed(PriorityIncorrect) && Value() == old(Value())
              else r == Done && Value() == old(Value()).(priority := priority)
    {
      if priority > LOWEST_PRIORITY {
        return Failed(PriorityIncorrect);
      }
      this.priority := priority;
      r := Done;
    }

    static method CalculateParity(data: seq<byte>) returns (p: byte)
      ensures p == Parity(data)
    {
      var parity: byte := 0;
      for i := 0 to |data|
        invariant parity == XorFold(data[..i])
      {
        assert data[..i + 1][..i] == data[..i];
        parity := parity ^ data[i];
      }
      assert data[..|data|] == data;
      p := !parity;
    }

    /** The first six octets, written in place into a zeroed buffer. */
    method RawHeader() returns (telegram: seq<byte>)
      requires Valid()
      ensures telegram == Header(Value())
    {
      telegram := [0, 0, 0, 0, 0, 0];
      telegram := telegram[0 := ((priority & 0x3) << 2) | (if !isRepeatedTelegram then 0x20 else 0) | 0x80 | 0x10];
      telegram := telegram[1 := ByteOfNat(sourceAddress / 256)];
      telegram := telegram[2 := ByteOfNat(sourceAddress % 256)];
      telegram := telegram[3 := ByteOfNat(receiverAddress / 256)];
      telegram := telegram[4 := ByteOfNat(receiverAddress % 256)];
      var npdu := RawNpdu(telegram[NPDU_FIRST]);
      telegram := telegram[NPDU_FIRST := npdu];
    }

    method RawNpdu(initial: byte) returns (npdu: byte)
      requires Valid() && initial == 0
      ensures npdu == NpduFirst(Value())
    {
      npdu := initial;
      npdu := if isReceiverAddressGrouped then npdu | 0x80 else npdu & 0x7F;
      npdu := npdu & 0x8F;
      npdu := npdu | ((routingCounter & 0x7) << 4);
      npdu := npdu & 0xF0;
      npdu := npdu | ByteOfNat(|mtpdu.apduPayload|);
      NpduSteps(isReceiverAddressGrouped, routingCounter, ByteOfNat(|mtpdu.apduPayload|));
    }

    method GetRawTelegram() returns (telegram: seq<byte>)
      requires Valid()
      ensures telegram == Encode(Value())
    {
      telegram := RawHeader();
      telegram := mtpdu.GetRawPushBack(telegram);
      var parity := CalculateParity(telegram);
      telegram := telegram + [parity];
    }

    static method CheckHeader(knxBuffer: seq<byte>) returns (r: Outcome)
      ensures r == HeaderCheck(knxBuffer)
    {
      if |knxBuffer| < SIZE_WITHOUT_PAYLOAD || |knxBuffer| > SIZE_WITHOUT_PAYLOAD + MAX_PAYLOAD_SIZE {
        return Failed(FrameLengthInvalid);
      } else if |knxBuffer| != SIZE_WITHOUT_PAYLOAD + NatOfByte(knxBuffer[NPDU_FIRST] & 0x0F) {
        return Failed(ApduLengthWrong);
      }
      if knxBuffer[0] & !0x2C != 0x90 {
        return Failed(ControlFieldIncorrect);
      }
      var parity := CalculateParity(knxBuffer);
      if parity != 0 {
        return Failed(ParityMismatch);
      }
      r := Done;
    }

    method SetHeaderFields(knxBuffer: seq<byte>)
      requires Valid() && |knxBuffer| >= SIZE_WITHOUT_PAYLOAD
      modifies this
      ensures Valid() && Value() == HeaderFields(old(Value()), knxBuffer)
    {
      hide NatOfByte, ByteOfNat;
      isRepeatedTelegram := knxBuffer[0] & 0x20 == 0;
      PriorityBits(knxBuffer[0]);
      var accepted := SetPriority((knxBuffer[0] >> 2) & 0x03);
      sourceAddress := Joined(knxBuffer[1], knxBuffer[2]);
      receiverAddress := Joined(knxBuffer[3], knxBuffer[4]);
      isReceiverAddressGrouped := knxBuffer[NPDU_FIRST] & 0x80 != 0;
      routingCounter := (knxBuffer[NPDU_FIRST] & !0x80) >> 4;
    }

    method SetRawTelegram(knxBuffer: seq<byte>) returns (r: Outcome)
      requires Valid()
      modifies this, mtpdu
      ensures Valid()
      ensures (Value(), r) == SetRawTelegramResult(old(Value()), knxBuffer)
    {
      r := CheckHeader(knxBuffer);
      if r.Failed? {
        return;
      }
      SetHeaderFields(knxBuffer);
      r := mtpdu.SetRaw(knxBuffer, NPDU_FIRST + 1, |knxBuffer| - 1);
    }
  }
}
