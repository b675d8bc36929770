/**
  The frame in numbers: which octets are accepted, which bits of them are which field, and which
  octets a telegram and a transaction become.
 */
module WireFormat {
  import opened Bits
  import opened Outcomes
  import opened GroupAddress
  import opened Tpdu
  import opened Telegram
  import opened TelegramTheorems
  import opened ControllerSpec

  /** The number of two octets, the more significant first. */
  function Number16(high: byte, low: byte): nat
  {
    256 * NatOfByte(high) + NatOfByte(low)
  }

  /** The frames that are accepted. */
  lemma AcceptedOctets(buf: seq<byte>)
    ensures Accepted(buf) <==>
            && 8 <= |buf| <= 23
            && |buf| == 8 + NatOfByte(buf[5] & 0x0F)
            && buf[0] & 0xD3 == 0x90
            && XorFold(buf) == 0xFF
            && (buf[6] >> 6 <= 1 ==> |buf| >= 9)
  {
    hide NatOfByte, ByteOfNat, XorFold;
    AcceptedExactly(buf);
    if |buf| >= 8 {
      DataType(buf[6] >> 6);
    }
  }

  /** Why a frame is rejected: the first of the checks that fails. */
  lemma RejectionReasons(buf: seq<byte>)
    ensures Decode(buf) == Err(FrameLengthInvalid) <==> |buf| < 8 || |buf| > 23
    ensures 8 <= |buf| <= 23 ==>
              && (Decode(buf) == Err(ApduLengthWrong) <==> |buf| != 8 + NatOfByte(buf[5] & 0x0F))
              && (|buf| == 8 + NatOfByte(buf[5] & 0x0F) ==>
                    && (Decode(buf) == Err(ControlFieldIncorrect) <==> buf[0] & 0xD3 != 0x90)
                    && (buf[0] & 0xD3 == 0x90 ==>
                          && (Decode(buf) == Err(ParityMismatch) <==> XorFold(buf) != 0xFF)
                          && (XorFold(buf) == 0xFF ==>
                                (Decode(buf) == Err(PayloadSizeIncorrect) <==> buf[6] >> 6 <= 1 && |buf| == 8))))
  {
    hide NatOfByte, ByteOfNat, XorFold;
    ParityZero(XorFold(buf));
    if |buf| >= 8 {
      DataType(buf[6] >> 6);
    }
  }

  lemma DataType(communicationType: byte)
    ensures communicationType <= 1 <==> CarriesData(communicationType)
  {
  }

  /** The fields of an accepted frame. */
  lemma ReceivedFields(buf: seq<byte>)
    requires Accepted(buf)
    ensures |buf| >= 8
    ensures var t := Decode(buf).value;
            && (t.repeated <==> buf[0] & 0x20 == 0)
            && t.priority == (buf[0] >> 2) & 0x03
            && t.source == Number16(buf[1], buf[2])
            && t.receiver == Number16(buf[3], buf[4])
            && (t.grouped <==> buf[5] & 0x80 != 0)
            && t.routingCounter == (buf[5] & 0x7F) >> 4
  {
    hide NatOfByte, ByteOfNat, XorFold;
  }

  /** The TPDU of an accepted frame: a code and a payload with the first two type codes, control data with the others. */
  lemma ReceivedTpdu(buf: seq<byte>)
    requires Accepted(buf)
    ensures |buf| >= 8 && (buf[6] >> 6 <= 1 ==> |buf| >= 9)
    ensures var u := Decode(buf).value.tpdu;
            && u.communicationType == buf[6] >> 6
            && u.sequenceNumber == (buf[6] >> 2) & 0x0F
            && if buf[6] >> 6 <= 1 then
                 && u.apci == ((buf[6] & 0x03) << 2) | (buf[7] >> 6)
                 && u.payload == [buf[7] & 0x3F] + buf[8..|buf| - 1]
                 && u.controlData == 0
               else u.controlData == buf[6] & 0x03 && u.payload == [0] && u.apci == 0
  {
    AcceptedOctets(buf);
    DecodedTpdu(buf);
    hide *;
    ParsedFields(buf, 6, |buf| - 1);
  }

  lemma DecodedTpdu(buf: seq<byte>)
    requires Accepted(buf)
    ensures |buf| >= 8 && Parsable(buf, 6, |buf| - 1)
    ensures SetRawResult(FRESH_TPDU, buf, 6, |buf| - 1) == (Decode(buf).value.tpdu, Done)
  {
    hide NatOfByte, ByteOfNat, XorFold, SetRawResult;
  }

  lemma ParsedFields(buf: seq<byte>, begin: nat, end: nat)
    requires Parsable(buf, begin, end) && SetRawResult(FRESH_TPDU, buf, begin, end).1 == Done
    ensures buf[begin] >> 6 <= 1 ==> begin + 2 <= end
    ensures var u := SetRawResult(FRESH_TPDU, buf, begin, end).0;
            && u.communicationType == buf[begin] >> 6
            && u.sequenceNumber == (buf[begin] >> 2) & 0x0F
            && if buf[begin] >> 6 <= 1 then
                 && u.apci == ((buf[begin] & 0x03) << 2) | (buf[begin + 1] >> 6)
                 && u.payload == [buf[begin + 1] & 0x3F] + buf[begin + 2..end]
                 && u.controlData == 0
               else u.controlData == buf[begin] & 0x03 && u.payload == [0] && u.apci == 0
  {
    DataType(buf[begin] >> 6);
    if buf[begin] >> 6 <= 1 {
      assert buf[begin + 1..end] != [] ==> buf[begin + 1..end][1..] == buf[begin + 2..end];
    }
  }

  /** The header octets of an emitted frame. */
  lemma EmittedFields(t: TelegramValue)
    requires SoundTelegram(t)
    ensures var b := Encode(t);
            && |b| >= 8
            && b[0] == 0x90 | (if t.repeated then 0 else 0x20) | ((t.priority & 0x03) << 2)
            && Number16(b[1], b[2]) == t.source
            && Number16(b[3], b[4]) == t.receiver
            && (b[5] & 0x80 != 0 <==> t.grouped)
            && (b[5] & 0x7F) >> 4 == t.routingCounter & 0x07
            && NatOfByte(b[5] & 0x0F) == |t.tpdu.payload|
            && XorFold(b) == 0xFF
  {
    hide NatOfByte, ByteOfNat, XorFold;
    var b := Encode(t);
    var h := Header(t);
    assert b[..6] == h;
    assert b[0] == h[0] && b[1] == h[1] && b[2] == h[2] && b[3] == h[3] && b[4] == h[4] && b[5] == h[5];
    ControlBitsOf(t.priority, t.repeated);
    SplitJoins(t.source);
    SplitJoins(t.receiver);
    NibbleEmitted(t);
    EmittedFold(t);
    LengthOctet(|t.tpdu.payload|);
    NpduFields(t.grouped, t.routingCounter, ByteOfNat(|t.tpdu.payload|));
  }

  lemma ControlBitsOf(priority: byte, repeated: bool)
    ensures ((priority & 0x3) << 2) | (if repeated then 0 else 0x20) | 0x80 | 0x10
            == 0x90 | (if repeated then 0 else 0x20) | ((priority & 0x03) << 2)
  {
  }

  /** The TPDU octets of an emitted frame. */
  lemma EmittedTpduOctets(t: TelegramValue)
    requires SoundTelegram(t)
    ensures var b, u := Encode(t), t.tpdu;
            if u.communicationType <= 1 then
              && |b| == 8 + |u.payload|
              && b[6] == (u.communicationType << 6) | ((u.sequenceNumber & 0x0F) << 2) | ((u.apci >> 2) & 0x03)
              && b[7] == ((u.apci & 0x03) << 6) | (u.payload[0] & 0x3F)
              && b[8..|b| - 1] == u.payload[1..]
            else
              && |b| == 8
              && b[6] == (u.communicationType << 6) | ((u.sequenceNumber & 0x0F) << 2) | (u.controlData & 0x03)
  {
    hide NatOfByte, ByteOfNat, XorFold;
    DataType(t.tpdu.communicationType);
    var b, raw := Encode(t), EncodeTpdu(t.tpdu);
    assert b[6..|b| - 1] == raw;
    assert b[6] == raw[0];
    if t.tpdu.communicationType <= 1 {
      assert b[7] == raw[1] && b[8..|b| - 1] == raw[2..];
    }
  }

  // ---- Transactions ----

  /** A transaction is sent if and only if its code and its payload size are legal, as a low-priority group telegram. */
  lemma SentFields(address: Address, apci: byte, payload: seq<byte>)
    ensures SendResult(address, apci, payload).Ok? <==> apci <= 15 && 1 <= |payload| <= 15
    ensures SendResult(address, apci, payload).Ok? ==>
              SendResult(address, apci, payload).value
              == TelegramValue(false, 3, 0, 2048 * address.main + 256 * address.middle + address.sub, true, 0,
                               TpduValue(0, 0, apci, [payload[0] & 0x3F] + payload[1..], 0))
  {
    AddressNumber(address);
  }

  /** The 16-bit form of an address. */
  lemma AddressNumber(a: Address)
    ensures Eib(a) == 2048 * a.main + 256 * a.middle + a.sub
  {
    ModUnique(a.main, 32, 0, a.main);
    ModUnique(a.middle, 8, 0, a.middle);
    ModUnique(a.sub, 256, 0, a.sub);
  }

  /** The numbers that each way of writing an address accepts. */
  lemma AddressLimits(main: nat, middle: nat, sub: nat)
    ensures OfTriple(main, middle, sub).Ok? <==> main <= 31 && middle <= 7 && sub <= 255
    ensures OfDouble(main, sub).Ok? <==> main <= 31 && sub <= 2047
    ensures OfSingle(main).Ok? <==> main <= 65535
  {
  }

  /** Start-up and poll reads carry code 0 and one zero octet. */
  lemma ReadFields(key: Address)
    ensures ReadRequest(key) == TelegramValue(false, 3, 0, 2048 * key.main + 256 * key.middle + key.sub, true, 0,
                                              TpduValue(0, 0, 0, [0], 0))
  {
    AddressNumber(key);
    ZeroStored();
  }

  // ---- Two frames octet by octet ----

  lemma FoldNext(data: seq<byte>, b: byte)
    ensures XorFold(data + [b]) == XorFold(data) ^ b
  {
    assert (data + [b])[..|data|] == data;
  }

  lemma FoldOfFour(data: seq<byte>, a: byte, b: byte, c: byte, d: byte)
    ensures XorFold(data + [a, b, c, d]) == XorFold(data) ^ a ^ b ^ c ^ d
  {
    hide XorFold;
    FoldNext(data, a);
    FoldNext(data + [a], b);
    FoldNext(data + [a] + [b], c);
    FoldNext(data + [a] + [b] + [c], d);
    assert data + [a] + [b] + [c] + [d] == data + [a, b, c, d];
  }

  lemma NothingFolded()
    ensures XorFold([]) == 0
  {
  }

  const WRITE_FRAME: seq<byte> := [0xBC, 0x00, 0x00, 0x0A, 0x03, 0x83, 0x00, 0x80, 0x0C, 0x33, 0x76]

  lemma WriteFrameFold()
    ensures XorFold(WRITE_FRAME) == 0xFF
  {
    var header: seq<byte> := [0xBC, 0x00, 0x00, 0x0A];
    var most: seq<byte> := [0xBC, 0x00, 0x00, 0x0A, 0x03, 0x83, 0x00, 0x80];
    FoldOfFour([], 0xBC, 0x00, 0x00, 0x0A);
    assert [] + [0xBC as byte, 0x00, 0x00, 0x0A] == header;
    FoldOfFour(header, 0x03, 0x83, 0x00, 0x80);
    assert header + [0x03, 0x83, 0x00, 0x80] == most;
    FoldNext(most, 0x0C);
    FoldNext(most + [0x0C], 0x33);
    FoldNext(most + [0x0C] + [0x33], 0x76);
    assert most + [0x0C] + [0x33] + [0x76] == WRITE_FRAME;
    NothingFolded();
    hide XorFold;
  }

  /** Writing the octets 00 0C 33 to 1/2/3 sends this frame, and this frame is that write. */
  lemma WriteFrame()
    ensures var sent := SendResult(Triple(1, 2, 3), GROUP_VALUE_WRITE, [0x00, 0x0C, 0x33]);
            && sent.Ok? && SoundTelegram(sent.value)
            && Encode(sent.value) == WRITE_FRAME
            && Decode(WRITE_FRAME) == Ok(sent.value)
  {
    hide XorFold, Decode, Encode, NatOfByte, ByteOfNat;
    var buf := WRITE_FRAME;
    WriteFrameFold();
    ByteWeights(buf[5] & 0x0F);
    AcceptedOctets(buf);
    ReceivedFields(buf);
    ReceivedTpdu(buf);
    WriteFrameFields(Decode(buf).value, Triple(1, 2, 3), [0x00, 0x0C, 0x33]);
    DataType(buf[6] >> 6);
    DataFrameKept(buf);
  }

  lemma WriteFrameFields(t: TelegramValue, address: Address, payload: seq<byte>)
    requires address == Triple(1, 2, 3) && payload == [0x00, 0x0C, 0x33]
    requires !t.repeated && t.priority == 3 && t.grouped && t.routingCounter == 0
    requires t.source == Number16(0x00, 0x00) && t.receiver == Number16(0x0A, 0x03)
    requires t.tpdu == TpduValue(0, 0, 2, [0x00] + [0x0C, 0x33], 0)
    ensures SendResult(address, GROUP_VALUE_WRITE, payload) == Ok(t)
  {
    assert GROUP_VALUE_WRITE == 2;
    WriteFrameAddresses();
    hide *;
    SentFields(address, GROUP_VALUE_WRITE, payload);
    assert payload[1..] == [0x0C, 0x33] && payload[0] & 0x3F == 0x00;
    assert [payload[0] & 0x3F] + payload[1..] == [0x00] + [0x0C, 0x33];
    assert t == TelegramValue(false, 3, 0, 2563, true, 0, t.tpdu);
    assert SendResult(address, GROUP_VALUE_WRITE, payload).value == t;
  }

  lemma WriteFrameAddresses()
    ensures Number16(0x00, 0x00) == 0 && Number16(0x0A, 0x03) == 2563
  {
    hide NatOfByte;
    ByteWeights(0x00);
    ByteWeights(0x0A);
    ByteWeights(0x03);
  }
}
