/**
  The frame codec as a bijection and as an error-detecting code: which buffers are accepted, which
  telegrams survive a passage through a buffer, and what one damaged octet does.
 */
module TelegramTheorems {
  import opened Bits
  import opened Outcomes
  import opened Tpdu
  import opened Telegram

  predicate Accepted(buf: seq<byte>)
  {
    Decode(buf).Ok?
  }

  /** The transport type bits of a frame announce data. */
  predicate DataFrame(buf: seq<byte>)
    requires |buf| > NPDU_FIRST + 1
  {
    CarriesData(buf[NPDU_FIRST + 1] >> 6)
  }

  /** A frame is accepted exactly when size, nibble, control field and parity agree and data frames have data. */
  lemma AcceptedExactly(buf: seq<byte>)
    ensures Accepted(buf) <==>
            && SIZE_WITHOUT_PAYLOAD <= |buf| <= SIZE_WITHOUT_PAYLOAD + MAX_PAYLOAD_SIZE
            && |buf| == SIZE_WITHOUT_PAYLOAD + LengthNibble(buf)
            && ControlFieldValid(buf[0])
            && XorFold(buf) == 0xFF
            && (DataFrame(buf) ==> LengthNibble(buf) >= 1)
  {
    hide NatOfByte, ByteOfNat;
    ParityZero(XorFold(buf));
  }

  lemma ParityZero(fold: byte)
    ensures !fold == 0 <==> fold == 0xFF
  {
  }

  // ---- From bytes to bytes ----

  lemma ControlOctet(b: byte)
    requires ControlFieldValid(b)
    ensures ((((b >> 2) & 0x03) & 0x3) << 2) | (if b & 0x20 == 0 then 0 else 0x20) | 0x80 | 0x10 == b
  {
  }

  lemma NpduOctet(b: byte)
    ensures (if b & 0x80 != 0 then 0x80 else 0) | ((((b & 0x7F) >> 4) & 0x7) << 4) | (b & 0x0F) == b
  {
  }

  lemma DataOctets(b0: byte, b1: byte)
    ensures var apci := ((b0 & 0x03) << 2) | (b1 >> 6);
            && ((b0 >> 6) << 6) | ((((b0 >> 2) & 0x0F) & 0x0F) << 2) | ((apci >> 2) & 0x03) == b0
            && ((apci & 0x03) << 6) | ((b1 & 0x3F) & 0x3F) == b1
  {
  }

  lemma JoinedSplits(high: byte, low: byte)
    ensures TwoOctets(Joined(high, low)) == [high, low]
  {
    var n := Joined(high, low);
    ModUnique(n, 256, NatOfByte(high), NatOfByte(low));
    ByteOfNatOfByte(high);
    ByteOfNatOfByte(low);
  }

  lemma LastOctetIsParity(buf: seq<byte>)
    requires buf != [] && XorFold(buf) == 0xFF
    ensures buf[|buf| - 1] == Parity(buf[..|buf| - 1])
  {
    XorTo255(XorFold(buf[..|buf| - 1]), buf[|buf| - 1]);
  }

  lemma XorTo255(a: byte, b: byte)
    requires a ^ b == 0xFF
    ensures b == !a
  {
  }

  lemma TpduKept(t: TpduValue, buf: seq<byte>)
    requires |buf| > SIZE_WITHOUT_PAYLOAD && |buf| <= SIZE_WITHOUT_PAYLOAD + MAX_PAYLOAD_SIZE && DataFrame(buf)
    ensures SetRawResult(t, buf, NPDU_FIRST + 1, |buf| - 1).1 == Done
    ensures EncodeTpdu(SetRawResult(t, buf, NPDU_FIRST + 1, |buf| - 1).0) == buf[NPDU_FIRST + 1..|buf| - 1]
    ensures |SetRawResult(t, buf, NPDU_FIRST + 1, |buf| - 1).0.payload| == |buf| - SIZE_WITHOUT_PAYLOAD
  {
    DataOctets(buf[NPDU_FIRST + 1], buf[NPDU_FIRST + 2]);
    var raw := buf[NPDU_FIRST + 1..|buf| - 1];
    assert raw == [raw[0], raw[1]] + raw[2..];
    assert buf[NPDU_FIRST + 2..|buf| - 1][1..] == raw[2..];
  }

  lemma HeaderKept(t: TelegramValue, buf: seq<byte>)
    requires |buf| > SIZE_WITHOUT_PAYLOAD && HeaderCheck(buf) == Done
    requires SoundTelegram(t) && |t.tpdu.payload| == |buf| - SIZE_WITHOUT_PAYLOAD
    requires t == HeaderFields(t, buf)
    ensures Header(t) == buf[..6]
  {
    hide NatOfByte, ByteOfNat;
    ControlOctet(buf[0]);
    NpduOctet(buf[NPDU_FIRST]);
    JoinedSplits(buf[1], buf[2]);
    JoinedSplits(buf[3], buf[4]);
    ByteOfNatOfByte(buf[NPDU_FIRST] & 0x0F);
  }

  lemma CheckedSize(buf: seq<byte>)
    requires HeaderCheck(buf) == Done
    ensures SIZE_WITHOUT_PAYLOAD <= |buf| <= SIZE_WITHOUT_PAYLOAD + MAX_PAYLOAD_SIZE
  {
    hide NatOfByte, XorFold;
  }

  lemma DecodedIsSound(t: TelegramValue, buf: seq<byte>)
    requires SoundTelegram(t)
    ensures SoundTelegram(SetRawTelegramResult(t, buf).0)
  {
    hide NatOfByte, ByteOfNat, HeaderCheck, SetRawResult;
    if HeaderCheck(buf) == Done {
      CheckedSize(buf);
      PriorityBits(buf[0]);
      ParsedIsSound(t.tpdu, buf, NPDU_FIRST + 1, |buf| - 1);
    }
  }

  lemma DataFrameKept(buf: seq<byte>)
    requires Accepted(buf) && DataFrame(buf)
    ensures SoundTelegram(Decode(buf).value) && Encode(Decode(buf).value) == buf
  {
    hide NatOfByte, ByteOfNat;
    var t := Decode(buf).value;
    DecodedIsSound(FRESH_TELEGRAM, buf);
    AcceptedExactly(buf);
    TpduKept(FRESH_TPDU, buf);
    HeaderKept(t, buf);
    LastOctetIsParity(buf);
    assert WithoutParity(t) == buf[..|buf| - 1];
  }

  /** A control TPDU is emitted with length nibble 1 or more in eight octets, which no parser accepts. */
  lemma ControlFrameRejected(t: TelegramValue)
    requires SoundTelegram(t) && !CarriesData(t.tpdu.communicationType)
    ensures |Encode(t)| == SIZE_WITHOUT_PAYLOAD
    ensures Decode(Encode(t)) == Err(ApduLengthWrong)
  {
    NibbleEmitted(t);
  }

  lemma LengthOctet(n: nat)
    requires n < 16
    ensures ByteOfNat(n) & 0x0F == ByteOfNat(n)
  {
    assert Pow2(4) == 16;
    BitsOfSmallNat(n, 4, 8);
    LowNibble(BitsOfNat(n, 8));
  }

  lemma LowNibble(bits: seq<bool>)
    requires |bits| == 8 && !bits[4] && !bits[5] && !bits[6] && !bits[7]
    ensures ByteOfBits(bits) & 0x0F == ByteOfBits(bits)
  {
  }

  lemma NpduFields(grouped: bool, routing: byte, length: byte)
    requires length & 0x0F == length
    ensures var b := (if grouped then 0x80 else 0) | ((routing & 0x7) << 4) | length;
            b & 0x0F == length && (b & 0x80 != 0 <==> grouped) && (b & 0x7F) >> 4 == routing & 0x7
  {
  }

  lemma NibbleEmitted(t: TelegramValue)
    requires SoundTelegram(t)
    ensures LengthNibble(Encode(t)) == |t.tpdu.payload|
  {
    hide NatOfByte, ByteOfNat;
    var n := |t.tpdu.payload|;
    LengthOctet(n);
    NpduFields(t.grouped, t.routingCounter, ByteOfNat(n));
    NatOfByteOfNat(n);
    assert Encode(t)[NPDU_FIRST] == NpduFirst(t);
  }

  /** Parsing an accepted frame and emitting it again gives the same octets exactly for data frames. */
  lemma ReemissionExactly(buf: seq<byte>)
    requires Accepted(buf)
    ensures SoundTelegram(Decode(buf).value)
    ensures Encode(Decode(buf).value) == buf <==> DataFrame(buf)
  {
    DecodedIsSound(FRESH_TELEGRAM, buf);
    if DataFrame(buf) {
      DataFrameKept(buf);
    } else {
      ControlFrameRejected(Decode(buf).value);
    }
  }

  // ---- From telegrams to telegrams ----

  lemma ControlFields(repeated: bool, priority: byte)
    requires priority <= LOWEST_PRIORITY
    ensures var b := ((priority & 0x3) << 2) | (if repeated then 0 else 0x20) | 0x80 | 0x10;
            b & 0xD3 == 0x90 && (b & 0x20 == 0 <==> repeated) && (b >> 2) & 0x03 == priority
  {
  }

  lemma DataFields(communicationType: byte, sequence: byte, apci: byte, first: byte)
    requires communicationType <= NCD && apci <= ESCAPE
    ensures var b0 := ((communicationType << 6) | ((sequence & 0x0F) << 2)) | ((apci >> 2) & 0x03);
            var b1 := ((apci & 0x03) << 6) | (first & 0x3F);
            && b0 >> 6 == communicationType && (b0 >> 2) & 0x0F == sequence & 0x0F
            && ((b0 & 0x03) << 2) | (b1 >> 6) == apci && b1 & 0x3F == first & 0x3F
  {
  }

  lemma SplitJoins(n: nat)
    requires n < UINT16_LIMIT
    ensures Joined(TwoOctets(n)[0], TwoOctets(n)[1]) == n
  {
    NatOfByteOfNat(n / 256);
    NatOfByteOfNat(n % 256);
  }

  lemma EmittedFold(t: TelegramValue)
    requires SoundTelegram(t)
    ensures XorFold(Encode(t)) == 0xFF
  {
    assert Encode(t)[..|Encode(t)| - 1] == WithoutParity(t);
    XorWithComplement(XorFold(WithoutParity(t)));
  }

  lemma XorWithComplement(a: byte)
    ensures a ^ !a == 0xFF
  {
  }

  /** The telegram with the fields reduced to the bits a frame has for them. */
  function OnTheWire(t: TelegramValue): TelegramValue
  {
    t.(routingCounter := t.routingCounter & 0x7,
       tpdu := t.tpdu.(sequenceNumber := t.tpdu.sequenceNumber & 0x0F, controlData := 0))
  }

  lemma EmittedHeader(t: TelegramValue)
    requires SoundTelegram(t) && CarriesData(t.tpdu.communicationType)
    ensures HeaderCheck(Encode(t)) == Done
    ensures HeaderFields(FRESH_TELEGRAM, Encode(t)) == t.(routingCounter := t.routingCounter & 0x7, tpdu := FRESH_TPDU)
  {
    hide NatOfByte, ByteOfNat;
    var buf := Encode(t);
    NibbleEmitted(t);
    EmittedFold(t);
    ParityZero(XorFold(buf));
    ControlFields(t.repeated, t.priority);
    EmittedHeaderFields(t, buf);
  }

  lemma EmittedHeaderFields(t: TelegramValue, buf: seq<byte>)
    requires SoundTelegram(t) && |buf| >= SIZE_WITHOUT_PAYLOAD && buf[..6] == Header(t)
    ensures HeaderFields(FRESH_TELEGRAM, buf) == t.(routingCounter := t.routingCounter & 0x7, tpdu := FRESH_TPDU)
  {
    hide NatOfByte, ByteOfNat;
    var h := Header(t);
    assert buf[0] == h[0] && buf[1] == h[1] && buf[2] == h[2] && buf[3] == h[3] && buf[4] == h[4] && buf[5] == h[5];
    ControlFields(t.repeated, t.priority);
    SplitJoins(t.source);
    SplitJoins(t.receiver);
    LengthOctet(|t.tpdu.payload|);
    NpduFields(t.grouped, t.routingCounter, ByteOfNat(|t.tpdu.payload|));
  }

  lemma EmittedTpdu(u: TpduValue, buf: seq<byte>)
    requires Sound(u) && CarriesData(u.communicationType)
    requires |buf| == |u.payload| + SIZE_WITHOUT_PAYLOAD && buf[NPDU_FIRST + 1..|buf| - 1] == EncodeTpdu(u)
    ensures SetRawResult(FRESH_TPDU, buf, NPDU_FIRST + 1, |buf| - 1)
            == (u.(sequenceNumber := u.sequenceNumber & 0x0F, controlData := 0), Done)
  {
    var raw := EncodeTpdu(u);
    DataFields(u.communicationType, u.sequenceNumber, u.apci, u.payload[0]);
    assert buf[NPDU_FIRST + 1] == raw[0] && buf[NPDU_FIRST + 2] == raw[1];
    var payload := buf[NPDU_FIRST + 2..|buf| - 1];
    assert payload == raw[1..];
    SmallOctet(u.payload[0]);
    assert Stored(payload) == u.payload;
  }

  lemma SmallOctet(b: byte)
    requires b <= 0x3F
    ensures b & 0x3F == b
  {
  }

  /** Every data telegram is received as its own wire form. */
  lemma DataTelegramReceived(t: TelegramValue)
    requires SoundTelegram(t) && CarriesData(t.tpdu.communicationType)
    ensures Decode(Encode(t)) == Ok(OnTheWire(t))
  {
    hide NatOfByte, ByteOfNat;
    EmittedHeader(t);
    var buf := Encode(t);
    assert buf[NPDU_FIRST + 1..|buf| - 1] == EncodeTpdu(t.tpdu);
    EmittedTpdu(t.tpdu, buf);
  }

  /** All its fields are restored exactly when sequence number and routing counter fit their bits. */
  lemma DataTelegramRestoredExactly(t: TelegramValue)
    requires SoundTelegram(t) && CarriesData(t.tpdu.communicationType) && t.tpdu.controlData == 0
    ensures Decode(Encode(t)) == Ok(t) <==> t.tpdu.sequenceNumber < 16 && t.routingCounter < 8
  {
    DataTelegramReceived(t);
    FieldFits(t.tpdu.sequenceNumber, t.routingCounter);
  }

  lemma FieldFits(sequence: byte, routing: byte)
    ensures sequence & 0x0F == sequence <==> sequence < 16
    ensures routing & 0x7 == routing <==> routing < 8
  {
  }

  // ---- Error detection ----

  /** No frame that differs from an accepted one in exactly one octet is accepted. */
  lemma SingleOctetErrorDetected(buf: seq<byte>, i: nat, b: byte)
    requires Accepted(buf) && i < |buf| && b != buf[i]
    ensures !Accepted(buf[i := b])
  {
    AcceptedExactly(buf);
    AcceptedExactly(buf[i := b]);
    XorFoldUpdate(buf, i, b);
    XorDiffers(buf[i], b);
  }

  lemma XorDiffers(a: byte, b: byte)
    requires a != b
    ensures 0xFF ^ a ^ b != 0xFF
  {
  }
}
