/**
  Telegrams as text and back: the gateway control of the MQTT device. Models
  src/knxconverter.cpp.
 */
module Converter {
  import opened Bits
  import opened Digits
  import opened Outcomes
  import opened GroupAddress
  import opened Tpdu
  import opened Telegram
  import opened TextNumbers
  import opened DptRaw

  const APCI_NAMES: seq<string> := [
    "GroupValueRead", "GroupValueResponse", "GroupValueWrite", "IndividualAddrWrite",
    "IndividualAddrRequest", "IndividualAddrResponse", "AdcRead", "AdcResponse",
    "MemoryRead", "MemoryResponse", "MemoryWrite", "UserMessage",
    "MaskVersionRead", "MaskVersionResponse", "Restart", "Escape"]

  const CONTROL_NAMES: seq<string> := ["Connect", "Disconnect", "Ack", "Nack"]

  // ---- Printing ----

  function ApciName(apci: byte): string
    requires apci <= ESCAPE
  {
    CodeBound(apci);
    APCI_NAMES[NatOfByte(apci)]
  }

  /** Small octets as numbers. */
  lemma CodeBound(b: byte)
    ensures b <= 0x0F ==> NatOfByte(b) < 16
    ensures b <= 3 ==> NatOfByte(b) < 4
  {
    var bits := BitsOfByte(b);
    var low := bits[..4];
    assert Pow2(4) == 16 && Pow2(2) == 4 && Pow2(6) == 64;
    assert bits == low + bits[4..] && bits == bits[..2] + bits[2..];
    NatOfConcat(low, bits[4..]);
    NatOfConcat(bits[..2], bits[2..]);
    if b <= 0x0F {
      HighNibbleClear(b);
      AllClear(bits[4..]);
    }
    if b <= 3 {
      HighSixClear(b);
      AllClear(bits[2..]);
    }
  }

  lemma HighNibbleClear(b: byte)
    requires b <= 0x0F
    ensures !BitsOfByte(b)[4] && !BitsOfByte(b)[5] && !BitsOfByte(b)[6] && !BitsOfByte(b)[7]
  {
  }

  lemma HighSixClear(b: byte)
    requires b <= 3
    ensures !BitsOfByte(b)[2] && !BitsOfByte(b)[3] && !BitsOfByte(b)[4]
    ensures !BitsOfByte(b)[5] && !BitsOfByte(b)[6] && !BitsOfByte(b)[7]
  {
  }

  lemma {:induction false} AllClear(bits: seq<bool>)
    requires forall i :: 0 <= i < |bits| ==> !bits[i]
    ensures NatOfBits(bits) == 0
  {
    if bits != [] {
      AllClear(bits[1..]);
    }
  }

  /** An individual address with '/' between area, line and device. */
  function IndividualText(address: nat): string
  {
    DigitsOfNat(address / 4096 % 16) + ("/" + (DigitsOfNat(address / 256 % 16) + ("/" + DigitsOfNat(address % 256))))
  }

  function ReceiverText(grouped: bool, receiver: nat): string
    requires receiver < UINT16_LIMIT
  {
    if grouped then "g:" + ThreeLevels(OfEib(receiver)) else "i:" + IndividualText(receiver)
  }

  /** A payload of one octet is printed; of a longer one everything but the first octet is. */
  function PayloadText(payload: seq<byte>): string
    requires payload != []
  {
    if |payload| == 1 then PrintedByte(payload[0]) else Printed(payload[1..])
  }

  /** The text after the source address. */
  function MessageText(t: TelegramValue): string
    requires SoundTelegram(t)
  {
    CodeBound(t.tpdu.controlData);
    ReceiverText(t.grouped, t.receiver) + (" " +
    (if CarriesData(t.tpdu.communicationType) then ApciName(t.tpdu.apci) + (" " + PayloadText(t.tpdu.payload))
     else CONTROL_NAMES[NatOfByte(t.tpdu.controlData)]))
  }

  /** KnxTelegramToMqtt. */
  method KnxTelegramToMqtt(telegram: TelegramObject) returns (text: string)
    requires telegram.Valid()
    ensures text == "i:" + IndividualText(telegram.sourceAddress) + (" " + MessageText(telegram.Value()))
  {
    hide PayloadText, ApciName, DigitsOfNat;
    var tail := "";
    if telegram.mtpdu.communicationType == UDP || telegram.mtpdu.communicationType == NDP {
      var data := PrintPayload(telegram.mtpdu.apduPayload);
      tail := ApciName(telegram.mtpdu.apci) + (" " + data);
    } else {
      CodeBound(telegram.mtpdu.cDataType);
      tail := CONTROL_NAMES[NatOfByte(telegram.mtpdu.cDataType)];
    }
    text := "i:" + IndividualText(telegram.sourceAddress)
            + (" " + (ReceiverText(telegram.isReceiverAddressGrouped, telegram.receiverAddress) + (" " + tail)));
  }

  /** The loop of KnxPayloadToString. */
  method PrintPayload(payload: seq<byte>) returns (data: string)
    requires payload != []
    ensures data == PayloadText(payload)
  {
    hide PrintedByte;
    data := "";
    if |payload| == 1 {
      return PrintedByte(payload[0]);
    }
    var i := 1;
    while i < |payload|
      invariant 1 <= i <= |payload|
      invariant data + Printed(payload[i..]) == Printed(payload[1..])
    {
      assert payload[i..][0] == payload[i] && payload[i..][1..] == payload[i + 1..];
      data := data + PrintedByte(payload[i]) + " ";
      i := i + 1;
    }
    assert payload[|payload|..] == [];
    assert data + "" == data;
  }

  // ---- Parsing ----

  /** std::find over the names. */
  function NameIndex(names: seq<string>, name: string): (i: nat)
    ensures i <= |names|
  {
    if names == [] || names[0] == name then 0 else 1 + NameIndex(names[1..], name)
  }

  /** A known name, or a number of which four bits count. */
  function ParseApci(word: string): Result<byte>
  {
    var i := NameIndex(APCI_NAMES, word);
    if i < 16 then Ok(ByteOfNat(i))
    else
      var b :- StringValueToByte(word);
      Ok(b & 0x0F)
  }

  function FieldOf(token: string, modulus: nat): Result<nat>
    requires modulus > 0
  {
    var c :- StoI(token, 10);
    Ok(c.value % modulus)
  }

  function ParseIndividual(text: string): Result<nat>
  {
    var tokens := Split(text, '/');
    if |tokens| == 3 then
      var area :- FieldOf(tokens[0], 16);
      var line :- FieldOf(tokens[1], 16);
      var device :- FieldOf(tokens[2], 256);
      Ok(4096 * area + 256 * line + device)
    else Err(AddressInvalid)
  }

  function IndexFrom(s: string, c: char, start: nat): (i: nat)
    requires start <= |s|
    ensures start <= i <= |s|
    decreases |s| - start
  {
    if start == |s| || s[start] == c then start else IndexFrom(s, c, start + 1)
  }

  /** Addressing of a message: whether by group, source, receiver. */
  function ParseAddresses(word: string): Result<(bool, nat, nat)>
  {
    if |word| < 2 then Err(AddressInvalid)
    else if word[0] == 'g' then
      var a := ParseGroupAddress(word[2..]);
      if a.Err? then Err(AddressInvalid) else Ok((true, 0, Eib(a.value)))
    else
      var pos := IndexFrom(word, ':', 2);
      var source := ParseIndividual(word[2..pos]);
      var receiver := ParseIndividual(if pos < |word| then word[pos + 1..] else word);
      if source.Err? || receiver.Err? then Err(AddressInvalid)
      else Ok((false, source.value % UINT16_LIMIT, receiver.value % UINT16_LIMIT))
  }

  /** The octets after the first one. */
  function ParseOctets(text: string, payload: seq<byte>): Result<seq<byte>>
  {
    var r := Collect(text, payload);
    if r.1 == Done then Ok(r.0) else Err(r.1.error)
  }

  function ParsePayload(text: string): Result<seq<byte>>
  {
    match NextWord(text)
    case None => Ok([0])
    case Some(pair) =>
      var b :- StringValueToByte(pair.0);
      ParseOctets(pair.1, [b & 0x3F])
  }

  function WordOrEmpty(text: string): (string, string)
  {
    match NextWord(text)
    case None => ("", "")
    case Some(pair) => pair
  }

  /** MqttToKnxTelegram: "DestAddr APCI data". */
  function ParseMessage(text: string): Result<TelegramValue>
  {
    var (addressWord, afterAddress) := WordOrEmpty(text);
    var (apciWord, afterApci) := WordOrEmpty(afterAddress);
    var apci :- ParseApci(apciWord);
    var addresses :- ParseAddresses(addressWord);
    var payload :- ParsePayload(afterApci);
    if !PayloadAccepted(payload) then Err(PayloadSizeIncorrect)
    else Ok(FRESH_TELEGRAM.(grouped := addresses.0, source := addresses.1, receiver := addresses.2,
                            tpdu := FRESH_TPDU.(apci := apci, payload := Stored(payload))))
  }

  // ---- Names ----

  lemma {:induction false} NameFound(names: seq<string>, k: nat)
    requires k < |names|
    requires forall j :: 0 <= j < k ==> names[j] != names[k]
    ensures NameIndex(names, names[k]) == k
  {
    if k > 0 {
      assert names[1..][k - 1] == names[k];
      assert forall j :: 0 <= j < k - 1 ==> names[1..][j] == names[j + 1];
      NameFound(names[1..], k - 1);
    }
  }

  /** Length and first letter tell the names apart. */
  function NameKey(name: string): (int, char)
    requires name != []
  {
    (|name|, name[0])
  }

  const NAME_KEYS: seq<(int, char)> := [
    (14, 'G'), (18, 'G'), (15, 'G'), (19, 'I'), (21, 'I'), (22, 'I'), (7, 'A'), (11, 'A'),
    (10, 'M'), (14, 'M'), (11, 'M'), (11, 'U'), (15, 'M'), (19, 'M'), (7, 'R'), (6, 'E')]

  lemma NameKeys(k: nat)
    requires k < 16
    ensures APCI_NAMES[k] != [] && NameKey(APCI_NAMES[k]) == NAME_KEYS[k]
  {
  }

  lemma KeysDiffer(j: nat, k: nat)
    requires j < k < 16
    ensures NAME_KEYS[j] != NAME_KEYS[k]
  {
  }

  lemma ApciNameParses(apci: byte)
    requires apci <= ESCAPE
    ensures ParseApci(ApciName(apci)) == Ok(apci)
  {
    CodeBound(apci);
    var k := NatOfByte(apci);
    NameKeys(k);
    forall j | 0 <= j < k
      ensures APCI_NAMES[j] != APCI_NAMES[k]
    {
      NameKeys(j);
      KeysDiffer(j, k);
    }
    NameFound(APCI_NAMES, k);
    ByteOfNatOfByte(apci);
  }

  lemma NamedCode(b: byte, k: nat)
    requires k < 16 && NatOfByte(b) == k && b <= ESCAPE
    ensures ApciName(b) == APCI_NAMES[k]
  {
  }

  lemma SmallCodes()
    ensures NatOfByte(0) == 0 && NatOfByte(1) == 1 && NatOfByte(2) == 2 && NatOfByte(3) == 3
    ensures NatOfByte(4) == 4 && NatOfByte(5) == 5 && NatOfByte(6) == 6 && NatOfByte(7) == 7
  {
    hide NatOfByte;
    ByteWeights(0);
    ByteWeights(1);
    ByteWeights(2);
    ByteWeights(3);
    ByteWeights(4);
    ByteWeights(5);
    ByteWeights(6);
    ByteWeights(7);
  }

  lemma LargeCodes()
    ensures NatOfByte(8) == 8 && NatOfByte(9) == 9 && NatOfByte(10) == 10 && NatOfByte(11) == 11
    ensures NatOfByte(12) == 12 && NatOfByte(13) == 13 && NatOfByte(14) == 14 && NatOfByte(15) == 15
  {
    hide NatOfByte;
    ByteWeights(8);
    ByteWeights(9);
    ByteWeights(10);
    ByteWeights(11);
    ByteWeights(12);
    ByteWeights(13);
    ByteWeights(14);
    ByteWeights(15);
  }

  /** The names of the codes 0 to 7. */
  lemma CodeNames()
    ensures ApciName(0) == "GroupValueRead" && ApciName(1) == "GroupValueResponse" && ApciName(2) == "GroupValueWrite"
    ensures ApciName(3) == "IndividualAddrWrite" && ApciName(4) == "IndividualAddrRequest"
    ensures ApciName(5) == "IndividualAddrResponse" && ApciName(6) == "AdcRead" && ApciName(7) == "AdcResponse"
  {
    hide NatOfByte, ApciName;
    SmallCodes();
    NamedCode(0, 0);
    NamedCode(1, 1);
    NamedCode(2, 2);
    NamedCode(3, 3);
    NamedCode(4, 4);
    NamedCode(5, 5);
    NamedCode(6, 6);
    NamedCode(7, 7);
  }

  /** The names of the codes 8 to 15. */
  lemma LargeCodeNames()
    ensures ApciName(8) == "MemoryRead" && ApciName(9) == "MemoryResponse" && ApciName(10) == "MemoryWrite"
    ensures ApciName(11) == "UserMessage" && ApciName(12) == "MaskVersionRead" && ApciName(13) == "MaskVersionResponse"
    ensures ApciName(14) == "Restart" && ApciName(15) == "Escape"
  {
    hide NatOfByte, ApciName;
    LargeCodes();
    NamedCode(8, 8);
    NamedCode(9, 9);
    NamedCode(10, 10);
    NamedCode(11, 11);
    NamedCode(12, 12);
    NamedCode(13, 13);
    NamedCode(14, 14);
    NamedCode(15, 15);
  }

  /** What a control telegram prints after its receiver. */
  lemma ControlText(t: TelegramValue)
    requires SoundTelegram(t) && t.tpdu.communicationType >= 2
    ensures MessageText(t) == ReceiverText(t.grouped, t.receiver) + " " +
            (if t.tpdu.controlData == 0 then "Connect" else if t.tpdu.controlData == 1 then "Disconnect"
             else if t.tpdu.controlData == 2 then "Ack" else "Nack")
  {
    hide NatOfByte, ReceiverText;
    ByteWeights(t.tpdu.controlData);
    FourControls(t.tpdu.controlData);
    var name := CONTROL_NAMES[NatOfByte(t.tpdu.controlData)];
    assert ReceiverText(t.grouped, t.receiver) + (" " + name) == ReceiverText(t.grouped, t.receiver) + " " + name;
  }

  lemma FourControls(control: byte)
    requires control <= 3
    ensures control == 0 || control == 1 || control == 2 || control == 3
  {
  }

  /** A code written as a number, of which four bits count. */
  lemma NumericCode(word: string, b: byte)
    requires word != "" && IsDigit(word[0]) && StringValueToByte(word) == Ok(b)
    ensures ParseApci(word) == Ok(b & 0x0F)
  {
    forall j | 0 <= j < 16
      ensures APCI_NAMES[j] != word
    {
      NameKeys(j);
      LetterFirst(j);
    }
    NameMissing(APCI_NAMES, word);
  }

  lemma LetterFirst(j: nat)
    requires j < 16
    ensures !IsDigit(NAME_KEYS[j].1)
  {
  }

  lemma {:induction false} NameMissing(names: seq<string>, name: string)
    requires forall j :: 0 <= j < |names| ==> names[j] != name
    ensures NameIndex(names, name) == |names|
  {
    if names != [] {
      NameMissing(names[1..], name);
    }
  }

  lemma NameIsWord(apci: byte)
    requires apci <= ESCAPE
    ensures IsWord(ApciName(apci))
  {
    CodeBound(apci);
    if NatOfByte(apci) < 6 {
      NoSpaceInFirstNames(NatOfByte(apci));
    } else {
      NoSpaceInOtherNames(NatOfByte(apci));
    }
  }

  lemma NoSpaceInFirstNames(k: nat)
    requires k < 6
    ensures IsWord(APCI_NAMES[k])
  {
  }

  lemma NoSpaceInOtherNames(k: nat)
    requires 6 <= k < 16
    ensures IsWord(APCI_NAMES[k])
  {
  }

  // ---- What is printed, in order ----

  /** A single octet is printed itself; of more, all but the first are, in order. */
  lemma PayloadInOrder(payload: seq<byte>, i: nat)
    requires payload != []
    ensures |payload| == 1 ==> PayloadText(payload) == PrintedByte(payload[0])
    ensures |payload| > 1 ==> |PayloadText(payload)| == 5 * (|payload| - 1)
    ensures 1 <= i < |payload| ==> PayloadText(payload)[5 * (i - 1)..5 * i] == PrintedByte(payload[i]) + " "
  {
    hide PrintedByte, Printed;
    PrintedLength(payload[1..]);
    if 1 <= i < |payload| {
      PrintedInOrder(payload[1..], i - 1);
    }
  }

  /** The parts of an individual address. */
  lemma IndividualNotation(area: nat, line: nat, device: nat)
    requires area < 16 && line < 16 && device < 256
    ensures IndividualText(4096 * area + 256 * line + device)
            == DigitsOfNat(area) + "/" + DigitsOfNat(line) + "/" + DigitsOfNat(device)
  {
    AddressParts(area, line, device);
    Slashed(DigitsOfNat(area), DigitsOfNat(line), DigitsOfNat(device));
    hide DigitsOfNat;
  }

  lemma Slashed(x: string, y: string, z: string)
    ensures x + ("/" + (y + ("/" + z))) == x + "/" + y + "/" + z
  {
  }

  lemma AddressParts(area: nat, line: nat, device: nat)
    requires area < 16 && line < 16 && device < 256
    ensures var a := 4096 * area + 256 * line + device;
            a / 4096 % 16 == area && a / 256 % 16 == line && a % 256 == device
  {
    var a := 4096 * area + 256 * line + device;
    ModUnique(a, 256, 16 * area + line, device);
    ModUnique(16 * area + line, 16, area, line);
    ModUnique(a, 4096, area, 256 * line + device);
    ModUnique(area, 16, 0, area);
  }

  // ---- A group message there and back ----

  /** The text with the given data after the APCI. */
  function MessageWith(t: TelegramValue, data: string): string
    requires SoundTelegram(t)
  {
    ReceiverText(true, t.receiver) + (" " + (ApciName(t.tpdu.apci) + (" " + data)))
  }

  /** A long payload as the gateway control takes it: with an octet before what is printed. */
  function FullData(payload: seq<byte>): string
    requires payload != []
  {
    if |payload| == 1 then PrintedByte(payload[0]) else PrintedByte(0) + (" " + Printed(payload[1..]))
  }

  lemma {:induction false} DigitsAreNoSpaces(n: nat)
    ensures forall i :: 0 <= i < |DigitsOfNat(n)| ==> !IsSpace(DigitsOfNat(n)[i])
  {
    var s := DigitsOfNat(n);
    assert forall i :: 0 <= i < |s| ==> IsDigit(s[i]);
  }

  lemma AddressIsWord(a: Address)
    ensures IsWord("g:" + ThreeLevels(a))
  {
    DigitsAreNoSpaces(a.main);
    DigitsAreNoSpaces(a.middle);
    DigitsAreNoSpaces(a.sub);
    hide DigitsOfNat;
    assert forall c :: c in ThreeLevels(a) ==> !IsSpace(c);
  }

  lemma ReceiverIsWord(receiver: nat)
    requires receiver < UINT16_LIMIT
    ensures IsWord(ReceiverText(true, receiver))
  {
    AddressIsWord(OfEib(receiver));
  }

  lemma GroupAddressParses(receiver: nat)
    requires receiver < UINT16_LIMIT
    ensures ParseAddresses(ReceiverText(true, receiver)) == Ok((true, 0, receiver))
  {
    hide ParseGroupAddress, ThreeLevels, ParseIndividual;
    var a := OfEib(receiver);
    assert ReceiverText(true, receiver)[2..] == ThreeLevels(a);
    SpellingsParse(a);
    EibOfEib(receiver);
  }

  /** What a message with these addresses, this code and this data denotes. */
  function Denoted(addresses: (bool, nat, nat), apci: byte, data: string): Result<TelegramValue>
  {
    var payload :- ParsePayload(" " + data);
    if !PayloadAccepted(payload) then Err(PayloadSizeIncorrect)
    else Ok(FRESH_TELEGRAM.(grouped := addresses.0, source := addresses.1, receiver := addresses.2,
                            tpdu := FRESH_TPDU.(apci := apci, payload := Stored(payload))))
  }

  /** The two header words of a message are found again, whatever data follows. */
  lemma HeaderWordsParse(word: string, apci: byte, data: string)
    requires IsWord(word) && apci <= ESCAPE
    ensures ParseMessage(word + (" " + (ApciName(apci) + (" " + data)))) ==
            var addresses := ParseAddresses(word);
            if addresses.Err? then Err(addresses.error) else Denoted(addresses.value, apci, data)
  {
    hide ParseApci, ParseAddresses, ParsePayload, ApciName, NextWord, Stored;
    var name := ApciName(apci);
    NameIsWord(apci);
    ExtractWord(word, " " + (name + (" " + data)));
    ExtractWord(name, " " + data);
    assert WordOrEmpty(word + (" " + (name + (" " + data)))) == (word, " " + (name + (" " + data)));
    assert WordOrEmpty(" " + (name + (" " + data))) == (name, " " + data);
    ApciNameParses(apci);
  }

  /** Receiver and code of a group message are found again. */
  lemma HeaderParses(t: TelegramValue, data: string)
    requires SoundTelegram(t)
    ensures ParseMessage(MessageWith(t, data)) == Denoted((true, 0, t.receiver), t.tpdu.apci, data)
  {
    hide ParseAddresses, ApciName, ReceiverText, ParseMessage, Denoted;
    ReceiverIsWord(t.receiver);
    HeaderWordsParse(ReceiverText(true, t.receiver), t.tpdu.apci, data);
    GroupAddressParses(t.receiver);
  }

  // ---- Individual addresses ----

  lemma FieldParses(n: nat, modulus: nat)
    requires n < modulus <= INT_MAX
    ensures FieldOf(DigitsOfNat(n), modulus) == Ok(n) && '/' !in DigitsOfNat(n)
  {
    PrintedDecimalParses(n);
    ModUnique(n, modulus, 0, n);
  }

  lemma IndividualParts(a: nat)
    requires a < UINT16_LIMIT
    ensures 4096 * (a / 4096 % 16) + 256 * (a / 256 % 16) + a % 256 == a
  {
    ModUnique(a / 4096, 16, 0, a / 4096);
    assert a / 256 / 16 == a / 4096;
  }

  lemma SplitThree(x: string, y: string, z: string)
    requires '/' !in x && '/' !in y && '/' !in z
    ensures Split(x + ("/" + (y + ("/" + z))), '/') == [x, y, z]
  {
    hide Split;
    SplitFirst(x, '/', y + ("/" + z));
    SplitFirst(y, '/', z);
    SplitFirst(z, '/', "");
  }

  /** Every individual address parses back from its text. */
  lemma IndividualParses(a: nat)
    requires a < UINT16_LIMIT
    ensures ParseIndividual(IndividualText(a)) == Ok(a)
  {
    hide FieldOf, DigitsOfNat, Split;
    FieldParses(a / 4096 % 16, 16);
    FieldParses(a / 256 % 16, 16);
    FieldParses(a % 256, 256);
    SplitThree(DigitsOfNat(a / 4096 % 16), DigitsOfNat(a / 256 % 16), DigitsOfNat(a % 256));
    IndividualParts(a);
  }

  lemma {:induction false} IndexFound(s: string, c: char, start: nat, i: nat)
    requires start <= i <= |s| && (i < |s| ==> s[i] == c)
    requires forall k :: start <= k < i ==> s[k] != c
    ensures IndexFrom(s, c, start) == i
    decreases i - start
  {
    if start < i {
      IndexFound(s, c, start + 1, i);
    }
  }

  lemma IndividualCharacters(a: nat)
    ensures forall c :: c in IndividualText(a) ==> IsDigit(c) || c == '/'
  {
    var x, y, z := DigitsOfNat(a / 4096 % 16), DigitsOfNat(a / 256 % 16), DigitsOfNat(a % 256);
    assert AllDigits(x) && AllDigits(y) && AllDigits(z);
    hide DigitsOfNat;
    assert IndividualText(a) == x + ("/" + (y + ("/" + z)));
  }

  /** The address word of a message between individual addresses: source and receiver. */
  function IndividualPair(source: nat, receiver: nat): string
  {
    "i:" + (IndividualText(source) + (":" + IndividualText(receiver)))
  }

  lemma PairIsWord(x: string, y: string)
    requires forall c :: c in x ==> IsDigit(c) || c == '/'
    requires forall c :: c in y ==> IsDigit(c) || c == '/'
    ensures IsWord("i:" + (x + (":" + y)))
    ensures var word := "i:" + (x + (":" + y));
            IndexFrom(word, ':', 2) == 2 + |x| < |word| && word[2..2 + |x|] == x && word[2 + |x| + 1..] == y
  {
    var word := "i:" + (x + (":" + y));
    forall k | 2 <= k < 2 + |x|
      ensures word[k] != ':'
    {
      assert word[k] == x[k - 2] && x[k - 2] in x;
    }
    assert word[2 + |x|] == ':';
    IndexFound(word, ':', 2, 2 + |x|);
    assert word[2..2 + |x|] == x;
    assert word[2 + |x| + 1..] == y;
    forall k | 0 <= k < |word|
      ensures !IsSpace(word[k])
    {
      assert k < 2 || k == 2 + |x| || (k < 2 + |x| && word[k] == x[k - 2] && word[k] in x)
             || (word[k] == y[k - 3 - |x|] && word[k] in y);
    }
  }

  lemma IndividualPairParses(source: nat, receiver: nat)
    requires source < UINT16_LIMIT && receiver < UINT16_LIMIT
    ensures IsWord(IndividualPair(source, receiver))
    ensures ParseAddresses(IndividualPair(source, receiver)) == Ok((false, source, receiver))
  {
    hide IndividualText, ParseIndividual, ParseGroupAddress, IsWord, IndexFrom;
    IndividualCharacters(source);
    IndividualCharacters(receiver);
    PairIsWord(IndividualText(source), IndividualText(receiver));
    IndividualParses(source);
    IndividualParses(receiver);
    ModUnique(source, UINT16_LIMIT, 0, source);
    ModUnique(receiver, UINT16_LIMIT, 0, receiver);
  }

  lemma NoNumber(rest: string)
    ensures StoI("i:" + rest, 10) == Err(NumberMalformed)
  {
    var s := "i:" + rest;
    assert s[0] == 'i' && SkipSpaces(s) == s;
    assert DigitIn('i', 10).None? && DigitRunIn(s, 10) == 0;
  }

  /** The receiver that is printed for an individually addressed telegram is no address word. */
  lemma PrintedReceiverRejected(receiver: nat)
    requires receiver < UINT16_LIMIT
    ensures IsWord(ReceiverText(false, receiver))
    ensures ParseAddresses(ReceiverText(false, receiver)) == Err(AddressInvalid)
  {
    var word, x := ReceiverText(false, receiver), IndividualText(receiver);
    IndividualCharacters(receiver);
    assert word == "i:" + x;
    forall k | 2 <= k < |word|
      ensures word[k] != ':'
    {
      assert word[k] == x[k - 2];
    }
    IndexFound(word, ':', 2, |word|);
    assert forall c :: c in word ==> c == 'i' || c == ':' || c in x;
    WholeWordRejected(receiver);
  }

  lemma LettersRejected(x: string, y: string, z: string)
    requires '/' !in x && '/' !in y && '/' !in z
    ensures ParseIndividual(("i:" + x) + ("/" + (y + ("/" + z)))).Err?
  {
    hide Split, StoI;
    SplitThree("i:" + x, y, z);
    NoNumber(x);
  }

  lemma WholeWordRejected(receiver: nat)
    requires receiver < UINT16_LIMIT
    ensures ParseIndividual("i:" + IndividualText(receiver)).Err?
  {
    hide DigitsOfNat, ParseIndividual, FieldOf;
    var x, y, z := DigitsOfNat(receiver / 4096 % 16), DigitsOfNat(receiver / 256 % 16), DigitsOfNat(receiver % 256);
    FieldParses(receiver / 4096 % 16, 16);
    FieldParses(receiver / 256 % 16, 16);
    FieldParses(receiver % 256, 256);
    LettersRejected(x, y, z);
    Prefixed(x, "/" + (y + ("/" + z)));
  }

  lemma Prefixed(x: string, rest: string)
    ensures "i:" + (x + rest) == ("i:" + x) + rest
  {
  }

  // ---- Payloads ----

  lemma OneOctetParses(b: byte)
    ensures ParsePayload(" " + PrintedByte(b)) == Ok([b & 0x3F])
  {
    hide StringValueToByte, PrintedByte, NextWord;
    ExtractWord(PrintedByte(b), "");
    assert PrintedByte(b) + "" == PrintedByte(b);
    PrintedByteParses(b);
    CollectNothing([b & 0x3F], "");
  }

  lemma SeveralOctetsParse(first: byte, rest: seq<byte>)
    requires 1 + |rest| <= MAX_PAYLOAD_SIZE
    ensures ParsePayload(" " + (PrintedByte(first) + (" " + Printed(rest)))) == Ok([first & 0x3F] + rest)
  {
    hide StringValueToByte, PrintedByte, NextWord, Collect, Printed;
    ExtractWord(PrintedByte(first), " " + Printed(rest));
    PrintedByteParses(first);
    CollectPrinted(rest, [first & 0x3F], " ");
  }

  /** The payload that a group message with full data carries. */
  function Resent(payload: seq<byte>): seq<byte>
    requires payload != []
  {
    if |payload| == 1 then payload else [0] + payload[1..]
  }

  lemma SixBitIdentity(b: byte)
    ensures b <= 0x3F ==> b & 0x3F == b
    ensures (0 as bv8) & 0x3F == 0
    ensures b & 0x3F & 0x3F == b & 0x3F
  {
  }

  lemma FullDataParses(payload: seq<byte>)
    requires 1 <= |payload| <= MAX_PAYLOAD_SIZE && payload[0] <= 0x3F
    ensures ParsePayload(" " + FullData(payload)) == Ok(Resent(payload))
    ensures PayloadAccepted(Resent(payload)) && Stored(Resent(payload)) == Resent(payload)
  {
    hide ParsePayload, PrintedByte, Printed;
    SixBitIdentity(payload[0]);
    if |payload| == 1 {
      OneOctetParses(payload[0]);
      assert [payload[0]] == payload;
    } else {
      SeveralOctetsParse(0, payload[1..]);
    }
    assert Resent(payload) == [Resent(payload)[0]] + Resent(payload)[1..];
  }

  /**
    A group message restores receiver, APCI and the payload up to its first octet, which a long
    message carries as zero: the whole telegram exactly when that octet was zero or is the only one.
   */
  lemma GroupMessageRoundTrip(t: TelegramValue)
    requires SoundTelegram(t) && t.grouped
    requires t == FRESH_TELEGRAM.(grouped := true, receiver := t.receiver,
                                  tpdu := FRESH_TPDU.(apci := t.tpdu.apci, payload := t.tpdu.payload))
    ensures ParseMessage(MessageWith(t, FullData(t.tpdu.payload)))
            == Ok(t.(tpdu := t.tpdu.(payload := Resent(t.tpdu.payload))))
    ensures ParseMessage(MessageWith(t, FullData(t.tpdu.payload))) == Ok(t) <==>
            |t.tpdu.payload| == 1 || t.tpdu.payload[0] == 0
  {
    hide ParseMessage, ParsePayload, FullData;
    HeaderParses(t, FullData(t.tpdu.payload));
    FullDataParses(t.tpdu.payload);
    ResentSame(t.tpdu.payload);
  }

  /** The same for a message between individual addresses. */
  lemma IndividualMessageRoundTrip(t: TelegramValue)
    requires SoundTelegram(t)
    requires t == FRESH_TELEGRAM.(source := t.source, receiver := t.receiver,
                                  tpdu := FRESH_TPDU.(apci := t.tpdu.apci, payload := t.tpdu.payload))
    ensures var text := IndividualPair(t.source, t.receiver) + (" " + (ApciName(t.tpdu.apci) + (" " + FullData(t.tpdu.payload))));
            && ParseMessage(text) == Ok(t.(tpdu := t.tpdu.(payload := Resent(t.tpdu.payload))))
            && (ParseMessage(text) == Ok(t) <==> |t.tpdu.payload| == 1 || t.tpdu.payload[0] == 0)
  {
    hide ParseMessage, ParsePayload, FullData, IndividualPair, ParseAddresses, ApciName;
    IndividualPairParses(t.source, t.receiver);
    HeaderWordsParse(IndividualPair(t.source, t.receiver), t.tpdu.apci, FullData(t.tpdu.payload));
    FullDataParses(t.tpdu.payload);
    ResentSame(t.tpdu.payload);
  }

  /** What is printed for an individually addressed telegram, without its source, is never accepted. */
  lemma PrintedIndividualRejected(t: TelegramValue)
    requires SoundTelegram(t) && !t.grouped && CarriesData(t.tpdu.communicationType)
    ensures ParseMessage(MessageText(t)) == Err(AddressInvalid)
  {
    hide ParseMessage, ParsePayload, PayloadText, ReceiverText, ParseAddresses, ApciName;
    PrintedReceiverRejected(t.receiver);
    HeaderWordsParse(ReceiverText(false, t.receiver), t.tpdu.apci, PayloadText(t.tpdu.payload));
  }

  lemma ResentSame(payload: seq<byte>)
    requires payload != []
    ensures Resent(payload) == payload <==> |payload| == 1 || payload[0] == 0
  {
    assert payload == [payload[0]] + payload[1..];
  }

  lemma PrintedDataParses(payload: seq<byte>)
    requires 1 <= |payload| <= MAX_PAYLOAD_SIZE && payload[0] <= 0x3F
    ensures var parsed := ParsePayload(" " + PayloadText(payload));
            && parsed.Ok? && PayloadAccepted(parsed.value)
            && |Stored(parsed.value)| == (if |payload| == 1 then 1 else |payload| - 1)
            && (|payload| == 1 ==> Stored(parsed.value) == payload)
  {
    hide ParsePayload, PrintedByte;
    SixBitIdentity(payload[0]);
    if |payload| == 1 {
      OneOctetParses(payload[0]);
    } else {
      SeveralOctetsParse(payload[1], payload[2..]);
      assert payload[1..][0] == payload[1] && payload[1..][1..] == payload[2..];
    }
  }

  /** The printed text itself, sent back, restores the payload exactly when it is short. */
  lemma PrintedMessageShortOnly(t: TelegramValue)
    requires SoundTelegram(t) && t.grouped && CarriesData(t.tpdu.communicationType)
    ensures MessageText(t) == MessageWith(t, PayloadText(t.tpdu.payload))
    ensures var parsed := ParseMessage(MessageText(t));
            parsed.Ok? && (parsed.value.tpdu.payload == t.tpdu.payload <==> |t.tpdu.payload| == 1)
  {
    hide ParseMessage, ParsePayload, PayloadText;
    HeaderParses(t, PayloadText(t.tpdu.payload));
    PrintedDataParses(t.tpdu.payload);
  }

  /** Two octets, 0x00 and 0xaa, are printed as 0xaa, which is one octet with six bits of it. */
  lemma LongMessageShrinks()
    ensures PayloadText([0, 0xAA]) == PrintedByte(0xAA) + " "
    ensures ParsePayload(" " + PayloadText([0, 0xAA])) == Ok([0x2A])
  {
    hide PrintedByte, ParsePayload;
    assert [0, 0xAA as byte][1..] == [0xAA];
    assert Printed([]) == "" && Printed([0xAA]) == PrintedByte(0xAA) + (" " + "");
    SeveralOctetsParse(0xAA, []);
    assert (0xAA as byte) & 0x3F == 0x2A;
    assert [0x2A as byte] + [] == [0x2A];
  }

  // ---- The documented example ----

  /** Any words that spell octets, the first of which keeps six bits. */
  lemma SpelledPayload(first: string, b: byte, words: seq<string>, data: seq<byte>)
    requires IsWord(first) && StringValueToByte(first) == Ok(b) && Spell(words, data) && |data| < MAX_PAYLOAD_SIZE
    ensures ParsePayload(" " + (first + Spaced(words))) == Ok([b & 0x3F] + data)
  {
    hide StringValueToByte, NextWord, Collect, IsWord;
    ExtractWord(first, Spaced(words));
    CollectSpelled(words, data, [b & 0x3F]);
  }

  lemma ExampleNumbers()
    ensures DigitsOfNat(1) == "1" && DigitsOfNat(7) == "7" && DigitsOfNat(9) == "9"
    ensures DigitsOfNat(23) == "23" && DigitsOfNat(55) == "55"
  {
    DecimalNotation(0, 1);
    DecimalNotation(0, 7);
    DecimalNotation(0, 9);
    DecimalNotation(0, 2);
    DecimalNotation(0, 5);
    DecimalNotation(2, 3);
    DecimalNotation(5, 5);
  }

  lemma ExampleOctets()
    ensures PrintedByte(0xAA) == "0xaa" && PrintedByte(0xBB) == "0xbb"
    ensures StringValueToByte("0x00") == Ok(0x00)
    ensures StringValueToByte("0xAA") == Ok(0xAA) && StringValueToByte("0xBB") == Ok(0xBB)
  {
    hide NatOfByte;
    ByteWeights(0x00);
    ByteWeights(0xAA);
    ByteWeights(0xBB);
    PrintedDigits(0xAA);
    PrintedDigits(0xBB);
    HexSpelling(0x00, 'x', '0', '0');
    HexSpelling(0xAA, 'x', 'A', 'A');
    HexSpelling(0xBB, 'x', 'B', 'B');
  }

  /** How a group receiver is printed. */
  lemma GroupNotation(a: Address)
    ensures ReceiverText(true, 2048 * a.main + 256 * a.middle + a.sub)
            == "g:" + (DigitsOfNat(a.main) + ("/" + (DigitsOfNat(a.middle) + ("/" + DigitsOfNat(a.sub)))))
  {
    hide DigitsOfNat;
    OfEibOfAddress(a);
    ModUnique(a.main, 32, 0, a.main);
    ModUnique(a.middle, 8, 0, a.middle);
    ModUnique(a.sub, 256, 0, a.sub);
  }

  lemma ExampleReceiver()
    ensures ReceiverText(true, 20279) == "g:9/7/55"
  {
    var a: Address := Triple(9, 7, 55);
    hide *;
    ExampleNumbers();
    GroupNotation(a);
    SameText("g:" + ("9" + ("/" + ("7" + ("/" + "55")))), "g:9/7/55");
  }

  const EXAMPLE: TelegramValue :=
    TelegramValue(false, 3, 4375, 20279, true, 0, TpduValue(0, 0, 2, [0x00, 0xAA, 0xBB], 0))

  lemma SameText(x: string, y: string)
    requires |x| == |y| && forall i :: 0 <= i < |x| ==> x[i] == y[i]
    ensures x == y
  {
  }

  lemma ExampleTexts()
    ensures "0xaa" + (" " + ("0xbb" + (" " + ""))) == "0xaa 0xbb "
    ensures "1" + "/" + "1" + "/" + "23" == "1/1/23"
    ensures " " + "0x00 0xAA 0xBB" == " " + ("0x00" + " 0xAA 0xBB")
  {
    SameText("0xaa" + (" " + ("0xbb" + (" " + ""))), "0xaa 0xbb ");
    SameText("1" + "/" + "1" + "/" + "23", "1/1/23");
    SameText(" " + "0x00 0xAA 0xBB", " " + ("0x00" + " 0xAA 0xBB"));
  }

  lemma ThreeWords(a: string, b: string, c: string)
    ensures a + " " + b + " " + c == a + (" " + (b + (" " + c)))
  {
  }

  lemma TwoPrinted(a: byte, b: byte)
    ensures PayloadText([0x00, a, b]) == PrintedByte(a) + (" " + (PrintedByte(b) + (" " + "")))
  {
    hide PrintedByte;
    assert [0x00, a, b][1..] == [a, b] && [a, b][1..] == [b] && [b][1..] == [];
    assert Printed([b]) == PrintedByte(b) + (" " + "");
  }

  lemma ExamplePayload()
    ensures PayloadText([0x00, 0xAA, 0xBB]) == "0xaa 0xbb "
  {
    hide *;
    ExampleOctets();
    TwoPrinted(0xAA, 0xBB);
    ExampleTexts();
  }

  /** The telegram from 1/1/23 that writes AA BB to 9/7/55 is printed as the documentation shows. */
  lemma ExamplePrinted()
    ensures SoundTelegram(EXAMPLE) && IndividualText(EXAMPLE.source) == "1/1/23"
    ensures MessageText(EXAMPLE) == "g:9/7/55" + " " + "GroupValueWrite" + " " + "0xaa 0xbb "
  {
    hide DigitsOfNat, ReceiverText, ApciName, IndividualText, PayloadText;
    ExampleNumbers();
    ExamplePayload();
    ExampleReceiver();
    CodeNames();
    IndividualNotation(1, 1, 23);
    ExampleTexts();
    ThreeWords("g:9/7/55", "GroupValueWrite", "0xaa 0xbb ");
  }

  /** The documented message for it is parsed to it, but for its source. */
  lemma ExampleParsed()
    ensures ParseMessage("g:9/7/55" + " " + "GroupValueWrite" + " " + "0x00 0xAA 0xBB") == Ok(EXAMPLE.(source := 0))
  {
    hide ParseMessage, ParsePayload, ParseAddresses, ApciName, ReceiverText, StringValueToByte, Spaced, IsWord;
    ExampleOctets();
    ExampleReceiver();
    CodeNames();
    ReceiverIsWord(20279);
    GroupAddressParses(20279);
    var data := "0x00 0xAA 0xBB";
    HeaderWordsParse("g:9/7/55", 2, data);
    ThreeWords("g:9/7/55", "GroupValueWrite", data);
    ExampleData();
    SpelledPayload("0x00", 0x00, ["0xAA", "0xBB"], [0xAA, 0xBB]);
    ExampleTexts();
    assert [(0x00 as byte) & 0x3F] + [0xAA, 0xBB] == [0x00, 0xAA, 0xBB];
    assert Stored([0x00, 0xAA, 0xBB]) == [0x00, 0xAA, 0xBB];
  }

  lemma ExampleData()
    ensures Spaced(["0xAA", "0xBB"]) == " 0xAA 0xBB"
    ensures IsWord("0x00") && IsWord("0xAA") && IsWord("0xBB")
  {
    assert ["0xAA", "0xBB"][1..] == ["0xBB"] && ["0xBB"][1..] == [];
    assert Spaced(["0xBB"]) == " " + ("0xBB" + "");
  }

  // ---- The parsing method ----

  lemma ParsedApciBound(word: string)
    ensures ParseApci(word).Ok? ==> ParseApci(word).value <= ESCAPE
  {
    var i := NameIndex(APCI_NAMES, word);
    if i < 16 {
      SmallCode(i);
    } else if StringValueToByte(word).Ok? {
      LowFourBits(StringValueToByte(word).value);
    }
  }

  lemma LowFourBits(b: byte)
    ensures b & 0x0F <= ESCAPE
  {
  }

  lemma SmallCode(n: nat)
    requires n < 16
    ensures ByteOfNat(n) <= ESCAPE
  {
    assert Pow2(4) == 16;
    BitsOfSmallNat(n, 4, 8);
    HighBitsOff(BitsOfNat(n, 8));
  }

  lemma HighBitsOff(bits: seq<bool>)
    requires |bits| == 8 && !bits[4] && !bits[5] && !bits[6] && !bits[7]
    ensures ByteOfBits(bits) <= ESCAPE
  {
  }

  /** The payload loop of MqttToKnxTelegram. */
  method ReadPayload(text: string) returns (r: Result<seq<byte>>)
    ensures r == ParsePayload(text)
  {
    var knxPayload: seq<byte> := [0];
    var word := NextWord(text);
    if word.None? {
      return Ok(knxPayload);
    }
    var first :- StringValueToByte(word.value.0);
    knxPayload := knxPayload[0 := first & 0x3F];
    assert knxPayload == [first & 0x3F];
    var outcome;
    knxPayload, outcome := CollectWords(word.value.1, knxPayload);
    r := if outcome == Done then Ok(knxPayload) else Err(outcome.error);
  }

  /** MqttToKnxTelegram, which fills in a telegram word by word. */
  method MqttToKnxTelegram(payload: string) returns (r: Result<TelegramObject>)
    ensures match ParseMessage(payload)
            case Ok(t) => r.Ok? && fresh(r.value) && r.value.Valid() && r.value.Value() == t
            case Err(e) => r == Err(e)
  {
    hide ParseApci, ParseAddresses, ParsePayload;
    var telegram := new TelegramObject();
    var (addrStr, afterAddress) := WordOrEmpty(payload);
    var (apciStr, afterApci) := WordOrEmpty(afterAddress);
    var apci :- ParseApci(apciStr);
    ParsedApciBound(apciStr);
    var done := telegram.mtpdu.SetApci(apci);
    var addresses :- ParseAddresses(addrStr);
    ParsedAddressBound(addrStr);
    telegram.SetGroupAddressedFlag(addresses.0);
    telegram.SetSourceAddress(addresses.1);
    telegram.SetReceiverAddress(addresses.2);
    var knxPayload :- ReadPayload(afterApci);
    done := telegram.mtpdu.SetPayload(knxPayload);
    if done.Failed? {
      return Err(done.error);
    }
    r := Ok(telegram);
  }

  lemma ParsedAddressBound(word: string)
    ensures ParseAddresses(word).Ok? ==>
              ParseAddresses(word).value.1 < UINT16_LIMIT && ParseAddresses(word).value.2 < UINT16_LIMIT
  {
  }
}
