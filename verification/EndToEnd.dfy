/**
  From one gateway's JSON fields to another's: packing, the controller's send, the frame on the
  bus, its parsing, the controller's dispatch and unpacking, over every layout that fits a telegram.
 */
module EndToEnd {
  import opened Bits
  import opened Outcomes
  import opened JsonValues
  import opened DptJsonField
  import opened FieldTheorems
  import opened DptJson
  import opened DptJsonTheorems
  import opened DptJsonBuilder
  import opened LayoutTheorems
  import opened GroupAddress
  import opened OrderedMap
  import opened Tpdu
  import opened Telegram
  import opened TelegramTheorems
  import opened ControllerSpec
  import opened RegistryTheorems
  import opened Controller

  /** Two field lists that differ in values only. */
  predicate SameFields(fields: seq<Placed>, others: seq<Placed>)
  {
    |fields| == |others| && forall k :: 0 <= k < |fields| ==> fields[k] == others[k].(value := fields[k].value)
  }

  /** A field list of a layout that the builder compiled. */
  predicate FromBuilder(encoded: seq<Encoded>, names: seq<string>, fields: seq<Placed>)
  {
    && FieldCount(encoded) <= |names|
    && WidthsSupported(encoded)
    && Total(encoded) + 8 <= DptJson.UINT32_LIMIT
    && SameFields(fields, Compiled(encoded, names))
  }

  predicate FitsTelegram(fields: seq<Placed>)
    requires AllWellPlaced(fields)
  {
    1 <= PayloadSize(fields) <= MAX_PAYLOAD_SIZE
  }

  /** Such a layout fits a telegram whenever it has a field and at most 112 bits. */
  lemma CompiledFields(encoded: seq<Encoded>, names: seq<string>, fields: seq<Placed>)
    requires FromBuilder(encoded, names, fields)
    ensures AllWellPlaced(fields) && Disjoint(fields) && Within(fields, 2, DptJson.UINT32_LIMIT)
    ensures FieldCount(encoded) >= 1 && Total(encoded) <= RAW_BITS ==> FitsTelegram(fields)
  {
    var compiled := Compiled(encoded, names);
    CompiledLayout(encoded, names);
    if Total(encoded) <= RAW_BITS {
      CompiledSize(encoded, names);
    }
    SizeOfSameLayout(compiled, fields);
    DisjointKept(compiled, fields);
  }

  /**
    Send accepts a packed payload if and only if its layout fits a telegram, and then sends it
    whole: the mask on the first octet loses nothing.
   */
  lemma PayloadSentWhole(lib: Library, encoded: seq<Encoded>, names: seq<string>, fields: seq<Placed>,
                         payload: seq<byte>, address: Address)
    requires FromBuilder(encoded, names, fields)
    requires AllWellPlaced(fields) && IsPacked(lib, fields, payload)
    ensures var sent := SendResult(address, GROUP_VALUE_WRITE, payload);
            && (sent.Ok? <==> FitsTelegram(fields))
            && (sent.Ok? ==> payload[0] <= 0x3F && sent.value.tpdu.payload == payload && SoundTelegram(sent.value))
  {
    CompiledFields(encoded, names, fields);
    if FitsTelegram(fields) {
      FirstOctetSixBits(lib, fields, payload);
      SixBits(payload[0]);
      assert Stored(payload) == payload;
    }
  }

  /** The telegram on the bus is the telegram that was sent. */
  lemma FrameCarriesRequest(t: TelegramValue)
    requires SoundTelegram(t)
    requires t == FRESH_TELEGRAM.(receiver := t.receiver, grouped := true,
                                  tpdu := FRESH_TPDU.(apci := GROUP_VALUE_WRITE, payload := t.tpdu.payload))
    ensures Decode(Encode(t)) == Ok(t)
  {
    hide Decode, Encode;
    DataTelegramRestoredExactly(t);
  }

  /** What reaches the group objects behind a registry from a telegram that carries a payload to an address. */
  predicate Reaches(s: State, t: TelegramValue, slot: nat, address: Address, payload: seq<byte>)
    requires WellFormed(s) && t.receiver < UINT16_LIMIT && slot < |s.items|
  {
    OfKind(NotifyResult(s, ReceivedTelegram, t).1, Delivery)
    == [Delivered(slot, s.items[slot].groupObject, address, GROUP_VALUE_WRITE, payload)]
  }

  lemma RequestReaches(s: State, slot: nat, address: Address, payload: seq<byte>)
    requires WellFormed(s) && slot < |s.items|
    requires SendResult(address, GROUP_VALUE_WRITE, payload).Ok? && Stored(payload) == payload
    ensures SendResult(address, GROUP_VALUE_WRITE, payload).value.receiver < UINT16_LIMIT
    ensures Reaches(s, SendResult(address, GROUP_VALUE_WRITE, payload).value, slot, address, payload)
            <==> Entry(address, slot) in s.entries
  {
    hide NotifyResult, OfKind;
    OfEibOfAddress(address);
    DeliveredExactly(s, ReceivedTelegram, SendResult(address, GROUP_VALUE_WRITE, payload).value, slot);
  }

  /**
    End to end, for every compiled layout: a packed payload can be sent if and only if the layout
    fits a telegram, as every layout of at most 112 bits with a field does. Its frame is then parsed
    to the telegram that was sent; of everything behind a registry that telegram reaches the item
    registered at its address, once, and nothing else; and the payload it carries gives every field
    of the same layout the normal form of the value the sender held, which is the value itself
    whenever it fits its field.
   */
  lemma FieldsArrive(lib: Library, encoded: seq<Encoded>, names: seq<string>, fields: seq<Placed>,
                     payload: seq<byte>, address: Address, s: State, slot: nat)
    requires FromBuilder(encoded, names, fields)
    requires AllWellPlaced(fields) && IsPacked(lib, fields, payload)
    requires WellFormed(s) && slot < |s.items|
    ensures var sent := SendResult(address, GROUP_VALUE_WRITE, payload);
            && (sent.Ok? <==> FitsTelegram(fields))
            && (FieldCount(encoded) >= 1 && Total(encoded) <= RAW_BITS ==> sent.Ok?)
            && (sent.Ok? ==>
                  && SoundTelegram(sent.value)
                  && Decode(Encode(sent.value)) == Ok(sent.value)
                  && (Reaches(s, sent.value, slot, address, payload) <==> Entry(address, slot) in s.entries))
    ensures AllFit(fields, |payload|)
    ensures forall k :: 0 <= k < |fields| ==>
              ReadField(lib, fields[k], payload) == Normal(lib, fields[k].fieldType, fields[k].width, fields[k].value)
    ensures forall k :: 0 <= k < |fields| && FitsField(fields[k]) ==> ReadField(lib, fields[k], payload) == Ok(fields[k].value)
  {
    hide Decode, Encode, Reaches, ReadField, Normal, FieldBits, FitsField;
    PayloadSentWhole(lib, encoded, names, fields, payload, address);
    CompiledFields(encoded, names, fields);
    if FitsTelegram(fields) {
      FrameCarriesRequest(SendResult(address, GROUP_VALUE_WRITE, payload).value);
      RequestReaches(s, slot, address, payload);
    }
    AllFieldsFit(fields);
    forall k | 0 <= k < |fields|
      ensures ReadField(lib, fields[k], payload) == Normal(lib, fields[k].fieldType, fields[k].width, fields[k].value)
      ensures FitsField(fields[k]) ==> ReadField(lib, fields[k], payload) == Ok(fields[k].value)
    {
      PackThenUnpack(lib, fields, payload, k);
      if FitsField(fields[k]) {
        FittingIsNormal(lib, fields[k]);
      }
    }
  }

  // ---- The two gateways as executed ----

  /** Field k of the receiver is the sender's field k with the value that it became on the way. */
  predicate Arrived(lib: Library, sent: Placed, received: Placed)
  {
    && received == sent.(value := received.value)
    && Ok(received.value) == Normal(lib, sent.fieldType, sent.width, sent.value)
  }

  /** What could be written has a normal form. */
  lemma NormalExists(lib: Library, f: Placed)
    requires WellPlaced(f) && FieldBits(lib, f).Ok?
    ensures Normal(lib, f.fieldType, f.width, f.value).Ok?
  {
    hide Pow2, BitsOfNat;
  }

  lemma ReadDependsOnLayout(lib: Library, f: Placed, value: Json, payload: seq<byte>)
    requires FitsPayload(f, |payload|)
    ensures ReadField(lib, f.(value := value), payload) == ReadField(lib, f, payload)
  {
    assert RawBits(f.(value := value), payload) == RawBits(f, payload);
    assert forall position :: 0 <= position < f.width ==>
             FieldBitAt(f.(value := value), payload, position) == FieldBitAt(f, payload, position);
  }

  lemma ReceivedField(lib: Library, fields: seq<Placed>, payload: seq<byte>, k: nat, other: Placed, after: Placed)
    requires AllWellPlaced(fields) && Disjoint(fields) && IsPacked(lib, fields, payload) && k < |fields|
    requires fields[k] == other.(value := fields[k].value) && FitsPayload(other, |payload|)
    ensures ReadField(lib, other, payload).Ok?
    ensures after == other.(value := ReadField(lib, other, payload).value) ==> Arrived(lib, fields[k], after)
  {
    hide ReadField, Normal, FieldBits;
    PackThenUnpack(lib, fields, payload, k);
    assert FieldBits(lib, fields[k]).Ok?;
    NormalExists(lib, fields[k]);
    ReadDependsOnLayout(lib, fields[k], other.value, payload);
    assert fields[k].(value := other.value) == other;
  }

  /** The datapoint of a received payload: nothing throws, and every field arrives. */
  method UpdateDatapoint(receiver: Datapoint, payload: seq<byte>, ghost encoded: seq<Encoded>,
                         ghost names: seq<string>, ghost fields: seq<Placed>)
    returns (r: Outcome)
    requires receiver.Valid() && FromBuilder(encoded, names, fields) && SameFields(fields, receiver.Fields())
    requires AllWellPlaced(fields) && IsPacked(receiver.lib, fields, payload)
    modifies receiver.FieldObjects()
    ensures receiver.Valid() && r == Done && |receiver.Fields()| == |fields|
    ensures forall k :: 0 <= k < |fields| ==> Arrived(receiver.lib, fields[k], receiver.Fields()[k])
  {
    hide ReadField, Arrived, IsPacked;
    ghost var before := receiver.Fields();
    CompiledFields(encoded, names, fields);
    SizeOfSameLayout(before, fields);
    PackedSize(receiver.lib, fields, payload);
    r := receiver.FromKnx(payload);
    forall k | 0 <= k < |fields|
      ensures ReadField(receiver.lib, before[k], payload).Ok?
      ensures r == Done ==> Arrived(receiver.lib, fields[k], receiver.Fields()[k])
    {
      ReceivedField(receiver.lib, fields, payload, k, before[k], receiver.Fields()[k]);
    }
  }

  /** A frame from the bus to the controller: the parsed telegram, which it has dispatched. */
  method DispatchFrame(gateway: GroupObjectController, frame: seq<byte>, ghost t: TelegramValue)
    returns (payload: seq<byte>)
    requires gateway.Valid() && SoundTelegram(t) && frame == Encode(t) && Decode(frame) == Ok(t)
    modifies gateway`log, gateway.Items()
    ensures gateway.Valid() && payload == t.tpdu.payload && WellFormed(old(gateway.Snapshot()))
    ensures gateway.Snapshot() == NotifyResult(old(gateway.Snapshot()), ReceivedTelegram, t).0
    ensures gateway.log == old(gateway.log) + NotifyResult(old(gateway.Snapshot()), ReceivedTelegram, t).1
  {
    hide Decode, Encode, SetRawTelegramResult, NotifyResult;
    var telegram := new TelegramObject();
    var parsed := telegram.SetRawTelegram(frame);
    DecodeIsSetRaw(frame);
    assert parsed == Done && telegram.Value() == t;
    payload := telegram.mtpdu.apduPayload;
    gateway.NotifyEvent(ReceivedTelegram, telegram);
  }

  /**
    A gateway in which the item in a slot is registered at the address receives the frame: the item
    gets the telegram, nothing else does, and every field of the item's datapoint arrives.
   */
  method ReceiveFrame(gateway: GroupObjectController, ghost slot: nat, receiver: Datapoint, frame: seq<byte>,
                      ghost encoded: seq<Encoded>, ghost names: seq<string>, ghost fields: seq<Placed>,
                      ghost payload: seq<byte>, ghost address: Address)
    returns (r: Outcome)
    requires gateway.Valid() && slot < |gateway.slots| && Entry(address, slot) in gateway.Snapshot().entries
    requires receiver.Valid() && FromBuilder(encoded, names, fields) && SameFields(fields, receiver.Fields())
    requires AllWellPlaced(fields) && IsPacked(receiver.lib, fields, payload)
    requires SendResult(address, GROUP_VALUE_WRITE, payload).Ok?
    requires SoundTelegram(SendResult(address, GROUP_VALUE_WRITE, payload).value)
    requires frame == Encode(SendResult(address, GROUP_VALUE_WRITE, payload).value)
    modifies gateway`log, gateway.Items(), receiver.FieldObjects()
    ensures gateway.Valid() && WellFormed(old(gateway.Snapshot()))
    ensures var t := SendResult(address, GROUP_VALUE_WRITE, payload).value;
            && Reaches(old(gateway.Snapshot()), t, slot, address, payload)
            && gateway.log == old(gateway.log) + NotifyResult(old(gateway.Snapshot()), ReceivedTelegram, t).1
    ensures receiver.Valid() && r == Done && |receiver.Fields()| == |fields|
    ensures forall k :: 0 <= k < |fields| ==> Arrived(receiver.lib, fields[k], receiver.Fields()[k])
  {
    hide Decode, Encode, NotifyResult, Arrived, IsPacked, SameFields, WellFormed, PayloadSize;
    ghost var t := SendResult(address, GROUP_VALUE_WRITE, payload).value;
    ghost var others := receiver.Fields();
    PayloadSentWhole(receiver.lib, encoded, names, fields, payload, address);
    FrameCarriesRequest(t);
    gateway.SnapshotWellFormed();
    RequestReaches(gateway.Snapshot(), slot, address, payload);
    hide SendResult, SoundTelegram, Reaches;
    var received := DispatchFrame(gateway, frame, t);
    assert receiver.Fields() == others && received == payload;
    r := UpdateDatapoint(receiver, received, encoded, names, fields);
  }

  /** The sending side: ToKnx, the controller's Send and the frame of the telegram it hands over. */
  method SendFields(sender: Datapoint, gateway: GroupObjectController, address: Address,
                    ghost encoded: seq<Encoded>, ghost names: seq<string>)
    returns (frame: Result<seq<byte>>, payload: seq<byte>)
    requires sender.Valid() && FromBuilder(encoded, names, sender.Fields())
    modifies gateway`log
    ensures sender.Valid() && sender.Fields() == old(sender.Fields()) && AllWellPlaced(sender.Fields())
    ensures frame.Ok? <==> FitsTelegram(sender.Fields())
                           && forall k :: 0 <= k < |sender.Fields()| ==> FieldBits(sender.lib, sender.Fields()[k]).Ok?
    ensures match frame
            case Ok(bytes) =>
              && IsPacked(sender.lib, sender.Fields(), payload)
              && var sent := SendResult(address, GROUP_VALUE_WRITE, payload);
              && sent.Ok? && SoundTelegram(sent.value) && bytes == Encode(sent.value)
              && gateway.log == old(gateway.log) + [Transmitted(OnRequest, sent.value)]
            case Err(_) => gateway.log == old(gateway.log)
  {
    hide FieldBits, Encode, SendResult, Compiled, SoundTelegram, FitsTelegram;
    ghost var fields := sender.Fields();
    CompiledFields(encoded, names, fields);
    payload := [];
    var packed := sender.ToKnx();
    assert sender.Fields() == fields;
    if packed.Err? {
      return Err(packed.error), [];
    }
    payload := packed.value;
    PayloadSentWhole(sender.lib, encoded, names, fields, payload, address);
    var request := gateway.Send(OnRequest, address, GROUP_VALUE_WRITE, packed.value);
    assert sender.Fields() == fields;
    sender.SameLayout();
    if request.Err? {
      return Err(request.error), payload;
    }
    var bytes := request.value.GetRawTelegram();
    assert sender.Fields() == fields;
    sender.SameLayout();
    frame := Ok(bytes);
  }

  /**
    One gateway packs and sends, the other receives at the same address: if every value has a raw
    form and the layout fits a telegram, every field of the sender arrives at the receiver;
    otherwise nothing is sent and the receiver is untouched.
   */
  method Exchange(sender: Datapoint, outgoing: GroupObjectController, receiver: Datapoint,
                  incoming: GroupObjectController, ghost slot: nat, address: Address,
                  ghost encoded: seq<Encoded>, ghost names: seq<string>)
    returns (r: Outcome)
    requires sender.Valid() && receiver.Valid() && sender.lib == receiver.lib && outgoing != incoming
    requires FromBuilder(encoded, names, sender.Fields()) && FromBuilder(encoded, names, receiver.Fields())
    requires sender.FieldObjects() !! receiver.FieldObjects()
    requires incoming.Valid() && slot < |incoming.slots| && Entry(address, slot) in incoming.Snapshot().entries
    modifies outgoing`log, incoming`log, incoming.Items(), receiver.FieldObjects()
    ensures sender.Valid() && receiver.Valid() && incoming.Valid() && sender.Fields() == old(sender.Fields())
    ensures AllWellPlaced(old(sender.Fields()))
    ensures r == Done <==> FitsTelegram(old(sender.Fields()))
                           && forall k :: 0 <= k < |sender.Fields()| ==> FieldBits(sender.lib, old(sender.Fields())[k]).Ok?
    ensures r == Done ==> forall k :: 0 <= k < |sender.Fields()| ==>
                            k < |receiver.Fields()| && Arrived(sender.lib, sender.Fields()[k], receiver.Fields()[k])
    ensures r == Done ==> forall k :: 0 <= k < |sender.Fields()| && FitsField(sender.Fields()[k]) ==>
                            k < |receiver.Fields()| && receiver.Fields()[k] == sender.Fields()[k]
    ensures r != Done ==> receiver.Fields() == old(receiver.Fields())
                          && outgoing.log == old(outgoing.log) && incoming.log == old(incoming.log)
  {
    hide FieldBits, Arrived, Encode, SendResult, Compiled, SoundTelegram, IsPacked, FitsTelegram, Reaches, NotifyResult,
         FitsField;
    ghost var fields, others, s := sender.Fields(), receiver.Fields(), incoming.Snapshot();
    ghost var payload;
    var frame;
    frame, payload := SendFields(sender, outgoing, address, encoded, names);
    assert sender.Fields() == fields && receiver.Fields() == others && incoming.Snapshot() == s;
    if frame.Err? {
      return Failed(frame.error);
    }
    SameAsEachOther(fields, others, Compiled(encoded, names));
    r := ReceiveFrame(incoming, slot, receiver, frame.value, encoded, names, fields, payload, address);
    assert sender.Fields() == fields;
    forall k | 0 <= k < |fields| && FitsField(fields[k])
      ensures receiver.Fields()[k] == fields[k]
    {
      FittingArrives(sender.lib, fields[k], receiver.Fields()[k]);
    }
  }

  lemma FittingArrives(lib: Library, sent: Placed, received: Placed)
    requires WellPlaced(sent) && FitsField(sent) && Arrived(lib, sent, received)
    ensures received == sent
  {
    FittingIsNormal(lib, sent);
  }

  lemma SameAsEachOther(fields: seq<Placed>, others: seq<Placed>, compiled: seq<Placed>)
    requires SameFields(fields, compiled) && SameFields(others, compiled)
    ensures SameFields(fields, others)
  {
  }

  lemma DecodeIsSetRaw(frame: seq<byte>)
    ensures Decode(frame).Ok? ==> SetRawTelegramResult(FRESH_TELEGRAM, frame) == (Decode(frame).value, Done)
  {
  }

  lemma PackedSize(lib: Library, fields: seq<Placed>, payload: seq<byte>)
    requires AllWellPlaced(fields) && IsPacked(lib, fields, payload)
    ensures |payload| == PayloadSize(fields)
  {
  }
}
