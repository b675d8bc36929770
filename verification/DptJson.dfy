/**
  The JSON datapoint: a list of fields placed at bit positions of a payload, unpacked and packed
  by loops over fields and bits. Models src/knxgroupobject/dptjson.cpp.
 */
module DptJson {
  import opened Bits
  import opened JsonValues
  import opened DptJsonField
  import opened Outcomes

  const UINT32_LIMIT: nat := 0x1_0000_0000

  /** A field with its position, as a value: what one element of the list holds at some moment. */
  datatype Placed = Placed(name: string, fieldType: FieldType, width: nat, begin: nat, value: Json)

  /** Positions count from 1, or the descending unsigned loops never end, and fit 32 bits. */
  predicate WellPlaced(f: Placed)
  {
    SupportedWidth(f.fieldType, f.width) && 1 <= f.begin && f.begin + f.width <= UINT32_LIMIT
  }

  predicate AllWellPlaced(fields: seq<Placed>)
  {
    forall k :: 0 <= k < |fields| ==> WellPlaced(fields[k])
  }

  predicate AllFit(fields: seq<Placed>, size: nat)
  {
    forall k :: 0 <= k < |fields| ==> FitsPayload(fields[k], size)
  }

  /** The octets a field needs, counted from the start of the payload. */
  function LastOctet(begin: nat, width: nat): nat
    requires begin + width >= 1
  {
    (begin + width - 1) / 8 + 1
  }

  function PayloadSize(fields: seq<Placed>): nat
    requires AllWellPlaced(fields)
  {
    if fields == [] then 0
    else
      var f := fields[|fields| - 1];
      Max(PayloadSize(fields[..|fields| - 1]), LastOctet(f.begin, f.width))
  }

  function Max(a: nat, b: nat): nat
  {
    if a < b then b else a
  }

  lemma SizeAfterAppend(fields: seq<Placed>, f: Placed)
    requires AllWellPlaced(fields) && WellPlaced(f)
    ensures AllWellPlaced(fields + [f])
    ensures PayloadSize(fields + [f]) == Max(PayloadSize(fields), LastOctet(f.begin, f.width))
  {
    assert (fields + [f])[..|fields|] == fields;
  }

  predicate FitsPayload(f: Placed, size: nat)
  {
    WellPlaced(f) && f.begin + f.width <= 8 * size
  }

  lemma {:induction false} AllFieldsFit(fields: seq<Placed>)
    requires AllWellPlaced(fields)
    ensures AllFit(fields, PayloadSize(fields))
  {
    if fields != [] {
      AllFieldsFit(fields[..|fields| - 1]);
    }
  }

  /** The payload size is the smallest number of octets that holds every field. */
  lemma {:induction false} SizeIsLeast(fields: seq<Placed>, size: nat)
    requires AllWellPlaced(fields)
    ensures AllFit(fields, size) <==> PayloadSize(fields) <= size
  {
    if fields != [] {
      var init, last := fields[..|fields| - 1], fields[|fields| - 1];
      SizeIsLeast(init, size);
      assert fields == init + [last];
      assert AllFit(fields, size) <==> AllFit(init, size) && FitsPayload(last, size);
    }
  }

  lemma {:induction false} SizeOfSameLayout(before: seq<Placed>, after: seq<Placed>)
    requires AllWellPlaced(before) && |after| == |before|
    requires forall k :: 0 <= k < |before| ==> after[k] == before[k].(value := after[k].value)
    ensures AllWellPlaced(after) && PayloadSize(after) == PayloadSize(before)
  {
    if before != [] {
      SizeOfSameLayout(before[..|before| - 1], after[..|after| - 1]);
    }
  }

  // ---- Reading one field ----

  predicate Covers(f: Placed, p: nat)
  {
    f.begin <= p < f.begin + f.width
  }

  /** The bit of the field that is `position` places above its least significant one. */
  predicate FieldBitAt(f: Placed, payload: seq<byte>, position: nat)
    requires FitsPayload(f, |payload|) && position < f.width
  {
    BitAt(payload, f.begin + f.width - 1 - position)
  }

  /** Setting a bit beyond the 112th throws. */
  predicate Overlong(f: Placed, payload: seq<byte>)
    requires FitsPayload(f, |payload|)
  {
    exists position :: RAW_BITS <= position < f.width && FieldBitAt(f, payload, position)
  }

  function RawBits(f: Placed, payload: seq<byte>): RawValue
    requires FitsPayload(f, |payload|)
  {
    seq(RAW_BITS, position requires 0 <= position < RAW_BITS =>
      position < f.width && FieldBitAt(f, payload, position))
  }

  function ReadRaw(f: Placed, payload: seq<byte>): Result<RawValue>
    requires FitsPayload(f, |payload|)
  {
    if Overlong(f, payload) then Err(BitPositionOutOfRange) else Ok(RawBits(f, payload))
  }

  function ReadField(lib: Library, f: Placed, payload: seq<byte>): Result<Json>
    requires FitsPayload(f, |payload|)
  {
    var raw :- ReadRaw(f, payload);
    ValueOfRaw(lib, f.fieldType, f.width, raw)
  }

  /** The first n fields hold what the payload says; the others are as before. */
  predicate UnpackedUpTo(lib: Library, before: seq<Placed>, after: seq<Placed>, payload: seq<byte>, n: nat)
    requires n <= |before|
    requires AllFit(before, |payload|)
  {
    && |after| == |before|
    && (forall k :: 0 <= k < n ==>
          && ReadField(lib, before[k], payload).Ok?
          && after[k] == before[k].(value := ReadField(lib, before[k], payload).value))
    && (forall k :: n <= k < |before| ==> after[k] == before[k])
  }

  // ---- Writing all fields ----

  /** The bits a field contributes, or what GetRawValue or the bit test throws. */
  function FieldBits(lib: Library, f: Placed): Result<RawValue>
    requires WellPlaced(f)
  {
    if f.width == 0 then Ok(Zeros(RAW_BITS))
    else
      var raw :- RawOfValue(lib, f.fieldType, f.width, f.value);
      if f.width > RAW_BITS then Err(BitPositionOutOfRange) else Ok(raw)
  }

  predicate Contributes(lib: Library, f: Placed, p: nat)
    requires WellPlaced(f)
  {
    Covers(f, p) && FieldBits(lib, f).Ok? && FieldBits(lib, f).value[f.begin + f.width - 1 - p]
  }

  predicate PackedBit(lib: Library, fields: seq<Placed>, p: nat)
    requires AllWellPlaced(fields)
  {
    exists k :: 0 <= k < |fields| && Contributes(lib, fields[k], p)
  }

  /** The payload holds exactly the bits the fields contribute. */
  predicate IsPacked(lib: Library, fields: seq<Placed>, payload: seq<byte>)
    requires AllWellPlaced(fields)
  {
    && |payload| == PayloadSize(fields)
    && (forall k :: 0 <= k < |fields| ==> FieldBits(lib, fields[k]).Ok?)
    && (forall p: nat :: p < 8 * |payload| ==> BitAt(payload, p) == PackedBit(lib, fields, p))
  }

  lemma PackedIsUnique(lib: Library, fields: seq<Placed>, a: seq<byte>, b: seq<byte>)
    requires AllWellPlaced(fields)
    requires IsPacked(lib, fields, a) && IsPacked(lib, fields, b)
    ensures a == b
  {
    SameBitsSameBuffer(a, b);
  }

  /** The bit a field is about to contribute, before its overall success is known. */
  predicate PendingBit(lib: Library, f: Placed, p: nat)
    requires WellPlaced(f)
  {
    && Covers(f, p)
    && f.begin + f.width - 1 - p < RAW_BITS
    && RawOfValue(lib, f.fieldType, f.width, f.value).Ok?
    && RawOfValue(lib, f.fieldType, f.width, f.value).value[f.begin + f.width - 1 - p]
  }

  predicate OrsIn(lib: Library, f: Placed, before: seq<byte>, after: seq<byte>)
    requires WellPlaced(f)
  {
    && |after| == |before|
    && forall p: nat :: p < 8 * |before| ==> BitAt(after, p) == (BitAt(before, p) || Contributes(lib, f, p))
  }

  /** The payload after the first k fields. */
  predicate PackedSoFar(lib: Library, fields: seq<Placed>, k: nat, payload: seq<byte>)
    requires AllWellPlaced(fields) && k <= |fields|
  {
    forall p: nat :: p < 8 * |payload| ==> BitAt(payload, p) == PackedBit(lib, fields[..k], p)
  }

  lemma PackedStep(lib: Library, fields: seq<Placed>, k: nat, before: seq<byte>, after: seq<byte>)
    requires AllWellPlaced(fields) && k < |fields|
    requires PackedSoFar(lib, fields, k, before) && OrsIn(lib, fields[k], before, after)
    ensures PackedSoFar(lib, fields, k + 1, after)
  {
    forall p: nat | p < 8 * |after|
      ensures BitAt(after, p) == PackedBit(lib, fields[..k + 1], p)
    {
      PackedBitAppend(lib, fields, k, p);
    }
  }

  lemma BlankPayload(lib: Library, fields: seq<Placed>, payload: seq<byte>)
    requires AllWellPlaced(fields)
    requires forall i :: 0 <= i < |payload| ==> payload[i] == 0
    ensures PackedSoFar(lib, fields, 0, payload)
  {
    forall p: nat | p < 8 * |payload|
      ensures !BitAt(payload, p)
    {
      ZeroBit(p % 8);
    }
  }

  lemma PackedBitAppend(lib: Library, fields: seq<Placed>, k: nat, p: nat)
    requires AllWellPlaced(fields) && k < |fields|
    ensures PackedBit(lib, fields[..k + 1], p) <==> PackedBit(lib, fields[..k], p) || Contributes(lib, fields[k], p)
  {
    if PackedBit(lib, fields[..k], p) {
      var j :| 0 <= j < k && Contributes(lib, fields[..k][j], p);
      assert Contributes(lib, fields[..k + 1][j], p);
    }
    if Contributes(lib, fields[k], p) {
      assert Contributes(lib, fields[..k + 1][k], p);
    }
    if PackedBit(lib, fields[..k + 1], p) {
      var j :| 0 <= j < k + 1 && Contributes(lib, fields[..k + 1][j], p);
      assert j < k ==> Contributes(lib, fields[..k][j], p);
    }
  }

  // ---- Assigning JSON members ----

  /** The first field of that name, or the length of the list. */
  function FirstIndex(fields: seq<Placed>, name: string): (i: nat)
    ensures i <= |fields|
    ensures i < |fields| ==> fields[i].name == name
    ensures forall j :: 0 <= j < i ==> fields[j].name != name
  {
    if fields == [] then 0
    else if fields[0].name == name then 0
    else 1 + FirstIndex(fields[1..], name)
  }

  function Assigned(fields: seq<Placed>, member: (string, Json)): seq<Placed>
  {
    var i := FirstIndex(fields, member.0);
    if i < |fields| then fields[i := fields[i].(value := member.1)] else fields
  }

  function AllAssigned(fields: seq<Placed>, members: seq<(string, Json)>): seq<Placed>
  {
    if members == [] then fields
    else Assigned(AllAssigned(fields, members[..|members| - 1]), members[|members| - 1])
  }

  predicate Named(fields: seq<Placed>, name: string)
  {
    exists k :: 0 <= k < |fields| && fields[k].name == name
  }

  predicate AllNamed(fields: seq<Placed>, members: seq<(string, Json)>)
  {
    forall i :: 0 <= i < |members| ==> Named(fields, members[i].0)
  }

  lemma {:induction false} FirstIndexUnique(fields: seq<Placed>, name: string, i: nat)
    requires i <= |fields| && (i < |fields| ==> fields[i].name == name)
    requires forall j :: 0 <= j < i ==> fields[j].name != name
    ensures FirstIndex(fields, name) == i
  {
  }

  lemma {:induction false} NamesKept(fields: seq<Placed>, members: seq<(string, Json)>)
    ensures |AllAssigned(fields, members)| == |fields|
    ensures forall k :: 0 <= k < |fields| ==>
              AllAssigned(fields, members)[k] == fields[k].(value := AllAssigned(fields, members)[k].value)
  {
    if members != [] {
      NamesKept(fields, members[..|members| - 1]);
    }
  }

  lemma NameKept(fields: seq<Placed>, members: seq<(string, Json)>, name: string)
    ensures Named(AllAssigned(fields, members), name) == Named(fields, name)
  {
    NamesKept(fields, members);
    var after := AllAssigned(fields, members);
    if Named(after, name) {
      var k :| 0 <= k < |after| && after[k].name == name;
      assert fields[k].name == name;
    }
    if Named(fields, name) {
      var k :| 0 <= k < |fields| && fields[k].name == name;
      assert after[k].name == name;
    }
  }

  lemma MembersStep(fields: seq<Placed>, members: seq<(string, Json)>, n: nat)
    requires n < |members|
    ensures AllAssigned(fields, members[..n + 1]) == Assigned(AllAssigned(fields, members[..n]), members[n])
    ensures AllNamed(fields, members[..n + 1]) <==> AllNamed(fields, members[..n]) && Named(fields, members[n].0)
  {
    assert members[..n + 1][..n] == members[..n];
    assert forall i :: 0 <= i < n ==> members[..n + 1][i] == members[..n][i];
    assert members[..n + 1][n] == members[n];
  }

  // ---- The datapoint object ----

  datatype FieldWithPosition = FieldWithPosition(jsonField: JsonField, bitBeginPosition: nat)

  /** Models TDptJson. The list owns its field objects, as the vector owns its copies. */
  class Datapoint {
    const lib: Library
    var jsonFieldList: seq<FieldWithPosition>
    var payloadBytesNum: nat

    ghost function FieldObjects(): set<JsonField>
      reads this
    {
      set k | 0 <= k < |jsonFieldList| :: jsonFieldList[k].jsonField
    }

    ghost function PlacedAt(k: nat): Placed
      requires k < |jsonFieldList|
      reads this, FieldObjects()
    {
      var f := jsonFieldList[k].jsonField;
      Placed(f.name, f.fieldKind, f.bitWidth, jsonFieldList[k].bitBeginPosition, f.value)
    }

    /** The contents of the list as values. */
    ghost function Fields(): (fields: seq<Placed>)
      reads this, FieldObjects()
      ensures |fields| == |jsonFieldList|
    {
      seq(|jsonFieldList|, k requires 0 <= k < |jsonFieldList| reads this, FieldObjects() => PlacedAt(k))
    }

    ghost predicate Valid()
      reads this, FieldObjects()
    {
      && (forall i, j :: 0 <= i < j < |jsonFieldList| ==> jsonFieldList[i].jsonField != jsonFieldList[j].jsonField)
      && (forall k :: 0 <= k < |jsonFieldList| ==> jsonFieldList[k].jsonField.lib == lib)
      && AllWellPlaced(Fields())
      && payloadBytesNum == PayloadSize(Fields())
    }

    constructor (lib: Library)
      ensures Valid() && this.lib == lib && Fields() == [] && jsonFieldList == []
    {
      this.lib, jsonFieldList, payloadBytesNum := lib, [], 0;
    }

    method AddField(field: JsonField, bitBeginPosition: nat)
      requires Valid() && field.Valid() && field.lib == lib
      requires 1 <= bitBeginPosition && bitBeginPosition + field.bitWidth <= UINT32_LIMIT
      modifies this
      ensures Valid() && fresh(FieldObjects() - old(FieldObjects()))
      ensures Fields() == old(Fields()) + [Placed(field.name, field.fieldKind, field.bitWidth, bitBeginPosition, field.value)]
    {
      hide PayloadSize, SupportedWidth;
      ghost var before := Fields();
      var copy := new JsonField(lib, field.name, field.fieldKind, field.bitWidth, field.value);
      jsonFieldList := jsonFieldList + [FieldWithPosition(copy, bitBeginPosition)];
      var maxByte := (bitBeginPosition + field.bitWidth - 1) / 8 + 1;
      payloadBytesNum := Max(payloadBytesNum, maxByte);
      ghost var added := Placed(field.name, field.fieldKind, field.bitWidth, bitBeginPosition, field.value);
      SizeAfterAppend(before, added);
      assert jsonFieldList[|before|].jsonField == copy;
      assert PlacedAt(|before|) == added;
      assert Fields() == before + [added];
    }

    /** The value of the field list after a change of values only. */
    twostate lemma SameLayout()
      requires old(Valid()) && old(jsonFieldList) == jsonFieldList && old(payloadBytesNum) == payloadBytesNum
      ensures Valid()
      ensures forall k :: 0 <= k < |Fields()| ==> Fields()[k] == old(Fields())[k].(value := Fields()[k].value)
    {
      SizeOfSameLayout(old(Fields()), Fields());
    }

    /** The inner loop of FromKnx: from the last bit of a field up to its first. */
    method ReadRawValue(payload: seq<byte>, ghost f: Placed, begin: nat, width: nat) returns (r: Result<RawValue>)
      requires FitsPayload(f, |payload|) && f.begin == begin && f.width == width
      ensures r == ReadRaw(f, payload)
    {
      var rawValue: RawValue := Zeros(RAW_BITS);
      var bitCount: nat := begin + width - 1;
      var bitPosition := 0;
      var i: nat := bitCount;
      while i >= begin
        invariant begin - 1 <= i <= bitCount && bitPosition == bitCount - i
        invariant forall p :: 0 <= p < RAW_BITS ==> rawValue[p] == (p < bitPosition && FieldBitAt(f, payload, p))
        invariant forall p :: RAW_BITS <= p < bitPosition ==> !FieldBitAt(f, payload, p)
      {
        assert FieldBitAt(f, payload, bitPosition) == Bit(payload[i / 8], i % 8);
        if payload[i / 8] & Mask(i % 8) != 0 {
          if bitPosition >= RAW_BITS {
            return Err(BitPositionOutOfRange);
          }
          rawValue := rawValue[bitPosition := true];
        }
        bitPosition := bitPosition + 1;
        i := i - 1;
      }
      assert rawValue == RawBits(f, payload);
      r := Ok(rawValue);
    }

    method FromKnx(payload: seq<byte>) returns (r: Outcome)
      requires Valid()
      modifies FieldObjects()
      ensures Valid()
      ensures |payload| != payloadBytesNum ==> r == Failed(PayloadSizeIncorrect) && Fields() == old(Fields())
      ensures AllFit(old(Fields()), payloadBytesNum)
      ensures |payload| == payloadBytesNum && r == Done ==>
                UnpackedUpTo(lib, old(Fields()), Fields(), payload, |old(Fields())|)
      ensures |payload| == payloadBytesNum && r.Failed? ==>
                exists k :: 0 <= k < |old(Fields())| && ReadField(lib, old(Fields())[k], payload) == Err(r.error)
                            && UnpackedUpTo(lib, old(Fields()), Fields(), payload, k)
    {
      ghost var before := Fields();
      AllFieldsFit(before);
      if |payload| != payloadBytesNum {
        return Failed(PayloadSizeIncorrect);
      }
      for k := 0 to |jsonFieldList|
        invariant Valid() && LayoutKept()
        invariant UnpackedUpTo(lib, before, Fields(), payload, k)
      {
        assert Fields()[k] == before[k];
        assert FitsPayload(Fields()[k], |payload|);
        r := UnpackField(k, payload);
        if r.Failed? {
          return;
        }
      }
      r := Done;
    }

    twostate predicate LayoutKept()
      reads this
    {
      jsonFieldList == old(jsonFieldList) && payloadBytesNum == old(payloadBytesNum)
    }

    /** One round of the outer loop of FromKnx. */
    method UnpackField(k: nat, payload: seq<byte>) returns (r: Outcome)
      requires Valid() && k < |jsonFieldList| && FitsPayload(Fields()[k], |payload|)
      modifies jsonFieldList[k].jsonField
      ensures Valid()
      ensures match ReadField(lib, old(Fields())[k], payload)
              case Ok(value) => r == Done && Fields() == old(Fields())[k := old(Fields())[k].(value := value)]
              case Err(e) => r == Failed(e) && Fields() == old(Fields())
    {
      var field := jsonFieldList[k];
      var rawValue := ReadRawValue(payload, Fields()[k], field.bitBeginPosition, field.jsonField.bitWidth);
      if rawValue.Err? {
        assert Fields() == old(Fields());
        SameLayout();
        return Failed(rawValue.error);
      }
      r := field.jsonField.SetRawValue(rawValue.value);
      OthersUnchanged(k);
      SameLayout();
    }

    twostate lemma OthersUnchanged(k: nat)
      requires k < |jsonFieldList| && old(jsonFieldList) == jsonFieldList
      requires old(Valid())
      requires forall o :: o in FieldObjects() && o != jsonFieldList[k].jsonField ==> o.value == old(o.value)
      ensures Fields() == old(Fields())[k := old(Fields())[k].(value := jsonFieldList[k].jsonField.value)]
    {
      forall j | 0 <= j < |jsonFieldList|
        ensures j != k ==> Fields()[j] == old(Fields())[j]
      {
      }
    }

    /** One round of the outer loop of ToKnx: its inner loop ors the field's bits in. */
    method PackField(k: nat, before: seq<byte>) returns (r: Result<seq<byte>>)
      requires Valid() && k < |jsonFieldList| && FitsPayload(Fields()[k], |before|)
      ensures WellPlaced(Fields()[k])
      ensures match FieldBits(lib, Fields()[k])
              case Ok(_) => r.Ok? && OrsIn(lib, Fields()[k], before, r.value)
              case Err(e) => r == Err(e)
    {
      ghost var f := Fields()[k];
      var field := jsonFieldList[k];
      var payload := before;
      var rawValuePosition := 0;
      var last: nat := field.bitBeginPosition + field.jsonField.bitWidth - 1;
      var i: nat := last;
      while i >= field.bitBeginPosition
        invariant field.bitBeginPosition - 1 <= i <= last && rawValuePosition == last - i
        invariant |payload| == |before|
        invariant rawValuePosition > 0 ==>
                    RawOfValue(lib, f.fieldType, f.width, f.value).Ok? && rawValuePosition <= RAW_BITS
        invariant forall p: nat :: p < 8 * |before| ==>
                    BitAt(payload, p) == (BitAt(before, p) || (i < p && PendingBit(lib, f, p)))
      {
        var rawValue := field.jsonField.GetRawValue();
        assert rawValue == RawOfValue(lib, f.fieldType, f.width, f.value);
        if rawValue.Err? {
          return Err(rawValue.error);
        }
        if rawValuePosition >= RAW_BITS {
          return Err(BitPositionOutOfRange);
        }
        if rawValue.value[rawValuePosition] {
          forall p: nat | p < 8 * |payload|
            ensures BitAt(payload[i / 8 := payload[i / 8] | Mask(i % 8)], p) == (BitAt(payload, p) || p == i)
          {
            SetBitInBuffer(payload, i, p);
          }
          payload := payload[i / 8 := payload[i / 8] | Mask(i % 8)];
        }
        rawValuePosition := rawValuePosition + 1;
        i := i - 1;
      }
      r := Ok(payload);
    }

    method ToKnx() returns (r: Result<seq<byte>>)
      requires Valid()
      ensures AllWellPlaced(Fields())
      ensures r.Ok? ==> IsPacked(lib, Fields(), r.value)
      ensures r.Err? ==> exists k :: 0 <= k < |Fields()| && FieldBits(lib, Fields()[k]) == Err(r.error)
                                     && forall j :: 0 <= j < k ==> FieldBits(lib, Fields()[j]).Ok?
    {
      hide FieldBits, PackedBit;
      ghost var fields := Fields();
      AllFieldsFit(fields);
      var payload := seq(payloadBytesNum, _ => 0);
      BlankPayload(lib, fields, payload);
      for k := 0 to |jsonFieldList|
        invariant Fields() == fields && |payload| == payloadBytesNum
        invariant forall j :: 0 <= j < k ==> FieldBits(lib, fields[j]).Ok?
        invariant PackedSoFar(lib, fields, k, payload)
      {
        var packed := PackField(k, payload);
        assert Fields() == fields;
        if packed.Err? {
          return packed;
        }
        PackedStep(lib, fields, k, payload, packed.value);
        payload := packed.value;
      }
      assert fields[..|fields|] == fields;
      r := Ok(payload);
    }

    /** Assigns the members of a JSON object, stopping at the first name that is no field's. */
    method FromMqtt(controlIndex: nat, members: seq<(string, Json)>) returns (r: Outcome)
      requires Valid()
      modifies FieldObjects()
      ensures Valid()
      ensures controlIndex != 0 ==> r == Failed(ControlIndexInvalid) && Fields() == old(Fields())
      ensures controlIndex == 0 && r == Done ==>
                && Fields() == AllAssigned(old(Fields()), members)
                && AllNamed(old(Fields()), members)
      ensures controlIndex == 0 && r.Failed? ==>
                && r.error == JsonObjectIncorrect
                && exists n :: 0 <= n < |members| && !Named(old(Fields()), members[n].0)
                               && Fields() == AllAssigned(old(Fields()), members[..n])
                               && AllNamed(old(Fields()), members[..n])
    {
      if controlIndex != 0 {
        return Failed(ControlIndexInvalid);
      }
      ghost var before := Fields();
      for n := 0 to |members|
        invariant Valid() && LayoutKept()
        invariant Fields() == AllAssigned(before, members[..n])
        invariant AllNamed(before, members[..n])
      {
        NameKept(before, members[..n], members[n].0);
        MembersStep(before, members, n);
        r := AssignMember(members[n]);
        if r.Failed? {
          return;
        }
      }
      assert members[..|members|] == members;
      r := Done;
    }

    /** One round of the loop of FromMqtt. */
    method AssignMember(member: (string, Json)) returns (r: Outcome)
      requires Valid()
      modifies FieldObjects()
      ensures Valid() && LayoutKept()
      ensures r == if Named(old(Fields()), member.0) then Done else Failed(JsonObjectIncorrect)
      ensures Fields() == Assigned(old(Fields()), member)
    {
      ghost var fields := Fields();
      var i := 0;
      while i < |jsonFieldList| && jsonFieldList[i].jsonField.name != member.0
        invariant i <= |jsonFieldList|
        invariant forall j :: 0 <= j < i ==> fields[j].name != member.0
      {
        assert PlacedAt(i) == fields[i];
        i := i + 1;
      }
      FirstIndexUnique(fields, member.0, i);
      if i == |jsonFieldList| {
        return Failed(JsonObjectIncorrect);
      }
      jsonFieldList[i].jsonField.SetValue(member.1);
      OthersUnchanged(i);
      SameLayout();
      r := Done;
    }
  }
}
