# A verified model of the KNX gateway's codecs and group object controller

The gateway sits between an MQTT broker and a KNX bus. This project models, in Dafny, the parts of
it where bits, octets and counters have to agree, and proves what those parts promise together.

1. **JSON datapoints.** An encoding string such as `U8r4U4r3U5` is parsed and compiled into a bit
   layout (`DptJsonBuilder`, `LayoutTheorems`). Nested loops over fields and bits pack typed values
   into octets and unpack them again (`DptJson`, `DptJsonTheorems`); each field converts between a
   JSON value and a set of 112 bits (`DptJsonField`, `FieldTheorems`). `EncodingTheorems` says what
   each letter of an encoding makes of the bits. Everything is stated for any
   layout, not for the shipped catalogue.
2. **Group object controller.** An ordered map from group addresses to items, where one item may be
   filed under its primary and its feedback address (`OrderedMap`, `Controller`, `ControllerSpec`).
   Poll and timeout counters advance on ticks and responses disarm them (`ItemTimers`). Statements
   about runs quantify over every interleaving of ticks, bus events, additions and removals
   (`ControllerRuns`, `RegistryTheorems`).
3. **Telegram codec.** Frames with a length nibble, a TPDU and an exclusive-or parity octet (`Tpdu`,
   `Telegram`, `TelegramTheorems`); `WireFormat` states the codec and the controller's telegrams in
   literal bits and numbers.
4. **Arithmetic and text.** The 2-octet float of section 3.10 of KNX 03_07_02 over integer
   hundredths (`Float16`, `Dpt9`), group addresses (`GroupAddress`), and the number, octet-list and
   telegram text formats (`Digits`, `TextNumbers`, `DptRaw`, `Converter`).

`EndToEnd` composes 1, 2 and 3: what one gateway packs and sends, another with the same layout
receives. `EndToEnd.FieldsArrive` is the main theorem and `EndToEnd.Exchange` is the same statement
about the methods that do the work.

## How the model is built

Code that changes things step by step is imperative here too: the datapoints, the telegram, the
TPDU, the controller and its shared items are classes with the source's fields, and each method is
tied by its `ensures` to a function of the old state. The theorems are then about those functions.
`Datapoint.Fields()` is the value of the field list, `GroupObjectController.Snapshot()` the value of
the registry, in which an item object shared by two keys becomes one slot number named by two
entries, and the ghost field `Log` records what group objects and the telegram sender see.

Exceptions are values: `Result`, or `Outcome` for an operation that only changes state. Octets are
`bv8`. A buffer's bit 0 is the most significant bit of its first octet; a raw value's bit 0 is its
least significant one. 16-, 32- and 64-bit truncations are written out as residues; right shifts of
negative mantissas round down and divisions of durations truncate towards zero, as in the source.
What libraries compute for the source (conversions of JSON scalars to text, floating point words)
is the parameter `Library`.

## Where the code does less than one might expect

Each of these is a result with its exact condition, proved in both directions.

- Unpack-then-pack gives the payload back, reserved bits cleared, if and only if the bits of every
  field survive a passage through JSON. A string survives if and only if it holds no NUL octet before
  another octet, a FLOAT word if and only if the floating point conversions give it back, characters,
  single bits and numbers always (`DptJsonTheorems.UnpackThenPack`, with an instance in `DptJsonTheorems.GappedTextChanges`).
- Unpacking throws for an unsigned or enumeration field wider than 64 bits if and only if a bit above
  its low 64 is set (`DptJsonTheorems.UnpackAndPackSucceed`).
- A packed payload of a layout beyond 112 bits can be sent if and only if it still has at most 15
  octets, as it may with a long reserved tail (`EndToEnd.PayloadSentWhole`).
- The payload spans the whole encoding if and only if the reserved bits after the last field fit in
  that field's last octet (`LayoutTheorems.PayloadSpansEncoding`). The documentation
  (jsondatapoint.md, lines 115-131) ties the encoding to the format notation of section 1.3 of KNX
  03_07_02, under which `U8r8` is two octets; the code makes room for one
  (`LayoutTheorems.TrailingReservedOctetLost`).
- An accepted frame is emitted again unchanged if and only if it carries data: a control TPDU is
  parsed with a one-octet payload, emitted with that length in its nibble and then rejected
  (`TelegramTheorems.ReemissionExactly`, `TelegramTheorems.ControlFrameRejected`).
- A timeout equal to the poll interval works although the comment in
  src/knxgroupobject/groupobjectsettings.h:21-22 asks for less; a longer one never fires
  (`ItemTimers.TimeoutOfPoll`, `ItemTimers.LongTimeoutNeverFires`).
- `AddGroupObject` may return false and still have registered the primary address, when only the
  feedback address collides. Removing the item then does not restore the map: restoration holds if
  and only if the addition returned true (`RegistryTheorems.AddThenRemove`, with an instance in
  `RegistryTheorems.FeedbackCollision`).
- Removal by a feedback address leaves the primary key behind; it is complete if and only if it
  names the primary address (`RegistryTheorems.RemovalComplete`, with an instance in
  `RegistryTheorems.FeedbackRemovalLeavesPrimary`).
- The 2-octet float's error bound holds if and only if the number lies in -671088.64..671088.63,
  because a larger exponent wraps: 671088.64 is received as 10.24 (`Float16.ErrorBoundExactly`,
  `Float16.OutOfRangeWraps`).
- The text printed for a telegram, sent back as it is, restores the payload if and only if the
  payload is one octet; with the missing first octet inserted as zero it restores the telegram if
  and only if that octet was zero or is the only one (`Converter.PrintedMessageShortOnly`,
  `Converter.GroupMessageRoundTrip`, with an instance in `Converter.LongMessageShrinks`).
- The text printed for an individually addressed telegram is never accepted back, since the parser
  wants source and receiver in one word (`Converter.PrintedIndividualRejected`,
  `Converter.IndividualMessageRoundTrip`). README.md:12 calls individual receivers unsupported; the
  code parses and prints them all the same.

## Model

| member | source | states |
|---|---|---|
| EndToEnd.FieldsArrive | src/knxgroupobjectcontroller.cpp:68-94 | For every compiled layout and every packed payload: Send accepts the payload if and only if it has 1 to 15 octets, as it has for every layout of at most 112 bits with a field; then its frame parses to the telegram that was sent, the only thing a controller delivers for that telegram is this payload, once, to the item registered at the address, and this holds if and only if the item is registered there; and every field reads back the normal form of the value the sender held, which is that value itself whenever it fits its field. |
| EndToEnd.Exchange | src/knxgroupobject/dptjson.cpp:45-80 | The same through the methods on two datapoints and two controllers: the exchange completes if and only if every field of the sender has a raw form and the layout fits a telegram; then every field arrives with its normal form, unchanged if its value fits, otherwise nothing is sent and the receiver is untouched; the sender never changes. |
| EndToEnd.SendFields | src/knxgroupobjectcontroller.cpp:83-94 | Packing, the controller's Send and frame emission in sequence: it yields a frame if and only if every field has a raw form and the layout fits a telegram, and then the controller has sent exactly the telegram of the packed payload and the frame is that telegram's. |
| EndToEnd.ReceiveFrame | src/knxgroupobjectcontroller.cpp:68-80 | Parsing such a frame, dispatching its telegram and unpacking its payload never throws: the item registered at the address gets the telegram, nothing else is delivered, and every field arrives. |
| EndToEnd.DispatchFrame | src/knxtelegram.cpp:114-147 | A frame of a telegram is parsed back to it and handed to the controller, which does what it does for that telegram. |
| EndToEnd.UpdateDatapoint | src/knxgroupobject/dptjson.cpp:45-62 | Unpacking a packed payload on a datapoint of the same layout never throws, and every field arrives. |
| EndToEnd.PayloadSentWhole | src/knxtelegramtpdu.cpp:56-65 | Send accepts a packed payload of a compiled layout if and only if its size is 1 to 15; its first octet is then at most 0x3F, so the six-bit mask of SetPayload changes nothing. |
| EndToEnd.FrameCarriesRequest | src/knxgroupobjectcontroller.cpp:85-91 | Every telegram that Send builds for a write survives emission and parsing in all its fields. |
| DptJson.Datapoint.AddField | src/knxgroupobject/dptjson.cpp:10-15 | Appends a copy of the field at its position; the payload size stays the maximum over all fields (part of Valid). |
| DptJson.AllFieldsFit | src/knxgroupobject/dptjson.cpp:10-15 | The payload size kept by AddField covers the last bit of every field, which keeps both bit loops inside the buffer. |
| DptJson.SizeIsLeast | src/knxgroupobject/dptjson.cpp:10-15 | The payload size is the smallest number of octets that holds every field. |
| DptJson.Datapoint.ReadRawValue | src/knxgroupobject/dptjson.cpp:51-59 | The descending bit loop ends, stays inside the payload and collects exactly the field's bits, or throws when a set bit lies beyond the 112th. |
| DptJson.Datapoint.UnpackField | src/knxgroupobject/dptjson.cpp:50-61 | One round of unpacking sets that field's value to what its bits denote and leaves the other fields alone; an error changes nothing. |
| DptJson.Datapoint.FromKnx | src/knxgroupobject/dptjson.cpp:45-62 | A payload of another size is refused with nothing changed; otherwise all fields hold what the payload says, or the first unreadable field raises its error with exactly the fields before it updated. |
| DptJson.Datapoint.PackField | src/knxgroupobject/dptjson.cpp:67-78 | One round of packing ors exactly the field's own bits into the payload, or reports why the field has no raw form. |
| DptJson.Datapoint.ToKnx | src/knxgroupobject/dptjson.cpp:64-80 | The result has the layout's size and each of its bits is set if and only if some field contributes it; an error is that of the first field without a raw form. |
| DptJson.PackedIsUnique | src/knxgroupobject/dptjson.cpp:64-80 | That description of the packed payload fits one byte sequence only. |
| DptJson.Datapoint.FromMqtt | src/knxgroupobject/dptjson.cpp:22-43 | A non-zero control index is refused; the members are assigned in order, and the first unknown name throws with exactly the members before it assigned. |
| DptJson.Datapoint.AssignMember | src/knxgroupobject/dptjson.cpp:28-38 | Assigns to the first field of that name and to no other, or throws when there is none. |
| DptJsonTheorems.NumberFieldReads | src/knxgroupobject/dptjson.cpp:51-60 | An unsigned or enumeration field of up to 64 bits reads the binary number its bits spell, the first bit the most significant. |
| DptJsonTheorems.IntegerFieldReads | src/knxgroupobject/dptjsonfield.cpp:69-79 | An integer field of w bits reads the one number from -2^(w-1) to 2^(w-1)-1 that is congruent to its bits' binary number modulo 2^w. |
| DptJsonTheorems.BitFieldReads | src/knxgroupobject/dptjsonfield.cpp:61-63 | A bit field reads its bit as a truth value. |
| DptJsonTheorems.CharFieldReads | src/knxgroupobject/dptjsonfield.cpp:46-48 | A character field reads a text of the one octet its eight bits spell. |
| DptJsonTheorems.StringFieldReads | src/knxgroupobject/dptjsonfield.cpp:49-59 | A string field at any position reads the fourteen octets its bits spell, in order, without the NUL ones. |
| DptJsonTheorems.FloatFieldReads | src/knxgroupobject/dptjsonfield.cpp:80-86 | A FLOAT field reads the library's conversion of its bits' binary number. |
| DptJsonTheorems.PackedNumber | src/knxgroupobject/dptjson.cpp:64-80 | In a packed payload the bits of a number field spell its value modulo 2^w, negative integers included. |
| DptJsonTheorems.PackedTruth | src/knxgroupobject/dptjson.cpp:64-80 | The bit of a packed bit field is its truth value. |
| DptJsonTheorems.PackedChar | src/knxgroupobject/dptjson.cpp:64-80 | The bits of a packed character field spell its text's first octet. |
| DptJsonTheorems.PackedText | src/knxgroupobject/dptjsonfield.cpp:104-119 | The bits of a packed string field spell its text's first fourteen octets one after another, then zeros. |
| DptJsonTheorems.FittingValueReturns | src/knxgroupobject/dptjson.cpp:45-80 | A number in its field's range, a truth value, a character or a text of up to 14 octets without NUL comes back from a packed payload as itself. |
| DptJsonTheorems.FittingValuePacks | src/knxgroupobject/dptjson.cpp:64-80 | Such a value can always be packed. |
| DptJsonTheorems.AlignedOctets | src/knxgroupobject/dptjson.cpp:54-59 | For a field on whole octets this is the number with the most significant octet first. |
| DptJsonTheorems.TextFieldReads | src/knxgroupobject/dptjsonfield.cpp:49-59 | A string field on whole octets reads those octets in order without the NUL ones. |
| DptJsonTheorems.PackThenUnpack | src/knxgroupobject/dptjson.cpp:45-80 | For disjoint fields in any list order, unpacking a packed payload gives each field the normal form of its own value: unsigned values modulo 2^w, integers as w-bit two's complement, strings as their first 14 octets without NULs, FLOAT values as the library's conversions of their w-bit word. |
| DptJsonTheorems.PackedFieldRead | src/knxgroupobject/dptjson.cpp:45-80 | The raw bits read for a field from a packed payload are exactly those the field contributed. |
| DptJsonTheorems.UnpackThenPack | src/knxgroupobject/dptjson.cpp:45-80 | For disjoint fields and any payload, packing after unpacking gives the payload with exactly the uncovered bits cleared, if and only if every field's bits survive JSON: no NUL before another octet in a string, no bit above the lowest in a bit field, and FLOAT words that the library's conversions give back. |
| DptJsonTheorems.FieldBitsAgree | src/knxgroupobject/dptjson.cpp:45-80 | The same field by field: the two payloads agree on a field's bits if and only if those bits survive. |
| DptJsonTheorems.UnpackAndPackSucceed | src/knxgroupobject/dptjson.cpp:45-80 | Unpacking refuses a field if and only if it is a number with a bit set above its 64th; what was unpacked can be packed again, FLOAT aside. |
| DptJsonTheorems.GappedTextChanges | src/knxgroupobject/dptjsonfield.cpp:49-59 | A payload with a NUL before an 'A' in a string field is read as "A" and written with the 'A' first. |
| DptJsonTheorems.AssignmentFrame | src/knxgroupobject/dptjson.cpp:22-43 | A JSON object changes the packed payload only at bits covered by a field it names; overlapping fields and repeated names included. |
| DptJsonTheorems.UnmentionedUnchanged | src/knxgroupobject/dptjson.cpp:28-38 | A field that no member names keeps its value. |
| DptJsonTheorems.LastMemberTaken | src/knxgroupobject/dptjson.cpp:28-38 | The first field of a name ends up with the value of the last member of that name. |
| DptJsonTheorems.ShadowedUnchanged | src/knxgroupobject/dptjson.cpp:29-35 | A field whose name an earlier field has is never assigned. |
| DptJsonField.JsonField.Create | src/knxgroupobject/dptjsonfield.cpp:21-32 | The constructor succeeds if and only if the width is one its type supports. |
| DptJsonField.JsonField.SetRawValue | src/knxgroupobject/dptjsonfield.cpp:42-88 | Overwrites the value with what the raw value denotes in the field's type and width, or throws and leaves it. |
| DptJsonField.JsonField.GetRawValue | src/knxgroupobject/dptjsonfield.cpp:93-138 | The raw value of the field's JSON value, or the conversion error. |
| DptJsonField.RawOfString | src/knxgroupobject/dptjsonfield.cpp:104-120 | The shift-and-or loop produces the first 14 octets of the text followed by zero octets. |
| DptJsonField.StringOfRaw | src/knxgroupobject/dptjsonfield.cpp:49-59 | The shift loop produces the non-zero octets of the raw value in order. |
| FieldTheorems.RawRoundTrip | src/knxgroupobject/dptjsonfield.cpp:42-138 | Through JSON and back, a raw value that fits the width reappears on the field's bits if and only if it survives, for every type and supported width. |
| FieldTheorems.ReadableExactly | src/knxgroupobject/dptjsonfield.cpp:64-79 | Reading a raw value throws if and only if it is a number with a bit above the 64th. |
| FieldTheorems.ValueRoundTrip | src/knxgroupobject/dptjsonfield.cpp:42-138 | A value written to the field's bits is read back as its normal form, for every type and every supported width up to 112. |
| FieldTheorems.NumberOfRaw | src/knxgroupobject/dptjsonfield.cpp:64-68 | A raw value within a width of at most 64 is below 2^64 and has the same bits again when written as a number. |
| FieldTheorems.SignedBits | src/knxgroupobject/dptjsonfield.cpp:69-79 | Sign extension to 64 bits keeps the low w bits of a w-bit integer. |
| JsonValues.ScalarsAsNumbers | src/knxgroupobject/dptjsonfield.cpp:122-128 | Null, truth values and whole numbers as the field conversions take them, with the limits of the 64-bit types. |
| FieldTheorems.StringRoundTrip | src/knxgroupobject/dptjsonfield.cpp:104-119 | A text comes back as its first 14 octets if and only if none of them is NUL. |
| FieldTheorems.StringCompaction | src/knxgroupobject/dptjsonfield.cpp:49-59 | Reading a string and writing it moves its non-zero octets to the front and fills with zeros, and doing so twice is doing so once. |
| FieldTheorems.CompactIdentity | src/knxgroupobject/dptjsonfield.cpp:49-59 | That changes nothing if and only if no zero octet precedes a non-zero one. |
| DptJsonBuilder.ParseEncodingString | src/knxgroupobject/dptjsonbuilder.cpp:22-42 | The search loop yields the leftmost matches one after another, B counts expanded to single bits, and throws for a number beyond unsigned long. |
| DptJsonBuilder.ParseRendered | src/knxgroupobject/dptjsonbuilder.cpp:22-42 | Every list of letters and widths, written in decimal with any separators, parses back to exactly its elements. |
| DptJsonBuilder.Create | src/knxgroupobject/dptjsonbuilder.cpp:88-113 | Builds a fresh datapoint whose field list is the layout of the parsed encoding; succeeds if and only if the encoding parses and every A has width 8 or 112, every V 8, 16, 32 or 64 and every F 16 or 32. |
| DptJsonBuilder.ParsedCodes | src/knxgroupobject/dptjsonbuilder.cpp:25-38 | A parsed element has one of the letters B, N, A, U, V, F, r, and B elements are single bits. |
| DptJsonBuilder.WidthsExactly | src/knxgroupobject/dptjsonfield.cpp:15-18 | The constructor's widths are exactly those of the letters A, V and F. |
| EncodingTheorems.ElementMeaning | src/knxgroupobject/dptjsonbuilder.cpp:14-20 | The field of an element bears the next name, occupies the element's width after everything before it (right-aligned in the first octet up to six bits, from the second octet otherwise), and reads: U and N the binary number of its bits, V the congruent number of the signed range, B its truth value, A one or fourteen octets, F the library's float. |
| EncodingTheorems.NamesInTurn | src/knxgroupobject/dptjsonbuilder.cpp:102-111 | The number of names used before an element is the number of elements before it that are not reserved. |
| EncodingTheorems.AllLetters | src/knxgroupobject/dptjsonbuilder.cpp:25-38 | "B2N3A8U5V16F32r1" parses to two single bits and one element for each other letter. |
| DptJsonBuilder.PlaceFields | src/knxgroupobject/dptjsonbuilder.cpp:102-111 | The placing loop builds that layout, or throws exactly for an unsupported width. |
| DptJsonBuilder.AddEncodedField | src/knxgroupobject/dptjsonbuilder.cpp:104-108 | One encoded field is added at the current bit position, or its width is refused. |
| LayoutTheorems.FieldPosition | src/knxgroupobject/dptjsonbuilder.cpp:102-111 | Each element that is not reserved places one field, offset by the total width of everything before it. |
| LayoutTheorems.FieldSeparation | src/knxgroupobject/dptjsonbuilder.cpp:102-111 | Two fields are separated by exactly the total width of the elements between them. |
| LayoutTheorems.LayoutOrdered | src/knxgroupobject/dptjsonbuilder.cpp:102-111 | The fields are in ascending order without overlap and lie within the encoding's extent. |
| LayoutTheorems.CompiledLayout | src/knxgroupobject/dptjsonbuilder.cpp:96-111 | A compiled layout is ordered and disjoint and starts at bit 2 or later, so the descending unsigned loops end; at most 6 bits lie in the first octet and end at bit 7, more start at bit 8. |
| LayoutTheorems.CompiledSize | src/knxgroupobject/dptjson.cpp:10-15 | At most 112 bits give a payload of at most 15 octets, and of at least one when there is a field. |
| LayoutTheorems.FirstOctetSixBits | src/knxgroupobject/dptjsonbuilder.cpp:96-100 | The two most significant bits of the first octet of a packed payload are clear, so masking them loses nothing. |
| LayoutTheorems.CompiledExtent | src/knxgroupobject/dptjson.cpp:13-14 | The payload ends with the octet that holds the last field's last bit. |
| LayoutTheorems.PayloadSpansEncoding | src/knxgroupobject/dptjsonbuilder.cpp:102-111 | The payload covers the whole encoding if and only if the trailing reserved bits fit in the last field's last octet. |
| LayoutTheorems.TrailingReservedOctetLost | src/knxgroupobject/dptjsonbuilder.cpp:102-111 | For "U8r8" they do not: two octets instead of three. |
| Controller.GroupObjectController.constructor | src/knxgroupobjectcontroller.cpp:5-8 | An empty registry with the given tick interval. |
| Controller.GroupObjectController.AddGroupObject | src/knxgroupobjectcontroller.cpp:10-34 | New registry, links and result for every case: no object, primary address taken, feedback absent, equal to the primary, taken or free. |
| Controller.GroupObjectController.RemoveGroupObject | src/knxgroupobjectcontroller.cpp:36-49 | New registry and result: the found item's feedback key and the given key are gone. |
| Controller.GroupObjectController.NotifyEvent | src/knxgroupobjectcontroller.cpp:51-81 | Start-up reads on connection, then the event to every key's item, then the dispatch of the telegram, with the resulting state. |
| Controller.GroupObjectController.SendStartReads | src/knxgroupobjectcontroller.cpp:53-61 | The start-up reads go out in key order and the registry stays as it is. |
| Controller.GroupObjectController.SignalAll | src/knxgroupobjectcontroller.cpp:63-66 | Every key's item gets the event, in key order. |
| Controller.GroupObjectController.Dispatch | src/knxgroupobjectcontroller.cpp:68-80 | A group telegram reaches the item at its receiver, a response disarms that item's timeout, nothing else changes. |
| Controller.GroupObjectController.Send | src/knxgroupobjectcontroller.cpp:83-94 | Hands the sender exactly the telegram described by the transaction, or throws for a bad APCI or payload size with nothing sent. |
| Controller.BuildRequest | src/knxgroupobjectcontroller.cpp:85-91 | The setters called by Send produce that telegram object, or the first setter's error. |
| Controller.GroupObjectController.VisitItem | src/knxgroupobjectcontroller.cpp:103-121 | One iteration of a tick updates the shared item and the log as the timeout half and then the poll half say. |
| Controller.GroupObjectController.NotifyTick | src/knxgroupobjectcontroller.cpp:96-124 | A tick is one visit for each key in key order, an item under two keys being visited twice. |
| ControllerSpec.AddWellFormed | src/knxgroupobjectcontroller.cpp:10-34 | An addition keeps the map strictly ordered and every entry pointing to an item. |
| ControllerSpec.RemoveWellFormed | src/knxgroupobjectcontroller.cpp:36-49 | So does a removal. |
| ControllerSpec.QuotientTruncates | src/knxgroupobjectcontroller.cpp:19-20 | The tick quotient is rounded towards zero for durations of either sign. |
| RegistryTheorems.AddReports | src/knxgroupobjectcontroller.cpp:13-33 | An addition returns true if and only if there is a group object and neither of the two addresses is taken; unless the primary one is taken it makes one new item and tells the object its primary address. |
| RegistryTheorems.AddExactly | src/knxgroupobjectcontroller.cpp:23-29 | It adds those own addresses of the new item that are free, unless the primary one is taken, and nothing else. |
| RegistryTheorems.NewItemFields | src/knxgroupobjectcontroller.cpp:16-21 | A new item holds the object and its settings, both times in whole ticks, a full poll counter and a timeout timer that is off. |
| RegistryTheorems.RemoveExactly | src/knxgroupobjectcontroller.cpp:36-49 | A removal returns true if and only if the address is registered, and then drops it and the found item's feedback address, and nothing else. |
| ItemTimers.CountersExplained | src/knxgroupobjectcontroller.cpp:103-121 | After any history of visits and answers the counters are functions of the history, and an armed item with a timeout has used up as much of it as of its poll interval. |
| ItemTimers.ActionsExplained | src/knxgroupobjectcontroller.cpp:103-121 | At every moment of every history, what is sent and signalled is determined by the history alone. |
| ItemTimers.PollsExactly | src/knxgroupobjectcontroller.cpp:112-120 | A visit polls if and only if it is a multiple of the poll interval plus one. |
| ItemTimers.PollConservation | src/knxgroupobjectcontroller.cpp:112-120 | The number of poll reads is the number of visits divided by P+1. |
| ItemTimers.NoPollNoAction | src/knxgroupobjectcontroller.cpp:103-121 | Without a poll interval an item never polls and never times out. |
| ItemTimers.TimeoutExactly | src/knxgroupobjectcontroller.cpp:103-110 | A visit signals a timeout if and only if 0 < T <= P and it is the (T+1)-th after a poll that no answer has followed. |
| ItemTimers.TimeoutOfPoll | src/knxgroupobjectcontroller.cpp:75-122 | Up to the next poll, exactly the (T+1)-th visit after a poll signals its timeout, and only without an answer in between: one error for each unanswered poll and none for an answered one. |
| ItemTimers.OneOverdueVisit | src/knxgroupobjectcontroller.cpp:103-110 | A poll has at most one visit that is the (T+1)-th after it without an answer. |
| ItemTimers.OneOverduePoll | src/knxgroupobjectcontroller.cpp:103-110 | Such a visit belongs to one poll only. |
| ItemTimers.TimeoutConservation | src/knxgroupobjectcontroller.cpp:75-122 | In every history the number of timeouts is the number of polls that went T+1 visits without an answer if 0 < T <= P, and zero otherwise. |
| ItemTimers.LongTimeoutNeverFires | src/knxgroupobjectcontroller.cpp:103-119 | A timeout longer than the poll interval never fires. |
| ItemTimers.PollPeriod | src/knxgroupobjectcontroller.cpp:112-120 | Consecutive polls are exactly P+1 visits apart. |
| ItemTimers.PeriodBound | src/knxgroupobjectcontroller.cpp:19-21 | P+1 ticks exceed the configured interval, by at most one tick, if and only if the interval's number of ticks fits the 32-bit cast. |
| ControllerRuns.RunFollows | src/knxgroupobjectcontroller.cpp:51-124 | In every run, an item's state and its share of the log are those of its own history of visits and answers. |
| ControllerRuns.VisitsPerRun | src/knxgroupobjectcontroller.cpp:98-99 | An item under K keys gets K times n visits in n ticks while the registry is unchanged. |
| ControllerRuns.PollsInRun | src/knxgroupobjectcontroller.cpp:96-124 | In such a run, with telegrams and connections interleaved at will, it sends exactly (K*n) div (P+1) poll reads, and none when P is 0. |
| ControllerRuns.TimeoutsInRun | src/knxgroupobjectcontroller.cpp:75-122 | Any run, registry changes included, reports exactly one timeout for each of the item's polls that went T+1 visits without an answer if 0 < T <= P, and none otherwise. |
| ControllerRuns.TimeoutsReachOwner | src/knxgroupobjectcontroller.cpp:107-108 | Every such timeout is told to the item's own group object. |
| ControllerRuns.PollsPeriodically | src/knxgroupobjectcontroller.cpp:19-21 | An item just added with interval I of at least one tick t and one key polls in a step of a run that leaves the registry alone if and only if that step is a tick whose number is a multiple of P+1, so its polls are (P+1)*t apart, which is more than I and at most I + t. |
| ControllerRuns.TimeoutsPunctually | src/knxgroupobjectcontroller.cpp:19-21 | An item just added with response timeout R of at least one tick t, no longer in ticks than its poll interval, and one key: after a poll, up to and including the tick that polls again, exactly the N-th tick reports a timeout, and only if no response came in between; R < N*t <= R + t. |
| RegistryTheorems.PollReadsInRun | src/knxgroupobjectcontroller.cpp:112-119 | Every poll read of a run goes out on a tick, to an address under which its item is registered at that moment. |
| RegistryTheorems.TickReadsAscend | src/knxgroupobjectcontroller.cpp:99-121 | The poll reads of one tick go out in strictly ascending address order. |
| OrderedMap.FindExactly | src/knxgroupobjectcontroller.cpp:71-72 | Lookup by order alone finds exactly the element with that key. |
| OrderedMap.EmplaceNew | src/knxgroupobjectcontroller.cpp:23-28 | Inserting a new key keeps the order, and erasing it restores the map. |
| OrderedMap.EraseMembers | src/knxgroupobjectcontroller.cpp:41-44 | Erasing removes the key's element and no other. |
| RegistryTheorems.RunOwned | src/knxgroupobjectcontroller.cpp:10-49 | In every run every key is the primary or feedback address of the item it leads to. |
| RegistryTheorems.RunRegisters | src/knxgroupobjectcontroller.cpp:10-49 | While every addition succeeds or is refused outright and removals name primary addresses, an address leads to an item if and only if the item was added and not removed and the address is its primary or feedback address. |
| RegistryTheorems.RegisteredApart | src/knxgroupobjectcontroller.cpp:10-49 | No address belongs to two items registered in that way. |
| RegistryTheorems.RunClean | src/knxgroupobjectcontroller.cpp:10-49 | In such a run every item that has a key in the map has all of its own addresses there and no foreign one. |
| RegistryTheorems.AddThenRemove | src/knxgroupobjectcontroller.cpp:10-49 | Adding under a free primary address and removing by it restores the map if and only if the addition returned true. |
| RegistryTheorems.RemovalComplete | src/knxgroupobjectcontroller.cpp:36-49 | In such a registry a removal takes keys of the found item only, and takes all of them if and only if it names the primary address. |
| RegistryTheorems.FeedbackRemovalLeavesPrimary | src/knxgroupobjectcontroller.cpp:36-49 | An item at 0/0/1 with feedback address 0/0/2, removed by 0/0/2, stays at 0/0/1. |
| RegistryTheorems.FeedbackCollision | src/knxgroupobjectcontroller.cpp:23-49 | An item at 0/0/2 whose feedback address 0/0/1 is taken: its addition fails and stays, its removal leaves the map empty. |
| RegistryTheorems.LiveKeyCount | src/knxgroupobjectcontroller.cpp:23-31 | A registered item has two keys if it has a feedback address other than its primary one, and one key otherwise. |
| RegistryTheorems.AtMostTwoKeys | src/knxgroupobjectcontroller.cpp:10-49 | In every run no item has more than two keys. |
| RegistryTheorems.NotificationByKind | src/knxgroupobjectcontroller.cpp:51-81 | What one notification sends, signals and delivers, each in order: start-up reads on a connection only, one signal for each key, at most one delivery. |
| RegistryTheorems.NotificationOrder | src/knxgroupobjectcontroller.cpp:51-81 | Start-up reads come first, then the signals, then the delivery. |
| RegistryTheorems.AnswersExactly | src/knxgroupobjectcontroller.cpp:74-77 | A telegram counts as a response to an item if and only if it is group addressed, its APCI is 1 and the item is registered at its receiver. |
| RegistryTheorems.DisarmedExactly | src/knxgroupobjectcontroller.cpp:74-77 | A notification turns off the timeout timer of an item if and only if its telegram is such a response, and changes nothing else. |
| RegistryTheorems.DeliveredExactly | src/knxgroupobjectcontroller.cpp:68-80 | A notification delivers its telegram to an item, once and nothing else to anyone, if and only if the telegram is group addressed and the item is registered at its receiver; it delivers nothing if and only if no item is. |
| RegistryTheorems.SignalledPerKey | src/knxgroupobjectcontroller.cpp:63-66 | A notification signals its event, and no other, to the group object of every item once for each of its keys. |
| RegistryTheorems.StartReads | src/knxgroupobjectcontroller.cpp:53-61 | On connection a read goes out to a key if and only if its item asks for it, in strictly ascending address order; nothing else is sent, and on any other event nothing at all. |
| GroupAddress.OfEibOfAddress | src/knxgroupaddress.cpp:68-86 | An address is recovered from its 16-bit form. |
| GroupAddress.EibOfEib | src/knxgroupaddress.cpp:68-86 | Every 16-bit number is the form of the address it denotes. |
| GroupAddress.OrderAgreesWithEquality | src/knxgroupaddress.cpp:88-96 | Two addresses are equal if and only if neither is less, so the map identifies no two different addresses. |
| GroupAddress.SpellingsAgree | src/knxgroupaddress.cpp:47-76 | The three-, two- and one-level initialisers agree on the same address. |
| WireFormat.AddressNumber | src/knxgroupaddress.cpp:83-86 | The 16-bit form is 2048*main + 256*middle + sub. |
| WireFormat.AddressLimits | src/knxgroupaddress.cpp:47-76 | The three initialisers accept exactly main up to 31, middle up to 7, sub up to 255 or 2047, and single numbers up to 65535. |
| Tpdu.TpduObject.SetCommunicationType | src/knxtelegramtpdu.cpp:17-22 | Sets the type, or throws above the last one and changes nothing. |
| Tpdu.TpduObject.SetApci | src/knxtelegramtpdu.cpp:39-44 | Sets the code, or throws above the last one and changes nothing. |
| Tpdu.TpduObject.SetPayload | src/knxtelegramtpdu.cpp:51-65 | Stores 1 to 15 octets with the first masked to six bits, or throws and changes nothing. |
| Tpdu.TpduObject.GetRawPushBack | src/knxtelegramtpdu.cpp:84-100 | Appends the raw TPDU: two header octets around the APCI and the rest of the payload for data, one octet for control. |
| Tpdu.TpduObject.SetRaw | src/knxtelegramtpdu.cpp:107-121 | All fields after parsing, including which of them have changed when the payload is refused. |
| Telegram.TelegramObject.CalculateParity | src/knxtelegram.cpp:149-156 | The loop computes the complement of the exclusive or of the octets. |
| Telegram.TelegramObject.SetPriority | src/knxtelegram.cpp:33-39 | Sets the priority, or throws above the lowest one and changes nothing. |
| Telegram.TelegramObject.RawHeader | src/knxtelegram.cpp:86-106 | Control field, both addresses and the NPDU octet with the payload length, built in place. |
| Telegram.TelegramObject.GetRawTelegram | src/knxtelegram.cpp:86-112 | The frame of the telegram: header, TPDU and parity. |
| Telegram.TelegramObject.CheckHeader | src/knxtelegram.cpp:116-130 | The four checks in the source's order, each with its own error. |
| Telegram.TelegramObject.SetHeaderFields | src/knxtelegram.cpp:132-144 | The header fields of a checked frame. |
| Telegram.TelegramObject.SetRawTelegram | src/knxtelegram.cpp:114-147 | All fields and the outcome after parsing any buffer. |
| TelegramTheorems.AcceptedExactly | src/knxtelegram.cpp:114-147 | A buffer is accepted if and only if size, length nibble, control field and parity agree and a data frame has a payload. |
| TelegramTheorems.ReemissionExactly | src/knxtelegram.cpp:86-147 | Parsing an accepted frame and emitting it gives the same octets if and only if it is a data frame. |
| TelegramTheorems.DataFrameKept | src/knxtelegram.cpp:86-147 | Every accepted data frame is emitted again octet by octet. |
| TelegramTheorems.ControlFrameRejected | src/knxtelegram.cpp:99-108 | A control telegram is emitted in eight octets with a non-zero length nibble, which parsing rejects. |
| TelegramTheorems.DataTelegramReceived | src/knxtelegram.cpp:86-147 | Every data telegram is received with all fields, sequence number and routing counter reduced to their 4 and 3 bits. |
| TelegramTheorems.DataTelegramRestoredExactly | src/knxtelegram.cpp:86-147 | A data telegram without control data is restored if and only if its sequence number is below 16 and its routing counter below 8. |
| TelegramTheorems.SingleOctetErrorDetected | src/knxtelegram.cpp:118-130 | No buffer that differs from an accepted frame in exactly one octet is accepted. |
| WireFormat.AcceptedOctets | src/knxtelegram.cpp:114-130 | In numbers: 8 to 23 octets, 8 plus the low nibble of octet 5, octet 0 masked with 0xD3 equal to 0x90, an exclusive or of 0xFF, and nine octets at least when the two top bits of octet 6 are 00 or 01. |
| WireFormat.RejectionReasons | src/knxtelegram.cpp:118-130 | Which error each rejected buffer raises: length, payload length, control field, parity and empty payload, in that order. |
| WireFormat.ReceivedFields | src/knxtelegram.cpp:132-144 | Repeat flag, priority, both addresses, group flag and hop count of an accepted frame from its literal bits. |
| WireFormat.ReceivedTpdu | src/knxtelegramtpdu.cpp:107-121 | Type, sequence number, APCI and payload, or control data, of an accepted frame from its literal bits. |
| WireFormat.EmittedFields | src/knxtelegram.cpp:88-110 | The literal bits of the header octets of an emitted frame. |
| WireFormat.EmittedTpduOctets | src/knxtelegramtpdu.cpp:84-100 | The literal bits of the TPDU octets of an emitted frame, data and control. |
| WireFormat.SentFields | src/knxgroupobjectcontroller.cpp:83-94 | A transaction is sent if and only if its APCI is at most 15 and its payload has 1 to 15 octets, as a group telegram of priority 3 from 0 to 2048*main+256*middle+sub of type 0 with that APCI and the payload with a six-bit first octet. |
| WireFormat.ReadFields | src/knxgroupobjectcontroller.cpp:58-58 | Start-up and poll reads carry APCI 0 and one zero octet. |
| WireFormat.WriteFrame | src/knxgroupobjectcontroller.cpp:83-94 | Writing 00 0C 33 to 1/2/3 sends BC 00 00 0A 03 83 00 80 0C 33 76, and that frame is parsed to that write. |
| Float16.FloatToRaw16 | src/knxgroupobject/datapointutils.cpp:29-39 | The shift loop ends for every 32-bit number of hundredths, and the masked 16-bit word is that of the number's normalised form. |
| Float16.AssembledWord | src/knxgroupobject/datapointutils.cpp:38-38 | On 16-bit words, masking the mantissa with 0x87FF and or-ing four exponent bits in at bit 11 gives the word of that mantissa and exponent. |
| Float16.RawToFloat16 | src/knxgroupobject/datapointutils.cpp:21-27 | On 16-bit words, the masks, the sign extension and the shift give the number that the word denotes, for every word. |
| Float16.DisassembledWord | src/knxgroupobject/datapointutils.cpp:23-25 | The sign-extended mantissa and the exponent taken from a word are its two parts. |
| Float16.WordInNumbers | src/knxgroupobject/datapointutils.cpp:21-27 | A word with sign bit s, exponent e and low bits n denotes (n - 2048*s) * 2^e hundredths. |
| Float16.Normalised | src/knxgroupobject/datapointutils.cpp:33-36 | The loop stops at the first exponent whose range holds the number, with the mantissa rounded down. |
| Float16.ExponentLeast | src/knxgroupobject/datapointutils.cpp:33-36 | The exponent is the smallest one whose range holds the number. |
| Float16.EncodableRange | src/knxgroupobject/dpt9.cpp:11-11 | The exponent fits its four bits if and only if the number lies in -671088.64..671088.63, which includes the declared range. |
| Float16.EncodingError | src/knxgroupobject/datapointutils.cpp:21-39 | The decoded number is below the original by less than 2^e, exact without an exponent, closer than one part in 1024 with one. |
| Float16.ErrorBoundExactly | src/knxgroupobject/datapointutils.cpp:29-39 | The bound holds if and only if the number lies in the encodable range. |
| Float16.OutOfRangeWraps | src/knxgroupobject/datapointutils.cpp:38-38 | One past that range, 671088.64, is received as 10.24. |
| Float16.GreatestRepresentable | src/knxgroupobject/datapointutils.cpp:21-39 | The decoded number is the greatest one the format can denote that is not above the original. |
| Float16.RoundedMonotone | src/knxgroupobject/datapointutils.cpp:21-39 | Encoding and decoding keeps order, across exponents and signs. |
| Float16.DecodedIsFixed | src/knxgroupobject/datapointutils.cpp:21-39 | Every raw word, decoded and encoded again, keeps its value. |
| Float16.RoundedIdempotent | src/knxgroupobject/datapointutils.cpp:21-39 | Encoding and decoding twice is doing so once, for every number. |
| Float16.SmallestExponent | src/knxgroupobject/datapointutils.cpp:29-39 | Encoding a decoded word never uses a larger exponent than the word had. |
| Float16.WordRestoredExactly | src/knxgroupobject/datapointutils.cpp:21-39 | The word itself comes back if and only if it uses no exponent or a mantissa that needs all its bits. |
| Dpt9.Dpt9.FromKnx | src/knxgroupobject/dpt9.cpp:23-30 | Three octets set the value of their last two as a word, any other size throws and changes nothing. |
| Dpt9.Dpt9.ToKnx | src/knxgroupobject/dpt9.cpp:32-36 | Three octets, the first zero, the others the encoding of the value rounded to hundredths. |
| Dpt9.ResendKeepsValue | src/knxgroupobject/dpt9.cpp:23-36 | A value received from the bus and sent back carries the same number. |
| Dpt9.DeclaredRangeError | src/knxgroupobject/dpt9.cpp:11-36 | Over the whole declared range the number received differs by less than one unit of its exponent and half a hundredth. |
| Dpt9.RoundHalf | src/knxgroupobject/datapointutils.cpp:31-31 | Halves are rounded away from zero. |
| Dpt9.KnownValues | src/knxgroupobject/dpt9.cpp:23-36 | 36.66 is the octets 0F 29 and -25 the octets 8B 1E, both ways. |
| TextNumbers.PrintedByteParses | src/knxutils.cpp:5-31 | The parser reads every printed octet back. |
| TextNumbers.PrintedDigits | src/knxgroupobject/dptraw.cpp:48-52 | An octet is printed as 0x and its two lower-case hexadecimal digits, the upper one first. |
| TextNumbers.HexSpelling | src/knxutils.cpp:19-24 | 0x or 0X and two digits of either case parse to the octet. |
| TextNumbers.BinarySpelling | src/knxutils.cpp:11-18 | 0b or 0B and the eight bits of an octet, most significant first, parse to it. |
| TextNumbers.DecimalSpelling | src/knxutils.cpp:19-24 | The decimal number of an octet parses to it. |
| Digits.DecimalNotation | src/knxgroupaddress.cpp:118-123 | Numbers are printed in decimal, the last digit last. |
| TextNumbers.SpellingsParse | src/knxgroupaddress.cpp:30-45 | The one-, two- and three-level spellings of an address parse to that address. |
| DptRaw.CollectWords | src/knxgroupobject/dptraw.cpp:18-25 | The word loop collects octets until the text ends, a word is malformed or the sixteenth octet is read, keeping what it has read. |
| DptRaw.RawDatapoint.FromMqtt | src/knxgroupobject/dptraw.cpp:13-29 | The stored octets and the outcome, for every text and control index. |
| DptRaw.RawDatapoint.FromKnx | src/knxgroupobject/dptraw.cpp:31-38 | Stores a payload that is not empty, or throws and changes nothing. |
| DptRaw.RawDatapoint.ToMqtt | src/knxgroupobject/dptraw.cpp:45-55 | The loop prints each octet as 0x and two digits followed by a space. |
| DptRaw.PrintedInOrder | src/knxgroupobject/dptraw.cpp:45-55 | The octets are printed in order, five characters each. |
| DptRaw.CollectSpelled | src/knxgroupobject/dptraw.cpp:18-25 | Words that spell octets in any way are collected in the order of the words. |
| DptRaw.RawTextRoundTrip | src/knxgroupobject/dptraw.cpp:13-55 | Printing a list of octets and parsing the text gives the list back if and only if it has at most 15 octets. |
| Converter.KnxTelegramToMqtt | src/knxconverter.cpp:137-153 | The printed text of every telegram, data and control. |
| Converter.PrintPayload | src/knxconverter.cpp:76-93 | One octet is printed itself, of a longer payload everything but the first. |
| Converter.PayloadInOrder | src/knxconverter.cpp:76-93 | A single octet is printed itself; of a longer payload octets 1, 2, ... are, in that order, five characters each. |
| Converter.CodeNames | src/knxconverter.cpp:16-23 | The printed names of the codes 0 to 7. |
| Converter.LargeCodeNames | src/knxconverter.cpp:24-31 | The printed names of the codes 8 to 15. |
| Converter.ControlText | src/knxconverter.cpp:148-150 | A control telegram prints Connect, Disconnect, Ack or Nack for its control data 0 to 3. |
| Converter.IndividualNotation | src/knxconverter.cpp:47-55 | An individual address prints its upper four bits, the next four and the low octet in decimal. |
| Converter.GroupNotation | src/knxconverter.cpp:63-66 | A group receiver prints g: and its three parts in decimal. |
| Converter.ExamplePrinted | src/knxconverter.cpp:137-153 | The telegram from 1/1/23 that writes AA BB to 9/7/55 prints as README.md:50 shows. |
| Converter.MqttToKnxTelegram | src/knxconverter.cpp:155-212 | The telegram that a text denotes, or its error, word by word in the source's order of checks. |
| Converter.ReadPayload | src/knxconverter.cpp:195-208 | The first word keeps six bits, the others are collected, no word means a zero octet. |
| Converter.NumericCode | src/knxconverter.cpp:172-180 | A word that is a number is taken as a code, of which four bits count. |
| Converter.SpelledPayload | src/knxconverter.cpp:195-208 | Octets in any spelling are read in order, the first keeping six bits. |
| Converter.ExampleParsed | src/knxconverter.cpp:155-212 | The message of README.md:47 parses to that telegram, but for its source. |
| Converter.ApciNameParses | src/knxconverter.cpp:125-134 | Every APCI name parses back to its code. |
| Converter.IndividualParses | src/knxconverter.cpp:106-113 | Every individual address parses back from its text. |
| Converter.IndividualPairParses | src/knxconverter.cpp:188-192 | A word i:source:receiver is accepted and gives both addresses. |
| Converter.HeaderWordsParse | src/knxconverter.cpp:155-193 | An address word and an APCI name are found again whatever data follows, and the message fails if and only if the address word or the data does. |
| Converter.HeaderParses | src/knxconverter.cpp:155-193 | Receiver and APCI of a printed group message are found again, whatever data follows. |
| Converter.GroupMessageRoundTrip | src/knxconverter.cpp:76-212 | With 0x00 inserted before long data, a group message restores receiver, APCI and payload up to a zeroed first octet: the whole telegram if and only if that octet was zero or is the only one. |
| Converter.IndividualMessageRoundTrip | src/knxconverter.cpp:155-212 | A message between individual addresses restores source, receiver, APCI and payload under the same condition. |
| Converter.PrintedMessageShortOnly | src/knxconverter.cpp:76-212 | The printed text itself restores the payload if and only if the payload is one octet. |
| Converter.PrintedIndividualRejected | src/knxconverter.cpp:57-74 | The text printed for an individually addressed telegram, without its source, is never accepted back. |
| Converter.LongMessageShrinks | src/knxconverter.cpp:76-93 | The payload 0x00 0xaa is printed as 0xaa, which parses to the one octet 0x2a. |

## Left out

- Controller.GroupObjectController.NotifyTick: each notification is one atomic step, because the source sends a poll read before it arms the timeout (src/knxgroupobjectcontroller.cpp:117-119) and another thread may run in between.
- DptJsonBuilder.Create: takes the names and the encoding as given, as many names as fields, and an encoding whose width fits 32 bits; datapoint lookup by number and the wrap-around of the 32-bit position are not modelled.
- DptJson.Datapoint.AddField: positions start at 1, since at position 0 the source's descending unsigned loop does not end; the builder never produces one.
- DptJson.Datapoint.FromMqtt: the JSON text is taken as its members in the order of their names; parsing and printing of JSON text, and with it ToMqtt, belong to a library.
- DptJsonBuilder.ParseEncodingString: regular expression search is modelled as the leftmost match of a letter and a maximal run of digits; a B count of 2^32 or more does not end in the source.
- DptJsonTheorems.PackThenUnpack: what becomes of a FLOAT value is stated through the `Library` parameter, since its conversions go through IEEE floats; the 2-octet float itself is treated in hundredths on the datapoint type 9 path.
- DptJsonTheorems.UnpackThenPack: whether a FLOAT word survives is stated through that parameter too.
- FieldTheorems.ValueRoundTrip: excludes fields wider than 112 bits, which packing refuses, and fields of no width, whose value packing never looks at.
- Float16.FloatToRaw16: starts from a 32-bit number of hundredths; a value beyond that overflows the cast before the loop in the source.
- Dpt9.Dpt9.ToKnx: arithmetic is exact where the source multiplies doubles, and the value must be within the cast's range.
- Tpdu.TpduObject.SetRaw: a data TPDU needs an octet after its first one, which every checked frame has; without it the source reads past the end of the buffer.
- EndToEnd.ReceiveFrame: the group object between the controller and the datapoint is not modelled; the payload delivered to the item's group object is the one that is unpacked.
- TextNumbers.SpellingsParse: strtol, stoi, stream extraction and string splitting are functions written from their documented behaviour, and unsigned long has 64 bits.
- Threads, sockets and select (TKnxClientService, TKnxConnection, TTickTimer): only the steps they feed in are modelled.
- knxd's own framing of what the client service writes: not part of this model.
- Group objects, MQTT devices, the configurator, the legacy device and main: seen only as entries of the controller's log.
- etsconfigtool: a conversion of XML files without a comparable invariant.
- Datapoint types 1-8, 12, 13, 14 and 20: short codecs that would add easy members, and IEEE bits for type 14.
- Lookup of datapoint identifiers and the observer list: containers without a property of their own.
