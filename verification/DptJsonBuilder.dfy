/**
  The compiler from an encoding string such as "U8r4U4r3U5" to the bit layout of a datapoint.
  Models src/knxgroupobject/dptjsonbuilder.cpp.
 */
module DptJsonBuilder {
  import opened Digits
  import opened JsonValues
  import opened DptJsonField
  import opened DptJson
  import opened DptJsonTheorems
  import opened Outcomes

  /** EncodingResult: one field, or a run of reserved bits. */
  datatype Encoded = Encoded(typeCode: char, width: nat)

  const ULONG_LIMIT: nat := 0x1_0000_0000_0000_0000

  predicate IsTypeCode(c: char)
  {
    c == 'B' || c == 'N' || c == 'A' || c == 'U' || c == 'V' || c == 'F' || c == 'r'
  }

  function TypeOfCode(c: char): FieldType
  {
    match c
    case 'B' => BIT
    case 'N' => ENUM
    case 'A' => CHAR
    case 'U' => UNSIGNED_INT
    case 'V' => INT
    case _ => FLOAT
  }

  // ---- Parsing ----

  /** Whether the regular expression matches at the start of the text. */
  predicate MatchesHere(s: string)
  {
    |s| >= 2 && IsTypeCode(s[0]) && IsDigit(s[1])
  }

  /** What one matched letter and number stands for. */
  function Expand(typeCode: char, size: nat): seq<Encoded>
  {
    if typeCode == 'B' then seq(size, _ => Encoded('B', 1)) else [Encoded(typeCode, size % UINT32_LIMIT)]
  }

  function MatchLength(s: string): (n: nat)
    requires MatchesHere(s)
    ensures 2 <= n <= |s|
  {
    1 + DigitRun(s[1..])
  }

  function MatchedNumber(s: string): nat
    requires MatchesHere(s)
  {
    NatOfDigits(s[1..][..DigitRun(s[1..])])
  }

  /** Leftmost matches, one after another; whatever lies between them is skipped. */
  function Parse(s: string): Result<seq<Encoded>>
  {
    if s == [] then Ok([])
    else if MatchesHere(s) then
      if MatchedNumber(s) >= ULONG_LIMIT then Err(NumberOutOfRange)
      else Prepend(Expand(s[0], MatchedNumber(s)), Parse(s[MatchLength(s)..]))
    else Parse(s[1..])
  }

  function Prepend(prefix: seq<Encoded>, r: Result<seq<Encoded>>): Result<seq<Encoded>>
  {
    if r.Ok? then Ok(prefix + r.value) else r
  }

  /** The loops of ParseEncodingString. */
  method ParseEncodingString(str: string) returns (r: Result<seq<Encoded>>)
    ensures r == Parse(str)
  {
    var encodedFieldList: seq<Encoded> := [];
    var encodingStr := str;
    PrependNothing(Parse(str));
    while encodingStr != []
      invariant Parse(str) == Prepend(encodedFieldList, Parse(encodingStr))
      decreases |encodingStr|
    {
      if !MatchesHere(encodingStr) {
        encodingStr := encodingStr[1..];
      } else {
        var fieldType, fieldSize := encodingStr[0], MatchedNumber(encodingStr);
        if fieldSize >= ULONG_LIMIT {
          return Err(NumberOutOfRange);
        }
        var expanded := ExpandField(fieldType, fieldSize);
        encodingStr := encodingStr[MatchLength(encodingStr)..];
        PrependTwice(encodedFieldList, expanded, Parse(encodingStr));
        encodedFieldList := encodedFieldList + expanded;
      }
    }
    assert encodedFieldList + [] == encodedFieldList;
    r := Ok(encodedFieldList);
  }

  lemma PrependNothing(r: Result<seq<Encoded>>)
    ensures Prepend([], r) == r
  {
    if r.Ok? {
      assert [] + r.value == r.value;
    }
  }

  method ExpandField(fieldType: char, fieldSize: nat) returns (encodedFieldList: seq<Encoded>)
    ensures encodedFieldList == Expand(fieldType, fieldSize)
  {
    encodedFieldList := [];
    if fieldType == 'B' {
      for i := 0 to fieldSize
        invariant encodedFieldList == seq(i, _ => Encoded('B', 1))
      {
        encodedFieldList := encodedFieldList + [Encoded('B', 1)];
      }
    } else {
      encodedFieldList := [Encoded(fieldType, fieldSize % UINT32_LIMIT)];
    }
  }

  lemma PrependTwice(a: seq<Encoded>, b: seq<Encoded>, r: Result<seq<Encoded>>)
    ensures Prepend(a, Prepend(b, r)) == Prepend(a + b, r)
  {
    if r.Ok? {
      assert a + (b + r.value) == a + b + r.value;
    }
  }

  /** One element of an encoding as a person writes it: separators, a letter, a number. */
  datatype Written = Written(separator: string, typeCode: char, size: nat)

  predicate Separates(s: string)
  {
    forall i :: 0 <= i < |s| ==> !IsTypeCode(s[i]) && !IsDigit(s[i])
  }

  function Element(typeCode: char, size: nat): string
  {
    [typeCode] + DigitsOfNat(size)
  }

  function Rendered(ws: seq<Written>): string
  {
    if ws == [] then [] else ws[0].separator + (Element(ws[0].typeCode, ws[0].size) + Rendered(ws[1..]))
  }

  function AllExpanded(ws: seq<Written>): seq<Encoded>
  {
    if ws == [] then [] else Expand(ws[0].typeCode, ws[0].size) + AllExpanded(ws[1..])
  }

  predicate Writable(w: Written)
  {
    Separates(w.separator) && IsTypeCode(w.typeCode) && w.size < ULONG_LIMIT
  }

  lemma {:induction false} SkipSeparator(separator: string, rest: string)
    requires Separates(separator)
    ensures Parse(separator + rest) == Parse(rest)
  {
    if separator == [] {
      assert separator + rest == rest;
    } else {
      SkipSeparator(separator[1..], rest);
      assert (separator + rest)[1..] == separator[1..] + rest;
    }
  }

  lemma ElementSlices(typeCode: char, digits: string, rest: string)
    requires digits != []
    ensures var s := [typeCode] + digits + rest;
            && s[0] == typeCode && s[1] == digits[0] && s[1..] == digits + rest
            && s[1..][..|digits|] == digits && s[1 + |digits|..] == rest
  {
  }

  lemma ParseElement(typeCode: char, size: nat, rest: string)
    requires IsTypeCode(typeCode) && size < ULONG_LIMIT && (rest == [] || !IsDigit(rest[0]))
    ensures Parse(Element(typeCode, size) + rest) == Prepend(Expand(typeCode, size), Parse(rest))
  {
    var digits := DigitsOfNat(size);
    ElementSlices(typeCode, digits, rest);
    DigitRunOfPrefix(digits, rest);
    PrintThenParse(size);
    var s := Element(typeCode, size) + rest;
    assert MatchesHere(s) && MatchLength(s) == 1 + |digits| && MatchedNumber(s) == size;
  }

  lemma RenderedStart(ws: seq<Written>)
    requires forall i :: 0 <= i < |ws| ==> Writable(ws[i])
    ensures Rendered(ws) == [] || !IsDigit(Rendered(ws)[0])
  {
    if ws != [] {
      assert Writable(ws[0]);
    }
  }

  /** Parsing a written encoding gives back its elements, whatever separates them. */
  lemma {:induction false} ParseRendered(ws: seq<Written>)
    requires forall i :: 0 <= i < |ws| ==> Writable(ws[i])
    ensures Parse(Rendered(ws)) == Ok(AllExpanded(ws))
  {
    if ws != [] {
      var w, rest := ws[0], Rendered(ws[1..]);
      ParseRendered(ws[1..]);
      RenderedStart(ws[1..]);
      ParseElement(w.typeCode, w.size, rest);
      SkipSeparator(w.separator, Element(w.typeCode, w.size) + rest);
    }
  }

  // ---- Layout ----

  function Total(encoded: seq<Encoded>): nat
  {
    if encoded == [] then 0 else Total(encoded[..|encoded| - 1]) + encoded[|encoded| - 1].width
  }

  predicate Reserved(e: Encoded)
  {
    e.typeCode == 'r'
  }

  function FieldCount(encoded: seq<Encoded>): (n: nat)
    ensures n <= |encoded|
  {
    if encoded == [] then 0
    else FieldCount(encoded[..|encoded| - 1]) + (if Reserved(encoded[|encoded| - 1]) then 0 else 1)
  }

  const SHORT_PAYLOAD_BITS: nat := 6

  /** Short encodings are right-aligned in the first octet, longer ones start at the second. */
  function FirstPosition(total: nat): (start: nat)
    ensures start >= 2
  {
    if total <= SHORT_PAYLOAD_BITS then 8 - total else 8
  }

  function Layout(encoded: seq<Encoded>, names: seq<string>, start: nat): (fields: seq<Placed>)
    requires FieldCount(encoded) <= |names|
    ensures |fields| == FieldCount(encoded)
  {
    if encoded == [] then []
    else
      var init, last := encoded[..|encoded| - 1], encoded[|encoded| - 1];
      if Reserved(last) then Layout(init, names, start)
      else Layout(init, names, start) +
           [Placed(names[FieldCount(init)], TypeOfCode(last.typeCode), last.width, start + Total(init), Null)]
  }

  predicate WidthSupported(e: Encoded)
  {
    Reserved(e) || SupportedWidth(TypeOfCode(e.typeCode), e.width)
  }

  predicate WidthsSupported(encoded: seq<Encoded>)
  {
    forall i :: 0 <= i < |encoded| ==> WidthSupported(encoded[i])
  }

  /** The widths that the letters of an encoding allow. */
  predicate LegalWidth(e: Encoded)
  {
    && (e.typeCode == 'A' ==> e.width in {8, 112})
    && (e.typeCode == 'V' ==> e.width in {8, 16, 32, 64})
    && (e.typeCode == 'F' ==> e.width in {16, 32})
  }

  predicate LegalWidths(encoded: seq<Encoded>)
  {
    forall i :: 0 <= i < |encoded| ==> LegalWidth(encoded[i])
  }

  /** A parsed element has one of the seven letters, and B stands for single bits. */
  predicate WellCoded(e: Encoded)
  {
    e.typeCode in "BNAUVFr" && (e.typeCode == 'B' ==> e.width == 1)
  }

  lemma {:induction false} ParsedCodes(s: string)
    ensures Parse(s).Ok? ==> forall i :: 0 <= i < |Parse(s).value| ==> WellCoded(Parse(s).value[i])
    decreases |s|
  {
    if s != [] {
      if MatchesHere(s) {
        ParsedCodes(s[MatchLength(s)..]);
      } else {
        ParsedCodes(s[1..]);
      }
    }
  }

  lemma WidthsExactly(encoded: seq<Encoded>)
    requires forall i :: 0 <= i < |encoded| ==> WellCoded(encoded[i])
    ensures WidthsSupported(encoded) <==> LegalWidths(encoded)
  {
    assert forall i :: 0 <= i < |encoded| ==> (WidthSupported(encoded[i]) <==> LegalWidth(encoded[i]));
  }

  /** The layout part of TDptJsonBuilder.Create. */
  method Create(lib: Library, encodingStr: string, names: seq<string>) returns (r: Result<Datapoint>)
    requires Parse(encodingStr).Ok? ==>
               && FieldCount(Parse(encodingStr).value) <= |names|
               && Total(Parse(encodingStr).value) + 8 <= UINT32_LIMIT
    ensures r.Ok? <==> Parse(encodingStr).Ok? && LegalWidths(Parse(encodingStr).value)
    ensures match Parse(encodingStr)
            case Err(e) => r == Err(e)
            case Ok(encoded) => Compiles(lib, encoded, names, r) && (r.Ok? ==> fresh(r.value) && fresh(r.value.FieldObjects()))
  {
    var encodedFieldList :- ParseEncodingString(encodingStr);
    var sumSize := 0;
    for i := 0 to |encodedFieldList|
      invariant sumSize == Total(encodedFieldList[..i])
    {
      assert encodedFieldList[..i + 1][..i] == encodedFieldList[..i];
      sumSize := sumSize + encodedFieldList[i].width;
    }
    assert encodedFieldList[..|encodedFieldList|] == encodedFieldList;
    var shortPayload := sumSize <= SHORT_PAYLOAD_BITS;
    var bitPosition := if shortPayload then 8 - sumSize else 8;
    r := PlaceFields(lib, encodedFieldList, names, bitPosition);
    ParsedCodes(encodingStr);
    WidthsExactly(encodedFieldList);
  }

  /** The object that results, or the exception for an unsupported width. */
  ghost predicate Compiles(lib: Library, encoded: seq<Encoded>, names: seq<string>, r: Result<Datapoint>)
    requires FieldCount(encoded) <= |names|
    reads if r.Ok? then {r.value} else {}, if r.Ok? then r.value.FieldObjects() else {}
  {
    match r
    case Err(e) => e == FieldWidthUnsupported && !WidthsSupported(encoded)
    case Ok(dpt) =>
      && WidthsSupported(encoded)
      && dpt.Valid() && dpt.lib == lib
      && dpt.Fields() == Layout(encoded, names, FirstPosition(Total(encoded)))
  }

  /** The first i elements have been placed. */
  ghost predicate PlacedSoFar(dpt: Datapoint, encoded: seq<Encoded>, names: seq<string>, start: nat, i: nat)
    requires i <= |encoded| && FieldCount(encoded[..i]) <= |names|
    reads dpt, dpt.FieldObjects()
  {
    && dpt.Valid()
    && dpt.Fields() == Layout(encoded[..i], names, start)
    && forall j :: 0 <= j < i ==> WidthSupported(encoded[j])
  }

  /** The second loop of Create. */
  method PlaceFields(lib: Library, encoded: seq<Encoded>, names: seq<string>, start: nat) returns (r: Result<Datapoint>)
    requires FieldCount(encoded) <= |names| && start == FirstPosition(Total(encoded))
    requires Total(encoded) + 8 <= UINT32_LIMIT
    ensures Compiles(lib, encoded, names, r)
    ensures r.Ok? ==> fresh(r.value) && fresh(r.value.FieldObjects())
  {
    hide Layout, Total, FieldCount, SupportedWidth, PayloadSize, WellPlaced;
    var dptJson := new Datapoint(lib);
    NothingPlaced(encoded, names, start);
    var bitPosition := start;
    var jsonFieldIterator := 0;
    for i := 0 to |encoded|
      invariant fresh(dptJson) && fresh(dptJson.FieldObjects())
      invariant bitPosition == start + Total(encoded[..i])
      invariant jsonFieldIterator == FieldCount(encoded[..i]) <= |names|
      invariant PlacedSoFar(dptJson, encoded, names, start, i)
    {
      PrefixStep(encoded, i);
      var placed := PlaceElement(dptJson, encoded, names, start, i, jsonFieldIterator, bitPosition);
      if placed.Failed? {
        return Err(placed.error);
      }
      if encoded[i].typeCode != 'r' {
        jsonFieldIterator := jsonFieldIterator + 1;
      }
      bitPosition := bitPosition + encoded[i].width;
    }
    assert encoded[..|encoded|] == encoded;
    r := Ok(dptJson);
  }

  lemma NothingPlaced(encoded: seq<Encoded>, names: seq<string>, start: nat)
    ensures Total(encoded[..0]) == 0 && FieldCount(encoded[..0]) == 0 && Layout(encoded[..0], names, start) == []
  {
  }

  /** One round of that loop: a field for an element that is not reserved. */
  method PlaceElement(dptJson: Datapoint, encoded: seq<Encoded>, names: seq<string>, ghost start: nat,
                      i: nat, jsonFieldIterator: nat, bitPosition: nat) returns (r: Outcome)
    requires i < |encoded| && FieldCount(encoded[..i + 1]) <= |names|
    requires jsonFieldIterator == FieldCount(encoded[..i]) <= |names|
    requires bitPosition == start + Total(encoded[..i]) && 1 <= start
    requires bitPosition + encoded[i].width <= UINT32_LIMIT
    requires PlacedSoFar(dptJson, encoded, names, start, i)
    modifies dptJson
    ensures fresh(dptJson.FieldObjects() - old(dptJson.FieldObjects()))
    ensures r == Done ==> PlacedSoFar(dptJson, encoded, names, start, i + 1)
    ensures r.Failed? ==> r.error == FieldWidthUnsupported && !WidthSupported(encoded[i])
  {
    hide Layout, Total, FieldCount, SupportedWidth;
    LayoutStep(encoded, names, start, i);
    r := Done;
    if encoded[i].typeCode != 'r' {
      r := AddEncodedField(dptJson, encoded[i], names[jsonFieldIterator], bitPosition);
    }
  }

  lemma LayoutStep(encoded: seq<Encoded>, names: seq<string>, start: nat, i: nat)
    requires i < |encoded| && FieldCount(encoded[..i + 1]) <= |names|
    ensures FieldCount(encoded[..i + 1]) == FieldCount(encoded[..i]) + (if Reserved(encoded[i]) then 0 else 1)
    ensures Layout(encoded[..i + 1], names, start) ==
            if Reserved(encoded[i]) then Layout(encoded[..i], names, start)
            else Layout(encoded[..i], names, start) + [PlacedField(encoded, names, start, i)]
  {
    assert encoded[..i + 1][..i] == encoded[..i];
  }

  /** The field that the element at index i places. */
  function PlacedField(encoded: seq<Encoded>, names: seq<string>, start: nat, i: nat): Placed
    requires i < |encoded| && !Reserved(encoded[i]) && FieldCount(encoded[..i]) < |names|
  {
    Placed(names[FieldCount(encoded[..i])], TypeOfCode(encoded[i].typeCode), encoded[i].width,
           start + Total(encoded[..i]), Null)
  }

  method AddEncodedField(dptJson: Datapoint, e: Encoded, name: string, position: nat) returns (r: Outcome)
    requires dptJson.Valid() && !Reserved(e) && 1 <= position && position + e.width <= UINT32_LIMIT
    modifies dptJson
    ensures dptJson.Valid() && fresh(dptJson.FieldObjects() - old(dptJson.FieldObjects()))
    ensures r == if WidthSupported(e) then Done else Failed(FieldWidthUnsupported)
    ensures r == Done ==>
              dptJson.Fields() == old(dptJson.Fields()) + [Placed(name, TypeOfCode(e.typeCode), e.width, position, Null)]
  {
    ghost var before := dptJson.Fields();
    var field := JsonField.Create(dptJson.lib, name, TypeOfCode(e.typeCode), e.width);
    assert dptJson.Fields() == before;
    if field.Err? {
      return Failed(field.error);
    }
    dptJson.AddField(field.value, position);
    r := Done;
  }

  lemma PrefixStep(encoded: seq<Encoded>, i: nat)
    requires i < |encoded|
    ensures encoded[..i + 1][..i] == encoded[..i]
    ensures FieldCount(encoded[..i + 1]) == FieldCount(encoded[..i]) + (if Reserved(encoded[i]) then 0 else 1)
    ensures FieldCount(encoded[..i + 1]) <= FieldCount(encoded)
    ensures Total(encoded[..i + 1]) == Total(encoded[..i]) + encoded[i].width <= Total(encoded)
  {
    assert encoded[..i + 1][..i] == encoded[..i];
    PrefixBounds(encoded, i + 1);
  }

  lemma {:induction false} PrefixBounds(encoded: seq<Encoded>, i: nat)
    requires i <= |encoded|
    ensures FieldCount(encoded[..i]) <= FieldCount(encoded)
    ensures Total(encoded[..i]) <= Total(encoded)
  {
    if i < |encoded| {
      PrefixBounds(encoded[..|encoded| - 1], i);
      assert encoded[..|encoded| - 1][..i] == encoded[..i];
    } else {
      assert encoded[..i] == encoded;
    }
  }
}
