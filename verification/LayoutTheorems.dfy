/**
  What a compiled layout guarantees to the packing loops and to the frame codec: fields in order,
  disjoint, separated exactly by the reserved widths, past bit 1, within the bounds of a telegram.
 */
module LayoutTheorems {
  import opened Bits
  import opened JsonValues
  import opened DptJsonField
  import opened DptJson
  import opened DptJsonTheorems
  import opened DptJsonBuilder
  import opened Outcomes

  function Compiled(encoded: seq<Encoded>, names: seq<string>): seq<Placed>
    requires FieldCount(encoded) <= |names|
  {
    Layout(encoded, names, FirstPosition(Total(encoded)))
  }

  // ---- Positions ----

  lemma {:induction false} TotalSplit(encoded: seq<Encoded>, i: nat)
    requires i <= |encoded|
    ensures Total(encoded) == Total(encoded[..i]) + Total(encoded[i..])
  {
    if i == |encoded| {
      assert encoded[..i] == encoded && encoded[i..] == [];
    } else {
      var n := |encoded| - 1;
      TotalSplit(encoded[..n], i);
      assert encoded[..n][..i] == encoded[..i];
      assert encoded[i..][..n - i] == encoded[..n][i..];
    }
  }

  /** Each element that is not reserved places one field, at the width of everything before it. */
  lemma {:induction false} FieldPosition(encoded: seq<Encoded>, names: seq<string>, start: nat, i: nat)
    requires FieldCount(encoded) <= |names| && i < |encoded| && !Reserved(encoded[i])
    ensures FieldCount(encoded[..i]) < FieldCount(encoded)
    ensures Layout(encoded, names, start)[FieldCount(encoded[..i])] == PlacedField(encoded, names, start, i)
  {
    var n := |encoded| - 1;
    if i < n {
      FieldPosition(encoded[..n], names, start, i);
      assert encoded[..n][..i] == encoded[..i];
    }
  }

  /** The gap between two fields is the total width of the elements between them. */
  lemma FieldSeparation(encoded: seq<Encoded>, names: seq<string>, start: nat, i: nat, j: nat)
    requires FieldCount(encoded) <= |names| && i < j < |encoded|
    requires !Reserved(encoded[i]) && !Reserved(encoded[j])
    ensures FieldCount(encoded[..i]) < FieldCount(encoded[..j]) < FieldCount(encoded)
    ensures var fields := Layout(encoded, names, start);
            var f, g := fields[FieldCount(encoded[..i])], fields[FieldCount(encoded[..j])];
            g.begin == f.begin + f.width + Total(encoded[i + 1..j])
  {
    FieldPosition(encoded, names, start, i);
    FieldPosition(encoded, names, start, j);
    PrefixStep(encoded, i);
    PrefixBounds(encoded[..j], i + 1);
    assert encoded[..j][..i + 1] == encoded[..i + 1];
    TotalSplit(encoded[..j], i + 1);
    assert encoded[..j][i + 1..] == encoded[i + 1..j];
  }

  predicate Ordered(fields: seq<Placed>)
  {
    forall j, k :: 0 <= j < k < |fields| ==> fields[j].begin + fields[j].width <= fields[k].begin
  }

  predicate Within(fields: seq<Placed>, low: nat, high: nat)
  {
    forall k :: 0 <= k < |fields| ==> low <= fields[k].begin && fields[k].begin + fields[k].width <= high
  }

  lemma {:induction false} LayoutOrdered(encoded: seq<Encoded>, names: seq<string>, start: nat)
    requires FieldCount(encoded) <= |names|
    ensures Ordered(Layout(encoded, names, start))
    ensures Within(Layout(encoded, names, start), start, start + Total(encoded))
  {
    if encoded != [] {
      LayoutOrdered(encoded[..|encoded| - 1], names, start);
    }
  }

  lemma {:induction false} LayoutWidths(encoded: seq<Encoded>, names: seq<string>, start: nat)
    requires FieldCount(encoded) <= |names| && WidthsSupported(encoded)
    ensures forall k :: 0 <= k < FieldCount(encoded) ==>
              var f := Layout(encoded, names, start)[k]; SupportedWidth(f.fieldType, f.width)
  {
    if encoded != [] {
      LayoutWidths(encoded[..|encoded| - 1], names, start);
    }
  }

  /**
    A compiled layout is ordered and disjoint and starts at bit 2 or later, so the descending
    loops of both directions end and stay inside the payload.
   */
  lemma CompiledLayout(encoded: seq<Encoded>, names: seq<string>)
    requires FieldCount(encoded) <= |names| && WidthsSupported(encoded) && Total(encoded) + 8 <= UINT32_LIMIT
    ensures var fields := Compiled(encoded, names);
            && Ordered(fields) && Disjoint(fields) && AllWellPlaced(fields)
            && Within(fields, 2, 8 + Total(encoded))
            && (if Total(encoded) <= SHORT_PAYLOAD_BITS then Within(fields, 8 - Total(encoded), 8)
                else Within(fields, 8, 8 + Total(encoded)))
  {
    var start := FirstPosition(Total(encoded));
    LayoutOrdered(encoded, names, start);
    LayoutWidths(encoded, names, start);
  }

  // ---- Payload size ----

  lemma {:induction false} SizeWithin(fields: seq<Placed>, high: nat)
    requires AllWellPlaced(fields) && Within(fields, 1, high)
    ensures PayloadSize(fields) <= (high + 7) / 8
    ensures fields != [] ==> PayloadSize(fields) >= 1
  {
    if fields != [] {
      SizeWithin(fields[..|fields| - 1], high);
    }
  }

  /** A layout of at most 112 bits fills a payload that a telegram can carry. */
  lemma CompiledSize(encoded: seq<Encoded>, names: seq<string>)
    requires FieldCount(encoded) <= |names| && WidthsSupported(encoded) && Total(encoded) <= RAW_BITS
    ensures AllWellPlaced(Compiled(encoded, names))
    ensures PayloadSize(Compiled(encoded, names)) <= 15
    ensures FieldCount(encoded) >= 1 ==> PayloadSize(Compiled(encoded, names)) >= 1
  {
    CompiledLayout(encoded, names);
    SizeWithin(Compiled(encoded, names), 8 + Total(encoded));
  }

  /** The two most significant bits of the first octet stay clear, so masking them loses nothing. */
  lemma FirstOctetSixBits(lib: Library, fields: seq<Placed>, payload: seq<byte>)
    requires AllWellPlaced(fields) && IsPacked(lib, fields, payload) && |payload| >= 1
    requires Within(fields, 2, UINT32_LIMIT)
    ensures payload[0] & 0x3F == payload[0]
  {
    assert BitAt(payload, 0) == PackedBit(lib, fields, 0);
    assert BitAt(payload, 1) == PackedBit(lib, fields, 1);
    TopBitsClear(payload[0]);
  }

  lemma TopBitsClear(b: byte)
    requires !Bit(b, 0) && !Bit(b, 1)
    ensures b & 0x3F == b
  {
    MaskTable();
  }

  /** The elements up to the last one that is not reserved. */
  function BodyLength(encoded: seq<Encoded>): (n: nat)
    ensures n <= |encoded|
  {
    if encoded == [] then 0
    else if Reserved(encoded[|encoded| - 1]) then BodyLength(encoded[..|encoded| - 1])
    else |encoded|
  }

  lemma {:induction false} LayoutOfBody(encoded: seq<Encoded>, names: seq<string>, start: nat)
    requires FieldCount(encoded) <= |names|
    ensures var body := encoded[..BodyLength(encoded)];
            FieldCount(body) == FieldCount(encoded) && Layout(body, names, start) == Layout(encoded, names, start)
  {
    if encoded == [] || !Reserved(encoded[|encoded| - 1]) {
      assert encoded[..|encoded|] == encoded;
    } else {
      var init := encoded[..|encoded| - 1];
      LayoutOfBody(init, names, start);
      assert init[..BodyLength(init)] == encoded[..BodyLength(encoded)];
    }
  }

  lemma SizeOfOrdered(fields: seq<Placed>)
    requires AllWellPlaced(fields) && Ordered(fields) && fields != []
    ensures var last := fields[|fields| - 1];
            PayloadSize(fields) == LastOctet(last.begin, last.width)
  {
    var n := |fields| - 1;
    var init, last := fields[..n], fields[n];
    assert Within(init, 1, last.begin) by {
      assert forall j :: 0 <= j < n ==> fields[j].begin + fields[j].width <= fields[n].begin && WellPlaced(fields[j]);
    }
    SizeWithin(init, last.begin);
  }

  lemma {:induction false} BodyBounds(encoded: seq<Encoded>)
    requires FieldCount(encoded) >= 1
    requires forall k :: 0 <= k < |encoded| ==> encoded[k].width >= 1
    ensures 1 <= Total(encoded[..BodyLength(encoded)]) <= Total(encoded)
  {
    var body := encoded[..BodyLength(encoded)];
    BodyEndsInField(encoded);
    PrefixBounds(encoded, BodyLength(encoded));
    assert body[|body| - 1] == encoded[|body| - 1];
  }

  lemma {:induction false} SizeOfBody(body: seq<Encoded>, names: seq<string>, start: nat)
    requires FieldCount(body) <= |names| && body != [] && !Reserved(body[|body| - 1])
    requires AllWellPlaced(Layout(body, names, start)) && start >= 1
    ensures PayloadSize(Layout(body, names, start)) == LastOctet(start, Total(body))
  {
    LayoutOrdered(body, names, start);
    SizeOfOrdered(Layout(body, names, start));
  }

  /** The payload ends with the octet that holds the last field's last bit. */
  lemma {:induction false} CompiledExtent(encoded: seq<Encoded>, names: seq<string>)
    requires FieldCount(encoded) <= |names| && WidthsSupported(encoded) && Total(encoded) + 8 <= UINT32_LIMIT
    requires FieldCount(encoded) >= 1
    ensures AllWellPlaced(Compiled(encoded, names))
    ensures PayloadSize(Compiled(encoded, names))
            == LastOctet(FirstPosition(Total(encoded)), Total(encoded[..BodyLength(encoded)]))
  {
    var start := FirstPosition(Total(encoded));
    CompiledLayout(encoded, names);
    LayoutOfBody(encoded, names, start);
    BodyEndsInField(encoded);
    SizeOfBody(encoded[..BodyLength(encoded)], names, start);
  }

  lemma {:induction false} BodyEndsInField(encoded: seq<Encoded>)
    requires FieldCount(encoded) >= 1
    ensures BodyLength(encoded) >= 1 && !Reserved(encoded[BodyLength(encoded) - 1])
  {
    if Reserved(encoded[|encoded| - 1]) {
      BodyEndsInField(encoded[..|encoded| - 1]);
    }
  }

  /**
    The payload spans every bit of the encoding if and only if the reserved bits after the last
    field fit in that field's last octet.
   */
  lemma {:induction false} PayloadSpansEncoding(encoded: seq<Encoded>, names: seq<string>)
    requires FieldCount(encoded) <= |names| && WidthsSupported(encoded) && Total(encoded) + 8 <= UINT32_LIMIT
    requires FieldCount(encoded) >= 1
    requires forall k :: 0 <= k < |encoded| ==> encoded[k].width >= 1
    ensures AllWellPlaced(Compiled(encoded, names))
    ensures var start := FirstPosition(Total(encoded));
            var used := Total(encoded[..BodyLength(encoded)]);
            var trailing := Total(encoded[BodyLength(encoded)..]);
            PayloadSize(Compiled(encoded, names)) == LastOctet(start, Total(encoded)) <==>
            trailing <= 7 - (start + used - 1) % 8
  {
    CompiledExtent(encoded, names);
    BodyBounds(encoded);
    TotalSplit(encoded, BodyLength(encoded));
  }

  /** "U8r8" describes two octets after the blank one; its datapoint has room for one. */
  lemma TrailingReservedOctetLost()
    ensures Parse("U8r8") == Ok([Encoded('U', 8), Encoded('r', 8)])
    ensures var fields := Compiled([Encoded('U', 8), Encoded('r', 8)], ["a"]);
            AllWellPlaced(fields) && PayloadSize(fields) == 2 && LastOctet(8, 16) == 3
  {
    var ws := [Written("", 'U', 8), Written("", 'r', 8)];
    ParseRendered(ws);
    assert Rendered([]) == "";
    assert Rendered([Written("", 'r', 8)]) == "r8";
    assert ws[1..] == [Written("", 'r', 8)];
    assert Rendered(ws) == "U8r8";
    assert AllExpanded([Written("", 'r', 8)]) == [Encoded('r', 8)];
    assert AllExpanded(ws) == [Encoded('U', 8), Encoded('r', 8)];
    var encoded := [Encoded('U', 8), Encoded('r', 8)];
    assert encoded[..1] == [Encoded('U', 8)] && encoded[..1][..0] == [];
    assert Total(encoded[..1]) == 8 && Total(encoded) == 16;
    assert FieldCount(encoded[..1]) == 1;
    assert Layout(encoded[..1], ["a"], 8) == [Placed("a", UNSIGNED_INT, 8, 8, Null)];
  }
}
