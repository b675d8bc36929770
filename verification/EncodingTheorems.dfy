/**
  What each element of an encoding string stands for: which letters and widths are accepted, which
  name and bits each element gets, and what those bits are read as.
 */
module EncodingTheorems {
  import opened Bits
  import opened Digits
  import opened Outcomes
  import opened JsonValues
  import opened DptJsonField
  import opened DptJson
  import opened DptJsonTheorems
  import opened DptJsonBuilder
  import opened LayoutTheorems

  // ---- Names and positions ----

  /** Elements that are not reserved take the names in turn. */
  lemma {:induction false} NamesInTurn(encoded: seq<Encoded>, i: nat)
    requires i <= |encoded|
    ensures FieldCount(encoded[..i]) == |set j | 0 <= j < i && encoded[j].typeCode != 'r'|
  {
    if i > 0 {
      NamesInTurn(encoded, i - 1);
      assert encoded[..i][..i - 1] == encoded[..i - 1];
      var before := set j | 0 <= j < i - 1 && encoded[j].typeCode != 'r';
      var after := set j | 0 <= j < i && encoded[j].typeCode != 'r';
      assert after == if encoded[i - 1].typeCode != 'r' then before + {i - 1} else before;
    }
  }

  /** The first bit of an element: right-aligned in the first octet up to six bits, from the second octet otherwise. */
  function ElementBegin(encoded: seq<Encoded>, i: nat): nat
    requires i <= |encoded|
  {
    (if Total(encoded) <= 6 then 8 - Total(encoded) else 8) + Total(encoded[..i])
  }

  lemma TotalOfOne(e: Encoded)
    ensures Total([]) == 0 && Total([e]) == e.width
  {
    assert [e][..0] == [];
  }

  // ---- Values ----

  /** What the bits from `begin` on mean for an element of this letter and width. */
  predicate Means(lib: Library, e: Encoded, payload: seq<byte>, begin: nat, r: Result<Json>)
    requires begin + e.width <= 8 * |payload| && WellCoded(e) && LegalWidth(e)
  {
    var number := BinaryNumber(payload, begin, e.width);
    match e.typeCode
    case 'B' => r == Ok(Boolean(BitAt(payload, begin)))
    case 'V' =>
      && r.Ok? && r.value.Integer?
      && 0 - Pow2(e.width - 1) <= r.value.i < Pow2(e.width - 1)
      && r.value.i % Pow2(e.width) == number
    case 'A' => r == Ok(Text(if e.width == 8 then [ByteOfNat(OctetFrom(payload, begin))]
                             else NonZero(OctetsFrom(payload, begin))))
    case 'F' => r == Ok(lib.floatOfWord(e.width, number))
    case _ => e.width <= 64 ==> r == Ok(Integer(number))
  }

  lemma PlacedMeans(lib: Library, e: Encoded, f: Placed, payload: seq<byte>)
    requires WellCoded(e) && LegalWidth(e) && e.typeCode != 'r'
    requires f.fieldType == TypeOfCode(e.typeCode) && f.width == e.width && FitsPayload(f, |payload|)
    ensures Means(lib, e, payload, f.begin, ReadField(lib, f, payload))
  {
    hide BinaryNumber, ReadField, OctetFrom, OctetsFrom, Pow2;
    match e.typeCode
    case 'B' => BitFieldReads(lib, f, payload);
    case 'V' => IntegerFieldReads(lib, f, payload);
    case 'A' =>
      if e.width == 8 {
        CharFieldReads(lib, f, payload);
      } else {
        StringFieldReads(lib, f, payload);
      }
    case 'F' => FloatFieldReads(lib, f, payload);
    case _ =>
      if e.width <= 64 {
        NumberFieldReads(lib, f, payload);
      }
  }

  /**
    In a compiled layout the element at index i is the field with the next name; it occupies the
    element's width after everything before it, and is read as its letter says.
   */
  lemma ElementMeaning(lib: Library, encoded: seq<Encoded>, names: seq<string>, i: nat, value: Json, payload: seq<byte>)
    requires FieldCount(encoded) <= |names| && i < |encoded| && encoded[i].typeCode != 'r'
    requires WellCoded(encoded[i]) && LegalWidth(encoded[i])
    requires 1 <= ElementBegin(encoded, i) && ElementBegin(encoded, i) + encoded[i].width <= 8 * |payload| <= DptJson.UINT32_LIMIT
    ensures FieldCount(encoded[..i]) < |Compiled(encoded, names)|
    ensures |set j | 0 <= j < i && encoded[j].typeCode != 'r'| < |names|
    ensures var f := Compiled(encoded, names)[FieldCount(encoded[..i])];
            && f.name == names[|set j | 0 <= j < i && encoded[j].typeCode != 'r'|]
            && f.begin == ElementBegin(encoded, i) && f.width == encoded[i].width
            && FitsPayload(f.(value := value), |payload|)
            && Means(lib, encoded[i], payload, f.begin, ReadField(lib, f.(value := value), payload))
  {
    hide Means;
    FieldPosition(encoded, names, FirstPosition(Total(encoded)), i);
    NamesInTurn(encoded, i);
    var f := Compiled(encoded, names)[FieldCount(encoded[..i])];
    PlacedMeans(lib, encoded[i], f.(value := value), payload);
  }

  // ---- The notation ----

  lemma OneElement(text: string, typeCode: char, size: nat, digits: string, rest: string,
                   elements: seq<Encoded>, after: seq<Encoded>)
    requires IsTypeCode(typeCode) && size < 100 && (rest == "" || IsTypeCode(rest[0]))
    requires digits == if size < 10 then [DigitChar(size)] else [DigitChar(size / 10), DigitChar(size % 10)]
    requires text == [typeCode] + digits + rest
    requires elements == (if typeCode == 'B' then seq(size, _ => Encoded('B', 1)) else [Encoded(typeCode, size)]) + after
    requires Parse(rest) == Ok(after)
    ensures Parse(text) == Ok(elements)
  {
    hide Parse;
    assert DigitsOfNat(size) == digits;
    ParseElement(typeCode, size, rest);
  }

  lemma NothingParsed()
    ensures Parse("") == Ok([])
  {
  }

  const LETTERS: seq<Encoded> := [
    Encoded('B', 1), Encoded('B', 1), Encoded('N', 3), Encoded('A', 8),
    Encoded('U', 5), Encoded('V', 16), Encoded('F', 32), Encoded('r', 1)]

  lemma LastLetters()
    ensures Parse("V16F32r1") == Ok(LETTERS[5..])
  {
    hide Parse, IsTypeCode;
    TypeCodes();
    NothingParsed();
    OneElement("r1", 'r', 1, "1", "", LETTERS[7..], []);
    OneElement("F32r1", 'F', 32, "32", "r1", LETTERS[6..], LETTERS[7..]);
    OneElement("V16F32r1", 'V', 16, "16", "F32r1", LETTERS[5..], LETTERS[6..]);
  }

  lemma MiddleLetters()
    ensures Parse("A8U5V16F32r1") == Ok(LETTERS[3..])
  {
    hide Parse, IsTypeCode;
    TypeCodes();
    LastLetters();
    OneElement("U5V16F32r1", 'U', 5, "5", "V16F32r1", LETTERS[4..], LETTERS[5..]);
    OneElement("A8U5V16F32r1", 'A', 8, "8", "U5V16F32r1", LETTERS[3..], LETTERS[4..]);
  }

  /** Every letter once: B stands for its number of single bits, the others for one element. */
  lemma AllLetters()
    ensures Parse("B2N3A8U5V16F32r1") == Ok(LETTERS)
  {
    hide Parse, IsTypeCode;
    TypeCodes();
    MiddleLetters();
    OneElement("N3A8U5V16F32r1", 'N', 3, "3", "A8U5V16F32r1", LETTERS[2..], LETTERS[3..]);
    OneElement("B2N3A8U5V16F32r1", 'B', 2, "2", "N3A8U5V16F32r1", LETTERS, LETTERS[2..]);
  }

  lemma TypeCodes()
    ensures forall c :: c in "BNAUVFr" ==> IsTypeCode(c)
  {
  }
}
