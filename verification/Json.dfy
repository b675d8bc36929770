/**
  JSON scalars as the datapoints see them. The text of a JSON document is not modelled; a
  structured value (array or object) only ever makes a conversion throw.
 */
module JsonValues {
  import opened Bits
  import opened Outcomes

  datatype Json =
    | Null
    | Boolean(b: bool)
    | Integer(i: int)
    | Number(r: real)
    | Text(chars: seq<byte>)
    | Structured

  /**
    What the JSON and floating-point code outside this repository computes: the text of a
    scalar, and the two conversions between a FLOAT field's raw word and its JSON value.
   */
  datatype Library = Library(
    scalarText: Json -> seq<byte>,
    wordOfFloat: (nat, Json) -> Result<nat>,
    floatOfWord: (nat, nat) -> Json)

  const UINT64_LIMIT: int := 0x1_0000_0000_0000_0000
  const INT64_LIMIT: int := 0x8000_0000_0000_0000

  function Truncate(r: real): int
  {
    if r >= 0.0 then r.Floor else -((-r).Floor)
  }

  function AsBool(v: Json): Result<bool>
  {
    match v
    case Null => Ok(false)
    case Boolean(b) => Ok(b)
    case Integer(i) => Ok(i != 0)
    case Number(r) => Ok(r != 0.0)
    case Text(_) => Err(JsonTypeMismatch)
    case Structured => Err(JsonTypeMismatch)
  }

  /** The integer a scalar converts to, when it lies in [low, high). */
  function AsInteger(v: Json, low: int, high: int): (r: Result<int>)
    requires low <= 0 && 1 < high
    ensures r.Ok? ==> low <= r.value < high
  {
    match v
    case Null => Ok(0)
    case Boolean(b) => Ok(if b then 1 else 0)
    case Integer(i) => if low <= i < high then Ok(i) else Err(JsonTypeMismatch)
    case Number(r) => if low as real <= r && r < high as real && low <= Truncate(r) < high
                      then Ok(Truncate(r)) else Err(JsonTypeMismatch)
    case Text(_) => Err(JsonTypeMismatch)
    case Structured => Err(JsonTypeMismatch)
  }

  function AsUInt64(v: Json): Result<int>
  {
    AsInteger(v, 0, UINT64_LIMIT)
  }

  function AsInt64(v: Json): Result<int>
  {
    AsInteger(v, -INT64_LIMIT, INT64_LIMIT)
  }

  function AsString(lib: Library, v: Json): Result<seq<byte>>
  {
    match v
    case Null => Ok([])
    case Text(chars) => Ok(chars)
    case Structured => Err(JsonTypeMismatch)
    case _ => Ok(lib.scalarText(v))
  }

  /** Fractions are cut off, towards zero. */
  lemma Truncated(r: real)
    ensures r >= 0.0 ==> Truncate(r) as real <= r < Truncate(r) as real + 1.0
    ensures r < 0.0 ==> Truncate(r) as real - 1.0 < r <= Truncate(r) as real
  {
  }

  /** Null counts as zero, truth values as zero and one, and whole numbers of the 64-bit ranges as themselves. */
  lemma ScalarsAsNumbers(i: int, b: bool)
    ensures AsUInt64(Null) == Ok(0) && AsInt64(Null) == Ok(0)
    ensures AsUInt64(Boolean(b)) == AsInt64(Boolean(b)) == Ok(if b then 1 else 0)
    ensures AsUInt64(Integer(i)) == if 0 <= i < 0x1_0000_0000_0000_0000 then Ok(i) else Err(JsonTypeMismatch)
    ensures AsInt64(Integer(i)) == if -0x8000_0000_0000_0000 <= i < 0x8000_0000_0000_0000 then Ok(i) else Err(JsonTypeMismatch)
    ensures AsBool(Boolean(b)) == Ok(b) && AsBool(Integer(i)) == Ok(i != 0) && AsBool(Null) == Ok(false)
  {
  }
}
