/**
 * Serial types (section 2.1 of the SQLite database file format), the values
 * a record stores, and columns pairing the two (src/column.rs).
 */
module Columns {
  import opened Bytes
  import opened Errors

  /** The type of a record field, as coded in the record header. */
  datatype SerialType =
    | Null
    | I8
    | I16
    | I24
    | I32
    | I48
    | I64
    | Float64
    | Zero
    | One
    | Blob(len: nat)
    | String(len: nat)

  /**
   * A decoded field. Floats keep their 8 raw big-endian bytes; strings keep
   * their bytes, which `Record::new` has checked to be UTF-8.
   */
  datatype SerialValue =
    | Null
    | I8(i: int)
    | I16(i: int)
    | I24(i: int)
    | I32(i: int)
    | I48(i: int)
    | I64(i: int)
    | Float64(bits: seq<byte>)
    | Zero
    | One
    | Blob(bytes: seq<byte>)
    | String(text: seq<byte>)

  /** `Column::new(key, data)`; `key()` and `data()` are the field selectors. */
  datatype Column = Column(key: SerialType, data: SerialValue)

  /** `SerialType::read`: the serial type a header code stands for. */
  function ReadSerialType(code: int): (r: Result<SerialType>)
    ensures r.Err? <==> code < 0 || code == 10 || code == 11
    ensures r.Err? ==> r.error == InvalidSerialType(code)
    ensures r.Ok? && code >= 12 ==>
      (if code % 2 == 0 then r.value == SerialType.Blob((code - 12) / 2) else r.value == SerialType.String((code - 13) / 2))
  {
    match code
    case 0 => Ok(SerialType.Null)
    case 1 => Ok(SerialType.I8)
    case 2 => Ok(SerialType.I16)
    case 3 => Ok(SerialType.I24)
    case 4 => Ok(SerialType.I32)
    case 5 => Ok(SerialType.I48)
    case 6 => Ok(SerialType.I64)
    case 7 => Ok(SerialType.Float64)
    case 8 => Ok(SerialType.Zero)
    case 9 => Ok(SerialType.One)
    case _ =>
      if code >= 12 then
        if code % 2 == 0 then Ok(SerialType.Blob((code - 12) / 2)) else Ok(SerialType.String((code - 13) / 2))
      else Err(InvalidSerialType(code))
  }

  /** `SerialType::length`: how many body bytes a field of this type occupies. */
  function Length(t: SerialType): (n: nat)
    ensures t.Blob? || t.String? ==> n == t.len
    ensures !(t.Blob? || t.String?) ==> n <= 8
  {
    match t
    case Null => 0
    case I8 => 1
    case I16 => 2
    case I24 => 3
    case I32 => 4
    case I48 => 6
    case I64 => 8
    case Float64 => 8
    case Zero => 0
    case One => 0
    case Blob(len) => len
    case String(len) => len
  }

  /** The header code of a serial type: the inverse of `ReadSerialType`. */
  function Code(t: SerialType): (c: nat)
    ensures c != 10 && c != 11
  {
    match t
    case Null => 0
    case I8 => 1
    case I16 => 2
    case I24 => 3
    case I32 => 4
    case I48 => 5
    case I64 => 6
    case Float64 => 7
    case Zero => 8
    case One => 9
    case Blob(len) => 12 + 2 * len
    case String(len) => 13 + 2 * len
  }

  /** Every serial type is read back from its code. */
  lemma ReadCode(t: SerialType)
    ensures ReadSerialType(Code(t)) == Ok(t)
  {
  }

  /** Every code that reads as a serial type is that type's code. */
  lemma CodeOfRead(code: int)
    requires ReadSerialType(code).Ok?
    ensures Code(ReadSerialType(code).value) == code
  {
  }

  /** The codes 0 through 9 name the ten fixed-width types, in this order. */
  lemma FixedCodes()
    ensures ReadSerialType(0) == Ok(SerialType.Null) && ReadSerialType(1) == Ok(SerialType.I8)
    ensures ReadSerialType(2) == Ok(SerialType.I16) && ReadSerialType(3) == Ok(SerialType.I24)
    ensures ReadSerialType(4) == Ok(SerialType.I32) && ReadSerialType(5) == Ok(SerialType.I48)
    ensures ReadSerialType(6) == Ok(SerialType.I64) && ReadSerialType(7) == Ok(SerialType.Float64)
    ensures ReadSerialType(8) == Ok(SerialType.Zero) && ReadSerialType(9) == Ok(SerialType.One)
  {
  }

  /** The widths of the ten fixed-width types. */
  lemma FixedLengths()
    ensures Length(SerialType.Null) == 0 && Length(SerialType.I8) == 1 && Length(SerialType.I16) == 2
    ensures Length(SerialType.I24) == 3 && Length(SerialType.I32) == 4 && Length(SerialType.I48) == 6
    ensures Length(SerialType.I64) == 8 && Length(SerialType.Float64) == 8
    ensures Length(SerialType.Zero) == 0 && Length(SerialType.One) == 0
  {
  }

  /** For a blob or string code `n`, the body holds `(n - 12 - n % 2) / 2` bytes. */
  lemma LengthOfVariableCode(n: int)
    requires n >= 12
    ensures ReadSerialType(n).Ok? && Length(ReadSerialType(n).value) == (n - 12 - n % 2) / 2
  {
  }
}
