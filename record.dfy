/**
 * Records (section 2.1 of the SQLite database file format) as `Record::new`
 * in src/record.rs decodes them: a header-length varint, then serial-type
 * varints up to the header length, then the bodies of the fields in header
 * order. Every varint goes through `decode_varint` on a 9-byte slice, so a
 * header position less than 9 bytes from the end of the data is a panic of
 * the source; these are the `Panic` outcomes below.
 */
module Records {
  import opened Bytes
  import opened Errors
  import opened Utf8
  import opened Varint
  import opened Columns

  /** `Record { columns }`. */
  datatype Record = Record(columns: seq<Column>)

  /** Decoding a field of this type reads body bytes (and so can run past the end). */
  predicate ReadsBody(t: SerialType)
  {
    !(t.Null? || t.Zero? || t.One?)
  }

  /** `i` is in the two's-complement range of `n` bytes. */
  predicate InSigned(i: int, n: nat)
    requires n > 0
  {
    -Pow2(8 * n - 1) <= i < Pow2(8 * n - 1)
  }

  /** `i` is in the unsigned range of `n` bytes. */
  predicate InUnsigned(i: int, n: nat)
  {
    0 <= i < Pow2(8 * n)
  }

  /** The value `v` has the shape and range a field of type `t` decodes to. */
  predicate Fits(t: SerialType, v: SerialValue)
  {
    match t
    case Null => v.Null?
    case I8 => v.I8? && InSigned(v.i, 1)
    case I16 => v.I16? && InSigned(v.i, 2)
    case I24 => v.I24? && InUnsigned(v.i, 3)
    case I32 => v.I32? && InSigned(v.i, 4)
    case I48 => v.I48? && InUnsigned(v.i, 6)
    case I64 => v.I64? && InSigned(v.i, 8)
    case Float64 => v.Float64? && |v.bits| == 8
    case Zero => v.Zero?
    case One => v.One?
    case Blob(len) => v.Blob? && |v.bytes| == len
    case String(len) => v.String? && |v.text| == len && ValidUtf8(v.text)
  }

  /**
   * The value of a field of type `t` whose body starts at `data[at]`: the
   * `match &serial_type` of `Record::new`. I8, I16, I32 and I64 are big-endian
   * two's complement; I24 and I48 are read as `i32`/`i64` after prefixing zero
   * bytes, so they are never negative.
   */
  function DecodeValue(t: SerialType, data: seq<byte>, at: nat): (r: Result<SerialValue>)
    ensures r.Err? <==> (ReadsBody(t) && at + Length(t) > |data|)
                        || (t.String? && at + t.len <= |data| && !ValidUtf8(data[at..at + t.len]))
    ensures r.Err? ==> r.error == (if ReadsBody(t) && at + Length(t) > |data| then Panic else InvalidUtf8)
  {
    if !ReadsBody(t) then
      match t
      case Null => Ok(SerialValue.Null)
      case Zero => Ok(SerialValue.Zero)
      case One => Ok(SerialValue.One)
    else if at + Length(t) > |data| then Err(Panic)
    else
      var body := data[at..at + Length(t)];
      match t
      case I8 => Ok(SerialValue.I8(BeInt(body)))
      case I16 => Ok(SerialValue.I16(BeInt(body)))
      case I24 => Ok(SerialValue.I24(BeUint(body)))
      case I32 => Ok(SerialValue.I32(BeInt(body)))
      case I48 => Ok(SerialValue.I48(BeUint(body)))
      case I64 => Ok(SerialValue.I64(BeInt(body)))
      case Float64 => Ok(SerialValue.Float64(body))
      case Blob(_) => Ok(SerialValue.Blob(body))
      case String(_) => if ValidUtf8(body) then Ok(SerialValue.String(body)) else Err(InvalidUtf8)
  }

  /**
   * Every decoded value has its type's shape and range: two's-complement
   * ranges for I8, I16, I32 and I64, unsigned ones for the zero-extended I24
   * and I48, exactly `len` bytes for blobs and strings.
   */
  lemma DecodeValueFits(t: SerialType, data: seq<byte>, at: nat)
    requires DecodeValue(t, data, at).Ok?
    ensures Fits(t, DecodeValue(t, data, at).value)
  {
    if t.I8? || t.I16? || t.I32? || t.I64? {
      SignedFits(t, data, at);
    } else if t.I24? || t.I48? {
      UnsignedFits(t, data, at);
    }
  }

  lemma SignedFits(t: SerialType, data: seq<byte>, at: nat)
    requires t.I8? || t.I16? || t.I32? || t.I64?
    requires DecodeValue(t, data, at).Ok?
    ensures InSigned(DecodeValue(t, data, at).value.i, Length(t))
  {
    var body := data[at..at + Length(t)];
    assert DecodeValue(t, data, at).value.i == BeInt(body);
    BeIntRange(body);
  }

  lemma UnsignedFits(t: SerialType, data: seq<byte>, at: nat)
    requires t.I24? || t.I48?
    requires DecodeValue(t, data, at).Ok?
    ensures InUnsigned(DecodeValue(t, data, at).value.i, Length(t))
  {
    var body := data[at..at + Length(t)];
    assert DecodeValue(t, data, at).value.i == BeUint(body);
    BeUintBound(body);
  }

  /** The serial-type code of the header varint at `hi`. */
  function CodeAt(data: seq<byte>, hi: nat): int
    requires hi + 9 <= |data|
  {
    Varint8(data[hi..hi + 9]).0
  }

  /** The header position after the varint at `hi`. */
  function NextAt(data: seq<byte>, hi: nat): (n: nat)
    requires hi + 9 <= |data|
    ensures hi < n <= hi + 8
  {
    hi + Varint8(data[hi..hi + 9]).1
  }

  /**
   * The columns `Record::new` builds from header position `hi` (up to the
   * header length `hl`) and body position `di` on, as the loop interleaves
   * them: read a serial-type varint, decode the field it describes, advance
   * both cursors. The first failure, in that order, is the outcome.
   */
  function Walk(data: seq<byte>, hl: nat, hi: nat, di: nat): (r: Result<seq<Column>>)
    decreases hl - hi
  {
    if hi >= hl then Ok([])
    else if hi + 9 > |data| then Err(Panic)
    else
      match FieldAt(data, hi, di)
      case Err(e) => Err(e)
      case Ok(c) => Prefixed([c], Walk(data, hl, NextAt(data, hi), di + Length(c.key)))
  }

  /**
   * One field of the walk: the serial type named by the header varint at
   * `hi`, and the value its body at `di` decodes to.
   */
  function FieldAt(data: seq<byte>, hi: nat, di: nat): Result<Column>
    requires hi + 9 <= |data|
  {
    match ReadSerialType(CodeAt(data, hi))
    case Err(e) => Err(e)
    case Ok(t) =>
      match DecodeValue(t, data, di)
      case Err(e) => Err(e)
      case Ok(v) => Ok(Column(t, v))
  }

  /** What `Record::new(data)` returns, `Panic` standing for its panics. */
  function DecodeRecord(data: seq<byte>): Result<Record>
  {
    if |data| < 9 then Err(Panic)
    else
      var (hl, hlSize) := Varint8(data[0..9]);
      var columns :- Walk(data, hl, hlSize, hl);
      Ok(Record(columns))
  }

  /** `r` with the columns `c` in front of the ones it holds. */
  function Prefixed(c: seq<Column>, r: Result<seq<Column>>): Result<seq<Column>>
  {
    if r.Ok? then Ok(c + r.value) else r
  }

  lemma PrefixedStep(whole: Result<seq<Column>>, c: seq<Column>, w: Result<seq<Column>>, col: Column, r: Result<seq<Column>>)
    requires whole == Prefixed(c, w) && w == Prefixed([col], r)
    ensures whole == Prefixed(c + [col], r)
  {
    if r.Ok? {
      assert c + ([col] + r.value) == (c + [col]) + r.value;
    }
  }

  /** A walk that still has header left to read and no 9 bytes to read it from panics. */
  lemma WalkPanicsAtEnd(data: seq<byte>, hl: nat, hi: nat, di: nat, c: seq<Column>)
    requires hi < hl && !Panics(Prefixed(c, Walk(data, hl, hi, di)))
    ensures hi + 9 <= |data|
  {
  }

  /**
   * One pass of the loop body of `Record::new`: the serial-type varint at
   * `hi`, `SerialType::read` of it and the `match` that decodes the field at
   * `di`. The new header position comes with the column.
   */
  method ReadColumn(data: seq<byte>, hi: nat, di: nat) returns (r: Result<(Column, nat)>)
    requires hi + 9 <= |data|
    ensures r.Err? <==> FieldAt(data, hi, di).Err?
    ensures r.Err? ==> r.error == FieldAt(data, hi, di).error
    ensures r.Ok? ==> r.value == (FieldAt(data, hi, di).value, NextAt(data, hi))
  {
    var next := DecodeVarint(data[hi..hi + 9]);
    var (code, len) := next.value;
    var serialType := ReadSerialType(code);
    if serialType.Err? {
      return Err(serialType.error);
    }
    var value := DecodeValue(serialType.value, data, di);
    if value.Err? {
      return Err(value.error);
    }
    return Ok((Column(serialType.value, value.value), hi + len));
  }

  /** `Record::new`: the header-length varint, then the loop over the two cursors. */
  method NewRecord(data: seq<byte>) returns (r: Result<Record>)
    requires !Panics(DecodeRecord(data))
    ensures r == DecodeRecord(data)
  {
    DecodeRecordNeedsNine(data);
    var first := DecodeVarint(data[0..9]);
    var (headerLength, hlSize) := first.value;
    DecodeRecordIsWalk(data);
    var columns := ReadColumns(data, headerLength, hlSize, headerLength);
    if columns.Err? {
      return Err(columns.error);
    }
    return Ok(Record(columns.value));
  }

  /**
   * The `while header_index < header_length` loop of `Record::new`, from
   * header position `hi` and body position `di`.
   */
  method ReadColumns(data: seq<byte>, hl: nat, hi: nat, di: nat) returns (r: Result<seq<Column>>)
    requires !Panics(Walk(data, hl, hi, di))
    ensures r == Walk(data, hl, hi, di)
  {
    var headerIndex: nat := hi;
    var dataIndex: nat := di;
    var columns: seq<Column> := [];
    ghost var whole := Walk(data, hl, hi, di);
    if whole.Ok? {
      assert [] + whole.value == whole.value;
    }
    while headerIndex < hl
      invariant whole == Prefixed(columns, Walk(data, hl, headerIndex, dataIndex))
      decreases hl - headerIndex
    {
      var step := ReadStep(data, hl, headerIndex, dataIndex, whole, columns);
      if step.Err? {
        return Err(step.error);
      }
      columns, headerIndex, dataIndex := step.value.0, step.value.1, step.value.2;
    }
    assert Walk(data, hl, headerIndex, dataIndex) == Ok([]);
    assert columns + [] == columns;
    return Ok(columns);
  }

  /**
   * One pass of the loop body of `Record::new` on the columns built so far:
   * the error that ends the walk, or the columns with the new field appended
   * and the two advanced cursors.
   */
  method ReadStep(data: seq<byte>, hl: nat, hi: nat, di: nat, ghost whole: Result<seq<Column>>, columns: seq<Column>)
    returns (r: Result<(seq<Column>, nat, nat)>)
    requires hi < hl && !Panics(whole)
    requires whole == Prefixed(columns, Walk(data, hl, hi, di))
    ensures r.Err? ==> whole == Err(r.error)
    ensures r.Ok? ==> hi < r.value.1 && whole == Prefixed(r.value.0, Walk(data, hl, r.value.1, r.value.2))
  {
    WalkPanicsAtEnd(data, hl, hi, di, columns);
    var step := ReadColumn(data, hi, di);
    if step.Err? {
      ColumnsFail(data, hl, hi, di, whole, columns);
      return Err(step.error);
    }
    var (column, next) := step.value;
    var nextData: nat := di + Length(column.key);
    ColumnsStep(data, hl, hi, di, whole, columns, column, next);
    return Ok((columns + [column], next, nextData));
  }

  /** A field that fails ends the walk, whatever columns came before it, with its error. */
  lemma ColumnsFail(data: seq<byte>, hl: nat, hi: nat, di: nat, whole: Result<seq<Column>>, columns: seq<Column>)
    requires hi < hl && hi + 9 <= |data|
    requires whole == Prefixed(columns, Walk(data, hl, hi, di))
    requires FieldAt(data, hi, di).Err?
    ensures whole == Err(FieldAt(data, hi, di).error)
  {
    WalkField(data, hl, hi, di);
  }

  /** A decoded field joins the columns, and the walk goes on from the advanced cursors. */
  lemma ColumnsStep(data: seq<byte>, hl: nat, hi: nat, di: nat, whole: Result<seq<Column>>, columns: seq<Column>,
                    column: Column, next: nat)
    requires hi < hl && hi + 9 <= |data|
    requires whole == Prefixed(columns, Walk(data, hl, hi, di))
    requires FieldAt(data, hi, di) == Ok(column) && next == NextAt(data, hi)
    ensures whole == Prefixed(columns + [column], Walk(data, hl, next, di + Length(column.key)))
  {
    var rest := Walk(data, hl, next, di + Length(column.key));
    assert Walk(data, hl, hi, di) == Prefixed([column], rest);
    PrefixedStep(whole, columns, Walk(data, hl, hi, di), column, rest);
  }

  /** `Record::new` slices `data[0..9]` first, so shorter data panics. */
  lemma DecodeRecordNeedsNine(data: seq<byte>)
    requires !Panics(DecodeRecord(data))
    ensures |data| >= 9
  {
  }

  /** `DecodeRecord` is the walk from just after the header-length varint. */
  lemma DecodeRecordIsWalk(data: seq<byte>)
    requires |data| >= 9
    ensures var w := Walk(data, Varint8(data[0..9]).0, Varint8(data[0..9]).1, Varint8(data[0..9]).0);
      DecodeRecord(data) == (if w.Ok? then Ok(Record(w.value)) else Err(w.error))
  {
  }

  /**
   * One step of the walk: a failing field ends it with that field's error;
   * a decoded one is put in front of the walk from the next header varint
   * and the next body offset.
   */
  lemma WalkField(data: seq<byte>, hl: nat, hi: nat, di: nat)
    requires hi < hl && hi + 9 <= |data|
    ensures FieldAt(data, hi, di).Err? ==> Walk(data, hl, hi, di) == Err(FieldAt(data, hi, di).error)
    ensures FieldAt(data, hi, di).Ok? ==>
      Walk(data, hl, hi, di) ==
        Prefixed([FieldAt(data, hi, di).value], Walk(data, hl, NextAt(data, hi), di + Length(FieldAt(data, hi, di).value.key)))
  {
  }

  /**
   * A field fails exactly when its serial type is invalid or its value does
   * not decode, with that error; a decoded field has the type its code names
   * and the value decoded at `di`.
   */
  lemma FieldColumn(data: seq<byte>, hi: nat, di: nat)
    requires hi + 9 <= |data|
    ensures var t := ReadSerialType(CodeAt(data, hi));
      && (t.Err? ==> FieldAt(data, hi, di) == Err(t.error))
      && (t.Ok? && DecodeValue(t.value, data, di).Err? ==> FieldAt(data, hi, di) == Err(DecodeValue(t.value, data, di).error))
      && (FieldAt(data, hi, di).Ok? ==> ColumnAt(data, CodeAt(data, hi), di, FieldAt(data, hi, di).value))
  {
  }

  // ---------------------------------------------------------------------------
  // The shape of a decoded record.

  /** The serial-type codes of the header from position `hi` on, as far as they can be read. */
  function HeaderCodes(data: seq<byte>, hl: nat, hi: nat): seq<int>
    decreases hl - hi
  {
    if hi >= hl || hi + 9 > |data| then []
    else [CodeAt(data, hi)] + HeaderCodes(data, hl, NextAt(data, hi))
  }

  /**
   * Where the body of each of the columns `cs` starts, the first at `di`: each
   * next one starts where the previous one's `Length` ends.
   */
  function Starts(di: nat, cs: seq<Column>): (r: seq<nat>)
    ensures |r| == |cs|
    ensures |cs| > 0 ==> r[0] == di
    ensures forall k :: 0 <= k < |cs| - 1 ==> r[k + 1] == r[k] + Length(cs[k].key)
    decreases |cs|
  {
    if cs == [] then [] else [di] + Starts(di + Length(cs[0].key), cs[1..])
  }

  /** Column `c` is what the header code `code` and the body bytes at `at` decode to. */
  predicate ColumnAt(data: seq<byte>, code: int, at: nat, c: Column)
  {
    ReadSerialType(code) == Ok(c.key) && DecodeValue(c.key, data, at) == Ok(c.data)
  }

  /**
   * The columns `cols` follow the header codes `codes` one for one: each
   * column has the type its code names and the value decoded where its body
   * starts, the first at `di`, each next one after the previous one's body.
   */
  predicate Shaped(data: seq<byte>, codes: seq<int>, di: nat, cols: seq<Column>)
    decreases cols
  {
    if cols == [] then codes == []
    else codes != [] && ColumnAt(data, codes[0], di, cols[0]) && Shaped(data, codes[1..], di + Length(cols[0].key), cols[1..])
  }

  /**
   * A successful walk yields one column per serial-type varint of the
   * header, in header order, each decoded where the previous one's body
   * ends.
   */
  lemma {:induction false} WalkShape(data: seq<byte>, hl: nat, hi: nat, di: nat)
    requires Walk(data, hl, hi, di).Ok?
    ensures Shaped(data, HeaderCodes(data, hl, hi), di, Walk(data, hl, hi, di).value)
    decreases hl - hi
  {
    if hi < hl {
      var c, next, di' := WalkCons(data, hl, hi, di);
      WalkShape(data, hl, next, di');
      HeaderCodesCons(data, hl, hi);
      ShapeStep(data, CodeAt(data, hi), di, c, HeaderCodes(data, hl, next), Walk(data, hl, next, di').value);
    } else {
      assert Walk(data, hl, hi, di).value == [];
    }
  }

  /** The agreement of columns and codes extends by one column in front. */
  lemma ShapeStep(data: seq<byte>, code: int, di: nat, c: Column, codes: seq<int>, rest: seq<Column>)
    requires ColumnAt(data, code, di, c) && Shaped(data, codes, di + Length(c.key), rest)
    ensures Shaped(data, [code] + codes, di, [c] + rest)
  {
    assert ([c] + rest)[1..] == rest;
    assert ([code] + codes)[1..] == codes;
  }

  /** Matching columns and codes are equally many. */
  lemma {:induction false} ShapedLength(data: seq<byte>, codes: seq<int>, di: nat, cols: seq<Column>)
    requires Shaped(data, codes, di, cols)
    ensures |cols| == |codes|
    decreases cols
  {
    if cols != [] {
      ShapedLength(data, codes[1..], di + Length(cols[0].key), cols[1..]);
    }
  }

  /** Column k of matching columns is what code k decodes to at the start of its body. */
  lemma {:induction false} ShapedAt(data: seq<byte>, codes: seq<int>, di: nat, cols: seq<Column>, k: nat)
    requires Shaped(data, codes, di, cols) && k < |cols|
    ensures k < |codes| && ColumnAt(data, codes[k], Starts(di, cols)[k], cols[k])
    decreases k
  {
    if k > 0 {
      var di': nat := di + Length(cols[0].key);
      ShapedAt(data, codes[1..], di', cols[1..], k - 1);
      assert Starts(di, cols) == [di] + Starts(di', cols[1..]);
    }
  }

  /** The header codes from `hi` on: the one at `hi`, then those after it. */
  lemma HeaderCodesCons(data: seq<byte>, hl: nat, hi: nat)
    requires hi < hl && hi + 9 <= |data|
    ensures HeaderCodes(data, hl, hi) == [CodeAt(data, hi)] + HeaderCodes(data, hl, NextAt(data, hi))
  {
  }

  /**
   * One successful step of the walk: the column `c` the header code at `hi`
   * decodes to at `di`, then a successful walk from the advanced cursors
   * `next` and `di'`.
   */
  lemma WalkCons(data: seq<byte>, hl: nat, hi: nat, di: nat) returns (c: Column, next: nat, di': nat)
    requires hi < hl && Walk(data, hl, hi, di).Ok?
    ensures hi + 9 <= |data| && next == NextAt(data, hi) && di' == di + Length(c.key)
    ensures ColumnAt(data, CodeAt(data, hi), di, c)
    ensures Walk(data, hl, next, di').Ok? && Walk(data, hl, hi, di).value == [c] + Walk(data, hl, next, di').value
  {
    WalkField(data, hl, hi, di);
    FieldColumn(data, hi, di);
    var field := FieldAt(data, hi, di);
    assert field.Ok?;
    c, next := field.value, NextAt(data, hi);
    di' := di + Length(c.key);
    var rest := Walk(data, hl, next, di');
    assert Walk(data, hl, hi, di) == Prefixed([c], rest);
  }

  /**
   * The decoded record: its columns follow the header's serial-type codes
   * one for one, and the body of column k starts at the header length plus
   * the lengths of columns 0..k-1.
   */
  lemma RecordShape(data: seq<byte>)
    requires DecodeRecord(data).Ok?
    ensures |data| >= 9
    ensures var hl := Varint8(data[0..9]).0;
      var cols := DecodeRecord(data).value.columns; var codes := HeaderCodes(data, hl, Varint8(data[0..9]).1);
      && |cols| == |codes|
      && forall k :: 0 <= k < |cols| ==> ColumnAt(data, codes[k], Starts(hl, cols)[k], cols[k])
  {
    var (hl, hlSize) := Varint8(data[0..9]);
    var cols := DecodeRecord(data).value.columns;
    var codes := HeaderCodes(data, hl, hlSize);
    WalkShape(data, hl, hlSize, hl);
    ShapedLength(data, codes, hl, cols);
    forall k | 0 <= k < |cols|
      ensures ColumnAt(data, codes[k], Starts(hl, cols)[k], cols[k])
    {
      ShapedAt(data, codes, hl, cols, k);
    }
  }

  /** One invalid serial-type code anywhere in the header makes the whole decode fail. */
  lemma InvalidCodeFails(data: seq<byte>, k: nat)
    requires |data| >= 9
    requires var codes := HeaderCodes(data, Varint8(data[0..9]).0, Varint8(data[0..9]).1);
      k < |codes| && ReadSerialType(codes[k]).Err?
    ensures DecodeRecord(data).Err?
  {
    if DecodeRecord(data).Ok? {
      RecordShape(data);
    }
  }

  /** A header that ends where its length varint does declares no columns. */
  lemma EmptyHeader(data: seq<byte>)
    requires |data| >= 9 && Varint8(data[0..9]).0 <= Varint8(data[0..9]).1
    ensures DecodeRecord(data) == Ok(Record([]))
  {
  }

  /** Integers of 1, 2, 4 and 8 bytes are two's complement: writing `v` and decoding gives `v` back. */
  lemma SignedRoundTrip(t: SerialType, v: int)
    requires t.I8? || t.I16? || t.I32? || t.I64?
    requires -Pow2(8 * Length(t) - 1) <= v < Pow2(8 * Length(t) - 1)
    ensures var n := Length(t);
      var body := BeBytes(if v >= 0 then v else v + Pow2(8 * n), n);
      DecodeValue(t, body, 0).Ok? && DecodeValue(t, body, 0).value.i == v
  {
    var n := Length(t);
    var body := BeBytes(if v >= 0 then v else v + Pow2(8 * n), n);
    assert body[0..n] == body;
    BeIntOfTwosComplement(v, n);
  }

  /** I24 and I48 are zero-extended: every bit pattern reads back as its unsigned value. */
  lemma UnsignedRoundTrip(t: SerialType, v: nat)
    requires t.I24? || t.I48?
    requires v < Pow2(8 * Length(t))
    ensures var body := BeBytes(v, Length(t));
      DecodeValue(t, body, 0).Ok? && DecodeValue(t, body, 0).value.i == v
  {
    var n := Length(t);
    var body := BeBytes(v, n);
    assert body[0..n] == body;
    BeUintOfBeBytes(v, n);
  }
}
