/**
 * Leaf-table b-tree cells (section 1.6 of the SQLite database file format)
 * as `Cell::from_bytes` in src/cell.rs parses them: the payload-size varint,
 * the rowid varint, then a record of exactly that many payload bytes. Each
 * varint is read by `decode_varint` on a 9-byte slice, so a cell whose
 * varints start less than 9 bytes from the end panics (`Panic`).
 */
module Cells {
  import opened Bytes
  import opened Errors
  import opened Varint
  import opened Records

  /** `Cell { npayload, rowid, record }`; `record()` is the `record` selector. */
  datatype Cell = Cell(npayload: int, rowid: int, record: Record)

  /**
   * `Cell::from_bytes(bytes)`. A decoded cell's payload lies inside the
   * bytes, after the two varints of at least one byte each.
   */
  function CellFromBytes(bytes: seq<byte>): (r: Result<Cell>)
    ensures r.Ok? ==> 0 <= r.value.npayload && 2 + r.value.npayload <= |bytes|
  {
    if |bytes| < 9 then Err(Panic)
    else
      var size := Varint8(bytes[0..9]);
      var idx := size.1;
      if idx + 9 > |bytes| then Err(Panic)
      else
        var rowid := Varint8(bytes[idx..idx + 9]);
        var start := idx + rowid.1;
        var end := start + size.0;
        if end > |bytes| then Err(Panic)
        else
          var record :- DecodeRecord(bytes[start..end]);
          Ok(Cell(size.0, rowid.0, record))
  }

  /** Both varints of a cell are at most 8 bytes long, so they are below 2^56. */
  lemma CellFromBytesBounds(bytes: seq<byte>)
    requires CellFromBytes(bytes).Ok?
    ensures var c := CellFromBytes(bytes).value;
      0 <= c.npayload < Pow2(56) && 0 <= c.rowid < Pow2(56)
  {
    var size := Varint8(bytes[0..9]);
    var rowid := Varint8(bytes[size.1..size.1 + 9]);
    Pow2Monotone(7 * size.1, 56);
    Pow2Monotone(7 * rowid.1, 56);
  }

  /**
   * A cell laid out as the format describes it (payload size, rowid, payload,
   * then any bytes) parses back to that payload size, that rowid and the
   * record decoded from exactly that payload.
   */
  lemma CellRoundTrip(rowid: nat, payload: seq<byte>, rest: seq<byte>)
    requires |payload| < Pow2(56) && rowid < Pow2(56)
    requires |payload| + |rest| >= 8
    requires DecodeRecord(payload).Ok?
    ensures CellFromBytes(EncodeShort(|payload|) + EncodeShort(rowid) + payload + rest)
            == Ok(Cell(|payload|, rowid, DecodeRecord(payload).value))
  {
    var a := EncodeShort(|payload|);
    var b := EncodeShort(rowid);
    Varint8RoundTrip(|payload|, (b + payload + rest)[..9 - |a|]);
    Varint8RoundTrip(rowid, (payload + rest)[..9 - |b|]);
    CellOfParts(a, b, payload, rest, rowid);
  }

  /**
   * A cell made of two varint encodings, the payload and any bytes: whatever
   * the encodings are, the cell holds what they read as.
   */
  lemma CellOfParts(a: seq<byte>, b: seq<byte>, payload: seq<byte>, rest: seq<byte>, rowid: int)
    requires 1 <= |a| <= 8 && 1 <= |b| <= 8 && |payload| + |rest| >= 8
    requires Varint8(a + (b + payload + rest)[..9 - |a|]) == (|payload|, |a|)
    requires Varint8(b + (payload + rest)[..9 - |b|]) == (rowid, |b|)
    ensures var rec := DecodeRecord(payload);
      CellFromBytes(a + b + payload + rest) == if rec.Ok? then Ok(Cell(|payload|, rowid, rec.value)) else Err(rec.error)
  {
    CellWindows(a, b, payload, rest);
    CellFromParts(a + b + payload + rest);
  }

  /** The windows the two varint reads and the record read see in such a cell. */
  lemma CellWindows(a: seq<byte>, b: seq<byte>, payload: seq<byte>, rest: seq<byte>)
    requires 1 <= |a| <= 8 && 1 <= |b| <= 8 && |payload| + |rest| >= 8
    ensures var bytes := a + b + payload + rest;
      && bytes[0..9] == a + (b + payload + rest)[..9 - |a|]
      && bytes[|a|..|a| + 9] == b + (payload + rest)[..9 - |b|]
      && bytes[|a| + |b|..|a| + |b| + |payload|] == payload
  {
    var bytes := a + b + payload + rest;
    assert bytes[|a|..] == b + (payload + rest);
  }

  /** `CellFromBytes` once both varints are in range and the payload fits. */
  lemma CellFromParts(bytes: seq<byte>)
    requires |bytes| >= 9 && Varint8(bytes[0..9]).1 + 9 <= |bytes|
    requires var s := Varint8(bytes[0..9]); s.1 + Varint8(bytes[s.1..s.1 + 9]).1 + s.0 <= |bytes|
    ensures var s := Varint8(bytes[0..9]); var r := Varint8(bytes[s.1..s.1 + 9]);
      var rec := DecodeRecord(bytes[s.1 + r.1..s.1 + r.1 + s.0]);
      CellFromBytes(bytes) == if rec.Ok? then Ok(Cell(s.0, r.0, rec.value)) else Err(rec.error)
  {
  }
}
