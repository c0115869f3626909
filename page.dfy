/**
 * B-tree pages (section 1.6 of the SQLite database file format) as src/page.rs
 * reads them: the page-type byte, the 8- or 12-byte b-tree page header, the
 * cell-pointer array that follows it, and the cells `read_cell` decodes.
 */
module Pages {
  import opened Bytes
  import opened Errors
  import opened Varint
  import opened Records
  import opened Cells
  import opened DbHeaders

  /** `PageType`, with the `#[repr(u8)]` values 2, 5, 10, 13 and (implicitly) 14. */
  datatype PageType = InteriorIndex | InteriorTable | LeafIndex | LeafTable | PageError

  /** `PageType::try_from(value)`: it never fails; unknown bytes give `PageError`. */
  function PageTypeFromByte(value: byte): (t: PageType)
    ensures t == PageError <==> value !in {2, 5, 10, 13}
  {
    match value
    case 2 => InteriorIndex
    case 5 => InteriorTable
    case 10 => LeafIndex
    case 13 => LeafTable
    case _ => PageError
  }

  /** The discriminant of each variant. */
  function Repr(t: PageType): byte
  {
    match t
    case InteriorIndex => 2
    case InteriorTable => 5
    case LeafIndex => 10
    case LeafTable => 13
    case PageError => 14
  }

  /** Every variant is read back from its discriminant. */
  lemma PageTypeOfRepr(t: PageType)
    ensures PageTypeFromByte(Repr(t)) == t
  {
  }

  /** Only the five discriminants are reproduced by reading and writing back. */
  lemma ReprOfPageType(value: byte)
    ensures Repr(PageTypeFromByte(value)) == value <==> value in {2, 5, 10, 13, 14}
  {
  }

  predicate IsInterior(t: PageType)
  {
    t == InteriorIndex || t == InteriorTable
  }

  /** `BTreePageHeader`. */
  datatype BTreePageHeader = BTreePageHeader(
    pageType: PageType,
    freeblockOffset: nat,
    ncells: nat,
    cellsStart: nat,
    nfragmentedFree: byte,
    rightMostPointer: Option<nat>)

  /**
   * `BTreePageHeader::new(header)`: byte 0 is the page type, bytes 1-2, 3-4
   * and 5-6 are big-endian `u16`s, byte 7 a count, and interior pages carry
   * the right-most child pointer as a big-endian `u32` at bytes 8-11. Reading
   * past the end of `header` is a panic (`Panic`); nothing else fails.
   */
  function NewBTreePageHeader(header: seq<byte>): (r: Result<BTreePageHeader>)
    ensures r.Err? <==> |header| < 8 || (IsInterior(PageTypeFromByte(header[0])) && |header| < 12)
    ensures r.Err? ==> r.error == Panic
  {
    if |header| == 0 then Err(Panic)
    else
      var pageType := PageTypeFromByte(header[0]);
      if IsInterior(pageType) && |header| < 12 then Err(Panic)
      else if |header| < 8 then Err(Panic)
      else
        var rightMost := if IsInterior(pageType) then Some(U32(header[8], header[9], header[10], header[11])) else None;
        Ok(BTreePageHeader(pageType, U16(header[1], header[2]), U16(header[3], header[4]),
                           U16(header[5], header[6]), header[7], rightMost))
  }

  /** Where each field of the b-tree page header lies, and how it is read. */
  lemma BTreePageHeaderFields(header: seq<byte>)
    requires NewBTreePageHeader(header).Ok?
    ensures var h := NewBTreePageHeader(header).value;
      && h.pageType == PageTypeFromByte(header[0])
      && h.freeblockOffset == BeUint(header[1..3])
      && h.ncells == BeUint(header[3..5])
      && h.cellsStart == BeUint(header[5..7])
      && h.nfragmentedFree == header[7]
      && h.rightMostPointer == (if IsInterior(h.pageType) then Some(BeUint(header[8..12])) else None)
  {
    assert header[1..3] == [header[1], header[2]] && header[3..5] == [header[3], header[4]];
    assert header[5..7] == [header[5], header[6]];
    if IsInterior(PageTypeFromByte(header[0])) {
      assert header[8..12] == [header[8], header[9], header[10], header[11]];
    }
  }

  /** The header fields fit the widths the format gives them. */
  predicate HeaderFits(h: BTreePageHeader)
  {
    && h.freeblockOffset < 65536 && h.ncells < 65536 && h.cellsStart < 65536
    && (h.rightMostPointer.Some? <==> IsInterior(h.pageType))
    && (h.rightMostPointer.Some? ==> h.rightMostPointer.value < 0x1_0000_0000)
  }

  /** The bytes of a b-tree page header: 12 for interior pages, 8 otherwise. */
  function EncodeBTreePageHeader(h: BTreePageHeader): (s: seq<byte>)
    requires HeaderFits(h)
    ensures |s| == HeaderSize(h.pageType)
  {
    [Repr(h.pageType)] + BeBytes(h.freeblockOffset, 2) + BeBytes(h.ncells, 2) + BeBytes(h.cellsStart, 2)
    + [h.nfragmentedFree] + (if h.rightMostPointer.Some? then BeBytes(h.rightMostPointer.value, 4) else [])
  }

  /** Writing a header and reading it back, whatever follows it, gives the same header. */
  lemma BTreePageHeaderRoundTrip(h: BTreePageHeader, rest: seq<byte>)
    requires HeaderFits(h)
    ensures NewBTreePageHeader(EncodeBTreePageHeader(h) + rest) == Ok(h)
  {
    var s := EncodeBTreePageHeader(h) + rest;
    HeaderWindows(h, rest);
    BTreePageHeaderFields(s);
    PageTypeOfRepr(h.pageType);
    BeUint16RoundTrip(h.freeblockOffset);
    BeUint16RoundTrip(h.ncells);
    BeUint16RoundTrip(h.cellsStart);
    if h.rightMostPointer.Some? {
      Pow2Values();
      BeUintOfBeBytes(h.rightMostPointer.value, 4);
    }
  }

  /** Where each field lies in an encoded header. */
  lemma HeaderWindows(h: BTreePageHeader, rest: seq<byte>)
    requires HeaderFits(h)
    ensures var s := EncodeBTreePageHeader(h) + rest;
      && |s| >= HeaderSize(h.pageType)
      && s[0] == Repr(h.pageType)
      && s[1..3] == BeBytes(h.freeblockOffset, 2)
      && s[3..5] == BeBytes(h.ncells, 2)
      && s[5..7] == BeBytes(h.cellsStart, 2)
      && s[7] == h.nfragmentedFree
      && (h.rightMostPointer.Some? ==> s[8..12] == BeBytes(h.rightMostPointer.value, 4))
  {
  }

  /** The size of the b-tree page header: `header_size` in `Page::new`. */
  function HeaderSize(t: PageType): nat
  {
    if IsInterior(t) then 12 else 8
  }

  /** Where the b-tree header starts in a page: after the file header on page 0. */
  function HeaderStart(idx: nat): nat
  {
    if idx == 0 then 100 else 0
  }

  /** `Page { db_header, btree_header, buffer, cell_offsets }`. */
  datatype Page = Page(dbHeader: Option<DbHeader>, btreeHeader: BTreePageHeader, buffer: seq<byte>, cellOffsets: seq<nat>)

  /** The big-endian `u16` at `raw[at]` and `raw[at + 1]`: a cell pointer. */
  function Pointer(raw: seq<byte>, at: nat): (v: nat)
    requires at + 2 <= |raw|
  {
    U16(raw[at], raw[at + 1])
  }

  /** A cell pointer is the big-endian value of its two bytes, so it is below 2^16. */
  lemma PointerIsBigEndian(raw: seq<byte>, at: nat)
    requires at + 2 <= |raw|
    ensures Pointer(raw, at) == BeUint(raw[at..at + 2]) && Pointer(raw, at) < 65536
  {
    assert raw[at..at + 2] == [raw[at], raw[at + 1]];
  }

  /** The b-tree header of page `idx` built from `raw`. */
  function PageHeader(idx: nat, raw: seq<byte>): (h: BTreePageHeader)
    requires |raw| >= HeaderStart(idx) + 12
  {
    NewBTreePageHeader(raw[HeaderStart(idx)..HeaderStart(idx) + 12]).value
  }

  /** What `Page::new` needs of its bytes so that none of its slices or indexes panics. */
  predicate Constructible(idx: nat, raw: seq<byte>)
  {
    && |raw| >= HeaderStart(idx) + 12
    && var h := PageHeader(idx, raw);
       HeaderStart(idx) + HeaderSize(h.pageType) + 2 * h.ncells <= |raw|
  }

  /**
   * `page` is page `idx` made from `raw`: the header is parsed at offset 100
   * on page 0 and 0 elsewhere, cell pointer k is the big-endian `u16` just
   * after the header at offset 2k, and the stored buffer is `raw` itself,
   * file header included.
   */
  predicate IsPageOf(idx: nat, dbHeader: Option<DbHeader>, raw: seq<byte>, page: Page)
  {
    && |raw| >= HeaderStart(idx) + 12
    && page.dbHeader == dbHeader
    && page.buffer == raw
    && page.btreeHeader == PageHeader(idx, raw)
    && |page.cellOffsets| == page.btreeHeader.ncells
    && var at := HeaderStart(idx) + HeaderSize(page.btreeHeader.pageType);
       forall k :: 0 <= k < |page.cellOffsets| ==>
         at + 2 * k + 2 <= |raw| && page.cellOffsets[k] == Pointer(raw, at + 2 * k)
  }

  /**
   * `Page::new(idx, db_header, b_tree_page)`: copy the bytes, parse the
   * header, drop the file header from the copy on page 0, and fill
   * `cell_offsets` from the copy in a loop.
   */
  method NewPage(idx: nat, dbHeader: Option<DbHeader>, raw: seq<byte>) returns (page: Page)
    requires Constructible(idx, raw)
    ensures IsPageOf(idx, dbHeader, raw, page)
  {
    var buffer := raw;
    var header: BTreePageHeader;
    if idx == 0 {
      header := NewBTreePageHeader(raw[100..112]).value;
      buffer := buffer[100..];
    } else {
      header := NewBTreePageHeader(raw[0..12]).value;
    }
    var headerSize := if IsInterior(header.pageType) then 12 else 8;
    var ncells := header.ncells;
    var cellOffsets := new nat[ncells];
    ghost var start := HeaderStart(idx);
    assert buffer == raw[start..];
    assert header == PageHeader(idx, raw) && headerSize == HeaderSize(header.pageType);
    ghost var base := start + headerSize;
    for i := 0 to ncells
      invariant forall k :: 0 <= k < i ==> cellOffsets[k] == Pointer(raw, base + 2 * k)
    {
      var offset := headerSize + i * 2;
      PointerAt(raw, start, headerSize, i);
      cellOffsets[i] := U16(buffer[offset], buffer[offset + 1]);
    }
    var offsets := cellOffsets[..];
    assert forall k :: 0 <= k < |offsets| ==> offsets[k] == Pointer(raw, base + 2 * k);
    page := Page(dbHeader, header, raw, offsets);
  }

  /** Cell pointer `i`, read from the copy that starts at `start`, is the one at `start + headerSize + 2i`. */
  lemma PointerAt(raw: seq<byte>, start: nat, headerSize: nat, i: nat)
    requires start + headerSize + 2 * i + 2 <= |raw|
    ensures var buffer := raw[start..];
      U16(buffer[headerSize + 2 * i], buffer[headerSize + 2 * i + 1]) == Pointer(raw, start + headerSize + 2 * i)
  {
  }

  /** The payload bytes `[start, start + size)` of `buffer` decoded as a record. */
  function PayloadAt(buffer: seq<byte>, start: nat, size: int): Result<Record>
  {
    if start + size > |buffer| || size < 0 then Err(Panic)
    else DecodeRecord(buffer[start..start + size])
  }

  /**
   * The leaf-table branch of `read_cell`: payload size, rowid, payload. Its
   * code is that of `Cell::from_bytes`, applied to the bytes from the cell's
   * offset, so it is modelled by `CellFromBytes` on them.
   */
  function LeafTableCell(buffer: seq<byte>, offset: nat): Result<(Option<int>, Option<Record>)>
  {
    if offset > |buffer| then Err(Panic)
    else
      var cell :- CellFromBytes(buffer[offset..]);
      Ok((Some(cell.rowid), Some(cell.record)))
  }

  /** The leaf-index branch of `read_cell`: payload size, payload. */
  function LeafIndexCell(buffer: seq<byte>, offset: nat): Result<(Option<int>, Option<Record>)>
  {
    if offset > |buffer| then Err(Panic)
    else
      var size := Varint8(buffer[offset..]);
      var record :- PayloadAt(buffer, offset + size.1, size.0);
      Ok((None, Some(record)))
  }

  /** The interior-table branch of `read_cell`: a skipped child pointer, then the rowid. */
  function InteriorTableCell(buffer: seq<byte>, offset: nat): Result<(Option<int>, Option<Record>)>
  {
    if offset + 4 > |buffer| then Err(Panic)
    else
      var rowid := Varint8(buffer[offset + 4..]);
      Ok((Some(rowid.0), None))
  }

  /** The interior-index branch of `read_cell`: a skipped child pointer, payload size, payload. */
  function InteriorIndexCell(buffer: seq<byte>, offset: nat): Result<(Option<int>, Option<Record>)>
  {
    if offset + 4 > |buffer| then Err(Panic)
    else
      var size := Varint8(buffer[offset + 4..]);
      var record :- PayloadAt(buffer, offset + 4 + size.1, size.0);
      Ok((None, Some(record)))
  }

  /**
   * `Page::read_cell(i)`: the rowid and the record of cell `i`, by page type.
   * A leaf-table cell is a payload size, a rowid and the payload; a
   * leaf-index cell a payload size and the payload; interior cells first
   * have a 4-byte child pointer, which is skipped, and then a rowid (table)
   * or a payload size and the payload (index).
   */
  function ReadCell(page: Page, i: nat): (r: Result<(Option<int>, Option<Record>)>)
    ensures i >= page.btreeHeader.ncells ==> r == Err(CellIndexOutOfRange)
    ensures i < page.btreeHeader.ncells && i < |page.cellOffsets| && page.btreeHeader.pageType == PageError
            ==> r == Err(UnreadableCell)
    ensures r.Ok? ==>
      var t := page.btreeHeader.pageType;
      && (r.value.0.Some? <==> t == LeafTable || t == InteriorTable)
      && (r.value.1.Some? <==> t == LeafTable || t == LeafIndex || t == InteriorIndex)
  {
    if i >= page.btreeHeader.ncells then Err(CellIndexOutOfRange)
    else if i >= |page.cellOffsets| then Err(Panic)
    else
      var offset := page.cellOffsets[i];
      var buffer := page.buffer;
      match page.btreeHeader.pageType
      case LeafTable => LeafTableCell(buffer, offset)
      case LeafIndex => LeafIndexCell(buffer, offset)
      case InteriorTable => InteriorTableCell(buffer, offset)
      case InteriorIndex => InteriorIndexCell(buffer, offset)
      case PageError => Err(UnreadableCell)
  }

  /** Where the payload-size varint and the payload sit after a prefix. */
  lemma PayloadWindows(prefix: seq<byte>, a: seq<byte>, payload: seq<byte>, rest: seq<byte>)
    ensures (prefix + a + payload + rest)[|prefix|..] == a + (payload + rest)
    ensures (prefix + a + payload + rest)[|prefix| + |a|..|prefix| + |a| + |payload|] == payload
  {
    var buffer := prefix + a + payload + rest;
    assert buffer == prefix + (a + (payload + rest));
    assert buffer[|prefix| + |a|..] == payload + rest;
  }

  /** The bytes after a prefix, seen from the prefix's end. */
  lemma AfterPrefix(prefix: seq<byte>, bytes: seq<byte>, i: nat)
    requires i <= |bytes|
    ensures (prefix + bytes)[|prefix| + i..] == bytes[i..]
  {
  }

  /**
   * A leaf-table cell written at `|prefix|` as its payload size, its rowid
   * and its payload is read back with that rowid and the payload's record.
   */
  lemma LeafTableCellRoundTrip(prefix: seq<byte>, rowid: nat, payload: seq<byte>, rest: seq<byte>)
    requires |payload| < Pow2(56) && rowid < Pow2(56)
    requires |payload| + |rest| >= 8
    requires DecodeRecord(payload).Ok?
    ensures LeafTableCell(prefix + (EncodeShort(|payload|) + EncodeShort(rowid) + payload + rest), |prefix|)
            == Ok((Some(rowid), Some(DecodeRecord(payload).value)))
  {
    var cell := EncodeShort(|payload|) + EncodeShort(rowid) + payload + rest;
    AfterPrefix(prefix, cell, 0);
    CellRoundTrip(rowid, payload, rest);
  }

  /**
   * A leaf-index cell written at `|prefix|` as its payload size and its
   * payload is read back with no rowid and the payload's record.
   */
  lemma LeafIndexCellRoundTrip(prefix: seq<byte>, payload: seq<byte>, rest: seq<byte>)
    requires |payload| < Pow2(56)
    requires DecodeRecord(payload).Ok?
    ensures LeafIndexCell(prefix + EncodeShort(|payload|) + payload + rest, |prefix|)
            == Ok((None, Some(DecodeRecord(payload).value)))
  {
    PayloadWindows(prefix, EncodeShort(|payload|), payload, rest);
    Varint8RoundTrip(|payload|, payload + rest);
  }

  /**
   * An interior-table cell written at `|prefix|` as a 4-byte child pointer
   * and its rowid is read back with that rowid and no record.
   */
  lemma InteriorTableCellRoundTrip(prefix: seq<byte>, pointer: seq<byte>, rowid: nat, rest: seq<byte>)
    requires |pointer| == 4 && rowid < Pow2(56)
    ensures InteriorTableCell(prefix + (pointer + (EncodeShort(rowid) + rest)), |prefix|) == Ok((Some(rowid), None))
  {
    var cell := pointer + (EncodeShort(rowid) + rest);
    AfterPrefix(prefix, cell, 4);
    AfterPrefix(pointer, EncodeShort(rowid) + rest, 0);
    Varint8RoundTrip(rowid, rest);
  }

  /**
   * An interior-index cell written at `|prefix|` as a 4-byte child pointer,
   * its payload size and its payload is read back with no rowid and the
   * payload's record.
   */
  lemma InteriorIndexCellRoundTrip(prefix: seq<byte>, pointer: seq<byte>, payload: seq<byte>, rest: seq<byte>)
    requires |pointer| == 4 && |payload| < Pow2(56)
    requires DecodeRecord(payload).Ok?
    ensures InteriorIndexCell(prefix + pointer + EncodeShort(|payload|) + payload + rest, |prefix|)
            == Ok((None, Some(DecodeRecord(payload).value)))
  {
    PayloadWindows(prefix + pointer, EncodeShort(|payload|), payload, rest);
    Varint8RoundTrip(|payload|, payload + rest);
  }
}
