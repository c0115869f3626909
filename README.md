# rust-sqlite in Dafny

A model of the decoding core of rust-sqlite, a small read-only reader of
SQLite database files, with proofs about it. The model covers:

- the file header (`DbHeader`, `Header`);
- b-tree page headers and page types, pages and their cell-pointer arrays, and `Page::read_cell`;
- SQLite varints, in both of the source's decoders (`decode_varint` and `Varint::read`);
- serial types, record decoding and table-leaf cells;
- the three traversals of `Database`: a table scan with a `WHERE` selection (`read_table`), a scan restricted to
  a sorted list of rowids (`read_ids_from_table`), and an index search (`read_index`). The index search is
  modelled as the source writes it, and beside it with its key comparison corrected (see "## Findings");
- the row rendering they use (`Sql::get_fields`, `print_rows`, `print_rows_by_rowid`, `print_row_id`).

Conventions:

- Bytes are `byte` (0..255). Fixed-width integers are read big-endian by `BeUint` and `BeInt`.
- A decoded text value stays as its UTF-8 bytes. `ValidUtf8` is the well-formedness table of the Unicode standard (Table 3-7).
- An `anyhow` error is an `Err` of the `Errors.Error` datatype.
- A panic is `Err(Panic)`: an index past the end of a slice, an `unwrap` of `None`, a `todo!()`, a zero child page
  number or a failed `expect`.
- The traversals return what they would print, as lines or sets, instead of printing it.

The modules follow the source files:

| module | file | form |
|---|---|---|
| Bytes, Errors, Utf8 | (shared definitions) | functions and lemmas |
| Varint | src/lib.rs, src/varint.rs | functions, plus methods for the two decoding loops |
| Columns | src/column.rs | datatypes and functions |
| Records | src/record.rs | a function, and a method for the header/body walk |
| Cells | src/cell.rs | a function |
| DbHeaders, Headers | src/database.rs, src/header.rs | functions |
| Pages | src/page.rs | functions; a method for the cell-pointer loop of `Page::new` |
| Trees | (the pages as the traversals see them) | the visit/fold/reach apparatus |
| Query | src/sql.rs | functions and methods |
| Database | src/database.rs | methods with loops, each proved against a function |

The traversals work on `TreePage`s. A `TreePage` is the page type, the decoded cells
(left child, rowid, record) and the right-most pointer, which is what
`Cell::from_bytes` and `read_cell` produce for the traversal. Each visit is a function
`TreePage -> Result<Visit<T>>` that gives the items inserted and the page numbers pushed.
`Trees.Reach` then defines, independently of stack order, what a traversal collects
from a root. A ghost `rank` shows that pushes go strictly downwards; without it the
source would not terminate.

## Model

| member | source | states |
|---|---|---|
| Bytes.U16 | src/page.rs:38 | `u16::from_be_bytes([hi, lo])` is the big-endian reading of the two bytes, below 2^16 |
| Bytes.U32 | src/page.rs:186-188 | `u32::from_be_bytes` of four bytes is their big-endian reading |
| Bytes.BeUintOfBeBytes | src/record.rs:31-65 | `n` big-endian bytes read back every value below 256^n |
| Bytes.BeIntOfTwosComplement | src/record.rs:31-65 | `iN::from_be_bytes` reads back every value of the signed range from its two's-complement bytes |
| Bytes.BeIntRange | src/record.rs:31-65 | a signed `n`-byte reading lies in [-2^(8n-1), 2^(8n-1)) |
| Bytes.CompareEqual | src/database.rs:79 | `str::cmp` gives `Equal` exactly on equal strings |
| Bytes.CompareFlip | src/database.rs:79 | swapping the operands of `cmp` swaps `Less` and `Greater` |
| Bytes.ComparePrefix | src/database.rs:79 | a proper prefix compares `Less` |
| Utf8.AsciiIsValid | src/database.rs:280 | ASCII bytes are valid UTF-8 for `String::from_utf8` |
| Utf8.ConcatValid | src/record.rs:82-86 | the concatenation of valid UTF-8 strings is valid |
| Utf8.ContinuationByteInvalid | src/record.rs:82-86 | a lone continuation byte is rejected by `String::from_utf8` |
| Varint.FirstClear | src/lib.rs:19-30 | the index of the first byte with a clear high bit, within the first `limit` bytes; all bytes before it have the bit set |
| Varint.Varint8 | src/lib.rs:8-34 | `decode_varint` reads at most 8 bytes and at least one of a non-empty input; the empty input gives (0, 0); the value is below 2^(7·size) |
| Varint.Varint8Reads | src/lib.rs:8-34 | the bytes read are the continuation bytes, then a clear-high-bit byte (unless 8 bytes or the whole input were used), and the value is their 7-bit big-endian concatenation |
| Varint.DecodeVarint | src/lib.rs:8-34 | the loop of `decode_varint` returns `Ok` of the `Varint8` reading |
| Varint.ShiftOr | src/varint.rs:35-39 | no contract of its own: `(result << 7) \| byte` on a non-negative accumulator; `ShiftOrBits` states what it computes |
| Varint.ShiftOrBits | src/varint.rs:35-39 | the low seven bits are those of the byte, bit 7 is set when the byte's top bit or the accumulator's lowest bit is, and the higher bits are the accumulator's other bits |
| Varint.Varint9 | src/varint.rs:17-53 | `Varint::read` as written: 1 to 9 bytes; eight continuation bytes are followed by the ninth shifted in by 7 bits; the value is below 2^63 |
| Varint.ReadVarint | src/varint.rs:17-53 | the loop of `Varint::read` at `index` returns the `Varint9` reading of `data[index..]`, within the data |
| Varint.Varint9Local | src/varint.rs:17-53 | the reading depends only on the bytes it consumes |
| Varint.Varint9AgreesWithVarint8 | src/varint.rs:17-53 | on varints shorter than 9 bytes the two decoders agree |
| Varint.Varint8OfEightContinuations | src/lib.rs:19-30 | on eight continuation bytes `decode_varint` stops after 8 bytes with a value below 2^56 |
| Varint.Varint8Example | src/lib.rs:40-47 | `[0x81, 0x01]` decodes to (129, 2) |
| Varint.Encode | src/varint.rs:17-53 | the SQLite varint encoding is 1 to 9 bytes long |
| Varint.Be7OfGroups | src/lib.rs:8-34 | splitting a value into 7-bit groups and concatenating them gives it back |
| Varint.MarkedGroups | src/lib.rs:8-34 | an encoding sets the high bit of every byte but the last |
| Varint.Varint8RoundTrip | src/lib.rs:8-34 | `decode_varint` reads back every value below 2^56 from its encoding, whatever follows |
| Varint.Varint9RoundTripShort | src/varint.rs:17-53 | `Varint::read` reads back every value below 2^56 from its encoding |
| Varint.VarintFormat | src/varint.rs:32-45 | the corrected decoder: the ninth byte contributes all 8 bits; 1 to 9 bytes consumed |
| Varint.VarintFormatRoundTrip | src/varint.rs:17-53 | the corrected decoder reads back every 64-bit value from its encoding |
| Varint.Varint9MisreadsNineByteValues | src/varint.rs:32-45 | on every 9-byte encoding (values from 2^56) `Varint::read` returns a smaller value than was encoded |
| Varint.Varint9MisreadsTwoToThe56 | src/varint.rs:32-45 | the encoding of 2^56 is read as 2^55 by `Varint::read`, and as 2^56 by the corrected decoder |
| Columns.ReadSerialType | src/column.rs:43-64 | `SerialType::read` fails exactly on negative codes, 10 and 11, with the code in the error; an even code ≥ 12 is a blob of (n-12)/2 bytes, an odd one a string of (n-13)/2 bytes |
| Columns.Length | src/column.rs:66-81 | a blob or string is as long as its declared length; the other types are at most 8 bytes |
| Columns.ReadCode | src/column.rs:43-64 | every serial type is read back from its code |
| Columns.CodeOfRead | src/column.rs:43-64 | the code of a serial type read from a code is that code |
| Columns.FixedCodes | src/column.rs:45-54 | codes 0 to 9 are Null, I8, I16, I24, I32, I48, I64, Float64, Zero, One |
| Columns.FixedLengths | src/column.rs:66-81 | the lengths 0, 1, 2, 3, 4, 6, 8, 8, 0, 0 of those types |
| Columns.LengthOfVariableCode | src/column.rs:55-61 | a code n ≥ 12 is a value of (n - 12 - n mod 2) / 2 bytes |
| Records.DecodeRecord | src/record.rs:14-95 | no contract of its own: the header length is the first varint, and the record is the walk from byte `hlSize` of the header and byte `headerLength` of the body; `NewRecord` and `RecordShape` state what it returns |
| Records.Walk | src/record.rs:20-92 | no contract of its own: one column per header varint until the header length, in order, or the first error; `ReadColumns`, `WalkCons` and `WalkShape` state what it returns |
| Records.FieldAt | src/record.rs:22-86 | no contract of its own: one header code read as a serial type, then its value decoded at the body cursor; `ReadColumn` and `ShapedAt` state what it returns |
| Records.DecodeValue | src/record.rs:29-88 | decoding one column panics exactly when its bytes run past the data, and fails with the UTF-8 error exactly on an invalid string |
| Records.DecodeValueFits | src/record.rs:29-88 | a decoded value has the variant its serial type names, and its length for blobs and strings |
| Records.SignedFits | src/record.rs:31-65 | I8, I16, I32 and I64 values lie in their signed ranges |
| Records.UnsignedFits | src/record.rs:35-56 | I24 and I48 values are read zero-extended and lie in [0, 2^24) and [0, 2^48) |
| Records.NextAt | src/record.rs:22-24 | every header varint advances the header index by 1 to 8 bytes |
| Records.NewRecord | src/record.rs:14-95 | the header/body loop of `Record::new` returns the `DecodeRecord` result, whenever the source does not panic |
| Records.ReadColumns | src/record.rs:20-94 | the `while header_index < header_length` loop returns the walk from the given cursors: the columns in header order, or the first error |
| Records.ReadStep | src/record.rs:21-91 | one pass of the loop either ends it with the error that ends the walk, or appends the decoded column and moves the header cursor forward |
| Records.ReadColumn | src/record.rs:22-86 | reading one header varint and its field fails exactly when the field fails, with the same error; otherwise it returns that column and the next header position |
| Records.ColumnsFail | src/record.rs:26-86 | a failing field ends the walk with its error, whatever columns were read before it |
| Records.ColumnsStep | src/record.rs:88-91 | appending the decoded column and advancing both cursors keeps the columns read plus the rest of the walk equal to the whole walk |
| Records.DecodeRecordNeedsNine | src/record.rs:15 | data shorter than 9 bytes panics at the first `data[0..9]` |
| Records.WalkCons | src/record.rs:21-91 | a successful walk starts with the column the first code decodes to at the body cursor, and goes on successfully from the advanced cursors |
| Records.WalkShape | src/record.rs:21-92 | the columns of a successful walk match the header codes one for one, each decoded where the previous body ends |
| Records.ShapeStep | src/record.rs:88-91 | the column-by-code agreement extends by one decoded column in front |
| Records.ShapedLength | src/record.rs:21-92 | matching columns and header codes are equally many |
| Records.ShapedAt | src/record.rs:29-88 | column k has the type code k names and the value decoded at the running body offset of column k |
| Records.RecordShape | src/record.rs:14-95 | a decoded record has one column per serial type of its header, each at the body offset after the preceding columns |
| Records.InvalidCodeFails | src/record.rs:26 | any invalid serial type in the header makes `Record::new` fail |
| Records.EmptyHeader | src/record.rs:14-21 | a header with no codes decodes to the empty record |
| Records.SignedRoundTrip | src/record.rs:31-65 | an I8/I16/I32/I64 column reads back the integer written as two's complement |
| Records.UnsignedRoundTrip | src/record.rs:35-56 | an I24/I48 column reads back its big-endian unsigned value |
| Cells.CellFromBytes | src/cell.rs:13-38 | a decoded cell's payload size is non-negative and its payload fits in the bytes after the two varints, each of at least one byte |
| Cells.CellFromBytesBounds | src/cell.rs:13-38 | the payload size and rowid of a decoded cell are below 2^56 |
| Cells.CellOfParts | src/cell.rs:13-38 | the same for a cell given as two varints, a payload and trailing bytes |
| Cells.CellRoundTrip | src/cell.rs:13-42 | a cell built from an encoded size, an encoded rowid and a decodable payload is read back with that size, rowid and record |
| DbHeaders.NewDbHeader | src/database.rs:279-287 | `DbHeader::new` succeeds exactly when the header has 18 bytes and its first 16 are UTF-8; it panics on a short header and fails with the UTF-8 error otherwise; the page size is the big-endian u16 at 16..18 |
| DbHeaders.MagicIsValid | src/database.rs:29 | the magic string is 16 valid UTF-8 bytes |
| DbHeaders.NewDbHeaderOf | src/database.rs:279-287 | a header written from a UTF-8 string and a page size reads back both |
| DbHeaders.NewDbHeaderOfMagic | src/database.rs:279-287 | a header starting with the magic string reads back the magic string and the page size |
| Headers.NewHeader | src/header.rs:9-15 | `Header::new` reads the big-endian page size at bytes 16..18 |
| Headers.NewHeaderLocal | src/header.rs:9-15 | only bytes 16 and 17 matter |
| Headers.NewHeaderRoundTrip | src/header.rs:9-15 | a written page size is read back |
| Headers.NewHeaderAgreesWithDbHeader | src/header.rs:9-15 | `Header::new` and `DbHeader::new` read the same page size |
| Pages.PageTypeFromByte | src/page.rs:227-239 | a byte other than 2, 5, 10 or 13 is `PageError` |
| Pages.PageTypeOfRepr | src/page.rs:227-239 | each page type is read back from its byte |
| Pages.ReprOfPageType | src/page.rs:227-239 | a byte survives reading and writing back exactly when it is 2, 5, 10, 13 or 14 (the byte written for `PageError`) |
| Pages.NewBTreePageHeader | src/page.rs:180-201 | the header panics exactly when it is shorter than 8 bytes, or shorter than 12 on an interior page |
| Pages.BTreePageHeaderFields | src/page.rs:180-201 | the fields are the type byte, the big-endian u16s at 1, 3 and 5, byte 7, and on interior pages the big-endian u32 at 8 |
| Pages.EncodeBTreePageHeader | src/page.rs:29-32 | an encoded header is 12 bytes on interior pages and 8 on leaves |
| Pages.BTreePageHeaderRoundTrip | src/page.rs:180-201 | a header written out is read back unchanged, whatever follows |
| Pages.HeaderWindows | src/page.rs:180-201 | where each field sits in the written header |
| Pages.PointerIsBigEndian | src/page.rs:38 | a cell pointer is the big-endian u16 at its offset |
| Pages.NewPage | src/page.rs:15-54 | `Page::new` keeps the database header and the raw page; it reads the page header at byte 100 on page 0 and at byte 0 otherwise; it reads `ncells` cell pointers after the 8- or 12-byte header, counted from byte 100 on page 0 |
| Pages.PointerAt | src/page.rs:36-39 | the pointer written into `cell_offsets[i]` is the u16 at `header_size + 2i` |
| Pages.PayloadAt | src/page.rs:84-86 | no contract of its own: `Record::new` of the `npayload` bytes from the cursor, a panic when they run past the page |
| Pages.LeafTableCell | src/page.rs:68-89 | no contract of its own: the branch is the code of `Cell::from_bytes` on the bytes from the cell's offset, giving its rowid and record |
| Pages.LeafIndexCell | src/page.rs:90-102 | no contract of its own: payload size, then the payload's record, no rowid |
| Pages.InteriorTableCell | src/page.rs:103-119 | no contract of its own: a 4-byte child pointer skipped, then the rowid, no record |
| Pages.InteriorIndexCell | src/page.rs:120-140 | no contract of its own: a 4-byte child pointer skipped, payload size, then the payload's record, no rowid |
| Pages.LeafTableCellRoundTrip | src/page.rs:68-89 | a leaf-table cell written at any offset as payload size, rowid and payload reads back as that rowid and the payload's record |
| Pages.LeafIndexCellRoundTrip | src/page.rs:90-102 | a leaf-index cell written at any offset as payload size and payload reads back as no rowid and the payload's record |
| Pages.InteriorTableCellRoundTrip | src/page.rs:103-119 | an interior-table cell written at any offset as any 4-byte child pointer and a rowid reads back as that rowid and no record |
| Pages.InteriorIndexCellRoundTrip | src/page.rs:120-140 | an interior-index cell written at any offset as any 4-byte child pointer, payload size and payload reads back as no rowid and the payload's record |
| Pages.ReadCell | src/page.rs:60-145 | `read_cell` fails past `ncells` and on a page of unknown type; otherwise the rowid is present exactly on table pages and the record exactly on leaf and interior-index pages |
| Trees.After | src/database.rs:62-125 | an earlier visit never turns a later panic into success, or success into a panic |
| Trees.AfterThen | src/database.rs:62-125 | visits compose associatively |
| Trees.FoldOk | src/database.rs:66-72 | the loop over a page's cells succeeds exactly when every cell does |
| Trees.FoldItems | src/database.rs:66-125 | a page's items are exactly those of its cells |
| Trees.FoldPushes | src/database.rs:66-125 | a page's pushes are exactly those of its cells |
| Trees.LeafPushesNothing | src/database.rs:104-122 | cells that push nothing make a page that pushes nothing |
| Trees.ReachAllAppend | src/database.rs:62-64 | what a stack reaches is the union of what its parts reach, so the order of the stack does not matter |
| Trees.SizeAllAppend | src/database.rs:62-64 | the work left on a stack is the sum over its parts (the termination measure) |
| Trees.ReachAllHas | src/database.rs:62-64 | a stack reaches everything any of its entries reaches |
| Trees.ReachAlongPath | src/database.rs:62-125 | every page on a chain of pushes from the root contributes its items |
| Trees.ReachAllFrom | src/database.rs:62-64 | whatever a stack reaches, one of its entries reaches |
| Trees.ReachHasPath | src/database.rs:62-125 | everything reached lies on some page at the end of a chain of pushes from the root |
| Database.ChunksCoverFile | src/database.rs:32 | when the page size divides the file length, `file.chunks` splits the file into exactly its pages |
| Database.ReadFile | src/database.rs:23-42 | `read_file` fails exactly when `DbHeader::new` does, with its UTF-8 error; otherwise it has the header and one page per page-size chunk, only the first carrying the header |
| Database.ReadPages | src/database.rs:31-39 | the `chunks(page_size).enumerate()` loop builds one page per chunk, in order |
| Database.FilePage | src/database.rs:33-37 | page i is built from chunk i, with the database header for page 0 only |
| Database.ChildIndex | src/database.rs:81 | a child page number `n` is pushed as index `n - 1`; 0 underflows and panics |
| Database.FieldValues | src/database.rs:170-181 | the column values of a row in field order; the row panics exactly when a field index is past the record |
| Database.CellLine | src/database.rs:170-181 | every error is a panic; `CellLinesShape` states the line |
| Database.PageLines | src/database.rs:170-181 | every error is a panic; `PageLinesShape` states the lines |
| Database.RootLines | src/database.rs:170-181 | no contract of its own: the lines of the root page when it exists, none otherwise |
| Database.PrintCell | src/database.rs:170-181 | the printing loop for one cell returns what `CellLine` describes |
| Database.PrintPage | src/database.rs:170-181 | the printing loop over the root page returns what `PageLines` describes |
| Database.CellLinesShape | src/database.rs:170-181 | one line per cell with a record, the field values joined by `|` |
| Database.PageLinesShape | src/database.rs:170-181 | a page of unknown type prints nothing; any other page prints one line per cell with a record |
| Database.TableCell | src/database.rs:151-164 | no contract of its own: a cell pushes its left child, if any, and inserts what `print_rows` adds for its record; `VisitTableCell` is proved against it |
| Database.TableVisit | src/database.rs:150-169 | no contract of its own: the fold of `TableCell` over the cells, then the right-most pointer; `TableVisitRows` and `TableVisitChildren` state what it gives |
| Database.VisitTableCell | src/database.rs:150-169 | the per-cell step of `read_table` pushes and inserts exactly what `TableCell` describes, and panics when it does |
| Database.VisitTableCells | src/database.rs:151-165 | the cell loop of `read_table` with a selection pushes and inserts exactly what the fold of `TableCell` describes, and panics exactly when it does |
| Database.VisitTablePage | src/database.rs:150-169 | the per-page step of `read_table` pushes and inserts exactly what `TableVisit` describes, and panics when it does |
| Database.ReadTable | src/database.rs:129-184 | page number 0 panics; with a selection, the result is every row `Reach` finds from the root, and never panics when no page does; without one, the lines of the root page |
| Database.TableVisitRows | src/database.rs:150-169 | a table page inserts exactly the rendered rows of its cells that match the selection |
| Database.TableVisitChildren | src/database.rs:150-169 | a table page pushes exactly its cells' left children and its right-most pointer |
| Database.ReadTableFindsRow | src/database.rs:129-184 | a matching row on a page reachable from the root is in the result |
| Database.PartitionPoint | src/database.rs:216-218 | `partition_point(|id| id < key)`: every id before the point is below the key, the one at the point is not |
| Database.PartitionSuffix | src/database.rs:216-218 | what is left of a sorted id list is sorted, and holds exactly the ids ≥ the key |
| Database.PartitionNonEmpty | src/database.rs:220-222 | the left child is pushed exactly when some id is below the key |
| Database.IdsInterior | src/database.rs:210-227 | every error is a panic; `IdsInteriorPushes` and `IdsInteriorRest` state what it pushes and leaves over |
| Database.IdsLeafCell | src/database.rs:233-252 | a leaf cell pushes nothing; `IdsLeafCellRow` states what it inserts |
| Database.IdsVisit | src/database.rs:205-254 | no contract of its own: the interior or the leaf step of `read_ids_from_table` by page type; `IdsVisitChildren` and `IdsVisitRows` state what it gives |
| Database.VisitIdsInterior | src/database.rs:210-232 | the interior-page loop of `read_ids_from_table` pushes exactly what `IdsInterior` describes, and panics when it does |
| Database.VisitIdsCell | src/database.rs:233-252 | the per-cell step on a leaf inserts exactly what `IdsLeafCell` describes |
| Database.VisitIdsLeaf | src/database.rs:233-252 | the leaf loop inserts exactly what the fold of `IdsLeafCell` describes |
| Database.VisitIdsPage | src/database.rs:205-254 | the page step of `read_ids_from_table` pushes and inserts exactly what `IdsVisit` describes |
| Database.ReadIdsFromTable | src/database.rs:186-269 | page number 0 panics; with a selection, the result is every row `Reach` finds from the root, and never panics when no page does; without one, the lines of the root page |
| Database.IdsInteriorRest | src/database.rs:216-227 | the ids left after an interior page are exactly the wanted ids at or above all its keys |
| Database.IdsInteriorPushes | src/database.rs:210-232 | an interior page pushes exactly the left children of the cells `j` for which some wanted id is strictly below key `j` and at or above every earlier key |
| Database.IdsVisitChildren | src/database.rs:210-232 | an interior table page inserts nothing; it pushes those children, plus the right-most pointer exactly when some wanted id is at or above every key |
| Database.IdsLeafCellRow | src/database.rs:233-252 | a leaf cell inserts its row exactly when its rowid is wanted and its record's column 0 is NULL |
| Database.IdsVisitRows | src/database.rs:233-252 | a leaf page pushes nothing and inserts exactly the rendered rows of its cells whose rowid is wanted |
| Database.SelectQuery | src/database.rs:56-60 | the value searched for exists exactly when there is a selection |
| Database.Route | src/database.rs:79-98 | for `Less` it pushes the left child's index and panics exactly on a left child 0; for `Greater` it pushes the right-most child's index, nothing when there is none, and panics exactly on a right-most pointer 0; for `Equal` it yields the column-1 rowid and panics exactly when that is not an I8, I16, I24 or I32 value; every error is a panic |
| Database.IndexInteriorCellAsWritten | src/database.rs:73-102 | the interior index cell as written (its key compared with the query) fails only by a panic; `IndexInteriorCellAsWrittenParts` states its routing |
| Database.IndexInteriorCell | src/database.rs:73-102 | corrected: the interior index cell with the query compared with the key fails only by a panic; `IndexInteriorCellParts` states its routing |
| Database.IndexVisit | src/database.rs:65-123 | corrected, no contract of its own: the fold of `IndexInteriorCell` on interior pages and of `IndexLeafCell` on leaves; `IndexInteriorRoutes` and `IndexLeafIds` state what it gives |
| Database.IndexVisitAsWritten | src/database.rs:65-123 | no contract of its own: the fold of `IndexInteriorCellAsWritten` on interior pages and of `IndexLeafCell` on leaves; `IndexInteriorRoutesAsWritten` and `IndexLeafIds` state what it gives |
| Database.IndexLeafCell | src/database.rs:104-122 | a leaf index cell pushes nothing |
| Database.VisitIndexInteriorCell | src/database.rs:74-100 | the per-cell step on an interior index page, comparing the key with the query as the source does, does exactly what `IndexInteriorCellAsWritten` describes |
| Database.VisitIndexLeafCell | src/database.rs:105-121 | the per-cell step on a leaf index page inserts exactly what `IndexLeafCell` describes |
| Database.VisitIndexInterior | src/database.rs:73-102 | the cell loop of an interior index page does exactly what the fold of `IndexInteriorCellAsWritten` describes |
| Database.VisitIndexLeaf | src/database.rs:104-122 | the cell loop of a leaf index page does exactly what the fold of `IndexLeafCell` describes |
| Database.VisitIndexPage | src/database.rs:65-123 | the page step of `read_index` pushes and inserts exactly what `IndexVisitAsWritten` describes |
| Database.ReadIndex | src/database.rs:48-127 | page number 0 panics; the result is every rowid `Reach` finds from the root under the as-written visit `IndexVisitAsWritten`, and it never panics when no page does |
| Database.IndexInteriorCellAsWrittenParts | src/database.rs:79-98 | as written, an interior index cell descends into its left child exactly when its key compares `Less` than the query, into the right-most child exactly when `Greater`; it inserts its rowid exactly when the key equals the query |
| Database.IndexInteriorCellParts | src/database.rs:79-98 | corrected: an interior index cell descends left exactly when the query is below its key, right exactly when above; it inserts its rowid exactly when the key equals the query |
| Database.IndexLeafCellParts | src/database.rs:105-121 | a leaf index cell inserts its rowid exactly when its key equals the query |
| Database.IndexInteriorRoutesAsWritten | src/database.rs:73-102 | as written, an interior index page pushes exactly the pages some cell's key-versus-query comparison descends to, and inserts exactly the rowids of cells whose key is the query |
| Database.IndexInteriorRoutes | src/database.rs:73-102 | corrected: an interior index page pushes exactly the pages some cell's query-versus-key comparison descends to, and inserts exactly the rowids of cells whose key is the query |
| Database.IndexLeafIds | src/database.rs:104-122 | a leaf index page, as written (the corrected visit treats leaves the same way), pushes nothing and inserts exactly the rowids of its entries whose key is the query |
| Database.ReadIndexAsWrittenMisses | src/database.rs:79-87 | on a two-level index with keys "a", "b", "c", a search for "a" as written finds nothing |
| Database.ReadIndexFindsEntry | src/database.rs:79-87 | corrected: on the same index the query-versus-key comparison finds rowid 1 for "a" |
| Query.Position | src/sql.rs:24-43 | the first position of a name, or none exactly when the name is absent |
| Query.GetFields | src/sql.rs:24-43 | `get_fields` gives one field per selected name, in order, with its first position among the declared columns |
| Query.GetFieldsUndeclared | src/sql.rs:24-43 | a selected name that is not declared gets position 0 |
| Query.DigitsRoundTrip | src/sql.rs:74-75 | the decimal digits of a number read back as that number |
| Query.DecimalRoundTrip | src/sql.rs:74-75 | the decimal rendering of a rowid, with its sign, reads back as the rowid |
| Query.JoinLength | src/sql.rs:74-78 | joining with a separator adds one separator between each pair of parts |
| Query.Rendered | src/sql.rs:63-72 | the column values of a row in field order, position 0 standing for the rowid; it panics exactly when a field is past the record |
| Query.ProjectRow | src/sql.rs:63-78 | a row renders exactly when every field exists, there is at least one field, and a rowid exists for a leading position-0 field |
| Query.ProjectRowExample | tests/select.rs:118-142 | the row with rowid 297 and name "Stealth (New Earth)" renders as `297|Stealth (New Earth)` |
| Query.MatchedRow | src/sql.rs:45-94 | a row is skipped exactly when it does not match the selection; a matching row renders or panics |
| Query.PrintRows | src/sql.rs:45-94 | `print_rows` adds exactly the rendered matching row to the set |
| Query.PrintRowsAddsAtMostOne | src/sql.rs:45-94 | at most one row is added, and only for a matching record |
| Query.PrintRowsNeedsNullColumn0 | src/sql.rs:55-59 | a record whose column 0 is not NULL never matches |
| Query.RowByRowid | src/sql.rs:96-138 | a row is skipped exactly when its column 0 is missing or not NULL; otherwise it renders |
| Query.PrintRowsByRowid | src/sql.rs:96-138 | `print_rows_by_rowid` adds exactly that row |
| Query.PrintRowsByRowidAddsOne | src/sql.rs:96-138 | a renderable record with a NULL column 0 adds its row |
| Query.IdOf | src/sql.rs:150-156 | a rowid column is read exactly from I8, I16, I24 and I32 values |
| Query.IdAt | src/sql.rs:148-157 | the rowid of an index entry exists exactly when column 1 is such a value; otherwise `todo!()` panics |
| Query.MatchedId | src/sql.rs:140-163 | an index entry gives a rowid only when its key matches, and then exactly its column-1 id |
| Query.PrintRowId | src/sql.rs:140-163 | `print_row_id` adds exactly that rowid to the set |

## Left out

- main.rs, the command line and the `.dbinfo`/`.tables` commands are not part of this model.
- `Sql::from_str` (the SQL parser built on sqlparser) is left out: it calls into a library the model cannot see.
  `Sql` is taken as already parsed.
- `fs::read` is left out: `ReadFile` takes the bytes of the file.
- Printing is left out: `println!` lines become returned sequences of strings.
- `SerialValue::display` is a function parameter, because it formats floating point.
- `Float64` columns keep their 8 raw bytes; no floating-point value is modelled.
- Traversal cells: the traversals call a three-argument `Cell::from_bytes(page_type, offset, buffer)`
  (src/database.rs:68, 144) and read the `Option` fields `page_number_left_child`, `rowid` and `record` of the
  cell it returns. src/cell.rs has only a one-argument `from_bytes(bytes)` for table-leaf cells, with non-`Option`
  fields. That three-argument constructor is not part of this model. The traversals are therefore modelled over
  the decoded `TreePage`, and a page whose cells fail to decode (the `expect` panics) is outside their inputs.
- Without a selection, `read_table` and `read_ids_from_table` print the cells that `read_cell` returns. A cell
  for which `read_cell` fails is skipped there, as the source does with its `if let Ok`.
- `rowid_set`, the set `read_ids_from_table` keeps but never changes, is left out.
- The `HashMap` of selections is iterated in the order of `Sql.selection`.
- `_index_statement` is not modelled: `read_index` never reads it.
- Database.ReadTable, Database.ReadIdsFromTable: each requires a `rank` showing that pushes go strictly downwards,
  and only when there is a selection. On a cyclic page graph the source loops forever.
- Database.ReadIdsFromTable: requires `ids` to be sorted, since `partition_point` is only meaningful on a sorted
  slice.
- Database.ReadIdsFromTable: on a leaf page the source first filters the cells, then prints them. The model does
  both in one loop. The outcome is the same, because either phase can only panic.
- Database.ChildIndex: a child page number 0 underflows `page_num - 1`. It is modelled as a panic, which is what a
  debug build does.
- Database.ReadIndex: requires a `rank` for the as-written visit, showing that pushes go strictly downwards. With
  duplicate keys spread over several children, even the corrected search does not descend on `Equal`, so it can
  miss entries. This is not proved either way.
- Database.IdsInterior: `partition_point(|id| *id < key)` sends an id equal to a cell's key to the right of that
  cell, whereas the SQLite file format keeps rowids up to the key in the left child. The model follows the code;
  no lemma states what this misses.
- Records.NewRecord: requires that `Record::new` does not panic. The panic cases are characterised by
  `DecodeRecord` returning `Err(Panic)`.
- Varint.ReadVarint: requires the varint to end inside the data, because `Varint::read` indexes past the end
  otherwise.
- Database.ReadFile: requires a file of at least 100 bytes whose pages can all be built. The source panics on
  the `file[0..100]` slice, on a zero page size, on the two `assert_eq!`s and inside `Page::new`.
- Pages.NewPage: requires a page with room for its header and cell pointers (`Constructible`). The source panics
  otherwise.
- Records.UnsignedFits: I24 and I48 are read zero-extended, exactly as the source writes them, although the
  SQLite file format stores them as two's complement.
- Varint.Varint8: `decode_varint` stops after 8 bytes and never reads a ninth. The rest of the model uses this
  decoder, as the source does.

## Findings

| source | as written | input that shows it | evidently intended | confidence | as-written member | corrected member |
|---|---|---|---|---|---|---|
| src/varint.rs:32-45 | the ninth byte of a varint is shifted in by 7 bits like the others, so its top bit is OR-ed into bit 7, where it collides with the lowest bit of the eighth group | the 9-byte encoding of 2^56 (0x80, 0xC0, six bytes 0x80, then 0x00) is read as 2^55 | the ninth byte contributes all 8 bits, as the SQLite file format defines it | not executed | Varint.Varint9 / Varint.Varint9MisreadsTwoToThe56 | Varint.VarintFormat / Varint.VarintFormatRoundTrip |
| src/database.rs:79 | an interior index cell compares its key with the query (`key.cmp(query)`) and pushes the left child on `Less`, that is, whenever the key is smaller than the query | root page with key "b" (rowid 2), left child a leaf with "a" (rowid 1), right-most pointer a leaf with "c" (rowid 3); searching for "a" pushes only the right-most leaf and finds nothing | compare the query with the key (`query.cmp(key)`): descend left when the query is smaller than the key, follow the right-most pointer when it is larger | not executed | Database.IndexInteriorCellAsWritten / Database.ReadIndexAsWrittenMisses | Database.IndexInteriorCellParts / Database.IndexInteriorRoutes |
