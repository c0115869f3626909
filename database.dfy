/**
 * src/database.rs. Opening a database file (`Database::read_file`): the
 * 100-byte file header is decoded, the file is checked to be whole pages
 * carrying the magic string, and every page-sized chunk becomes a `Page`.
 * The bytes of the file are the input; reading them from disk is not modelled.
 *
 * Then the three traversals, `read_table`, `read_ids_from_table` and
 * `read_index`, over decoded pages (see module Trees). Page numbers are
 * 1-based, so page number `n` is index `n - 1`; an index with no page is
 * skipped. What the source prints is returned as lines; a panic is
 * `Err(Panic)`.
 */
module Database {
  import opened Bytes
  import opened Errors
  import opened DbHeaders
  import opened Pages
  import opened Columns
  import opened Records
  import opened Trees
  import opened Query

  /** `Database { header, pages }`. */
  datatype Database = Database(header: DbHeader, pages: seq<Page>)

  /** Chunk `i` of `file.chunks(ps)`: the bytes `[i * ps, (i + 1) * ps)`. */
  function Chunk(file: seq<byte>, ps: nat, i: nat): (c: seq<byte>)
    requires (i + 1) * ps <= |file|
    ensures |c| == ps
  {
    file[i * ps..(i + 1) * ps]
  }

  /** The first `n` chunks, in file order. */
  function Chunks(file: seq<byte>, ps: nat, n: nat): (cs: seq<seq<byte>>)
    requires n * ps <= |file|
    ensures |cs| == n
  {
    if n == 0 then [] else Chunks(file, ps, n - 1) + [Chunk(file, ps, n - 1)]
  }

  /** The concatenation of a sequence of byte strings. */
  function Concat(cs: seq<seq<byte>>): seq<byte>
  {
    if cs == [] then [] else Concat(cs[..|cs| - 1]) + cs[|cs| - 1]
  }

  /** The first `n` chunks, put back together, are the first `n * ps` bytes of the file. */
  lemma {:induction false} ChunksConcat(file: seq<byte>, ps: nat, n: nat)
    requires n * ps <= |file|
    ensures Concat(Chunks(file, ps, n)) == file[..n * ps]
  {
    if n > 0 {
      var cs := Chunks(file, ps, n);
      assert cs[..n - 1] == Chunks(file, ps, n - 1);
      ChunksConcat(file, ps, n - 1);
      assert file[..(n - 1) * ps] + file[(n - 1) * ps..n * ps] == file[..n * ps];
    }
  }

  /** When the length is a multiple of the page size, the chunks are exactly the file. */
  lemma ChunksCoverFile(file: seq<byte>, ps: nat)
    requires ps > 0 && |file| % ps == 0
    ensures (|file| / ps) * ps == |file|
    ensures Concat(Chunks(file, ps, |file| / ps)) == file
  {
    ChunksConcat(file, ps, |file| / ps);
    assert file[..|file|] == file;
  }

  /**
   * What `read_file` demands of a file whose header decodes, beyond the
   * `file[0..100]` slice: the page size divides the length (a zero page size
   * makes the `%` panic), the magic string is right (both `assert_eq!`s), and
   * no `Page::new` panics.
   */
  predicate PagesConstructible(file: seq<byte>, h: DbHeader)
  {
    && h.pageSize > 0
    && |file| % h.pageSize == 0
    && h.headerString == Magic
    && forall i :: 0 <= i < |file| / h.pageSize ==>
         (i + 1) * h.pageSize <= |file| && Constructible(i, Chunk(file, h.pageSize, i))
  }

  /** Page `i` of the file as `read_file` builds it: only page 0 gets the header. */
  predicate IsFilePage(file: seq<byte>, h: DbHeader, i: nat, page: Page)
  {
    && (i + 1) * h.pageSize <= |file|
    && IsPageOf(i, if i == 0 then Some(h) else None, Chunk(file, h.pageSize, i), page)
  }

  lemma MulLe(a: nat, b: nat, c: nat)
    requires a <= b
    ensures a * c <= b * c
  {
  }

  lemma DivNonNegative(len: nat, ps: nat)
    requires ps > 0
    ensures len / ps >= 0
  {
  }

  /** Chunk `k` lies inside the file for every `k` below the page count. */
  lemma ChunkFits(len: nat, ps: nat, k: nat)
    requires ps > 0 && k < len / ps
    ensures (k + 1) * ps <= len
  {
    MulLe(k + 1, len / ps, ps);
  }

  /** The `Page::new` call of `read_file` for chunk `i`. */
  method FilePage(file: seq<byte>, h: DbHeader, i: nat) returns (page: Page)
    requires PagesConstructible(file, h) && i < |file| / h.pageSize
    ensures IsFilePage(file, h, i, page)
  {
    ChunkFits(|file|, h.pageSize, i);
    page := NewPage(i, if i == 0 then Some(h) else None, Chunk(file, h.pageSize, i));
  }

  /** The `for` loop of `read_file`: one `Page::new` per page-size chunk, in file order. */
  method ReadPages(file: seq<byte>, h: DbHeader) returns (pages: seq<Page>)
    requires PagesConstructible(file, h)
    ensures |pages| == |file| / h.pageSize
    ensures forall i :: 0 <= i < |pages| ==> IsFilePage(file, h, i, pages[i])
  {
    DivNonNegative(|file|, h.pageSize);
    var n := |file| / h.pageSize;
    pages := [];
    var i := 0;
    while i < n
      invariant 0 <= i <= n
      invariant |pages| == i
      invariant forall k :: 0 <= k < i ==> IsFilePage(file, h, k, pages[k])
    {
      var page := FilePage(file, h, i);
      pages := pages + [page];
      i := i + 1;
    }
  }

  /** `Database::read_file`, on the bytes of the file. */
  method ReadFile(file: seq<byte>) returns (r: Result<Database>)
    requires |file| >= 100
    requires NewDbHeader(file[0..100]).Ok? ==> PagesConstructible(file, NewDbHeader(file[0..100]).value)
    ensures r.Err? <==> NewDbHeader(file[0..100]).Err?
    ensures r.Err? ==> r.error == InvalidUtf8
    ensures r.Ok? ==>
      var h := NewDbHeader(file[0..100]).value;
      && r.value.header == h
      && |r.value.pages| == |file| / h.pageSize
      && forall i :: 0 <= i < |r.value.pages| ==> IsFilePage(file, h, i, r.value.pages[i])
  {
    var hr := NewDbHeader(file[0..100]);
    if hr.Err? {
      return Err(hr.error);
    }
    var pages := ReadPages(file, hr.value);
    return Ok(Database(hr.value, pages));
  }

  // ---- Traversals ----

  /** Page number `n` as an index to push: `n as usize - 1`, which panics for 0. */
  function ChildIndex(n: int): (r: Result<seq<int>>)
    ensures r.Ok? <==> n >= 1
    ensures r.Ok? ==> r.value == [n - 1]
  {
    if n >= 1 then Ok([n - 1]) else Err(Panic)
  }

  /** The push for an optional page number: none for `None`. */
  function PushOf(n: Option<int>): (r: Result<seq<int>>)
    ensures r.Ok? <==> n.None? || n.value >= 1
    ensures r.Ok? ==> r.value == if n.Some? then [n.value - 1] else []
  {
    if n.Some? then ChildIndex(n.value) else Ok([])
  }

  /** A set of at most the one item. */
  function Maybe<T>(x: Option<T>): set<T>
  {
    if x.Some? then {x.value} else {}
  }

  /** What the source prints and inserts into `row_set`. */
  datatype Scan = Scan(rows: set<string>, lines: seq<string>)

  // ---- The branch without a selection ----

  /** `values` in the branch without a selection: `display` of each field's column, in field order. */
  function FieldValues(record: Record, fields: seq<(nat, string)>, display: SerialValue -> string): (r: Result<seq<string>>)
    ensures r.Err? ==> Panics(r)
    ensures r.Ok? <==> forall k :: 0 <= k < |fields| ==> fields[k].0 < |record.columns|
    ensures r.Ok? ==> (|r.value| == |fields| &&
      forall k :: 0 <= k < |fields| ==> r.value[k] == display(record.columns[fields[k].0].data))
  {
    if fields == [] then Ok([])
    else
      var init := fields[..|fields| - 1];
      var i := fields[|fields| - 1].0;
      assert forall k :: 0 <= k < |init| ==> init[k] == fields[k];
      var values :- FieldValues(record, init, display);
      if i < |record.columns| then Ok(values + [display(record.columns[i].data)]) else Err(Panic)
  }

  /** The line one cell prints: its values joined by "|", when it has a record. */
  function CellLine(cell: TreeCell, fields: seq<(nat, string)>, display: SerialValue -> string): (r: Result<seq<string>>)
    ensures r.Err? ==> Panics(r)
  {
    if cell.record.None? then Ok([])
    else
      var values :- FieldValues(cell.record.value, fields, display);
      Ok([Join(values, "|")])
  }

  function CellLines(cells: seq<TreeCell>, fields: seq<(nat, string)>, display: SerialValue -> string): (r: Result<seq<string>>)
    ensures r.Err? ==> Panics(r)
    decreases |cells|
  {
    if cells == [] then Ok([])
    else
      var first :- CellLine(cells[0], fields, display);
      var rest :- CellLines(cells[1..], fields, display);
      Ok(first + rest)
  }

  /**
   * The lines printed for a page when there is no selection: one per cell
   * that `read_cell` yields a record for, none on a page of unknown type.
   */
  function PageLines(page: TreePage, fields: seq<(nat, string)>, display: SerialValue -> string): (r: Result<seq<string>>)
    ensures r.Err? ==> Panics(r)
  {
    if page.pageType == PageError then Ok([]) else CellLines(page.cells, fields, display)
  }

  /** `xs` printed before the outcome `r`. */
  function Before(xs: seq<string>, r: Result<seq<string>>): Result<seq<string>>
  {
    match r
    case Ok(ys) => Ok(xs + ys)
    case Err(e) => Err(e)
  }

  lemma BeforeBefore(xs: seq<string>, ys: seq<string>, r: Result<seq<string>>)
    ensures Before(xs, Before(ys, r)) == Before(xs + ys, r)
  {
    if r.Ok? {
      assert xs + (ys + r.value) == (xs + ys) + r.value;
    }
  }

  /** The line one cell prints when there is no selection: `values.join("|")` over the fields. */
  method PrintCell(cell: TreeCell, fields: seq<(nat, string)>, display: SerialValue -> string) returns (r: Result<seq<string>>)
    ensures r == CellLine(cell, fields, display)
  {
    if cell.record.None? {
      return Ok([]);
    }
    var record := cell.record.value;
    var values: seq<string> := [];
    var f := 0;
    while f < |fields|
      invariant 0 <= f <= |fields|
      invariant FieldValues(record, fields[..f], display) == Ok(values)
    {
      assert fields[..f + 1][..f] == fields[..f];
      if fields[f].0 >= |record.columns| {
        assert FieldValues(record, fields, display).Err?;
        return Err(Panic);
      }
      values := values + [display(record.columns[fields[f].0].data)];
      f := f + 1;
    }
    assert fields[..f] == fields;
    r := Ok([Join(values, "|")]);
  }

  /** The `for i in 0..cell_len` loop the traversals run when there is no selection. */
  method PrintPage(page: TreePage, fields: seq<(nat, string)>, display: SerialValue -> string) returns (r: Result<seq<string>>)
    ensures r == PageLines(page, fields, display)
  {
    if page.pageType == PageError {
      return Ok([]);
    }
    var lines: seq<string> := [];
    var i := 0;
    assert page.cells[0..] == page.cells;
    match CellLines(page.cells, fields, display) {
      case Ok(ys) => assert lines + ys == ys;
      case Err(_) =>
    }
    while i < |page.cells|
      invariant 0 <= i <= |page.cells|
      invariant CellLines(page.cells, fields, display) == Before(lines, CellLines(page.cells[i..], fields, display))
    {
      assert page.cells[i..][0] == page.cells[i] && page.cells[i..][1..] == page.cells[i + 1..];
      var line := PrintCell(page.cells[i], fields, display);
      if line.Err? {
        return Err(Panic);
      }
      assert CellLines(page.cells[i..], fields, display) == Before(line.value, CellLines(page.cells[i + 1..], fields, display));
      BeforeBefore(lines, line.value, CellLines(page.cells[i + 1..], fields, display));
      lines := lines + line.value;
      i := i + 1;
    }
    assert page.cells[i..] == [];
    assert lines + [] == lines;
    r := Ok(lines);
  }

  // ---- read_table ----

  /** One cell of `read_table` with a selection: its left child is pushed, then its record goes through `print_rows`. */
  function TableCell(sql: Sql, fields: seq<(nat, string)>, display: SerialValue -> string, cell: TreeCell): Result<Visit<string>>
  {
    var pushes :- PushOf(cell.leftChild);
    var row :- if cell.record.Some? then MatchedRow(sql.selection, cell.record.value, cell.rowid, fields, display) else Ok(None);
    Ok(Visit(Maybe(row), pushes))
  }

  function TableCells(sql: Sql, fields: seq<(nat, string)>, display: SerialValue -> string): TreeCell -> Result<Visit<string>>
  {
    cell => TableCell(sql, fields, display, cell)
  }

  /** A page of `read_table` with a selection: every cell in order, then the right-most pointer. */
  function TableVisit(sql: Sql, fields: seq<(nat, string)>, display: SerialValue -> string, page: TreePage): Result<Visit<string>>
  {
    var v :- Fold(TableCells(sql, fields, display), page.cells);
    var right :- PushOf(page.rightMost);
    Ok(Visit(v.items, v.pushes + right))
  }

  function TableVisitor(sql: Sql, fields: seq<(nat, string)>, display: SerialValue -> string): TreePage -> Result<Visit<string>>
  {
    page => TableVisit(sql, fields, display, page)
  }

  /** One cell of `read_table`'s loop when there is a selection. */
  method VisitTableCell(sql: Sql, fields: seq<(nat, string)>, display: SerialValue -> string, cell: TreeCell,
                        stack: seq<int>, rowSet: set<string>) returns (r: Result<(seq<int>, set<string>)>)
    ensures r.Ok? <==> TableCell(sql, fields, display, cell).Ok?
    ensures r.Ok? ==> r.value == (stack + TableCell(sql, fields, display, cell).value.pushes,
                                  rowSet + TableCell(sql, fields, display, cell).value.items)
  {
    var st := stack;
    if cell.leftChild.Some? {
      if cell.leftChild.value < 1 {
        return Err(Panic);
      }
      st := st + [cell.leftChild.value - 1];
    }
    var rows := rowSet;
    if cell.record.Some? {
      var added := PrintRows(sql, cell.record.value, cell.rowid, fields, display, rowSet);
      if added.Err? {
        return Err(Panic);
      }
      rows := added.value;
    }
    assert stack + [] == stack && rowSet + {} == rowSet;
    r := Ok((st, rows));
  }

  /** The cell loop of `read_table`'s page step, when there is a selection. */
  method VisitTableCells(sql: Sql, fields: seq<(nat, string)>, display: SerialValue -> string, cells: seq<TreeCell>,
                         stack: seq<int>, rowSet: set<string>) returns (r: Result<(seq<int>, set<string>)>)
    ensures var f := Fold(TableCells(sql, fields, display), cells);
      (r.Ok? <==> f.Ok?) && (r.Ok? ==> r.value == (stack + f.value.pushes, rowSet + f.value.items))
  {
    ghost var visit := TableCells(sql, fields, display);
    var st := stack;
    var rows := rowSet;
    ghost var done: Visit<string> := Visit({}, []);
    AfterNothing(Fold(visit, cells));
    var k := 0;
    while k < |cells|
      invariant 0 <= k <= |cells|
      invariant Fold(visit, cells) == After(done, Fold(visit, cells[k..]))
      invariant st == stack + done.pushes && rows == rowSet + done.items
    {
      var step := VisitTableCell(sql, fields, display, cells[k], st, rows);
      if step.Err? {
        FoldPanics(visit, cells, k, done);
        return Err(Panic);
      }
      ghost var v := visit(cells[k]).value;
      FoldStep(visit, cells, k, done);
      assert st + v.pushes == stack + (done.pushes + v.pushes);
      assert rows + v.items == rowSet + (done.items + v.items);
      done := Then(done, v);
      st, rows := step.value.0, step.value.1;
      k := k + 1;
    }
    FoldEnd(visit, cells, done);
    r := Ok((st, rows));
  }

  /** The body of `read_table`'s loop for one page, when there is a selection. */
  method VisitTablePage(sql: Sql, fields: seq<(nat, string)>, display: SerialValue -> string, page: TreePage,
                        stack: seq<int>, rowSet: set<string>) returns (r: Result<(seq<int>, set<string>)>)
    ensures r.Ok? <==> TableVisit(sql, fields, display, page).Ok?
    ensures r.Ok? ==> r.value == (stack + TableVisit(sql, fields, display, page).value.pushes,
                                  rowSet + TableVisit(sql, fields, display, page).value.items)
  {
    var cells := VisitTableCells(sql, fields, display, page.cells, stack, rowSet);
    if cells.Err? {
      return Err(Panic);
    }
    ghost var done := Fold(TableCells(sql, fields, display), page.cells).value;
    var st, rows := cells.value.0, cells.value.1;
    if page.rightMost.Some? {
      if page.rightMost.value < 1 {
        return Err(Panic);
      }
      st := st + [page.rightMost.value - 1];
    }
    assert st == stack + (done.pushes + PushOf(page.rightMost).value);
    r := Ok((st, rows));
  }

  /** The lines of the root page when there is no selection: none when there is no such page. */
  function RootLines(pages: seq<TreePage>, root: int, fields: seq<(nat, string)>, display: SerialValue -> string): Result<seq<string>>
  {
    if 0 <= root < |pages| then PageLines(pages[root], fields, display) else Ok([])
  }

  /**
   * `Database::read_table(num, select_statement, fields, row_set, _)`. With a
   * selection, every page reached from page `num` is visited and the matching
   * rows are added to `rowSet`; without one, only page `num` is read, and its
   * records are printed.
   */
  method ReadTable(pages: seq<TreePage>, ghost rank: seq<nat>, num: nat, sql: Sql, fields: seq<(nat, string)>,
                   display: SerialValue -> string, rowSet: set<string>) returns (r: Result<Scan>)
    requires |sql.selection| > 0 ==> Ranked(pages, rank, TableVisitor(sql, fields, display))
    ensures r.Err? ==> Panics(r)
    ensures num == 0 ==> r.Err?
    ensures num > 0 && |sql.selection| > 0 && r.Ok? ==>
      r.value == Scan(rowSet + Reach(pages, rank, TableVisitor(sql, fields, display), num - 1), [])
    ensures num > 0 && |sql.selection| > 0 && Safe(pages, TableVisitor(sql, fields, display)) ==> r.Ok?
    ensures num > 0 && |sql.selection| == 0 ==>
      r == (match RootLines(pages, num - 1, fields, display) case Ok(ls) => Ok(Scan(rowSet, ls)) case Err(e) => Err(e))
  {
    if num == 0 {
      return Err(Panic);
    }
    ghost var visitor := TableVisitor(sql, fields, display);
    var stack: seq<int> := [num - 1];
    var rows := rowSet;
    var lines: seq<string> := [];
    assert [num - 1][..0] == [];
    while stack != []
      invariant |sql.selection| > 0 ==> (lines == [] &&
        rows + ReachAll(pages, rank, visitor, stack) == rowSet + Reach(pages, rank, visitor, num - 1))
      invariant |sql.selection| == 0 ==> (rows == rowSet &&
        ((stack == [num - 1] && lines == []) || (stack == [] && RootLines(pages, num - 1, fields, display) == Ok(lines))))
      decreases if |sql.selection| > 0 then SizeAll(pages, rank, visitor, stack) else |stack|
    {
      var p := stack[|stack| - 1];
      ghost var before := stack;
      stack := stack[..|stack| - 1];
      assert |sql.selection| > 0 ==> SizeAll(pages, rank, visitor, before) == SizeAll(pages, rank, visitor, stack) + Size(pages, rank, visitor, p);
      if 0 <= p < |pages| {
        if |sql.selection| > 0 {
          var v := VisitTablePage(sql, fields, display, pages[p], stack, rows);
          assert visitor(pages[p]) == TableVisit(sql, fields, display, pages[p]);
          if v.Err? {
            return Err(Panic);
          }
          ReachAllAppend(pages, rank, visitor, stack, Pushes(visitor, pages[p]));
          SizeAllAppend(pages, rank, visitor, stack, Pushes(visitor, pages[p]));
          stack, rows := v.value.0, v.value.1;
        } else {
          var ls := PrintPage(pages[p], fields, display);
          if ls.Err? {
            return Err(ls.error);
          }
          assert lines + ls.value == ls.value;
          lines := lines + ls.value;
        }
      }
    }
    r := Ok(Scan(rows, lines));
  }

  lemma TableCellRow(sql: Sql, fields: seq<(nat, string)>, display: SerialValue -> string, cell: TreeCell, x: string)
    requires TableCell(sql, fields, display, cell).Ok?
    ensures x in TableCell(sql, fields, display, cell).value.items <==>
      cell.record.Some? && MatchedRow(sql.selection, cell.record.value, cell.rowid, fields, display) == Ok(Some(x))
  {
  }

  lemma TableCellChild(sql: Sql, fields: seq<(nat, string)>, display: SerialValue -> string, cell: TreeCell, p: int)
    requires TableCell(sql, fields, display, cell).Ok?
    ensures p in TableCell(sql, fields, display, cell).value.pushes <==> cell.leftChild == Some(p + 1)
  {
  }

  /** A page of `read_table` with a selection yields the rows `print_rows` makes of its cells' records. */
  lemma TableVisitRows(sql: Sql, fields: seq<(nat, string)>, display: SerialValue -> string, page: TreePage, x: string)
    requires TableVisit(sql, fields, display, page).Ok?
    ensures x in TableVisit(sql, fields, display, page).value.items <==>
      exists k :: 0 <= k < |page.cells| && page.cells[k].record.Some? &&
        MatchedRow(sql.selection, page.cells[k].record.value, page.cells[k].rowid, fields, display) == Ok(Some(x))
  {
    var visit := TableCells(sql, fields, display);
    assert TableVisit(sql, fields, display, page).value.items == Fold(visit, page.cells).value.items;
    FoldOk(visit, page.cells);
    FoldItems(visit, page.cells, x);
    forall k | 0 <= k < |page.cells|
      ensures x in visit(page.cells[k]).value.items <==> (page.cells[k].record.Some? &&
        MatchedRow(sql.selection, page.cells[k].record.value, page.cells[k].rowid, fields, display) == Ok(Some(x)))
    {
      TableCellRow(sql, fields, display, page.cells[k], x);
    }
  }

  /** A page of `read_table` with a selection pushes every child: each cell's left child and the right-most child. */
  lemma TableVisitChildren(sql: Sql, fields: seq<(nat, string)>, display: SerialValue -> string, page: TreePage, p: int)
    requires TableVisit(sql, fields, display, page).Ok?
    ensures p in TableVisit(sql, fields, display, page).value.pushes <==>
      (exists k :: 0 <= k < |page.cells| && page.cells[k].leftChild == Some(p + 1)) || page.rightMost == Some(p + 1)
  {
    var visit := TableCells(sql, fields, display);
    var f := Fold(visit, page.cells).value;
    assert TableVisit(sql, fields, display, page).value.pushes == f.pushes + PushOf(page.rightMost).value;
    FoldOk(visit, page.cells);
    FoldPushes(visit, page.cells, p);
    forall k | 0 <= k < |page.cells|
      ensures p in visit(page.cells[k]).value.pushes <==> page.cells[k].leftChild == Some(p + 1)
    {
      TableCellChild(sql, fields, display, page.cells[k], p);
    }
  }

  /**
   * A row that `print_rows` makes of a cell on a page at the end of a push
   * path from page index `root` is among the rows `read_table` collects
   * from `root`. With ReachHasPath, `read_table` collects exactly the rows
   * of the pages reachable from the root.
   */
  lemma ReadTableFindsRow(pages: seq<TreePage>, rank: seq<nat>, sql: Sql, fields: seq<(nat, string)>,
                          display: SerialValue -> string, path: seq<int>, k: nat, x: string)
    requires Ranked(pages, rank, TableVisitor(sql, fields, display))
    requires PushPath(pages, TableVisitor(sql, fields, display), path)
    requires TableVisit(sql, fields, display, pages[path[|path| - 1]]).Ok?
    requires k < |pages[path[|path| - 1]].cells|
    requires var cell := pages[path[|path| - 1]].cells[k];
      cell.record.Some? && MatchedRow(sql.selection, cell.record.value, cell.rowid, fields, display) == Ok(Some(x))
    ensures x in Reach(pages, rank, TableVisitor(sql, fields, display), path[0])
  {
    var page := pages[path[|path| - 1]];
    TableVisitRows(sql, fields, display, page, x);
    ReachAlongPath(pages, rank, TableVisitor(sql, fields, display), path);
  }

  /** The records of the cells that have one, in cell order. */
  function RecordsOf(cells: seq<TreeCell>): (rs: seq<Record>)
    ensures |rs| <= |cells|
  {
    if cells == [] then []
    else (if cells[0].record.Some? then [cells[0].record.value] else []) + RecordsOf(cells[1..])
  }

  /**
   * Without a selection a page prints one line per record, in cell order:
   * the displayed fields of the record joined by "|".
   */
  lemma {:induction false} CellLinesShape(cells: seq<TreeCell>, fields: seq<(nat, string)>, display: SerialValue -> string)
    requires CellLines(cells, fields, display).Ok?
    ensures var lines := CellLines(cells, fields, display).value; var rs := RecordsOf(cells);
      |lines| == |rs| &&
      forall i :: 0 <= i < |rs| ==> FieldValues(rs[i], fields, display).Ok? && lines[i] == Join(FieldValues(rs[i], fields, display).value, "|")
    decreases |cells|
  {
    if cells != [] {
      CellLinesShape(cells[1..], fields, display);
    }
  }

  /** A page of unknown type prints nothing; any other page prints the lines of CellLinesShape. */
  lemma PageLinesShape(page: TreePage, fields: seq<(nat, string)>, display: SerialValue -> string)
    requires PageLines(page, fields, display).Ok?
    ensures page.pageType == PageError ==> PageLines(page, fields, display).value == []
    ensures page.pageType != PageError ==> |PageLines(page, fields, display).value| == |RecordsOf(page.cells)|
  {
    if page.pageType != PageError {
      CellLinesShape(page.cells, fields, display);
    }
  }

  // ---- read_ids_from_table ----

  /** Ascending order, which `partition_point` and `binary_search` assume of `ids`. */
  predicate Sorted(ids: seq<int>)
  {
    forall a, b :: 0 <= a < b < |ids| ==> ids[a] <= ids[b]
  }

  /** `ids.partition_point(|id| *id < key)`: the length of the prefix of ids below `key`. */
  function PartitionPoint(ids: seq<int>, key: int): (n: nat)
    ensures n <= |ids|
    ensures forall k :: 0 <= k < n ==> ids[k] < key
    ensures n < |ids| ==> ids[n] >= key
  {
    if ids == [] || ids[0] >= key then 0 else 1 + PartitionPoint(ids[1..], key)
  }

  /** `ps` pushed before the outcome `r` of the rest of an interior page. */
  function Shifted(ps: seq<int>, r: Result<(seq<int>, seq<int>)>): Result<(seq<int>, seq<int>)>
  {
    match r
    case Ok((pushes, rest)) => Ok((ps + pushes, rest))
    case Err(e) => Err(e)
  }

  lemma ShiftedShifted(ps: seq<int>, qs: seq<int>, r: Result<(seq<int>, seq<int>)>)
    ensures Shifted(ps, Shifted(qs, r)) == Shifted(ps + qs, r)
  {
    if r.Ok? {
      assert ps + (qs + r.value.0) == (ps + qs) + r.value.0;
    }
  }

  /**
   * The cells of an interior table page in `read_ids_from_table`: each cell
   * splits off the ids below its key, and its left child is pushed when that
   * part is not empty. The result is the pushes and the ids left over.
   */
  function IdsInterior(ids: seq<int>, cells: seq<TreeCell>): (r: Result<(seq<int>, seq<int>)>)
    ensures r.Err? ==> Panics(r)
    decreases |cells|
  {
    if cells == [] then Ok(([], ids))
    else if cells[0].leftChild.None? || cells[0].rowid.None? then Err(Panic)
    else
      var n := PartitionPoint(ids, cells[0].rowid.value);
      var push :- if n > 0 then ChildIndex(cells[0].leftChild.value) else Ok([]);
      Shifted(push, IdsInterior(ids[n..], cells[1..]))
  }

  /** A cell of a leaf table page in `read_ids_from_table`: a cell whose rowid is one of `ids` goes through `print_rows_by_rowid`. */
  function IdsLeafCell(ids: seq<int>, fields: seq<(nat, string)>, display: SerialValue -> string, cell: TreeCell): (r: Result<Visit<string>>)
    ensures r.Ok? ==> r.value.pushes == []
  {
    if cell.rowid.None? then Err(Panic)
    else if cell.rowid.value !in ids then Ok(Visit({}, []))
    else if cell.record.None? then Err(Panic)
    else
      var row :- RowByRowid(cell.record.value, cell.rowid, fields, display);
      Ok(Visit(Maybe(row), []))
  }

  function IdsLeafCells(ids: seq<int>, fields: seq<(nat, string)>, display: SerialValue -> string): TreeCell -> Result<Visit<string>>
  {
    cell => IdsLeafCell(ids, fields, display, cell)
  }

  /**
   * A page of `read_ids_from_table` with a selection: an interior table page
   * pushes the children that can hold one of `ids`, and its right-most child
   * when some id is at or above every key; a leaf table page yields the rows of
   * the cells with one of `ids`; any other page does nothing.
   */
  function IdsVisit(ids: seq<int>, fields: seq<(nat, string)>, display: SerialValue -> string, page: TreePage): Result<Visit<string>>
  {
    match page.pageType
    case InteriorTable =>
      var t :- IdsInterior(ids, page.cells);
      if t.1 == [] then Ok(Visit({}, t.0))
      else
        var right :- PushOf(page.rightMost);
        Ok(Visit({}, t.0 + right))
    case LeafTable => Fold(IdsLeafCells(ids, fields, display), page.cells)
    case _ => Ok(Visit({}, []))
  }

  function IdsVisitor(ids: seq<int>, fields: seq<(nat, string)>, display: SerialValue -> string): TreePage -> Result<Visit<string>>
  {
    page => IdsVisit(ids, fields, display, page)
  }

  /** The `InteriorTable` arm of `read_ids_from_table`'s loop. */
  method VisitIdsInterior(ids: seq<int>, page: TreePage, stack: seq<int>) returns (r: Result<(seq<int>, seq<int>)>)
    ensures r.Ok? <==> IdsInterior(ids, page.cells).Ok?
    ensures r.Ok? ==> r.value == (stack + IdsInterior(ids, page.cells).value.0, IdsInterior(ids, page.cells).value.1)
  {
    var st := stack;
    var rest := ids;
    ghost var pushed: seq<int> := [];
    var k := 0;
    assert page.cells[0..] == page.cells;
    match IdsInterior(ids, page.cells) {
      case Ok(t) => assert [] + t.0 == t.0;
      case Err(_) =>
    }
    while k < |page.cells|
      invariant 0 <= k <= |page.cells|
      invariant IdsInterior(ids, page.cells) == Shifted(pushed, IdsInterior(rest, page.cells[k..]))
      invariant st == stack + pushed
    {
      var cell := page.cells[k];
      assert page.cells[k..][0] == cell && page.cells[k..][1..] == page.cells[k + 1..];
      if cell.leftChild.None? || cell.rowid.None? {
        return Err(Panic);
      }
      var n := PartitionPoint(rest, cell.rowid.value);
      var push: seq<int> := [];
      if n > 0 {
        if cell.leftChild.value < 1 {
          return Err(Panic);
        }
        push := [cell.leftChild.value - 1];
      }
      ShiftedShifted(pushed, push, IdsInterior(rest[n..], page.cells[k + 1..]));
      st, pushed := st + push, pushed + push;
      rest := rest[n..];
      k := k + 1;
    }
    assert page.cells[k..] == [] && pushed + [] == pushed;
    r := Ok((st, rest));
  }

  /** One cell of the `LeafTable` arm of `read_ids_from_table`'s loop. */
  method VisitIdsCell(ids: seq<int>, fields: seq<(nat, string)>, display: SerialValue -> string, cell: TreeCell,
                      rowSet: set<string>) returns (r: Result<set<string>>)
    ensures r.Ok? <==> IdsLeafCell(ids, fields, display, cell).Ok?
    ensures r.Ok? ==> r.value == rowSet + IdsLeafCell(ids, fields, display, cell).value.items
  {
    if cell.rowid.None? {
      return Err(Panic);
    }
    if cell.rowid.value !in ids {
      assert rowSet + {} == rowSet;
      return Ok(rowSet);
    }
    if cell.record.None? {
      return Err(Panic);
    }
    r := PrintRowsByRowid(cell.record.value, cell.rowid, fields, display, rowSet);
    if r.Err? {
      return Err(Panic);
    }
  }

  /** The `LeafTable` arm of `read_ids_from_table`'s loop. */
  method VisitIdsLeaf(ids: seq<int>, fields: seq<(nat, string)>, display: SerialValue -> string, page: TreePage,
                      rowSet: set<string>) returns (r: Result<set<string>>)
    ensures r.Ok? <==> Fold(IdsLeafCells(ids, fields, display), page.cells).Ok?
    ensures r.Ok? ==> r.value == rowSet + Fold(IdsLeafCells(ids, fields, display), page.cells).value.items
  {
    ghost var visit := IdsLeafCells(ids, fields, display);
    var rows := rowSet;
    ghost var done: Visit<string> := Visit({}, []);
    AfterNothing(Fold(visit, page.cells));
    var k := 0;
    while k < |page.cells|
      invariant 0 <= k <= |page.cells|
      invariant Fold(visit, page.cells) == After(done, Fold(visit, page.cells[k..]))
      invariant rows == rowSet + done.items
    {
      var step := VisitIdsCell(ids, fields, display, page.cells[k], rows);
      if step.Err? {
        FoldPanics(visit, page.cells, k, done);
        return Err(Panic);
      }
      ghost var v := visit(page.cells[k]).value;
      FoldStep(visit, page.cells, k, done);
      assert rows + v.items == rowSet + (done.items + v.items);
      done := Then(done, v);
      rows := step.value;
      k := k + 1;
    }
    FoldEnd(visit, page.cells, done);
    r := Ok(rows);
  }

  /** The body of `read_ids_from_table`'s loop for one page, when there is a selection. */
  method VisitIdsPage(ids: seq<int>, fields: seq<(nat, string)>, display: SerialValue -> string, page: TreePage,
                      stack: seq<int>, rowSet: set<string>) returns (r: Result<(seq<int>, set<string>)>)
    ensures r.Ok? <==> IdsVisit(ids, fields, display, page).Ok?
    ensures r.Ok? ==> r.value == (stack + IdsVisit(ids, fields, display, page).value.pushes,
                                  rowSet + IdsVisit(ids, fields, display, page).value.items)
  {
    assert rowSet + {} == rowSet && stack + [] == stack;
    match page.pageType {
      case InteriorTable =>
        var t := VisitIdsInterior(ids, page, stack);
        if t.Err? {
          return Err(Panic);
        }
        var st := t.value.0;
        if t.value.1 == [] {
          return Ok((st, rowSet));
        }
        if page.rightMost.Some? {
          if page.rightMost.value < 1 {
            return Err(Panic);
          }
          st := st + [page.rightMost.value - 1];
        }
        assert st == stack + (IdsInterior(ids, page.cells).value.0 + PushOf(page.rightMost).value);
        r := Ok((st, rowSet));
      case LeafTable =>
        var rows := VisitIdsLeaf(ids, fields, display, page, rowSet);
        if rows.Err? {
          return Err(Panic);
        }
        LeafPushesNothing(IdsLeafCells(ids, fields, display), page.cells);
        r := Ok((stack, rows.value));
      case _ =>
        r := Ok((stack, rowSet));
    }
  }

  /**
   * `Database::read_ids_from_table(num, select_statement, fields, row_set, _, ids)`:
   * with a selection, the table b-tree is searched from page `num` for the
   * rows whose rowid is one of `ids`; without one, only page `num` is read,
   * and its records are printed.
   */
  method ReadIdsFromTable(pages: seq<TreePage>, ghost rank: seq<nat>, num: nat, sql: Sql, fields: seq<(nat, string)>,
                          display: SerialValue -> string, rowSet: set<string>, ids: seq<int>) returns (r: Result<Scan>)
    requires Sorted(ids)
    requires |sql.selection| > 0 ==> Ranked(pages, rank, IdsVisitor(ids, fields, display))
    ensures r.Err? ==> Panics(r)
    ensures num == 0 ==> r.Err?
    ensures num > 0 && |sql.selection| > 0 && r.Ok? ==>
      r.value == Scan(rowSet + Reach(pages, rank, IdsVisitor(ids, fields, display), num - 1), [])
    ensures num > 0 && |sql.selection| > 0 && Safe(pages, IdsVisitor(ids, fields, display)) ==> r.Ok?
    ensures num > 0 && |sql.selection| == 0 ==>
      r == (match RootLines(pages, num - 1, fields, display) case Ok(ls) => Ok(Scan(rowSet, ls)) case Err(e) => Err(e))
  {
    if num == 0 {
      return Err(Panic);
    }
    ghost var visitor := IdsVisitor(ids, fields, display);
    var stack: seq<int> := [num - 1];
    var rows := rowSet;
    var lines: seq<string> := [];
    assert [num - 1][..0] == [];
    while stack != []
      invariant |sql.selection| > 0 ==> (lines == [] &&
        rows + ReachAll(pages, rank, visitor, stack) == rowSet + Reach(pages, rank, visitor, num - 1))
      invariant |sql.selection| == 0 ==> (rows == rowSet &&
        ((stack == [num - 1] && lines == []) || (stack == [] && RootLines(pages, num - 1, fields, display) == Ok(lines))))
      decreases if |sql.selection| > 0 then SizeAll(pages, rank, visitor, stack) else |stack|
    {
      var p := stack[|stack| - 1];
      ghost var before := stack;
      stack := stack[..|stack| - 1];
      assert |sql.selection| > 0 ==> SizeAll(pages, rank, visitor, before) == SizeAll(pages, rank, visitor, stack) + Size(pages, rank, visitor, p);
      if 0 <= p < |pages| {
        if |sql.selection| > 0 {
          var v := VisitIdsPage(ids, fields, display, pages[p], stack, rows);
          assert visitor(pages[p]) == IdsVisit(ids, fields, display, pages[p]);
          if v.Err? {
            return Err(Panic);
          }
          ReachAllAppend(pages, rank, visitor, stack, Pushes(visitor, pages[p]));
          SizeAllAppend(pages, rank, visitor, stack, Pushes(visitor, pages[p]));
          stack, rows := v.value.0, v.value.1;
        } else {
          var ls := PrintPage(pages[p], fields, display);
          if ls.Err? {
            return Err(ls.error);
          }
          assert lines + ls.value == ls.value;
          lines := lines + ls.value;
        }
      }
    }
    r := Ok(Scan(rows, lines));
  }

  /** Splitting sorted ids at the partition point of `key` leaves the ids at or above `key`, still sorted. */
  lemma PartitionSuffix(ids: seq<int>, key: int)
    requires Sorted(ids)
    ensures Sorted(ids[PartitionPoint(ids, key)..])
    ensures forall id :: id in ids[PartitionPoint(ids, key)..] <==> id in ids && id >= key
  {
    var n := PartitionPoint(ids, key);
    assert forall a :: 0 <= a < |ids| - n ==> ids[n..][a] == ids[n + a];
    forall id | id in ids && id >= key
      ensures id in ids[n..]
    {
      var a :| 0 <= a < |ids| && ids[a] == id;
      assert ids[n..][a - n] == id;
    }
  }

  /** Some of the sorted ids are below `key` exactly when the partition point is not 0. */
  lemma PartitionNonEmpty(ids: seq<int>, key: int)
    requires Sorted(ids)
    ensures PartitionPoint(ids, key) > 0 <==> exists id :: id in ids && id < key
  {
    if PartitionPoint(ids, key) > 0 {
      assert ids[0] in ids;
    }
  }

  /** Every key of the cells' rowids is at most `id`. */
  predicate AboveAll(cells: seq<TreeCell>, id: int)
  {
    forall i :: 0 <= i < |cells| ==> cells[i].rowid.Some? && cells[i].rowid.value <= id
  }

  /** Every cell before `j` has a rowid. */
  predicate KeysBefore(cells: seq<TreeCell>, j: nat)
  {
    j <= |cells| && forall i :: 0 <= i < j ==> cells[i].rowid.Some?
  }

  /**
   * Some id can be under the left child of cell `j`: it is below key `j`
   * and not below any earlier key.
   */
  predicate Wanted(ids: seq<int>, cells: seq<TreeCell>, j: nat)
    requires j < |cells| && KeysBefore(cells, j + 1)
  {
    exists id :: id in ids && id < cells[j].rowid.value && AboveAll(cells[..j], id)
  }

  lemma WantedShift(ids: seq<int>, cells: seq<TreeCell>, j: nat)
    requires Sorted(ids) && 1 <= j < |cells| && KeysBefore(cells, j + 1)
    ensures KeysBefore(cells[1..], j)
    ensures Wanted(ids, cells, j) <==> Wanted(ids[PartitionPoint(ids, cells[0].rowid.value)..], cells[1..], j - 1)
  {
    var key := cells[0].rowid.value;
    var rest := ids[PartitionPoint(ids, key)..];
    PartitionSuffix(ids, key);
    assert cells[1..][j - 1] == cells[j];
    assert forall id :: AboveAll(cells[..j], id) <==> id >= key && AboveAll(cells[1..][..j - 1], id) by {
      assert forall i :: 1 <= i < j ==> cells[..j][i] == cells[1..][..j - 1][i - 1];
      forall id | id >= key && AboveAll(cells[1..][..j - 1], id)
        ensures AboveAll(cells[..j], id)
      {
        forall i | 0 <= i < j
          ensures cells[..j][i].rowid.Some? && cells[..j][i].rowid.value <= id
        {
          if i > 0 {
            assert cells[..j][i] == cells[1..][..j - 1][i - 1];
          }
        }
      }
    }
  }

  /** An interior table page that does not panic has a left child and a rowid in every cell. */
  lemma {:induction false} IdsInteriorKeys(ids: seq<int>, cells: seq<TreeCell>)
    requires IdsInterior(ids, cells).Ok?
    ensures KeysBefore(cells, |cells|) && forall j :: 0 <= j < |cells| ==> cells[j].leftChild.Some?
    decreases |cells|
  {
    if cells != [] {
      IdsInteriorKeys(ids[PartitionPoint(ids, cells[0].rowid.value)..], cells[1..]);
      assert forall j :: 1 <= j < |cells| ==> cells[j] == cells[1..][j - 1];
    }
  }

  lemma AboveAllShift(cells: seq<TreeCell>, id: int)
    requires cells != []
    ensures AboveAll(cells, id) <==> cells[0].rowid.Some? && cells[0].rowid.value <= id && AboveAll(cells[1..], id)
  {
    assert forall j :: 1 <= j < |cells| ==> cells[j] == cells[1..][j - 1];
  }

  /** The ids an interior table page leaves over, for sorted ids: those not below any key. */
  lemma {:induction false} IdsInteriorRest(ids: seq<int>, cells: seq<TreeCell>, id: int)
    requires Sorted(ids) && IdsInterior(ids, cells).Ok?
    ensures id in IdsInterior(ids, cells).value.1 <==> id in ids && AboveAll(cells, id)
    decreases |cells|
  {
    if cells != [] {
      var key := cells[0].rowid.value;
      PartitionSuffix(ids, key);
      IdsInteriorRest(ids[PartitionPoint(ids, key)..], cells[1..], id);
      AboveAllShift(cells, id);
    }
  }

  /** The cells some id can be under: the first cell when some id is below its key, and the later ones as seen by the ids left over. */
  lemma WantedSplit(ids: seq<int>, cells: seq<TreeCell>, p: int)
    requires Sorted(ids) && cells != [] && KeysBefore(cells, |cells|)
    requires forall j :: 0 <= j < |cells| ==> cells[j].leftChild.Some?
    ensures KeysBefore(cells[1..], |cells| - 1)
    ensures (exists j :: 0 <= j < |cells| && Wanted(ids, cells, j) && p == cells[j].leftChild.value - 1) <==>
      (PartitionPoint(ids, cells[0].rowid.value) > 0 && p == cells[0].leftChild.value - 1) ||
      (exists j :: 0 <= j < |cells| - 1 && Wanted(ids[PartitionPoint(ids, cells[0].rowid.value)..], cells[1..], j) &&
         p == cells[1..][j].leftChild.value - 1)
  {
    var key := cells[0].rowid.value;
    var n := PartitionPoint(ids, key);
    var tail := cells[1..];
    PartitionNonEmpty(ids, key);
    assert forall j :: 1 <= j < |cells| ==> cells[j] == tail[j - 1];
    assert Wanted(ids, cells, 0) <==> n > 0 by {
      assert forall id :: AboveAll(cells[..0], id);
    }
    forall j | 1 <= j < |cells|
      ensures Wanted(ids, cells, j) <==> Wanted(ids[n..], tail, j - 1)
    {
      WantedShift(ids, cells, j);
    }
    if exists j :: 0 <= j < |cells| - 1 && Wanted(ids[n..], tail, j) && p == tail[j].leftChild.value - 1 {
      var j :| 0 <= j < |cells| - 1 && Wanted(ids[n..], tail, j) && p == tail[j].leftChild.value - 1;
      assert Wanted(ids, cells, j + 1);
    }
  }

  /**
   * The pruning of an interior table page in `read_ids_from_table`, for
   * sorted ids: the left child of a cell is pushed exactly when some id can
   * be under it.
   */
  lemma {:induction false} IdsInteriorPushes(ids: seq<int>, cells: seq<TreeCell>, p: int)
    requires Sorted(ids) && IdsInterior(ids, cells).Ok?
    ensures KeysBefore(cells, |cells|) && forall j :: 0 <= j < |cells| ==> cells[j].leftChild.Some?
    ensures p in IdsInterior(ids, cells).value.0 <==>
      exists j :: 0 <= j < |cells| && Wanted(ids, cells, j) && p == cells[j].leftChild.value - 1
    decreases |cells|
  {
    IdsInteriorKeys(ids, cells);
    if cells != [] {
      var n := PartitionPoint(ids, cells[0].rowid.value);
      PartitionSuffix(ids, cells[0].rowid.value);
      IdsInteriorPushes(ids[n..], cells[1..], p);
      WantedSplit(ids, cells, p);
      var push := if n > 0 then [cells[0].leftChild.value - 1] else [];
      assert IdsInterior(ids, cells).value.0 == push + IdsInterior(ids[n..], cells[1..]).value.0;
    }
  }

  /**
   * On an interior table page with a selection, `read_ids_from_table`
   * pushes the left child of every cell some id can be under, and the
   * right-most child when some id is not below any key.
   */
  lemma IdsVisitChildren(ids: seq<int>, fields: seq<(nat, string)>, display: SerialValue -> string, page: TreePage, p: int)
    requires Sorted(ids) && page.pageType == InteriorTable && IdsVisit(ids, fields, display, page).Ok?
    ensures KeysBefore(page.cells, |page.cells|) && forall j :: 0 <= j < |page.cells| ==> page.cells[j].leftChild.Some?
    ensures IdsVisit(ids, fields, display, page).value.items == {}
    ensures p in IdsVisit(ids, fields, display, page).value.pushes <==>
      (exists j :: 0 <= j < |page.cells| && Wanted(ids, page.cells, j) && p == page.cells[j].leftChild.value - 1) ||
      (page.rightMost == Some(p + 1) && exists id :: id in ids && AboveAll(page.cells, id))
  {
    var t := IdsInterior(ids, page.cells).value;
    IdsInteriorPushes(ids, page.cells, p);
    if t.1 != [] {
      IdsInteriorRest(ids, page.cells, t.1[0]);
      assert IdsVisit(ids, fields, display, page).value.pushes == t.0 + PushOf(page.rightMost).value;
    } else {
      forall id | id in ids
        ensures !AboveAll(page.cells, id)
      {
        IdsInteriorRest(ids, page.cells, id);
      }
    }
  }

  lemma IdsLeafCellRow(ids: seq<int>, fields: seq<(nat, string)>, display: SerialValue -> string, cell: TreeCell, x: string)
    requires IdsLeafCell(ids, fields, display, cell).Ok?
    ensures x in IdsLeafCell(ids, fields, display, cell).value.items <==>
      cell.rowid.Some? && cell.rowid.value in ids && cell.record.Some? &&
      RowByRowid(cell.record.value, cell.rowid, fields, display) == Ok(Some(x))
  {
  }

  /** On a leaf table page with a selection, `read_ids_from_table` yields the rows of exactly the cells whose rowid is one of `ids`. */
  lemma IdsVisitRows(ids: seq<int>, fields: seq<(nat, string)>, display: SerialValue -> string, page: TreePage, x: string)
    requires page.pageType == LeafTable && IdsVisit(ids, fields, display, page).Ok?
    ensures IdsVisit(ids, fields, display, page).value.pushes == []
    ensures x in IdsVisit(ids, fields, display, page).value.items <==>
      exists k :: 0 <= k < |page.cells| && page.cells[k].rowid.Some? && page.cells[k].rowid.value in ids &&
        page.cells[k].record.Some? && RowByRowid(page.cells[k].record.value, page.cells[k].rowid, fields, display) == Ok(Some(x))
  {
    var visit := IdsLeafCells(ids, fields, display);
    LeafPushesNothing(visit, page.cells);
    FoldOk(visit, page.cells);
    FoldItems(visit, page.cells, x);
    forall k | 0 <= k < |page.cells|
      ensures x in visit(page.cells[k]).value.items <==> (page.cells[k].rowid.Some? && page.cells[k].rowid.value in ids &&
        page.cells[k].record.Some? && RowByRowid(page.cells[k].record.value, page.cells[k].rowid, fields, display) == Ok(Some(x)))
    {
      IdsLeafCellRow(ids, fields, display, page.cells[k], x);
    }
  }

  // ---- read_index ----

  /** `select_query[0]`: the first value of the selection, `None` where indexing it panics. */
  function SelectQuery(sql: Sql): (q: Option<seq<byte>>)
    ensures q.Some? <==> |sql.selection| > 0
  {
    if |sql.selection| > 0 then Some(sql.selection[0].1) else None
  }

  /**
   * The step of an interior index cell for the outcome of a comparison:
   * `Less` pushes the left child, `Greater` the right-most child of the
   * page, and `Equal` yields the rowid in column 1 of the cell's record.
   */
  function Route(o: Ordering, leftChild: int, rightMost: Option<int>, record: Record): (r: Result<Visit<int>>)
    ensures r.Err? ==> Panics(r)
    ensures o == Less ==> (r.Ok? <==> leftChild >= 1)
    ensures o == Less && r.Ok? ==> r.value == Visit({}, [leftChild - 1])
    ensures o == Greater ==> (r.Ok? <==> rightMost.None? || rightMost.value >= 1)
    ensures o == Greater && r.Ok? ==> r.value == Visit({}, if rightMost.Some? then [rightMost.value - 1] else [])
    ensures o == Equal ==> (r.Ok? <==> IdAt(record).Ok?)
    ensures o == Equal && r.Ok? ==> r.value == Visit({IdAt(record).value}, [])
  {
    match o
    case Less =>
      var p :- ChildIndex(leftChild);
      Ok(Visit({}, p))
    case Greater =>
      var p :- PushOf(rightMost);
      Ok(Visit({}, p))
    case Equal =>
      var id :- IdAt(record);
      Ok(Visit({id}, []))
  }

  /**
   * A cell of an interior index page in `read_index` as the source writes
   * it: `country.cmp(select_query[0])`, the cell's key compared with the
   * query, so that a key below the query descends into the left child.
   */
  function IndexInteriorCellAsWritten(query: Option<seq<byte>>, rightMost: Option<int>, cell: TreeCell): (r: Result<Visit<int>>)
    ensures r.Err? ==> Panics(r)
  {
    if cell.leftChild.None? || cell.record.None? || |cell.record.value.columns| == 0 then Err(Panic)
    else match cell.record.value.columns[0].data
      case String(key) =>
        if query.None? then Err(Panic)
        else Route(Compare(key, query.value), cell.leftChild.value, rightMost, cell.record.value)
      case _ => Ok(Visit({}, []))
  }

  /**
   * A cell of an interior index page in `read_index`, corrected: the query
   * is compared with the cell's key, so that a query below the key descends
   * into the left child, where the smaller keys are. The cell's left child
   * and record are unwrapped first, and column 0 indexed; a key that is not
   * a String does nothing.
   */
  function IndexInteriorCell(query: Option<seq<byte>>, rightMost: Option<int>, cell: TreeCell): (r: Result<Visit<int>>)
    ensures r.Err? ==> Panics(r)
  {
    if cell.leftChild.None? || cell.record.None? || |cell.record.value.columns| == 0 then Err(Panic)
    else match cell.record.value.columns[0].data
      case String(key) =>
        if query.None? then Err(Panic)
        else Route(Compare(query.value, key), cell.leftChild.value, rightMost, cell.record.value)
      case _ => Ok(Visit({}, []))
  }

  /** A cell of a leaf index page in `read_index`: a String key equal to the query yields the rowid in column 1. */
  function IndexLeafCell(query: Option<seq<byte>>, cell: TreeCell): (r: Result<Visit<int>>)
    ensures r.Err? ==> Panics(r)
    ensures r.Ok? ==> r.value.pushes == []
  {
    if cell.record.None? || |cell.record.value.columns| == 0 then Err(Panic)
    else match cell.record.value.columns[0].data
      case String(key) =>
        if query.None? then Err(Panic)
        else if query.value == key then
          var id :- IdAt(cell.record.value);
          Ok(Visit({id}, []))
        else Ok(Visit({}, []))
      case _ => Ok(Visit({}, []))
  }

  function IndexInteriorCells(query: Option<seq<byte>>, rightMost: Option<int>): TreeCell -> Result<Visit<int>>
  {
    cell => IndexInteriorCell(query, rightMost, cell)
  }

  function IndexInteriorCellsAsWritten(query: Option<seq<byte>>, rightMost: Option<int>): TreeCell -> Result<Visit<int>>
  {
    cell => IndexInteriorCellAsWritten(query, rightMost, cell)
  }

  function IndexLeafCells(query: Option<seq<byte>>): TreeCell -> Result<Visit<int>>
  {
    cell => IndexLeafCell(query, cell)
  }

  /**
   * A page of `read_index` with the corrected interior cells: the cells of an
   * interior or leaf index page in order; any other page does nothing.
   */
  function IndexVisit(query: Option<seq<byte>>, page: TreePage): Result<Visit<int>>
  {
    match page.pageType
    case InteriorIndex => Fold(IndexInteriorCells(query, page.rightMost), page.cells)
    case LeafIndex => Fold(IndexLeafCells(query), page.cells)
    case _ => Ok(Visit({}, []))
  }

  function IndexVisitor(query: Option<seq<byte>>): TreePage -> Result<Visit<int>>
  {
    page => IndexVisit(query, page)
  }

  /**
   * A page of `read_index` as the source writes it: the cells of an interior
   * or leaf index page in order; any other page does nothing.
   */
  function IndexVisitAsWritten(query: Option<seq<byte>>, page: TreePage): Result<Visit<int>>
  {
    match page.pageType
    case InteriorIndex => Fold(IndexInteriorCellsAsWritten(query, page.rightMost), page.cells)
    case LeafIndex => Fold(IndexLeafCells(query), page.cells)
    case _ => Ok(Visit({}, []))
  }

  function IndexVisitorAsWritten(query: Option<seq<byte>>): TreePage -> Result<Visit<int>>
  {
    page => IndexVisitAsWritten(query, page)
  }

  /** One cell of the `InteriorIndex` arm of `read_index`'s loop. */
  method VisitIndexInteriorCell(query: Option<seq<byte>>, rightMost: Option<int>, cell: TreeCell,
                                stack: seq<int>, rowids: set<int>) returns (r: Result<(seq<int>, set<int>)>)
    ensures r.Ok? <==> IndexInteriorCellAsWritten(query, rightMost, cell).Ok?
    ensures r.Ok? ==> r.value == (stack + IndexInteriorCellAsWritten(query, rightMost, cell).value.pushes,
                                  rowids + IndexInteriorCellAsWritten(query, rightMost, cell).value.items)
  {
    assert stack + [] == stack && rowids + {} == rowids;
    if cell.leftChild.None? || cell.record.None? || |cell.record.value.columns| == 0 {
      return Err(Panic);
    }
    var record := cell.record.value;
    if !record.columns[0].data.String? {
      return Ok((stack, rowids));
    }
    if query.None? {
      return Err(Panic);
    }
    match Compare(record.columns[0].data.text, query.value) {
      case Less =>
        if cell.leftChild.value < 1 {
          return Err(Panic);
        }
        r := Ok((stack + [cell.leftChild.value - 1], rowids));
      case Greater =>
        if rightMost.Some? {
          if rightMost.value < 1 {
            return Err(Panic);
          }
          return Ok((stack + [rightMost.value - 1], rowids));
        }
        r := Ok((stack, rowids));
      case Equal =>
        var id := IdAt(record);
        if id.Err? {
          return Err(Panic);
        }
        r := Ok((stack, rowids + {id.value}));
    }
  }

  /** One cell of the `LeafIndex` arm of `read_index`'s loop. */
  method VisitIndexLeafCell(query: Option<seq<byte>>, cell: TreeCell, rowids: set<int>) returns (r: Result<set<int>>)
    ensures r.Ok? <==> IndexLeafCell(query, cell).Ok?
    ensures r.Ok? ==> r.value == rowids + IndexLeafCell(query, cell).value.items
  {
    assert rowids + {} == rowids;
    if cell.record.None? || |cell.record.value.columns| == 0 {
      return Err(Panic);
    }
    var record := cell.record.value;
    if !record.columns[0].data.String? {
      return Ok(rowids);
    }
    if query.None? {
      return Err(Panic);
    }
    if query.value != record.columns[0].data.text {
      return Ok(rowids);
    }
    var id := IdAt(record);
    if id.Err? {
      return Err(Panic);
    }
    r := Ok(rowids + {id.value});
  }

  /** The `InteriorIndex` arm of `read_index`'s loop. */
  method VisitIndexInterior(query: Option<seq<byte>>, page: TreePage, stack: seq<int>, rowids: set<int>)
    returns (r: Result<(seq<int>, set<int>)>)
    ensures var f := Fold(IndexInteriorCellsAsWritten(query, page.rightMost), page.cells);
      (r.Ok? <==> f.Ok?) && (r.Ok? ==> r.value == (stack + f.value.pushes, rowids + f.value.items))
  {
    ghost var visit := IndexInteriorCellsAsWritten(query, page.rightMost);
    var st := stack;
    var ids := rowids;
    ghost var done: Visit<int> := Visit({}, []);
    AfterNothing(Fold(visit, page.cells));
    var k := 0;
    while k < |page.cells|
      invariant 0 <= k <= |page.cells|
      invariant Fold(visit, page.cells) == After(done, Fold(visit, page.cells[k..]))
      invariant st == stack + done.pushes && ids == rowids + done.items
    {
      var step := VisitIndexInteriorCell(query, page.rightMost, page.cells[k], st, ids);
      if step.Err? {
        FoldPanics(visit, page.cells, k, done);
        return Err(Panic);
      }
      ghost var v := visit(page.cells[k]).value;
      FoldStep(visit, page.cells, k, done);
      assert st + v.pushes == stack + (done.pushes + v.pushes);
      assert ids + v.items == rowids + (done.items + v.items);
      done := Then(done, v);
      st, ids := step.value.0, step.value.1;
      k := k + 1;
    }
    FoldEnd(visit, page.cells, done);
    r := Ok((st, ids));
  }

  /** The `LeafIndex` arm of `read_index`'s loop. */
  method VisitIndexLeaf(query: Option<seq<byte>>, page: TreePage, rowids: set<int>) returns (r: Result<set<int>>)
    ensures var f := Fold(IndexLeafCells(query), page.cells);
      (r.Ok? <==> f.Ok?) && (r.Ok? ==> r.value == rowids + f.value.items)
  {
    ghost var visit := IndexLeafCells(query);
    var ids := rowids;
    ghost var done: Visit<int> := Visit({}, []);
    AfterNothing(Fold(visit, page.cells));
    var k := 0;
    while k < |page.cells|
      invariant 0 <= k <= |page.cells|
      invariant Fold(visit, page.cells) == After(done, Fold(visit, page.cells[k..]))
      invariant ids == rowids + done.items
    {
      var step := VisitIndexLeafCell(query, page.cells[k], ids);
      if step.Err? {
        FoldPanics(visit, page.cells, k, done);
        return Err(Panic);
      }
      ghost var v := visit(page.cells[k]).value;
      FoldStep(visit, page.cells, k, done);
      assert ids + v.items == rowids + (done.items + v.items);
      done := Then(done, v);
      ids := step.value;
      k := k + 1;
    }
    FoldEnd(visit, page.cells, done);
    r := Ok(ids);
  }

  /** The body of `read_index`'s loop for one page. */
  method VisitIndexPage(query: Option<seq<byte>>, page: TreePage, stack: seq<int>, rowids: set<int>)
    returns (r: Result<(seq<int>, set<int>)>)
    ensures r.Ok? <==> IndexVisitAsWritten(query, page).Ok?
    ensures r.Ok? ==> r.value == (stack + IndexVisitAsWritten(query, page).value.pushes,
                                  rowids + IndexVisitAsWritten(query, page).value.items)
  {
    assert stack + [] == stack && rowids + {} == rowids;
    match page.pageType {
      case InteriorIndex =>
        r := VisitIndexInterior(query, page, stack, rowids);
      case LeafIndex =>
        var ids := VisitIndexLeaf(query, page, rowids);
        if ids.Err? {
          return Err(Panic);
        }
        LeafPushesNothing(IndexLeafCells(query), page.cells);
        r := Ok((stack, ids.value));
      case _ =>
        r := Ok((stack, rowids));
    }
  }

  /**
   * `Database::read_index(num, _, select_statement, rowids)` as written: the
   * index b-tree is searched from page `num`, each interior cell routed by
   * its key compared with the first selection value, and the rowids of the
   * entries whose key equals that value are added to `rowids`.
   */
  method ReadIndex(pages: seq<TreePage>, ghost rank: seq<nat>, num: nat, sql: Sql, rowids: set<int>)
    returns (r: Result<set<int>>)
    requires Ranked(pages, rank, IndexVisitorAsWritten(SelectQuery(sql)))
    ensures r.Err? ==> Panics(r)
    ensures num == 0 ==> r.Err?
    ensures num > 0 && r.Ok? ==> r.value == rowids + Reach(pages, rank, IndexVisitorAsWritten(SelectQuery(sql)), num - 1)
    ensures num > 0 && Safe(pages, IndexVisitorAsWritten(SelectQuery(sql))) ==> r.Ok?
  {
    if num == 0 {
      return Err(Panic);
    }
    var query := SelectQuery(sql);
    ghost var visitor := IndexVisitorAsWritten(query);
    var stack: seq<int> := [num - 1];
    var ids := rowids;
    assert [num - 1][..0] == [];
    while stack != []
      invariant ids + ReachAll(pages, rank, visitor, stack) == rowids + Reach(pages, rank, visitor, num - 1)
      decreases SizeAll(pages, rank, visitor, stack)
    {
      var p := stack[|stack| - 1];
      ghost var before := stack;
      stack := stack[..|stack| - 1];
      assert SizeAll(pages, rank, visitor, before) == SizeAll(pages, rank, visitor, stack) + Size(pages, rank, visitor, p);
      if 0 <= p < |pages| {
        var v := VisitIndexPage(query, pages[p], stack, ids);
        assert visitor(pages[p]) == IndexVisitAsWritten(query, pages[p]);
        if v.Err? {
          return Err(Panic);
        }
        ReachAllAppend(pages, rank, visitor, stack, Pushes(visitor, pages[p]));
        SizeAllAppend(pages, rank, visitor, stack, Pushes(visitor, pages[p]));
        stack, ids := v.value.0, v.value.1;
      }
    }
    r := Ok(ids);
  }

  /** Column 0 of the cell's record is the String `q`. */
  predicate KeyIs(cell: TreeCell, q: seq<byte>)
  {
    && cell.record.Some?
    && |cell.record.value.columns| > 0
    && cell.record.value.columns[0].data == SerialValue.String(q)
  }

  /**
   * Where a routing outcome `o` sends the search: `Less` to the page index
   * of the left child, `Greater` to that of the right-most child, `Equal`
   * nowhere.
   */
  predicate Descent(o: Ordering, leftChild: int, rightMost: Option<int>, p: int)
  {
    (o == Less && p == leftChild - 1) || (o == Greater && rightMost == Some(p + 1))
  }

  /** An interior index cell with a left child and a String key in column 0. */
  predicate HasStringKey(cell: TreeCell)
  {
    && cell.leftChild.Some?
    && cell.record.Some?
    && |cell.record.value.columns| > 0
    && cell.record.value.columns[0].data.String?
  }

  /**
   * The routing of an interior index cell as the source writes it sends the
   * search for `q` to page index `p`: the cell's key compared with `q`, so
   * into the left child when the key is below `q` and into the right-most
   * child when it is above.
   */
  predicate DescendsAsWritten(q: seq<byte>, rightMost: Option<int>, cell: TreeCell, p: int)
  {
    HasStringKey(cell) &&
    Descent(Compare(cell.record.value.columns[0].data.text, q), cell.leftChild.value, rightMost, p)
  }

  /**
   * The corrected routing of an interior index cell sends the search for `q`
   * to page index `p`: into the left child when `q` is below the cell's
   * String key, into the right-most child when it is above.
   */
  predicate Descends(q: seq<byte>, rightMost: Option<int>, cell: TreeCell, p: int)
  {
    HasStringKey(cell) &&
    Descent(Compare(q, cell.record.value.columns[0].data.text), cell.leftChild.value, rightMost, p)
  }

  /**
   * An interior index cell as written pushes the child that its key
   * compared with `q` routes to, and yields its rowid exactly when that key
   * is `q`.
   */
  lemma IndexInteriorCellAsWrittenParts(q: seq<byte>, rightMost: Option<int>, cell: TreeCell, p: int, id: int)
    requires IndexInteriorCellAsWritten(Some(q), rightMost, cell).Ok?
    ensures p in IndexInteriorCellAsWritten(Some(q), rightMost, cell).value.pushes <==> DescendsAsWritten(q, rightMost, cell, p)
    ensures id in IndexInteriorCellAsWritten(Some(q), rightMost, cell).value.items <==>
      KeyIs(cell, q) && IdAt(cell.record.value) == Ok(id)
  {
    if cell.record.value.columns[0].data.String? {
      CompareEqual(cell.record.value.columns[0].data.text, q);
    }
  }

  /** The corrected interior index cell: routed by `q` compared with the key. */
  lemma IndexInteriorCellParts(q: seq<byte>, rightMost: Option<int>, cell: TreeCell, p: int, id: int)
    requires IndexInteriorCell(Some(q), rightMost, cell).Ok?
    ensures p in IndexInteriorCell(Some(q), rightMost, cell).value.pushes <==> Descends(q, rightMost, cell, p)
    ensures id in IndexInteriorCell(Some(q), rightMost, cell).value.items <==> KeyIs(cell, q) && IdAt(cell.record.value) == Ok(id)
  {
    if cell.record.value.columns[0].data.String? {
      CompareEqual(q, cell.record.value.columns[0].data.text);
    }
  }

  lemma IndexLeafCellParts(q: seq<byte>, cell: TreeCell, id: int)
    requires IndexLeafCell(Some(q), cell).Ok?
    ensures id in IndexLeafCell(Some(q), cell).value.items <==> KeyIs(cell, q) && IdAt(cell.record.value) == Ok(id)
  {
  }

  /**
   * An interior index page visited for the query `q` as the source is
   * written pushes the child each cell's key-versus-query routing descends
   * into, and yields the rowid of every cell whose key is `q`.
   */
  lemma IndexInteriorRoutesAsWritten(q: seq<byte>, page: TreePage, p: int, id: int)
    requires page.pageType == InteriorIndex && IndexVisitAsWritten(Some(q), page).Ok?
    ensures p in IndexVisitAsWritten(Some(q), page).value.pushes <==>
      exists k :: 0 <= k < |page.cells| && DescendsAsWritten(q, page.rightMost, page.cells[k], p)
    ensures id in IndexVisitAsWritten(Some(q), page).value.items <==>
      exists k :: 0 <= k < |page.cells| && KeyIs(page.cells[k], q) && IdAt(page.cells[k].record.value) == Ok(id)
  {
    var visit := IndexInteriorCellsAsWritten(Some(q), page.rightMost);
    FoldOk(visit, page.cells);
    FoldPushes(visit, page.cells, p);
    FoldItems(visit, page.cells, id);
    forall k | 0 <= k < |page.cells|
      ensures p in visit(page.cells[k]).value.pushes <==> DescendsAsWritten(q, page.rightMost, page.cells[k], p)
      ensures id in visit(page.cells[k]).value.items <==> (KeyIs(page.cells[k], q) && IdAt(page.cells[k].record.value) == Ok(id))
    {
      IndexInteriorCellAsWrittenParts(q, page.rightMost, page.cells[k], p, id);
    }
  }

  /**
   * An interior index page visited for the query `q` with the corrected
   * comparison pushes the child each cell's routing descends into, and
   * yields the rowid of every cell whose key is `q`.
   */
  lemma IndexInteriorRoutes(q: seq<byte>, page: TreePage, p: int, id: int)
    requires page.pageType == InteriorIndex && IndexVisit(Some(q), page).Ok?
    ensures p in IndexVisit(Some(q), page).value.pushes <==>
      exists k :: 0 <= k < |page.cells| && Descends(q, page.rightMost, page.cells[k], p)
    ensures id in IndexVisit(Some(q), page).value.items <==>
      exists k :: 0 <= k < |page.cells| && KeyIs(page.cells[k], q) && IdAt(page.cells[k].record.value) == Ok(id)
  {
    var visit := IndexInteriorCells(Some(q), page.rightMost);
    FoldOk(visit, page.cells);
    FoldPushes(visit, page.cells, p);
    FoldItems(visit, page.cells, id);
    forall k | 0 <= k < |page.cells|
      ensures p in visit(page.cells[k]).value.pushes <==> Descends(q, page.rightMost, page.cells[k], p)
      ensures id in visit(page.cells[k]).value.items <==> (KeyIs(page.cells[k], q) && IdAt(page.cells[k].record.value) == Ok(id))
    {
      IndexInteriorCellParts(q, page.rightMost, page.cells[k], p, id);
    }
  }

  /** A leaf index page visited for the query `q` pushes nothing and yields the rowid of every cell whose key is `q`. */
  lemma IndexLeafIds(q: seq<byte>, page: TreePage, id: int)
    requires page.pageType == LeafIndex && IndexVisitAsWritten(Some(q), page).Ok?
    ensures IndexVisitAsWritten(Some(q), page).value.pushes == []
    ensures id in IndexVisitAsWritten(Some(q), page).value.items <==>
      exists k :: 0 <= k < |page.cells| && KeyIs(page.cells[k], q) && IdAt(page.cells[k].record.value) == Ok(id)
  {
    var visit := IndexLeafCells(Some(q));
    LeafPushesNothing(visit, page.cells);
    FoldOk(visit, page.cells);
    FoldItems(visit, page.cells, id);
    forall k | 0 <= k < |page.cells|
      ensures id in visit(page.cells[k]).value.items <==> (KeyIs(page.cells[k], q) && IdAt(page.cells[k].record.value) == Ok(id))
    {
      IndexLeafCellParts(q, page.cells[k], id);
    }
  }

  /** An index entry: a record of the String key and the rowid. */
  function Entry(key: seq<byte>, rowid: int): Record
  {
    Record([Column(SerialType.String(|key|), SerialValue.String(key)), Column(SerialType.I8, SerialValue.I8(rowid))])
  }

  /**
   * A three-page index: the root, page 1, has one interior cell with key
   * "b" (rowid 2) whose left child is page 2, a leaf with the entry "a"
   * (rowid 1), and its right-most child is page 3, a leaf with the entry
   * "c" (rowid 3).
   */
  function ExampleIndex(): seq<TreePage>
  {
    [ TreePage(InteriorIndex, [TreeCell(Some(2), None, Some(Entry([98], 2)))], Some(3)),
      TreePage(LeafIndex, [TreeCell(None, None, Some(Entry([97], 1)))], None),
      TreePage(LeafIndex, [TreeCell(None, None, Some(Entry([99], 3)))], None) ]
  }

  /** The leaves of the example index, visited for "a". */
  lemma ExampleLeaves()
    ensures IndexVisit(Some([97]), ExampleIndex()[1]) == Ok(Visit({1}, []))
    ensures IndexVisit(Some([97]), ExampleIndex()[2]) == Ok(Visit({}, []))
    ensures IndexVisitAsWritten(Some([97]), ExampleIndex()[1]) == Ok(Visit({1}, []))
    ensures IndexVisitAsWritten(Some([97]), ExampleIndex()[2]) == Ok(Visit({}, []))
  {
    var pages := ExampleIndex();
    assert IndexLeafCell(Some([97]), pages[1].cells[0]) == Ok(Visit({1}, []));
    FoldSingle(IndexLeafCells(Some([97])), pages[1].cells[0]);
    assert IndexLeafCell(Some([97]), pages[2].cells[0]) == Ok(Visit({}, []));
    FoldSingle(IndexLeafCells(Some([97])), pages[2].cells[0]);
  }

  /** The root of the example index, visited for "a": as written it pushes page 3, corrected page 2. */
  lemma ExampleRoot()
    ensures IndexVisitAsWritten(Some([97]), ExampleIndex()[0]) == Ok(Visit({}, [2]))
    ensures IndexVisit(Some([97]), ExampleIndex()[0]) == Ok(Visit({}, [1]))
  {
    var root := ExampleIndex()[0];
    assert Compare([98], [97]) == Greater;
    assert Compare([97], [98]) == Less;
    assert IndexInteriorCellAsWritten(Some([97]), Some(3), root.cells[0]) == Ok(Visit({}, [2]));
    FoldSingle(cell => IndexInteriorCellAsWritten(Some([97]), Some(3), cell), root.cells[0]);
    assert IndexInteriorCell(Some([97]), Some(3), root.cells[0]) == Ok(Visit({}, [1]));
    FoldSingle(IndexInteriorCells(Some([97]), Some(3)), root.cells[0]);
  }

  /**
   * Searching the example index for "a" as the source is written compares
   * "b" with "a", finds it `Greater`, and goes to the right-most child: the
   * entry "a" in the left child is never reached.
   */
  lemma ReadIndexAsWrittenMisses()
    ensures Ranked(ExampleIndex(), [1, 0, 0], IndexVisitorAsWritten(Some([97])))
    ensures Reach(ExampleIndex(), [1, 0, 0], IndexVisitorAsWritten(Some([97])), 0) == {}
  {
    var pages := ExampleIndex();
    var visit := IndexVisitorAsWritten(Some([97]));
    ExampleRoot();
    ExampleLeaves();
    assert visit(pages[0]) == Ok(Visit({}, [2]));
    assert visit(pages[1]) == Ok(Visit({1}, []));
    assert visit(pages[2]) == Ok(Visit({}, []));
    assert Ranked(pages, [1, 0, 0], visit);
    assert Reach(pages, [1, 0, 0], visit, 2) == {};
    assert ReachAll(pages, [1, 0, 0], visit, [2]) == {};
  }

  /** With the corrected comparison the search for "a" goes to the left child and finds rowid 1. */
  lemma ReadIndexFindsEntry()
    ensures Ranked(ExampleIndex(), [1, 0, 0], IndexVisitor(Some([97])))
    ensures Reach(ExampleIndex(), [1, 0, 0], IndexVisitor(Some([97])), 0) == {1}
  {
    var pages := ExampleIndex();
    var visit := IndexVisitor(Some([97]));
    ExampleRoot();
    ExampleLeaves();
    assert visit(pages[0]) == Ok(Visit({}, [1]));
    assert visit(pages[1]) == Ok(Visit({1}, []));
    assert visit(pages[2]) == Ok(Visit({}, []));
    assert Ranked(pages, [1, 0, 0], visit);
    assert Reach(pages, [1, 0, 0], visit, 1) == {1};
    assert ReachAll(pages, [1, 0, 0], visit, [1]) == {1};
  }
}
