/**
 * The row matching and projection of src/sql.rs: which column of the table a
 * selected field names (`get_fields`), how a matching record becomes one
 * output row (`print_rows`, `print_rows_by_rowid`), and how an index record
 * yields the rowid it points at (`print_row_id`).
 *
 * A statement is taken already parsed. `SerialValue::display` is not part of
 * this model: it is a parameter `display` of every member that renders a row.
 * Each `HashSet` the source fills in place is a set value passed in and
 * returned updated; a panic of the source is `Err(Panic)`.
 */
module Query {
  import opened Bytes
  import opened Errors
  import opened Columns
  import opened Records

  /**
   * `Sql { index_name, field_name, selection, tbl_name, index_column }`. The
   * `selection` map is kept as its entries in iteration order; each value is
   * the UTF-8 bytes of the quoted string of the `WHERE` clause.
   */
  datatype Sql = Sql(
    indexName: Option<seq<string>>,
    fieldName: seq<string>,
    selection: seq<(string, seq<byte>)>,
    tblName: string,
    indexColumn: Option<seq<string>>)

  /** `names.iter().position(|x| x == name)`: the first index holding `name`. */
  function Position(names: seq<string>, name: string): (r: Option<nat>)
    ensures r.None? <==> name !in names
    ensures r.Some? ==> r.value < |names| && names[r.value] == name && name !in names[..r.value]
  {
    if names == [] then None
    else if names[0] == name then Some(0)
    else
      match Position(names[1..], name)
      case None => None
      case Some(k) =>
        assert names[..k + 1] == [names[0]] + names[1..][..k];
        Some(k + 1)
  }

  /** `i` is the first position of `name` in `names`, or 0 when `name` is not there. */
  predicate FirstIndex(names: seq<string>, name: string, i: nat)
  {
    if name in names then i < |names| && names[i] == name && name !in names[..i] else i == 0
  }

  /**
   * `get_fields`: one `(index, name)` pair per selected field, in order; the
   * index is where the create statement declares that name, 0 if it does not.
   */
  function GetFields(select: Sql, create: Sql): (fields: seq<(nat, string)>)
    ensures |fields| == |select.fieldName|
    ensures forall k :: 0 <= k < |fields| ==>
      fields[k].1 == select.fieldName[k] && FirstIndex(create.fieldName, select.fieldName[k], fields[k].0)
  {
    seq(|select.fieldName|, k requires 0 <= k < |select.fieldName| =>
      (match Position(create.fieldName, select.fieldName[k]) case Some(i) => i case None => 0, select.fieldName[k]))
  }

  /** A selected field the create statement does not declare gets index 0. */
  lemma GetFieldsUndeclared(select: Sql, create: Sql, k: nat)
    requires k < |select.fieldName| && select.fieldName[k] !in create.fieldName
    ensures GetFields(select, create)[k] == (0, select.fieldName[k])
  {
  }

  // ---- Rendering ----

  function DigitChar(d: nat): char
    requires d < 10
  {
    (('0' as int) + d) as char
  }

  /** The decimal digits of `n`, most significant first. */
  function Digits(n: nat): (s: string)
    ensures |s| >= 1 && forall k :: 0 <= k < |s| ==> '0' <= s[k] <= '9'
  {
    if n < 10 then [DigitChar(n)] else Digits(n / 10) + [DigitChar(n % 10)]
  }

  /** The number a string of decimal digits stands for. */
  function DigitsValue(s: string): int
  {
    if s == [] then 0 else DigitsValue(s[..|s| - 1]) * 10 + (s[|s| - 1] as int - '0' as int)
  }

  lemma {:induction false} DigitsRoundTrip(n: nat)
    ensures DigitsValue(Digits(n)) == n
  {
    if n >= 10 {
      var s := Digits(n);
      assert s[..|s| - 1] == Digits(n / 10);
      DigitsRoundTrip(n / 10);
    }
  }

  /** `format!("{}", i)` for an `i64`: a minus sign, then the digits of the magnitude. */
  function Decimal(i: int): string
  {
    if i < 0 then "-" + Digits(-i) else Digits(i)
  }

  /** Reads back what `Decimal` writes. */
  function ParseDecimal(s: string): int
  {
    if |s| > 0 && s[0] == '-' then -DigitsValue(s[1..]) else DigitsValue(s)
  }

  /** Every integer is read back from its decimal rendering. */
  lemma DecimalRoundTrip(i: int)
    ensures ParseDecimal(Decimal(i)) == i
  {
    if i < 0 {
      assert ("-" + Digits(-i))[1..] == Digits(-i);
      DigitsRoundTrip(-i);
    } else {
      DigitsRoundTrip(i);
    }
  }

  /** `parts.join(sep)`. */
  function Join(parts: seq<string>, sep: string): string
  {
    if |parts| == 0 then ""
    else if |parts| == 1 then parts[0]
    else Join(parts[..|parts| - 1], sep) + sep + parts[|parts| - 1]
  }

  /** Joined parts are as long as the parts together plus one separator between each two. */
  function TotalLength(parts: seq<string>): nat
  {
    if parts == [] then 0 else TotalLength(parts[..|parts| - 1]) + |parts[|parts| - 1]|
  }

  lemma {:induction false} JoinLength(parts: seq<string>, sep: string)
    requires parts != []
    ensures |Join(parts, sep)| == TotalLength(parts) + (|parts| - 1) * |sep|
  {
    if |parts| > 1 {
      var init := parts[..|parts| - 1];
      JoinLength(init, sep);
      assert TotalLength(init) == TotalLength(init[..|init| - 1]) + |init[|init| - 1]|;
    } else {
      assert parts[..0] == [];
    }
  }

  // ---- Projection ----

  /**
   * The `rows` vector of a projection: "" for a field of index 0, otherwise
   * `display` of that column; an index past the record's columns panics.
   */
  function Rendered(record: Record, fields: seq<(nat, string)>, display: SerialValue -> string): (r: Result<seq<string>>)
    ensures r.Err? ==> Panics(r)
    ensures r.Ok? <==> forall k :: 0 <= k < |fields| ==> fields[k].0 == 0 || fields[k].0 < |record.columns|
    ensures r.Ok? ==> |r.value| == |fields| && forall k :: 0 <= k < |fields| ==>
      r.value[k] == (if fields[k].0 == 0 then "" else display(record.columns[fields[k].0].data))
  {
    if fields == [] then Ok([])
    else
      var init := fields[..|fields| - 1];
      var i := fields[|fields| - 1].0;
      assert forall k :: 0 <= k < |init| ==> init[k] == fields[k];
      var rows :- Rendered(record, init, display);
      if i == 0 then Ok(rows + [""])
      else if i < |record.columns| then Ok(rows + [display(record.columns[i].data)])
      else Err(Panic)
  }

  /**
   * `con_row`: the rendered fields joined by "|", with the rowid written in
   * front of them, and no separator, when the first field has index 0.
   * `fields[0]` on no fields and `rowid.unwrap()` on `None` panic.
   */
  function ProjectRow(record: Record, rowid: Option<int>, fields: seq<(nat, string)>, display: SerialValue -> string): (r: Result<string>)
    ensures r.Err? ==> Panics(r)
    ensures r.Ok? <==> Rendered(record, fields, display).Ok? && |fields| > 0 && (fields[0].0 == 0 ==> rowid.Some?)
  {
    var rows :- Rendered(record, fields, display);
    if |fields| == 0 then Err(Panic)
    else if fields[0].0 == 0 then
      if rowid.None? then Err(Panic) else Ok(Decimal(rowid.value) + Join(rows, "|"))
    else Ok(Join(rows, "|"))
  }

  lemma Decimal297()
    ensures Decimal(297) == "297"
  {
    assert Digits(2) == "2";
    assert Digits(29) == "29";
  }

  /** The UTF-8 bytes of "Stealth (New Earth)". */
  const StealthNewEarth: seq<byte> := [83, 116, 101, 97, 108, 116, 104, 32, 40, 78, 101, 119, 32, 69, 97, 114, 116, 104, 41]

  /**
   * `SELECT id, name FROM superheroes`: `id` is the rowid alias, stored as
   * Null in column 0, and `name` is column 1; the row of rowid 297 renders as
   * "297|Stealth (New Earth)".
   */
  lemma ProjectRowExample(display: SerialValue -> string)
    requires display(SerialValue.String(StealthNewEarth)) == "Stealth (New Earth)"
    ensures var record := Record([Column(SerialType.Null, SerialValue.Null),
                                  Column(SerialType.String(19), SerialValue.String(StealthNewEarth))]);
      ProjectRow(record, Some(297), [(0, "id"), (1, "name")], display) == Ok("297|" + "Stealth (New Earth)")
  {
    var record := Record([Column(SerialType.Null, SerialValue.Null),
                          Column(SerialType.String(19), SerialValue.String(StealthNewEarth))]);
    var fields: seq<(nat, string)> := [(0, "id"), (1, "name")];
    var name := "Stealth (New Earth)";
    var rows := Rendered(record, fields, display);
    assert rows.Ok? && |rows.value| == 2 && rows.value[0] == "" && rows.value[1] == name;
    assert rows.value == ["", name];
    assert Join(["", name], "|") == "|" + name by {
      assert ["", name][..1] == [""];
    }
    Decimal297();
    assert ProjectRow(record, Some(297), fields, display) == Ok(Decimal(297) + Join(rows.value, "|"));
    assert "297" + ("|" + name) == "297|" + name;
  }

  // ---- print_rows ----

  /** Column 0 of the record is Null and some later column is the String `value`. */
  predicate ValueMatches(record: Record, value: seq<byte>)
  {
    && |record.columns| > 0
    && record.columns[0].data == SerialValue.Null
    && exists j :: 1 <= j < |record.columns| && record.columns[j].data == SerialValue.String(value)
  }

  /** Some selection value matches the record; the selection's field names play no part. */
  predicate RowMatches(selection: seq<(string, seq<byte>)>, record: Record)
  {
    exists k :: 0 <= k < |selection| && ValueMatches(record, selection[k].1)
  }

  /**
   * The row `print_rows` adds for a record: none when no selection value
   * matches, otherwise the projected row, or a panic of the projection.
   */
  function MatchedRow(selection: seq<(string, seq<byte>)>, record: Record, rowid: Option<int>,
                      fields: seq<(nat, string)>, display: SerialValue -> string): (r: Result<Option<string>>)
    ensures r == Ok(None) <==> !RowMatches(selection, record)
    ensures r.Err? ==> Panics(r) && RowMatches(selection, record)
    ensures r.Ok? && r.value.Some? ==> ProjectRow(record, rowid, fields, display) == Ok(r.value.value)
  {
    if RowMatches(selection, record) then
      var row :- ProjectRow(record, rowid, fields, display);
      Ok(Some(row))
    else Ok(None)
  }

  /** A set with the row of a `MatchedRow`-like outcome added, or the panic. */
  function Added<T>(s: set<T>, outcome: Result<Option<T>>): (r: Result<set<T>>)
    ensures r.Ok? <==> outcome.Ok?
    ensures r.Ok? ==> r.value == s + (if outcome.value.Some? then {outcome.value.value} else {})
  {
    match outcome
    case Err(e) => Err(e)
    case Ok(None) => Ok(s)
    case Ok(Some(x)) => Ok(s + {x})
  }

  /**
   * `print_rows`: for each selection value, the columns are scanned from the
   * first; a non-Null column 0 ends the scan, and the first String column
   * equal to the value contributes the projected row. The distinct rows found
   * are joined by "|" and added to `rowSet` when there is at least one.
   */
  method PrintRows(sql: Sql, record: Record, rowid: Option<int>, fields: seq<(nat, string)>,
                   display: SerialValue -> string, rowSet: set<string>) returns (r: Result<set<string>>)
    ensures r == Added(rowSet, MatchedRow(sql.selection, record, rowid, fields, display))
  {
    var values: seq<string> := [];
    var k := 0;
    while k < |sql.selection|
      invariant 0 <= k <= |sql.selection|
      invariant values == [] <==> !RowMatches(sql.selection[..k], record)
      invariant values != [] ==> ProjectRow(record, rowid, fields, display).Ok?
      invariant values != [] ==> values == [ProjectRow(record, rowid, fields, display).value]
    {
      var value := sql.selection[k].1;
      var j := 0;
      ghost var matched := false;
      while j < |record.columns|
        invariant 0 <= j <= |record.columns|
        invariant !matched
        invariant j > 0 ==> record.columns[0].data == SerialValue.Null
        invariant forall j' :: 1 <= j' < j ==> record.columns[j'].data != SerialValue.String(value)
      {
        var column := record.columns[j];
        if j == 0 && column.data != SerialValue.Null {
          break;
        }
        if column.data.String? && column.data.text == value {
          var row :- ProjectRow(record, rowid, fields, display);
          if row !in values {
            values := values + [row];
          }
          matched := true;
          break;
        }
        j := j + 1;
      }
      assert sql.selection[..k + 1] == sql.selection[..k] + [sql.selection[k]];
      assert matched <==> ValueMatches(record, value);
      k := k + 1;
    }
    assert sql.selection[..k] == sql.selection;
    if values != [] {
      r := Ok(rowSet + {Join(values, "|")});
    } else {
      r := Ok(rowSet);
    }
  }

  /** `print_rows` adds at most one row, and only for a record some selection value matches. */
  lemma PrintRowsAddsAtMostOne(selection: seq<(string, seq<byte>)>, record: Record, rowid: Option<int>,
                               fields: seq<(nat, string)>, display: SerialValue -> string, rowSet: set<string>)
    requires Added(rowSet, MatchedRow(selection, record, rowid, fields, display)).Ok?
    ensures var added := Added(rowSet, MatchedRow(selection, record, rowid, fields, display)).value - rowSet;
      |added| <= 1 && (added != {} ==> RowMatches(selection, record))
  {
    var m := MatchedRow(selection, record, rowid, fields, display);
    if m.value.Some? {
      assert Added(rowSet, m).value - rowSet <= {m.value.value};
    }
  }

  /** When column 0 is not Null, `print_rows` adds nothing. */
  lemma PrintRowsNeedsNullColumn0(selection: seq<(string, seq<byte>)>, record: Record, rowid: Option<int>,
                                  fields: seq<(nat, string)>, display: SerialValue -> string)
    requires |record.columns| > 0 && record.columns[0].data != SerialValue.Null
    ensures MatchedRow(selection, record, rowid, fields, display) == Ok(None)
  {
  }

  // ---- print_rows_by_rowid ----

  /** The row `print_rows_by_rowid` adds: the projection, if column 0 exists and is Null. */
  function RowByRowid(record: Record, rowid: Option<int>, fields: seq<(nat, string)>,
                      display: SerialValue -> string): (r: Result<Option<string>>)
    ensures r == Ok(None) <==> |record.columns| == 0 || record.columns[0].data != SerialValue.Null
    ensures r.Err? ==> Panics(r)
    ensures r.Ok? && r.value.Some? ==> ProjectRow(record, rowid, fields, display) == Ok(r.value.value)
  {
    if |record.columns| > 0 && record.columns[0].data == SerialValue.Null then
      var row :- ProjectRow(record, rowid, fields, display);
      Ok(Some(row))
    else Ok(None)
  }

  /**
   * `print_rows_by_rowid`: a non-Null column 0 ends the scan at once; every
   * scanned column renders the same projected row, which is added once.
   */
  method PrintRowsByRowid(record: Record, rowid: Option<int>, fields: seq<(nat, string)>,
                          display: SerialValue -> string, rowSet: set<string>) returns (r: Result<set<string>>)
    ensures r == Added(rowSet, RowByRowid(record, rowid, fields, display))
  {
    var values: seq<string> := [];
    var j := 0;
    while j < |record.columns|
      invariant 0 <= j <= |record.columns|
      invariant j > 0 ==> record.columns[0].data == SerialValue.Null
      invariant values == [] <==> j == 0
      invariant values != [] ==> ProjectRow(record, rowid, fields, display).Ok?
      invariant values != [] ==> values == [ProjectRow(record, rowid, fields, display).value]
    {
      if j == 0 && record.columns[j].data != SerialValue.Null {
        break;
      }
      var row :- ProjectRow(record, rowid, fields, display);
      if row !in values {
        values := values + [row];
      }
      j := j + 1;
    }
    if values != [] {
      r := Ok(rowSet + {Join(values, "|")});
    } else {
      r := Ok(rowSet);
    }
  }

  /** A record with a Null column 0 adds exactly one row when its projection does not panic. */
  lemma PrintRowsByRowidAddsOne(record: Record, rowid: Option<int>, fields: seq<(nat, string)>,
                                display: SerialValue -> string, rowSet: set<string>)
    requires |record.columns| > 0 && record.columns[0].data == SerialValue.Null
    requires ProjectRow(record, rowid, fields, display).Ok?
    ensures Added(rowSet, RowByRowid(record, rowid, fields, display)) ==
      Ok(rowSet + {ProjectRow(record, rowid, fields, display).value})
  {
  }

  // ---- print_row_id ----

  /** The rowid column 1 of an index record holds: `I8` to `I32`; anything else is `todo!()`. */
  function IdOf(v: SerialValue): (r: Option<int>)
    ensures r.Some? <==> v.I8? || v.I16? || v.I24? || v.I32?
  {
    match v
    case I8(i) => Some(i)
    case I16(i) => Some(i)
    case I24(i) => Some(i)
    case I32(i) => Some(i)
    case _ => None
  }

  /** Column 1 of a record as a rowid; a missing column or a non-integer panics. */
  function IdAt(record: Record): (r: Result<int>)
    ensures r.Err? ==> Panics(r)
    ensures r.Ok? <==> |record.columns| >= 2 && IdOf(record.columns[1].data).Some?
  {
    if |record.columns| < 2 then Err(Panic)
    else match IdOf(record.columns[1].data)
      case Some(i) => Ok(i)
      case None => Err(Panic)
  }

  /** Column 0 of the record is the String of some selection value. */
  predicate KeyMatches(selection: seq<(string, seq<byte>)>, record: Record)
  {
    && |record.columns| > 0
    && record.columns[0].data.String?
    && exists k :: 0 <= k < |selection| && selection[k].1 == record.columns[0].data.text
  }

  /**
   * The rowid `print_row_id` inserts: column 1 of a record whose column 0
   * is a String equal to some selection value. `record.columns[0]` panics on
   * a record with no columns as soon as there is a selection value.
   */
  function MatchedId(selection: seq<(string, seq<byte>)>, record: Option<Record>): (r: Result<Option<int>>)
    ensures record.None? || selection == [] ==> r == Ok(None)
    ensures r.Ok? && r.value.Some? ==> KeyMatches(selection, record.value) && IdAt(record.value) == Ok(r.value.value)
    ensures record.Some? && KeyMatches(selection, record.value) ==> r.Ok? == IdAt(record.value).Ok? && r != Ok(None)
    ensures r.Err? ==> Panics(r)
  {
    if record.None? || selection == [] then Ok(None)
    else if |record.value.columns| == 0 then Err(Panic)
    else if KeyMatches(selection, record.value) then
      var id :- IdAt(record.value);
      Ok(Some(id))
    else Ok(None)
  }

  /**
   * `print_row_id`: for each selection value, a record whose column 0 is that
   * String has the integer in its column 1 inserted into `rowids`.
   */
  method PrintRowId(record: Option<Record>, select: Sql, rowids: set<int>) returns (r: Result<set<int>>)
    ensures r == Added(rowids, MatchedId(select.selection, record))
  {
    var ids := rowids;
    if record.Some? {
      var rec := record.value;
      var k := 0;
      while k < |select.selection|
        invariant 0 <= k <= |select.selection|
        invariant k > 0 ==> |rec.columns| > 0
        invariant KeyMatches(select.selection[..k], rec) ==> IdAt(rec).Ok?
        invariant ids == rowids + (if KeyMatches(select.selection[..k], rec) then {IdAt(rec).value} else {})
      {
        var value := select.selection[k].1;
        if |rec.columns| == 0 {
          return Err(Panic);
        }
        if rec.columns[0].data.String? && value == rec.columns[0].data.text {
          var num :- IdAt(rec);
          ids := ids + {num};
        }
        assert select.selection[..k + 1] == select.selection[..k] + [select.selection[k]];
        k := k + 1;
      }
      assert select.selection[..k] == select.selection;
    }
    r := Ok(ids);
  }
}
