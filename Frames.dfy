/** The part of a pandas DataFrame the `Dataset` classes rely on: ordered
    column headers, ordered rows that each carry an index label, and the
    handful of DataFrame operations the code calls (`dropna`, column
    selection, `append`, `.loc`/`.at` assignment, `set_index`/`reset_index`). */
module Frames {
  import opened Wrappers
  import opened Strings

  /** A spreadsheet cell value (text or a whole number). */
  datatype Value = Text(text: string) | Number(number: int)

  /** A row: its index label and its non-empty cells; a header missing from
      `cells` is an empty (NaN) cell. */
  datatype Row = Row(index: int, cells: map<string, Value>)

  datatype Table = Table(columns: seq<string>, rows: seq<Row>)

  /** A Python dict passed to `append`: keys in insertion order, `None` for an empty value. */
  type Record = seq<(string, Option<Value>)>

  const DescriptionCategory := "dataset_description"
  const ValueHeader := "Value"
  const UnnamedPrefix := "Unnamed"

  function Cell(r: Row, header: string): Option<Value> {
    if header in r.cells then Some(r.cells[header]) else None
  }

  predicate Distinct(s: seq<string>) {
    forall i, j :: 0 <= i < j < |s| ==> s[i] != s[j]
  }

  predicate Any(rows: seq<Row>, target: Row -> bool) {
    exists i :: 0 <= i < |rows| && target(rows[i])
  }

  // ----- keeping the elements that satisfy a test, in order -----

  /** The elements of `s` that satisfy `keep`, in their original order. */
  function Select<T(!new)>(s: seq<T>, keep: T -> bool): (r: seq<T>)
    ensures |r| <= |s|
  {
    if s == [] then []
    else Select(s[..|s| - 1], keep) + (if keep(s[|s| - 1]) then [s[|s| - 1]] else [])
  }

  /** `Select` keeps exactly the elements that pass the test. */
  lemma {:induction false} SelectMembers<T(!new)>(s: seq<T>, keep: T -> bool)
    ensures forall x :: x in Select(s, keep) <==> x in s && keep(x)
  {
    if s != [] {
      SelectMembers(s[..|s| - 1], keep);
      assert s == s[..|s| - 1] + [s[|s| - 1]];
    }
  }

  /** The positions of `s` whose element satisfies `keep`, in increasing order. */
  function Kept<T>(s: seq<T>, keep: T -> bool): (ks: seq<nat>)
    ensures forall a, b :: 0 <= a < b < |ks| ==> ks[a] < ks[b]
    ensures forall k :: 0 <= k < |ks| ==> ks[k] < |s|
    ensures forall i: nat :: i in ks <==> i < |s| && keep(s[i])
  {
    if s == [] then []
    else Kept(s[..|s| - 1], keep) + (if keep(s[|s| - 1]) then [|s| - 1] else [])
  }

  /** `Select` keeps exactly the positions `Kept` lists: the k-th kept
      element is the element at the k-th kept position. */
  lemma {:induction false} SelectKept<T(!new)>(s: seq<T>, keep: T -> bool)
    ensures |Select(s, keep)| == |Kept(s, keep)|
    ensures forall k :: 0 <= k < |Kept(s, keep)| ==> Select(s, keep)[k] == s[Kept(s, keep)[k]]
  {
    if s != [] {
      var init := s[..|s| - 1];
      SelectKept(init, keep);
      forall k | 0 <= k < |Kept(s, keep)|
        ensures Select(s, keep)[k] == s[Kept(s, keep)[k]]
      {
        if k < |Kept(init, keep)| {
          assert Select(s, keep)[k] == Select(init, keep)[k];
          assert Kept(s, keep)[k] == Kept(init, keep)[k];
        }
      }
    }
  }

  /** Selecting twice with the same test selects nothing more. */
  lemma {:induction false} SelectIdempotent<T(!new)>(s: seq<T>, keep: T -> bool)
    ensures Select(Select(s, keep), keep) == Select(s, keep)
  {
    if s != [] {
      var init := s[..|s| - 1];
      SelectIdempotent(init, keep);
      var tail := if keep(s[|s| - 1]) then [s[|s| - 1]] else [];
      SelectAppend(Select(init, keep), tail, keep);
      assert Select(tail, keep) == tail by {
        if tail != [] { assert tail[..0] == []; }
      }
    }
  }

  lemma {:induction false} SelectAppend<T(!new)>(a: seq<T>, b: seq<T>, keep: T -> bool)
    ensures Select(a + b, keep) == Select(a, keep) + Select(b, keep)
    decreases |b|
  {
    if b == [] {
      assert a + b == a;
    } else {
      var b' := b[..|b| - 1];
      SelectAppend(a, b', keep);
      assert (a + b)[..|a + b| - 1] == a + b';
    }
  }

  // ----- load-time cleaning: dropna(how="all") and the '^Unnamed' column mask -----

  /** Every cell of the row in the given columns is empty. */
  predicate AllEmpty(r: Row, columns: seq<string>) {
    forall h :: h in columns ==> h !in r.cells
  }

  function NotAllEmpty(columns: seq<string>): Row -> bool {
    (r: Row) => !AllEmpty(r, columns)
  }

  /** `dropna(how="all")`: drop the rows whose every cell is empty. */
  function DropEmptyRows(t: Table): (r: Table)
    ensures r.columns == t.columns
    ensures forall row :: row in r.rows <==> row in t.rows && !AllEmpty(row, t.columns)
  {
    SelectMembers(t.rows, NotAllEmpty(t.columns));
    t.(rows := Select(t.rows, NotAllEmpty(t.columns)))
  }

  /** `columns.str.contains('^Unnamed')`: pandas' name for a header cell left blank. */
  predicate Unnamed(header: string) {
    StartsWith(header, UnnamedPrefix)
  }

  function Named(): string -> bool {
    (h: string) => !Unnamed(h)
  }

  function RestrictRow(r: Row, headers: seq<string>): Row {
    Row(r.index, map h | h in r.cells && h in headers :: r.cells[h])
  }

  /** `metadata.loc[:, ~metadata.columns.str.contains('^Unnamed')]`. */
  function DropUnnamedColumns(t: Table): (r: Table)
    ensures forall h :: h in r.columns <==> h in t.columns && !Unnamed(h)
    ensures |r.rows| == |t.rows|
    ensures forall i, h :: 0 <= i < |t.rows| ==>
              r.rows[i].index == t.rows[i].index &&
              Cell(r.rows[i], h) == if h in r.columns then Cell(t.rows[i], h) else None
  {
    SelectMembers(t.columns, Named());
    var kept := Select(t.columns, Named());
    Table(kept, seq(|t.rows|, i requires 0 <= i < |t.rows| => RestrictRow(t.rows[i], kept)))
  }

  /** What the loaders do to every spreadsheet they read: first drop the
      all-empty rows, then the unnamed columns. */
  function CleanSheet(t: Table): (c: Table)
    ensures forall h :: h in c.columns <==> h in t.columns && !Unnamed(h)
    ensures |c.rows| <= |t.rows|
    ensures forall row :: row in c.rows ==> forall h :: h in row.cells ==> h in c.columns
  {
    DropUnnamedColumns(DropEmptyRows(t))
  }

  /** The kept columns are exactly the named ones; a row is dropped exactly
      when all its cells in the ORIGINAL columns are empty; the surviving
      rows keep their order and labels and lose only their unnamed cells. */
  lemma CleanSheetSpec(t: Table)
    ensures var c := CleanSheet(t);
            var ks := Kept(t.rows, NotAllEmpty(t.columns));
            && c.columns == Select(t.columns, Named())
            && (forall h :: h in c.columns <==> h in t.columns && !Unnamed(h))
            && |c.rows| == |ks|
            && (forall k :: 0 <= k < |ks| ==>
                  && c.rows[k].index == t.rows[ks[k]].index
                  && forall h :: Cell(c.rows[k], h) == if h in c.columns then Cell(t.rows[ks[k]], h) else None)
  {
    SelectKept(t.rows, NotAllEmpty(t.columns));
    SelectMembers(t.columns, Named());
  }

  /** Because rows are dropped before columns, a row whose only content sits
      in an unnamed column survives the load as an all-empty row. */
  lemma CleanSheetKeepsRowEmptyAfterColumnDrop()
    ensures var t := Table(["Unnamed: 1", "Value"], [Row(0, map["Unnamed: 1" := Text("x")])]);
            var c := CleanSheet(t);
            |c.rows| == 1 && AllEmpty(c.rows[0], c.columns)
  {
    var t := Table(["Unnamed: 1", "Value"], [Row(0, map["Unnamed: 1" := Text("x")])]);
    assert !AllEmpty(t.rows[0], t.columns) by { assert "Unnamed: 1" in t.columns; }
    assert Unnamed("Unnamed: 1") by { assert "Unnamed: 1"[..7] == UnnamedPrefix; }
    assert !Unnamed("Value");
    assert [t.rows[0]][..0] == [];
    assert t.columns[..1] == ["Unnamed: 1"];
    assert Select(t.columns, Named()) == ["Value"];
  }

  // ----- save-time filtering (`_filter`) -----

  function HasCell(header: string): Row -> bool {
    (r: Row) => header in r.cells
  }

  /** `_filter(metadata, filename)`: for a file whose name contains
      `dataset_description`, `dropna(subset=["Value"])`, which raises a
      KeyError when there is no `Value` column; any other table is returned as is. */
  function Filter(t: Table, filename: string): (r: Result<Table>)
    ensures !Contains(filename, DescriptionCategory) ==> r == Success(t)
    ensures Contains(filename, DescriptionCategory) && ValueHeader !in t.columns ==>
              r == Failure(MissingColumn(ValueHeader))
    ensures Contains(filename, DescriptionCategory) && ValueHeader in t.columns ==>
              && r.Success? && r.value.columns == t.columns
              && forall row :: row in r.value.rows <==> row in t.rows && Cell(row, ValueHeader).Some?
  {
    if Contains(filename, DescriptionCategory) then
      if ValueHeader in t.columns then
        SelectMembers(t.rows, HasCell(ValueHeader));
        Success(t.(rows := Select(t.rows, HasCell(ValueHeader))))
      else Failure(MissingColumn(ValueHeader))
    else Success(t)
  }

  /** The description filter keeps the rows with a set `Value`, in their order
      and with their labels, and every such row. */
  lemma FilterKeepsOrder(t: Table, filename: string)
    requires Contains(filename, DescriptionCategory) && ValueHeader in t.columns
    ensures var ks := Kept(t.rows, HasCell(ValueHeader));
            && Filter(t, filename).Success?
            && |Filter(t, filename).value.rows| == |ks|
            && forall k :: 0 <= k < |ks| ==> Filter(t, filename).value.rows[k] == t.rows[ks[k]]
  {
    SelectKept(t.rows, HasCell(ValueHeader));
  }

  /** Filtering an already filtered table changes nothing. */
  lemma FilterIdempotent(t: Table, filename: string)
    requires Filter(t, filename).Success?
    ensures Filter(Filter(t, filename).value, filename) == Filter(t, filename)
  {
    if Contains(filename, DescriptionCategory) {
      SelectIdempotent(t.rows, HasCell(ValueHeader));
    }
  }

  // ----- append(row, ignore_index=True) -----

  predicate InRecord(rec: Record, h: string) {
    exists i :: 0 <= i < |rec| && rec[i].0 == h
  }

  /** The cells of the appended row: for each key the last value the dict
      holds for it; `None` leaves the cell empty. */
  function RecordCells(rec: Record): (m: map<string, Value>)
    ensures forall h :: h in m ==> InRecord(rec, h)
    ensures forall h :: h in m ==> exists i :: 0 <= i < |rec| && rec[i] == (h, Some(m[h]))
  {
    if rec == [] then map[]
    else
      var init := RecordCells(rec[..|rec| - 1]);
      var (h, v) := rec[|rec| - 1];
      assert forall k :: InRecord(rec[..|rec| - 1], k) ==> InRecord(rec, k) by {
        forall k | InRecord(rec[..|rec| - 1], k) ensures InRecord(rec, k) {
          var i :| 0 <= i < |rec| - 1 && rec[..|rec| - 1][i].0 == k;
          assert rec[i].0 == k;
        }
      }
      assert forall k :: k in init ==> exists i :: 0 <= i < |rec| && rec[i] == (k, Some(init[k])) by {
        forall k | k in init ensures exists i :: 0 <= i < |rec| && rec[i] == (k, Some(init[k])) {
          var i :| 0 <= i < |rec| - 1 && rec[..|rec| - 1][i] == (k, Some(init[k]));
          assert rec[i] == (k, Some(init[k]));
        }
      }
      if v.Some? then init[h := v.value] else init - {h}
  }

  /** The headers after appending: the old ones, then each new key of the
      record once, in the record's order. */
  function ExtendHeaders(columns: seq<string>, rec: Record): (cs: seq<string>)
    ensures |columns| <= |cs| && cs[..|columns|] == columns
    ensures forall h :: h in cs <==> h in columns || InRecord(rec, h)
    ensures Distinct(columns) ==> Distinct(cs)
  {
    if rec == [] then columns
    else
      var cs := ExtendHeaders(columns, rec[..|rec| - 1]);
      var h := rec[|rec| - 1].0;
      assert forall k :: InRecord(rec, k) <==> InRecord(rec[..|rec| - 1], k) || k == h by {
        forall k ensures InRecord(rec, k) <==> InRecord(rec[..|rec| - 1], k) || k == h {
          if InRecord(rec, k) && k != h {
            var i :| 0 <= i < |rec| && rec[i].0 == k;
            assert rec[..|rec| - 1][i].0 == k;
          }
          if InRecord(rec[..|rec| - 1], k) {
            var i :| 0 <= i < |rec| - 1 && rec[..|rec| - 1][i].0 == k;
            assert rec[i].0 == k;
          }
        }
      }
      if h in cs then cs else cs + [h]
  }

  /** A fresh 0, 1, 2, ... index over the same rows. */
  function Relabel(rows: seq<Row>): (rs: seq<Row>)
    ensures |rs| == |rows|
    ensures forall i :: 0 <= i < |rs| ==> rs[i].index == i && rs[i].cells == rows[i].cells
  {
    seq(|rows|, i requires 0 <= i < |rows| => Row(i, rows[i].cells))
  }

  /** `metadata.append(row, ignore_index=True)`: one new last row holding the
      record, unknown keys become new columns, and all rows are re-labelled. */
  function Append(t: Table, rec: Record): (r: Table)
    ensures |r.rows| == |t.rows| + 1
    ensures forall i :: 0 <= i < |t.rows| ==> r.rows[i].cells == t.rows[i].cells
    ensures forall i :: 0 <= i < |r.rows| ==> r.rows[i].index == i
    ensures forall h :: Cell(r.rows[|t.rows|], h).Some? ==> InRecord(rec, h)
    ensures forall h :: Cell(r.rows[|t.rows|], h).Some? ==>
              exists i :: 0 <= i < |rec| && rec[i] == (h, Cell(r.rows[|t.rows|], h))
    ensures |t.columns| <= |r.columns| && r.columns[..|t.columns|] == t.columns
    ensures forall h :: h in r.columns <==> h in t.columns || InRecord(rec, h)
  {
    Table(ExtendHeaders(t.columns, rec), Relabel(t.rows + [Row(|t.rows|, RecordCells(rec))]))
  }

  /** A key given once in the record with a value lands in the new row. */
  lemma AppendStoresRecord(t: Table, rec: Record, i: nat)
    requires i < |rec| && rec[i].1.Some?
    requires forall j :: 0 <= j < |rec| && j != i ==> rec[j].0 != rec[i].0
    ensures Cell(Append(t, rec).rows[|t.rows|], rec[i].0) == rec[i].1
  {
    RecordCellsLast(rec, i);
  }

  lemma {:induction false} RecordCellsLast(rec: Record, i: nat)
    requires i < |rec| && rec[i].1.Some?
    requires forall j :: 0 <= j < |rec| && j != i ==> rec[j].0 != rec[i].0
    ensures rec[i].0 in RecordCells(rec) && RecordCells(rec)[rec[i].0] == rec[i].1.value
  {
    if i < |rec| - 1 {
      RecordCellsLast(rec[..|rec| - 1], i);
    }
  }

  // ----- single-cell assignment -----

  /** The headers after assigning to `header`: a new header is added last. */
  function AddHeader(columns: seq<string>, header: string): (cs: seq<string>)
    ensures header in cs
    ensures forall h :: h in cs <==> h in columns || h == header
    ensures |columns| <= |cs| && cs[..|columns|] == columns
  {
    if header in columns then columns else columns + [header]
  }

  /** Write `v` under `header` in every row that `target` picks. */
  function WriteWhere(rows: seq<Row>, target: Row -> bool, header: string, v: Value): (rs: seq<Row>)
    ensures |rs| == |rows|
    ensures forall i :: 0 <= i < |rows| ==> rs[i].index == rows[i].index
    ensures forall i :: 0 <= i < |rows| && !target(rows[i]) ==> rs[i] == rows[i]
    ensures forall i, h :: 0 <= i < |rows| && target(rows[i]) ==>
              Cell(rs[i], h) == if h == header then Some(v) else Cell(rows[i], h)
  {
    seq(|rows|, i requires 0 <= i < |rows| =>
      if target(rows[i]) then rows[i].(cells := rows[i].cells[header := v]) else rows[i])
  }

  function IndexIs(index: int): Row -> bool {
    (r: Row) => r.index == index
  }

  /** `metadata.loc[index, header] = value` on an existing row label. A label
      that no row has is reported as a missing row, as the caller's error
      message says; `SetCellAsWritten` is what pandas itself does then. */
  function SetCell(t: Table, index: int, header: string, v: Value): (r: Result<Table>)
    ensures r.Failure? <==> !Any(t.rows, IndexIs(index))
    ensures r.Failure? ==> r.error == RowDoesNotExist
    ensures r.Success? ==> r.value.columns == AddHeader(t.columns, header)
    ensures r.Success? ==> |r.value.rows| == |t.rows|
    ensures r.Success? ==> forall i :: 0 <= i < |t.rows| && t.rows[i].index != index ==> r.value.rows[i] == t.rows[i]
    ensures r.Success? ==> forall i, h :: 0 <= i < |t.rows| && t.rows[i].index == index ==>
              && r.value.rows[i].index == index
              && Cell(r.value.rows[i], h) == if h == header then Some(v) else Cell(t.rows[i], h)
  {
    if Any(t.rows, IndexIs(index)) then
      Success(Table(AddHeader(t.columns, header), WriteWhere(t.rows, IndexIs(index), header, v)))
    else Failure(RowDoesNotExist)
  }

  /** What pandas does for `.loc[index, header] = value`: on a label no row
      has, it appends a new row with that label ("setting with enlargement"). */
  function SetCellAsWritten(t: Table, index: int, header: string, v: Value): (r: Table)
    ensures Any(t.rows, IndexIs(index)) ==> SetCell(t, index, header, v) == Success(r)
    ensures !Any(t.rows, IndexIs(index)) ==> |r.rows| == |t.rows| + 1 && r.rows[|t.rows|].index == index
  {
    if Any(t.rows, IndexIs(index)) then
      Table(AddHeader(t.columns, header), WriteWhere(t.rows, IndexIs(index), header, v))
    else
      Table(AddHeader(t.columns, header), t.rows + [Row(index, map[header := v])])
  }

  /** A concrete input on which the two disagree: two data rows (spreadsheet
      rows 2 and 3), and a write to spreadsheet row 10, i.e. label 8. */
  lemma SetCellMissingRowEnlarges()
    ensures var t := Table([ValueHeader], [Row(0, map[]), Row(1, map[])]);
            && SetCell(t, 10 - 2, ValueHeader, Text("x")) == Failure(RowDoesNotExist)
            && |SetCellAsWritten(t, 10 - 2, ValueHeader, Text("x")).rows| == 3
  {
    var t := Table([ValueHeader], [Row(0, map[]), Row(1, map[])]);
    assert !Any(t.rows, IndexIs(8));
  }

  /** When labels are unique, a successful write changes exactly one cell. */
  lemma SetCellChangesOneCell(t: Table, index: int, header: string, v: Value, i: nat, j: nat, h: string)
    requires SetCell(t, index, header, v).Success?
    requires forall a, b :: 0 <= a < b < |t.rows| ==> t.rows[a].index != t.rows[b].index
    requires i < |t.rows| && t.rows[i].index == index
    requires j < |t.rows| && (j != i || h != header)
    ensures Cell(SetCell(t, index, header, v).value.rows[j], h) == Cell(t.rows[j], h)
  {
  }

  // ----- the first column as the row index: set_index / reset_index -----

  /** `list(metadata.set_index(first).index)`: the first column's cells. */
  function IndexValues(t: Table): (vs: seq<Option<Value>>)
    requires |t.columns| > 0
    ensures |vs| == |t.rows|
    ensures forall i :: 0 <= i < |vs| ==> vs[i] == Cell(t.rows[i], t.columns[0])
  {
    seq(|t.rows|, i requires 0 <= i < |t.rows| => Cell(t.rows[i], t.columns[0]))
  }

  /** `list(metadata.set_index(first).columns)`: the headers after the first. */
  function DataHeaders(t: Table): (hs: seq<string>)
    requires |t.columns| > 0
    ensures [t.columns[0]] + hs == t.columns
  {
    t.columns[1..]
  }

  function KeyIs(first: string, key: string): Row -> bool {
    (r: Row) => Cell(r, first) == Some(Text(key))
  }

  /** `metadata.set_index(first)`, `.at[key, header] = value`, `reset_index()`:
      write into the rows whose first-column cell is the text `key`. The
      index is rebuilt as 0, 1, 2, ... . When `header` is the first column's
      own header, `reset_index` cannot put the index column back (it already
      exists) and the ValueError is reported as a missing row. A key that no
      row has is reported as a missing row, as the caller's error message
      says; `SetByKeyAsWritten` is what pandas itself does then. */
  function SetByKey(t: Table, key: string, header: string, v: Value): (r: Result<Table>)
    ensures |t.columns| == 0 ==> r == Failure(NoColumns)
    ensures |t.columns| > 0 ==> (r.Failure? <==> header == t.columns[0] || !Any(t.rows, KeyIs(t.columns[0], key)))
    ensures |t.columns| > 0 && r.Failure? ==> r.error == RowDoesNotExist
    ensures r.Success? ==> r.value.columns == AddHeader(t.columns, header)
    ensures r.Success? ==> |r.value.rows| == |t.rows|
    ensures r.Success? ==> forall i :: 0 <= i < |t.rows| ==> r.value.rows[i].index == i
    ensures r.Success? ==> forall i :: 0 <= i < |t.rows| && Cell(t.rows[i], t.columns[0]) != Some(Text(key)) ==>
              r.value.rows[i].cells == t.rows[i].cells
    ensures r.Success? ==> forall i, h :: 0 <= i < |t.rows| && Cell(t.rows[i], t.columns[0]) == Some(Text(key)) ==>
              Cell(r.value.rows[i], h) == if h == header then Some(v) else Cell(t.rows[i], h)
  {
    if |t.columns| == 0 then Failure(NoColumns)
    else if header == t.columns[0] || !Any(t.rows, KeyIs(t.columns[0], key)) then Failure(RowDoesNotExist)
    else Success(Table(AddHeader(t.columns, header), Relabel(WriteWhere(t.rows, KeyIs(t.columns[0], key), header, v))))
  }

  /** What pandas does for `.at[key, header] = value` on a key no row has: a
      new last row whose first column is `key` ("setting with enlargement"). */
  function SetByKeyAsWritten(t: Table, key: string, header: string, v: Value): (r: Result<Table>)
    ensures Any(t.rows, KeyIs(t.columns[0], key)) ==> r == SetByKey(t, key, header, v)
    ensures header != t.columns[0] && !Any(t.rows, KeyIs(t.columns[0], key)) ==>
              && r.Success? && |r.value.rows| == |t.rows| + 1
              && Cell(r.value.rows[|t.rows|], t.columns[0]) == Some(Text(key))
    requires |t.columns| > 0
  {
    var first := t.columns[0];
    if header == first then Failure(RowDoesNotExist)
    else if Any(t.rows, KeyIs(first, key)) then
      Success(Table(AddHeader(t.columns, header), Relabel(WriteWhere(t.rows, KeyIs(first, key), header, v))))
    else
      var added := Row(|t.rows|, map[first := Text(key), header := v]);
      Success(Table(AddHeader(t.columns, header), Relabel(t.rows + [added])))
  }

  /** A concrete input on which the two disagree: a description table with
      one element, and a write to an element that is not there. */
  lemma SetByKeyMissingRowEnlarges()
    ensures var t := Table(["Metadata element", ValueHeader], [Row(0, map["Metadata element" := Text("Title")])]);
            && SetByKey(t, "Keywords", ValueHeader, Text("x")) == Failure(RowDoesNotExist)
            && SetByKeyAsWritten(t, "Keywords", ValueHeader, Text("x")).Success?
            && |SetByKeyAsWritten(t, "Keywords", ValueHeader, Text("x")).value.rows| == 2
  {
    var t := Table(["Metadata element", ValueHeader], [Row(0, map["Metadata element" := Text("Title")])]);
    assert Cell(t.rows[0], "Metadata element") == Some(Text("Title"));
    assert !Any(t.rows, KeyIs("Metadata element", "Keywords"));
  }

  /** Writing into an existing non-index column leaves the headers as they
      were: `reset_index` restores the first column in first place. */
  lemma SetByKeyKeepsHeaders(t: Table, key: string, header: string, v: Value)
    requires SetByKey(t, key, header, v).Success?
    requires header in t.columns
    ensures SetByKey(t, key, header, v).value.columns == t.columns
    ensures IndexValues(SetByKey(t, key, header, v).value) == IndexValues(t)
  {
  }
}
