/** What both `Dataset` classes do with one category of a loaded dataset:
    look it up, replace its table, append a row, write one cell, list its
    fields; and the list of a dataset's categories. */
module Editing {
  import opened Wrappers
  import opened Strings
  import opened Paths
  import opened Frames
  import opened Dicts
  import opened Store

  /** `dataset.get(category).get("metadata")`: a missing key gives `None` and
      a resource gives a `Path`, and neither has a `.get`. */
  function CategoryTable(d: Catalogue, category: string): (r: Result<Table>)
    ensures r.Success? <==> category in d.values && d.values[category].Category?
    ensures category !in d.values ==> r == Failure(CategoryNotFound)
    ensures category in d.values && d.values[category].Resource? ==> r == Failure(NotACategory)
    ensures r.Success? ==> r.value == d.values[category].table
  {
    if category !in d.values then Failure(CategoryNotFound)
    else
      match d.values[category]
      case Resource(_) => Failure(NotACategory)
      case Category(_, t) => Success(t)
  }

  /** `dataset[category]["metadata"] = table`: the entry keeps its path and
      its place in the dict. */
  function WithTable(d: Catalogue, category: string, t: Table): (r: Catalogue)
    requires category in d.values && d.values[category].Category?
    ensures r.keys == d.keys
    ensures r.values == d.values[category := Category(d.values[category].path, t)]
  {
    Put(d, category, Category(d.values[category].path, t))
  }

  /** Replacing a table keeps the dict well formed and every entry keyed by
      its own file name. */
  lemma WithTableKeeps(d: Catalogue, category: string, t: Table)
    requires category in d.values && d.values[category].Category?
    ensures Valid(d) ==> Valid(WithTable(d, category, t))
    ensures KeyedByName(d) ==> KeyedByName(WithTable(d, category, t))
  {
    if Valid(d) {
      PutValid(d, category, Category(d.values[category].path, t));
    }
  }

  // ----- append -----

  /** `append(category, row)`: reject an empty dataset, look the category up,
      and replace its table by the table with the record appended. Nothing
      else in the dataset changes. */
  function AppendRow(d: Catalogue, category: string, rec: Record): (r: Result<Catalogue>)
    ensures IsEmpty(d) ==> r == Failure(DatasetNotDefined)
    ensures !IsEmpty(d) ==> (r.Success? <==> CategoryTable(d, category).Success?)
    ensures !IsEmpty(d) && r.Failure? ==> r.error == CategoryTable(d, category).error
    ensures r.Success? ==>
              && category in d.values && d.values[category].Category?
              && r.value.keys == d.keys
              && r.value.values.Keys == d.values.Keys
              && (forall k :: k in d.values && k != category ==> r.value.values[k] == d.values[k])
              && r.value.values[category].Category?
              && r.value.values[category].path == d.values[category].path
    ensures r.Success? ==>
              var t := d.values[category].table;
              var t' := r.value.values[category].table;
              && |t'.rows| == |t.rows| + 1
              && (forall i :: 0 <= i < |t.rows| ==> t'.rows[i].cells == t.rows[i].cells)
              && (forall h :: Cell(t'.rows[|t.rows|], h).Some? ==>
                    exists i :: 0 <= i < |rec| && rec[i] == (h, Cell(t'.rows[|t.rows|], h)))
              && |t.columns| <= |t'.columns| && t'.columns[..|t.columns|] == t.columns
    ensures r.Success? ==> r.value.values[category].table == Append(d.values[category].table, rec)
  {
    if IsEmpty(d) then Failure(DatasetNotDefined)
    else
      match CategoryTable(d, category)
      case Failure(err) => Failure(err)
      case Success(t) => Success(WithTable(d, category, Append(t, rec)))
  }

  /** A successful append keeps the dataset well formed. */
  lemma AppendRowValid(d: Catalogue, category: string, rec: Record)
    requires Valid(d) && AppendRow(d, category, rec).Success?
    ensures Valid(AppendRow(d, category, rec).value)
  {
    WithTableKeeps(d, category, Append(d.values[category].table, rec));
  }

  /** Both directions of the new row: a key given once with a value lands
      in the appended row of the category under that header. */
  lemma AppendRowStoresRecord(d: Catalogue, category: string, rec: Record, i: nat)
    requires AppendRow(d, category, rec).Success?
    requires i < |rec| && rec[i].1.Some?
    requires forall j :: 0 <= j < |rec| && j != i ==> rec[j].0 != rec[i].0
    ensures var t := d.values[category].table;
            var t' := AppendRow(d, category, rec).value.values[category].table;
            Cell(t'.rows[|t.rows|], rec[i].0) == rec[i].1
  {
    AppendStoresRecord(d.values[category].table, rec, i);
  }

  // ----- set_field -----

  /** The row argument of `set_field`: an `int`, or anything else (a string). */
  datatype Locator = ByInt(n: int) | ByText(text: string)

  /** metadata_manager's `set_field`: reject an empty dataset, look the
      category up, reject a row that is not an `int`, and write the cell in
      spreadsheet row `n`, which is the row labelled `n - 2` (row 1 holds the
      headers). */
  function SetFieldAt(d: Catalogue, category: string, row: Locator, header: string, v: Value): (r: Result<Catalogue>)
    ensures IsEmpty(d) ==> r == Failure(DatasetNotDefined)
    ensures !IsEmpty(d) && CategoryTable(d, category).Failure? ==> r == Failure(CategoryTable(d, category).error)
    ensures !IsEmpty(d) && CategoryTable(d, category).Success? && row.ByText? ==> r == Failure(RowIndexNotInt)
    ensures !IsEmpty(d) && CategoryTable(d, category).Success? && row.ByInt? ==>
              && (r.Failure? <==> !Any(d.values[category].table.rows, IndexIs(row.n - 2)))
              && (r.Failure? ==> r.error == RowDoesNotExist)
    ensures r.Success? ==>
              && row.ByInt? && category in d.values && d.values[category].Category?
              && r.value == WithTable(d, category, SetCell(d.values[category].table, row.n - 2, header, v).value)
  {
    if IsEmpty(d) then Failure(DatasetNotDefined)
    else
      match CategoryTable(d, category)
      case Failure(err) => Failure(err)
      case Success(t) =>
        match row
        case ByText(_) => Failure(RowIndexNotInt)
        case ByInt(n) =>
          match SetCell(t, n - 2, header, v)
          case Failure(err) => Failure(err)
          case Success(t') => Success(WithTable(d, category, t'))
  }

  /** When the row labels of the category are unique, a successful write
      changes exactly one cell of one category: row `n`'s cell under
      `header` now holds the value; every other cell of that table and every
      other entry of the dataset are as they were. */
  lemma SetFieldAtChangesOneCell(d: Catalogue, category: string, n: int, header: string, v: Value)
    requires SetFieldAt(d, category, ByInt(n), header, v).Success?
    requires category in d.values && d.values[category].Category?
    requires var rows := d.values[category].table.rows;
             forall a, b :: 0 <= a < b < |rows| ==> rows[a].index != rows[b].index
    ensures var r := SetFieldAt(d, category, ByInt(n), header, v).value;
            var t := d.values[category].table;
            var t' := r.values[category].table;
            && r.keys == d.keys
            && (forall k :: k in d.values && k != category ==> k in r.values && r.values[k] == d.values[k])
            && |t'.rows| == |t.rows|
            && (forall i :: 0 <= i < |t.rows| && t.rows[i].index == n - 2 ==> Cell(t'.rows[i], header) == Some(v))
            && (forall i, h :: 0 <= i < |t.rows| && (t.rows[i].index != n - 2 || h != header) ==>
                  Cell(t'.rows[i], h) == Cell(t.rows[i], h))
  {
    var t := d.values[category].table;
    var t' := SetFieldAt(d, category, ByInt(n), header, v).value.values[category].table;
    var i :| 0 <= i < |t.rows| && IndexIs(n - 2)(t.rows[i]);
    forall j, h | 0 <= j < |t.rows| && (t.rows[j].index != n - 2 || h != header)
      ensures Cell(t'.rows[j], h) == Cell(t.rows[j], h)
    {
      SetCellChangesOneCell(t, n - 2, header, v, i, j, h);
    }
  }

  /** A successful write keeps the dataset well formed. */
  lemma SetFieldAtValid(d: Catalogue, category: string, row: Locator, header: string, v: Value)
    requires Valid(d) && SetFieldAt(d, category, row, header, v).Success?
    ensures Valid(SetFieldAt(d, category, row, header, v).value)
  {
    WithTableKeeps(d, category, SetCell(d.values[category].table, row.n - 2, header, v).value);
  }

  /** The row key physiome_metadata's `set_field` looks up: an `int` is first
      turned into its decimal text. */
  function RowKey(row: Locator): (k: string)
    ensures row.ByText? ==> k == row.text
    ensures row.ByInt? ==> |k| > 0 && (IsDigits(k) <==> row.n >= 0)
  {
    match row
    case ByInt(n) => IntToString(n)
    case ByText(s) => s
  }

  /** physiome_metadata's `set_field`: reject an empty dataset, look the
      category up, make the first column the index, write the cell of the
      row whose first-column cell is the key, and restore the first column
      with a fresh index. */
  function SetFieldByKey(d: Catalogue, category: string, row: Locator, header: string, v: Value): (r: Result<Catalogue>)
    ensures IsEmpty(d) ==> r == Failure(DatasetNotDefined)
    ensures !IsEmpty(d) && CategoryTable(d, category).Failure? ==> r == Failure(CategoryTable(d, category).error)
    ensures !IsEmpty(d) && CategoryTable(d, category).Success? ==>
              && (r.Failure? <==> SetByKey(d.values[category].table, RowKey(row), header, v).Failure?)
              && (r.Failure? ==> r.error == SetByKey(d.values[category].table, RowKey(row), header, v).error)
    ensures r.Success? ==>
              && category in d.values && d.values[category].Category?
              && r.value == WithTable(d, category, SetByKey(d.values[category].table, RowKey(row), header, v).value)
  {
    if IsEmpty(d) then Failure(DatasetNotDefined)
    else
      match CategoryTable(d, category)
      case Failure(err) => Failure(err)
      case Success(t) =>
        match SetByKey(t, RowKey(row), header, v)
        case Failure(err) => Failure(err)
        case Success(t') => Success(WithTable(d, category, t'))
  }

  /** A successful write keeps the dataset well formed. */
  lemma SetFieldByKeyValid(d: Catalogue, category: string, row: Locator, header: string, v: Value)
    requires Valid(d) && SetFieldByKey(d, category, row, header, v).Success?
    ensures Valid(SetFieldByKey(d, category, row, header, v).value)
  {
    WithTableKeeps(d, category, SetByKey(d.values[category].table, RowKey(row), header, v).value);
  }

  /** Because an `int` is looked up as text, it never addresses a row whose
      first-column cell is a number: on a table whose first column holds only
      numbers (or empty cells) the corrected write reports a missing row. */
  lemma SetFieldByIntMissesNumbers(d: Catalogue, category: string, n: int, header: string, v: Value)
    requires !IsEmpty(d) && category in d.values && d.values[category].Category?
    requires var t := d.values[category].table;
             && |t.columns| > 0
             && forall i :: 0 <= i < |t.rows| ==>
                  Cell(t.rows[i], t.columns[0]).Some? ==> Cell(t.rows[i], t.columns[0]).value.Number?
    ensures SetFieldByKey(d, category, ByInt(n), header, v) == Failure(RowDoesNotExist)
  {
    var t := d.values[category].table;
    assert !Any(t.rows, KeyIs(t.columns[0], IntToString(n))) by {
      forall i | 0 <= i < |t.rows|
        ensures !KeyIs(t.columns[0], IntToString(n))(t.rows[i])
      {
      }
    }
  }

  /** Distinct `int` rows address distinct keys. */
  lemma RowKeyIntInjective(a: int, b: int)
    requires a != b
    ensures RowKey(ByInt(a)) != RowKey(ByInt(b))
  {
    if IntToString(a) == IntToString(b) {
      IntToStringInjective(a, b);
    }
  }

  /** A write into an existing column of a category leaves its headers and
      its first column (the row keys) as they were. */
  lemma SetFieldByKeyKeepsShape(d: Catalogue, category: string, row: Locator, header: string, v: Value)
    requires SetFieldByKey(d, category, row, header, v).Success?
    requires header in d.values[category].table.columns
    ensures var t := d.values[category].table;
            var t' := SetFieldByKey(d, category, row, header, v).value.values[category].table;
            t'.columns == t.columns && IndexValues(t') == IndexValues(t)
  {
    SetByKeyKeepsHeaders(d.values[category].table, RowKey(row), header, v);
  }

  // ----- listing fields -----

  /** A list of fields: column headers, or the cells of the first column. */
  datatype Fields = Headers(headers: seq<string>) | Labels(labels: seq<Option<Value>>)

  /** `metadata.set_index(list(metadata)[0])`, then `list(metadata.columns)`
      (`headers`) or `list(metadata.index)` (otherwise). */
  function IndexedFields(d: Catalogue, category: string, headers: bool): (r: Result<Fields>)
    ensures CategoryTable(d, category).Failure? ==> r == Failure(CategoryTable(d, category).error)
    ensures CategoryTable(d, category).Success? && |d.values[category].table.columns| == 0 ==> r == Failure(NoColumns)
    ensures r.Success? ==> CategoryTable(d, category).Success? && |d.values[category].table.columns| > 0
    ensures r.Success? ==> (r.value.Headers? <==> headers)
    ensures r.Success? && r.value.Headers? ==>
              var t := d.values[category].table;
              [t.columns[0]] + r.value.headers == t.columns
    ensures r.Success? && r.value.Labels? ==>
              var t := d.values[category].table;
              && |r.value.labels| == |t.rows|
              && forall i :: 0 <= i < |t.rows| ==> r.value.labels[i] == Cell(t.rows[i], t.columns[0])
  {
    match CategoryTable(d, category)
    case Failure(err) => Failure(err)
    case Success(t) =>
      if |t.columns| == 0 then Failure(NoColumns)
      else if headers then Success(Headers(DataHeaders(t)))
      else Success(Labels(IndexValues(t)))
  }

  // ----- listing categories -----

  /** The stems of the spreadsheet entries' file names, in the order of `keys`. */
  function StemsOf(keys: seq<string>, values: map<string, Entry>): seq<string> {
    if keys == [] then []
    else
      var k := keys[|keys| - 1];
      StemsOf(keys[..|keys| - 1], values) +
        (if k in values && values[k].Category? then [Stem(Name(values[k].path))] else [])
  }

  /** The test that picks the spreadsheet entries of a dict. */
  function IsCategory(values: map<string, Entry>): string -> bool {
    (k: string) => k in values && values[k].Category?
  }

  /** The categories `list_categories` reports: the stem of every
      spreadsheet entry's path, walking the dict in its order. */
  function CategoryStems(d: Catalogue): (cs: seq<string>)
    ensures |cs| <= |d.keys|
  {
    StemsBound(d.keys, d.values);
    StemsOf(d.keys, d.values)
  }

  /** At most one category per key. */
  lemma {:induction false} StemsBound(keys: seq<string>, values: map<string, Entry>)
    ensures |StemsOf(keys, values)| <= |keys|
  {
    if keys != [] {
      StemsBound(keys[..|keys| - 1], values);
    }
  }

  /** The loop of `list_categories`. */
  method ListCategoryStems(d: Catalogue) returns (categories: seq<string>)
    ensures categories == CategoryStems(d)
  {
    categories := [];
    var i := 0;
    while i < |d.keys|
      invariant 0 <= i <= |d.keys|
      invariant categories == StemsOf(d.keys[..i], d.values)
    {
      var k := d.keys[i];
      assert d.keys[..i + 1][..i] == d.keys[..i];
      if k in d.values && d.values[k].Category? {
        categories := categories + [Stem(Name(d.values[k].path))];
      }
      i := i + 1;
    }
    assert d.keys[..i] == d.keys;
  }

  /** In a dict whose entries are keyed by their file names (as every loaded
      one is), the stems listed are the keys of the spreadsheet entries, in
      dict order, with the resources skipped. */
  lemma {:induction false} StemsAreCategoryKeys(keys: seq<string>, values: map<string, Entry>)
    requires KeyedByName(Dict(keys, values))
    ensures StemsOf(keys, values) == Select(keys, IsCategory(values))
  {
    if keys != [] {
      StemsAreCategoryKeys(keys[..|keys| - 1], values);
      var k := keys[|keys| - 1];
      if k in values && values[k].Category? {
        var name := Name(values[k].path);
        assert KeyOf(name) == k && Suffix(name) == SpreadsheetSuffix;
      }
    }
  }

  /** For a loaded dict: the categories are exactly the spreadsheet keys,
      each once, in dict order. */
  lemma CategoryStemsSpec(d: Catalogue)
    requires Valid(d) && KeyedByName(d)
    ensures CategoryStems(d) == Select(d.keys, IsCategory(d.values))
    ensures forall c :: c in CategoryStems(d) <==> c in d.values && d.values[c].Category?
  {
    StemsAreCategoryKeys(d.keys, d.values);
    SelectMembers(d.keys, IsCategory(d.values));
  }
}
