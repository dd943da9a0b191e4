/** The file system as the loaders see it, the entries of a loaded dataset,
    and the load pipeline (`_load` in metadata_manager, `load` in
    physiome_metadata: the same loop in both). */
module Store {
  import opened Wrappers
  import opened Paths
  import opened Frames
  import opened Dicts

  /** How one spreadsheet reader fares on a file: a table, the xlrd
      format error that triggers the fallback, or any other failure. */
  datatype ReadOutcome = Parsed(table: Table) | FormatMismatch | ReadError

  /** A file with what the default reader and the openpyxl reader make of
      it, or a directory with its entry names in `iterdir()` order. */
  datatype Node = File(primary: ReadOutcome, fallback: ReadOutcome) | Folder(names: seq<string>)

  type FileSystem = map<Path, Node>

  /** A dataset entry: a spreadsheet with its path and table (the
      `{"path": ..., "metadata": ...}` dict), or any other file or directory,
      kept as its path. */
  datatype Entry = Category(path: Path, table: Table) | Resource(path: Path)

  type Catalogue = Dict<Entry>

  /** `pd.read_excel(path)`, retried with `engine='openpyxl'` only when the
      first reader raises its format error. */
  function ReadSpreadsheet(fs: FileSystem, path: Path): (r: Result<Table>)
    ensures r.Success? ==> path in fs && fs[path].File?
    ensures r.Success? ==>
              || fs[path].primary == Parsed(r.value)
              || (fs[path].primary == FormatMismatch && fs[path].fallback == Parsed(r.value))
    ensures path in fs && fs[path].File? && fs[path].primary == FormatMismatch && fs[path].fallback.Parsed? ==>
              r == Success(fs[path].fallback.table)
    ensures path !in fs ==> r == Failure(FileNotFound(path))
    ensures path in fs && fs[path].File? && fs[path].primary.Parsed? ==> r == Success(fs[path].primary.table)
    ensures path in fs && (fs[path].Folder? || (fs[path].File? && fs[path].primary == ReadError)) ==> r.Failure?
  {
    if path !in fs then Failure(FileNotFound(path))
    else match fs[path]
      case Folder(_) => Failure(UnreadableSpreadsheet(path))
      case File(primary, fallback) =>
        match primary
        case Parsed(t) => Success(t)
        case ReadError => Failure(UnreadableSpreadsheet(path))
        case FormatMismatch =>
          match fallback
          case Parsed(t) => Success(t)
          case _ => Failure(UnreadableSpreadsheet(path))
  }

  /** `Path(dir).iterdir()`: the entry names, or the error a missing directory raises. */
  function ListDir(fs: FileSystem, dir: Path): (r: Result<seq<string>>)
    ensures r.Success? <==> dir in fs && fs[dir].Folder?
  {
    if dir in fs && fs[dir].Folder? then Success(fs[dir].names) else Failure(DirectoryNotFound(dir))
  }

  /** The key of an entry: the stem for a spreadsheet, the full name otherwise. */
  function KeyOf(name: string): (k: string)
    ensures Suffix(name) == SpreadsheetSuffix ==> k + SpreadsheetSuffix == name
    ensures Suffix(name) != SpreadsheetSuffix ==> k == name
  {
    StemSuffix(name);
    if Suffix(name) == SpreadsheetSuffix then Stem(name) else name
  }

  /** The body of the loading loop for one directory entry. */
  function LoadEntry(fs: FileSystem, dir: Path, name: string): (r: Result<Entry>)
    ensures r.Success? ==> r.value.path == dir + [name]
    ensures r.Success? ==> (r.value.Category? <==> Suffix(name) == SpreadsheetSuffix)
    ensures Suffix(name) != SpreadsheetSuffix ==> r == Success(Resource(dir + [name]))
    ensures Suffix(name) == SpreadsheetSuffix ==> (r.Success? <==> ReadSpreadsheet(fs, dir + [name]).Success?)
    ensures r.Success? && r.value.Category? ==>
              r.value.table == CleanSheet(ReadSpreadsheet(fs, dir + [name]).value)
  {
    var path := dir + [name];
    if Suffix(name) == SpreadsheetSuffix then
      match ReadSpreadsheet(fs, path)
      case Failure(err) => Failure(err)
      case Success(t) => Success(Category(path, CleanSheet(t)))
    else Success(Resource(path))
  }

  /** The dict the loop builds from the given entries, each stored under its
      key; the first entry that cannot be read aborts the whole load. */
  function LoadFrom(fs: FileSystem, dir: Path, names: seq<string>): (r: Result<Catalogue>)
    ensures names == [] ==> r == Success(Empty())
    ensures r.Success? && names != [] ==>
              var last := names[|names| - 1];
              && LoadEntry(fs, dir, last).Success?
              && KeyOf(last) in r.value.values
              && r.value.values[KeyOf(last)] == LoadEntry(fs, dir, last).value
  {
    Build(names, KeyOf, (name: string) => LoadEntry(fs, dir, name))
  }

  /** Loading a directory: list it, then load its entries in order. */
  function LoadSpec(fs: FileSystem, dir: Path): (r: Result<Catalogue>)
    ensures !(dir in fs && fs[dir].Folder?) ==> r == Failure(DirectoryNotFound(dir))
    ensures dir in fs && fs[dir].Folder? ==> r == LoadFrom(fs, dir, fs[dir].names)
  {
    match ListDir(fs, dir)
    case Failure(err) => Failure(err)
    case Success(names) => LoadFrom(fs, dir, names)
  }

  /** `_load(dir_path)` / `load(dir_path)`: one pass over the directory,
      building a fresh dict entry by entry. */
  method LoadDirectory(fs: FileSystem, dir: Path) returns (r: Result<Catalogue>)
    ensures r == LoadSpec(fs, dir)
  {
    var listing := ListDir(fs, dir);
    if listing.Failure? {
      return Failure(listing.error);
    }
    var names := listing.value;
    var dataset := Empty();
    var i := 0;
    while i < |names|
      invariant 0 <= i <= |names|
      invariant LoadFrom(fs, dir, names[..i]) == Success(dataset)
    {
      assert names[..i + 1][..i] == names[..i];
      var name := names[i];
      var entry := LoadEntry(fs, dir, name);
      if entry.Failure? {
        BuildAborts(names, KeyOf, (name: string) => LoadEntry(fs, dir, name), i + 1);
        return Failure(entry.error);
      }
      dataset := Put(dataset, KeyOf(name), entry.value);
      i := i + 1;
    }
    assert names[..i] == names;
    return Success(dataset);
  }

  // ----- what a load produces -----

  /** A successful load is a well-formed dict. */
  lemma LoadedValid(fs: FileSystem, dir: Path, names: seq<string>)
    requires LoadFrom(fs, dir, names).Success?
    ensures Valid(LoadFrom(fs, dir, names).value)
  {
    BuildValid(names, KeyOf, (name: string) => LoadEntry(fs, dir, name));
  }

  /** The load succeeds exactly when every entry can be loaded. */
  lemma LoadSucceeds(fs: FileSystem, dir: Path, names: seq<string>)
    ensures LoadFrom(fs, dir, names).Success? <==>
            forall j :: 0 <= j < |names| ==> LoadEntry(fs, dir, names[j]).Success?
  {
    BuildSucceeds(names, KeyOf, (name: string) => LoadEntry(fs, dir, name));
  }

  /** The keys are exactly the keys of the directory's entries. */
  lemma LoadedKeys(fs: FileSystem, dir: Path, names: seq<string>)
    requires LoadFrom(fs, dir, names).Success?
    ensures forall k :: k in LoadFrom(fs, dir, names).value.values <==>
                        exists j :: 0 <= j < |names| && KeyOf(names[j]) == k
  {
    BuildKeys(names, KeyOf, (name: string) => LoadEntry(fs, dir, name));
  }

  /** When two entries share a key, the later one wins: each key holds the
      entry loaded from the last directory entry with that key. */
  lemma LoadedLastWins(fs: FileSystem, dir: Path, names: seq<string>, j: nat)
    requires LoadFrom(fs, dir, names).Success?
    requires j < |names|
    requires forall j' :: j < j' < |names| ==> KeyOf(names[j']) != KeyOf(names[j])
    ensures LoadEntry(fs, dir, names[j]).Success?
    ensures KeyOf(names[j]) in LoadFrom(fs, dir, names).value.values
    ensures LoadFrom(fs, dir, names).value.values[KeyOf(names[j])] == LoadEntry(fs, dir, names[j]).value
  {
    BuildLastWins(names, KeyOf, (name: string) => LoadEntry(fs, dir, name), j);
  }

  /** The keys of the entries, in directory order. */
  function KeysOf(names: seq<string>): (ks: seq<string>)
    ensures |ks| == |names|
    ensures forall j :: 0 <= j < |names| ==> ks[j] == KeyOf(names[j])
  {
    if names == [] then [] else KeysOf(names[..|names| - 1]) + [KeyOf(names[|names| - 1])]
  }

  /** Without key collisions, the dict lists its keys in directory order. */
  lemma LoadedOrder(fs: FileSystem, dir: Path, names: seq<string>)
    requires LoadFrom(fs, dir, names).Success?
    requires forall a, b :: 0 <= a < b < |names| ==> KeyOf(names[a]) != KeyOf(names[b])
    ensures LoadFrom(fs, dir, names).value.keys == KeysOf(names)
  {
    BuildOrder(names, KeyOf, (name: string) => LoadEntry(fs, dir, name));
  }

  /** Every entry's key is the key of its own file name, and the entry is a
      spreadsheet exactly when that name has the spreadsheet suffix. */
  ghost predicate KeyedByName(d: Catalogue) {
    forall k :: k in d.values ==>
      && KeyOf(Name(d.values[k].path)) == k
      && (d.values[k].Category? <==> Suffix(Name(d.values[k].path)) == SpreadsheetSuffix)
  }

  lemma {:induction false} LoadedKeyedByName(fs: FileSystem, dir: Path, names: seq<string>)
    requires LoadFrom(fs, dir, names).Success?
    ensures KeyedByName(LoadFrom(fs, dir, names).value)
  {
    if names != [] {
      var init, name := names[..|names| - 1], names[|names| - 1];
      LoadedKeyedByName(fs, dir, init);
      var prev, e := LoadFrom(fs, dir, init).value, LoadEntry(fs, dir, name).value;
      var d := LoadFrom(fs, dir, names).value;
      assert d.values == prev.values[KeyOf(name) := e];
      assert Name(e.path) == name;
      forall k | k in d.values
        ensures KeyOf(Name(d.values[k].path)) == k
        ensures d.values[k].Category? <==> Suffix(Name(d.values[k].path)) == SpreadsheetSuffix
      {
        if k != KeyOf(name) {
          assert d.values[k] == prev.values[k];
        }
      }
    }
  }

  /** A successful load of a directory is a well-formed dict whose entries
      are keyed by their file names. */
  lemma LoadSpecWellFormed(fs: FileSystem, dir: Path)
    requires LoadSpec(fs, dir).Success?
    ensures Valid(LoadSpec(fs, dir).value) && KeyedByName(LoadSpec(fs, dir).value)
  {
    var names := ListDir(fs, dir).value;
    LoadedValid(fs, dir, names);
    LoadedKeyedByName(fs, dir, names);
  }
}
