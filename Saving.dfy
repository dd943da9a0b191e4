/** The save pipeline (`save` in metadata_manager, `save_dataset` in
    physiome_metadata), and `_filter`'s place in it. Writing and copying
    are not carried out: saving yields the file-system actions it performs,
    in order, and the error that stopped it, if any. */
module Saving {
  import opened Wrappers
  import opened Strings
  import opened Paths
  import opened Frames
  import opened Dicts
  import opened Store

  /** One file-system action of the save loop. */
  datatype Action =
    | MakeDir(dir: Path, parents: bool)                      // `save_dir.mkdir(...)`
    | WriteSheet(file: Path, table: Table)                   // `data.to_excel(file, index=False)`
    | CopyTree(source: Path, target: Path, onlyNewer: bool)  // `copy_tree(source, target[, update=1])`
    | CopyFile(source: Path, target: Path)                   // `shutil.copyfile(source, target)`

  /** The actions a save performed, and the error that interrupted it. */
  datatype SaveOutcome = SaveOutcome(performed: seq<Action>, failure: Option<Error>)

  /** The table a category is written with: with `removeEmpty`, the table
      passed through `_filter` under the entry's file name. */
  function SavedTable(e: Entry, removeEmpty: bool): (r: Result<Table>)
    requires e.Category?
    ensures !removeEmpty ==> r == Success(e.table)
    ensures removeEmpty ==> r == Filter(e.table, Name(e.path))
  {
    if removeEmpty then Filter(e.table, Name(e.path)) else Success(e.table)
  }

  /** The body of the save loop for one entry: a category is written under
      its own file name, a directory is copied as a tree, a file is copied,
      and a path that is neither (it has gone) is skipped. */
  function EntryActions(fs: FileSystem, saveDir: Path, removeEmpty: bool, onlyNewer: bool, e: Entry): (r: Result<seq<Action>>)
    ensures e.Category? ==> (r.Success? <==> SavedTable(e, removeEmpty).Success?)
    ensures e.Category? && r.Success? ==> r.value == [WriteSheet(saveDir + [Name(e.path)], SavedTable(e, removeEmpty).value)]
    ensures e.Category? && r.Failure? ==> r.error == SavedTable(e, removeEmpty).error
    ensures e.Resource? ==> r.Success? && |r.value| <= 1
    ensures e.Resource? && r.value != [] ==> e.path in fs
    ensures e.Resource? && e.path in fs ==>
              r.value == [if fs[e.path].Folder? then CopyTree(e.path, saveDir + [Name(e.path)], onlyNewer)
                          else CopyFile(e.path, saveDir + [Name(e.path)])]
  {
    match e
    case Category(path, table) =>
      (match SavedTable(e, removeEmpty)
       case Failure(err) => Failure(err)
       case Success(t) => Success([WriteSheet(saveDir + [Name(path)], t)]))
    case Resource(path) =>
      if path in fs && fs[path].Folder? then Success([CopyTree(path, saveDir + [Name(path)], onlyNewer)])
      else if path in fs then Success([CopyFile(path, saveDir + [Name(path)])])
      else Success([])
  }

  /** The save loop over the given keys, in order; the first entry that
      fails stops it, after the actions of the entries before it. */
  function SaveFrom(fs: FileSystem, saveDir: Path, removeEmpty: bool, onlyNewer: bool, d: Catalogue, keys: seq<string>): SaveOutcome {
    if keys == [] then SaveOutcome([], None)
    else
      var prev := SaveFrom(fs, saveDir, removeEmpty, onlyNewer, d, keys[..|keys| - 1]);
      var k := keys[|keys| - 1];
      if prev.failure.Some? || k !in d.values then prev
      else
        match EntryActions(fs, saveDir, removeEmpty, onlyNewer, d.values[k])
        case Failure(err) => SaveOutcome(prev.performed, Some(err))
        case Success(acts) => SaveOutcome(prev.performed + acts, None)
  }

  /** The directory created before the loop, unless it already is one. */
  function PrepareDir(fs: FileSystem, saveDir: Path, parents: bool): (acts: seq<Action>)
    ensures acts == [] <==> saveDir in fs && fs[saveDir].Folder?
    ensures forall a :: a in acts ==> a == MakeDir(saveDir, parents)
  {
    if saveDir in fs && fs[saveDir].Folder? then [] else [MakeDir(saveDir, parents)]
  }

  /** The whole save: an empty dataset is refused before anything is done;
      otherwise the directory is prepared and every entry saved in dict
      order. `parents` is `mkdir`'s flag; `onlyNewer` is `copy_tree`'s
      `update`. */
  function SaveSpec(fs: FileSystem, d: Catalogue, saveDir: Path, removeEmpty: bool, parents: bool, onlyNewer: bool): (out: SaveOutcome)
    ensures IsEmpty(d) ==> out == SaveOutcome([], Some(DatasetNotDefined))
    ensures !IsEmpty(d) ==>
              var prepared := PrepareDir(fs, saveDir, parents);
              |prepared| <= |out.performed| && out.performed[..|prepared|] == prepared
    ensures forall a :: a in out.performed && a.MakeDir? ==> a == MakeDir(saveDir, parents)
  {
    if IsEmpty(d) then SaveOutcome([], Some(DatasetNotDefined))
    else
      SaveFromMakesNoDir(fs, saveDir, removeEmpty, onlyNewer, d, d.keys);
      var rest := SaveFrom(fs, saveDir, removeEmpty, onlyNewer, d, d.keys);
      SaveOutcome(PrepareDir(fs, saveDir, parents) + rest.performed, rest.failure)
  }

  /** The loop itself never creates a directory: only the step before it does. */
  lemma {:induction false} SaveFromMakesNoDir(fs: FileSystem, saveDir: Path, removeEmpty: bool, onlyNewer: bool, d: Catalogue, keys: seq<string>)
    ensures forall a :: a in SaveFrom(fs, saveDir, removeEmpty, onlyNewer, d, keys).performed ==> !a.MakeDir?
  {
    if keys != [] {
      SaveFromMakesNoDir(fs, saveDir, removeEmpty, onlyNewer, d, keys[..|keys| - 1]);
    }
  }

  /** The save loop itself, one entry at a time. */
  method SaveLoop(fs: FileSystem, saveDir: Path, removeEmpty: bool, onlyNewer: bool, d: Catalogue)
    returns (out: SaveOutcome)
    ensures out == SaveFrom(fs, saveDir, removeEmpty, onlyNewer, d, d.keys)
  {
    var performed := [];
    var i := 0;
    while i < |d.keys|
      invariant 0 <= i <= |d.keys|
      invariant SaveFrom(fs, saveDir, removeEmpty, onlyNewer, d, d.keys[..i]) == SaveOutcome(performed, None)
    {
      SaveFromNext(fs, saveDir, removeEmpty, onlyNewer, d, d.keys, i);
      var k := d.keys[i];
      if k in d.values {
        var acts := EntryActions(fs, saveDir, removeEmpty, onlyNewer, d.values[k]);
        if acts.Failure? {
          SaveStops(fs, saveDir, removeEmpty, onlyNewer, d, d.keys, i + 1);
          return SaveOutcome(performed, Some(acts.error));
        }
        performed := performed + acts.value;
      }
      i := i + 1;
    }
    assert d.keys[..i] == d.keys;
    return SaveOutcome(performed, None);
  }

  /** `save` / `save_dataset`: refuse an empty dataset, create the target
      directory when needed, then run the loop. */
  method SaveEntries(fs: FileSystem, d: Catalogue, saveDir: Path, removeEmpty: bool, parents: bool, onlyNewer: bool)
    returns (out: SaveOutcome)
    ensures out == SaveSpec(fs, d, saveDir, removeEmpty, parents, onlyNewer)
  {
    if IsEmpty(d) {
      return SaveOutcome([], Some(DatasetNotDefined));
    }
    var prepared := PrepareDir(fs, saveDir, parents);
    var rest := SaveLoop(fs, saveDir, removeEmpty, onlyNewer, d);
    return SaveOutcome(prepared + rest.performed, rest.failure);
  }

  /** One more key extends the loop by that key's actions. */
  lemma SaveFromNext(fs: FileSystem, saveDir: Path, removeEmpty: bool, onlyNewer: bool, d: Catalogue, keys: seq<string>, i: nat)
    requires i < |keys|
    requires SaveFrom(fs, saveDir, removeEmpty, onlyNewer, d, keys[..i]).failure == None
    ensures var prev := SaveFrom(fs, saveDir, removeEmpty, onlyNewer, d, keys[..i]);
            var next := SaveFrom(fs, saveDir, removeEmpty, onlyNewer, d, keys[..i + 1]);
            && (keys[i] !in d.values ==> next == prev)
            && (keys[i] in d.values && EntryActions(fs, saveDir, removeEmpty, onlyNewer, d.values[keys[i]]).Success? ==>
                  next == SaveOutcome(prev.performed + EntryActions(fs, saveDir, removeEmpty, onlyNewer, d.values[keys[i]]).value, None))
            && (keys[i] in d.values && EntryActions(fs, saveDir, removeEmpty, onlyNewer, d.values[keys[i]]).Failure? ==>
                  next == SaveOutcome(prev.performed, Some(EntryActions(fs, saveDir, removeEmpty, onlyNewer, d.values[keys[i]]).error)))
  {
    assert keys[..i + 1][..i] == keys[..i];
  }

  // ----- what a save does -----

  /** Once an entry fails, nothing after it is saved. */
  lemma {:induction false} SaveStops(fs: FileSystem, saveDir: Path, removeEmpty: bool, onlyNewer: bool, d: Catalogue, keys: seq<string>, n: nat)
    requires n <= |keys|
    requires SaveFrom(fs, saveDir, removeEmpty, onlyNewer, d, keys[..n]).failure.Some?
    ensures SaveFrom(fs, saveDir, removeEmpty, onlyNewer, d, keys) == SaveFrom(fs, saveDir, removeEmpty, onlyNewer, d, keys[..n])
    decreases |keys| - n
  {
    if n == |keys| {
      assert keys[..n] == keys;
    } else {
      var init := keys[..|keys| - 1];
      assert init[..n] == keys[..n];
      SaveStops(fs, saveDir, removeEmpty, onlyNewer, d, init, n);
    }
  }

  /** The only failures of the loop are those of `_filter`, so the loop
      cannot fail without `removeEmpty`. */
  lemma {:induction false} SaveFromFailure(fs: FileSystem, saveDir: Path, removeEmpty: bool, onlyNewer: bool, d: Catalogue, keys: seq<string>)
    ensures var out := SaveFrom(fs, saveDir, removeEmpty, onlyNewer, d, keys);
            out.failure.Some? <==>
              exists j :: 0 <= j < |keys| && keys[j] in d.values && d.values[keys[j]].Category? &&
                          SavedTable(d.values[keys[j]], removeEmpty).Failure?
    ensures !removeEmpty ==> SaveFrom(fs, saveDir, removeEmpty, onlyNewer, d, keys).failure == None
  {
    if keys != [] {
      var init := keys[..|keys| - 1];
      SaveFromFailure(fs, saveDir, removeEmpty, onlyNewer, d, init);
      assert forall j :: 0 <= j < |init| ==> init[j] == keys[j];
    }
  }

  /** An empty dataset is refused, and it is the only thing refused with
      that error; without `removeEmpty` nothing else can stop a save. */
  lemma SaveRefusesEmpty(fs: FileSystem, d: Catalogue, saveDir: Path, removeEmpty: bool, parents: bool, onlyNewer: bool)
    ensures var out := SaveSpec(fs, d, saveDir, removeEmpty, parents, onlyNewer);
            && (out.failure == Some(DatasetNotDefined) <==> IsEmpty(d))
            && (IsEmpty(d) ==> out.performed == [])
            && (!removeEmpty ==> (out.failure.Some? <==> IsEmpty(d)))
  {
    SaveFromNeverUndefined(fs, saveDir, removeEmpty, onlyNewer, d, d.keys);
    SaveFromFailure(fs, saveDir, removeEmpty, onlyNewer, d, d.keys);
  }

  /** `_filter` fails only with a missing column, so the loop never reports
      an undefined dataset. */
  lemma {:induction false} SaveFromNeverUndefined(fs: FileSystem, saveDir: Path, removeEmpty: bool, onlyNewer: bool, d: Catalogue, keys: seq<string>)
    ensures SaveFrom(fs, saveDir, removeEmpty, onlyNewer, d, keys).failure != Some(DatasetNotDefined)
  {
    if keys != [] {
      SaveFromNeverUndefined(fs, saveDir, removeEmpty, onlyNewer, d, keys[..|keys| - 1]);
    }
  }

  /** Every sheet the loop writes is a category of the dataset, written
      under its own file name (extension included) with its saved table. */
  lemma {:induction false} SaveFromWrites(fs: FileSystem, saveDir: Path, removeEmpty: bool, onlyNewer: bool, d: Catalogue, keys: seq<string>)
    ensures forall a :: a in SaveFrom(fs, saveDir, removeEmpty, onlyNewer, d, keys).performed && a.WriteSheet? ==>
              exists k :: k in keys && k in d.values && d.values[k].Category? &&
                          SavedTable(d.values[k], removeEmpty).Success? &&
                          a == WriteSheet(saveDir + [Name(d.values[k].path)], SavedTable(d.values[k], removeEmpty).value)
  {
    if keys != [] {
      var init := keys[..|keys| - 1];
      SaveFromWrites(fs, saveDir, removeEmpty, onlyNewer, d, init);
      assert forall k :: k in init ==> k in keys;
    }
  }

  /** A loop that does not fail writes every category of the keys it walks. */
  lemma {:induction false} SaveFromWritesAll(fs: FileSystem, saveDir: Path, removeEmpty: bool, onlyNewer: bool, d: Catalogue, keys: seq<string>)
    requires SaveFrom(fs, saveDir, removeEmpty, onlyNewer, d, keys).failure == None
    ensures forall k :: k in keys && k in d.values && d.values[k].Category? ==>
              && SavedTable(d.values[k], removeEmpty).Success?
              && WriteSheet(saveDir + [Name(d.values[k].path)], SavedTable(d.values[k], removeEmpty).value)
                   in SaveFrom(fs, saveDir, removeEmpty, onlyNewer, d, keys).performed
  {
    if keys != [] {
      var init := keys[..|keys| - 1];
      SaveFromWritesAll(fs, saveDir, removeEmpty, onlyNewer, d, init);
      forall k | k in keys
        ensures k in init || k == keys[|keys| - 1]
      {
        var j :| 0 <= j < |keys| && keys[j] == k;
        if j < |init| {
          assert init[j] == k;
        }
      }
    }
  }

  /** Without `removeEmpty`, a save of a loaded dataset succeeds and writes
      every category unchanged under its original file name, and writes
      nothing else as a sheet. */
  lemma SaveWritesEveryCategory(fs: FileSystem, d: Catalogue, saveDir: Path, parents: bool, onlyNewer: bool)
    requires Valid(d) && !IsEmpty(d)
    ensures var out := SaveSpec(fs, d, saveDir, false, parents, onlyNewer);
            && out.failure == None
            && (forall k :: k in d.values && d.values[k].Category? ==>
                  WriteSheet(saveDir + [Name(d.values[k].path)], d.values[k].table) in out.performed)
            && (forall a :: a in out.performed && a.WriteSheet? ==>
                  exists k :: k in d.values && d.values[k].Category? &&
                              a == WriteSheet(saveDir + [Name(d.values[k].path)], d.values[k].table))
  {
    SaveFromFailure(fs, saveDir, false, onlyNewer, d, d.keys);
    SaveFromWritesAll(fs, saveDir, false, onlyNewer, d, d.keys);
    SaveFromWrites(fs, saveDir, false, onlyNewer, d, d.keys);
  }

  /** With `removeEmpty`, only a table whose file name contains
      `dataset_description` is written filtered; every other table is
      written exactly as loaded. */
  lemma SaveFiltersOnlyDescriptions(fs: FileSystem, d: Catalogue, saveDir: Path, parents: bool, onlyNewer: bool)
    requires !IsEmpty(d)
    ensures var out := SaveSpec(fs, d, saveDir, true, parents, onlyNewer);
            forall a :: a in out.performed && a.WriteSheet? ==>
              exists k :: k in d.values && d.values[k].Category? &&
                          a.file == saveDir + [Name(d.values[k].path)] &&
                          Filter(d.values[k].table, Name(d.values[k].path)) == Success(a.table) &&
                          (!Contains(Name(d.values[k].path), DescriptionCategory) ==> a.table == d.values[k].table)
  {
    SaveFromWrites(fs, saveDir, true, onlyNewer, d, d.keys);
  }

  /** `copy_tree(template_dir, save_dir)` for `save_template`: the template
      tree is copied as a whole, and a source that is no directory raises. */
  function CopyTemplate(fs: FileSystem, source: Path, saveDir: Path): (r: Result<Action>)
    ensures r.Success? <==> source in fs && fs[source].Folder?
    ensures r.Success? ==> r.value == CopyTree(source, saveDir, false)
    ensures r.Failure? ==> r.error == CannotCopyTree(source)
  {
    if source in fs && fs[source].Folder? then Success(CopyTree(source, saveDir, false))
    else Failure(CannotCopyTree(source))
  }
}
