# Dataset: a model of the SPARC / Physiome metadata `Dataset` class

The repository holds two versions of one Python class, `Dataset`:

- `metadata_manager/core/dataset.py` for SPARC datasets;
- `physiome_metadata/core/dataset.py` for Physiome datasets.

Each version loads a dataset directory, or the dataset template shipped for a
template version, into a dict. In that dict:

- every `.xlsx` spreadsheet becomes a *category*: its path and its pandas
  table, cleaned on load;
- every other file or directory is kept as its path.

The class then lists categories and fields, writes single cells, appends
rows, and saves the dataset or the template back to a directory.

This project models that class in Dafny and proves what it does.

**Values.** Tables (`Frames`), dicts with insertion order (`Dicts`),
paths and their `name`/`suffix`/`stem` (`Paths`), and version strings
(`Versions`) are modelled as values.

**File system.** The file system is a value too (`Store.FileSystem`). It
maps each path to a folder with its entries in `iterdir()` order, or to a
file together with the outcome of each of the two spreadsheet readers.

**Saving.** Saving does not change the file system. It returns the list of
actions it performs (make a directory, write a sheet, copy a tree, copy a
file) and the error that stopped it (`Saving`).

**The classes.** Both `Dataset` classes are Dafny classes whose fields the
methods update in place (`MetadataManager.Dataset`,
`PhysiomeMetadata.Dataset`). Their operations are proved against the
functions of `Store`, `Editing` and `Saving`. Each class keeps the invariant
`Valid()`: both dicts are well formed, and every template entry sits under
the key of its own file name.

**Errors.** Each Python exception the code raises becomes a
`Wrappers.Error` value. Each operation's result reports that error instead
of raising it.

## Model

| member | source | states |
|---|---|---|
| Wrappers.Truthy | metadata_manager/core/dataset.py:164-169 | Python truthiness of an optional version argument (`if version:`): `None` and `""` are false; the class contracts use it for every `if version` test |
| Strings.StartsWith | metadata_manager/core/dataset.py:82 | the regular expression `'^Unnamed'` matches a header exactly when the header begins with `Unnamed` (definition used by `Frames.DropUnnamedColumns`) |
| Strings.Contains | metadata_manager/core/dataset.py:274 | Python's `sub in s`, characterised by `Strings.ContainsAt` |
| Strings.ContainsAt | metadata_manager/core/dataset.py:274 | Python's `sub in s` holds exactly when `sub` occurs at some position of `s` |
| Strings.Replace | metadata_manager/core/dataset.py:59 | `str.replace` of one character keeps the length, leaves no `from` character behind, and changes nothing when `from` is absent |
| Strings.NatToString | physiome_metadata/core/dataset.py:287-288 | `str(n)` of a natural number is a non-empty string of decimal digits |
| Strings.IntToString | physiome_metadata/core/dataset.py:287-288 | `str(n)` is non-empty, and is all digits exactly when `n` is not negative |
| Strings.ParseNatToString | physiome_metadata/core/dataset.py:287-288 | reading back the digits of `str(n)` gives `n` (round trip) |
| Strings.NatToStringInjective | physiome_metadata/core/dataset.py:287-288 | two natural numbers with the same `str()` are equal |
| Strings.IntToStringInjective | physiome_metadata/core/dataset.py:287-288 | two integers with the same `str()` are equal |
| Paths.Name | metadata_manager/core/dataset.py:84-90 | pathlib's `name` is the last component: the path is its parent followed by it |
| Paths.Suffix | metadata_manager/core/dataset.py:75 | pathlib's `suffix` is empty or a dot followed by a non-empty, dot-free extension, and it ends the name |
| Paths.Stem | metadata_manager/core/dataset.py:84 | pathlib's `stem` followed by the `suffix` is the name |
| Paths.LastDot | metadata_manager/core/dataset.py:75 | the position pathlib's suffix search finds holds a dot (or is -1) |
| Paths.LastDotIsLast | metadata_manager/core/dataset.py:75 | no dot follows the one found, so the suffix is the last extension only |
| Paths.SuffixStart | metadata_manager/core/dataset.py:75 | the suffix starts inside the name |
| Paths.StemSuffix | metadata_manager/core/dataset.py:84 | `stem + suffix == name` |
| Paths.SpreadsheetName | metadata_manager/core/dataset.py:84 | a name whose suffix is `.xlsx` is its stem followed by `.xlsx` |
| Paths.AddSuffix | metadata_manager/core/dataset.py:84 | round trip: a non-empty stem plus a one-dot extension has exactly that suffix and that stem |
| Versions.Convert | metadata_manager/core/dataset.py:112-125 | the converted version has no dot and has an underscore; a bare major number gets `_0_0`; a dotted or underscored version keeps its length |
| Versions.ConvertIdempotent | metadata_manager/core/dataset.py:112-125 | converting twice is converting once |
| Versions.ConvertSeparators | metadata_manager/core/dataset.py:112-125 | dots and underscores are interchangeable in the input |
| Versions.ConvertSpellings | physiome_metadata/core/dataset.py:49-52 | `2`, `2.0.0` and `2_0_0` all convert to `2_0_0` |
| Versions.TemplateDir | metadata_manager/core/dataset.py:40-50 | the template directory is the resources path extended by three components, ending in `DatasetTemplate` |
| Versions.TemplateDirInjective | metadata_manager/core/dataset.py:40-50 | the version is used verbatim: different versions name different directories |
| Frames.Select | metadata_manager/core/dataset.py:81-82 | keeping the elements that pass a test never lengthens a sequence |
| Frames.SelectMembers | metadata_manager/core/dataset.py:81-82 | the kept elements are exactly those of the input that pass the test |
| Frames.Kept | metadata_manager/core/dataset.py:81 | the kept positions are increasing and are exactly the positions that pass |
| Frames.SelectKept | metadata_manager/core/dataset.py:81 | the k-th kept element is the element at the k-th kept position (order preserved) |
| Frames.SelectIdempotent | metadata_manager/core/dataset.py:276 | selecting twice with one test is selecting once |
| Frames.SelectAppend | metadata_manager/core/dataset.py:81 | selection distributes over concatenation |
| Frames.DropEmptyRows | metadata_manager/core/dataset.py:81 | `dropna(how="all")` keeps the columns and keeps exactly the rows with some non-empty cell |
| Frames.DropUnnamedColumns | metadata_manager/core/dataset.py:82 | the `^Unnamed` mask keeps exactly the named columns and every row with its label, each row losing only its unnamed cells |
| Frames.CleanSheet | metadata_manager/core/dataset.py:81-82 | the cleaned table has exactly the named columns, no more rows than before, and no cell outside its columns |
| Frames.CleanSheetSpec | metadata_manager/core/dataset.py:81-82 | after `dropna(how="all")` and the `^Unnamed` mask: the columns are exactly the named ones, in order; a row is dropped exactly when all its original cells are empty; surviving rows keep order and labels and lose only unnamed cells |
| Frames.CleanSheetKeepsRowEmptyAfterColumnDrop | metadata_manager/core/dataset.py:81-82 | because rows are dropped first, a row with content only in an unnamed column survives as an empty row |
| Frames.Filter | metadata_manager/core/dataset.py:263-278 | a file name without `dataset_description` is returned unchanged; otherwise a missing `Value` column is a KeyError, and the rows kept are exactly those with a `Value` cell, with the columns unchanged |
| Frames.FilterKeepsOrder | physiome_metadata/core/dataset.py:198-212 | the filter keeps the rows with a `Value` in their order, with their labels |
| Frames.FilterIdempotent | physiome_metadata/core/dataset.py:198-212 | filtering a filtered table changes nothing |
| Frames.RecordCells | metadata_manager/core/dataset.py:416 | every cell of the appended row comes from a key of the dict with that value |
| Frames.ExtendHeaders | metadata_manager/core/dataset.py:416 | old headers stay first in order; the headers are exactly the old ones and the record's keys; distinct headers stay distinct |
| Frames.Relabel | metadata_manager/core/dataset.py:416 | `ignore_index=True` labels the rows 0, 1, 2, … without changing their cells |
| Frames.Append | metadata_manager/core/dataset.py:416 | one more row; earlier rows keep their cells; all labels are positions; the new row's cells come from the record; old headers are a prefix and the headers are the old ones plus the record's keys |
| Frames.AppendStoresRecord | physiome_metadata/core/dataset.py:319 | a key given once with a value lands in the new row under that header |
| Frames.RecordCellsLast | physiome_metadata/core/dataset.py:319 | a key given once with a value is in the new row's cells with that value |
| Frames.AddHeader | metadata_manager/core/dataset.py:391 | assigning to a header makes it a column; old headers stay a prefix |
| Frames.WriteWhere | metadata_manager/core/dataset.py:391 | targeted rows get the value under the header and nothing else changes; other rows are untouched; labels are kept |
| Frames.SetCell | metadata_manager/core/dataset.py:388-394 | the write fails with "row does not exist" exactly when no row has the label; otherwise the labelled rows hold the value, other rows and cells are unchanged, and the header is added if new |
| Frames.SetCellAsWritten | metadata_manager/core/dataset.py:391 | pandas' `.loc` agrees with `SetCell` on an existing label and appends a new row on a missing one |
| Frames.SetCellMissingRowEnlarges | metadata_manager/core/dataset.py:388-394 | on a concrete two-row table, a write to row 10 is an error in the corrected model but adds a third row as written |
| Frames.SetCellChangesOneCell | metadata_manager/core/dataset.py:391 | with unique labels, a write changes exactly one cell |
| Frames.IndexValues | physiome_metadata/core/dataset.py:255-257 | the index after `set_index(first)` is the first column's cells, one per row |
| Frames.DataHeaders | physiome_metadata/core/dataset.py:255-259 | the first header followed by the listed columns is the whole header row |
| Frames.SetByKey | physiome_metadata/core/dataset.py:289-298 | a table without columns fails; the write fails as a missing row exactly when the header is the index column or no row has the key; otherwise the keyed rows hold the value, other rows keep their cells, rows are relabelled 0, 1, … |
| Frames.SetByKeyAsWritten | physiome_metadata/core/dataset.py:294 | pandas' `.at` agrees with `SetByKey` on an existing key whose column can hold the value, and appends a keyed row on a missing one |
| Frames.SetByKeyMissingRowEnlarges | physiome_metadata/core/dataset.py:293-298 | on a concrete description table, writing an absent element is an error in the corrected model and adds a row as written |
| Frames.SetByKeyKeepsHeaders | physiome_metadata/core/dataset.py:295 | writing into an existing column keeps the headers and the first column: `reset_index` puts the index back first |
| Dicts.Empty | metadata_manager/core/dataset.py:71 | `dict()` is well formed and empty |
| Dicts.Put | metadata_manager/core/dataset.py:93 | `d[k] = v` maps `k` to `v`; a new key goes last; an existing key keeps its place |
| Dicts.PutValid | metadata_manager/core/dataset.py:93 | assignment keeps a dict well formed |
| Dicts.BuildValid | metadata_manager/core/dataset.py:71-95 | the loop builds a well-formed dict |
| Dicts.BuildAborts | metadata_manager/core/dataset.py:74-93 | once an item fails, the rest of the loop does not run |
| Dicts.BuildSucceeds | metadata_manager/core/dataset.py:74-93 | the loop completes exactly when every item succeeds |
| Dicts.BuildKeys | metadata_manager/core/dataset.py:74-93 | the keys are exactly the items' keys |
| Dicts.BuildLastWins | metadata_manager/core/dataset.py:93 | a key shared by several items holds the last item's value |
| Dicts.BuildOrder | metadata_manager/core/dataset.py:74-93 | without collisions, the keys are listed in item order |
| Store.ReadSpreadsheet | metadata_manager/core/dataset.py:250-253 | a table the default reader parses is the result; openpyxl is tried only after the reader's format error; a missing file, a directory and any other reader error fail |
| Store.ListDir | metadata_manager/core/dataset.py:74 | `iterdir` succeeds exactly on a directory |
| Store.KeyOf | metadata_manager/core/dataset.py:84-90 | a spreadsheet's key followed by `.xlsx` is its name; any other entry's key is its full name |
| Store.LoadEntry | metadata_manager/core/dataset.py:75-91 | a `.xlsx` entry loads exactly when it can be read, as a category holding the cleaned table; anything else is kept as its path |
| Store.LoadFrom | metadata_manager/core/dataset.py:71-93 | the loop over no entries gives an empty dict; after a complete loop the last entry's key holds the last entry (the full properties are the `Store.Loaded*` lemmas) |
| Store.LoadSpec | metadata_manager/core/dataset.py:62-95 | a path that is not a directory fails as `iterdir` does; a directory loads its entries in `iterdir()` order |
| Store.LoadDirectory | metadata_manager/core/dataset.py:62-95 | the loop's result is the load of the whole directory |
| Store.LoadedValid | metadata_manager/core/dataset.py:62-95 | a loaded dataset is a well-formed dict |
| Store.LoadSucceeds | metadata_manager/core/dataset.py:74-93 | a load succeeds exactly when every entry loads |
| Store.LoadedKeys | physiome_metadata/core/dataset.py:70-89 | the keys are exactly the stems of the spreadsheets and the names of the other entries |
| Store.LoadedLastWins | physiome_metadata/core/dataset.py:89 | of two entries with one key (`a.xlsx` and a file `a`), the later in directory order wins |
| Store.KeysOf | metadata_manager/core/dataset.py:84-90 | one key per entry, in order |
| Store.LoadedOrder | metadata_manager/core/dataset.py:74-93 | without collisions, the dict walks the entries in directory order |
| Store.LoadedKeyedByName | metadata_manager/core/dataset.py:84-93 | every loaded entry sits under the key of its own file name |
| Store.LoadSpecWellFormed | physiome_metadata/core/dataset.py:59-91 | a successful directory load is well formed and keyed by name |
| Editing.CategoryTable | metadata_manager/core/dataset.py:382 | the lookup succeeds exactly on a spreadsheet entry; a missing key and a non-spreadsheet entry are distinct errors |
| Editing.WithTable | metadata_manager/core/dataset.py:396 | replacing a table keeps the dict's keys and order and the entry's path |
| Editing.WithTableKeeps | metadata_manager/core/dataset.py:396 | replacing a table keeps the dict well formed and keyed by name |
| Editing.AppendRow | metadata_manager/core/dataset.py:400-420 | an empty dataset is refused; the append succeeds exactly when the category is a spreadsheet; other entries and the path are unchanged; the table becomes the table with the record appended (`Frames.Append`): one more row, earlier rows and leading headers kept |
| Editing.AppendRowValid | physiome_metadata/core/dataset.py:304-323 | an append keeps the dataset well formed |
| Editing.AppendRowStoresRecord | physiome_metadata/core/dataset.py:319-321 | a key given once with a value lands in the category's appended row under that header |
| Editing.RowKey | physiome_metadata/core/dataset.py:287-288 | a text locator is its own key; an `int` locator's key is non-empty and all digits exactly when the number is not negative |
| Editing.SetFieldAt | metadata_manager/core/dataset.py:363-398 | errors in the source's order: empty dataset, category lookup, non-`int` row, missing row label `n - 2`; on success the category's table is the cell write at label `n - 2` |
| Editing.SetFieldAtChangesOneCell | metadata_manager/core/dataset.py:388-396 | with unique labels, spreadsheet row `n` gets the value under the header and every other cell and category is unchanged |
| Editing.SetFieldAtValid | metadata_manager/core/dataset.py:396 | a write keeps the dataset well formed |
| Editing.SetFieldByKey | physiome_metadata/core/dataset.py:267-302 | errors in the source's order: empty dataset, category lookup, then the keyed write; on success the table is the keyed write with the row's key |
| Editing.SetFieldByKeyValid | physiome_metadata/core/dataset.py:300 | a write keeps the dataset well formed |
| Editing.SetFieldByIntMissesNumbers | physiome_metadata/core/dataset.py:287-294 | an `int` row is looked up as the text `str(n)`, so when every first-column cell is a number or empty (for instance 1, 2, 3 looked up with 2) no row matches and the corrected `SetFieldByKey` reports a missing row; the code as written instead appends a row keyed `str(n)` (second Findings row) |
| Editing.RowKeyIntInjective | physiome_metadata/core/dataset.py:287-288 | distinct `int` rows address distinct keys |
| Editing.SetFieldByKeyKeepsShape | physiome_metadata/core/dataset.py:291-295 | a write into an existing column keeps the headers and the row keys |
| Editing.IndexedFields | physiome_metadata/core/dataset.py:252-259 | lookup errors come first, a table without columns fails, and the result is the headers after the first or the first column's cells |
| Editing.CategoryStems | metadata_manager/core/dataset.py:293-297 | at most one category per key of the dict (its contents are stated by `Editing.CategoryStemsSpec`) |
| Editing.StemsBound | metadata_manager/core/dataset.py:293-297 | the stems listed never outnumber the keys walked |
| Editing.ListCategoryStems | physiome_metadata/core/dataset.py:225-229 | the loop lists the stems of the spreadsheet entries in dict order |
| Editing.StemsAreCategoryKeys | metadata_manager/core/dataset.py:293-297 | in a dict keyed by name, the stems listed are the spreadsheet keys in dict order |
| Editing.CategoryStemsSpec | metadata_manager/core/dataset.py:293-297 | a category is listed exactly when it is a spreadsheet entry of the template, in dict order |
| Saving.SavedTable | metadata_manager/core/dataset.py:217-218 | the table is filtered under its file name exactly when `remove_empty` is set |
| Saving.EntryActions | metadata_manager/core/dataset.py:212-238 | a category writes one sheet under its own file name, or fails with the filter; a directory is copied as a tree, a file is copied, a vanished path is skipped |
| Saving.SaveFrom | metadata_manager/core/dataset.py:211-238 | the loop over the given keys, in order, stopping at the first failure; stated by `Saving.SaveFromNext`, `Saving.SaveStops` and the `Saving.SaveFrom*` lemmas |
| Saving.SaveFromMakesNoDir | metadata_manager/core/dataset.py:211-238 | the loop never creates a directory |
| Saving.PrepareDir | metadata_manager/core/dataset.py:207-209 | a directory is made exactly when the target is not already a directory, and it is the target itself |
| Saving.SaveSpec | metadata_manager/core/dataset.py:194-238 | an empty dataset is refused with no action; otherwise the directory preparation comes first, and the only directory ever made is the target |
| Saving.SaveLoop | metadata_manager/core/dataset.py:211-238 | the loop's result is the save of every key in dict order, stopping at the first failure |
| Saving.SaveEntries | metadata_manager/core/dataset.py:194-238 | the method's result is the whole save: refuse an empty dataset, prepare the directory, then the loop |
| Saving.SaveFromNext | physiome_metadata/core/dataset.py:147-174 | one more key adds its entry's actions, or stops with its error |
| Saving.SaveStops | physiome_metadata/core/dataset.py:147-174 | after a failure nothing more is saved |
| Saving.SaveFromFailure | metadata_manager/core/dataset.py:211-221 | the loop fails exactly when some category's filter fails, so it never fails without `remove_empty` |
| Saving.SaveRefusesEmpty | metadata_manager/core/dataset.py:203-205 | the empty-dataset error is raised exactly for an empty dataset, before any action; without `remove_empty` nothing else stops a save |
| Saving.SaveFromNeverUndefined | physiome_metadata/core/dataset.py:147-157 | the loop never raises the empty-dataset error |
| Saving.SaveFromWrites | metadata_manager/core/dataset.py:212-221 | every sheet written is a category of the dataset, under its own file name with its saved table |
| Saving.SaveFromWritesAll | metadata_manager/core/dataset.py:212-221 | a loop that does not fail writes every category |
| Saving.SaveWritesEveryCategory | physiome_metadata/core/dataset.py:131-174 | without `remove_empty`, a non-empty well-formed dataset is saved without failure, each category written unchanged, and nothing else written as a sheet |
| Saving.SaveFiltersOnlyDescriptions | metadata_manager/core/dataset.py:263-278 | with `remove_empty`, every sheet written is its category's filtered table, and only `dataset_description` tables change |
| Saving.CopyTemplate | physiome_metadata/core/dataset.py:117 | `copy_tree` succeeds exactly from a directory and copies it to the target |
| MetadataManager.Dataset.constructor | metadata_manager/core/dataset.py:11-21 | default version `2.0.0` for both versions, nothing loaded, invariant established |
| MetadataManager.Dataset.SetDatasetPath | metadata_manager/core/dataset.py:23-30 | the path is stored and nothing else changes |
| MetadataManager.Dataset.SetVersion | metadata_manager/core/dataset.py:127-136 | the dataset version is stored converted |
| MetadataManager.Dataset.SetTemplateVersion | metadata_manager/core/dataset.py:52-60 | the template version is stored with dots replaced and not padded |
| MetadataManager.Dataset.LoadTemplate | metadata_manager/core/dataset.py:138-153 | a missing version fails before any change; otherwise the converted version and its directory are stored and the template becomes the load of that directory, kept as before on failure |
| MetadataManager.Dataset.LoadFromTemplate | metadata_manager/core/dataset.py:97-110 | the dataset version is converted, the dataset path becomes its template directory, and the dataset becomes that directory's load |
| MetadataManager.Dataset.LoadDataset | metadata_manager/core/dataset.py:174-192 | from the template: the dataset version is stored converted and the dataset becomes the load of its template directory, which becomes the dataset path; without a version nothing changes; otherwise the dataset becomes the load of the path, which is not stored; a missing path fails |
| MetadataManager.Dataset.SaveTemplate | metadata_manager/core/dataset.py:155-172 | a given version's converted directory is copied; else the stored template version is used as it stands; an empty one is "Template path not found" |
| MetadataManager.Dataset.Save | metadata_manager/core/dataset.py:194-238 | the save with `mkdir(parents=True)` and `update=1`; it reports the empty-dataset error exactly when the dataset is empty |
| MetadataManager.Dataset.LoadMetadata | metadata_manager/core/dataset.py:240-261 | the spreadsheet is read and stored unfiltered under its stem; a failed read changes nothing |
| MetadataManager.Dataset.ListCategories | metadata_manager/core/dataset.py:280-303 | the converted version and its directory are stored and the template becomes that directory's load (kept on failure); it succeeds exactly when that load does; the result is the template's spreadsheet keys in dict order |
| MetadataManager.Dataset.ListElements | metadata_manager/core/dataset.py:345-361 | with no template the call fails (`load_template(None)`); lookup errors first; `dataset_description` is listed by its first column; axis 0 lists headers, axis 1 the first column, any other axis fails |
| MetadataManager.Dataset.SetField | metadata_manager/core/dataset.py:363-398 | the result is `SetFieldAt` of the old dataset, which becomes the dataset on success; nothing else changes |
| MetadataManager.Dataset.Append | metadata_manager/core/dataset.py:400-420 | the result is `AppendRow` of the old dataset, which becomes the dataset on success; nothing else changes |
| MetadataManager.DefaultTemplateUnconverted | metadata_manager/core/dataset.py:164-172 | before any load, `save_template()` copies from `version_2.0.0`, not from the `version_2_0_0` directory every loading method uses |
| PhysiomeMetadata.ListedFields | physiome_metadata/core/dataset.py:237-265 | lookup errors first; axis 0 lists the first column, axis 1 the headers after the first, any other axis fails |
| PhysiomeMetadata.Dataset.constructor | physiome_metadata/core/dataset.py:11-20 | the fields before `__init__` loads the template: version `2.0.0`, nothing loaded |
| PhysiomeMetadata.Dataset.Create | physiome_metadata/core/dataset.py:11-22 | an object is built exactly when the default template directory `version_2_0_0` loads, and then holds that template |
| PhysiomeMetadata.Dataset.SetDatasetPath | physiome_metadata/core/dataset.py:24-30 | the path is stored and nothing else changes |
| PhysiomeMetadata.Dataset.SetTemplateVersion | physiome_metadata/core/dataset.py:32-38 | the version is stored as given |
| PhysiomeMetadata.Dataset.SetTemplate | physiome_metadata/core/dataset.py:40-57 | a truthy version is stored as given; the directory is that of the converted stored version |
| PhysiomeMetadata.Dataset.LoadTemplate | physiome_metadata/core/dataset.py:93-104 | the template becomes the load of the directory `SetTemplate` chose, kept as before on failure |
| PhysiomeMetadata.Dataset.SaveTemplate | physiome_metadata/core/dataset.py:106-117 | a truthy version first becomes the template version and directory, without reloading; then the template directory is copied |
| PhysiomeMetadata.Dataset.LoadDataset | physiome_metadata/core/dataset.py:119-129 | the dataset becomes the load of the path, which is not stored |
| PhysiomeMetadata.Dataset.SaveDataset | physiome_metadata/core/dataset.py:131-174 | the save with a plain `mkdir()` and a plain `copy_tree`; the empty-dataset error exactly when the dataset is empty |
| PhysiomeMetadata.Dataset.LoadMetadata | physiome_metadata/core/dataset.py:176-196 | the spreadsheet is read and stored unfiltered under its stem; a failed read changes nothing |
| PhysiomeMetadata.Dataset.EnsureTemplate | physiome_metadata/core/dataset.py:222-223 | a loaded template is kept; an empty one is replaced by the load of the stored version's directory, and kept as it was when that load fails |
| PhysiomeMetadata.Dataset.ListCategories | physiome_metadata/core/dataset.py:214-235 | with a template loaded it succeeds; with none, the stored version's directory is loaded, the call succeeds exactly when that load does, and a failed load keeps the template; the result is the template's spreadsheet keys in dict order |
| PhysiomeMetadata.Dataset.ListFields | physiome_metadata/core/dataset.py:237-265 | with a template loaded, the result is `ListedFields` on it; with none, the stored version's directory is loaded and either its error is the result (template kept) or `ListedFields` on the loaded template |
| PhysiomeMetadata.Dataset.SetField | physiome_metadata/core/dataset.py:267-302 | the result is `SetFieldByKey` of the old dataset, which becomes the dataset on success; nothing else changes |
| PhysiomeMetadata.Dataset.Append | physiome_metadata/core/dataset.py:304-323 | the result is `AppendRow` of the old dataset, which becomes the dataset on success; nothing else changes |
| PhysiomeMetadata.TemplateSpellingsAgree | physiome_metadata/core/dataset.py:46-55 | `2`, `2_0_0` and `2.0.0` select the same template directory |

## Left out

- Reading and writing `.xlsx` files is abstracted. A file carries the outcome of each reader (a table, xlrd's format error, or another error). A sheet write is an action holding the table.
- `copy_tree`, `copyfile` and `mkdir` are recorded as actions. They are not carried out.
  - A save checks every entry against the file system as it was when the save began.
  - `mkdir(exist_ok=False)` failing on an existing file is not modelled.
  - Neither is a missing parent for physiome_metadata's plain `mkdir()`.
  - Neither are copy errors inside the save loop.
- The `SameFileError` fallback (copy to `<name>_tmp`, remove, rename) is not modelled. It ends in the same file content, so it is recorded as one `CopyFile`.
- The order `iterdir()` lists a directory in is given by the file system value. The operating system decides it.
- `list_elements` with a version reads `element_descriptions.xlsx` and prints it. That branch is not modelled. `MetadataManager.Dataset.ListElements` covers the call without a version.
- `print` output of `list_categories`, `list_fields` and `list_elements` is not modelled.
- `__init__` resolving `_resources_path` from the module's own location is not modelled. The resources path is a constructor parameter.
- Store.LoadEntry: column headers are strings only. A spreadsheet whose header row holds a number gives pandas a non-string column label, and `columns.str.contains('^Unnamed')` then raises (AttributeError or TypeError), so in the source that load fails; `Frames.CleanSheet` cannot express such a header and the model loads the file.
- Cell values are text or whole numbers. Floats, dates and the NaN of a missing cell are not distinguished beyond "empty".
- Frames.Append: pandas may sort new columns on `append`. The model adds new keys after the old headers in the record's order, and proves only that the old headers stay a prefix and that the new ones are the record's keys.
- Frames.SetByKey: column dtypes are not modelled. Under pandas before 1.4, writing text such as `2.0.0` with `.at` into a float64 column (a `Value` column whose cells are all empty, as in a blank template) raises numpy's ValueError. That error reaches `except ValueError` at physiome_metadata/core/dataset.py:296, so `set_field` reports "row does not exists" for a row that exists, where the model writes the cell.
- Frames.SetByKeyAsWritten: requires at least one column. Without one, `list(metadata)[0]` raises before pandas writes, and `Frames.SetByKey` covers that case.
- A row locator that is neither an `int` nor a `str` (a float, a tuple) is not modelled. The locator is `Editing.Locator`.
- `DataFrame.append` no longer exists in pandas 2. The model follows the pandas versions the code was written for.
- `get_dataset_path` is a plain getter and is not modelled.
- `metadata_manager/utils/metadata_extraction.py` and the example scripts are not part of this model.
- Python's `dict` being shared between the dataset and callers (the returned `self._dataset`) is not modelled. Results are values.
- Where the documentation and the code disagree, the model follows the code:
  - A row whose only content is in an `Unnamed` column survives the load, because `dropna(how="all")` runs before the column mask. See `Frames.CleanSheetKeepsRowEmptyAfterColumnDrop`.
  - physiome_metadata's `list_fields` docstring says axis 0 lists the first row. The code lists the first column (the index) for axis 0.

## Findings

| source | as written | input that shows it | evidently intended | confidence | as-written member | corrected member |
|---|---|---|---|---|---|---|
| metadata_manager/core/dataset.py:388-394 | `metadata.loc[row_index - 2, header] = value` on a label no row has enlarges the table with a new row, so the `except ValueError` ("row does not exists") never fires for a missing row | a table with two data rows and `set_field(category, 10, "Value", "x")` | a write to a row that does not exist is refused with "row does not exists" | not executed | Frames.SetCellMissingRowEnlarges | Frames.SetCell |
| physiome_metadata/core/dataset.py:293-298 | `metadata.at[key, header] = value` on a key no row has appends a new row with that key | a description table holding only the element `Title` and `set_field(category, "Keywords", "Value", "x")` | a write to a row that does not exist is refused with "row does not exists" | not executed | Frames.SetByKeyMissingRowEnlarges | Frames.SetByKey |
