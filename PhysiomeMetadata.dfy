/** `physiome_metadata.core.dataset.Dataset`: the same dataset object as in
    metadata_manager, with its own conventions. The template is loaded
    when the object is built, the template version is stored as given and
    converted only to find its directory, fields are listed the other way
    round, and a cell is addressed by the text of the row's first column. */
module PhysiomeMetadata {
  import opened Wrappers
  import opened Strings
  import opened Paths
  import opened Versions
  import opened Frames
  import opened Dicts
  import opened Store
  import opened Editing
  import opened Saving

  /** The template version a new object starts with. */
  const DefaultVersion := "2.0.0"

  /** `list_fields(category, axis)` on a template: axis 0 lists the first
      column (the row keys), axis 1 the headers after the first; any other
      axis leaves `fields` as `None`, and iterating it raises. */
  function ListedFields(d: Catalogue, category: string, axis: int): (r: Result<Fields>)
    ensures IndexedFields(d, category, true).Failure? ==> r == IndexedFields(d, category, true)
    ensures IndexedFields(d, category, true).Success? ==>
              && (axis == 0 ==> r == IndexedFields(d, category, false))
              && (axis == 1 ==> r == IndexedFields(d, category, true))
              && (axis != 0 && axis != 1 ==> r == Failure(FieldsUndefined))
    ensures r.Success? ==> (r.value.Labels? <==> axis == 0) && (r.value.Headers? <==> axis == 1)
  {
    match IndexedFields(d, category, true)
    case Failure(err) => Failure(err)
    case Success(headers) =>
      if axis == 0 then IndexedFields(d, category, false)
      else if axis == 1 then Success(headers)
      else Failure(FieldsUndefined)
  }

  class Dataset {
    /** `_resources_path`, where the `templates` directory lives. */
    const resources: Path
    var templateVersion: string
    var templateDir: Path
    var template: Catalogue
    var datasetPath: Path
    var dataset: Catalogue

    /** Both dicts are well formed, and the template (which only a directory
        load fills) has every entry keyed by its own file name. */
    ghost predicate Valid()
      reads this
    {
      Dicts.Valid(template) && Dicts.Valid(dataset) && KeyedByName(template)
    }

    /** The fields as `__init__` sets them, before its call to `load_template`. */
    constructor(resources: Path)
      ensures this.resources == resources
      ensures templateVersion == DefaultVersion
      ensures templateDir == [] && datasetPath == []
      ensures template == Empty() && dataset == Empty()
      ensures Valid()
    {
      this.resources := resources;
      templateVersion := DefaultVersion;
      templateDir := [];
      template := Empty();
      datasetPath := [];
      dataset := Empty();
    }

    /** `Dataset()`: the fields, then `load_template()`; an object whose
        default template cannot be loaded is never built. */
    static method Create(fs: FileSystem, resources: Path) returns (r: Result<Dataset>)
      ensures r.Success? <==> LoadSpec(fs, TemplateDir(resources, "2_0_0")).Success?
      ensures r.Failure? ==> r.error == LoadSpec(fs, TemplateDir(resources, "2_0_0")).error
      ensures r.Success? ==>
                && fresh(r.value) && r.value.Valid()
                && r.value.resources == resources
                && r.value.templateVersion == DefaultVersion
                && r.value.templateDir == TemplateDir(resources, "2_0_0")
                && Success(r.value.template) == LoadSpec(fs, r.value.templateDir)
                && r.value.datasetPath == [] && r.value.dataset == Empty()
    {
      var d := new Dataset(resources);
      ConvertSpellings();
      var loaded := d.LoadTemplate(fs, None);
      if loaded.Failure? {
        return Failure(loaded.error);
      }
      return Success(d);
    }

    /** `set_dataset_path`. */
    method SetDatasetPath(path: Path)
      modifies this
      ensures datasetPath == path
      ensures templateVersion == old(templateVersion) && templateDir == old(templateDir)
      ensures template == old(template) && dataset == old(dataset)
    {
      datasetPath := path;
    }

    /** `set_template_version`: the version is stored as given. */
    method SetTemplateVersion(v: string)
      modifies this
      ensures templateVersion == v
      ensures templateDir == old(templateDir) && datasetPath == old(datasetPath)
      ensures template == old(template) && dataset == old(dataset)
    {
      templateVersion := v;
    }

    /** `set_template(version)`: a given (truthy) version is stored as it
        is; the directory is derived from the converted stored version. */
    method SetTemplate(v: Option<string>)
      modifies this
      ensures templateVersion == if Truthy(v) then v.value else old(templateVersion)
      ensures templateDir == TemplateDir(resources, Convert(templateVersion))
      ensures datasetPath == old(datasetPath) && template == old(template) && dataset == old(dataset)
    {
      if Truthy(v) {
        SetTemplateVersion(v.value);
      }
      templateDir := TemplateDir(resources, Convert(templateVersion));
    }

    /** `load_template(version)`: set the template, then replace the
        template by what its directory loads to; a failed load leaves the
        previous template in place. */
    method LoadTemplate(fs: FileSystem, v: Option<string>) returns (r: Result<Catalogue>)
      requires Valid()
      modifies this
      ensures Valid()
      ensures templateVersion == if Truthy(v) then v.value else old(templateVersion)
      ensures templateDir == TemplateDir(resources, Convert(templateVersion))
      ensures r == LoadSpec(fs, templateDir)
      ensures r.Success? ==> template == r.value
      ensures r.Failure? ==> template == old(template)
      ensures datasetPath == old(datasetPath) && dataset == old(dataset)
    {
      SetTemplate(v);
      r := LoadDirectory(fs, templateDir);
      if r.Success? {
        LoadSpecWellFormed(fs, templateDir);
        template := r.value;
      }
    }

    /** `save_template(save_dir, version)`: a given version first becomes
        the template (the loaded template itself is not reloaded); then the
        template directory is copied. */
    method SaveTemplate(fs: FileSystem, saveDir: Path, v: Option<string>) returns (r: Result<Action>)
      modifies this
      ensures templateVersion == if Truthy(v) then v.value else old(templateVersion)
      ensures templateDir == if Truthy(v) then TemplateDir(resources, Convert(v.value)) else old(templateDir)
      ensures r == CopyTemplate(fs, templateDir, saveDir)
      ensures datasetPath == old(datasetPath) && template == old(template) && dataset == old(dataset)
    {
      if Truthy(v) {
        SetTemplate(v);
      }
      r := CopyTemplate(fs, templateDir, saveDir);
    }

    /** `load_dataset(dataset_path)`: a fresh load of the directory, which
        does not become the dataset path. */
    method LoadDataset(fs: FileSystem, path: Path) returns (r: Result<Catalogue>)
      requires Valid()
      modifies this
      ensures Valid()
      ensures r == LoadSpec(fs, path)
      ensures r.Success? ==> dataset == r.value
      ensures r.Failure? ==> dataset == old(dataset)
      ensures templateVersion == old(templateVersion) && templateDir == old(templateDir)
      ensures template == old(template) && datasetPath == old(datasetPath)
    {
      r := LoadDirectory(fs, path);
      if r.Success? {
        LoadSpecWellFormed(fs, path);
        dataset := r.value;
      }
    }

    /** `save_dataset(save_dir, remove_empty)`: plain `mkdir()` and plain
        `copy_tree`. */
    method SaveDataset(fs: FileSystem, saveDir: Path, removeEmpty: bool) returns (out: SaveOutcome)
      ensures out == SaveSpec(fs, dataset, saveDir, removeEmpty, false, false)
      ensures out.failure == Some(DatasetNotDefined) <==> IsEmpty(dataset)
    {
      SaveRefusesEmpty(fs, dataset, saveDir, removeEmpty, false, false);
      out := SaveEntries(fs, dataset, saveDir, removeEmpty, false, false);
    }

    /** `load_metadata(path)`: read one spreadsheet and store it, unfiltered,
        under its stem; every other entry stays as it was. */
    method LoadMetadata(fs: FileSystem, path: Path) returns (r: Result<Table>)
      requires Valid()
      modifies this
      ensures Valid()
      ensures r == ReadSpreadsheet(fs, path)
      ensures r.Success? ==> dataset == Put(old(dataset), Stem(Name(path)), Category(path, r.value))
      ensures r.Failure? ==> dataset == old(dataset)
      ensures templateVersion == old(templateVersion) && templateDir == old(templateDir)
      ensures template == old(template) && datasetPath == old(datasetPath)
    {
      r := ReadSpreadsheet(fs, path);
      if r.Success? {
        var key, entry := Stem(Name(path)), Category(path, r.value);
        PutValid(dataset, key, entry);
        dataset := Put(dataset, key, entry);
      }
    }

    /** Load the default template if none is loaded (`if not self._template`). */
    method EnsureTemplate(fs: FileSystem) returns (r: Result<Catalogue>)
      requires Valid()
      modifies this
      ensures Valid()
      ensures !IsEmpty(old(template)) ==> r == Success(template) && template == old(template)
      ensures !IsEmpty(old(template)) ==> templateVersion == old(templateVersion) && templateDir == old(templateDir)
      ensures IsEmpty(old(template)) ==>
                && templateVersion == old(templateVersion)
                && templateDir == TemplateDir(resources, Convert(templateVersion))
                && r == LoadSpec(fs, templateDir)
      ensures r.Success? ==> template == r.value
      ensures r.Failure? ==> template == old(template)
      ensures datasetPath == old(datasetPath) && dataset == old(dataset)
    {
      if IsEmpty(template) {
        r := LoadTemplate(fs, None);
      } else {
        r := Success(template);
      }
    }

    /** `list_categories()`: load the template if none is loaded, then list
        the stems of its spreadsheets in dict order, which are exactly its
        spreadsheet keys. */
    method ListCategories(fs: FileSystem) returns (r: Result<seq<string>>)
      requires Valid()
      modifies this
      ensures Valid()
      ensures !IsEmpty(old(template)) ==> r.Success? && template == old(template)
      ensures !IsEmpty(old(template)) ==> templateVersion == old(templateVersion) && templateDir == old(templateDir)
      ensures IsEmpty(old(template)) ==>
                && templateVersion == old(templateVersion)
                && templateDir == TemplateDir(resources, Convert(templateVersion))
                && (r.Success? <==> LoadSpec(fs, templateDir).Success?)
      ensures IsEmpty(old(template)) && r.Success? ==> LoadSpec(fs, templateDir) == Success(template)
      ensures r.Failure? ==> template == old(template)
      ensures r.Success? ==> && r.value == CategoryStems(template)
                             && r.value == Select(template.keys, IsCategory(template.values))
      ensures datasetPath == old(datasetPath) && dataset == old(dataset)
    {
      var loaded := EnsureTemplate(fs);
      if loaded.Failure? {
        return Failure(loaded.error);
      }
      var categories := ListCategoryStems(template);
      CategoryStemsSpec(template);
      return Success(categories);
    }

    /** `list_fields(category, axis)`: load the template if none is loaded,
        then list the fields of that template category. */
    method ListFields(fs: FileSystem, category: string, axis: int) returns (r: Result<Fields>)
      requires Valid()
      modifies this
      ensures Valid()
      ensures !IsEmpty(old(template)) ==> template == old(template)
      ensures r.Success? ==> r == ListedFields(template, category, axis)
      ensures !IsEmpty(old(template)) ==> r == ListedFields(template, category, axis)
      ensures !IsEmpty(old(template)) ==> templateVersion == old(templateVersion) && templateDir == old(templateDir)
      ensures IsEmpty(old(template)) ==>
                && templateVersion == old(templateVersion)
                && templateDir == TemplateDir(resources, Convert(templateVersion))
                && (LoadSpec(fs, templateDir).Success? ==> r == ListedFields(template, category, axis))
      ensures IsEmpty(old(template)) && r.Success? ==> LoadSpec(fs, templateDir) == Success(template)
      ensures IsEmpty(old(template)) && LoadSpec(fs, templateDir).Failure? ==>
                r == Failure(LoadSpec(fs, templateDir).error) && template == old(template)
      ensures datasetPath == old(datasetPath) && dataset == old(dataset)
    {
      var loaded := EnsureTemplate(fs);
      if loaded.Failure? {
        return Failure(loaded.error);
      }
      r := ListedFields(template, category, axis);
    }

    /** `set_field(category, idx, header, value)`. */
    method SetField(category: string, row: Locator, header: string, v: Value) returns (r: Result<Catalogue>)
      requires Valid()
      modifies this
      ensures Valid()
      ensures r == SetFieldByKey(old(dataset), category, row, header, v)
      ensures r.Success? ==> dataset == r.value
      ensures r.Failure? ==> dataset == old(dataset)
      ensures templateVersion == old(templateVersion) && templateDir == old(templateDir)
      ensures template == old(template) && datasetPath == old(datasetPath)
    {
      r := SetFieldByKey(dataset, category, row, header, v);
      if r.Success? {
        SetFieldByKeyValid(dataset, category, row, header, v);
        dataset := r.value;
      }
    }

    /** `append(category, row)`. */
    method Append(category: string, rec: Record) returns (r: Result<Catalogue>)
      requires Valid()
      modifies this
      ensures Valid()
      ensures r == AppendRow(old(dataset), category, rec)
      ensures r.Success? ==> dataset == r.value
      ensures r.Failure? ==> dataset == old(dataset)
      ensures templateVersion == old(templateVersion) && templateDir == old(templateDir)
      ensures template == old(template) && datasetPath == old(datasetPath)
    {
      r := AppendRow(dataset, category, rec);
      if r.Success? {
        AppendRowValid(dataset, category, rec);
        dataset := r.value;
      }
    }
  }

  /** A version given with dots, with underscores, or as a bare major number
      selects the same template directory. */
  lemma TemplateSpellingsAgree(resources: Path)
    ensures TemplateDir(resources, Convert("2")) == TemplateDir(resources, Convert("2.0.0"))
    ensures TemplateDir(resources, Convert("2_0_0")) == TemplateDir(resources, Convert("2.0.0"))
  {
    ConvertSpellings();
  }
}
