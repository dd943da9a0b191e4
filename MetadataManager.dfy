/** `metadata_manager.core.dataset.Dataset`: a SPARC dataset (or the SPARC
    dataset template) loaded into a dict of spreadsheets and other files,
    edited cell by cell or row by row, and saved back to a directory. */
module MetadataManager {
  import opened Wrappers
  import opened Strings
  import opened Paths
  import opened Versions
  import opened Frames
  import opened Dicts
  import opened Store
  import opened Editing
  import opened Saving

  /** The version a new object starts with, as written: it is not converted. */
  const DefaultVersion := "2.0.0"

  class Dataset {
    /** `_resources_path`, where the `templates` directory lives. */
    const resources: Path
    var templateVersion: string
    var version: string
    var templateDir: Path
    var template: Catalogue
    var datasetPath: Path
    var dataset: Catalogue

    /** Both dicts are well formed, and the template (which only a directory
        load fills) has every entry keyed by its own file name. */
    ghost predicate Valid()
      reads this
    {
      Dicts.Valid(template) && Dicts.Valid(dataset) && KeyedByName(template)
    }

    /** `Dataset()`: default version, nothing loaded. */
    constructor(resources: Path)
      ensures this.resources == resources
      ensures templateVersion == DefaultVersion && version == DefaultVersion
      ensures templateDir == [] && datasetPath == []
      ensures template == Empty() && dataset == Empty()
      ensures Valid()
    {
      this.resources := resources;
      templateVersion := DefaultVersion;
      version := DefaultVersion;
      templateDir := [];
      template := Empty();
      datasetPath := [];
      dataset := Empty();
    }

    /** `set_dataset_path`. */
    method SetDatasetPath(path: Path)
      modifies this
      ensures datasetPath == path
      ensures templateVersion == old(templateVersion) && version == old(version) && templateDir == old(templateDir)
      ensures template == old(template) && dataset == old(dataset)
    {
      datasetPath := path;
    }

    /** `set_version`: the dataset version is stored converted. */
    method SetVersion(v: string)
      modifies this
      ensures version == Convert(v)
      ensures '.' !in version && '_' in version
      ensures templateVersion == old(templateVersion) && templateDir == old(templateDir) && datasetPath == old(datasetPath)
      ensures template == old(template) && dataset == old(dataset)
    {
      version := Convert(v);
    }

    /** `set_template_version`: dots become underscores, nothing is padded. */
    method SetTemplateVersion(v: string)
      modifies this
      ensures templateVersion == Replace(v, '.', '_')
      ensures '.' !in templateVersion && |templateVersion| == |v|
      ensures version == old(version) && templateDir == old(templateDir) && datasetPath == old(datasetPath)
      ensures template == old(template) && dataset == old(dataset)
    {
      templateVersion := Replace(v, '.', '_');
    }

    /** `load_template(version)`: a missing version fails before anything
        changes; otherwise the converted version and its directory are
        stored, and the template is replaced by what that directory loads
        to. A failed load leaves the previous template in place. */
    method LoadTemplate(fs: FileSystem, v: Option<string>) returns (r: Result<Catalogue>)
      requires Valid()
      modifies this
      ensures Valid()
      ensures v.None? ==> r == Failure(NoVersion) && templateVersion == old(templateVersion) && templateDir == old(templateDir)
      ensures v.Some? ==> && templateVersion == Convert(v.value)
                          && templateDir == TemplateDir(resources, Convert(v.value))
                          && r == LoadSpec(fs, templateDir)
      ensures r.Success? ==> template == r.value
      ensures r.Failure? ==> template == old(template)
      ensures version == old(version) && datasetPath == old(datasetPath) && dataset == old(dataset)
    {
      if v.None? {
        return Failure(NoVersion);
      }
      var converted := Convert(v.value);
      SetTemplateVersion(converted);
      templateDir := TemplateDir(resources, templateVersion);
      r := LoadDirectory(fs, templateDir);
      if r.Success? {
        LoadSpecWellFormed(fs, templateDir);
        template := r.value;
      }
    }

    /** `load_from_template(version)`: the dataset becomes a fresh load of
        the template directory of the converted version, which also becomes
        the dataset path. A missing version fails before anything changes. */
    method LoadFromTemplate(fs: FileSystem, v: Option<string>) returns (r: Result<Catalogue>)
      requires Valid()
      modifies this
      ensures Valid()
      ensures v.None? ==> r == Failure(NoVersion) && version == old(version) && datasetPath == old(datasetPath)
      ensures v.Some? ==> && version == Convert(v.value)
                          && datasetPath == TemplateDir(resources, Convert(v.value))
                          && r == LoadSpec(fs, datasetPath)
      ensures r.Success? ==> dataset == r.value
      ensures r.Failure? ==> dataset == old(dataset)
      ensures templateVersion == old(templateVersion) && templateDir == old(templateDir) && template == old(template)
    {
      if v.None? {
        return Failure(NoVersion);
      }
      SetVersion(v.value);
      datasetPath := TemplateDir(resources, version);
      r := LoadDirectory(fs, datasetPath);
      if r.Success? {
        LoadSpecWellFormed(fs, datasetPath);
        dataset := r.value;
      }
    }

    /** `load_dataset(dataset_path, from_template, version)`: either the
        template load above, or a fresh load of the given directory, which
        does NOT become the dataset path. A missing path fails. */
    method LoadDataset(fs: FileSystem, path: Option<Path>, fromTemplate: bool, v: Option<string>) returns (r: Result<Catalogue>)
      requires Valid()
      modifies this
      ensures Valid()
      ensures fromTemplate && v.Some? ==> datasetPath == TemplateDir(resources, Convert(v.value)) && r == LoadSpec(fs, datasetPath)
      ensures fromTemplate && v.Some? ==> version == Convert(v.value)
      ensures fromTemplate && v.None? ==> r == Failure(NoVersion) && version == old(version) && datasetPath == old(datasetPath)
      ensures !fromTemplate && path.None? ==> r == Failure(NoDatasetPath)
      ensures !fromTemplate && path.Some? ==> r == LoadSpec(fs, path.value)
      ensures !fromTemplate ==> version == old(version) && datasetPath == old(datasetPath)
      ensures r.Success? ==> dataset == r.value
      ensures r.Failure? ==> dataset == old(dataset)
      ensures templateVersion == old(templateVersion) && templateDir == old(templateDir) && template == old(template)
    {
      if fromTemplate {
        r := LoadFromTemplate(fs, v);
      } else if path.None? {
        r := Failure(NoDatasetPath);
      } else {
        r := LoadDirectory(fs, path.value);
        if r.Success? {
          LoadSpecWellFormed(fs, path.value);
          dataset := r.value;
        }
      }
    }

    /** `save_template(save_dir, version)`: copy the template tree of the
        converted given version, or else of the stored template version as
        it stands; an empty stored version has no template. */
    function SaveTemplate(fs: FileSystem, saveDir: Path, v: Option<string>): (r: Result<Action>)
      reads this
      ensures Truthy(v) ==> r == CopyTemplate(fs, TemplateDir(resources, Convert(v.value)), saveDir)
      ensures !Truthy(v) && templateVersion != "" ==> r == CopyTemplate(fs, TemplateDir(resources, templateVersion), saveDir)
      ensures !Truthy(v) && templateVersion == "" ==> r == Failure(TemplatePathNotFound)
      ensures r.Success? ==> r.value.CopyTree? && r.value.target == saveDir && Name(r.value.source) == "DatasetTemplate"
    {
      if Truthy(v) then CopyTemplate(fs, TemplateDir(resources, Convert(v.value)), saveDir)
      else if templateVersion != "" then CopyTemplate(fs, TemplateDir(resources, templateVersion), saveDir)
      else Failure(TemplatePathNotFound)
    }

    /** `save(save_dir, remove_empty)`: `mkdir(parents=True)` and
        `copy_tree(..., update=1)`. */
    method Save(fs: FileSystem, saveDir: Path, removeEmpty: bool) returns (out: SaveOutcome)
      ensures out == SaveSpec(fs, dataset, saveDir, removeEmpty, true, true)
      ensures out.failure == Some(DatasetNotDefined) <==> IsEmpty(dataset)
    {
      SaveRefusesEmpty(fs, dataset, saveDir, removeEmpty, true, true);
      out := SaveEntries(fs, dataset, saveDir, removeEmpty, true, true);
    }

    /** `load_metadata(path)`: read one spreadsheet and store it, unfiltered,
        under its stem; every other entry stays as it was. */
    method LoadMetadata(fs: FileSystem, path: Path) returns (r: Result<Table>)
      requires Valid()
      modifies this
      ensures Valid()
      ensures r == ReadSpreadsheet(fs, path)
      ensures r.Success? ==> dataset == Put(old(dataset), Stem(Name(path)), Category(path, r.value))
      ensures r.Failure? ==> dataset == old(dataset)
      ensures templateVersion == old(templateVersion) && version == old(version) && templateDir == old(templateDir)
      ensures template == old(template) && datasetPath == old(datasetPath)
    {
      r := ReadSpreadsheet(fs, path);
      if r.Success? {
        PutValid(dataset, Stem(Name(path)), Category(path, r.value));
        dataset := Put(dataset, Stem(Name(path)), Category(path, r.value));
      }
    }

    /** `list_categories(version)`: load the template of that version, then
        list the stems of its spreadsheets in dict order, which are exactly
        its spreadsheet keys. */
    method ListCategories(fs: FileSystem, v: Option<string>) returns (r: Result<seq<string>>)
      requires Valid()
      modifies this
      ensures Valid()
      ensures v.None? ==> r == Failure(NoVersion)
      ensures v.None? ==> templateVersion == old(templateVersion) && templateDir == old(templateDir)
      ensures v.Some? ==> templateVersion == Convert(v.value) && templateDir == TemplateDir(resources, Convert(v.value))
      ensures v.Some? ==> (r.Success? <==> LoadSpec(fs, TemplateDir(resources, Convert(v.value))).Success?)
      ensures r.Failure? ==> template == old(template)
      ensures r.Success? ==> && LoadSpec(fs, templateDir) == Success(template)
                             && r.value == CategoryStems(template)
                             && r.value == Select(template.keys, IsCategory(template.values))
      ensures version == old(version) && datasetPath == old(datasetPath) && dataset == old(dataset)
    {
      var loaded := LoadTemplate(fs, v);
      if loaded.Failure? {
        return Failure(loaded.error);
      }
      var categories := ListCategoryStems(template);
      CategoryStemsSpec(template);
      return Success(categories);
    }

    /** `list_elements(category, axis)` without a version: the fields of a
        template category. With no template loaded it calls
        `load_template(None)`, which always fails. The description category
        is always listed by its first column; otherwise axis 0 lists the
        headers after the first and axis 1 the first column. */
    function ListElements(category: string, axis: int): (r: Result<Fields>)
      reads this
      ensures IsEmpty(template) ==> r == Failure(NoVersion)
      ensures !IsEmpty(template) && IndexedFields(template, category, true).Failure? ==>
                r == IndexedFields(template, category, true)
      ensures r.Success? ==> !IsEmpty(template) && IndexedFields(template, category, true).Success?
      ensures r.Success? && category == DescriptionCategory ==> r == IndexedFields(template, category, false)
      ensures r.Success? && category != DescriptionCategory ==>
                (axis == 0 && r == IndexedFields(template, category, true)) ||
                (axis == 1 && r == IndexedFields(template, category, false))
      ensures !IsEmpty(template) && IndexedFields(template, category, true).Success? ==>
                (r.Failure? <==> category != DescriptionCategory && axis != 0 && axis != 1)
    {
      if IsEmpty(template) then Failure(NoVersion)
      else
        var effective := if category == DescriptionCategory then 1 else axis;
        match IndexedFields(template, category, true)
        case Failure(err) => Failure(err)
        case Success(headers) =>
          if effective == 0 then Success(headers)
          else if effective == 1 then IndexedFields(template, category, false)
          else Failure(FieldsUndefined)
    }

    /** `set_field(category, row_index, header, value)`. */
    method SetField(category: string, row: Locator, header: string, v: Value) returns (r: Result<Catalogue>)
      requires Valid()
      modifies this
      ensures Valid()
      ensures r == SetFieldAt(old(dataset), category, row, header, v)
      ensures r.Success? ==> dataset == r.value
      ensures r.Failure? ==> dataset == old(dataset)
      ensures templateVersion == old(templateVersion) && version == old(version) && templateDir == old(templateDir)
      ensures template == old(template) && datasetPath == old(datasetPath)
    {
      r := SetFieldAt(dataset, category, row, header, v);
      if r.Success? {
        SetFieldAtValid(dataset, category, row, header, v);
        dataset := r.value;
      }
    }

    /** `append(category, row)`. */
    method Append(category: string, rec: Record) returns (r: Result<Catalogue>)
      requires Valid()
      modifies this
      ensures Valid()
      ensures r == AppendRow(old(dataset), category, rec)
      ensures r.Success? ==> dataset == r.value
      ensures r.Failure? ==> dataset == old(dataset)
      ensures templateVersion == old(templateVersion) && version == old(version) && templateDir == old(templateDir)
      ensures template == old(template) && datasetPath == old(datasetPath)
    {
      r := AppendRow(dataset, category, rec);
      if r.Success? {
        AppendRowValid(dataset, category, rec);
        dataset := r.value;
      }
    }
  }

  /** Before any template is loaded, `save_template()` copies from
      `version_2.0.0`, not from `version_2_0_0`, the directory every loading
      method uses for the same default. */
  lemma DefaultTemplateUnconverted(d: Dataset, fs: FileSystem, saveDir: Path)
    requires d.templateVersion == DefaultVersion
    ensures d.SaveTemplate(fs, saveDir, None) == CopyTemplate(fs, TemplateDir(d.resources, "2.0.0"), saveDir)
    ensures TemplateDir(d.resources, "2.0.0") != TemplateDir(d.resources, Convert(DefaultVersion))
  {
    ConvertSpellings();
    if TemplateDir(d.resources, "2.0.0") == TemplateDir(d.resources, "2_0_0") {
      TemplateDirInjective(d.resources, "2.0.0", "2_0_0");
    }
  }
}
