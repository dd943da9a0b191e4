/** Template versions and where their template trees live.
    `Convert` is `_convert_version_format` of metadata_manager, which
    physiome_metadata repeats inline in `set_template`. */
module Versions {
  import opened Strings
  import opened Paths

  /** Turn a version such as `2`, `2.0.0` or `2_0_0` into the
      underscore form used by the template directory names. */
  function Convert(version: string): (r: string)
    ensures '.' !in r && '_' in r
    ensures '.' !in version && '_' !in version ==> r == version + "_0_0"
    ensures '.' in version || '_' in version ==> |r| == |version|
  {
    var v := Replace(version, '.', '_');
    if '_' !in v then v + "_0_0" else v
  }

  /** Converting twice is converting once. */
  lemma ConvertIdempotent(version: string)
    ensures Convert(Convert(version)) == Convert(version)
  {
    var r := Convert(version);
    assert Replace(r, '.', '_') == r;
  }

  /** Dots and underscores are interchangeable separators. */
  lemma ConvertSeparators(version: string)
    ensures Convert(Replace(version, '.', '_')) == Convert(version)
  {
    var v := Replace(version, '.', '_');
    assert Replace(v, '.', '_') == v;
  }

  /** The three accepted spellings of template version 2 agree. */
  lemma ConvertSpellings()
    ensures Convert("2") == "2_0_0"
    ensures Convert("2.0.0") == "2_0_0"
    ensures Convert("2_0_0") == "2_0_0"
  {
    assert Replace("2", '.', '_') == "2";
    assert Replace("2.0.0", '.', '_') == "2_0_0";
    assert Replace("2_0_0", '.', '_') == "2_0_0";
  }

  /** `_get_template_dir`: `<resources>/templates/version_<v>/DatasetTemplate`,
      with `v` used as given and nothing checked on disk. */
  function TemplateDir(resources: Path, version: string): (p: Path)
    ensures |p| == |resources| + 3 && p[..|resources|] == resources
    ensures Name(p) == "DatasetTemplate"
  {
    resources + ["templates", "version_" + version, "DatasetTemplate"]
  }

  /** The version string is used verbatim: different versions name
      different template directories. */
  lemma TemplateDirInjective(resources: Path, a: string, b: string)
    requires TemplateDir(resources, a) == TemplateDir(resources, b)
    ensures a == b
  {
    var n := |resources|;
    assert TemplateDir(resources, a)[n + 1] == "version_" + a;
    assert TemplateDir(resources, b)[n + 1] == "version_" + b;
    assert a == ("version_" + a)[8..];
    assert b == ("version_" + b)[8..];
  }
}
