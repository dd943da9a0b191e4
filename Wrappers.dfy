/** Option and Result, and the kinds of failure the `Dataset` classes raise.
    Every Python exception of the modelled code becomes one `Error` value;
    the comment on each constructor names the exception it stands for. */
module Wrappers {

  datatype Option<+T> = None | Some(value: T)

  datatype Error =
    | DatasetNotDefined              // ValueError "Dataset not defined ..."
    | CategoryNotFound               // AttributeError: `dict.get` gave None, which has no `.get`
    | NotACategory                   // AttributeError: the entry is a Path, which has no `.get`
    | RowIndexNotInt                 // ValueError "Row index should be int."
    | RowDoesNotExist                // ValueError re-raised as "row does not exists."
    | NoColumns                      // IndexError: `list(metadata)[0]` on a table without columns
    | MissingColumn(header: string)  // KeyError from `dropna(subset=[header])`
    | NoVersion                      // AttributeError: `None.replace` on a missing version
    | NoDatasetPath                  // TypeError: `Path(None)`
    | TemplatePathNotFound           // ValueError "Template path not found."
    | FieldsUndefined                // TypeError: iterating `fields = None` for an axis other than 0 or 1
    | DirectoryNotFound(dir: seq<string>)          // `iterdir` on a missing path or on a file
    | FileNotFound(file: seq<string>)              // `read_excel` on a missing path
    | UnreadableSpreadsheet(file: seq<string>)     // neither spreadsheet reader accepted the file
    | CannotCopyTree(source: seq<string>)          // DistutilsFileError: `copy_tree` from a path that is no directory

  /** A Python call that either returns a value or raises. */
  datatype Result<+R> = Success(value: R) | Failure(error: Error) {
    predicate IsFailure() { Failure? }

    function PropagateFailure<U>(): Result<U>
      requires Failure?
    {
      Failure(error)
    }

    function Extract(): R
      requires Success?
    {
      value
    }
  }

  /** Python truthiness of an optional string argument: `None` and `""` are false. */
  predicate Truthy(s: Option<string>) {
    s.Some? && s.value != ""
  }
}
