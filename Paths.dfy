/** File-system paths as sequences of components, and the three pathlib
    properties the loader uses: `name`, `suffix` and `stem`. */
module Paths {

  /** A path is its sequence of components; `Path()` (the current directory) is `[]`. */
  type Path = seq<string>

  /** The only spreadsheet extension the loaders recognise (`_metadata_extensions`). */
  const SpreadsheetSuffix := ".xlsx"

  /** pathlib's `name`: the last component, `""` for the empty path. */
  function Name(p: Path): (n: string)
    ensures p != [] ==> p == p[..|p| - 1] + [n]
  {
    if p == [] then "" else p[|p| - 1]
  }

  /** The index of the last dot among the first `n` characters, or -1. */
  function LastDotBefore(name: string, n: nat): (i: int)
    requires n <= |name|
    ensures -1 <= i < n
    ensures i >= 0 ==> name[i] == '.'
  {
    if n == 0 then -1
    else if name[n - 1] == '.' then n - 1
    else LastDotBefore(name, n - 1)
  }

  /** Python's `name.rfind('.')`: the index of the last dot, or -1. */
  function LastDot(name: string): (i: int)
    ensures -1 <= i < |name|
    ensures i >= 0 ==> name[i] == '.'
  {
    LastDotBefore(name, |name|)
  }

  /** No dot follows the one `LastDotBefore` finds. */
  lemma {:induction false} LastDotBeforeIsLast(name: string, n: nat)
    requires n <= |name|
    ensures forall j :: LastDotBefore(name, n) < j < n ==> name[j] != '.'
  {
    if n > 0 && name[n - 1] != '.' {
      LastDotBeforeIsLast(name, n - 1);
    }
  }

  /** No dot follows the one `LastDot` finds. */
  lemma LastDotIsLast(name: string)
    ensures forall j :: LastDot(name) < j < |name| ==> name[j] != '.'
  {
    LastDotBeforeIsLast(name, |name|);
  }

  /** Where pathlib's suffix starts: at the last dot, unless that dot is the
      first or the last character of the name (then the suffix is empty). */
  function SuffixStart(name: string): (s: nat)
    ensures s <= |name|
  {
    var i := LastDot(name);
    if 0 < i < |name| - 1 then i else |name|
  }

  /** pathlib's `suffix`. */
  function Suffix(name: string): (x: string)
    ensures x == [] || (|x| >= 2 && x[0] == '.' && '.' !in x[1..])
    ensures |x| <= |name| && name[|name| - |x|..] == x
  {
    LastDotIsLast(name);
    var x := name[SuffixStart(name)..];
    assert x != [] ==> forall j :: 1 <= j < |x| ==> x[j] == name[SuffixStart(name) + j];
    x
  }

  /** pathlib's `stem`: the name without its suffix. */
  function Stem(name: string): (st: string)
    ensures st + Suffix(name) == name
  {
    var st := name[..SuffixStart(name)];
    assert st + name[SuffixStart(name)..] == name;
    st
  }

  /** The stem and the suffix split a name. */
  lemma StemSuffix(name: string)
    ensures Stem(name) + Suffix(name) == name
  {
  }

  /** A name that has the spreadsheet suffix is its stem followed by that suffix. */
  lemma SpreadsheetName(name: string)
    requires Suffix(name) == SpreadsheetSuffix
    ensures name == Stem(name) + SpreadsheetSuffix
  {
    StemSuffix(name);
  }

  /** Round trip: appending an extension without further dots to a non-empty
      stem gives a name whose suffix and stem are exactly those parts. */
  lemma AddSuffix(stem: string, ext: string)
    requires |stem| > 0 && |ext| >= 2 && ext[0] == '.' && '.' !in ext[1..]
    ensures Suffix(stem + ext) == ext
    ensures Stem(stem + ext) == stem
  {
    var name := stem + ext;
    var i := LastDot(name);
    LastDotIsLast(name);
    assert name[|stem|] == '.';
    forall j | |stem| < j < |name|
      ensures name[j] != '.'
    {
      assert name[j] == ext[1..][j - |stem| - 1];
    }
    assert i == |stem|;
    assert name[i..] == ext;
    assert name[..i] == stem;
  }
}
