/**
 * The name of the file a decoded document is written to: the input path
 * with its extension (as Go's `filepath.Ext` finds it on a system whose
 * separator is `/`) cut off, followed by `_decoded.yaml`.
 */
module Paths {

  const Suffix: string := "_decoded.yaml"

  /**
   * Scans `path[..j]` backwards, as `filepath.Ext` does, for the last dot
   * of the last path element; `|path|` when that element has none.
   */
  function ExtStartBefore(path: string, j: nat): (i: nat)
    requires j <= |path|
    ensures i == |path| || (i < j && path[i] == '.')
    ensures forall m :: i < m < j ==> path[m] != '/'
    ensures i == |path| ==> forall m :: 0 <= m < j && (forall q :: m < q < j ==> path[q] != '/') ==> path[m] != '.'
    ensures i < |path| ==> forall m :: i < m < j ==> path[m] != '.'
    decreases j
  {
    if j == 0 || path[j - 1] == '/' then |path|
    else if path[j - 1] == '.' then j - 1
    else ExtStartBefore(path, j - 1)
  }

  /**
   * Where the extension of `path` starts: at the last dot of the last path
   * element, or at the end when that element has no dot.
   */
  function ExtStart(path: string): (i: nat)
    ensures i <= |path|
    ensures i < |path| ==> path[i] == '.'
    ensures forall m :: i < m < |path| ==> path[m] != '/' && path[m] != '.'
    ensures i == |path| ==> forall m :: 0 <= m < |path| && (forall q :: m < q < |path| ==> path[q] != '/') ==> path[m] != '.'
  {
    ExtStartBefore(path, |path|)
  }

  /** `filepath.Ext`. */
  function Ext(path: string): string
  {
    path[ExtStart(path)..]
  }

  /** The output file name: `path` without its extension, then `_decoded.yaml`. */
  function OutputName(path: string): (r: string)
    ensures r == path[..|path| - |Ext(path)|] + Suffix
    ensures r != path
  {
    var r := path[..ExtStart(path)] + Suffix;
    assert r[ExtStart(path)] == '_';
    r
  }

  /**
   * A `.yaml` input keeps its directory and base name and gains
   * `_decoded` before its extension, so the output name is eight
   * characters longer than the input's.
   */
  lemma OutputNameOfYaml(stem: string)
    ensures OutputName(stem + ".yaml") == stem + Suffix
    ensures |OutputName(stem + ".yaml")| == |stem + ".yaml"| + 8
  {
    var path := stem + ".yaml";
    assert path[|stem|] == '.';
    assert forall m :: |stem| < m < |path| ==> path[m] != '/' && path[m] != '.';
    assert ExtStart(path) == |stem|;
    assert path[..|stem|] == stem;
  }
}
