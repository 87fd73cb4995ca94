/**
 * The output-path rule of `main`: `-o` wins, then the positional output
 * argument, and otherwise the input path with its extension replaced by
 * `_converted.xlsx`. Argument parsing, the file checks and the console
 * messages around it are not modelled.
 */
module Cli {
  import opened Wrappers

  const PathSeparator := '/'
  const ExtensionSeparator := '.'
  const ConvertedSuffix := "_converted.xlsx"

  /** `p.rfind(c)`: the index of the last `c` in `p`, or -1 when there is none. */
  function LastIndexOf(p: string, c: char): (i: int)
    ensures -1 <= i < |p|
    ensures i >= 0 ==> p[i] == c
    ensures forall j :: i < j < |p| ==> p[j] != c
  {
    if p == [] then -1
    else if p[|p| - 1] == c then |p| - 1
    else LastIndexOf(p[..|p| - 1], c)
  }

  /**
   * `p` has an extension starting at index `d`: `p[d]` is the last dot of
   * `p`, no `/` follows it, and the file name holds some character other
   * than a dot before it (so `.bashrc` and `..` have no extension).
   */
  predicate HasExtensionAt(p: string, d: int) {
    && 0 <= d < |p| && p[d] == ExtensionSeparator
    && (forall k :: d < k < |p| ==> p[k] != ExtensionSeparator)
    && (forall k :: d <= k < |p| ==> p[k] != PathSeparator)
    && exists j :: 0 <= j < d && p[j] != ExtensionSeparator && forall k :: j <= k < d ==> p[k] != PathSeparator
  }

  /**
   * `os.path.splitext(p)[0]` for POSIX paths: the path without its
   * extension, which starts at the last dot of the last path component
   * unless that component has only dots before it.
   */
  function SplitExtRoot(p: string): (root: string)
    ensures |root| <= |p| && root == p[..|root|]
    ensures root != p ==> HasExtensionAt(p, |root|)
  {
    var sepIndex := LastIndexOf(p, PathSeparator);
    var dotIndex := LastIndexOf(p, ExtensionSeparator);
    if dotIndex > sepIndex && exists j :: sepIndex < j < dotIndex && p[j] != ExtensionSeparator then
      p[..dotIndex]
    else
      p
  }

  /** Conversely, a path with an extension at `d` loses exactly that extension. */
  lemma SplitExtRemoves(p: string, d: int)
    requires HasExtensionAt(p, d)
    ensures SplitExtRoot(p) == p[..d]
  {
    var sepIndex := LastIndexOf(p, PathSeparator);
    var dotIndex := LastIndexOf(p, ExtensionSeparator);
    assert dotIndex == d;
    var j :| 0 <= j < d && p[j] != ExtensionSeparator && forall k :: j <= k < d ==> p[k] != PathSeparator;
    assert sepIndex < j;
  }

  /** A command-line value Python treats as given: present and not empty. */
  predicate Given(value: Option<string>) {
    value.Some? && value.value != ""
  }

  /**
   * The output path: `-o` if given, else the positional output argument if
   * given, else the input path's root followed by `_converted.xlsx`.
   */
  function OutputPath(outputFile: Option<string>, outputExcel: Option<string>, pdfPath: string): (path: string)
    ensures Given(outputFile) ==> path == outputFile.value
    ensures !Given(outputFile) && Given(outputExcel) ==> path == outputExcel.value
    ensures !Given(outputFile) && !Given(outputExcel) ==> path == SplitExtRoot(pdfPath) + ConvertedSuffix
  {
    if Given(outputFile) then outputFile.value
    else if Given(outputExcel) then outputExcel.value
    else SplitExtRoot(pdfPath) + ConvertedSuffix
  }

  /**
   * For an input named like `report.pdf` (the name before `.pdf` ends in
   * something other than `/` or `.`), the generated output replaces `.pdf`
   * by `_converted.xlsx`.
   */
  lemma DefaultOutputPath(stem: string)
    requires stem != [] && stem[|stem| - 1] != PathSeparator && stem[|stem| - 1] != ExtensionSeparator
    ensures OutputPath(None, None, stem + ".pdf") == stem + ConvertedSuffix
  {
    var p := stem + ".pdf";
    var dotIndex := LastIndexOf(p, ExtensionSeparator);
    assert p[|stem|] == '.' && p[|stem| + 1] == 'p' && p[|stem| + 2] == 'd' && p[|stem| + 3] == 'f';
    assert dotIndex == |stem|;
    var sepIndex := LastIndexOf(p, PathSeparator);
    assert p[|stem| - 1] == stem[|stem| - 1];
    assert sepIndex < |stem| - 1;
    assert p[..dotIndex] == stem;
  }

  /** A hidden file has no extension: `.pdf` gives `.pdf_converted.xlsx`. */
  lemma HiddenFileKeepsItsName()
    ensures OutputPath(None, None, ".pdf") == ".pdf_converted.xlsx"
  {
    var p := ".pdf";
    assert p[0] == '.' && p[1] == 'p' && p[2] == 'd' && p[3] == 'f';
    assert LastIndexOf(p, ExtensionSeparator) == 0;
  }

  /** The generated output path is never the input path, so the input is never overwritten. */
  lemma DefaultOutputDiffersFromInput(pdfPath: string)
    ensures OutputPath(None, None, pdfPath) != pdfPath
  {
    var root := SplitExtRoot(pdfPath);
    var path := OutputPath(None, None, pdfPath);
    if root == pdfPath {
      assert |path| > |pdfPath|;
    } else {
      assert path[|root|] == '_' != pdfPath[|root|];
    }
  }
}
