/**
 * Source path categorisation of cargo-cov (cargo-cov/src/sourcepath.rs): the
 * kind of a source path named in a GCNO file (workspace, macro, Rust standard
 * library, registry crate, unknown) and how much of its front to hide.
 */
module SourcePath {
  import opened Text

  /** The `SourceType` bit flags. */
  type SourceType = bv8

  const SOURCE_TYPE_LOCAL: SourceType := 1
  const SOURCE_TYPE_MACROS: SourceType := 2
  const SOURCE_TYPE_UNKNOWN: SourceType := 4
  const SOURCE_TYPE_CRATES: SourceType := 8
  const SOURCE_TYPE_RUSTSRC: SourceType := 16
  /** The kinds shown unless asked otherwise: local, macros, unknown. */
  const SOURCE_TYPE_DEFAULT: SourceType := SOURCE_TYPE_LOCAL | SOURCE_TYPE_MACROS | SOURCE_TYPE_UNKNOWN
  /** `SourceType::all()`: every defined flag. */
  const SOURCE_TYPE_ALL: SourceType := 31

  /** Where Travis CI's macOS builders kept the Rust sources of the standard library. */
  const MACOS_RUSTSRC_DIR := "/Users/travis/build/rust-lang/rust/"
  /** Where the Docker-based builders kept them. */
  const DOCKER_RUSTSRC_DIR := "/checkout/"
  /** Where AppVeyor's Windows builders kept them. */
  const WINDOWS_RUSTSRC_DIR := "C:\\projects\\rust\\"

  const MAIN_SEPARATOR: char := '/'

  /** `FromStr for SourceType`: a flag set, or the unit error `UnsupportedSourceTypeName`. */
  datatype Parsed = Parsed(flags: SourceType) | UnsupportedSourceTypeName

  /** `SourceType::from_str`: the five kind names and `all`. */
  function FromStr(s: string): (r: Parsed)
    ensures r.Parsed? <==> s in {"local", "macros", "rustsrc", "crates", "unknown", "all"}
    ensures r.Parsed? ==> r.flags & SOURCE_TYPE_ALL == r.flags && r.flags != 0
  {
    match s
    case "local" => Parsed(SOURCE_TYPE_LOCAL)
    case "macros" => Parsed(SOURCE_TYPE_MACROS)
    case "rustsrc" => Parsed(SOURCE_TYPE_RUSTSRC)
    case "crates" => Parsed(SOURCE_TYPE_CRATES)
    case "unknown" => Parsed(SOURCE_TYPE_UNKNOWN)
    case "all" => Parsed(SOURCE_TYPE_ALL)
    case _ => UnsupportedSourceTypeName
  }

  /** The union of the flags the names stand for (all of them parse). */
  function UnionOf(names: seq<string>): SourceType
    requires forall k :: 0 <= k < |names| ==> FromStr(names[k]).Parsed?
  {
    if names == [] then 0 else UnionOf(names[..|names| - 1]) | FromStr(names[|names| - 1]).flags
  }

  /** `SourceType::from_multi_str`: the union of all the names' flags, or the error of the first name that fails. */
  method FromMultiStr(names: seq<string>) returns (r: Parsed)
    ensures r.Parsed? <==> forall k :: 0 <= k < |names| ==> FromStr(names[k]).Parsed?
    ensures r.Parsed? ==> r.flags == UnionOf(names)
  {
    var res: SourceType := 0;
    for k := 0 to |names|
      invariant forall j :: 0 <= j < k ==> FromStr(names[j]).Parsed?
      invariant res == UnionOf(names[..k])
    {
      assert names[..k + 1][..k] == names[..k];
      var parsed := FromStr(names[k]);
      if parsed.UnsupportedSourceTypeName? {
        return UnsupportedSourceTypeName;
      }
      res := res | parsed.flags;
    }
    assert names[..|names|] == names;
    return Parsed(res);
  }

  /** Each name's flags are in the union, and the union holds nothing else. */
  lemma {:induction false} UnionOfNames(names: seq<string>)
    requires forall k :: 0 <= k < |names| ==> FromStr(names[k]).Parsed?
    ensures forall k :: 0 <= k < |names| ==> UnionOf(names) & FromStr(names[k]).flags == FromStr(names[k]).flags
    ensures UnionOf(names) & SOURCE_TYPE_ALL == UnionOf(names)
  {
    if names != [] {
      var n := |names| - 1;
      UnionOfNames(names[..n]);
      forall k | 0 <= k < |names|
        ensures UnionOf(names) & FromStr(names[k]).flags == FromStr(names[k]).flags
      {
        if k < n {
          assert names[..n][k] == names[k];
        }
      }
    }
  }

  /** `SourceType::prefix`: what replaces the hidden front of a path of exactly one kind. */
  function Prefix(t: SourceType): (r: string)
    ensures t == SOURCE_TYPE_LOCAL ==> r == "."
    ensures t == SOURCE_TYPE_RUSTSRC ==> r == "\U{AB}rust\U{BB}"
    ensures t == SOURCE_TYPE_CRATES ==> r == "\U{AB}crates\U{BB}"
    ensures t !in {SOURCE_TYPE_LOCAL, SOURCE_TYPE_RUSTSRC, SOURCE_TYPE_CRATES} ==> r == ""
  {
    if t == SOURCE_TYPE_LOCAL then "."
    else if t == SOURCE_TYPE_RUSTSRC then "\U{AB}rust\U{BB}"
    else if t == SOURCE_TYPE_CRATES then "\U{AB}crates\U{BB}"
    else ""
  }

  /**
   * `identify_source_path`: the kind of `path` and the length of its front
   * to hide. `registryPath` is `$CARGO_HOME/registry/src/` (ending in the
   * separator), which the program reads from its environment. A workspace
   * path wins over every other test; a registry path hides the registry and
   * the crate's directory; macro and unknown paths hide nothing.
   */
  function IdentifySourcePath(path: string, cratesPath: string, registryPath: string): (r: (SourceType, nat))
    ensures r.0 in {SOURCE_TYPE_LOCAL, SOURCE_TYPE_MACROS, SOURCE_TYPE_UNKNOWN, SOURCE_TYPE_CRATES, SOURCE_TYPE_RUSTSRC}
    ensures r.1 <= |path|
    ensures StartsWith(path, cratesPath) <==> r.0 == SOURCE_TYPE_LOCAL
    ensures r.0 == SOURCE_TYPE_LOCAL ==> r.1 == |cratesPath|
    ensures r.0 == SOURCE_TYPE_CRATES ==> StartsWith(path, registryPath) && |registryPath| <= r.1
    ensures r.0 == SOURCE_TYPE_CRATES && r.1 > |registryPath| ==>
      path[r.1 - 1] == MAIN_SEPARATOR && Lacks(path[|registryPath|..r.1 - 1], MAIN_SEPARATOR)
    ensures r.0 == SOURCE_TYPE_CRATES && r.1 == |registryPath| ==> Lacks(path[r.1..], MAIN_SEPARATOR)
    ensures r.0 == SOURCE_TYPE_MACROS <==>
      (!StartsWith(path, cratesPath) && !StartsWith(path, registryPath) && StartsWith(path, "<") && EndsWith(path, " macros>"))
    ensures r.0 == SOURCE_TYPE_MACROS || r.0 == SOURCE_TYPE_UNKNOWN ==> r.1 == 0
    ensures r.0 == SOURCE_TYPE_RUSTSRC ==>
      (StartsWith(path, MACOS_RUSTSRC_DIR) && r.1 == |MACOS_RUSTSRC_DIR|) ||
      (StartsWith(path, DOCKER_RUSTSRC_DIR) && r.1 == |DOCKER_RUSTSRC_DIR|) ||
      (StartsWith(path, WINDOWS_RUSTSRC_DIR) && r.1 == |WINDOWS_RUSTSRC_DIR|)
  {
    if StartsWith(path, cratesPath) then (SOURCE_TYPE_LOCAL, |cratesPath|)
    else if StartsWith(path, registryPath) then
      var subpath := path[|registryPath|..];
      var firstSlash := match Find(subpath, MAIN_SEPARATOR) case None => 0 case Some(s) => s + 1;
      (SOURCE_TYPE_CRATES, |registryPath| + firstSlash)
    else if StartsWith(path, "<") && EndsWith(path, " macros>") then (SOURCE_TYPE_MACROS, 0)
    else if StartsWith(path, MACOS_RUSTSRC_DIR) then (SOURCE_TYPE_RUSTSRC, |MACOS_RUSTSRC_DIR|)
    else if StartsWith(path, DOCKER_RUSTSRC_DIR) then (SOURCE_TYPE_RUSTSRC, |DOCKER_RUSTSRC_DIR|)
    else if StartsWith(path, WINDOWS_RUSTSRC_DIR) then (SOURCE_TYPE_RUSTSRC, |WINDOWS_RUSTSRC_DIR|)
    else (SOURCE_TYPE_UNKNOWN, 0)
  }

  /** The example of the doc comment: a macOS builder path is the standard library, shown under `«rust»`. */
  lemma MacosStandardLibrary(cratesPath: string, registryPath: string)
    requires !StartsWith(MACOS_RUSTSRC_DIR + "src/libstd/lib.rs", cratesPath)
    requires !StartsWith(MACOS_RUSTSRC_DIR + "src/libstd/lib.rs", registryPath)
    ensures var path := MACOS_RUSTSRC_DIR + "src/libstd/lib.rs";
      var (t, strip) := IdentifySourcePath(path, cratesPath, registryPath);
      t == SOURCE_TYPE_RUSTSRC && Prefix(t) + "/" + path[strip..] == "\U{AB}rust\U{BB}/src/libstd/lib.rs"
  {
    var path := MACOS_RUSTSRC_DIR + "src/libstd/lib.rs";
    assert path[..|MACOS_RUSTSRC_DIR|] == MACOS_RUSTSRC_DIR;
    assert path[0] == '/';
    assert !StartsWith(path, "<") by {
      assert "<"[0] == '<';
    }
  }
}
