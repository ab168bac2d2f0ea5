/**
 * The parts of Rust's `std::path::Path` the cargo-cov front end uses, for
 * Unix paths written with `/`: the component-wise prefix test, `file_name`,
 * `file_stem`, `extension` and `parent`.
 */
module Paths {
  import opened Options
  import opened Text

  /** `std::path::MAIN_SEPARATOR` on Unix. */
  const SEPARATOR: char := '/'

  /** Pieces joined with a separator between each two. */
  function Joined(parts: seq<string>): string
  {
    if parts == [] then ""
    else if |parts| == 1 then parts[0]
    else parts[0] + [SEPARATOR] + Joined(parts[1..])
  }

  /** Text cut at every separator (`a//b` gives `a`, the empty text and `b`). */
  function Split(s: string): (r: seq<string>)
    ensures |r| >= 1
    ensures forall k :: 0 <= k < |r| ==> Lacks(r[k], SEPARATOR)
    ensures Joined(r) == s
    decreases |s|
  {
    match Find(s, SEPARATOR)
    case None => [s]
    case Some(i) =>
      var rest := Split(s[i + 1..]);
      assert ([s[..i]] + rest)[1..] == rest;
      assert s[..i] + [SEPARATOR] + s[i + 1..] == s;
      [s[..i]] + rest
  }

  /** The pieces that are not empty, in order. */
  function NonEmpty(parts: seq<string>): (r: seq<string>)
    ensures forall k :: 0 <= k < |r| ==> r[k] != "" && r[k] in parts
  {
    if parts == [] then []
    else (if parts[0] == "" then [] else [parts[0]]) + NonEmpty(parts[1..])
  }

  /** `Path::components`: the root (written `/`) when the path is absolute, then the names between separators. */
  function Components(p: string): seq<string>
  {
    (if StartsWith(p, "/") then ["/"] else []) + NonEmpty(Split(p))
  }

  /** `Path::starts_with`: `base`'s components begin `p`'s, so whole names match and not mere characters. */
  predicate PathStartsWith(p: string, base: string)
  {
    var b := Components(base);
    var c := Components(p);
    |b| <= |c| && c[..|b|] == b
  }

  /** The path without trailing separators; the root stays `/`. */
  function TrimEnd(p: string): (r: string)
    ensures |r| <= |p| && r == p[..|r|]
    ensures r == "" <==> p == ""
    ensures r != "/" && r != "" ==> r[|r| - 1] != SEPARATOR
  {
    if |p| > 1 && p[|p| - 1] == SEPARATOR then TrimEnd(p[..|p| - 1]) else p
  }

  /** `Path::file_name`: the last name, unless the path is empty, the root, or ends in `..`. */
  function FileName(p: string): (r: Option<string>)
    ensures r.Some? ==> r.value != "" && Lacks(r.value, SEPARATOR)
  {
    var t := TrimEnd(p);
    if t == "" || t == "/" then None
    else
      var name := match RFind(t, SEPARATOR) case None => t case Some(i) => t[i + 1..];
      if name == ".." then None else Some(name)
  }

  /** `Path::parent`: everything before the last name; `None` only for the empty path and the root. */
  function Parent(p: string): (r: Option<string>)
    ensures r.None? <==> TrimEnd(p) == "" || TrimEnd(p) == "/"
  {
    var t := TrimEnd(p);
    if t == "" || t == "/" then None
    else match RFind(t, SEPARATOR)
      case None => Some("")
      case Some(i) => Some(if i == 0 then "/" else TrimEnd(t[..i]))
  }

  /**
   * How `file_stem` and `extension` split a file name at its last dot: no
   * dot, or a dot only in front (`.profile`), means no extension.
   */
  function SplitAtDot(name: string): (r: (string, Option<string>))
    ensures r.1.None? ==> r.0 == name
    ensures r.1.Some? ==> name == r.0 + "." + r.1.value && r.0 != "" && Lacks(r.1.value, '.')
  {
    match RFind(name, '.')
    case None => (name, None)
    case Some(i) =>
      if i == 0 then (name, None)
      else
        var before, after := name[..i], name[i + 1..];
        assert name == before + "." + after;
        (before, Some(after))
  }

  /** `Path::file_stem`. */
  function FileStem(p: string): Option<string>
  {
    match FileName(p)
    case None => None
    case Some(name) => Some(SplitAtDot(name).0)
  }

  /** `Path::extension`. */
  function Extension(p: string): Option<string>
  {
    match FileName(p)
    case None => None
    case Some(name) => SplitAtDot(name).1
  }

  /** The path has no two separators in a row. */
  predicate SingleSeparators(p: string)
  {
    forall j :: 0 <= j < |p| - 1 ==> !(p[j] == SEPARATOR && p[j + 1] == SEPARATOR)
  }

  /** `PathBuf::push` of a plain name: a separator goes between unless the directory is empty or ends in one. */
  function Join(dir: string, name: string): string
  {
    if dir == "" then name
    else if dir[|dir| - 1] == SEPARATOR then dir + name
    else dir + [SEPARATOR] + name
  }

  /** A path with a file name is its parent joined with that name (trailing separators aside). */
  lemma ParentJoinsFileName(p: string)
    requires SingleSeparators(p) && FileName(p).Some?
    ensures Parent(p).Some? && Join(Parent(p).value, FileName(p).value) == TrimEnd(p)
  {
    var t := TrimEnd(p);
    match RFind(t, SEPARATOR)
    case None =>
      assert FileName(p).value == t && Parent(p).value == "";
    case Some(i) =>
      var name := t[i + 1..];
      assert FileName(p).value == name;
      if i > 0 {
        assert t[i - 1] != SEPARATOR by {
          assert p[i - 1] == t[i - 1] && p[i] == t[i];
        }
        assert TrimEnd(t[..i]) == t[..i];
        assert Parent(p).value == t[..i];
        assert t == t[..i] + [SEPARATOR] + name;
      } else {
        assert Parent(p).value == "/";
        assert t == [SEPARATOR] + name;
      }
  }
}
