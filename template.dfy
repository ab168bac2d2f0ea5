/**
 * The report template filters of cargo-cov (cargo-cov/src/template.rs) that
 * work on paths and missing values: `filename`, `simplify_source_path` and
 * `coalesce`. A filter takes the JSON value it is applied to and the map of
 * named options written at the call, and returns a value or a message.
 */
module Template {
  import opened Text
  import opened SourcePath

  /** A JSON value, as `serde_json::Value`; numbers are whole here. */
  datatype Value =
    | Null
    | Bool(b: bool)
    | Number(n: int)
    | String(s: string)
    | Array(items: seq<Value>)
    | Object(fields: map<string, Value>)

  /** `tera::Result<Value>`: a value, or an error carrying its message. */
  datatype FilterResult = Ok(value: Value) | Err(message: string)

  /** The options written at a filter call. */
  type Options = map<string, Value>

  /**
   * `filename`: the part of a path after its last separator, the whole path
   * when there is none. The result is the longest end of the path without a
   * separator.
   */
  function FileNameFilter(value: Value, options: Options): (r: FilterResult)
    ensures r.Err? <==> !value.String?
    ensures r.Err? ==> r.message == "expecting path"
    ensures r.Ok? ==> r.value.String? && EndsWith(value.s, r.value.s) && Lacks(r.value.s, MAIN_SEPARATOR)
    ensures r.Ok? && |r.value.s| < |value.s| ==> value.s[|value.s| - |r.value.s| - 1] == MAIN_SEPARATOR
  {
    if !value.String? then Err("expecting path")
    else
      var path := value.s;
      var start := match RFind(path, MAIN_SEPARATOR) case None => 0 case Some(s) => s + 1;
      Ok(String(path[start..]))
  }

  /**
   * `simplify_source_path`: the path with its hidden front replaced by the
   * kind's prefix and a separator; macro paths stay as they are. The
   * `crate_path` option, with a separator added, is the workspace root, and
   * `registryPath` the registry's source directory.
   */
  function SimplifySourcePath(value: Value, options: Options, registryPath: string): (r: FilterResult)
    ensures !value.String? ==> r == Err("expecting source path")
    ensures value.String? && !("crate_path" in options && options["crate_path"].String?) ==>
      r == Err("simplify_source_path should provide the crate_path")
    ensures r.Ok? <==> value.String? && "crate_path" in options && options["crate_path"].String?
    ensures r.Ok? ==> r.value.String?
    ensures r.Ok? ==>
      var (t, strip) := IdentifySourcePath(value.s, options["crate_path"].s + [MAIN_SEPARATOR], registryPath);
      (t == SOURCE_TYPE_MACROS ==> r.value.s == value.s) &&
      (t != SOURCE_TYPE_MACROS ==>
        && EndsWith(r.value.s, value.s[strip..])
        && StartsWith(r.value.s, Prefix(t) + [MAIN_SEPARATOR])
        && |r.value.s| == |Prefix(t)| + 1 + |value.s| - strip)
  {
    if !value.String? then Err("expecting source path")
    else if !("crate_path" in options && options["crate_path"].String?) then
      Err("simplify_source_path should provide the crate_path")
    else
      var path := value.s;
      var cratePath := options["crate_path"].s + [MAIN_SEPARATOR];
      var (sourceType, strippedLen) := IdentifySourcePath(path, cratePath, registryPath);
      if sourceType == SOURCE_TYPE_MACROS then Ok(String(path))
      else
        var simplified := Prefix(sourceType) + [MAIN_SEPARATOR] + path[strippedLen..];
        assert simplified[..|Prefix(sourceType)| + 1] == Prefix(sourceType) + [MAIN_SEPARATOR];
        assert simplified[|simplified| - |path[strippedLen..]|..] == path[strippedLen..];
        Ok(String(simplified))
  }

  /** A file of the workspace is shown relative to it: `crate/src/lib.rs` becomes `./src/lib.rs`. */
  lemma SimplifyLocal(cratePath: string, rest: string, registryPath: string)
    ensures SimplifySourcePath(String(cratePath + "/" + rest), map["crate_path" := String(cratePath)], registryPath)
      == Ok(String("./" + rest))
  {
    var path := cratePath + "/" + rest;
    var root := cratePath + [MAIN_SEPARATOR];
    assert path == root + rest;
    assert path[..|root|] == root;
    assert path[|root|..] == rest;
  }

  /**
   * A file of a registry crate is shown under `«crates»` without the
   * registry and the crate's own directory.
   */
  lemma SimplifyRegistryCrate(cratePath: string, registryPath: string, crateDir: string, rest: string)
    requires Lacks(crateDir, MAIN_SEPARATOR)
    requires !StartsWith(registryPath + crateDir + "/" + rest, cratePath + "/")
    ensures SimplifySourcePath(String(registryPath + crateDir + "/" + rest), map["crate_path" := String(cratePath)], registryPath)
      == Ok(String("\U{AB}crates\U{BB}/" + rest))
  {
    var path := registryPath + crateDir + "/" + rest;
    assert cratePath + [MAIN_SEPARATOR] == cratePath + "/";
    RegistryCrateIdentified(path, cratePath + "/", registryPath, crateDir, rest);
    assert path[|registryPath| + |crateDir| + 1..] == rest;
  }

  /** The crate directory of a registry file is recognised and stripped along with the registry. */
  lemma RegistryCrateIdentified(path: string, cratesPath: string, registryPath: string, crateDir: string, rest: string)
    requires path == registryPath + crateDir + "/" + rest
    requires Lacks(crateDir, MAIN_SEPARATOR) && !StartsWith(path, cratesPath)
    ensures IdentifySourcePath(path, cratesPath, registryPath) == (SOURCE_TYPE_CRATES, |registryPath| + |crateDir| + 1)
  {
    assert path[..|registryPath|] == registryPath;
    assert StartsWith(path, registryPath);
    var subpath := path[|registryPath|..];
    assert subpath == crateDir + ([MAIN_SEPARATOR] + rest);
    FindAfter(crateDir, [MAIN_SEPARATOR] + rest, MAIN_SEPARATOR);
    assert Find([MAIN_SEPARATOR] + rest, MAIN_SEPARATOR).value == 0;
    assert Find(subpath, MAIN_SEPARATOR).value == |crateDir|;
  }

  /** A path of no known kind keeps all of its text behind the empty prefix and a separator. */
  lemma SimplifyUnknown(path: string, cratePath: string, registryPath: string)
    requires IdentifySourcePath(path, cratePath + "/", registryPath).0 == SOURCE_TYPE_UNKNOWN
    ensures SimplifySourcePath(String(path), map["crate_path" := String(cratePath)], registryPath)
      == Ok(String("/" + path))
  {
    assert cratePath + [MAIN_SEPARATOR] == cratePath + "/";
    assert path[0..] == path;
  }

  /** `coalesce`: a value that is not `null` passes; `null` becomes the `default` option, which must be given. */
  function Coalesce(value: Value, options: Options): (r: FilterResult)
    ensures !value.Null? ==> r == Ok(value)
    ensures value.Null? && "default" in options ==> r == Ok(options["default"])
    ensures r.Err? <==> value.Null? && "default" !in options
    ensures r.Err? ==> r.message == "coalesce should provide default value"
  {
    if value.Null? then
      if "default" in options then Ok(options["default"]) else Err("coalesce should provide default value")
    else Ok(value)
  }

  /** Applying `coalesce` twice with the same options is applying it once, unless the default is `null` itself. */
  lemma CoalesceIdempotent(value: Value, options: Options)
    requires Coalesce(value, options).Ok?
    requires "default" in options ==> !options["default"].Null?
    ensures Coalesce(Coalesce(value, options).value, options) == Coalesce(value, options)
  {
  }
}
