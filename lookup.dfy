/**
 * Naming of the compiler-rt profiler library (cargo-cov/src/lookup.rs): the
 * target-specific part of its name, the library and file names the search
 * looks for, and how a given library path splits into the `-L` directory and
 * the `-l` name.
 */
module Lookup {
  import opened Options
  import opened Text
  import opened Paths

  /** The cargo-cov error kinds raised here. */
  datatype LookupError = NoDefaultProfilerLibrary | InvalidProfilerLibraryPath

  datatype Outcome<T> = Ok(value: T) | Err(error: LookupError)

  /** `target.split('-').next()`: the target up to its first `-`. */
  function Architecture(target: string): (r: string)
    ensures StartsWith(target, r) && Lacks(r, '-')
    ensures |r| < |target| ==> target[|r|] == '-'
  {
    match Find(target, '-')
    case None => target
    case Some(i) => target[..i]
  }

  /** A name part: no separator and no dot. */
  predicate PlainPart(part: string)
  {
    Lacks(part, '/') && Lacks(part, '.')
  }

  /** The name parts given to full target triples. */
  const TARGET_PARTS: set<string> := {"_ios", "_iossim", "_osx", "-aarch64-android", "-arm-android", "-i686-android",
    "-x86_64-android", "-mipsel-android", "-mips64el-android", "-i386", "-armhf"}

  /** The name parts given to architectures. */
  const ARCH_PARTS: set<string> := {"-aarch64", "-x86_64", "-arm", "-i386", "-i686", "-mips", "-mipsel",
    "-mips64", "-mips64el", "-powerpc64", "-powerpc64le", "-s390x"}

  /** The full target triples with a name part of their own. */
  function TargetPart(target: string): (r: Option<string>)
    ensures r.Some? ==> r.value in TARGET_PARTS
  {
    match target
    case "aarch64-apple-ios" | "armv7-apple-ios" | "armv7s-apple-ios" => Some("_ios")
    case "i386-apple-ios" | "x86_64-apple-ios" => Some("_iossim")
    case "i686-apple-darwin" | "x86_64-apple-darwin" => Some("_osx")
    case "aarch64-linux-android" => Some("-aarch64-android")
    case "arm-linux-androideabi" | "armv7-linux-androideabi" => Some("-arm-android")
    case "i686-linux-android" => Some("-i686-android")
    case "x86_64-linux-android" => Some("-x86_64-android")
    case "mipsel-linux-android" => Some("-mipsel-android")
    case "mips64el-linux-android" => Some("-mips64el-android")
    case "i586-pc-windows-msvc" | "i686-pc-windows-msvc" => Some("-i386")
    case "arm-unknown-linux-gnueabihf" | "arm-unknown-linux-musleabihf" | "armv7-unknown-linux-gnueabihf"
      | "armv7-unknown-linux-musleabihf" | "thumbv7em-none-eabihf" => Some("-armhf")
    case _ => None
  }

  /** The architectures with a name part, for every other target. */
  function ArchPart(arch: string): (r: Option<string>)
    ensures r.Some? ==> r.value in ARCH_PARTS
  {
    match arch
    case "aarch64" => Some("-aarch64")
    case "x86_64" => Some("-x86_64")
    case "arm" | "armv5te" | "thumbv6m" | "thumbv7em" | "thumbv7m" => Some("-arm")
    case "i586" => Some("-i386")
    case "i686" => Some("-i686")
    case "mips" => Some("-mips")
    case "mipsel" => Some("-mipsel")
    case "mips64" => Some("-mips64")
    case "mips64el" => Some("-mips64el")
    case "powerpc64" => Some("-powerpc64")
    case "powerpc64le" => Some("-powerpc64le")
    case "s390x" => Some("-s390x")
    case _ => None
  }

  /**
   * `profiler_name_part`: the `*` in `libclang_rt.profile*.a` for a target,
   * from its full triple when listed, else from its architecture.
   */
  function ProfilerNamePart(target: string): (r: Outcome<string>)
    ensures TargetPart(target).Some? ==> r == Ok(TargetPart(target).value)
    ensures TargetPart(target).None? && ArchPart(Architecture(target)).Some? ==> r == Ok(ArchPart(Architecture(target)).value)
    ensures r.Err? <==> TargetPart(target).None? && ArchPart(Architecture(target)).None?
    ensures r.Err? ==> r.error == NoDefaultProfilerLibrary
  {
    match TargetPart(target)
    case Some(part) => Ok(part)
    case None =>
      match ArchPart(Architecture(target))
      case Some(part) => Ok(part)
      case None => Err(NoDefaultProfilerLibrary)
  }

  /** No name part holds a separator or a dot. */
  lemma TargetPartsPlain()
    ensures forall p :: p in TARGET_PARTS ==> PlainPart(p)
  {
    assert PlainPart("_ios");
    assert PlainPart("_iossim");
    assert PlainPart("_osx");
    assert PlainPart("-aarch64-android");
    assert PlainPart("-arm-android");
    assert PlainPart("-i686-android");
    assert PlainPart("-x86_64-android");
    assert PlainPart("-mipsel-android");
    assert PlainPart("-mips64el-android");
    assert PlainPart("-i386");
    assert PlainPart("-armhf");
  }

  lemma ArchPartsPlain()
    ensures forall p :: p in ARCH_PARTS ==> PlainPart(p)
  {
  }

  /** The name part of any target is plain, so the library name it makes has no separator and no dot after `profile`. */
  lemma NamePartPlain(target: string)
    requires ProfilerNamePart(target).Ok?
    ensures PlainPart(ProfilerNamePart(target).value)
  {
    TargetPartsPlain();
    ArchPartsPlain();
  }

  /** Targets outside the table go by architecture: any `x86_64-…` triple not listed uses `-x86_64`. */
  lemma ArchitectureDecides(rest: string)
    requires TargetPart("x86_64-" + rest).None?
    ensures ProfilerNamePart("x86_64-" + rest) == Ok("-x86_64")
  {
    var t := "x86_64-" + rest;
    FindAfter("x86_64", "-" + rest, '-');
    assert t == "x86_64" + ("-" + rest);
    assert Architecture(t) == "x86_64";
  }

  /**
   * The library name `clang_rt.profile` + part and the file name searched
   * for: `NAME.lib` for MSVC targets and `libNAME.a` otherwise.
   */
  function LibraryNames(part: string, msvc: bool): (r: (string, string))
    ensures StartsWith(r.0, "clang_rt.profile") && r.0[16..] == part
    ensures msvc ==> r.1 == r.0 + ".lib"
    ensures !msvc ==> r.1 == "lib" + r.0 + ".a"
  {
    var (prefix, suffix) := if msvc then ("", ".lib") else ("lib", ".a");
    var libname := "clang_rt.profile" + part;
    (libname, prefix + libname + suffix)
  }

  /** The start of `find_native_profiler_lib`: the names for the target's name part. */
  function ProfilerLibrary(target: string): (r: Outcome<(string, string)>)
    ensures r.Err? <==> ProfilerNamePart(target).Err?
    ensures r.Err? ==> r.error == NoDefaultProfilerLibrary
    ensures r.Ok? ==> r.value == LibraryNames(ProfilerNamePart(target).value, EndsWith(target, "-msvc"))
  {
    match ProfilerNamePart(target)
    case Err(e) => Err(e)
    case Ok(part) => Ok(LibraryNames(part, EndsWith(target, "-msvc")))
  }


  /**
   * `split_profiler_lib`, as written: the file stem, without a leading `lib`
   * when the extension is `a`, and the parent directory, `.` when there is
   * none.
   */
  function SplitProfilerLib(profiler: string): (r: Outcome<(string, string)>)
    ensures r.Err? <==> FileStem(profiler).None?
    ensures r.Err? ==> r.error == InvalidProfilerLibraryPath
  {
    match FileStem(profiler)
    case None => Err(InvalidProfilerLibraryPath)
    case Some(stem) =>
      var libname := if Extension(profiler) == Some("a") && StartsWith(stem, "lib") then stem[3..] else stem;
      Ok((Parent(profiler).UnwrapOr("."), libname))
  }

  /** The last separator of `dir/name`, when `name` has none, is the one joining them. */
  lemma {:induction false} RFindJoined(a: string, b: string, c: char)
    requires Lacks(b, c)
    ensures RFind(a + [c] + b, c) == Some(|a|)
  {
    if b != [] {
      var n := |b| - 1;
      assert (a + [c] + b)[..|a + [c] + b| - 1] == a + [c] + b[..n];
      RFindJoined(a, b[..n], c);
    } else {
      assert a + [c] + b == a + [c];
    }
  }

  /** `dir/name`, for a plain name in a directory without a trailing separator, has that name and that parent. */
  lemma JoinedFileName(dir: string, name: string)
    requires dir != "" && dir[|dir| - 1] != SEPARATOR
    requires name != "" && name != ".." && Lacks(name, SEPARATOR)
    ensures FileName(dir + "/" + name) == Some(name)
    ensures Parent(dir + "/" + name) == Some(dir)
  {
    var p := dir + "/" + name;
    assert p == dir + [SEPARATOR] + name;
    assert TrimEnd(p) == p by {
      assert p[|p| - 1] == name[|name| - 1];
    }
    RFindJoined(dir, name, SEPARATOR);
    assert p[|dir| + 1..] == name;
    assert p[..|dir|] == dir;
    assert TrimEnd(dir) == dir;
  }

  /** `stem.ext`, with a stem that is not empty and an extension without a dot, splits back at that dot. */
  lemma JoinedExtension(stem: string, ext: string)
    requires stem != "" && Lacks(ext, '.')
    ensures SplitAtDot(stem + "." + ext) == (stem, Some(ext))
  {
    var name := stem + "." + ext;
    assert name == stem + ['.'] + ext;
    RFindJoined(stem, ext, '.');
    assert name[..|stem|] == stem && name[|stem| + 1..] == ext;
  }

  /**
   * A path `dir/stem.ext` (no separator in the name, no dot in the extension)
   * splits into `dir` and the stem, minus `lib` for a static library.
   */
  lemma SplitLibraryPath(dir: string, stem: string, ext: string)
    requires dir != "" && dir[|dir| - 1] != SEPARATOR
    requires stem != "" && stem != "." && Lacks(stem + "." + ext, SEPARATOR) && Lacks(ext, '.')
    ensures SplitProfilerLib(dir + "/" + stem + "." + ext) ==
      Ok((dir, if ext == "a" && StartsWith(stem, "lib") then stem[3..] else stem))
  {
    var name := stem + "." + ext;
    assert name[..|stem|] == stem;
    assert dir + "/" + stem + "." + ext == dir + "/" + name;
    JoinedFileName(dir, name);
    JoinedExtension(stem, ext);
  }

  /** The example of the source's test: `/usr/lib/libfoo.1.a` is library `foo.1` in `/usr/lib`. */
  lemma SplitUsrLibExample()
    ensures SplitProfilerLib("/usr/lib/libfoo.1.a") == Ok(("/usr/lib", "foo.1"))
  {
    var stem := "libfoo.1";
    assert "/usr/lib" + "/" + stem + "." + "a" == "/usr/lib/libfoo.1.a";
    assert Lacks(stem + "." + "a", SEPARATOR);
    assert StartsWith(stem, "lib") && stem[3..] == "foo.1";
    SplitLibraryPath("/usr/lib", stem, "a");
  }

  /** The MSVC file name `NAME.lib` splits back into `NAME`. */
  lemma ImportLibrarySplits(dir: string, libname: string)
    requires dir != "" && dir[|dir| - 1] != SEPARATOR
    requires libname != "" && libname != "." && Lacks(libname, SEPARATOR)
    ensures SplitProfilerLib(dir + "/" + (libname + ".lib")) == Ok((dir, libname))
  {
    assert Lacks(".lib", SEPARATOR);
    LacksJoined(libname, ".lib", SEPARATOR);
    assert libname + ".lib" == libname + "." + "lib";
    assert dir + "/" + (libname + ".lib") == dir + "/" + libname + "." + "lib";
    SplitLibraryPath(dir, libname, "lib");
  }

  /** The file name `libNAME.a` splits back into `NAME`. */
  lemma StaticLibrarySplits(dir: string, libname: string)
    requires dir != "" && dir[|dir| - 1] != SEPARATOR
    requires Lacks(libname, SEPARATOR)
    ensures SplitProfilerLib(dir + "/" + ("lib" + libname + ".a")) == Ok((dir, libname))
  {
    var stem := "lib" + libname;
    assert Lacks("lib", SEPARATOR) && Lacks(".a", SEPARATOR);
    LacksJoined("lib", libname, SEPARATOR);
    LacksJoined(stem, ".a", SEPARATOR);
    assert stem + ".a" == stem + "." + "a";
    assert dir + "/" + (stem + ".a") == dir + "/" + stem + "." + "a";
    assert stem[0] == 'l';
    assert StartsWith(stem, "lib") && stem[3..] == libname;
    SplitLibraryPath(dir, stem, "a");
  }

  /** For a name part without a separator, the file searched for splits back into the library name. */
  lemma LibraryNamesSplit(part: string, msvc: bool, dir: string)
    requires dir != "" && dir[|dir| - 1] != SEPARATOR
    requires Lacks(part, SEPARATOR)
    ensures var (libname, filename) := LibraryNames(part, msvc);
      SplitProfilerLib(dir + "/" + filename) == Ok((dir, libname))
  {
    var (libname, filename) := LibraryNames(part, msvc);
    assert Lacks("clang_rt.profile", SEPARATOR);
    LacksJoined("clang_rt.profile", part, SEPARATOR);
    assert libname == "clang_rt.profile" + part;
    assert libname[0] == 'c';
    if msvc {
      ImportLibrarySplits(dir, libname);
    } else {
      StaticLibrarySplits(dir, libname);
    }
  }

  /** The file the lookup searches for, split back, gives the library name the lookup reports. */
  lemma SplitFindsLibraryName(target: string, dir: string)
    requires ProfilerLibrary(target).Ok?
    requires dir != "" && dir[|dir| - 1] != SEPARATOR
    ensures var (libname, filename) := ProfilerLibrary(target).value;
      SplitProfilerLib(dir + "/" + filename) == Ok((dir, libname))
  {
    NamePartPlain(target);
    LibraryNamesSplit(ProfilerNamePart(target).value, EndsWith(target, "-msvc"), dir);
  }

  /** As written, the `.` default is never used: whenever the path has a file stem it has a parent. */
  lemma SplitDefaultUnreachable(profiler: string)
    requires SplitProfilerLib(profiler).Ok?
    ensures Parent(profiler).Some? && SplitProfilerLib(profiler).value.0 == Parent(profiler).value
  {
  }

  /** As written, a bare file name gets the empty directory rather than `.`. */
  lemma SplitBareName()
    ensures SplitProfilerLib("libfoo.a") == Ok(("", "foo"))
  {
    var p := "libfoo.a";
    assert Lacks(p, SEPARATOR);
    assert RFind(p, '.') == Some(6) by {
      RFindJoined("libfoo", "a", '.');
      assert "libfoo" + ['.'] + "a" == p;
    }
    assert p[..6] == "libfoo" && p[7..] == "a";
  }

  /** `split_profiler_lib` as evidently intended: a path without a directory part is in `.`. */
  function SplitProfilerLibIntended(profiler: string): (r: Outcome<(string, string)>)
    ensures r.Err? <==> FileStem(profiler).None?
    ensures r.Ok? ==> r.value.0 != ""
    ensures r.Ok? ==> r.value.1 == SplitProfilerLib(profiler).value.1
  {
    match SplitProfilerLib(profiler)
    case Err(e) => Err(e)
    case Ok((dir, libname)) => Ok((if dir == "" then "." else dir, libname))
  }

  /** With the intended default, a bare file name is found in `.`. */
  lemma SplitBareNameIntended()
    ensures SplitProfilerLibIntended("libfoo.a") == Ok((".", "foo"))
  {
    SplitBareName();
  }
}
