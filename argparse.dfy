/**
 * Command-line argument handling of cargo-cov (cargo-cov/src/argparse.rs):
 * `normalize` pulls the special options out of the arguments forwarded to
 * cargo, and `is_rustc_compiling_local_crate` decides from rustc's arguments
 * whether the crate being compiled lies in the workspace. Arguments are text.
 */
module ArgParse {
  import opened Options
  import opened Text
  import Paths

  /** `SPECIALS`: the options every cargo-cov subcommand needs to know. */
  const SPECIALS: set<string> := {"manifest-path", "target", "profiler"}

  /** `RUSTC_FLAGS_WITH_VALUES`: rustc flags whose value is the next argument. */
  const RUSTC_FLAGS_WITH_VALUES: set<string> := {
    "--allow", "--cap-lints", "--cfg", "--codegen", "--color", "--crate-name",
    "--crate-type", "--deny", "--emit", "--error-format", "--explain", "--extern",
    "--forbid", "--out-dir", "--pretty", "--print", "--sysroot", "--target",
    "--unpretty", "--warn", "-A", "-C", "-D", "-F", "-l", "-L", "-o", "-W", "-Z"}

  /** What `normalize` carries from one argument to the next. */
  datatype NormState = NormState(
    normalized: seq<string>,
    specialized: map<string, string>,
    currentName: Option<string>,
    afterDoubleMinus: bool)

  /** The state before the first argument, given the special values already known. */
  function Start(specialized: map<string, string>): NormState
  {
    NormState([], specialized, None, false)
  }

  /** What one argument does: it is a pending option's value, a special option, or forwarded. */
  function NormStep(st: NormState, arg: string): NormState
  {
    if st.afterDoubleMinus then st.(normalized := st.normalized + [arg])
    else if st.currentName.Some? then st.(specialized := st.specialized[st.currentName.value := arg], currentName := None)
    else if StartsWith(arg, "--") then
      var s := arg[2..];
      if s == "" then st.(afterDoubleMinus := true, normalized := st.normalized + [arg])
      else if s in SPECIALS then st.(currentName := Some(s))
      else match Find(s, '=')
        case Some(i) =>
          if s[..i] in SPECIALS then st.(specialized := st.specialized[s[..i] := s[i + 1..]])
          else st.(normalized := st.normalized + [arg])
        case None => st.(normalized := st.normalized + [arg])
    else st.(normalized := st.normalized + [arg])
  }

  /** The state after the arguments `args`, one `NormStep` each. */
  function NormAll(st: NormState, args: seq<string>): NormState
  {
    if args == [] then st else NormStep(NormAll(st, args[..|args| - 1]), args[|args| - 1])
  }

  /**
   * `normalize`: returns the arguments to forward and the special values
   * found, added to `specialized`.
   */
  method Normalize(args: seq<string>, specialized: map<string, string>)
    returns (normalized: seq<string>, newSpecialized: map<string, string>)
    ensures normalized == NormAll(Start(specialized), args).normalized
    ensures newSpecialized == NormAll(Start(specialized), args).specialized
  {
    normalized := [];
    newSpecialized := specialized;
    var currentName: Option<string> := None;
    var encounteredDoubleMinus := false;
    for k := 0 to |args|
      invariant NormAll(Start(specialized), args[..k]) ==
        NormState(normalized, newSpecialized, currentName, encounteredDoubleMinus)
    {
      assert args[..k + 1][..k] == args[..k];
      var arg := args[k];
      if !encounteredDoubleMinus {
        if currentName.Some? {
          newSpecialized := newSpecialized[currentName.value := arg];
          currentName := None;
          continue;
        }
        if |arg| >= 2 && arg[..2] == "--" {
          var s := arg[2..];
          if s == "" {
            encounteredDoubleMinus := true;
          } else if s in SPECIALS {
            currentName := Some(s);
            continue;
          } else {
            var eqIndex := Find(s, '=');
            if eqIndex.Some? && s[..eqIndex.value] in SPECIALS {
              newSpecialized := newSpecialized[s[..eqIndex.value] := s[eqIndex.value + 1..]];
              continue;
            }
          }
        }
      }
      normalized := normalized + [arg];
    }
    assert args[..|args|] == args;
  }

  /** Running through `xs` and then `ys` is running through `xs + ys`. */
  lemma {:induction false} NormAllAppend(st: NormState, xs: seq<string>, ys: seq<string>)
    ensures NormAll(st, xs + ys) == NormAll(NormAll(st, xs), ys)
  {
    if ys == [] {
      assert xs + ys == xs;
    } else {
      assert (xs + ys)[..|xs + ys| - 1] == xs + ys[..|ys| - 1];
      NormAllAppend(st, xs, ys[..|ys| - 1]);
    }
  }

  /** After a bare `--`, every argument is forwarded verbatim and no special value changes. */
  lemma {:induction false} AfterDoubleMinusForwarded(st: NormState, args: seq<string>)
    requires st.afterDoubleMinus
    ensures NormAll(st, args) == st.(normalized := st.normalized + args)
  {
    if args != [] {
      AfterDoubleMinusForwarded(st, args[..|args| - 1]);
      assert st.normalized + args[..|args| - 1] + [args[|args| - 1]] == st.normalized + args;
    }
  }

  /** A bare `--` is itself forwarded, and so is everything after it, special or not. */
  lemma DoubleMinusForwardsRest(st: NormState, rest: seq<string>)
    requires st.currentName.None? && !st.afterDoubleMinus
    ensures NormAll(st, ["--"] + rest).normalized == st.normalized + ["--"] + rest
    ensures NormAll(st, ["--"] + rest).specialized == st.specialized
  {
    NormAllAppend(st, ["--"], rest);
    assert NormAll(st, ["--"]) == NormStep(st, "--") by {
      assert ["--"][..0] == [];
    }
    AfterDoubleMinusForwarded(NormStep(st, "--"), rest);
  }

  /** `--NAME VALUE` for a special NAME records VALUE under NAME and forwards neither argument. */
  lemma SpecialWithValue(st: NormState, name: string, value: string)
    requires st.currentName.None? && !st.afterDoubleMinus && name in SPECIALS
    ensures NormAll(st, ["--" + name, value]) == st.(specialized := st.specialized[name := value])
  {
    var opt := "--" + name;
    assert opt[..2] == "--" && opt[2..] == name;
    assert NormAll(st, [opt]) == st.(currentName := Some(name)) by {
      assert [opt][..0] == [];
    }
    assert [opt, value][..1] == [opt];
  }

  /** `--NAME=VALUE` for a special NAME records VALUE under NAME and is not forwarded. */
  lemma SpecialWithEquals(st: NormState, name: string, value: string)
    requires st.currentName.None? && !st.afterDoubleMinus && name in SPECIALS
    ensures NormAll(st, ["--" + name + "=" + value]) == st.(specialized := st.specialized[name := value])
  {
    var arg := "--" + name + "=" + value;
    var s := arg[2..];
    assert arg[..2] == "--" && s == name + "=" + value;
    SpecialWithValueParts(name, value);
    assert NormAll(st, [arg]) == NormStep(st, arg) by {
      assert [arg][..0] == [];
    }
  }

  /** `NAME=VALUE` for a special NAME is not itself special, and its first `=` splits it back into NAME and VALUE. */
  lemma SpecialWithValueParts(name: string, value: string)
    requires name in SPECIALS
    ensures var s := name + "=" + value;
      s !in SPECIALS && Find(s, '=') == Some(|name|) && s[..|name|] == name && s[|name| + 1..] == value
  {
    var s := name + "=" + value;
    SpecialsLackEquals();
    assert s[|name|] == '=';
    assert !Lacks(s, '=');
    FindAfter(name, "=" + value, '=');
    assert s[..|name|] == name;
    assert s[|name| + 1..] == value;
  }

  /** No special option name contains `=`. */
  lemma SpecialsLackEquals()
    ensures forall n :: n in SPECIALS ==> Lacks(n, '=')
  {
    assert Lacks("manifest-path", '=') && Lacks("target", '=') && Lacks("profiler", '=');
  }

  /** A later special option overwrites the value an earlier one stored for the same name. */
  lemma LaterSpecialWins(st: NormState, name: string, first: string, second: string)
    requires st.currentName.None? && !st.afterDoubleMinus && name in SPECIALS
    ensures var r := NormAll(st, ["--" + name, first, "--" + name, second]).specialized;
      name in r && r[name] == second
  {
    var pair1, pair2 := ["--" + name, first], ["--" + name, second];
    assert pair1 + pair2 == ["--" + name, first, "--" + name, second];
    NormAllAppend(st, pair1, pair2);
    SpecialWithValue(st, name, first);
    SpecialWithValue(NormAll(st, pair1), name, second);
  }

  /** `xs` is `ys` with some elements left out, the rest kept in order. */
  predicate Subsequence(xs: seq<string>, ys: seq<string>)
    decreases |ys|
  {
    if xs == [] then true
    else if ys == [] then false
    else if xs[|xs| - 1] == ys[|ys| - 1] then Subsequence(xs[..|xs| - 1], ys[..|ys| - 1])
    else Subsequence(xs, ys[..|ys| - 1])
  }

  /** Adding an element to the end of both keeps a subsequence one. */
  lemma {:induction false} SubsequenceSkip(xs: seq<string>, ys: seq<string>, y: string)
    requires Subsequence(xs, ys)
    ensures Subsequence(xs, ys + [y])
    decreases |ys|, 1
  {
    if xs != [] {
      assert (ys + [y])[..|ys|] == ys;
      if xs[|xs| - 1] != y {
      } else {
        // The last element matches `y`; the rest must still be a subsequence of `ys`.
        SubsequenceDropLast(xs, ys);
      }
    }
  }

  /** Dropping the last element of a subsequence keeps it one. */
  lemma {:induction false} SubsequenceDropLast(xs: seq<string>, ys: seq<string>)
    requires xs != [] && Subsequence(xs, ys)
    ensures Subsequence(xs[..|xs| - 1], ys)
    decreases |ys|, 0
  {
    var n := |ys| - 1;
    if xs[|xs| - 1] == ys[n] {
      SubsequenceSkip(xs[..|xs| - 1], ys[..n], ys[n]);
      assert ys[..n] + [ys[n]] == ys;
    } else {
      SubsequenceDropLast(xs, ys[..n]);
      SubsequenceSkip(xs[..|xs| - 1], ys[..n], ys[n]);
      assert ys[..n] + [ys[n]] == ys;
    }
  }

  /** The forwarded arguments are the input minus the consumed special ones, in their original order. */
  lemma {:induction false} NormalizeKeepsOrder(args: seq<string>, specialized: map<string, string>)
    ensures Subsequence(NormAll(Start(specialized), args).normalized, args)
  {
    if args != [] {
      var n := |args| - 1;
      var before := NormAll(Start(specialized), args[..n]);
      NormalizeKeepsOrder(args[..n], specialized);
      assert args[..n] + [args[n]] == args;
      var after := NormStep(before, args[n]);
      if after.normalized == before.normalized {
        SubsequenceSkip(before.normalized, args[..n], args[n]);
      } else {
        assert after.normalized == before.normalized + [args[n]];
        assert after.normalized[..|after.normalized| - 1] == before.normalized;
      }
    }
  }

  /**
   * An argument `normalize` does not consume: one not starting with `--`,
   * or `--` followed by a name that is neither special nor, up to its
   * first `=`, a special one.
   */
  predicate Ordinary(arg: string)
  {
    !StartsWith(arg, "--") ||
      var s := arg[2..];
      s != "" && s !in SPECIALS && (Find(s, '=').None? || s[..Find(s, '=').value] !in SPECIALS)
  }

  /** With no option pending and before `--`, an ordinary argument is forwarded and nothing else changes. */
  lemma OrdinaryForwarded(st: NormState, arg: string)
    requires st.currentName.None? && !st.afterDoubleMinus && Ordinary(arg)
    ensures NormStep(st, arg) == st.(normalized := st.normalized + [arg])
  {
  }

  /** A run of ordinary arguments is forwarded whole, in order, and leaves the special values alone. */
  lemma {:induction false} OrdinaryArgsForwarded(st: NormState, args: seq<string>)
    requires st.currentName.None? && !st.afterDoubleMinus
    requires forall k :: 0 <= k < |args| ==> Ordinary(args[k])
    ensures NormAll(st, args) == st.(normalized := st.normalized + args)
  {
    if args != [] {
      var n := |args| - 1;
      OrdinaryArgsForwarded(st, args[..n]);
      OrdinaryForwarded(NormAll(st, args[..n]), args[n]);
      assert st.normalized + args[..n] + [args[n]] == st.normalized + args;
    }
  }

  /** Later arguments only add to the forwarded ones. */
  lemma {:induction false} NormalizedGrows(st: NormState, args: seq<string>)
    ensures st.normalized <= NormAll(st, args).normalized
  {
    if args != [] {
      NormalizedGrows(st, args[..|args| - 1]);
    }
  }

  /**
   * An ordinary argument met with no option pending and before `--` is
   * forwarded: it is the forwarded argument right after those forwarded
   * before it.
   */
  lemma OrdinaryKept(args: seq<string>, specialized: map<string, string>, i: nat)
    requires i < |args| && Ordinary(args[i])
    requires var st := NormAll(Start(specialized), args[..i]); st.currentName.None? && !st.afterDoubleMinus
    ensures var before := NormAll(Start(specialized), args[..i]).normalized;
      var r := NormAll(Start(specialized), args).normalized;
      |before| < |r| && r[|before|] == args[i]
  {
    var st := NormAll(Start(specialized), args[..i]);
    assert args[..i] + [args[i]] + args[i + 1..] == args;
    assert (args[..i] + [args[i]])[..i] == args[..i];
    OrdinaryForwarded(st, args[i]);
    NormAllAppend(Start(specialized), args[..i] + [args[i]], args[i + 1..]);
    NormalizedGrows(NormStep(st, args[i]), args[i + 1..]);
  }

  // ----- is_rustc_compiling_local_crate -----

  /**
   * The decision `is_rustc_compiling_local_crate` reaches from the remaining
   * arguments, `skipNext` saying whether the first of them is a flag's value.
   */
  function LocalCrateFrom(args: seq<string>, skipNext: bool, workspace: string): bool
  {
    if args == [] then false
    else if skipNext then LocalCrateFrom(args[1..], false, workspace)
    else if args[0] in RUSTC_FLAGS_WITH_VALUES then LocalCrateFrom(args[1..], true, workspace)
    else if args[0] == "--" then false
    else if StartsWith(args[0], "-") then LocalCrateFrom(args[1..], false, workspace)
    else Paths.PathStartsWith(args[0], workspace)
  }

  /** `is_rustc_compiling_local_crate`: the first positional argument is the crate's path. */
  method IsRustcCompilingLocalCrate(args: seq<string>, workspace: string) returns (r: bool)
    ensures r == LocalCrateFrom(args, false, workspace)
  {
    var skipNext := false;
    for k := 0 to |args|
      invariant LocalCrateFrom(args[k..], skipNext, workspace) == LocalCrateFrom(args, false, workspace)
    {
      assert args[k..][1..] == args[k + 1..];
      var arg := args[k];
      if skipNext {
        skipNext := false;
        continue;
      }
      if arg in RUSTC_FLAGS_WITH_VALUES {
        skipNext := true;
        continue;
      } else if arg == "--" {
        return false;
      } else if |arg| >= 1 && arg[0] == '-' {
        continue;
      }
      return Paths.PathStartsWith(arg, workspace);
    }
    return false;
  }

  /** An argument that is an option, neither `--` nor a flag taking a value. */
  predicate PlainOption(arg: string)
  {
    StartsWith(arg, "-") && arg != "--" && arg !in RUSTC_FLAGS_WITH_VALUES
  }

  /** Without a positional argument (and without `--`), the crate is not local. */
  lemma {:induction false} NoPositionalNotLocal(args: seq<string>, workspace: string)
    requires forall k :: 0 <= k < |args| ==> PlainOption(args[k])
    ensures !LocalCrateFrom(args, false, workspace)
  {
    if args != [] {
      NoPositionalNotLocal(args[1..], workspace);
    }
  }

  /** Options before the crate path are passed over, so the crate path alone decides. */
  lemma {:induction false} FirstPositionalDecides(options: seq<string>, path: string, rest: seq<string>, workspace: string)
    requires forall k :: 0 <= k < |options| ==> PlainOption(options[k])
    requires path !in RUSTC_FLAGS_WITH_VALUES && !StartsWith(path, "-")
    ensures LocalCrateFrom(options + [path] + rest, false, workspace) == Paths.PathStartsWith(path, workspace)
  {
    if options == [] {
      assert options + [path] + rest == [path] + rest;
    } else {
      assert (options + [path] + rest)[1..] == options[1..] + [path] + rest;
      FirstPositionalDecides(options[1..], path, rest, workspace);
    }
  }

  /** A `--` met before the crate path ends the search: the crate is not local. */
  lemma {:induction false} DoubleMinusNotLocal(options: seq<string>, rest: seq<string>, workspace: string)
    requires forall k :: 0 <= k < |options| ==> PlainOption(options[k])
    ensures !LocalCrateFrom(options + ["--"] + rest, false, workspace)
  {
    if options == [] {
      assert options + ["--"] + rest == ["--"] + rest;
      assert "--" !in RUSTC_FLAGS_WITH_VALUES;
    } else {
      assert (options + ["--"] + rest)[1..] == options[1..] + ["--"] + rest;
      DoubleMinusNotLocal(options[1..], rest, workspace);
    }
  }

  /** A flag taking a value hides its value, even one that looks like a crate path or `--`. */
  lemma FlagValueSkipped(flag: string, value: string, rest: seq<string>, workspace: string)
    requires flag in RUSTC_FLAGS_WITH_VALUES
    ensures LocalCrateFrom([flag, value] + rest, false, workspace) == LocalCrateFrom(rest, false, workspace)
  {
    assert ([flag, value] + rest)[1..][1..] == rest;
  }
}
