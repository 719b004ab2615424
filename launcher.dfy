/**
 * Start-up argument handling of the desktop launcher. Both entry points, the
 * library's `run_app` (src-tauri/src/lib.rs) and the binary's `main`
 * (src-tauri/src/main.rs), run the same pipeline in their setup closure:
 * skip the program name, clean every argument, keep the supported ones in
 * order, and hand the first of them (if any) to `process_and_emit_file`.
 */
module Launcher {
  import opened Wrappers
  import opened RustStr
  import opened App

  /** `std::env::args().skip(1).collect()`: the arguments after the program name. */
  function ProgramArgs(argv: seq<string>): seq<string>
  {
    if |argv| == 0 then [] else argv[1..]
  }

  /** `args.iter().map(clean_file_path)`, as a sequence. */
  function CleanAll(args: seq<string>): (r: seq<string>)
    ensures |r| == |args|
    ensures forall i :: 0 <= i < |args| ==> r[i] == CleanFilePath(args[i])
  {
    seq(|args|, i requires 0 <= i < |args| => CleanFilePath(args[i]))
  }

  /** `r` can be obtained from `s` by deleting elements, keeping the order of the rest. */
  ghost predicate IsSubsequence(r: seq<string>, s: seq<string>)
    decreases |s|
  {
    if r == [] then true
    else if s == [] then false
    else (r[0] == s[0] && IsSubsequence(r[1..], s[1..])) || IsSubsequence(r, s[1..])
  }

  /**
   * `file_args`: the cleaned arguments that pass `is_supported_file`, in
   * argument order. Every element is supported, and the list is an in-order
   * subsequence of the cleaned arguments, so never longer than `args`.
   */
  function FileArgs(args: seq<string>): (r: seq<string>)
    ensures |r| <= |args|
    ensures forall k :: 0 <= k < |r| ==> IsSupportedFile(r[k])
    ensures IsSubsequence(r, CleanAll(args))
  {
    if args == [] then []
    else
      var cleaned := CleanFilePath(args[0]);
      var rest := FileArgs(args[1..]);
      assert CleanAll(args) == [cleaned] + CleanAll(args[1..]);
      if IsSupportedFile(cleaned) then
        assert ([cleaned] + rest)[1..] == rest;
        [cleaned] + rest
      else rest
  }

  /** Argument `i` is the first one at or after `lo` whose cleaned form is supported. */
  predicate IsFirstSupportedFrom(args: seq<string>, lo: int, i: int)
  {
    0 <= lo <= i < |args| && IsSupportedFile(CleanFilePath(args[i])) &&
    forall j :: lo <= j < i ==> !IsSupportedFile(CleanFilePath(args[j]))
  }

  /** Argument `i` is the first one whose cleaned form is supported. */
  predicate IsFirstSupported(args: seq<string>, i: int)
  {
    IsFirstSupportedFrom(args, 0, i)
  }

  /** Dropping the first argument shifts the first supported one down by one place. */
  lemma FirstSupportedShift(args: seq<string>, lo: int, i: int)
    requires args != [] && IsFirstSupportedFrom(args[1..], lo, i)
    ensures IsFirstSupportedFrom(args, lo + 1, i + 1)
  {
    assert args[i + 1] == args[1..][i];
    forall j | lo + 1 <= j < i + 1 ensures !IsSupportedFile(CleanFilePath(args[j])) {
      assert args[j] == args[1..][j - 1];
    }
  }

  /**
   * The `if !file_args.is_empty() { file_args[0] }` step: nothing when no
   * cleaned argument is supported, otherwise the cleaned form of the first
   * argument that is.
   */
  function SelectFile(args: seq<string>): (r: Option<string>)
    ensures r.None? <==> forall i :: 0 <= i < |args| ==> !IsSupportedFile(CleanFilePath(args[i]))
    ensures r.Some? ==> exists i :: IsFirstSupported(args, i) && r.value == CleanFilePath(args[i])
  {
    var fileArgs := FileArgs(args);
    FileArgsHead(args);
    if |fileArgs| == 0 then None else Some(fileArgs[0])
  }

  /**
   * `FileArgs` is empty exactly when no cleaned argument is supported, and
   * otherwise starts with the cleaned form of the first supported argument.
   */
  lemma {:induction false} FileArgsHead(args: seq<string>)
    ensures FileArgs(args) == [] <==> forall i :: 0 <= i < |args| ==> !IsSupportedFile(CleanFilePath(args[i]))
    ensures FileArgs(args) != [] ==> exists i :: IsFirstSupported(args, i) && FileArgs(args)[0] == CleanFilePath(args[i])
  {
    if args != [] {
      FileArgsHead(args[1..]);
      if IsSupportedFile(CleanFilePath(args[0])) {
        assert IsFirstSupported(args, 0);
      } else if FileArgs(args[1..]) != [] {
        var i :| IsFirstSupported(args[1..], i) && FileArgs(args[1..])[0] == CleanFilePath(args[1..][i]);
        FirstSupportedShift(args, 0, i);
        assert args[i + 1] == args[1..][i];
        assert IsFirstSupported(args, i + 1);
      } else {
        forall i | 0 <= i < |args| ensures !IsSupportedFile(CleanFilePath(args[i])) {
          if i > 0 { assert args[i] == args[1..][i - 1]; }
        }
      }
    }
  }

  /** A path is in `FileArgs` exactly when it is the cleaned form of some argument and is supported. */
  lemma FileArgsMembers(args: seq<string>, x: string)
    ensures x in FileArgs(args) <==>
      IsSupportedFile(x) && exists i :: 0 <= i < |args| && CleanFilePath(args[i]) == x
  {
    if x in FileArgs(args) {
      var i := FileArgsSource(args, x);
    }
    if IsSupportedFile(x) && exists i :: 0 <= i < |args| && CleanFilePath(args[i]) == x {
      var i :| 0 <= i < |args| && CleanFilePath(args[i]) == x;
      FileArgsKeeps(args, i);
    }
  }

  /** Every supported cleaned argument is kept. */
  lemma {:induction false} FileArgsKeeps(args: seq<string>, i: int)
    requires 0 <= i < |args| && IsSupportedFile(CleanFilePath(args[i]))
    ensures CleanFilePath(args[i]) in FileArgs(args)
  {
    FileArgsCons(args);
    if i > 0 {
      var tail := args[1..];
      assert tail[i - 1] == args[i];
      FileArgsKeeps(tail, i - 1);
    }
  }

  /**
   * Only unfolds one step of the definition of `FileArgs`: the first
   * argument's contribution, then the rest's.
   */
  lemma FileArgsCons(args: seq<string>)
    requires args != []
    ensures FileArgs(args) ==
      (if IsSupportedFile(CleanFilePath(args[0])) then [CleanFilePath(args[0])] else []) + FileArgs(args[1..])
  {
    if !IsSupportedFile(CleanFilePath(args[0])) {
      assert [] + FileArgs(args[1..]) == FileArgs(args[1..]);
    }
  }

  /** Every kept path comes from some argument: the index of one it was cleaned from. */
  lemma {:induction false} FileArgsSource(args: seq<string>, x: string) returns (i: int)
    requires x in FileArgs(args)
    ensures 0 <= i < |args| && CleanFilePath(args[i]) == x && IsSupportedFile(x)
  {
    var cleaned := CleanFilePath(args[0]);
    if IsSupportedFile(cleaned) && x == cleaned {
      i := 0;
    } else {
      var j := FileArgsSource(args[1..], x);
      i := j + 1;
      assert args[i] == args[1..][j];
    }
  }

  /** Filtering is done argument by argument: the file list of `a + b` is that of `a` followed by that of `b`. */
  lemma {:induction false} FileArgsAppend(a: seq<string>, b: seq<string>)
    ensures FileArgs(a + b) == FileArgs(a) + FileArgs(b)
  {
    if a == [] {
      assert a + b == b;
    } else {
      assert (a + b)[0] == a[0];
      assert (a + b)[1..] == a[1..] + b;
      FileArgsAppend(a[1..], b);
    }
  }

  /** Once some argument is selected, arguments after it change nothing: only the first file is opened. */
  lemma {:induction false} SelectFileIgnoresLater(args: seq<string>, later: seq<string>)
    requires SelectFile(args).Some?
    ensures SelectFile(args + later) == SelectFile(args)
  {
    FileArgsAppend(args, later);
  }

  /**
   * The setup closure of `run_app`: the path handed to
   * `process_and_emit_file`, or nothing. The program name `argv[0]` is never
   * considered; otherwise the result is the cleaned form of the first later
   * argument that is supported after cleaning.
   */
  function LibOpenTarget(argv: seq<string>): (r: Option<string>)
    ensures r.None? <==> forall i :: 1 <= i < |argv| ==> !IsSupportedFile(CleanFilePath(argv[i]))
    ensures r.Some? ==> exists i :: IsFirstSupportedFrom(argv, 1, i) && r.value == CleanFilePath(argv[i])
  {
    var r := SelectFile(ProgramArgs(argv));
    OpenTargetSkipsProgramName(argv);
    r
  }

  /** Selecting from `ProgramArgs(argv)` is selecting from `argv` at index 1 onwards. */
  lemma OpenTargetSkipsProgramName(argv: seq<string>)
    ensures SelectFile(ProgramArgs(argv)).None? <==> forall i :: 1 <= i < |argv| ==> !IsSupportedFile(CleanFilePath(argv[i]))
    ensures SelectFile(ProgramArgs(argv)).Some? ==>
      exists i :: IsFirstSupportedFrom(argv, 1, i) && SelectFile(ProgramArgs(argv)).value == CleanFilePath(argv[i])
  {
    var args := ProgramArgs(argv);
    var r := SelectFile(args);
    if argv != [] {
      forall i | 1 <= i < |argv| ensures argv[i] == args[i - 1] { }
      if r.Some? {
        var i :| IsFirstSupported(args, i) && r.value == CleanFilePath(args[i]);
        FirstSupportedShift(argv, 0, i);
        assert argv[i + 1] == args[i];
      }
    }
  }

  /** The setup closure of `main`: the same selection, so it agrees with `run_app` on every argument vector. */
  function BinOpenTarget(argv: seq<string>): (r: Option<string>)
    ensures r == LibOpenTarget(argv)
  {
    SelectFile(ProgramArgs(argv))
  }

  /** The program name plays no part: swapping it for any other leaves the selection unchanged. */
  lemma ProgramNameIgnored(name: string, other: string, rest: seq<string>)
    ensures LibOpenTarget([name] + rest) == LibOpenTarget([other] + rest)
  {
    assert ([name] + rest)[1..] == rest == ([other] + rest)[1..];
  }

  /** The support test sees the cleaned argument, so a double-quoted document name is handed on without its quotes. */
  lemma {:induction false} QuotedArgumentOpened(name: string, stem: string, k: nat)
    requires k < |SupportedExtensions|
    requires EndsClear(stem + SupportedExtensions[k], Quotes + Whitespace)
    ensures LibOpenTarget([name, ['"'] + (stem + SupportedExtensions[k]) + ['"']]) == Some(stem + SupportedExtensions[k])
  {
    CleanStripsDoubleQuotes(stem + SupportedExtensions[k]);
    SupportedAnyPrefix(stem, k);
  }

  /**
   * The setup closure hands on a cleaned path, and `process_and_emit_file`
   * cleans it once more. Cleaning is not idempotent, so the two can differ:
   * ` "s"` is handed on as `"s`, which cleans again to `s`.
   */
  lemma {:induction false} HandedOnPathRecleaned(name: string, stem: string, k: nat)
    requires k < |SupportedExtensions|
    requires EndsClear(stem + SupportedExtensions[k], Quotes + Whitespace)
    ensures LibOpenTarget([name, [' ', '"'] + (stem + SupportedExtensions[k]) + ['"']])
      == Some(['"'] + (stem + SupportedExtensions[k]))
    ensures CleanFilePath(['"'] + (stem + SupportedExtensions[k])) == stem + SupportedExtensions[k]
  {
    var s := stem + SupportedExtensions[k];
    assert s != [] by { assert |SupportedExtensions[k]| >= 3 by { assert k == 0 || k == 1 || k == 2; } }
    CleanShieldedLeadingQuote(s);
    assert ['"'] + s == (['"'] + stem) + SupportedExtensions[k];
    SupportedAnyPrefix(['"'] + stem, k);
    CleanStripsOpeningQuote(s);
  }
}
