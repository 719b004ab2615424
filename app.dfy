/**
 * The two path helpers of the desktop launcher (src-tauri/src/app.rs) that
 * decide which command-line argument is a document: quote stripping and the
 * file-type test.
 */
module App {
  import opened RustStr

  /** The quote characters `clean_file_path` strips. */
  const Quotes: set<char> := {'"', '\''}

  /** The extensions the editor opens, in the order `is_supported_file` tests them. */
  const SupportedExtensions: seq<string> := [".md", ".markdown", ".txt"]

  /** `clean_file_path`: strip double quotes from both ends, then single quotes, then whitespace. */
  function CleanFilePath(path: string): string
  {
    Trim(TrimMatches(TrimMatches(path, {'"'}), {'\''}))
  }

  /**
   * The cleaned path has no whitespace at either end, and it is a contiguous
   * piece of the input: only quotes and whitespace are removed, and only from
   * the two ends.
   */
  lemma {:induction false} CleanFilePathTrims(path: string)
    ensures EndsClear(CleanFilePath(path), Whitespace)
    ensures TrimmedFrom(path, CleanFilePath(path), Quotes + Whitespace)
  {
    var unDoubled := TrimMatches(path, {'"'});
    var unSingled := TrimMatches(unDoubled, {'\''});
    TrimMatchesIsTrim(path, {'"'});
    TrimMatchesIsTrim(unDoubled, {'\''});
    TrimMatchesIsTrim(unSingled, Whitespace);
    TrimmedFromTrans(path, unDoubled, unSingled, {'"'}, {'\''});
    assert {'"'} + {'\''} == Quotes;
    TrimmedFromTrans(path, unSingled, CleanFilePath(path), Quotes, Whitespace);
  }

  /** The path's last `|ext|` characters, lower-cased, spell `ext`. */
  predicate HasExtension(path: string, ext: string)
  {
    |ext| <= |path| && ToLowercase(path[|path| - |ext|..]) == ext
  }

  /** `is_supported_file`: the lower-cased path ends with `.md`, `.markdown` or `.txt`. */
  function IsSupportedFile(path: string): bool
  {
    var lower := ToLowercase(path);
    EndsWith(lower, ".md") || EndsWith(lower, ".markdown") || EndsWith(lower, ".txt")
  }

  /** Equivalently, the path's last characters, lower-cased, are one of the supported extensions. */
  lemma {:induction false} SupportedIffExtension(path: string)
    ensures IsSupportedFile(path) <==> exists k :: 0 <= k < |SupportedExtensions| && HasExtension(path, SupportedExtensions[k])
  {
    EndsWithLowercase(path, ".md");
    EndsWithLowercase(path, ".markdown");
    EndsWithLowercase(path, ".txt");
    if HasExtension(path, ".md") {
      assert HasExtension(path, SupportedExtensions[0]);
    } else if HasExtension(path, ".markdown") {
      assert HasExtension(path, SupportedExtensions[1]);
    } else if HasExtension(path, ".txt") {
      assert HasExtension(path, SupportedExtensions[2]);
    } else {
      forall k | 0 <= k < |SupportedExtensions|
        ensures !HasExtension(path, SupportedExtensions[k])
      {
        assert k == 0 || k == 1 || k == 2;
      }
    }
  }

  /** The lower-cased path ends with `ext` exactly when the path's lower-cased tail is `ext`. */
  lemma EndsWithLowercase(path: string, ext: string)
    ensures EndsWith(ToLowercase(path), ext) <==> HasExtension(path, ext)
  {
    if |ext| <= |path| {
      assert ToLowercase(path)[|path| - |ext|..] == ToLowercase(path[|path| - |ext|..]);
    }
  }

  // ---- clean_file_path -------------------------------------------------------

  /** A path without a quote or whitespace at either end comes back unchanged. */
  lemma {:induction false} CleanKeepsClearPath(path: string)
    requires EndsClear(path, Quotes + Whitespace)
    ensures CleanFilePath(path) == path
  {
    assert [] + path + [] == path;
    TrimMatchesPeels([], path, [], {'"'});
    TrimMatchesPeels([], path, [], {'\''});
    TrimMatchesPeels([], path, [], Whitespace);
  }

  /** Double quotes around a clean path are removed: `"s"` cleans to `s`. */
  lemma {:induction false} CleanStripsDoubleQuotes(s: string)
    requires EndsClear(s, Quotes + Whitespace)
    ensures CleanFilePath(['"'] + s + ['"']) == s
  {
    TrimMatchesPeels(['"'], s, ['"'], {'"'});
    assert [] + s + [] == s;
    TrimMatchesPeels([], s, [], {'\''});
    TrimMatchesPeels([], s, [], Whitespace);
  }

  /** Single quotes around a clean path are removed: `'s'` cleans to `s`. */
  lemma {:induction false} CleanStripsSingleQuotes(s: string)
    requires EndsClear(s, Quotes + Whitespace)
    ensures CleanFilePath(['\''] + s + ['\'']) == s
  {
    var q := ['\''] + s + ['\''];
    assert [] + q + [] == q;
    TrimMatchesPeels([], q, [], {'"'});
    TrimMatchesPeels(['\''], s, ['\''], {'\''});
    assert [] + s + [] == s;
    TrimMatchesPeels([], s, [], Whitespace);
  }

  /**
   * Only unfolds the definition of `CleanFilePath` (the three trims one after
   * the other), so the lemmas below can name each intermediate string.
   */
  lemma CleanBySteps(path: string, unDoubled: string, unSingled: string, r: string)
    requires TrimMatches(path, {'"'}) == unDoubled
    requires TrimMatches(unDoubled, {'\''}) == unSingled
    requires Trim(unSingled) == r
    ensures CleanFilePath(path) == r
  {
  }

  /**
   * An opening double quote without a closing one is removed as well: `"s`
   * cleans to `s`.
   */
  lemma {:induction false} CleanStripsOpeningQuote(s: string)
    requires EndsClear(s, Quotes + Whitespace)
    ensures CleanFilePath(['"'] + s) == s
  {
    assert ['"'] + s == ['"'] + s + [];
    TrimMatchesPeels(['"'], s, [], {'"'});
    TrimMatchesKeeps(s, {'\''});
    TrimMatchesKeeps(s, Whitespace);
  }

  /**
   * Double quotes are stripped before single quotes, so double quotes inside
   * single quotes survive: `'"s"'` cleans to `"s"`.
   */
  lemma {:induction false} CleanKeepsInnerDoubleQuotes(s: string)
    requires EndsClear(s, Quotes + Whitespace)
    ensures CleanFilePath(['\'', '"'] + s + ['"', '\'']) == ['"'] + s + ['"']
  {
    var inner := ['"'] + s + ['"'];
    var q := ['\'', '"'] + s + ['"', '\''];
    assert q == ['\''] + inner + ['\''];
    TrimMatchesKeeps(q, {'"'});
    TrimMatchesPeels(['\''], inner, ['\''], {'\''});
    TrimMatchesKeeps(inner, Whitespace);
    CleanBySteps(q, q, inner, inner);
  }

  /**
   * Whitespace in front of a quote shields the quote from the quote trims:
   * ` "s"` cleans to `"s`; the trailing quote was at the end and goes.
   */
  lemma {:induction false} CleanShieldedLeadingQuote(s: string)
    requires s != [] && EndsClear(s, Quotes + Whitespace)
    ensures CleanFilePath([' ', '"'] + s + ['"']) == ['"'] + s
  {
    var lead := [' ', '"'] + s;
    DropClosingQuote(lead);
    TrimMatchesKeeps(lead, {'\''});
    DropLeadingSpace(s);
    CleanBySteps(lead + ['"'], lead, lead, ['"'] + s);
  }

  /** With whitespace outside both quotes, both are shielded: ` "s" ` cleans to `"s"`. */
  lemma {:induction false} CleanShieldedQuotes(s: string)
    requires EndsClear(s, Quotes + Whitespace)
    ensures CleanFilePath([' ', '"'] + s + ['"', ' ']) == ['"'] + s + ['"']
  {
    var padded := [' ', '"'] + s + ['"', ' '];
    TrimMatchesKeeps(padded, {'"'});
    TrimMatchesKeeps(padded, {'\''});
    DropOuterSpaces(s);
    CleanBySteps(padded, padded, padded, ['"'] + s + ['"']);
  }

  /**
   * Cleaning is not idempotent: ` "s" ` cleans to `"s"`, and cleaning that
   * again gives `s`.
   */
  lemma {:induction false} CleanNotIdempotent(s: string)
    requires EndsClear(s, Quotes + Whitespace)
    ensures CleanFilePath(CleanFilePath([' ', '"'] + s + ['"', ' '])) == s
    ensures CleanFilePath(CleanFilePath([' ', '"'] + s + ['"', ' '])) != CleanFilePath([' ', '"'] + s + ['"', ' '])
  {
    CleanShieldedQuotes(s);
    CleanStripsDoubleQuotes(s);
  }

  /**
   * Quotes are trimmed before whitespace, so a space after the closing quote
   * shields that quote: `"s" ` cleans to `s"`, which is never a supported
   * file name.
   */
  lemma {:induction false} CleanSpaceAfterClosingQuote(s: string)
    requires s != [] && EndsClear(s, Quotes + Whitespace)
    ensures CleanFilePath(['"'] + s + ['"', ' ']) == s + ['"']
    ensures !IsSupportedFile(CleanFilePath(['"'] + s + ['"', ' ']))
  {
    var rest := s + ['"', ' '];
    DropOpeningQuote(s);
    TrimMatchesKeeps(rest, {'\''});
    DropTrailingSpace(s);
    CleanBySteps(['"'] + s + ['"', ' '], rest, rest, s + ['"']);
    SupportedLastChar(s + ['"']);
  }

  // Single trim steps of the lemmas above, each in a context of its own.

  lemma DropClosingQuote(lead: string)
    requires lead != [] && lead[0] != '"' && lead[|lead| - 1] != '"'
    ensures TrimMatches(lead + ['"'], {'"'}) == lead
  {
    assert lead + ['"'] == [] + lead + ['"'];
    TrimMatchesPeels([], lead, ['"'], {'"'});
  }

  lemma DropLeadingSpace(s: string)
    requires s != [] && EndsClear(s, Quotes + Whitespace)
    ensures Trim([' ', '"'] + s) == ['"'] + s
  {
    assert [' ', '"'] + s == [' '] + (['"'] + s) + [];
    TrimMatchesPeels([' '], ['"'] + s, [], Whitespace);
  }

  lemma DropOuterSpaces(s: string)
    requires EndsClear(s, Quotes + Whitespace)
    ensures Trim([' ', '"'] + s + ['"', ' ']) == ['"'] + s + ['"']
  {
    var quoted := ['"'] + s + ['"'];
    assert [' ', '"'] + s + ['"', ' '] == [' '] + quoted + [' '];
    TrimMatchesPeels([' '], quoted, [' '], Whitespace);
  }

  lemma DropOpeningQuote(s: string)
    requires s != [] && EndsClear(s, Quotes + Whitespace)
    ensures TrimMatches(['"'] + s + ['"', ' '], {'"'}) == s + ['"', ' ']
  {
    var rest := s + ['"', ' '];
    assert ['"'] + s + ['"', ' '] == ['"'] + rest + [];
    assert rest[0] == s[0];
    TrimMatchesPeels(['"'], rest, [], {'"'});
  }

  lemma DropTrailingSpace(s: string)
    requires s != [] && EndsClear(s, Quotes + Whitespace)
    ensures Trim(s + ['"', ' ']) == s + ['"']
  {
    var r := s + ['"'];
    assert s + ['"', ' '] == [] + r + [' '];
    assert r[0] == s[0];
    TrimMatchesPeels([], r, [' '], Whitespace);
  }

  // ---- is_supported_file -----------------------------------------------------

  /** The test only looks at lower case: paths that lower-case alike are accepted alike. */
  lemma SupportedIgnoresCase(p: string, q: string)
    requires ToLowercase(p) == ToLowercase(q)
    ensures IsSupportedFile(p) == IsSupportedFile(q)
  {
  }

  /** In particular a path is accepted exactly when its lower-cased form is. */
  lemma {:induction false} SupportedIffLowercaseSupported(p: string)
    ensures IsSupportedFile(p) == IsSupportedFile(ToLowercase(p))
  {
    assert ToLowercase(ToLowercase(p)) == ToLowercase(p);
    SupportedIgnoresCase(p, ToLowercase(p));
  }

  /** Any text followed by a supported extension is accepted, whatever comes before it. */
  lemma {:induction false} SupportedAnyPrefix(prefix: string, k: nat)
    requires k < |SupportedExtensions|
    ensures IsSupportedFile(prefix + SupportedExtensions[k])
  {
    var p := prefix + SupportedExtensions[k];
    var ext := SupportedExtensions[k];
    assert p[|p| - |ext|..] == ext;
    assert ToLowercase(ext) == ext by {
      assert k == 0 || k == 1 || k == 2;
    }
    assert HasExtension(p, ext);
    SupportedIffExtension(p);
  }

  /**
   * An accepted path has at least three characters and its last one lower-cases
   * to `d`, `n` or `t`: whatever else it ends with is rejected.
   */
  lemma {:induction false} SupportedLastChar(p: string)
    ensures IsSupportedFile(p) ==> |p| >= 3 && LowerChar(p[|p| - 1]) in {'d', 'n', 't'}
  {
    SupportedIffExtension(p);
    if IsSupportedFile(p) {
      var k :| 0 <= k < |SupportedExtensions| && HasExtension(p, SupportedExtensions[k]);
      var ext := SupportedExtensions[k];
      assert ToLowercase(p[|p| - |ext|..])[|ext| - 1] == LowerChar(p[|p| - 1]);
      assert k == 0 || k == 1 || k == 2;
    }
  }

  /** Upper-case names are accepted, and so is the bare extension. */
  lemma SupportedExamples()
    ensures IsSupportedFile("NOTE.MD")
    ensures IsSupportedFile(".md")
  {
    assert ToLowercase("NOTE.MD"[4..]) == ".md";
    assert HasExtension("NOTE.MD", SupportedExtensions[0]);
    SupportedIffExtension("NOTE.MD");
    SupportedAnyPrefix("", 0);
    assert "" + SupportedExtensions[0] == ".md";
  }

  /** Near misses are rejected: a longer extension, a later extension, no dot. */
  lemma UnsupportedExamples()
    ensures !IsSupportedFile("x.mdx")
    ensures !IsSupportedFile("x.md.bak")
    ensures !IsSupportedFile("md")
  {
    SupportedLastChar("x.mdx");
    SupportedLastChar("x.md.bak");
    SupportedLastChar("md");
  }
}
