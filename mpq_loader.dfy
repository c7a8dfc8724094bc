/**
 * `IO::Storage::ClientLoaders::MPQLoader`: filling in the placeholders of
 * archive-name templates ("{locale}", "{number}", "{character}") and
 * loading the archives they name.
 *
 * The file system is left abstract: `onDisk` stands for the paths that
 * exist, `projectPath` for the project directory, and a loaded archive is
 * recorded by its path.
 */
module MpqLoaders {
  import opened Wrappers
  import opened Strings

  const LOCALE_TAG: string := "{locale}"
  const NUMBER_TAG: string := "{number}"
  const CHARACTER_TAG: string := "{character}"

  // ---------------------------------------------------------------------
  // "{locale}"
  // ---------------------------------------------------------------------

  /** The number of '{' in `s`. */
  function Braces(s: string): nat
  {
    if s == [] then 0 else Braces(s[..|s| - 1]) + (if s[|s| - 1] == '{' then 1 else 0)
  }

  lemma {:induction false} BracesAppend(a: string, b: string)
    ensures Braces(a + b) == Braces(a) + Braces(b)
    decreases |b|
  {
    if b == [] {
      assert a + b == a;
    } else {
      assert (a + b)[..|a + b| - 1] == a + b[..|b| - 1];
      BracesAppend(a, b[..|b| - 1]);
    }
  }

  lemma {:induction false} NoBraces(s: string)
    requires '{' !in s
    ensures Braces(s) == 0
    decreases |s|
  {
    if s != [] {
      assert s[|s| - 1] in s;
      NoBraces(s[..|s| - 1]);
    }
  }

  /** Replacing a "{locale}" with a locale without '{' removes one '{'. */
  lemma ReplaceLocaleShrinks(path: string, at: nat, locale: string)
    requires OccursAt(path, LOCALE_TAG, at) && '{' !in locale
    ensures Braces(ReplaceAt(path, at, 8, locale)) < Braces(path)
  {
    assert path == path[..at] + LOCALE_TAG + path[at + 8..];
    BracesAppend(path[..at] + LOCALE_TAG, path[at + 8..]);
    BracesAppend(path[..at], LOCALE_TAG);
    BracesAppend(path[..at] + locale, path[at + 8..]);
    BracesAppend(path[..at], locale);
    NoBraces(locale);
    assert LOCALE_TAG == "{" + "locale}";
    BracesAppend("{", "locale}");
    NoBraces("locale}");
    assert Braces("{") == 1 by { assert "{"[..0] == []; }
  }

  /**
   * The path `ReplaceLocale` leaves: the first "{locale}" is replaced by the
   * locale, again and again, until none is left.
   */
  function LocaleReplaced(path: string, locale: string): (r: string)
    requires '{' !in locale
    ensures !Contains(r, LOCALE_TAG)
    ensures !Contains(path, LOCALE_TAG) ==> r == path
    decreases Braces(path)
  {
    match Find(path, LOCALE_TAG)
    case None => path
    case Some(at) =>
      ReplaceLocaleShrinks(path, at, locale);
      LocaleReplaced(ReplaceAt(path, at, 8, locale), locale)
  }

  /** Where a path starts with no '{', the first "{locale}" lies in what follows. */
  lemma FindAfterPlainPrefix(pre: string, s: string)
    requires '{' !in pre
    ensures Find(s, LOCALE_TAG).None? ==> Find(pre + s, LOCALE_TAG).None?
    ensures Find(s, LOCALE_TAG).Some? ==> Find(pre + s, LOCALE_TAG) == Some(|pre| + Find(s, LOCALE_TAG).value)
  {
    var t := pre + s;
    forall j: nat | j <= |t|
      ensures OccursAt(t, LOCALE_TAG, j) <==> j >= |pre| && OccursAt(s, LOCALE_TAG, j - |pre|)
    {
      OccursAfterPlainPrefix(pre, s, j);
    }
    if Find(s, LOCALE_TAG).Some? {
      assert OccursAt(t, LOCALE_TAG, |pre| + Find(s, LOCALE_TAG).value);
    }
  }

  lemma OccursAfterPlainPrefix(pre: string, s: string, j: nat)
    requires '{' !in pre && j <= |pre + s|
    ensures OccursAt(pre + s, LOCALE_TAG, j) <==> j >= |pre| && OccursAt(s, LOCALE_TAG, j - |pre|)
  {
    var t := pre + s;
    if j < |pre| {
      assert t[j] == pre[j] && pre[j] in pre;
      if j + 8 <= |t| {
        assert t[j..j + 8][0] == t[j] != LOCALE_TAG[0];
      }
    } else if j + 8 <= |t| {
      assert t[j..j + 8] == s[j - |pre|..j - |pre| + 8];
    }
  }

  /** A prefix without '{' is left as it is. */
  lemma {:induction false} LocaleReplacedPrefix(pre: string, s: string, locale: string)
    requires '{' !in pre && '{' !in locale
    ensures LocaleReplaced(pre + s, locale) == pre + LocaleReplaced(s, locale)
    decreases Braces(s)
  {
    FindAfterPlainPrefix(pre, s);
    if Find(s, LOCALE_TAG).None? {
      PrefixWithoutTag(pre, s, locale);
    } else {
      var at := Find(s, LOCALE_TAG).value;
      var s' := ReplaceAt(s, at, 8, locale);
      ReplaceLocaleShrinks(s, at, locale);
      PrefixStep(pre, s, at, locale);
      LocaleReplacedStep(s, at, locale);
      LocaleReplacedPrefix(pre, s', locale);
    }
  }

  lemma PrefixWithoutTag(pre: string, s: string, locale: string)
    requires '{' !in locale
    requires Find(s, LOCALE_TAG).None? && Find(pre + s, LOCALE_TAG).None?
    ensures LocaleReplaced(pre + s, locale) == pre + LocaleReplaced(s, locale)
  {
  }

  lemma PrefixStep(pre: string, s: string, at: nat, locale: string)
    requires '{' !in locale
    requires Find(s, LOCALE_TAG) == Some(at) && Find(pre + s, LOCALE_TAG) == Some(|pre| + at)
    ensures LocaleReplaced(pre + s, locale) == LocaleReplaced(pre + ReplaceAt(s, at, 8, locale), locale)
  {
    LocaleReplacedStep(pre + s, |pre| + at, locale);
    ReplaceAfterPrefix(pre, s, at, locale);
  }

  lemma ReplaceAfterPrefix(pre: string, s: string, at: nat, repl: string)
    requires at + 8 <= |s|
    ensures ReplaceAt(pre + s, |pre| + at, 8, repl) == pre + ReplaceAt(s, at, 8, repl)
  {
    assert (pre + s)[..|pre| + at] == pre + s[..at];
    assert (pre + s)[|pre| + at + 8..] == s[at + 8..];
  }

  lemma LocaleReplacedStep(path: string, at: nat, locale: string)
    requires '{' !in locale && Find(path, LOCALE_TAG) == Some(at)
    ensures LocaleReplaced(path, locale) == LocaleReplaced(ReplaceAt(path, at, 8, locale), locale)
  {
  }

  /**
   * A template whose only '{' are those of its "{locale}"s gets every one of
   * them replaced by the locale.
   */
  lemma {:induction false} EveryLocaleReplaced(parts: seq<string>, locale: string)
    requires '{' !in locale
    requires forall k | 0 <= k < |parts| :: '{' !in parts[k]
    ensures LocaleReplaced(Join(parts, LOCALE_TAG), locale) == Join(parts, locale)
  {
    if |parts| == 1 {
      forall j: nat | j <= |parts[0]|
        ensures !OccursAt(parts[0], LOCALE_TAG, j)
      {
        if j + 8 <= |parts[0]| {
          assert parts[0][j] in parts[0];
          assert parts[0][j..j + 8][0] == parts[0][j] != LOCALE_TAG[0];
        }
      }
    } else if |parts| > 1 {
      var p, rest := parts[0], Join(parts[1..], LOCALE_TAG);
      assert Join(parts, LOCALE_TAG) == p + (LOCALE_TAG + rest);
      FindAfterPlainPrefix(p, LOCALE_TAG + rest);
      assert Find(LOCALE_TAG + rest, LOCALE_TAG) == Some(0) by {
        assert OccursAt(LOCALE_TAG + rest, LOCALE_TAG, 0);
      }
      assert ReplaceAt(p + (LOCALE_TAG + rest), |p|, 8, locale) == (p + locale) + rest;
      assert '{' !in p + locale;
      LocaleReplacedPrefix(p + locale, rest, locale);
      EveryLocaleReplaced(parts[1..], locale);
    }
  }

  // ---------------------------------------------------------------------
  // "{number}" and "{character}"
  // ---------------------------------------------------------------------

  /** `path` with the placeholder of length `len` at `at` replaced by the character `c`. */
  function Substituted(path: string, at: nat, len: nat, c: char): (r: string)
    requires at + len <= |path|
    ensures |r| == |path| - len + 1 && r[at] == c
    ensures r[..at] == path[..at] && r[at + 1..] == path[at + len..]
  {
    path[..at] + [c] + path[at + len..]
  }

  /** The paths the placeholder yields, one per character from `first` to `last`, in that order. */
  function Variants(path: string, at: nat, len: nat, first: char, last: char): (paths: seq<string>)
    requires at + len <= |path| && first <= last && last as int < 128
    ensures |paths| == last as int - first as int + 1
    ensures forall k | 0 <= k < |paths| :: paths[k] == Substituted(path, at, len, (first as int + k) as char)
  {
    seq(last as int - first as int + 1, k requires 0 <= k <= last as int - first as int =>
      Substituted(path, at, len, (first as int + k) as char))
  }

  /** Putting a character in place of the one already substituted. */
  lemma SubstituteAgain(path: string, at: nat, len: nat, previous: char, c: char)
    requires at + len <= |path|
    ensures ReplaceAt(Substituted(path, at, len, previous), at, 1, [c]) == Substituted(path, at, len, c)
    ensures ReplaceAt(path, at, len, [c]) == Substituted(path, at, len, c)
  {
    var s := Substituted(path, at, len, previous);
    assert s[..at] == path[..at] && s[at + 1..] == path[at + len..];
  }

  class MpqLoader {
    /** The paths that exist on disk. */
    const onDisk: set<string>
    /** The project directory, which is never loaded as an archive. */
    const projectPath: string
    /** The archives loaded so far, by path, in load order. */
    var archives: seq<string>

    constructor (onDisk: set<string>, projectPath: string)
      ensures this.onDisk == onDisk && this.projectPath == projectPath && archives == []
    {
      this.onDisk := onDisk;
      this.projectPath := projectPath;
      archives := [];
    }

    /** Whether `LoadArchive` opens `path`: it exists and is not the project directory. */
    predicate Loadable(path: string)
    {
      path in onDisk && path != projectPath
    }

    /** The paths among `paths` that `LoadArchive` opens, in order. */
    function LoadedOf(paths: seq<string>): (loaded: seq<string>)
    {
      if paths == [] then []
      else LoadedOf(paths[..|paths| - 1]) + (if Loadable(paths[|paths| - 1]) then [paths[|paths| - 1]] else [])
    }

    /** Exactly the loadable paths are loaded, and nothing else. */
    lemma {:induction false} LoadedOfExactly(paths: seq<string>)
      ensures |LoadedOf(paths)| <= |paths|
      ensures forall p :: p in LoadedOf(paths) <==> p in paths && Loadable(p)
    {
      if paths != [] {
        var front := paths[..|paths| - 1];
        LoadedOfExactly(front);
        assert paths == front + [paths[|paths| - 1]];
      }
    }

    lemma LoadedOfSnoc(paths: seq<string>, path: string)
      ensures LoadedOf(paths + [path]) == LoadedOf(paths) + LoadedOf([path])
    {
      assert (paths + [path])[..|paths|] == paths;
      assert [path][..0] == [];
    }

    /** Opens the archive at `path` when it exists and is not the project directory. */
    method LoadArchive(path: string)
      modifies this
      ensures archives == old(archives) + LoadedOf([path])
    {
      if Loadable(path) {
        archives := archives + [path];
      }
    }

    /** Replaces every "{locale}" in `mpqPath` by `locale`; a path without one comes back as it was. */
    method ReplaceLocale(mpqPath: string, locale: string) returns (r: string)
      requires '{' !in locale
      ensures r == LocaleReplaced(mpqPath, locale)
    {
      r := mpqPath;
      var location := Find(r, LOCALE_TAG);
      while location.Some?
        invariant location == Find(r, LOCALE_TAG)
        invariant LocaleReplaced(r, locale) == LocaleReplaced(mpqPath, locale)
        decreases Braces(r)
      {
        ReplaceLocaleShrinks(r, location.value, locale);
        r := ReplaceAt(r, location.value, 8, locale);
        location := Find(r, LOCALE_TAG);
      }
    }

    /**
     * Puts each character from `first` to `last` in turn in place of the
     * placeholder of length `len` at `at`, loading each path.
     */
    method LoadVariants(path: string, at: nat, len: nat, first: char, last: char) returns (r: string)
      requires at + len <= |path| && first <= last && last as int < 128
      modifies this
      ensures r == Substituted(path, at, len, last)
      ensures archives == old(archives) + LoadedOf(Variants(path, at, len, first, last))
    {
      ghost var variants := Variants(path, at, len, first, last);
      r := ReplaceAt(path, at, len, " ");
      var c := first as int;
      while c <= last as int
        invariant first as int <= c <= last as int + 1
        invariant r == Substituted(path, at, len, if c == first as int then ' ' else (c - 1) as char)
        invariant archives == old(archives) + LoadedOf(variants[..c - first as int])
      {
        SubstituteAgain(path, at, len, if c == first as int then ' ' else (c - 1) as char, c as char);
        r := ReplaceAt(r, at, 1, [c as char]);
        assert variants[..c + 1 - first as int] == variants[..c - first as int] + [r];
        LoadedOfSnoc(variants[..c - first as int], r);
        LoadArchive(r);
        c := c + 1;
      }
      assert variants[..c - first as int] == variants;
    }

    /**
     * Loads "patch-2" to "patch-9" for a path with "{number}", leaving the
     * last of them in the path; a path without one is left alone.
     */
    method LoadNumberedPatches(mpqPath: string) returns (matched: bool, r: string)
      modifies this
      ensures matched <==> Contains(mpqPath, NUMBER_TAG)
      ensures !matched ==> r == mpqPath && archives == old(archives)
      ensures matched ==> var at := Find(mpqPath, NUMBER_TAG).value;
        r == Substituted(mpqPath, at, 8, '9')
        && archives == old(archives) + LoadedOf(Variants(mpqPath, at, 8, '2', '9'))
    {
      match Find(mpqPath, NUMBER_TAG)
      case None =>
        return false, mpqPath;
      case Some(at) =>
        r := LoadVariants(mpqPath, at, 8, '2', '9');
        return true, r;
    }

    /**
     * Loads "patch-a" to "patch-z" for a path with "{character}", leaving
     * the last of them in the path; a path without one is left alone.
     */
    method LoadCharacterNumberedPatches(mpqPath: string) returns (matched: bool, r: string)
      modifies this
      ensures matched <==> Contains(mpqPath, CHARACTER_TAG)
      ensures !matched ==> r == mpqPath && archives == old(archives)
      ensures matched ==> var at := Find(mpqPath, CHARACTER_TAG).value;
        r == Substituted(mpqPath, at, 11, 'z')
        && archives == old(archives) + LoadedOf(Variants(mpqPath, at, 11, 'a', 'z'))
    {
      match Find(mpqPath, CHARACTER_TAG)
      case None =>
        return false, mpqPath;
      case Some(at) =>
        r := LoadVariants(mpqPath, at, 11, 'a', 'z');
        return true, r;
    }
  }

  /** The numbered variants are the eight paths with '2' to '9', ascending. */
  lemma NumberedVariants(path: string, at: nat)
    requires OccursAt(path, NUMBER_TAG, at)
    ensures var paths := Variants(path, at, 8, '2', '9');
      |paths| == 8 && paths[0] == path[..at] + "2" + path[at + 8..]
      && paths[7] == path[..at] + "9" + path[at + 8..]
      && forall k | 0 <= k < 8 :: |paths[k]| == |path| - 7 && paths[k][at] == ('2' as int + k) as char
  {
  }

  /** The character variants are the 26 paths with 'a' to 'z', ascending. */
  lemma CharacterVariants(path: string, at: nat)
    requires OccursAt(path, CHARACTER_TAG, at)
    ensures var paths := Variants(path, at, 11, 'a', 'z');
      |paths| == 26 && paths[0] == path[..at] + "a" + path[at + 11..]
      && paths[25] == path[..at] + "z" + path[at + 11..]
      && forall k | 0 <= k < 26 :: |paths[k]| == |path| - 10 && paths[k][at] == ('a' as int + k) as char
  {
  }
}
