/**
 * `Utils::PathUtils`: file path normalisation. The game form is upper case
 * with '\' separators; the Unix forms use '/' separators, optionally in
 * lower case. Every form then renames model files ending in ".mdx" or
 * ".mdl" to ".m2".
 *
 * Case mapping is that of the "C" locale: only ASCII letters change.
 */
module PathUtils {

  function ToUpper(c: char): (u: char)
    ensures !('a' <= u <= 'z')
  {
    if 'a' <= c <= 'z' then (c as int - 32) as char else c
  }

  function ToLower(c: char): (l: char)
    ensures !('A' <= l <= 'Z')
  {
    if 'A' <= c <= 'Z' then (c as int + 32) as char else c
  }

  /** The character the game form puts for `c`. */
  function GameChar(c: char): char
  {
    if c == '/' then '\\' else ToUpper(c)
  }

  /** The character the Unix form puts for `c`. */
  function UnixChar(c: char): char
  {
    if c == '\\' then '/' else c
  }

  /** The character the lower-case Unix form puts for `c`. */
  function UnixLowerChar(c: char): char
  {
    if c == '\\' then '/' else ToLower(c)
  }

  function MapGame(s: string): (r: string)
    ensures |r| == |s| && forall k | 0 <= k < |s| :: r[k] == GameChar(s[k])
  {
    seq(|s|, k requires 0 <= k < |s| => GameChar(s[k]))
  }

  function MapUnix(s: string): (r: string)
    ensures |r| == |s| && forall k | 0 <= k < |s| :: r[k] == UnixChar(s[k])
  {
    seq(|s|, k requires 0 <= k < |s| => UnixChar(s[k]))
  }

  function MapUnixLower(s: string): (r: string)
    ensures |r| == |s| && forall k | 0 <= k < |s| :: r[k] == UnixLowerChar(s[k])
  {
    seq(|s|, k requires 0 <= k < |s| => UnixLowerChar(s[k]))
  }

  predicate EndsWith(s: string, suffix: string)
  {
    |suffix| <= |s| && s[|s| - |suffix|..] == suffix
  }

  /** What the regular expression '.' matches: any character but a line terminator. */
  predicate RegexAny(c: char)
  {
    c != '\n' && c != '\r'
  }

  /** The regular expression "." + `tail` matches at the start of `s`. */
  predicate MatchesAt(s: string, tail: string)
  {
    |s| >= |tail| + 1 && RegexAny(s[0]) && s[1..|tail| + 1] == tail
  }

  /**
   * `std::regex_replace(s, std::regex("." + tail), ".m2")`: scanning from
   * the left, every match is replaced and the scan resumes after it.
   */
  function ReplaceMatches(s: string, tail: string): (r: string)
    requires |tail| == 3
    decreases |s|
  {
    if |s| == 0 then []
    else if MatchesAt(s, tail) then ".m2" + ReplaceMatches(s[4..], tail)
    else [s[0]] + ReplaceMatches(s[1..], tail)
  }

  /** A string without a match is left alone. */
  lemma {:induction false} ReplaceWithoutMatch(s: string, tail: string)
    requires |tail| == 3
    requires forall k | 0 <= k < |s| :: !MatchesAt(s[k..], tail)
    ensures ReplaceMatches(s, tail) == s
    decreases |s|
  {
    if |s| > 0 {
      assert !MatchesAt(s[0..], tail) && s[0..] == s;
      forall k | 0 <= k < |s| - 1
        ensures !MatchesAt(s[1..][k..], tail)
      {
        assert s[1..][k..] == s[k + 1..];
      }
      ReplaceWithoutMatch(s[1..], tail);
    }
  }

  /** A string ending in "." + `tail` comes out ending in ".m2": its suffix is always a match. */
  lemma {:induction false} ReplaceRewritesSuffix(s: string, tail: string)
    requires |tail| == 3 && tail[0] != '.' && tail[1] != '.' && tail[2] != '.'
    requires EndsWith(s, "." + tail)
    ensures EndsWith(ReplaceMatches(s, tail), ".m2")
    decreases |s|
  {
    if |s| == 4 {
      assert MatchesAt(s, tail);
      assert s[4..] == [];
    } else if MatchesAt(s, tail) {
      // a match overlapping the suffix would need a '.' inside "mdx" or "mdl"
      assert forall k | 1 <= k < 4 :: s[k] == tail[k - 1] != '.';
      assert s[|s| - 4] == s[|s| - 4..][0] == '.';
      assert s[4..][|s[4..]| - 4..] == s[|s| - 4..];
      ReplaceRewritesSuffix(s[4..], tail);
      assert ".m2" + ReplaceMatches(s[4..], tail) == ReplaceMatches(s, tail);
      EndsWithPrefixed(".m2", ReplaceMatches(s[4..], tail), ".m2");
    } else {
      assert s[1..][|s[1..]| - 4..] == s[|s| - 4..];
      ReplaceRewritesSuffix(s[1..], tail);
      EndsWithPrefixed([s[0]], ReplaceMatches(s[1..], tail), ".m2");
    }
  }

  lemma EndsWithPrefixed(p: string, s: string, suffix: string)
    requires EndsWith(s, suffix)
    ensures EndsWith(p + s, suffix)
  {
    assert (p + s)[|p + s| - |suffix|..] == s[|s| - |suffix|..];
  }

  /**
   * Model file names ending in ".mdx" or ".mdl" (case-sensitive) have every
   * match of the pattern, '.' being any character, replaced by ".m2"; any
   * other string is returned unchanged.
   */
  function RemoveInconsistentNaming(s: string): (r: string)
    ensures !EndsWith(s, ".mdx") && !EndsWith(s, ".mdl") ==> r == s
    ensures EndsWith(s, ".mdx") || EndsWith(s, ".mdl") ==> EndsWith(r, ".m2")
  {
    if EndsWith(s, ".mdx") then
      ReplaceRewritesSuffix(s, "mdx");
      ReplaceMatches(s, "mdx")
    else if EndsWith(s, ".mdl") then
      ReplaceRewritesSuffix(s, "mdl");
      ReplaceMatches(s, "mdl")
    else s
  }

  /**
   * The game form: upper case and '\' separators. The model-name rewrite
   * looks for a lower-case suffix after the upper-casing, so it never fires.
   */
  function NormalizeFilepathGame(path: string): (r: string)
    ensures |r| == |path| && forall k | 0 <= k < |path| :: r[k] == GameChar(path[k])
    ensures '/' !in r
  {
    var mapped := MapGame(path);
    assert !EndsWith(mapped, ".mdx") && !EndsWith(mapped, ".mdl") by {
      if |mapped| >= 4 {
        assert mapped[|mapped| - 1] == GameChar(path[|mapped| - 1]);
      }
    }
    RemoveInconsistentNaming(mapped)
  }

  /** The Unix form: '\' becomes '/', case is kept, model names are rewritten. */
  function NormalizeFilepathUnix(path: string): (r: string)
    ensures '\\' !in r
    ensures !EndsWith(path, ".mdx") && !EndsWith(path, ".mdl") ==>
      |r| == |path| && forall k | 0 <= k < |path| :: r[k] == UnixChar(path[k])
    ensures EndsWith(path, ".mdx") || EndsWith(path, ".mdl") ==> EndsWith(r, ".m2")
  {
    var mapped := MapUnix(path);
    NoBackslashAfterRewrite(mapped);
    UnixKeepsSuffix(path, ".mdx");
    UnixKeepsSuffix(path, ".mdl");
    RemoveInconsistentNaming(mapped)
  }

  /** Mapping separators does not touch a suffix without one. */
  lemma UnixKeepsSuffix(path: string, suffix: string)
    requires '\\' !in suffix && '/' !in suffix
    ensures EndsWith(MapUnix(path), suffix) <==> EndsWith(path, suffix)
  {
    var mapped := MapUnix(path);
    if |suffix| <= |path| {
      forall k | 0 <= k < |suffix|
        ensures mapped[|path| - |suffix| + k] == suffix[k] <==> path[|path| - |suffix| + k] == suffix[k]
      {
        assert suffix[k] in suffix;
      }
      assert EndsWith(path, suffix) <==> forall k | 0 <= k < |suffix| :: path[|path| - |suffix| + k] == suffix[k];
      assert EndsWith(mapped, suffix) <==> forall k | 0 <= k < |suffix| :: mapped[|path| - |suffix| + k] == suffix[k];
    }
  }

  /**
   * The lower-case Unix form: lower case, '/' separators, and model names,
   * whatever the case of their suffix, rewritten.
   */
  function NormalizeFilepathUnixLower(path: string): (r: string)
    ensures '\\' !in r
    ensures forall k | 0 <= k < |r| :: !('A' <= r[k] <= 'Z')
    ensures !EndsWith(MapUnixLower(path), ".mdx") && !EndsWith(MapUnixLower(path), ".mdl") ==>
      |r| == |path| && forall k | 0 <= k < |path| :: r[k] == UnixLowerChar(path[k])
    ensures EndsWith(MapUnixLower(path), ".mdx") || EndsWith(MapUnixLower(path), ".mdl") ==> EndsWith(r, ".m2")
  {
    var mapped := MapUnixLower(path);
    NoBackslashAfterRewrite(mapped);
    NoUpperAfterRewrite(mapped);
    RemoveInconsistentNaming(mapped)
  }

  /** A property of characters that ".m2" has keeps holding through the rewrite. */
  lemma {:induction false} ReplaceKeeps(s: string, tail: string, p: char -> bool)
    requires |tail| == 3 && p('.') && p('m') && p('2')
    requires forall k | 0 <= k < |s| :: p(s[k])
    ensures forall k | 0 <= k < |ReplaceMatches(s, tail)| :: p(ReplaceMatches(s, tail)[k])
    decreases |s|
  {
    if |s| > 0 {
      if MatchesAt(s, tail) {
        ReplaceKeeps(s[4..], tail, p);
      } else {
        ReplaceKeeps(s[1..], tail, p);
      }
    }
  }

  lemma NoBackslashAfterRewrite(s: string)
    requires '\\' !in s
    ensures '\\' !in RemoveInconsistentNaming(s)
  {
    var p := (c: char) => c != '\\';
    assert forall k | 0 <= k < |s| :: p(s[k]);
    ReplaceKeeps(s, "mdx", p);
    ReplaceKeeps(s, "mdl", p);
    var r := RemoveInconsistentNaming(s);
    assert forall k | 0 <= k < |r| :: p(r[k]);
  }

  lemma NoUpperAfterRewrite(s: string)
    requires forall k | 0 <= k < |s| :: !('A' <= s[k] <= 'Z')
    ensures forall k | 0 <= k < |RemoveInconsistentNaming(s)| :: !('A' <= RemoveInconsistentNaming(s)[k] <= 'Z')
  {
    var p := (c: char) => !('A' <= c <= 'Z');
    ReplaceKeeps(s, "mdx", p);
    ReplaceKeeps(s, "mdl", p);
  }

  /** Normalising twice to the lower-case Unix form gives the same path as normalising once. */
  lemma UnixLowerIdempotent(path: string)
    ensures NormalizeFilepathUnixLower(NormalizeFilepathUnixLower(path)) == NormalizeFilepathUnixLower(path)
  {
    var once := NormalizeFilepathUnixLower(path);
    var mapped := MapUnixLower(once);
    assert mapped == once by {
      forall k | 0 <= k < |once|
        ensures mapped[k] == once[k]
      {
        assert once[k] != '\\' by { assert once[k] in once; }
      }
    }
    // `once` either ends in ".m2" or kept a name that was no model name
    if EndsWith(MapUnixLower(path), ".mdx") || EndsWith(MapUnixLower(path), ".mdl") {
      assert EndsWith(once, ".m2");
      assert once[|once| - 1] == '2';
    }
  }

  /** The game form keeps a ".mdx" name as ".MDX": the rewrite is never applied to it. */
  lemma GameKeepsModelSuffix()
    ensures NormalizeFilepathGame("a/b.mdx") == "A\\B.MDX"
  {
    var r := NormalizeFilepathGame("a/b.mdx");
    assert r[0] == 'A' && r[1] == '\\' && r[2] == 'B' && r[3] == '.';
    assert r[4] == 'M' && r[5] == 'D' && r[6] == 'X';
  }

  /** The Unix form rewrites the suffix: "a\b.mdx" becomes "a/b.m2". */
  lemma UnixRewritesModelSuffix()
    ensures NormalizeFilepathUnix("a\\b.mdx") == "a/b.m2"
  {
    SeparatorsExample();
    SuffixExample();
  }

  lemma SeparatorsExample()
    ensures MapUnix("a\\b.mdx") == "a/b.mdx"
  {
  }

  lemma SuffixExample()
    ensures RemoveInconsistentNaming("a/b.mdx") == "a/b.m2"
  {
    var s := "a/b.mdx";
    assert EndsWith(s, ".mdx") by { assert s[3..] == ".mdx"; }
    var s1, s2, s3 := s[1..], s[2..], s[3..];
    assert s[1..4] == "/b." && s1[1..4] == "b.m" && s2[1..4] == ".md" && s3[1..4] == "mdx";
    assert s1 == s[1..] && s2 == s1[1..] && s3 == s2[1..] && s3[4..] == [];
    calc {
      ReplaceMatches(s, "mdx");
      [s[0]] + ReplaceMatches(s1, "mdx");
      [s[0]] + ([s1[0]] + ReplaceMatches(s2, "mdx"));
      [s[0]] + ([s1[0]] + ([s2[0]] + ReplaceMatches(s3, "mdx")));
      [s[0]] + ([s1[0]] + ([s2[0]] + (".m2" + ReplaceMatches([], "mdx"))));
      "a/b.m2";
    }
  }

  /** The pattern's '.' matches any character, so an inner "xmdl" is rewritten too. */
  lemma RewriteMatchesInside()
    ensures RemoveInconsistentNaming("xmdl.mdl") == ".m2.m2"
  {
    var s := "xmdl.mdl";
    var s4 := s[4..];
    assert s4 == ".mdl" && s[1..4] == "mdl" && s4[1..4] == "mdl" && s4[4..] == [];
    assert s4[3] == 'l' && ".mdx"[3] == 'x';
    assert EndsWith(s, ".mdl") && !EndsWith(s, ".mdx");
    calc {
      ReplaceMatches(s, "mdl");
      ".m2" + ReplaceMatches(s4, "mdl");
      ".m2" + (".m2" + ReplaceMatches([], "mdl"));
      ".m2.m2";
    }
  }
}
