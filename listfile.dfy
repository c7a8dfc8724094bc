/**
 * `IO::Storage::Listfile`: the two-way association between FileDataIDs
 * and game-form file paths, held in a `boost::bimap` whose two sides are
 * both unique, and the largest ID handed out so far.
 *
 * `boost::bimap` is not part of this model; its `insert` is modelled as
 * documented: it refuses a pair whose ID or whose path is already present.
 * The listfile buffer is passed as its contents, one `char` per byte.
 */
module Listfiles {
  import opened PathUtils

  // ---------------------------------------------------------------------
  // The ID <-> path map
  // ---------------------------------------------------------------------

  /** Both views of the bimap: IDs to paths and paths to IDs. */
  datatype PathMap = PathMap(byId: map<nat, string>, byPath: map<string, nat>)
  {
    /** The two views are inverse to each other. */
    ghost predicate Valid()
    {
      (forall id | id in byId :: byId[id] in byPath && byPath[byId[id]] == id)
      && (forall p | p in byPath :: byPath[p] in byId && byId[byPath[p]] == p)
    }
  }

  const EMPTY: PathMap := PathMap(map[], map[])

  /** `insert`: refused, leaving the map as it is, when the ID or the path is already present. */
  function Insert(m: PathMap, id: nat, path: string): (r: PathMap)
    requires m.Valid()
    ensures r.Valid()
    ensures id in m.byId || path in m.byPath ==> r == m
    ensures !(id in m.byId || path in m.byPath) ==>
      r.byId.Keys == m.byId.Keys + {id} && r.byPath.Keys == m.byPath.Keys + {path}
      && r.byId[id] == path && r.byPath[path] == id
      && (forall i | i in m.byId :: r.byId[i] == m.byId[i])
  {
    if id in m.byId || path in m.byPath then m
    else PathMap(m.byId[id := path], m.byPath[path := id])
  }

  // ---------------------------------------------------------------------
  // Splitting the listfile buffer into lines
  // ---------------------------------------------------------------------

  /**
   * The lines completed and the line in progress after scanning `s`:
   * '\r' is skipped and '\n' completes a line.
   */
  function Scan(s: string): (r: (seq<string>, string))
  {
    if s == [] then ([], [])
    else
      var before := Scan(s[..|s| - 1]);
      var c := s[|s| - 1];
      if c == '\r' then before
      else if c == '\n' then (before.0 + [before.1], [])
      else (before.0, before.1 + [c])
  }

  /** The paths the buffer constructor reads: every completed line, then a non-empty rest. */
  function Lines(contents: string): (lines: seq<string>)
  {
    var scanned := Scan(contents);
    if scanned.1 == [] then scanned.0 else scanned.0 + [scanned.1]
  }

  /** `s` without its '\r' characters. */
  function StripCR(s: string): (r: string)
    ensures '\r' !in r
  {
    if s == [] then []
    else StripCR(s[..|s| - 1]) + (if s[|s| - 1] == '\r' then [] else [s[|s| - 1]])
  }

  /** The lines each followed by '\n'. */
  function Joined(lines: seq<string>): string
  {
    if lines == [] then [] else Joined(lines[..|lines| - 1]) + lines[|lines| - 1] + "\n"
  }

  predicate NoBreaks(line: string)
  {
    '\n' !in line && '\r' !in line
  }

  /**
   * Scanning loses nothing but the '\r's: the completed lines, each with
   * its '\n', followed by the line in progress, spell out the input.
   */
  lemma {:induction false} ScanSplits(s: string)
    ensures Joined(Scan(s).0) + Scan(s).1 == StripCR(s)
  {
    if s != [] {
      var p := s[..|s| - 1];
      ScanSplits(p);
      var lines, current := Scan(p).0, Scan(p).1;
      var c := s[|s| - 1];
      if c == '\n' {
        JoinedSnoc(lines, current);
      } else if c != '\r' {
        assert Joined(lines) + (current + [c]) == (Joined(lines) + current) + [c];
      }
    }
  }

  lemma JoinedSnoc(lines: seq<string>, line: string)
    ensures Joined(lines + [line]) == Joined(lines) + line + "\n"
  {
    assert (lines + [line])[..|lines|] == lines;
  }

  /** No line, complete or in progress, holds a '\n' or a '\r'. */
  lemma {:induction false} ScanLinesPlain(s: string)
    ensures (forall k | 0 <= k < |Scan(s).0| :: NoBreaks(Scan(s).0[k])) && NoBreaks(Scan(s).1)
  {
    if s != [] {
      ScanLinesPlain(s[..|s| - 1]);
    }
  }

  /** Every line read holds neither '\n' nor '\r', and the lines spell out the buffer without its '\r's. */
  lemma LinesOfBuffer(contents: string)
    ensures forall k | 0 <= k < |Lines(contents)| :: NoBreaks(Lines(contents)[k])
    ensures Joined(Lines(contents)) == StripCR(contents)
      || Joined(Lines(contents)) == StripCR(contents) + "\n"
  {
    ScanSplits(contents);
    ScanLinesPlain(contents);
    var lines, current := Scan(contents).0, Scan(contents).1;
    if current != [] {
      JoinedSnoc(lines, current);
    }
  }

  // ---------------------------------------------------------------------
  // Building the map from lines
  // ---------------------------------------------------------------------

  /**
   * The map and largest ID after inserting each line's game-form path under
   * the next ID, starting after `maxId`. Every line takes an ID, even one
   * whose path is already present and so is not inserted.
   */
  function InsertLines(m: PathMap, maxId: nat, paths: seq<string>): (r: (PathMap, nat))
    requires m.Valid()
    ensures r.0.Valid() && r.1 == maxId + |paths|
  {
    if paths == [] then (m, maxId)
    else
      var (m1, id1) := InsertLines(m, maxId, paths[..|paths| - 1]);
      (Insert(m1, id1 + 1, paths[|paths| - 1]), id1 + 1)
  }

  /** The path on line `id` (IDs count lines from 1). */
  function PathOfLine(paths: seq<string>, id: nat): string
    requires 1 <= id <= |paths|
  {
    paths[id - 1]
  }

  /** The game-form path of each line. */
  function GamePaths(lines: seq<string>): (paths: seq<string>)
    ensures |paths| == |lines|
    ensures forall k | 0 <= k < |lines| :: paths[k] == NormalizeFilepathGame(lines[k])
  {
    seq(|lines|, k requires 0 <= k < |lines| => NormalizeFilepathGame(lines[k]))
  }

  /** Line k (from 1) is the only candidate for ID k. */
  ghost predicate IdsFromLines(paths: seq<string>, m: PathMap)
  {
    forall id | id in m.byId :: 1 <= id <= |paths| && m.byId[id] == PathOfLine(paths, id)
  }

  /** Every line's game-form path is present, under the ID of its first occurrence. */
  ghost predicate PathsAtFirst(paths: seq<string>, m: PathMap)
  {
    forall k | 1 <= k <= |paths| :: FirstIdOf(paths, k) in m.byId
      && PathOfLine(paths, k) in m.byPath && m.byPath[PathOfLine(paths, k)] == FirstIdOf(paths, k)
  }

  /**
   * What the buffer constructor stores: every line takes the next ID, line
   * k (from 1) is the only candidate for ID k, and every line's path is
   * found under the ID of its first occurrence.
   */
  lemma {:induction false} LinesGetIds(paths: seq<string>)
    ensures InsertLines(EMPTY, 0, paths).1 == |paths|
    ensures IdsFromLines(paths, InsertLines(EMPTY, 0, paths).0)
    ensures PathsAtFirst(paths, InsertLines(EMPTY, 0, paths).0)
  {
    if paths != [] {
      var front := paths[..|paths| - 1];
      LinesGetIds(front);
      var m1 := InsertLines(EMPTY, 0, front).0;
      StepIds(paths, front, m1);
      StepPaths(paths, front, m1);
    }
  }

  /** The paths before the last have the same paths and first occurrences with or without it. */
  lemma PrefixLines(paths: seq<string>, front: seq<string>)
    requires |paths| >= 1 && front == paths[..|paths| - 1]
    ensures forall k | 1 <= k < |paths| :: PathOfLine(paths, k) == PathOfLine(front, k)
    ensures forall k | 1 <= k < |paths| :: FirstIdOf(paths, k) == FirstIdOf(front, k)
  {
    forall k | 1 <= k < |paths|
      ensures FirstIdOf(paths, k) == FirstIdOf(front, k)
    {
      FirstIdPrefix(paths, front, k);
    }
  }

  lemma StepIds(paths: seq<string>, front: seq<string>, m1: PathMap)
    requires |paths| >= 1 && front == paths[..|paths| - 1]
    requires m1.Valid() && IdsFromLines(front, m1)
    ensures IdsFromLines(paths, Insert(m1, |paths|, PathOfLine(paths, |paths|)))
  {
    PrefixLines(paths, front);
  }

  lemma StepPaths(paths: seq<string>, front: seq<string>, m1: PathMap)
    requires |paths| >= 1 && front == paths[..|paths| - 1]
    requires m1.Valid() && IdsFromLines(front, m1) && PathsAtFirst(front, m1)
    ensures PathsAtFirst(paths, Insert(m1, |paths|, PathOfLine(paths, |paths|)))
  {
    if PathOfLine(paths, |paths|) in m1.byPath {
      StepPathsDuplicate(paths, front, m1);
    } else {
      NewPathOfLast(paths, front, m1);
      StepPathsNew(paths, front, m1);
    }
  }

  lemma StepPathsDuplicate(paths: seq<string>, front: seq<string>, m1: PathMap)
    requires |paths| >= 1 && front == paths[..|paths| - 1]
    requires m1.Valid() && IdsFromLines(front, m1) && PathsAtFirst(front, m1)
    requires PathOfLine(paths, |paths|) in m1.byPath
    ensures PathsAtFirst(paths, m1)
  {
    var n := |paths|;
    var path := PathOfLine(paths, n);
    PrefixLines(paths, front);
    var j := m1.byPath[path];
    assert 1 <= j < n && PathOfLine(front, j) == path;
    FirstIdOfDuplicate(paths, j, n);
    forall k | 1 <= k <= n
      ensures FirstIdOf(paths, k) in m1.byId
      ensures PathOfLine(paths, k) in m1.byPath && m1.byPath[PathOfLine(paths, k)] == FirstIdOf(paths, k)
    {
      if k < n {
        assert FirstIdOf(front, k) in m1.byId;
      } else {
        assert FirstIdOf(front, j) in m1.byId;
      }
    }
  }

  lemma NewPathOfLast(paths: seq<string>, front: seq<string>, m1: PathMap)
    requires |paths| >= 1 && front == paths[..|paths| - 1]
    requires PathsAtFirst(front, m1) && PathOfLine(paths, |paths|) !in m1.byPath
    ensures FirstIdOf(paths, |paths|) == |paths|
  {
    PrefixLines(paths, front);
    forall k | 1 <= k < |paths|
      ensures PathOfLine(paths, k) != PathOfLine(paths, |paths|)
    {
      assert PathOfLine(front, k) in m1.byPath;
    }
    FirstIdOfNew(paths, |paths|);
  }

  lemma StepPathsNew(paths: seq<string>, front: seq<string>, m1: PathMap)
    requires |paths| >= 1 && front == paths[..|paths| - 1]
    requires m1.Valid() && IdsFromLines(front, m1) && PathsAtFirst(front, m1)
    requires PathOfLine(paths, |paths|) !in m1.byPath && FirstIdOf(paths, |paths|) == |paths|
    ensures PathsAtFirst(paths, Insert(m1, |paths|, PathOfLine(paths, |paths|)))
  {
    PrefixLines(paths, front);
    var n := |paths|;
    assert n !in m1.byId;
  }

  /** The first line, counting from 1, with the same path as line `k`. */
  function FirstIdOf(paths: seq<string>, k: nat): (id: nat)
    requires 1 <= k <= |paths|
    ensures 1 <= id <= k && PathOfLine(paths, id) == PathOfLine(paths, k)
    ensures forall j | 1 <= j < id :: PathOfLine(paths, j) != PathOfLine(paths, k)
  {
    FirstFrom(paths, k, 1)
  }

  function FirstFrom(paths: seq<string>, k: nat, j: nat): (id: nat)
    requires 1 <= j <= k <= |paths|
    requires forall i | 1 <= i < j :: PathOfLine(paths, i) != PathOfLine(paths, k)
    ensures j <= id <= k && PathOfLine(paths, id) == PathOfLine(paths, k)
    ensures forall i | 1 <= i < id :: PathOfLine(paths, i) != PathOfLine(paths, k)
    decreases k - j
  {
    if PathOfLine(paths, j) == PathOfLine(paths, k) then j else FirstFrom(paths, k, j + 1)
  }

  lemma FirstIdPrefix(paths: seq<string>, front: seq<string>, k: nat)
    requires 1 <= k < |paths| && front == paths[..|paths| - 1]
    ensures FirstIdOf(paths, k) == FirstIdOf(front, k)
  {
    var a, b := FirstIdOf(paths, k), FirstIdOf(front, k);
    assert PathOfLine(paths, a) == PathOfLine(front, a);
    assert PathOfLine(paths, b) == PathOfLine(front, b);
  }

  lemma FirstIdOfDuplicate(paths: seq<string>, j: nat, n: nat)
    requires n == |paths| && 1 <= j < n && PathOfLine(paths, j) == PathOfLine(paths, n)
    ensures FirstIdOf(paths, n) == FirstIdOf(paths, j)
  {
  }

  lemma FirstIdOfNew(paths: seq<string>, n: nat)
    requires n == |paths| >= 1
    requires forall k | 1 <= k < n :: PathOfLine(paths, k) != PathOfLine(paths, n)
    ensures FirstIdOf(paths, n) == n
  {
  }

  // ---------------------------------------------------------------------
  // Look-ups that add
  // ---------------------------------------------------------------------

  /** The decimal digits of `n`, as `std::to_string` writes them. */
  function Decimal(n: nat): (s: string)
    ensures |s| > 0 && forall k | 0 <= k < |s| :: '0' <= s[k] <= '9'
    ensures n < 10 <==> |s| == 1
  {
    if n < 10 then [(n + '0' as int) as char] else Decimal(n / 10) + [(n % 10 + '0' as int) as char]
  }

  /** The placeholder path of an unknown ID. */
  function Placeholder(id: nat): (path: string)
    ensures |path| > 8 && path[..8] == "UNKNOWN\\"
  {
    "UNKNOWN\\" + Decimal(id)
  }

  /**
   * `GetOrAddFileDataID` on the map and the largest ID: the ID of a known
   * path, or else the next ID, inserted with the path.
   */
  function AddPath(m: PathMap, maxId: nat, path: string): (r: (PathMap, nat, nat))
    requires m.Valid()
    ensures r.0.Valid()
    ensures path in m.byPath ==> r == (m, maxId, m.byPath[path])
    ensures path !in m.byPath ==> r.1 == maxId + 1 && r.2 == maxId + 1
  {
    if path in m.byPath then (m, maxId, m.byPath[path])
    else (Insert(m, maxId + 1, path), maxId + 1, maxId + 1)
  }

  /**
   * `GetOrGenerateFilepath` as written: an unknown ID is inserted with its
   * placeholder path, and the largest ID is left as it was.
   */
  function GenerateAsWritten(m: PathMap, maxId: nat, id: nat): (r: (PathMap, nat, string))
    requires m.Valid()
    ensures r.0.Valid() && r.1 == maxId
  {
    if id in m.byId then (m, maxId, m.byId[id])
    else (Insert(m, id, Placeholder(id)), maxId, Placeholder(id))
  }

  /**
   * `GetOrGenerateFilepath` as intended: as written, but an ID above the
   * largest becomes the largest, so that `GetOrAddFileDataID` never hands
   * it out again.
   */
  function Generate(m: PathMap, maxId: nat, id: nat): (r: (PathMap, nat, string))
    requires m.Valid()
    ensures r.0.Valid() && r.1 >= maxId
    ensures id in m.byId ==> r == (m, maxId, m.byId[id])
    ensures id !in m.byId ==> (r.1 >= id && r.2 == Placeholder(id))
    ensures id !in m.byId && Placeholder(id) !in m.byPath ==> id in r.0.byId && r.0.byId[id] == Placeholder(id)
  {
    if id in m.byId then (m, maxId, m.byId[id])
    else (Insert(m, id, Placeholder(id)), if id > maxId then id else maxId, Placeholder(id))
  }

  /** No ID in the map lies above the largest one handed out. */
  ghost predicate Bounded(m: PathMap, maxId: nat)
  {
    m.Valid() && forall id | id in m.byId :: id <= maxId
  }

  /** While the map stays bounded, `GetOrAddFileDataID` returns an ID that names the path. */
  lemma AddPathNamesPath(m: PathMap, maxId: nat, path: string)
    requires Bounded(m, maxId)
    ensures var (m1, max1, id) := AddPath(m, maxId, path);
      Bounded(m1, max1) && id in m1.byId && m1.byId[id] == path && m1.byPath[path] == id
  {
  }

  lemma GenerateKeepsBounded(m: PathMap, maxId: nat, id: nat)
    requires Bounded(m, maxId)
    ensures var (m1, max1, _) := Generate(m, maxId, id); Bounded(m1, max1)
  {
  }

  /** One more line inserts its game-form path under the next ID. */
  lemma InsertLinesSnoc(lines: seq<string>, line: string)
    ensures var before := InsertLines(EMPTY, 0, GamePaths(lines));
      InsertLines(EMPTY, 0, GamePaths(lines + [line]))
        == (Insert(before.0, before.1 + 1, NormalizeFilepathGame(line)), before.1 + 1)
  {
    var paths := GamePaths(lines + [line]);
    assert paths[..|lines|] == GamePaths(lines);
  }

  /** Scanning one more character. */
  lemma ScanStep(s: string, i: nat)
    requires i < |s|
    ensures var before := Scan(s[..i]);
      Scan(s[..i + 1]) == if s[i] == '\r' then before
        else if s[i] == '\n' then (before.0 + [before.1], [])
        else (before.0, before.1 + [s[i]])
  {
    assert s[..i + 1][..i] == s[..i];
  }

  /** The buffer constructor leaves no ID above the largest. */
  lemma InsertLinesBounded(lines: seq<string>)
    ensures Bounded(InsertLines(EMPTY, 0, lines).0, InsertLines(EMPTY, 0, lines).1)
  {
    LinesGetIds(lines);
  }

  /**
   * As written, generating a path for ID 1 in an empty listfile leaves the
   * largest ID at 0, so adding "X" then returns ID 1, which still names the
   * placeholder, and "X" is not stored at all.
   */
  lemma AddAfterGenerateAsWritten()
    ensures var (m1, max1, _) := GenerateAsWritten(EMPTY, 0, 1);
      var (m2, _, id) := AddPath(m1, max1, "X");
      id == 1 && m2.byId[1] == Placeholder(1) && "X" !in m2.byPath
  {
    var (m1, max1, _) := GenerateAsWritten(EMPTY, 0, 1);
    assert m1.byId == map[1 := Placeholder(1)];
    assert "X" != Placeholder(1) by { assert Placeholder(1)[0] == 'U'; }
  }

  // ---------------------------------------------------------------------
  // The listfile object
  // ---------------------------------------------------------------------

  datatype FileDataIdPolicy = Real | Internal

  class Listfile {
    var paths: PathMap
    var maxId: nat
    var policy: FileDataIdPolicy

    ghost predicate Valid()
      reads this
    {
      Bounded(paths, maxId)
    }

    /**
     * The buffer constructor: each line, with '\r' dropped, gets the next
     * ID from 1 on and is stored in game form; a rest after the last '\n'
     * counts as a line when it is not empty.
     */
    constructor FromBuffer(contents: string)
      ensures (paths, maxId) == InsertLines(EMPTY, 0, GamePaths(Lines(contents)))
      ensures policy == Internal && Valid()
    {
      var m := EMPTY;
      var max: nat := 0;
      var current: string := [];
      ghost var lines: seq<string> := [];
      var i := 0;
      while i < |contents|
        invariant i <= |contents|
        invariant Scan(contents[..i]) == (lines, current)
        invariant m == InsertLines(EMPTY, 0, GamePaths(lines)).0
        invariant max == InsertLines(EMPTY, 0, GamePaths(lines)).1
      {
        var c := contents[i];
        ScanStep(contents, i);
        if c == '\r' {
        } else if c == '\n' {
          InsertLinesSnoc(lines, current);
          max := max + 1;
          m := Insert(m, max, NormalizeFilepathGame(current));
          lines := lines + [current];
          current := [];
        } else {
          current := current + [c];
        }
        i := i + 1;
      }
      assert contents[..i] == contents;
      if current != [] {
        InsertLinesSnoc(lines, current);
        max := max + 1;
        m := Insert(m, max, NormalizeFilepathGame(current));
      }
      paths, maxId, policy := m, max, Internal;
      InsertLinesBounded(GamePaths(Lines(contents)));
    }

    /** The ID of `path`, or the next ID, inserted with `path`. */
    method GetOrAddFileDataID(path: string) returns (id: nat)
      requires Valid()
      modifies this
      ensures (paths, maxId, id) == AddPath(old(paths), old(maxId), path)
      ensures Valid() && paths.byId[id] == path
    {
      AddPathNamesPath(paths, maxId, path);
      if path in paths.byPath {
        return paths.byPath[path];
      }
      maxId := maxId + 1;
      paths := Insert(paths, maxId, path);
      return maxId;
    }

    /** The path of `id`, or else its placeholder "UNKNOWN\<id>", inserted when no other ID holds it. */
    method GetOrGenerateFilepath(id: nat) returns (path: string)
      requires Valid()
      modifies this
      ensures (paths, maxId, path) == Generate(old(paths), old(maxId), id)
      ensures Valid()
    {
      GenerateKeepsBounded(paths, maxId, id);
      if id in paths.byId {
        return paths.byId[id];
      }
      path := Placeholder(id);
      paths := Insert(paths, id, path);
      if id > maxId {
        maxId := id;
      }
    }

    /** The ID of `path`, or 0 when it is not present. */
    function GetFileDataIdForFilepath(path: string): (id: nat)
      requires Valid()
      reads this
      ensures path in paths.byPath ==> id in paths.byId && paths.byId[id] == path
      ensures path !in paths.byPath ==> id == 0
    {
      if path in paths.byPath then paths.byPath[path] else 0
    }

    /** Whether `id` is present. */
    function Exists(id: nat): (b: bool)
      reads this
      ensures b <==> id in paths.byId
    {
      id in paths.byId
    }
  }
}
