/**
 * `IO::Storage::ClientLoaders::BaseLoader`: the look-up of a file in the
 * loaded archives, the archive loaded last having the highest priority.
 *
 * The archives themselves are left abstract: for one file key, archive `i`
 * (in load order) is represented by what its own `ReadFile` would return,
 * or by whether its own `Exists` reports the file.
 */
module BaseLoaders {
  /** The outcomes of reading a file. */
  datatype FileReadStatus =
    | SUCCESS
    | FILE_NOT_FOUND
    | FILE_OPEN_FAILED_CLIENT
    | FILE_OPEN_FAILED_OS
    | FILE_READ_FAILED
    | NOT_ENOUGH_MEMORY
    | INVALID_FILEDATAID

  /**
   * The answer of the loaded archives: the status of the last archive that
   * does not report FILE_NOT_FOUND, or FILE_NOT_FOUND when there is none.
   */
  function Resolve(responses: seq<FileReadStatus>): (status: FileReadStatus)
  {
    if responses == [] then FILE_NOT_FOUND
    else if responses[|responses| - 1] != FILE_NOT_FOUND then responses[|responses| - 1]
    else Resolve(responses[..|responses| - 1])
  }

  /** The result is FILE_NOT_FOUND exactly when every archive misses, including when there are none. */
  lemma {:induction false} NotFoundWhenAllMiss(responses: seq<FileReadStatus>)
    ensures Resolve(responses) == FILE_NOT_FOUND
      <==> forall j | 0 <= j < |responses| :: responses[j] == FILE_NOT_FOUND
  {
    if responses != [] {
      var front := responses[..|responses| - 1];
      NotFoundWhenAllMiss(front);
      assert forall j | 0 <= j < |front| :: front[j] == responses[j];
    }
  }

  /** When archive `j` has the file and every later one misses, archive `j` decides. */
  lemma {:induction false} LastHitDecides(responses: seq<FileReadStatus>, j: nat)
    requires j < |responses| && responses[j] != FILE_NOT_FOUND
    requires forall k | j < k < |responses| :: responses[k] == FILE_NOT_FOUND
    ensures Resolve(responses) == responses[j]
  {
    if j < |responses| - 1 {
      var front := responses[..|responses| - 1];
      LastHitDecides(front, j);
    }
  }

  /** An archive loaded after all the others that has the file decides the result. */
  lemma {:induction false} LatestArchiveWins(responses: seq<FileReadStatus>, latest: FileReadStatus)
    requires latest != FILE_NOT_FOUND
    ensures Resolve(responses + [latest]) == latest
  {
    assert (responses + [latest])[|responses|] == latest;
  }

  /** Archives that do not have the file can be loaded on top without changing the result. */
  lemma {:induction false} MissesDoNotMatter(responses: seq<FileReadStatus>, misses: seq<FileReadStatus>)
    requires forall k | 0 <= k < |misses| :: misses[k] == FILE_NOT_FOUND
    ensures Resolve(responses + misses) == Resolve(responses)
    decreases |misses|
  {
    if misses != [] {
      var front := misses[..|misses| - 1];
      assert (responses + misses)[..|responses + misses| - 1] == responses + front;
      MissesDoNotMatter(responses, front);
    } else {
      assert responses + misses == responses;
    }
  }

  /**
   * `ReadFile`: asks the archives from the last loaded to the first and
   * returns the first status that is not FILE_NOT_FOUND. `queried` lists the
   * archives asked, in the order they were asked.
   */
  method ReadFile(responses: seq<FileReadStatus>) returns (status: FileReadStatus, queried: seq<nat>)
    ensures status == Resolve(responses)
    ensures |queried| <= |responses| && forall k | 0 <= k < |queried| :: queried[k] == |responses| - 1 - k
    ensures status == FILE_NOT_FOUND ==> |queried| == |responses|
    ensures status != FILE_NOT_FOUND ==> |queried| > 0 && responses[queried[|queried| - 1]] == status
  {
    queried := [];
    var i := |responses|;
    assert responses[..i] == responses;
    while i > 0
      invariant 0 <= i <= |responses| && |queried| == |responses| - i
      invariant forall k | 0 <= k < |queried| :: queried[k] == |responses| - 1 - k
      invariant Resolve(responses) == Resolve(responses[..i])
    {
      i := i - 1;
      queried := queried + [i];
      if responses[i] != FILE_NOT_FOUND {
        assert responses[..i + 1][i] == responses[i];
        return responses[i], queried;
      }
      assert responses[..i + 1][..i] == responses[..i];
    }
    return FILE_NOT_FOUND, queried;
  }

  /** `Exists`: whether some loaded archive reports the file, asking from the last loaded. */
  method Exists(present: seq<bool>) returns (found: bool)
    ensures found <==> exists j | 0 <= j < |present| :: present[j]
  {
    var i := |present|;
    while i > 0
      invariant 0 <= i <= |present|
      invariant forall j | i <= j < |present| :: !present[j]
    {
      i := i - 1;
      if present[i] {
        return true;
      }
    }
    return false;
  }
}
