/**
 * The context resolver of the Instagram floating-image canvas: the thread id
 * read from the page path, the fixed set of threads that get an overlay, and
 * the storage key each thread's images live under.
 */
module IgThread {
  import opened Maybe
  import opened JsText

  /** The direct-message threads that get an overlay, in two halves of the source's list. */
  const FirstThreadIds: set<string> := {
    "17843088840319857", "9804712362974725", "17849539664607285", "1421105996287938",
    "17846226593822368", "105870034142833", "17849224223494131", "17844082992109595"
  }
  const LastThreadIds: set<string> := {
    "17845605576211591", "17846265992645472", "17848945131046879", "17842703340524797",
    "17845325259431010", "17842103414112951", "17849831711501991", "17848657521425015"
  }
  const ValidThreadIds: set<string> := FirstThreadIds + LastThreadIds

  const DirectPrefix: string := "/direct/t/"

  /** The pattern `/\/direct\/t\/(\d+)/` matches at index `i` of the path. */
  predicate ThreadMatchAt(path: string, i: int) {
    OccursAt(path, DirectPrefix, i) && i + |DirectPrefix| < |path| && IsDigit(path[i + |DirectPrefix|])
  }

  /** `i` is the leftmost index where the pattern matches. */
  predicate LeftmostThreadMatch(path: string, i: int) {
    ThreadMatchAt(path, i) && forall j :: 0 <= j < i ==> !ThreadMatchAt(path, j)
  }

  /** `run` is the maximal run of digits starting at index `k`. */
  predicate MaximalDigitRunAt(path: string, k: int, run: string) {
    OccursAt(path, run, k) && AllDigits(run) && (k + |run| < |path| ==> !IsDigit(path[k + |run|]))
  }

  /**
   * getThreadId: the digits captured by the leftmost match of
   * `/\/direct\/t\/(\d+)/`, or none (`null`) when the path has no match.
   */
  function GetThreadId(path: string): (r: Option<string>)
    ensures r.None? <==> forall i :: !ThreadMatchAt(path, i)
    ensures r.Some? ==> |r.value| >= 1
    ensures r.Some? ==> exists i :: LeftmostThreadMatch(path, i)
                                   && MaximalDigitRunAt(path, i + |DirectPrefix|, r.value)
  {
    var p := i => ThreadMatchAt(path, i);
    assert forall j :: p(j) == ThreadMatchAt(path, j);
    match FirstIndex(p, 0, |path|)
    case None => None
    case Some(i) =>
      var k := i + |DirectPrefix|;
      var run := TakeWhile(path[k..], IsDigit);
      assert path[k..][..|run|] == path[k..k + |run|];
      assert LeftmostThreadMatch(path, i);
      Some(run)
  }

  /** Inside a digit run the path holds a digit. */
  lemma DigitInRun(path: string, k: int, run: string, m: int)
    ensures OccursAt(path, run, k) && AllDigits(run) && 0 <= m < |run| ==> IsDigit(path[k + m])
  {
    if OccursAt(path, run, k) && AllDigits(run) && 0 <= m < |run| {
      assert path[k + m] == run[m];
    }
  }

  /** Two maximal digit runs from the same index are the same run. */
  lemma MaximalDigitRunUnique(path: string, k: int, a: string, b: string)
    requires MaximalDigitRunAt(path, k, a) && MaximalDigitRunAt(path, k, b)
    ensures a == b
  {
    DigitInRun(path, k, b, |a|);
    DigitInRun(path, k, a, |b|);
    assert |a| == |b|;
    assert a == path[k..k + |a|];
  }

  /** A path that is `/direct/t/` followed by a digit string (and no further digit) names that thread. */
  lemma ThreadIdOfDirectPath(id: string, rest: string)
    requires |id| >= 1 && AllDigits(id)
    requires rest == [] || !IsDigit(rest[0])
    ensures GetThreadId(DirectPrefix + id + rest) == Some(id)
  {
    var path := DirectPrefix + id + rest;
    var k := |DirectPrefix|;
    assert path[..k] == DirectPrefix;
    assert path[k] == id[0];
    assert ThreadMatchAt(path, 0);
    assert path[k..k + |id|] == id;
    assert k + |id| < |path| ==> path[k + |id|] == rest[0];
    assert MaximalDigitRunAt(path, k, id);
    var r := GetThreadId(path);
    var i :| LeftmostThreadMatch(path, i) && MaximalDigitRunAt(path, i + k, r.value);
    assert i == 0;
    MaximalDigitRunUnique(path, k, r.value, id);
  }

  const StoragePrefix: string := "floating-canvas::instagram::"

  /**
   * storageKey: the fixed prefix followed by the current thread id; a
   * template literal prints a missing (`null`) thread as "null".
   */
  function StorageKey(thread: Option<string>): (k: string)
    ensures StartsWith(k, StoragePrefix)
  {
    StoragePrefix + (match thread case Some(id) => id case None => "null")
  }

  /** Distinct threads never share a storage key (no thread id is the text "null"). */
  lemma StorageKeyInjective(a: Option<string>, b: Option<string>)
    requires a != Some("null") && b != Some("null")
    requires StorageKey(a) == StorageKey(b)
    ensures a == b
  {
    var n := |StoragePrefix|;
    assert StorageKey(a)[n..] == StorageKey(b)[n..];
  }

  /**
   * The guard of checkThreadChange: the path names a thread, it is not the
   * current one, and it is one of the valid threads.
   */
  predicate Switches(current: Option<string>, path: string) {
    var id := GetThreadId(path);
    id.Some? && id != current && id.value in ValidThreadIds
  }

  /** The current thread after checkThreadChange. */
  function NextThread(current: Option<string>, path: string): (r: Option<string>)
    ensures r == current || (r == GetThreadId(path) && r.Some? && r.value in ValidThreadIds)
  {
    if Switches(current, path) then GetThreadId(path) else current
  }

  /**
   * After a check the current thread is the path's thread or unchanged, so a
   * second check of the same path never switches again.
   */
  lemma NextThreadIdempotent(current: Option<string>, path: string)
    ensures !Switches(NextThread(current, path), path)
    ensures NextThread(NextThread(current, path), path) == NextThread(current, path)
  {
  }

  /**
   * A path without a thread id, or with an id outside the valid set, leaves
   * the current thread as it is; a valid id becomes the current thread.
   */
  lemma NextThreadCases(current: Option<string>, path: string)
    ensures GetThreadId(path).None? ==> NextThread(current, path) == current
    ensures GetThreadId(path).Some? && GetThreadId(path).value !in ValidThreadIds
            ==> NextThread(current, path) == current
    ensures GetThreadId(path).Some? && GetThreadId(path).value in ValidThreadIds
            ==> NextThread(current, path) == GetThreadId(path)
  {
  }

  /** Once a thread is current, some valid thread stays current. */
  lemma NextThreadStaysValid(current: Option<string>, path: string)
    requires current.Some? ==> current.value in ValidThreadIds
    ensures NextThread(current, path).Some? ==> NextThread(current, path).value in ValidThreadIds
    ensures current.Some? ==> NextThread(current, path).Some?
  {
  }

  /** Every valid thread id is a run of at least fifteen digits, so the path pattern reads it whole. */
  lemma ValidIdsAreNumeric()
    ensures forall id :: id in ValidThreadIds ==> |id| >= 15 && AllDigits(id)
  {
    FirstIdsAreNumeric();
    LastIdsAreNumeric();
  }

  lemma FirstIdsAreNumeric()
    ensures forall id :: id in FirstThreadIds ==> |id| >= 15 && AllDigits(id)
  {
    forall id | id in FirstThreadIds
      ensures |id| >= 15 && AllDigits(id)
    {
      if id == "17843088840319857" {} else if id == "9804712362974725" {}
      else if id == "17849539664607285" {} else if id == "1421105996287938" {}
      else if id == "17846226593822368" {} else if id == "105870034142833" {}
      else if id == "17849224223494131" {} else {}
    }
  }

  lemma LastIdsAreNumeric()
    ensures forall id :: id in LastThreadIds ==> |id| >= 15 && AllDigits(id)
  {
    forall id | id in LastThreadIds
      ensures |id| >= 15 && AllDigits(id)
    {
      if id == "17845605576211591" {} else if id == "17846265992645472" {}
      else if id == "17848945131046879" {} else if id == "17842703340524797" {}
      else if id == "17845325259431010" {} else if id == "17842103414112951" {}
      else if id == "17849831711501991" {} else {}
    }
  }
}
