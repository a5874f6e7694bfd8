/** Whether a result is out of date (src/modification.rs). A file is its
    modification time in nanoseconds since the epoch, or missing. Errors
    reading a present file's metadata are not modelled. */
module Modification {
  import opened Wrappers

  /** `u128::MAX`. */
  const U128Max: nat := 0xFFFF_FFFF_FFFF_FFFF_FFFF_FFFF_FFFF_FFFF

  /** A file: `None` when it does not exist. */
  type FileTime = Option<nat>

  /** Every present file's time fits the `u128` it is read into. */
  predicate Fits(files: seq<FileTime>)
  {
    forall k :: 0 <= k < |files| && files[k].Some? ==> files[k].value <= U128Max
  }

  predicate AllPresent(files: seq<FileTime>)
  {
    forall k :: 0 <= k < |files| ==> files[k].Some?
  }

  /** The loop of `min_duration` from `acc` on: a missing file ends it with
      0, otherwise the least time is kept. */
  function MinFrom(files: seq<FileTime>, acc: nat): nat
  {
    if |files| == 0 then acc
    else
      match files[0]
      case None => 0
      case Some(d) => MinFrom(files[1..], if d < acc then d else acc)
  }

  /** `min_duration`: the earliest time, 0 if a file is missing, `u128::MAX`
      for no files. */
  function MinDuration(files: seq<FileTime>): nat
  {
    MinFrom(files, U128Max)
  }

  /** The loop of `max_duration` from `acc` on: a missing file is an error,
      otherwise the latest time is kept. */
  function MaxFrom(files: seq<FileTime>, acc: nat): Result<nat>
  {
    if |files| == 0 then Ok(acc)
    else
      match files[0]
      case None => Err("Modification check failed. File is missing.")
      case Some(d) => MaxFrom(files[1..], if d > acc then d else acc)
  }

  /** `max_duration`: the latest time, 0 for no files. */
  function MaxDuration(files: seq<FileTime>): Result<nat>
  {
    MaxFrom(files, 0)
  }

  /** `was_modified`: some source is at least as new as the oldest result. */
  function WasModified(sources: seq<FileTime>, results: seq<FileTime>): Result<bool>
  {
    var oldest := MinDuration(results);
    var newest :- MaxDuration(sources);
    Ok(oldest <= newest)
  }

  /** The minimum is 0 when a file is missing; otherwise it is no later than
      any file and either the start value or one of the files' times. */
  lemma {:induction false} MinFromIs(files: seq<FileTime>, acc: nat)
    ensures !AllPresent(files) ==> MinFrom(files, acc) == 0
    ensures AllPresent(files) ==>
              MinFrom(files, acc) <= acc
              && (forall k :: 0 <= k < |files| ==> MinFrom(files, acc) <= files[k].value)
              && (MinFrom(files, acc) == acc || exists k :: 0 <= k < |files| && MinFrom(files, acc) == files[k].value)
  {
    if |files| > 0 && files[0].Some? {
      var d := files[0].value;
      MinFromIs(files[1..], if d < acc then d else acc);
      assert forall k :: 1 <= k < |files| ==> files[1..][k - 1] == files[k];
      if !AllPresent(files) {
        var k :| 0 <= k < |files| && files[k].None?;
        assert files[1..][k - 1].None?;
      }
    }
  }

  /** The maximum is an error iff a file is missing; otherwise it is no
      earlier than any file and either the start value or one of the
      files' times. */
  lemma {:induction false} MaxFromIs(files: seq<FileTime>, acc: nat)
    ensures MaxFrom(files, acc).Ok? <==> AllPresent(files)
    ensures MaxFrom(files, acc).Ok? ==>
              acc <= MaxFrom(files, acc).value
              && (forall k :: 0 <= k < |files| ==> files[k].value <= MaxFrom(files, acc).value)
              && (MaxFrom(files, acc).value == acc || exists k :: 0 <= k < |files| && MaxFrom(files, acc).value == files[k].value)
  {
    if |files| > 0 && files[0].Some? {
      var d := files[0].value;
      MaxFromIs(files[1..], if d > acc then d else acc);
      assert forall k :: 1 <= k < |files| ==> files[1..][k - 1] == files[k];
      if !AllPresent(files) {
        var k :| 0 <= k < |files| && files[k].None?;
        assert files[1..][k - 1].None?;
      }
    }
  }

  /** Against a reference without the loop: the check fails iff a source is
      missing; a missing result always counts as modified; with all files
      present and at least one of each it is modified iff some result is
      no newer than some source. */
  lemma WasModifiedIff(sources: seq<FileTime>, results: seq<FileTime>)
    requires Fits(results)
    ensures WasModified(sources, results).Ok? <==> AllPresent(sources)
    ensures AllPresent(sources) && !AllPresent(results) ==> WasModified(sources, results) == Ok(true)
    ensures AllPresent(sources) && AllPresent(results) && |results| > 0 && |sources| > 0 ==>
              (WasModified(sources, results) == Ok(true) <==>
                 exists i, j :: 0 <= i < |results| && 0 <= j < |sources| && results[i].value <= sources[j].value)
  {
    MinFromIs(results, U128Max);
    MaxFromIs(sources, 0);
    if AllPresent(sources) && AllPresent(results) && |results| > 0 && |sources| > 0 {
      var oldest := MinDuration(results);
      var newest := MaxDuration(sources).value;
      if exists i, j :: 0 <= i < |results| && 0 <= j < |sources| && results[i].value <= sources[j].value {
        var i, j :| 0 <= i < |results| && 0 <= j < |sources| && results[i].value <= sources[j].value;
        assert oldest <= results[i].value && sources[j].value <= newest;
      }
      var j :| 0 <= j < |sources| && newest == sources[j].value by {
        if newest == 0 {
          assert sources[0].value <= newest;
        }
      }
      if oldest != U128Max {
        var i :| 0 <= i < |results| && oldest == results[i].value;
        assert oldest <= newest ==> results[i].value <= sources[j].value;
      } else {
        assert oldest <= results[0].value <= U128Max;
        assert oldest <= newest ==> results[0].value <= sources[j].value;
      }
    }
  }

  /** Without sources nothing is modified unless a result is missing or
      dated at the epoch; without results everything is up to date unless
      a source is dated `u128::MAX`. */
  lemma EmptySides(files: seq<FileTime>)
    requires Fits(files) && AllPresent(files)
    ensures WasModified([], files) == Ok(exists k :: 0 <= k < |files| && files[k].value == 0)
    ensures WasModified(files, []) == Ok(exists k :: 0 <= k < |files| && files[k].value == U128Max)
  {
    MinFromIs(files, U128Max);
    MaxFromIs(files, 0);
  }
}
