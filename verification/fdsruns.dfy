/** Running the FDS reference simulations (src/fds/simulations.rs): which
    paths the search skips, how the end of FDS's error output decides
    whether a run failed, the order of the run statuses, and how the
    statuses and errors of all runs become the result. Walking the
    directory tree, starting `mpiexec` and the worker threads are not
    modelled. */
module FdsRuns {
  import opened Wrappers
  import opened Simulations
  import Text
  import Modification

  /** A path as its components: `fds/1D` is `["fds", "1D"]`. */
  type Path = seq<string>

  // ---------------------------------------------------------------- ignore

  /** `a.rev().zip(b.rev()).all(==)`: the two paths agree from the end over
      the length of the shorter one. */
  function TailsAgree(a: Path, b: Path): bool
  {
    if |a| == 0 || |b| == 0 then true
    else a[|a| - 1] == b[|b| - 1] && TailsAgree(a[..|a| - 1], b[..|b| - 1])
  }

  predicate EndsWith(a: Path, b: Path)
  {
    |b| <= |a| && a[|a| - |b|..] == b
  }

  /** Agreeing from the end means one path ends with the other. */
  lemma {:induction false} TailsAgreeIff(a: Path, b: Path)
    ensures TailsAgree(a, b) <==> EndsWith(a, b) || EndsWith(b, a)
  {
    if |a| == 0 || |b| == 0 {
      assert a[|a| - |a|..] == a && b[|b| - |b|..] == b;
      assert |a| == 0 ==> b[|b| - |a|..] == a;
      assert |b| == 0 ==> a[|a| - |b|..] == b;
    } else {
      var a', b' := a[..|a| - 1], b[..|b| - 1];
      TailsAgreeIff(a', b');
      if EndsWith(a, b) {
        assert a[|a| - 1] == b[|b| - 1] by {
          assert a[|a| - |b|..][|b| - 1] == a[|a| - 1];
        }
        assert a'[|a'| - |b'|..] == a[|a| - |b|..][..|b| - 1];
      }
      if EndsWith(b, a) {
        assert a[|a| - 1] == b[|b| - 1] by {
          assert b[|b| - |a|..][|a| - 1] == b[|b| - 1];
        }
        assert b'[|b'| - |a'|..] == b[|b| - |a|..][..|a| - 1];
      }
      if a[|a| - 1] == b[|b| - 1] && EndsWith(a', b') {
        assert a[|a| - |b|..] == a'[|a'| - |b'|..] + [a[|a| - 1]];
      }
      if a[|a| - 1] == b[|b| - 1] && EndsWith(b', a') {
        assert b[|b| - |a|..] == b'[|b'| - |a'|..] + [b[|b| - 1]];
      }
    }
  }

  /** One entry of the ignore list: a pattern starting with `**` matches
      any path that agrees with the rest of it from the end; any other
      pattern only the identical path. */
  function Matches(path: Path, pattern: Path): (r: bool)
    ensures |pattern| > 0 && pattern[0] == "**" ==>
              (r <==> EndsWith(path, pattern[1..]) || EndsWith(pattern[1..], path))
    ensures !(|pattern| > 0 && pattern[0] == "**") ==> (r <==> path == pattern)
  {
    if |pattern| > 0 && pattern[0] == "**" then
      TailsAgreeIff(path, pattern[1..]);
      TailsAgree(path, pattern[1..])
    else path == pattern
  }

  /** `ignore`: some pattern of the list matches. */
  function Ignore(path: Path, patterns: seq<Path>): (r: bool)
    ensures r <==> exists k :: 0 <= k < |patterns| && Matches(path, patterns[k])
  {
    if |patterns| == 0 then false
    else Matches(path, patterns[0]) || Ignore(path, patterns[1..])
  }

  /** `IGNORE_PATHS`, each pattern as its components. */
  const IgnorePaths: seq<Path> :=
    [["**", "template_heat_transfer.fds"], ["**", "result"], ["fds", "1D", "AdiabaticSpeedTest"],
     ["fds", "1D", "Diabatic", "multiple", "1"], ["fds", "1D", "Diabatic", "multiple", "2"],
     ["fds", "1D", "Diabatic", "multiple", "4"], ["fds", "1D", "Diabatic", "multiple", "8"]]

  /** The whole 1D tree. */
  const OneDimensionalTree: Path := ["fds", "1D"]

  /** Every directory named after a kind, wherever it is. */
  function KindPattern(k: SimulationKind): Path
  {
    match k
    case Adiabatic => ["**", "Adiabatic"]
    case Diabatic => ["**", "Diabatic"]
    case DiabaticOneSide => ["**", "DiabaticOneSide"]
  }

  /** A pattern that is added when its condition holds. */
  function When(c: bool, p: Path): (r: seq<Path>)
    ensures forall q :: q in r <==> c && q == p
  {
    if c then [p] else []
  }

  /** The ignore list of `run_simulations`: the 1D tree when the 1D methods
      are not selected, each kind's directories when that kind is not
      selected, then the fixed list. */
  function IgnoreList(methods: Option<seq<SimulationMethod>>, kinds: Option<seq<SimulationKind>>): (r: seq<Path>)
    ensures |r| >= |IgnorePaths| && r[|r| - |IgnorePaths|..] == IgnorePaths
  {
    When(!IsSimulationType(OneDimensional, methods), OneDimensionalTree)
    + When(!IsSimulationKind(Adiabatic, kinds), KindPattern(Adiabatic))
    + When(!IsSimulationKind(Diabatic, kinds), KindPattern(Diabatic))
    + When(!IsSimulationKind(DiabaticOneSide, kinds), KindPattern(DiabaticOneSide))
    + IgnorePaths
  }

  /** The selection decides which of the optional patterns are listed: the
      1D tree iff the 1D methods are not selected, a kind's pattern iff
      that kind is not selected. */
  lemma IgnoreListEntries(methods: Option<seq<SimulationMethod>>, kinds: Option<seq<SimulationKind>>, k: SimulationKind)
    ensures OneDimensionalTree in IgnoreList(methods, kinds) <==> !IsSimulationType(OneDimensional, methods)
    ensures KindPattern(k) in IgnoreList(methods, kinds) <==> !IsSimulationKind(k, kinds)
  {
    FixedPatternsDiffer(k);
    var t := When(!IsSimulationType(OneDimensional, methods), OneDimensionalTree);
    var a := When(!IsSimulationKind(Adiabatic, kinds), KindPattern(Adiabatic));
    var d := When(!IsSimulationKind(Diabatic, kinds), KindPattern(Diabatic));
    var o := When(!IsSimulationKind(DiabaticOneSide, kinds), KindPattern(DiabaticOneSide));
    assert IgnoreList(methods, kinds) == t + a + d + o + IgnorePaths;
  }

  /** None of the optional patterns is also in the fixed list. */
  lemma FixedPatternsDiffer(k: SimulationKind)
    ensures OneDimensionalTree !in IgnorePaths
    ensures KindPattern(k) !in IgnorePaths
  {
    assert |IgnorePaths[0][1]| == 26 && |IgnorePaths[1][1]| == 6;
    assert forall j :: 2 <= j < |IgnorePaths| ==> |IgnorePaths[j]| > 2;
  }

  /** Every result directory and every template is skipped, whatever is
      selected. */
  lemma ResultsAndTemplatesIgnored(dir: Path, methods: Option<seq<SimulationMethod>>, kinds: Option<seq<SimulationKind>>)
    ensures Ignore(dir + ["result"], IgnoreList(methods, kinds))
    ensures Ignore(dir + ["template_heat_transfer.fds"], IgnoreList(methods, kinds))
  {
    var list := IgnoreList(methods, kinds);
    var n := |list| - |IgnorePaths|;
    assert list[n + 1] == IgnorePaths[1] && list[n] == IgnorePaths[0];
    assert (dir + ["result"])[|dir + ["result"]| - 1..] == ["result"];
    assert (dir + ["template_heat_transfer.fds"])[|dir + ["template_heat_transfer.fds"]| - 1..] == ["template_heat_transfer.fds"];
    assert Matches(dir + ["result"], list[n + 1]);
    assert Matches(dir + ["template_heat_transfer.fds"], list[n]);
  }

  /** An exact pattern matches only itself, and a pattern of the form `**`
      followed by a name matches every path ending in that name. */
  lemma KindDirectoryIgnored(dir: Path, k: SimulationKind, methods: Option<seq<SimulationMethod>>, kinds: Option<seq<SimulationKind>>)
    requires !IsSimulationKind(k, kinds)
    ensures Ignore(dir + [KindPattern(k)[1]], IgnoreList(methods, kinds))
    ensures !IsSimulationType(OneDimensional, methods) ==> Ignore(OneDimensionalTree, IgnoreList(methods, kinds))
  {
    IgnoreListEntries(methods, kinds, k);
    var list := IgnoreList(methods, kinds);
    var p := dir + [KindPattern(k)[1]];
    assert p[|p| - 1..] == KindPattern(k)[1..];
    var j :| 0 <= j < |list| && list[j] == KindPattern(k);
    assert Matches(p, list[j]);
    if !IsSimulationType(OneDimensional, methods) {
      var i :| 0 <= i < |list| && list[i] == OneDimensionalTree;
      assert Matches(OneDimensionalTree, list[i]);
    }
  }

  /** An empty list skips nothing. */
  lemma NothingIgnoredByEmptyList(path: Path)
    ensures !Ignore(path, [])
  {
  }

  // ---------------------------------------------------------------- status

  datatype Status = Passed(path: Path) | Succeeded(path: Path) | Failed(path: Path)

  /** How many bytes at the end of the error output are inspected. */
  const TailLength: nat := 150

  /** The end of `run_simulation`: with more than 150 bytes of error output
      the last 150 are read as UTF-8 (`decode`, which may fail) and searched
      for `ERROR` or `error`. */
  function Classify(path: Path, stderr: seq<bv8>, decode: seq<bv8> -> Option<string>): (r: Result<Status>)
    ensures r.Ok? ==> r.value.path == path && !r.value.Passed?
    ensures |stderr| <= TailLength ==> r == Ok(Succeeded(path))
  {
    if |stderr| > TailLength then
      var tail := stderr[|stderr| - TailLength..];
      match decode(tail)
      case None => Err("Failed convert output to string for fds simulation.")
      case Some(end) =>
        if Text.Contains(end, "ERROR") || Text.Contains(end, "error") then Ok(Failed(path))
        else Ok(Succeeded(path))
    else Ok(Succeeded(path))
  }

  /** `run_simulation_checked` after the result directory is prepared: a
      missing input file is an error; a run file strictly newer than the
      input skips the run as passed; otherwise FDS runs and its error output
      decides. Creating the run file afterwards is not modelled. */
  function RunChecked(path: Path, input: Modification.FileTime, runFile: Modification.FileTime,
                      stderr: seq<bv8>, decode: seq<bv8> -> Option<string>): (r: Result<Status>)
    requires runFile.Some? ==> runFile.value <= Modification.U128Max
    ensures r == Ok(Passed(path)) <==> input.Some? && runFile.Some? && input.value < runFile.value
    ensures input.None? ==> r.Err?
    ensures input.Some? && !(runFile.Some? && input.value < runFile.value) ==> r == Classify(path, stderr, decode)
  {
    Modification.MinFromIs([runFile], Modification.U128Max);
    Modification.MaxFromIs([input], 0);
    var modified :- Modification.WasModified([input], [runFile]);
    if !modified then Ok(Passed(path)) else Classify(path, stderr, decode)
  }

  /** Only the last 150 bytes count: output before them changes nothing. */
  lemma ClassifyTail(path: Path, before: seq<bv8>, stderr: seq<bv8>, decode: seq<bv8> -> Option<string>)
    requires |stderr| > TailLength
    ensures Classify(path, before + stderr, decode) == Classify(path, stderr, decode)
  {
    var s := before + stderr;
    assert s[|s| - TailLength..] == stderr[|stderr| - TailLength..];
  }

  /** A run failed iff the tail decodes and mentions an error. */
  lemma ClassifyFailed(path: Path, stderr: seq<bv8>, decode: seq<bv8> -> Option<string>)
    ensures Classify(path, stderr, decode) == Ok(Failed(path)) <==>
              |stderr| > TailLength
              && var tail := decode(stderr[|stderr| - TailLength..]);
                 tail.Some? && exists i :: Text.OccursAt(tail.value, "ERROR", i) || Text.OccursAt(tail.value, "error", i)
  {
    if |stderr| > TailLength {
      var tail := decode(stderr[|stderr| - TailLength..]);
      if tail.Some? {
        Text.ContainsIff(tail.value, "ERROR");
        Text.ContainsIff(tail.value, "error");
      }
    }
  }

  /** The variant order of the derived `Ord`. */
  function Rank(s: Status): nat
  {
    match s
    case Passed(_) => 0
    case Succeeded(_) => 1
    case Failed(_) => 2
  }

  /** Lexicographic order of strings by character. */
  predicate StrLess(a: string, b: string)
  {
    if |a| == 0 then |b| > 0
    else if |b| == 0 then false
    else a[0] < b[0] || (a[0] == b[0] && StrLess(a[1..], b[1..]))
  }

  /** Lexicographic order of paths by component. */
  predicate PathLess(a: Path, b: Path)
  {
    if |a| == 0 then |b| > 0
    else if |b| == 0 then false
    else StrLess(a[0], b[0]) || (a[0] == b[0] && PathLess(a[1..], b[1..]))
  }

  /** The derived `Ord` of `Status`: the variant first, then the path. */
  predicate StatusLess(a: Status, b: Status)
  {
    Rank(a) < Rank(b) || (Rank(a) == Rank(b) && PathLess(a.path, b.path))
  }

  lemma {:induction false} StrLessOrder(a: string, b: string, c: string)
    ensures !StrLess(a, a)
    ensures StrLess(a, b) && StrLess(b, c) ==> StrLess(a, c)
    ensures a == b || StrLess(a, b) || StrLess(b, a)
    decreases |a|
  {
    if |a| > 0 && |b| > 0 && |c| > 0 {
      StrLessOrder(a[1..], b[1..], c[1..]);
    } else if |a| > 0 && |b| > 0 {
      StrLessOrder(a[1..], b[1..], b[1..]);
      if a[0] == b[0] && a[1..] == b[1..] {
        assert a == [a[0]] + a[1..] && b == [b[0]] + b[1..];
      }
    } else if |a| > 0 {
      StrLessOrder(a[1..], a[1..], a[1..]);
    }
  }

  lemma {:induction false} PathLessOrder(a: Path, b: Path, c: Path)
    ensures !PathLess(a, a)
    ensures PathLess(a, b) && PathLess(b, c) ==> PathLess(a, c)
    ensures a == b || PathLess(a, b) || PathLess(b, a)
    decreases |a|
  {
    if |a| > 0 && |b| > 0 && |c| > 0 {
      PathLessOrder(a[1..], b[1..], c[1..]);
      StrLessOrder(a[0], b[0], c[0]);
    } else if |a| > 0 && |b| > 0 {
      PathLessOrder(a[1..], b[1..], b[1..]);
      StrLessOrder(a[0], b[0], b[0]);
      if a[0] == b[0] && a[1..] == b[1..] {
        assert a == [a[0]] + a[1..] && b == [b[0]] + b[1..];
      }
    } else if |a| > 0 {
      PathLessOrder(a[1..], a[1..], a[1..]);
      StrLessOrder(a[0], a[0], a[0]);
    }
  }

  /** The status order is a strict total order in which every passed run
      comes before every succeeded one and every succeeded one before every
      failed one, so the sorted report lists the failures last. */
  lemma StatusOrder(a: Status, b: Status, c: Status)
    ensures !StatusLess(a, a)
    ensures StatusLess(a, b) && StatusLess(b, c) ==> StatusLess(a, c)
    ensures a == b || StatusLess(a, b) || StatusLess(b, a)
    ensures a.Passed? && b.Succeeded? ==> StatusLess(a, b)
    ensures a.Succeeded? && b.Failed? ==> StatusLess(a, b)
  {
    PathLessOrder(a.path, b.path, c.path);
  }

  // ---------------------------------------------------------------- the result

  /** The message added when some simulation failed. */
  const SomeFailed: string := "Some fds simulations failed to run."

  function AnyFailed(run: seq<Status>): (r: bool)
    ensures r <==> exists k :: 0 <= k < |run| && run[k].Failed?
  {
    if |run| == 0 then false else run[0].Failed? || AnyFailed(run[1..])
  }

  /** The end of `run_simulations`: the statuses and the errors of all
      runs, one extra error if any run failed, and success iff no error is
      left. */
  function Report(results: seq<Result<Status>>): Outcome
  {
    var run := Oks(results);
    var errors := Errs(results) + (if AnyFailed(run) then [SomeFailed] else []);
    if |errors| == 0 then Done else Failures(errors)
  }

  /** The statuses of the successful runs, in order. */
  function Oks(results: seq<Result<Status>>): (r: seq<Status>)
    ensures forall k :: 0 <= k < |r| ==> Ok(r[k]) in results
    ensures forall k :: 0 <= k < |results| && results[k].Ok? ==> results[k].value in r
  {
    if |results| == 0 then []
    else
      var rest := Oks(results[1..]);
      assert forall x :: x in results[1..] ==> x in results;
      if results[0].Ok? then [results[0].value] + rest else rest
  }

  /** The errors of the failing runs, in order. */
  function Errs(results: seq<Result<Status>>): (r: seq<string>)
    ensures |r| == 0 <==> forall k :: 0 <= k < |results| ==> results[k].Ok?
  {
    if |results| == 0 then []
    else
      var rest := Errs(results[1..]);
      assert forall k :: 1 <= k < |results| ==> results[1..][k - 1] == results[k];
      if results[0].Err? then [results[0].msg] + rest else rest
  }

  /** Every simulation ran and none failed. */
  predicate AllPassedOrSucceeded(results: seq<Result<Status>>)
  {
    forall x :: x in results ==> x.Ok? && !x.value.Failed?
  }

  /** The run succeeds iff every simulation ran and none failed; a failed
      simulation adds exactly one message after the runs' own errors. */
  lemma ReportOk(results: seq<Result<Status>>)
    ensures Report(results).Done? <==> AllPassedOrSucceeded(results)
    ensures (exists p :: Ok(Failed(p)) in results) ==>
              Report(results).Failures? && Report(results).errors[|Report(results).errors| - 1] == SomeFailed
  {
    var run := Oks(results);
    if AnyFailed(run) {
      var k :| 0 <= k < |run| && run[k].Failed?;
      assert Ok(run[k]) in results;
    }
    if exists x :: x in results && x.Ok? && x.value.Failed? {
      var x :| x in results && x.Ok? && x.value.Failed?;
      var k :| 0 <= k < |results| && results[k] == x;
      assert results[k].value in run;
    }
    if exists x :: x in results && x.Err? {
      var x :| x in results && x.Err?;
      var k :| 0 <= k < |results| && results[k] == x;
    }
  }

  /** The order in which the threads hand back their results does not
      change the outcome. */
  lemma {:induction false} ReportOrderFree(a: seq<Result<Status>>, b: seq<Result<Status>>)
    requires multiset(a) == multiset(b)
    ensures Report(a).Done? <==> Report(b).Done?
  {
    ReportOk(a);
    ReportOk(b);
    assert forall x :: x in a <==> x in multiset(a);
    assert forall x :: x in b <==> x in multiset(b);
  }
}
