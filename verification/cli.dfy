/** The command line program (src/main.rs): the order in which it creates
    and runs the FDS simulations, runs the benchmark and plots, when it
    stops, and how it looks up the chunk size of a benchmark label in
    `benchmarks.txt`. Argument parsing, printing and the stages themselves
    are not modelled: each stage is represented by its outcome. */
module Cli {
  import opened Wrappers
  import Text

  // ---------------------------------------------------------------- errors

  /** `evaluate_errors`: whether the program stops after a stage, which it
      does on failures unless forced to go on. */
  function Stops(o: Outcome, force: bool): (stop: bool)
  {
    o.Failures? && !force
  }

  // ---------------------------------------------------------------- chunk size

  /** A line with its surrounding whitespace removed that is not a comment
      and has a `=` whose left side, trimmed, is the label. */
  predicate Assigns(line: string, tag: string)
  {
    var t := Text.Trim(line);
    && !(|t| > 0 && t[0] == '#')
    && |Text.Split(t, '=')| >= 2
    && Text.Trim(Text.Split(t, '=')[0]) == tag
  }

  /** The trimmed text between the first and the second `=` of a line. */
  function AssignedText(line: string): string
  {
    var pieces := Text.Split(Text.Trim(line), '=');
    if |pieces| >= 2 then Text.Trim(pieces[1]) else ""
  }

  /** The chunk size an assigned text stands for, or why there is none. */
  function ChunkValue(text: string): (r: Result<nat>)
    ensures r.Ok? ==> r.value <= Text.UsizeMax && Text.ParseNat(text) == Some(r.value)
    ensures r.Err? <==> Text.ParseNat(text).None?
  {
    match Text.ParseNat(text)
    case None => Err("Failed to parse " + text)
    case Some(n) => Ok(n)
  }

  /** The loop of `set_max_element_per_chunk` over the lines of the file. */
  function ChunkLookup(lines: seq<string>, tag: string): Result<nat>
  {
    if |lines| == 0 then Err("No chunk size assigned to the current benchmark label \"" + tag + "\".")
    else if Assigns(lines[0], tag) then ChunkValue(AssignedText(lines[0]))
    else ChunkLookup(lines[1..], tag)
  }

  /** `set_max_element_per_chunk`: the size the label is assigned in the
      file, or an error if the file cannot be read. */
  function ChunkSize(file: Result<seq<string>>, tag: string): (r: Result<nat>)
    ensures file.Err? ==> r.Err?
  {
    match file
    case Err(_) => Err("Failed to read file at \"benchmarks.txt\"")
    case Ok(lines) => ChunkLookup(lines, tag)
  }

  /** Against a reference without the loop: the first line that assigns the
      label decides, whatever follows it; without one the lookup fails. */
  lemma {:induction false} ChunkLookupFirst(lines: seq<string>, tag: string, i: nat)
    requires i < |lines| && Assigns(lines[i], tag)
    requires forall k :: 0 <= k < i ==> !Assigns(lines[k], tag)
    ensures ChunkLookup(lines, tag) == ChunkValue(AssignedText(lines[i]))
    decreases i
  {
    if i > 0 {
      assert !Assigns(lines[0], tag);
      assert lines[1..][i - 1] == lines[i];
      ChunkLookupFirst(lines[1..], tag, i - 1);
    }
  }

  lemma {:induction false} ChunkLookupNone(lines: seq<string>, tag: string)
    requires forall k :: 0 <= k < |lines| ==> !Assigns(lines[k], tag)
    ensures ChunkLookup(lines, tag).Err?
  {
    if |lines| > 0 {
      assert !Assigns(lines[0], tag);
      ChunkLookupNone(lines[1..], tag);
    }
  }

  /** Comment lines and lines for other labels never matter. */
  lemma {:induction false} ChunkLookupSkips(before: seq<string>, lines: seq<string>, tag: string)
    requires forall k :: 0 <= k < |before| ==> !Assigns(before[k], tag)
    ensures ChunkLookup(before + lines, tag) == ChunkLookup(lines, tag)
  {
    if |before| > 0 {
      assert (before + lines)[0] == before[0];
      assert (before + lines)[1..] == before[1..] + lines;
      ChunkLookupSkips(before[1..], lines, tag);
    } else {
      assert before + lines == lines;
    }
  }

  /** A line that assigns the label is at or after a first such line. */
  lemma {:induction false} FirstAssignment(lines: seq<string>, tag: string, j: nat)
    requires j < |lines| && Assigns(lines[j], tag)
    ensures exists i :: 0 <= i <= j && Assigns(lines[i], tag) && forall k :: 0 <= k < i ==> !Assigns(lines[k], tag)
    decreases j
  {
    if exists k :: 0 <= k < j && Assigns(lines[k], tag) {
      var k :| 0 <= k < j && Assigns(lines[k], tag);
      FirstAssignment(lines, tag, k);
    }
  }

  /** The line the error message asks for: the label, ` = `, the size. */
  function Entry(tag: string, n: nat): string
  {
    tag + " = " + Text.NatToString(n)
  }

  /** The entry is its own trimmed form. */
  lemma EntryTrimmed(tag: string, n: nat)
    requires |tag| > 0 && !Text.IsSpace(tag[0])
    ensures Text.Trim(Entry(tag, n)) == Entry(tag, n)
  {
    var line := Entry(tag, n);
    var digits := Text.NatToString(n);
    assert line[0] == tag[0] && line[|line| - 1] == digits[|digits| - 1];
    Text.TrimPadded("", line, "");
    assert "" + line + "" == line;
  }

  /** The entry splits at its one `=` into the padded label and size. */
  lemma EntrySplit(tag: string, n: nat)
    requires '=' !in tag
    ensures Text.Split(Entry(tag, n), '=') == [tag + " ", " " + Text.NatToString(n)]
  {
    var digits := Text.NatToString(n);
    assert '=' !in digits && '=' !in tag + " " && '=' !in " " + digits;
    assert Entry(tag, n) == (tag + " ") + "=" + (" " + digits);
    Text.SplitFirst(tag + " ", '=', " " + digits);
    Text.SplitNone(" " + digits, '=');
  }

  /** The left side of the entry trims to the label. */
  lemma EntryLabelSide(tag: string)
    requires |tag| > 0 && !Text.IsSpace(tag[0]) && !Text.IsSpace(tag[|tag| - 1])
    ensures Text.Trim(tag + " ") == tag
  {
    assert Text.AllSpace(" ");
    Text.TrimPadded("", tag, " ");
    assert "" + tag + " " == tag + " ";
  }

  /** The right side of the entry trims to the size's digits. */
  lemma EntrySizeSide(digits: string)
    requires |digits| > 0 && forall k :: 0 <= k < |digits| ==> '0' <= digits[k] <= '9'
    ensures Text.Trim(" " + digits) == digits
  {
    assert Text.AllSpace(" ");
    Text.TrimPadded(" ", digits, "");
    assert " " + digits + "" == " " + digits;
  }

  /** Writing the entry the error message asks for, in front of the file,
      makes the lookup give back exactly that size. */
  lemma EntryRead(tag: string, n: nat, lines: seq<string>)
    requires |tag| > 0 && tag[0] != '#' && '=' !in tag
    requires !Text.IsSpace(tag[0]) && !Text.IsSpace(tag[|tag| - 1])
    requires n <= Text.UsizeMax
    ensures ChunkSize(Ok([Entry(tag, n)] + lines), tag) == Ok(n)
  {
    var line := Entry(tag, n);
    EntryTrimmed(tag, n);
    EntrySplit(tag, n);
    EntryLabelSide(tag);
    EntrySizeSide(Text.NatToString(n));
    assert Assigns(line, tag);
    assert AssignedText(line) == Text.NatToString(n);
    Text.NatStringRoundTrip(n);
    assert ([line] + lines)[0] == line;
  }

  // ---------------------------------------------------------------- the program

  /** The stages `main` can run, in the order it runs them. */
  datatype Stage = CreateStage | RunStage | BenchmarkStage | PlotStage

  function StageRank(s: Stage): nat
  {
    match s
    case CreateStage => 0
    case RunStage => 1
    case BenchmarkStage => 2
    case PlotStage => 3
  }

  /** The command line flags; `release` is whether the program was built
      without debug assertions. */
  datatype Options = Options(simulations: bool, benchmark: Option<string>, plots: bool, force: bool, release: bool)

  /** What each stage would give: `create_simulations`, `run_simulations`,
      reading `benchmarks.txt`, `run_benchmark` and `plot_simulations`. */
  datatype Effects = Effects(create: Outcome, run: Outcome, benchmarks: Result<seq<string>>, bench: Result<()>, plot: Outcome)

  /** What happened: the stages that ran, in order, the chunk size that was
      set, and whether the program reached its end. */
  datatype Trace = Trace(stages: seq<Stage>, chunk: Option<nat>, finished: bool)

  /** `run_benchmark`'s single error as a list of one. */
  function BenchOutcome(r: Result<()>): (o: Outcome)
    ensures o.Done? <==> r.Ok?
    ensures o.Failures? ==> |o.errors| == 1
  {
    match r
    case Ok(_) => Done
    case Err(e) => Failures([e])
  }

  /** `main`. */
  function Main(o: Options, e: Effects): Trace
  {
    if o.simulations && Stops(e.create, o.force) then Trace([CreateStage], None, false)
    else if o.simulations && Stops(e.run, o.force) then Trace([CreateStage, RunStage], None, false)
    else AfterSimulations(o, e, if o.simulations then [CreateStage, RunStage] else [])
  }

  /** The benchmark part of `main`, after the simulations. */
  function AfterSimulations(o: Options, e: Effects, done: seq<Stage>): Trace
  {
    match o.benchmark
    case None => Plotting(o, e, done, None)
    case Some(name) =>
      match ChunkSize(e.benchmarks, name)
      case Err(_) => if o.force then Plotting(o, e, done, None) else Trace(done, None, false)
      case Ok(m) =>
        if !o.release then Trace(done, Some(m), false)
        else if Stops(BenchOutcome(e.bench), o.force) then Trace(done + [BenchmarkStage], Some(m), false)
        else Plotting(o, e, done + [BenchmarkStage], Some(m))
  }

  /** The plotting part of `main`, the last one. */
  function Plotting(o: Options, e: Effects, done: seq<Stage>, chunk: Option<nat>): Trace
  {
    if !o.plots then Trace(done, chunk, true)
    else Trace(done + [PlotStage], chunk, !Stops(e.plot, o.force))
  }

  /** Whether the benchmark runs once the simulations are behind. */
  predicate BenchmarkRuns(o: Options, e: Effects)
  {
    o.benchmark.Some? && ChunkSize(e.benchmarks, o.benchmark.value).Ok? && o.release
  }

  /** A benchmark with a chunk size in a debug build ends the program. */
  predicate DebugStop(o: Options, e: Effects)
  {
    o.benchmark.Some? && ChunkSize(e.benchmarks, o.benchmark.value).Ok? && !o.release
  }

  /** The stages a run goes through when nothing fails: every selected one,
      except a benchmark without a chunk size, and neither the benchmark
      nor the plots in a debug build. */
  function ForcedStages(o: Options, e: Effects): seq<Stage>
  {
    (if o.simulations then [CreateStage, RunStage] else [])
    + (if BenchmarkRuns(o, e) then [BenchmarkStage] else [])
    + (if o.plots && !DebugStop(o, e) then [PlotStage] else [])
  }

  /** Those stages come in their fixed order, each at most once. */
  lemma ForcedStagesOrdered(o: Options, e: Effects)
    ensures var s := ForcedStages(o, e);
            forall i, j :: 0 <= i < j < |s| ==> StageRank(s[i]) < StageRank(s[j])
  {
  }

  /** Without `--force` the program finishes iff every selected stage
      succeeds and a selected benchmark has a chunk size and a release
      build; the stages that ran are then all the selected ones. */
  lemma MainStrict(o: Options, e: Effects)
    requires !o.force
    ensures Main(o, e).finished <==>
              (o.simulations ==> e.create.Done? && e.run.Done?)
              && (o.benchmark.Some? ==> BenchmarkRuns(o, e) && e.bench.Ok?)
              && (o.plots ==> e.plot.Done?)
    ensures Main(o, e).finished ==> Main(o, e).stages == ForcedStages(o, e)
  {
  }

  /** With `--force` failures never stop the program: it runs every
      selected stage it can and finishes unless a benchmark with a chunk
      size was asked for in a debug build. */
  lemma MainForced(o: Options, e: Effects)
    requires o.force
    ensures Main(o, e).stages == ForcedStages(o, e)
    ensures Main(o, e).finished <==> !DebugStop(o, e)
  {
  }

  /** Whatever happens, the stages that ran are a prefix of those a run
      without failures goes through: they keep their order and the
      simulations run only after they are created. */
  lemma MainPrefix(o: Options, e: Effects)
    ensures Main(o, e).stages <= ForcedStages(o, e)
  {
  }

  /** A chunk size set is the one the file assigns to the benchmark label,
      and the benchmark runs only with one set. */
  lemma MainChunk(o: Options, e: Effects)
    ensures Main(o, e).chunk.Some? ==>
              o.benchmark.Some? && ChunkSize(e.benchmarks, o.benchmark.value) == Ok(Main(o, e).chunk.value)
    ensures BenchmarkStage in Main(o, e).stages ==> Main(o, e).chunk.Some?
  {
  }
}
