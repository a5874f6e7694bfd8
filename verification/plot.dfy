/** Plotting (src/plot/mod.rs): which plot jobs `plot_simulations` starts
    for a plot type and a selection, how `print_plot_state` collects their
    errors and failures, and the labels read from `benchmarks.txt`. The
    plots themselves, the threads and the printing are not modelled: each
    job's result is given by a function. */
module Plot {
  import opened Wrappers
  import Text
  import Lists
  import Simulations
  import Benchmarks
  import FdsRuns
  import Cli

  // ---------------------------------------------------------------- plot types

  datatype PlotType = BenchmarkPlots | TemperaturePlots | HelperPlots | AllPlots

  /** The enum's discriminant. */
  function PlotBits(p: PlotType): bv8
  {
    match p
    case BenchmarkPlots => 0x1
    case TemperaturePlots => 0x2
    case HelperPlots => 0x4
    case AllPlots => 0x7
  }

  /** `PlotType::is_plot_type`: the two flags share a bit. */
  predicate IsPlotType(own: PlotType, requested: PlotType)
  {
    PlotBits(own) & PlotBits(requested) != 0
  }

  /** Asking for all plots selects every kind of plot; asking for one kind
      selects that kind alone. */
  lemma PlotTypeSelects(own: PlotType, requested: PlotType)
    ensures IsPlotType(own, AllPlots)
    ensures !own.AllPlots? && !requested.AllPlots? ==> (IsPlotType(own, requested) <==> own == requested)
  {
  }

  // ---------------------------------------------------------------- statuses

  /** What a plot job reports: the plot was newer than its input, it was
      skipped for a reason, or it was drawn or failed to be drawn. */
  datatype Status =
    | Passed(simulation: string, path: string)
    | Ignored(simulation: string, reason: string, path: string)
    | Succeeded(simulation: string, path: string)
    | Failed(simulation: string, path: string)

  /** The errors among the results, in the order of the results. */
  function Errors(results: seq<Result<Status>>): (r: seq<string>)
    ensures |r| == 0 <==> forall k :: 0 <= k < |results| ==> results[k].Ok?
    ensures |r| <= |results|
  {
    if |results| == 0 then []
    else
      var last := results[|results| - 1];
      Errors(results[..|results| - 1]) + (if last.Err? then [last.msg] else [])
  }

  predicate HasFailed(results: seq<Result<Status>>)
  {
    exists k :: 0 <= k < |results| && results[k].Ok? && results[k].value.Failed?
  }

  function Reverse<T>(xs: seq<T>): (r: seq<T>)
    ensures |r| == |xs|
    ensures forall k :: 0 <= k < |xs| ==> r[k] == xs[|xs| - 1 - k]
  {
    seq(|xs|, k requires 0 <= k < |xs| => xs[|xs| - 1 - k])
  }

  lemma ReverseAppend<T>(a: seq<T>, b: seq<T>)
    ensures Reverse(a + b) == Reverse(b) + Reverse(a)
  {
  }

  /** The errors collected so far and whether some job failed. */
  datatype State = State(errors: seq<string>, anyFailed: bool)

  /** `print_plot_state`: the results are popped from the back, so their
      errors are appended to `errors` last first; the flag tells whether
      some job failed. */
  function PrintPlotState(results: seq<Result<Status>>, errors: seq<string>): State
    decreases |results|
  {
    if |results| == 0 then State(errors, false)
    else
      var last := results[|results| - 1];
      var rest := PrintPlotState(results[..|results| - 1], errors + (if last.Err? then [last.msg] else []));
      State(rest.errors, rest.anyFailed || (last.Ok? && last.value.Failed?))
  }

  /** Against a reference without the loop: the errors come after the
      earlier ones in reverse order of the results, and the flag is set iff
      some job failed. */
  lemma {:induction false} PrintPlotStateSpec(results: seq<Result<Status>>, errors: seq<string>)
    ensures PrintPlotState(results, errors).errors == errors + Reverse(Errors(results))
    ensures PrintPlotState(results, errors).anyFailed <==> HasFailed(results)
    decreases |results|
  {
    if |results| > 0 {
      var init := results[..|results| - 1];
      var last := results[|results| - 1];
      var tail := if last.Err? then [last.msg] else [];
      PrintPlotStateSpec(init, errors + tail);
      ReverseAppend(Errors(init), tail);
      assert Reverse(tail) == tail;
      if HasFailed(init) {
        var k :| 0 <= k < |init| && init[k].Ok? && init[k].value.Failed?;
        assert results[k] == init[k];
      }
      if HasFailed(results) {
        var k :| 0 <= k < |results| && results[k].Ok? && results[k].value.Failed?;
        if k < |init| {
          assert init[k] == results[k];
        }
      }
    }
  }

  // ---------------------------------------------------------------- labels

  /** The label a line of `benchmarks.txt` names: the trimmed text before
      its first `=`, for every line that is not a comment. */
  function LabelOf(line: string): Option<string>
  {
    var t := Text.Trim(line);
    if |t| > 0 && t[0] == '#' then None else Some(Text.Trim(Text.Split(t, '=')[0]))
  }

  /** `plot_benchmark_files`: the labels of all lines, in order. */
  function Labels(lines: seq<string>): (r: seq<string>)
    ensures |r| <= |lines|
  {
    if |lines| == 0 then []
    else
      (match LabelOf(lines[0]) case None => [] case Some(x) => [x]) + Labels(lines[1..])
  }

  /** Against a reference without the recursion: the labels are exactly
      those some line names. */
  lemma {:induction false} LabelsIff(lines: seq<string>, x: string)
    ensures x in Labels(lines) <==> exists k :: 0 <= k < |lines| && LabelOf(lines[k]) == Some(x)
  {
    if |lines| > 0 {
      LabelsIff(lines[1..], x);
      if x in Labels(lines[1..]) {
        var k :| 0 <= k < |lines[1..]| && LabelOf(lines[1..][k]) == Some(x);
        assert LabelOf(lines[k + 1]) == Some(x);
      }
      if exists k :: 0 <= k < |lines| && LabelOf(lines[k]) == Some(x) {
        var k :| 0 <= k < |lines| && LabelOf(lines[k]) == Some(x);
        if k > 0 {
          assert LabelOf(lines[1..][k - 1]) == Some(x);
        }
      }
    }
  }

  /** Every label the benchmark finds a chunk size for is one the plots
      are drawn for. */
  lemma ChunkLabelPlotted(lines: seq<string>, tag: string)
    requires Cli.ChunkLookup(lines, tag).Ok?
    ensures tag in Labels(lines)
  {
    if forall k :: 0 <= k < |lines| ==> !Cli.Assigns(lines[k], tag) {
      Cli.ChunkLookupNone(lines, tag);
    } else {
      var k :| 0 <= k < |lines| && Cli.Assigns(lines[k], tag);
      assert LabelOf(lines[k]) == Some(tag);
      LabelsIff(lines, tag);
    }
  }

  // ---------------------------------------------------------------- jobs

  /** The six helper plots. */
  datatype Helper = CellCount | Transistor | ConcreteC | ConcreteK | SteelC | SteelK

  /** The two pairs of machines whose chunked runs are compared: a machine
      with the chunk size left at its default and the same one with it set. */
  datatype Machines = Desktop | Laptop

  /** The labels of a pair, as `benchmarks.txt` names them. */
  function MachineLabels(m: Machines): (string, string)
  {
    match m
    case Desktop => ("desktop_l_n", "desktop_l")
    case Laptop => ("laptop_l_n", "laptop_l")
  }

  /** The simulations whose temperatures are plotted, by their directory
      under the kind's directory. */
  datatype Case =
    | SteelSimple | SteelKC | ConcreteSimple | ConcreteKC
    | Thickness005 | Thickness010 | Thickness050 | Thickness100 | Thickness500

  function CaseDir(c: Case): string
  {
    match c
    case SteelSimple => "steel_simple"
    case SteelKC => "steel_k_c"
    case ConcreteSimple => "concrete_simple"
    case ConcreteKC => "concrete_k_c"
    case Thickness005 => "thickness_steel_k_c/005cm"
    case Thickness010 => "thickness_steel_k_c/010cm"
    case Thickness050 => "thickness_steel_k_c/050cm"
    case Thickness100 => "thickness_steel_k_c/100cm"
    case Thickness500 => "thickness_steel_k_c/500cm"
  }

  /** One plot job of `plot_simulations`, with what distinguishes it. */
  datatype Job =
    | HelperJob(helper: Helper)
    | CompareBox(bench: Benchmarks.BenchmarkName, tag: string)
    | MultipleBox(simType: Simulations.SimulationType1D, tag: string)
    | FdsBox(tag: string)
    | ThicknessFactor(tag: string)
    | ChunkFactor(bench: Benchmarks.BenchmarkName, machines: Machines)
    | ChunkThicknessFactor(machines: Machines)
    | TemperatureDiff(kind: Simulations.SimulationKind, dir: Case, simType: Simulations.SimulationType1D)

  const HelperJobs: seq<Job> :=
    [HelperJob(CellCount), HelperJob(Transistor), HelperJob(ConcreteC),
     HelperJob(ConcreteK), HelperJob(SteelC), HelperJob(SteelK)]

  /** The box plot comparing one material benchmark across machines, for
      each selected one. */
  function MaterialJobs(bs: seq<Benchmarks.BenchmarkName>, tag: string, names: Option<seq<Benchmarks.BenchmarkName>>): (r: seq<Job>)
    ensures forall j :: j in r <==> j.CompareBox? && j.bench in bs && j.tag == tag && Benchmarks.IsBenchmark(j.bench, names)
  {
    if |bs| == 0 then []
    else (if Benchmarks.IsBenchmark(bs[0], names) then [CompareBox(bs[0], tag)] else []) + MaterialJobs(bs[1..], tag, names)
  }

  /** The box plot over the number of materials, for each selected 1D type. */
  function MultipleJobs(ts: seq<Simulations.SimulationType1D>, tag: string, methods: Option<seq<Simulations.SimulationMethod>>): (r: seq<Job>)
    ensures forall j :: j in r <==> j.MultipleBox? && j.simType in ts && j.tag == tag && Simulations.IsSimulationType1D(j.simType, methods)
  {
    if |ts| == 0 then []
    else (if Simulations.IsSimulationType1D(ts[0], methods) then [MultipleBox(ts[0], tag)] else []) + MultipleJobs(ts[1..], tag, methods)
  }

  /** The jobs started for one label. */
  function LabelJobs(tag: string, methods: Option<seq<Simulations.SimulationMethod>>, names: Option<seq<Benchmarks.BenchmarkName>>): seq<Job>
  {
    MaterialJobs(Benchmarks.Material, tag, names)
    + MultipleJobs(Simulations.All1D, tag, methods)
    + (if Simulations.IsSimulationType(Simulations.SimulationMethod.SpeedTestFds, methods) then [FdsBox(tag)] else [])
    + (if Benchmarks.IsBenchmark(Benchmarks.BenchmarkName.DiabaticThickness, names) then [ThicknessFactor(tag)] else [])
  }

  function AllLabelJobs(labels: seq<string>, methods: Option<seq<Simulations.SimulationMethod>>, names: Option<seq<Benchmarks.BenchmarkName>>): (r: seq<Job>)
    ensures forall j :: j in r <==> exists l :: l in labels && j in LabelJobs(l, methods, names)
  {
    if |labels| == 0 then []
    else
      var rest := AllLabelJobs(labels[1..], methods, names);
      assert forall l :: l in labels <==> l == labels[0] || l in labels[1..];
      LabelJobs(labels[0], methods, names) + rest
  }

  /** The chunk comparisons of one pair of machines. */
  function MachineJobs(m: Machines, names: Option<seq<Benchmarks.BenchmarkName>>): seq<Job>
  {
    (if Benchmarks.IsBenchmark(Benchmarks.BenchmarkName.DiabaticConcreteKC, names)
     then [ChunkFactor(Benchmarks.BenchmarkName.DiabaticConcreteKC, m)] else [])
    + (if Benchmarks.IsBenchmark(Benchmarks.BenchmarkName.DiabaticSteelKC, names)
       then [ChunkFactor(Benchmarks.BenchmarkName.DiabaticSteelKC, m)] else [])
    + (if Benchmarks.IsBenchmark(Benchmarks.BenchmarkName.DiabaticThickness, names) then [ChunkThicknessFactor(m)] else [])
  }

  /** The jobs of the benchmark plots: those of every label, then the chunk
      comparisons of the desktop and of the laptop pair. */
  function BenchmarkJobs(labels: seq<string>, methods: Option<seq<Simulations.SimulationMethod>>, names: Option<seq<Benchmarks.BenchmarkName>>): seq<Job>
  {
    AllLabelJobs(labels, methods, names) + MachineJobs(Desktop, names) + MachineJobs(Laptop, names)
  }

  lemma InAll1D(t: Simulations.SimulationType1D)
    ensures t in Simulations.All1D
  {
    match t
    case Cpu => assert Simulations.All1D[0] == t;
    case GpuM1 => assert Simulations.All1D[1] == t;
    case GpuM2 => assert Simulations.All1D[2] == t;
    case GpuM3 => assert Simulations.All1D[3] == t;
  }

  /** The jobs drawn once per label. */
  predicate PerLabel(j: Job)
  {
    j.CompareBox? || j.MultipleBox? || j.FdsBox? || j.ThicknessFactor?
  }

  /** Reference definition of the benchmark plots a selection asks for,
      label aside: a box plot per selected material benchmark, per
      selected 1D type and for the selected FDS speed test; the thickness
      plots and the chunk comparisons of the selected benchmarks. */
  predicate BenchmarkSelected(j: Job, methods: Option<seq<Simulations.SimulationMethod>>,
                              names: Option<seq<Benchmarks.BenchmarkName>>)
  {
    match j
    case CompareBox(b, _) => b in Benchmarks.Material && Benchmarks.IsBenchmark(b, names)
    case MultipleBox(t, _) => Simulations.IsSimulationType1D(t, methods)
    case FdsBox(_) => Simulations.IsSimulationType(Simulations.SimulationMethod.SpeedTestFds, methods)
    case ThicknessFactor(_) => Benchmarks.IsBenchmark(Benchmarks.BenchmarkName.DiabaticThickness, names)
    case ChunkFactor(b, _) => (b.DiabaticConcreteKC? || b.DiabaticSteelKC?) && Benchmarks.IsBenchmark(b, names)
    case ChunkThicknessFactor(_) => Benchmarks.IsBenchmark(Benchmarks.BenchmarkName.DiabaticThickness, names)
    case HelperJob(_) => false
    case TemperatureDiff(_, _, _) => false
  }

  lemma LabelJobsIff(tag: string, methods: Option<seq<Simulations.SimulationMethod>>,
                     names: Option<seq<Benchmarks.BenchmarkName>>, j: Job)
    ensures j in LabelJobs(tag, methods, names) <==> PerLabel(j) && j.tag == tag && BenchmarkSelected(j, methods, names)
  {
    var m := MaterialJobs(Benchmarks.Material, tag, names);
    var u := MultipleJobs(Simulations.All1D, tag, methods);
    var f := if Simulations.IsSimulationType(Simulations.SimulationMethod.SpeedTestFds, methods) then [FdsBox(tag)] else [];
    var h := if Benchmarks.IsBenchmark(Benchmarks.BenchmarkName.DiabaticThickness, names) then [ThicknessFactor(tag)] else [];
    assert LabelJobs(tag, methods, names) == m + u + f + h;
    assert j in m + u + f + h <==> j in m || j in u || j in f || j in h;
    if j.MultipleBox? {
      InAll1D(j.simType);
    }
  }

  lemma MachineJobsIff(machines: Machines, names: Option<seq<Benchmarks.BenchmarkName>>, j: Job)
    ensures j in MachineJobs(machines, names) <==>
              (j.ChunkFactor? || j.ChunkThicknessFactor?) && j.machines == machines && BenchmarkSelected(j, methods := None, names := names)
  {
  }

  /** Against the reference: the benchmark plots that start are exactly
      those the selection asks for, the per-label ones for every label of
      `benchmarks.txt`, the chunk comparisons for both pairs of machines. */
  lemma BenchmarkJobsIff(labels: seq<string>, methods: Option<seq<Simulations.SimulationMethod>>,
                         names: Option<seq<Benchmarks.BenchmarkName>>, j: Job)
    ensures j in BenchmarkJobs(labels, methods, names) <==>
              BenchmarkSelected(j, methods, names) && (PerLabel(j) ==> j.tag in labels)
  {
    var a := AllLabelJobs(labels, methods, names);
    assert BenchmarkJobs(labels, methods, names) == a + MachineJobs(Desktop, names) + MachineJobs(Laptop, names);
    MachineJobsIff(Desktop, names, j);
    MachineJobsIff(Laptop, names, j);
    if j in a {
      var l :| l in labels && j in LabelJobs(l, methods, names);
      LabelJobsIff(l, methods, names, j);
    }
    if PerLabel(j) && j.tag in labels {
      LabelJobsIff(j.tag, methods, names, j);
    }
    if j.ChunkFactor? || j.ChunkThicknessFactor? {
      assert j.machines == Desktop || j.machines == Laptop;
    }
  }

  /** The cases plotted per kind: the four material cases, and for the
      diabatic kind the five wall thicknesses as well. */
  const MaterialCases: seq<Case> := [SteelSimple, SteelKC, ConcreteSimple, ConcreteKC]
  const ThicknessCases: seq<Case> := [Thickness005, Thickness010, Thickness050, Thickness100, Thickness500]

  function KindCases(k: Simulations.SimulationKind): seq<Case>
  {
    match k
    case Adiabatic => MaterialCases
    case DiabaticOneSide => MaterialCases
    case Diabatic => MaterialCases + ThicknessCases
  }

  function Diffs(cases: seq<Case>, k: Simulations.SimulationKind, t: Simulations.SimulationType1D): (r: seq<Job>)
    ensures |r| == |cases|
    ensures forall j :: j in r <==> j.TemperatureDiff? && j.dir in cases && j.kind == k && j.simType == t
  {
    if |cases| == 0 then []
    else
      assert forall c :: c in cases <==> c == cases[0] || c in cases[1..];
      [TemperatureDiff(k, cases[0], t)] + Diffs(cases[1..], k, t)
  }

  /** The temperature plots of one 1D type, kind by kind. */
  function TypeJobs(t: Simulations.SimulationType1D, kinds: Option<seq<Simulations.SimulationKind>>): seq<Job>
  {
    KindJob(Simulations.SimulationKind.Adiabatic, t, kinds)
    + KindJob(Simulations.SimulationKind.DiabaticOneSide, t, kinds)
    + KindJob(Simulations.SimulationKind.Diabatic, t, kinds)
  }

  /** The plots of one kind for one type, when the kind is selected. */
  function KindJob(k: Simulations.SimulationKind, t: Simulations.SimulationType1D,
                   kinds: Option<seq<Simulations.SimulationKind>>): (r: seq<Job>)
    ensures forall j :: j in r <==>
              j.TemperatureDiff? && j.kind == k && j.simType == t && Simulations.IsSimulationKind(k, kinds) && j.dir in KindCases(k)
  {
    if Simulations.IsSimulationKind(k, kinds) then Diffs(KindCases(k), k, t) else []
  }

  /** The temperature plots of one type are those of its selected kinds. */
  lemma TypeJobsIff(t: Simulations.SimulationType1D, kinds: Option<seq<Simulations.SimulationKind>>, j: Job)
    ensures j in TypeJobs(t, kinds) <==>
              j.TemperatureDiff? && j.simType == t && Simulations.IsSimulationKind(j.kind, kinds) && j.dir in KindCases(j.kind)
  {
    var a := KindJob(Simulations.SimulationKind.Adiabatic, t, kinds);
    var o := KindJob(Simulations.SimulationKind.DiabaticOneSide, t, kinds);
    var d := KindJob(Simulations.SimulationKind.Diabatic, t, kinds);
    assert TypeJobs(t, kinds) == a + o + d;
    assert j in a + o + d <==> j in a || j in o || j in d;
    if j.TemperatureDiff? {
      match j.kind
      case Adiabatic => assert j !in o && j !in d;
      case DiabaticOneSide => assert j !in a && j !in d;
      case Diabatic => assert j !in a && j !in o;
    } else {
      assert j !in a && j !in o && j !in d;
    }
  }

  /** The temperature plots of every selected 1D type. */
  function TemperatureJobs(ts: seq<Simulations.SimulationType1D>, methods: Option<seq<Simulations.SimulationMethod>>,
                           kinds: Option<seq<Simulations.SimulationKind>>): seq<Job>
  {
    if |ts| == 0 then []
    else
      (if Simulations.IsSimulationType1D(ts[0], methods) then TypeJobs(ts[0], kinds) else [])
      + TemperatureJobs(ts[1..], methods, kinds)
  }

  /** A temperature plot starts iff its type and its kind are selected and
      its case is one of that kind's. */
  lemma {:induction false} TemperatureJobsIff(ts: seq<Simulations.SimulationType1D>, methods: Option<seq<Simulations.SimulationMethod>>,
                                              kinds: Option<seq<Simulations.SimulationKind>>, j: Job)
    ensures j in TemperatureJobs(ts, methods, kinds) <==>
              j.TemperatureDiff? && j.simType in ts && Simulations.IsSimulationType1D(j.simType, methods)
              && Simulations.IsSimulationKind(j.kind, kinds) && j.dir in KindCases(j.kind)
  {
    if |ts| > 0 {
      TemperatureJobsIff(ts[1..], methods, kinds, j);
      TypeJobsIff(ts[0], kinds, j);
      assert j.TemperatureDiff? ==> (j.simType in ts <==> j.simType == ts[0] || j.simType in ts[1..]);
    }
  }

  /** How many plots a selected 1D type gets: four per selected kind, nine
      for the diabatic one. */
  function KindJobCount(kinds: Option<seq<Simulations.SimulationKind>>): nat
  {
    (if Simulations.IsSimulationKind(Simulations.SimulationKind.Adiabatic, kinds) then 4 else 0)
    + (if Simulations.IsSimulationKind(Simulations.SimulationKind.DiabaticOneSide, kinds) then 4 else 0)
    + (if Simulations.IsSimulationKind(Simulations.SimulationKind.Diabatic, kinds) then 9 else 0)
  }

  lemma TypeJobsCount(t: Simulations.SimulationType1D, kinds: Option<seq<Simulations.SimulationKind>>)
    ensures |TypeJobs(t, kinds)| == KindJobCount(kinds)
  {
  }

  function SelectedTypes(ts: seq<Simulations.SimulationType1D>, methods: Option<seq<Simulations.SimulationMethod>>): nat
  {
    if |ts| == 0 then 0
    else (if Simulations.IsSimulationType1D(ts[0], methods) then 1 else 0) + SelectedTypes(ts[1..], methods)
  }

  /** Every selected type gets the same number of temperature plots. */
  lemma {:induction false} TemperatureJobsCount(ts: seq<Simulations.SimulationType1D>, methods: Option<seq<Simulations.SimulationMethod>>,
                                                kinds: Option<seq<Simulations.SimulationKind>>)
    ensures |TemperatureJobs(ts, methods, kinds)| == SelectedTypes(ts, methods) * KindJobCount(kinds)
  {
    if |ts| > 0 {
      var own := if Simulations.IsSimulationType1D(ts[0], methods) then 1 else 0;
      TemperatureJobsCount(ts[1..], methods, kinds);
      TemperatureJobsHead(ts, methods, kinds);
      ScaleStep(SelectedTypes(ts, methods), own, SelectedTypes(ts[1..], methods), KindJobCount(kinds));
    }
  }

  /** The first type adds its own plots, or none, to those of the rest. */
  lemma TemperatureJobsHead(ts: seq<Simulations.SimulationType1D>, methods: Option<seq<Simulations.SimulationMethod>>,
                            kinds: Option<seq<Simulations.SimulationKind>>)
    requires |ts| > 0
    ensures var own := if Simulations.IsSimulationType1D(ts[0], methods) then 1 else 0;
            && |TemperatureJobs(ts, methods, kinds)| == own * KindJobCount(kinds) + |TemperatureJobs(ts[1..], methods, kinds)|
            && SelectedTypes(ts, methods) == own + SelectedTypes(ts[1..], methods)
  {
    TypeJobsCount(ts[0], kinds);
  }

  lemma ScaleStep(total: nat, own: nat, x: nat, n: nat)
    requires total == own + x
    ensures total * n == own * n + x * n
  {
  }

  // ---------------------------------------------------------------- plot_simulations

  /** Runs the jobs of one part when it is selected and collects their
      statuses. */
  function Phase(selected: bool, jobs: seq<Job>, plot: Job -> Result<Status>, s: State): State
  {
    if !selected then s
    else
      var r := PrintPlotState(Lists.Map(jobs, plot), s.errors);
      State(r.errors, s.anyFailed || r.anyFailed)
  }

  /** The error when `benchmarks.txt` cannot be read. */
  const LabelsUnreadable: string := "Failed to read file at \"benchmarks.txt\""

  /** `plot_benchmark_files`: the labels of `benchmarks.txt`, given as its
      lines or as `None` when it cannot be read. */
  function BenchmarkFiles(file: Option<seq<string>>): (r: Result<seq<string>>)
    ensures r.Err? <==> file.None?
    ensures r.Err? ==> r.msg == LabelsUnreadable
    ensures r.Ok? ==> |r.value| <= |file.value|
  {
    match file
    case None => Err(LabelsUnreadable)
    case Some(lines) => Ok(Labels(lines))
  }

  /** `plot_simulations`, given what `plot_benchmark_files` returned: the
      helper plots, the benchmark plots and the temperature plots, each when
      the plot type selects it, and one extra error if some plot failed.
      Unreadable labels end it at once with that error alone. */
  function PlotSimulations(p: PlotType, methods: Option<seq<Simulations.SimulationMethod>>,
                           kinds: Option<seq<Simulations.SimulationKind>>, names: Option<seq<Benchmarks.BenchmarkName>>,
                           labels: Result<seq<string>>, plot: Job -> Result<Status>): Outcome
  {
    match labels
    case Err(msg) =>
      if IsPlotType(BenchmarkPlots, p) then Failures([msg])
      else RunParts(p, BenchmarkJobs([], methods, names), TemperatureJobs(Simulations.All1D, methods, kinds), plot)
    case Ok(tags) => RunParts(p, BenchmarkJobs(tags, methods, names), TemperatureJobs(Simulations.All1D, methods, kinds), plot)
  }

  /** The three parts in order, given the benchmark and temperature jobs,
      and the extra error if some plot failed. */
  function RunParts(p: PlotType, benchJobs: seq<Job>, tempJobs: seq<Job>, plot: Job -> Result<Status>): Outcome
  {
    var helper := Phase(IsPlotType(HelperPlots, p), HelperJobs, plot, State([], false));
    var bench := Phase(IsPlotType(BenchmarkPlots, p), benchJobs, plot, helper);
    var temp := Phase(IsPlotType(TemperaturePlots, p), tempJobs, plot, bench);
    var errors := temp.errors + (if temp.anyFailed then [FdsRuns.SomeFailed] else []);
    if |errors| == 0 then Done else Failures(errors)
  }

  /** Every job ran without error and none failed. */
  predicate AllClean(jobs: seq<Job>, plot: Job -> Result<Status>)
  {
    forall k :: 0 <= k < |jobs| ==> plot(jobs[k]).Ok? && !plot(jobs[k]).value.Failed?
  }

  /** A part leaves no error and no failure behind iff there were none
      before and, when it runs, all its jobs are clean. */
  lemma PhaseClean(selected: bool, jobs: seq<Job>, plot: Job -> Result<Status>, s: State)
    ensures var r := Phase(selected, jobs, plot, s);
            |r.errors| == 0 && !r.anyFailed <==> |s.errors| == 0 && !s.anyFailed && (selected ==> AllClean(jobs, plot))
    ensures |s.errors| <= |Phase(selected, jobs, plot, s).errors|
  {
    if selected {
      var results := Lists.Map(jobs, plot);
      PrintPlotStateSpec(results, s.errors);
      if HasFailed(results) {
        var k :| 0 <= k < |results| && results[k].Ok? && results[k].value.Failed?;
        assert plot(jobs[k]) == results[k];
      }
    }
  }

  /** The parts succeed together iff every job of every selected part ran
      without error and none failed. */
  lemma RunPartsDone(p: PlotType, benchJobs: seq<Job>, tempJobs: seq<Job>, plot: Job -> Result<Status>)
    ensures RunParts(p, benchJobs, tempJobs, plot).Done? <==>
              (IsPlotType(HelperPlots, p) ==> AllClean(HelperJobs, plot))
              && (IsPlotType(BenchmarkPlots, p) ==> AllClean(benchJobs, plot))
              && (IsPlotType(TemperaturePlots, p) ==> AllClean(tempJobs, plot))
  {
    var helper := Phase(IsPlotType(HelperPlots, p), HelperJobs, plot, State([], false));
    var bench := Phase(IsPlotType(BenchmarkPlots, p), benchJobs, plot, helper);
    PhaseClean(IsPlotType(HelperPlots, p), HelperJobs, plot, State([], false));
    PhaseClean(IsPlotType(BenchmarkPlots, p), benchJobs, plot, helper);
    PhaseClean(IsPlotType(TemperaturePlots, p), tempJobs, plot, bench);
  }

  /** With readable labels, plotting succeeds iff every job of every
      selected part ran without error and none failed. */
  lemma PlotDone(p: PlotType, methods: Option<seq<Simulations.SimulationMethod>>,
                 kinds: Option<seq<Simulations.SimulationKind>>, names: Option<seq<Benchmarks.BenchmarkName>>,
                 labels: seq<string>, plot: Job -> Result<Status>)
    ensures PlotSimulations(p, methods, kinds, names, Ok(labels), plot).Done? <==>
              (IsPlotType(HelperPlots, p) ==> AllClean(HelperJobs, plot))
              && (IsPlotType(BenchmarkPlots, p) ==> AllClean(BenchmarkJobs(labels, methods, names), plot))
              && (IsPlotType(TemperaturePlots, p) ==> AllClean(TemperatureJobs(Simulations.All1D, methods, kinds), plot))
  {
    var bench := BenchmarkJobs(labels, methods, names);
    var temp := TemperatureJobs(Simulations.All1D, methods, kinds);
    assert PlotSimulations(p, methods, kinds, names, Ok(labels), plot) == RunParts(p, bench, temp, plot) by {
      PlotSimulationsParts(p, methods, kinds, names, labels, plot);
    }
    RunPartsDone(p, bench, temp, plot);
  }

  /** With readable labels, plotting is the three parts over the labels'
      benchmark jobs and the selected temperature jobs. */
  lemma PlotSimulationsParts(p: PlotType, methods: Option<seq<Simulations.SimulationMethod>>,
                             kinds: Option<seq<Simulations.SimulationKind>>, names: Option<seq<Benchmarks.BenchmarkName>>,
                             labels: seq<string>, plot: Job -> Result<Status>)
    ensures PlotSimulations(p, methods, kinds, names, Ok(labels), plot)
            == RunParts(p, BenchmarkJobs(labels, methods, names), TemperatureJobs(Simulations.All1D, methods, kinds), plot)
  {
  }

  /** When the benchmark plots are asked for and `benchmarks.txt` cannot be
      read, that one error is all that is reported: the helper plots'
      errors and failures are dropped. */
  lemma PlotLabelsUnreadable(p: PlotType, methods: Option<seq<Simulations.SimulationMethod>>,
                             kinds: Option<seq<Simulations.SimulationKind>>, names: Option<seq<Benchmarks.BenchmarkName>>,
                             plot: Job -> Result<Status>)
    requires IsPlotType(BenchmarkPlots, p)
    ensures PlotSimulations(p, methods, kinds, names, BenchmarkFiles(None), plot) == Failures([LabelsUnreadable])
  {
  }
}
