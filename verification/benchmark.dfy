/** The benchmark catalogue (src/benchmark/mod.rs): benchmark names as bit
    flags, where a collection flag is the union of its members, the result
    path of every single benchmark, and the list of runs `run_benchmark`
    schedules for a selection. The runs themselves are not modelled. */
module Benchmarks {
  import opened Wrappers
  import opened Simulations
  import Lists

  /** The wall-element counts of the regular runs. */
  const BenchmarkElements: seq<nat> := [256, 512, 1024, 2048, 4096, 8192, 16384, 32768]
  /** The larger counts that exercise the chunking of GPU method 3. */
  const BenchmarkChunk: seq<nat> := [32768 * 2, 32768 * 4, 32768 * 8]

  datatype BenchmarkName =
    | Diabatic1MaterialKC
    | Diabatic2MaterialsKC
    | Diabatic4MaterialsKC
    | Diabatic8MaterialsKC
    | Diabatic16MaterialsKC
    | DiabaticAllMaterialsKC
    | DiabaticConcreteKC
    | DiabaticSteelKC
    | DiabaticCompareKC
    | DiabaticThickness005
    | DiabaticThickness010
    | DiabaticThickness050
    | DiabaticThickness100
    | DiabaticThickness500
    | DiabaticThickness
    | Adiabatic
    | SpeedTestFds

  /** The enum's discriminant. */
  function Bits(b: BenchmarkName): bv32
  {
    match b
    case Diabatic1MaterialKC => 1 << 0
    case Diabatic2MaterialsKC => 1 << 1
    case Diabatic4MaterialsKC => 1 << 2
    case Diabatic8MaterialsKC => 1 << 3
    case Diabatic16MaterialsKC => 1 << 4
    case DiabaticAllMaterialsKC => (1 << 0) + (1 << 1) + (1 << 2) + (1 << 3) + (1 << 4)
    case DiabaticConcreteKC => 1 << 5
    case DiabaticSteelKC => 1 << 6
    case DiabaticCompareKC => (1 << 5) + (1 << 6)
    case DiabaticThickness005 => 1 << 7
    case DiabaticThickness010 => 1 << 8
    case DiabaticThickness050 => 1 << 9
    case DiabaticThickness100 => 1 << 10
    case DiabaticThickness500 => 1 << 11
    case DiabaticThickness => (1 << 7) + (1 << 8) + (1 << 9) + (1 << 10) + (1 << 11)
    case Adiabatic => 1 << 12
    case SpeedTestFds => 1 << 13
  }

  predicate Overlap(a: BenchmarkName, b: BenchmarkName)
  {
    Bits(a) & Bits(b) > 0
  }

  /** The three collection flags. */
  predicate IsCollection(b: BenchmarkName)
  {
    b.DiabaticAllMaterialsKC? || b.DiabaticCompareKC? || b.DiabaticThickness?
  }

  /** What a flag stands for: a collection its members, a single flag itself. */
  function Members(b: BenchmarkName): (r: seq<BenchmarkName>)
    ensures forall k :: 0 <= k < |r| ==> !IsCollection(r[k])
    ensures !IsCollection(b) <==> r == [b]
  {
    match b
    case DiabaticAllMaterialsKC =>
      [Diabatic1MaterialKC, Diabatic2MaterialsKC, Diabatic4MaterialsKC, Diabatic8MaterialsKC, Diabatic16MaterialsKC]
    case DiabaticCompareKC => [DiabaticConcreteKC, DiabaticSteelKC]
    case DiabaticThickness =>
      [DiabaticThickness005, DiabaticThickness010, DiabaticThickness050, DiabaticThickness100, DiabaticThickness500]
    case _ => [b]
  }

  /** `MATERIAL` and `THICKNESS`. */
  const Material: seq<BenchmarkName> :=
    [Diabatic1MaterialKC, Diabatic2MaterialsKC, Diabatic4MaterialsKC, Diabatic8MaterialsKC,
     Diabatic16MaterialsKC, DiabaticConcreteKC, DiabaticSteelKC]
  const Thickness: seq<BenchmarkName> :=
    [DiabaticThickness005, DiabaticThickness010, DiabaticThickness050, DiabaticThickness100, DiabaticThickness500]

  /** Each collection's flag is exactly the union of its members' flags. */
  lemma CollectionsAreUnions()
    ensures Bits(DiabaticAllMaterialsKC) == Bits(Diabatic1MaterialKC) | Bits(Diabatic2MaterialsKC)
              | Bits(Diabatic4MaterialsKC) | Bits(Diabatic8MaterialsKC) | Bits(Diabatic16MaterialsKC)
    ensures Bits(DiabaticCompareKC) == Bits(DiabaticConcreteKC) | Bits(DiabaticSteelKC)
    ensures Bits(DiabaticThickness) == Bits(DiabaticThickness005) | Bits(DiabaticThickness010)
              | Bits(DiabaticThickness050) | Bits(DiabaticThickness100) | Bits(DiabaticThickness500)
  {
  }

  /** A single flag matches exactly itself and the collections holding it. */
  lemma SingleMatches(a: BenchmarkName, b: BenchmarkName)
    requires !IsCollection(a)
    ensures Overlap(a, b) <==> a in Members(b)
  {
  }

  /** `BenchmarkName::is_benchmark`: everything is selected when nothing is
      requested. */
  function IsBenchmark(b: BenchmarkName, requested: Option<seq<BenchmarkName>>): (r: bool)
    ensures requested.None? ==> r
    ensures requested.Some? ==> (r <==> exists k :: 0 <= k < |requested.value| && Overlap(b, requested.value[k]))
  {
    match requested
    case None => true
    case Some(rs) => AnyOverlaps(b, rs)
  }

  function AnyOverlaps(b: BenchmarkName, rs: seq<BenchmarkName>): (r: bool)
    ensures r <==> exists k :: 0 <= k < |rs| && Overlap(b, rs[k])
  {
    if |rs| == 0 then false else Overlap(b, rs[0]) || AnyOverlaps(b, rs[1..])
  }

  /** The benchmarks that have a result directory: all but the collections
      and the FDS speed test. */
  predicate HasPath(b: BenchmarkName)
  {
    !IsCollection(b) && !b.SpeedTestFds?
  }

  /** `BenchmarkName::path_str`; it panics for the names without a path. */
  function PathStr(b: BenchmarkName): (r: string)
    requires HasPath(b)
    ensures |r| > 0
  {
    match b
    case Diabatic1MaterialKC => "fds/1D/Diabatic/multiple/1"
    case Diabatic2MaterialsKC => "fds/1D/Diabatic/multiple/2"
    case Diabatic4MaterialsKC => "fds/1D/Diabatic/multiple/4"
    case Diabatic8MaterialsKC => "fds/1D/Diabatic/multiple/8"
    case Diabatic16MaterialsKC => "fds/1D/Diabatic/multiple/16"
    case DiabaticConcreteKC => "fds/1D/Diabatic/concrete_k_c"
    case DiabaticSteelKC => "fds/1D/Diabatic/steel_k_c"
    case DiabaticThickness005 => "fds/1D/Diabatic/thickness_steel_k_c/005cm"
    case DiabaticThickness010 => "fds/1D/Diabatic/thickness_steel_k_c/010cm"
    case DiabaticThickness050 => "fds/1D/Diabatic/thickness_steel_k_c/050cm"
    case DiabaticThickness100 => "fds/1D/Diabatic/thickness_steel_k_c/100cm"
    case DiabaticThickness500 => "fds/1D/Diabatic/thickness_steel_k_c/500cm"
    case Adiabatic => "fds/1D/Adiabatic/concrete_k_c"
  }

  /** The benchmark whose result directory is `path`, if any. */
  function FromPath(path: string): (r: Option<BenchmarkName>)
    ensures r.Some? ==> HasPath(r.value)
  {
    if path == "fds/1D/Diabatic/multiple/1" then Some(Diabatic1MaterialKC)
    else if path == "fds/1D/Diabatic/multiple/2" then Some(Diabatic2MaterialsKC)
    else if path == "fds/1D/Diabatic/multiple/4" then Some(Diabatic4MaterialsKC)
    else if path == "fds/1D/Diabatic/multiple/8" then Some(Diabatic8MaterialsKC)
    else if path == "fds/1D/Diabatic/multiple/16" then Some(Diabatic16MaterialsKC)
    else if path == "fds/1D/Diabatic/concrete_k_c" then Some(DiabaticConcreteKC)
    else if path == "fds/1D/Diabatic/steel_k_c" then Some(DiabaticSteelKC)
    else if path == "fds/1D/Diabatic/thickness_steel_k_c/005cm" then Some(DiabaticThickness005)
    else if path == "fds/1D/Diabatic/thickness_steel_k_c/010cm" then Some(DiabaticThickness010)
    else if path == "fds/1D/Diabatic/thickness_steel_k_c/050cm" then Some(DiabaticThickness050)
    else if path == "fds/1D/Diabatic/thickness_steel_k_c/100cm" then Some(DiabaticThickness100)
    else if path == "fds/1D/Diabatic/thickness_steel_k_c/500cm" then Some(DiabaticThickness500)
    else if path == "fds/1D/Adiabatic/concrete_k_c" then Some(BenchmarkName.Adiabatic)
    else None
  }

  /** Every benchmark with a path is found again from its path, so no two
      benchmarks share a result directory. */
  lemma PathStrRoundTrip(a: BenchmarkName, b: BenchmarkName)
    requires HasPath(a) && HasPath(b)
    ensures FromPath(PathStr(a)) == Some(a)
    ensures PathStr(a) == PathStr(b) <==> a == b
  {
    PathDecodes(a);
    PathDecodes(b);
  }

  lemma PathDecodes(a: BenchmarkName)
    requires HasPath(a)
    ensures FromPath(PathStr(a)) == Some(a)
  {
    if a in Material {
      MaterialPathDecodes(a);
    } else {
      OtherPathDecodes(a);
    }
  }

  lemma MaterialPathDecodes(a: BenchmarkName)
    requires a in Material
    ensures HasPath(a) && FromPath(PathStr(a)) == Some(a)
  {
  }

  lemma OtherPathDecodes(a: BenchmarkName)
    requires HasPath(a) && a !in Material
    ensures FromPath(PathStr(a)) == Some(a)
  {
  }

  /** The lists `run_benchmark` iterates hold only names with a path. */
  lemma ListedHavePaths(a: BenchmarkName)
    requires a in Material + Thickness + [BenchmarkName.Adiabatic]
    ensures HasPath(a)
  {
  }

  // ---------------------------------------------------------------- run_benchmark

  /** One call of `one_dimensional_by_simulation_type`. */
  datatype Run = Run(name: BenchmarkName, path: string, elements: seq<nat>, kind: SimulationKind, simType: SimulationType1D)

  /** The options of the command line that select what runs. */
  datatype Selection = Selection(methods: Option<seq<SimulationMethod>>, kinds: Option<seq<SimulationKind>>,
                                 names: Option<seq<BenchmarkName>>)

  predicate Selected(sel: Selection, b: BenchmarkName, t: SimulationType1D, kind: SimulationKind)
  {
    IsBenchmark(b, sel.names) && IsSimulationType1D(t, sel.methods) && IsSimulationKind(kind, sel.kinds)
  }

  /** The inner loop over the backends for one benchmark. */
  function RunsFor(sel: Selection, b: BenchmarkName, ts: seq<SimulationType1D>, elements: seq<nat>, kind: SimulationKind)
    : (r: seq<Run>)
    requires HasPath(b)
    ensures forall k :: 0 <= k < |r| ==>
              r[k].name == b && r[k].path == PathStr(b) && r[k].simType in ts && r[k].elements == elements
              && r[k].kind == kind && Selected(sel, b, r[k].simType, kind)
  {
    if |ts| == 0 then []
    else
      var rest := RunsFor(sel, b, ts[1..], elements, kind);
      assert forall t :: t in ts[1..] ==> t in ts;
      if Selected(sel, b, ts[0], kind) then [Run(b, PathStr(b), elements, kind, ts[0])] + rest else rest
  }

  /** The outer loop over a list of benchmarks. */
  function Cross(sel: Selection, bs: seq<BenchmarkName>, ts: seq<SimulationType1D>, elements: seq<nat>, kind: SimulationKind)
    : (r: seq<Run>)
    requires forall k :: 0 <= k < |bs| ==> HasPath(bs[k])
    ensures forall k :: 0 <= k < |r| ==>
              r[k].name in bs && HasPath(r[k].name) && r[k].path == PathStr(r[k].name) && r[k].simType in ts
              && r[k].elements == elements && r[k].kind == kind && Selected(sel, r[k].name, r[k].simType, kind)
  {
    if |bs| == 0 then []
    else
      var first := RunsFor(sel, bs[0], ts, elements, kind);
      var rest := Cross(sel, bs[1..], ts, elements, kind);
      assert forall b :: b in bs[1..] ==> b in bs;
      first + rest
  }

  /** Every selected pair of a benchmark and a backend gets its run. */
  lemma {:induction false} CrossComplete(sel: Selection, bs: seq<BenchmarkName>, ts: seq<SimulationType1D>, elements: seq<nat>,
                                         kind: SimulationKind, b: BenchmarkName, t: SimulationType1D)
    requires forall k :: 0 <= k < |bs| ==> HasPath(bs[k])
    requires b in bs && t in ts && Selected(sel, b, t, kind)
    ensures HasPath(b) && Run(b, PathStr(b), elements, kind, t) in Cross(sel, bs, ts, elements, kind)
  {
    if bs[0] == b {
      RunsForComplete(sel, b, ts, elements, kind, t);
    } else {
      CrossComplete(sel, bs[1..], ts, elements, kind, b, t);
    }
  }

  lemma {:induction false} RunsForComplete(sel: Selection, b: BenchmarkName, ts: seq<SimulationType1D>, elements: seq<nat>,
                                           kind: SimulationKind, t: SimulationType1D)
    requires HasPath(b) && t in ts && Selected(sel, b, t, kind)
    ensures Run(b, PathStr(b), elements, kind, t) in RunsFor(sel, b, ts, elements, kind)
  {
    if ts[0] != t {
      RunsForComplete(sel, b, ts[1..], elements, kind, t);
    }
  }

  /** One of the loops of `run_benchmark`: the benchmarks, the backends,
      the wall-element counts and the kind it runs. */
  datatype Stage = Stage(names: seq<BenchmarkName>, types: seq<SimulationType1D>, elements: seq<nat>, kind: SimulationKind)

  predicate StageHasPaths(st: Stage)
  {
    forall k :: 0 <= k < |st.names| ==> HasPath(st.names[k])
  }

  /** The loops in order: every material benchmark on every backend, the
      material benchmarks on method 3 at the chunk sizes, every thickness
      on the CPU and method 3, the thicknesses on method 3 at the chunk
      sizes, and the adiabatic benchmark on every backend. */
  const Stages: seq<Stage> :=
    [Stage(Material, All1D, BenchmarkElements, Diabatic),
     Stage(Material, [GpuM3], BenchmarkChunk, Diabatic),
     Stage(Thickness, [Cpu, GpuM3], BenchmarkElements, Diabatic),
     Stage(Thickness, [GpuM3], BenchmarkChunk, Diabatic),
     Stage([BenchmarkName.Adiabatic], All1D, BenchmarkElements, SimulationKind.Adiabatic)]

  /** The runs of the stages, one stage after the other. */
  function StageRuns(sel: Selection, stages: seq<Stage>): (r: seq<Run>)
    requires forall i :: 0 <= i < |stages| ==> StageHasPaths(stages[i])
    ensures forall k :: 0 <= k < |r| ==>
              HasPath(r[k].name) && r[k].path == PathStr(r[k].name)
              && Selected(sel, r[k].name, r[k].simType, r[k].kind)
  {
    if |stages| == 0 then []
    else
      var st := stages[0];
      assert StageHasPaths(st);
      Cross(sel, st.names, st.types, st.elements, st.kind) + StageRuns(sel, stages[1..])
  }

  /** `run_benchmark`: the runs it starts, in order, each with a benchmark
      that has a path and a selected backend and kind; the second result
      says whether the FDS speed test runs. */
  function RunBenchmark(sel: Selection): (r: (seq<Run>, bool))
    ensures forall k :: 0 <= k < |r.0| ==>
              HasPath(r.0[k].name) && r.0[k].path == PathStr(r.0[k].name)
              && Selected(sel, r.0[k].name, r.0[k].simType, r.0[k].kind)
    ensures r.1 <==> IsBenchmark(BenchmarkName.SpeedTestFds, sel.names)
  {
    (StageRuns(sel, Stages), IsBenchmark(BenchmarkName.SpeedTestFds, sel.names))
  }

  /** With every run selected, a list of benchmarks yields one run per
      benchmark and backend. */
  lemma {:induction false} CrossAll(sel: Selection, bs: seq<BenchmarkName>, ts: seq<SimulationType1D>, elements: seq<nat>, kind: SimulationKind)
    requires sel == Selection(None, None, None)
    requires forall k :: 0 <= k < |bs| ==> HasPath(bs[k])
    ensures |Cross(sel, bs, ts, elements, kind)| == |bs| * |ts|
  {
    if |bs| > 0 {
      RunsForAll(sel, bs[0], ts, elements, kind);
      CrossAll(sel, bs[1..], ts, elements, kind);
      Lists.MulPred(|bs|, |ts|);
    }
  }

  lemma {:induction false} RunsForAll(sel: Selection, b: BenchmarkName, ts: seq<SimulationType1D>, elements: seq<nat>, kind: SimulationKind)
    requires sel == Selection(None, None, None) && HasPath(b)
    ensures |RunsFor(sel, b, ts, elements, kind)| == |ts|
  {
    if |ts| > 0 {
      RunsForAll(sel, b, ts[1..], elements, kind);
    }
  }

  /** Without a selection every stage runs each of its benchmarks on each
      of its backends. */
  lemma {:induction false} StageRunsAll(sel: Selection, stages: seq<Stage>)
    requires sel == Selection(None, None, None)
    requires forall i :: 0 <= i < |stages| ==> StageHasPaths(stages[i])
    ensures |StageRuns(sel, stages)| == StageSize(stages)
  {
    if |stages| > 0 {
      CrossAll(sel, stages[0].names, stages[0].types, stages[0].elements, stages[0].kind);
      StageRunsAll(sel, stages[1..]);
    }
  }

  function StageSize(stages: seq<Stage>): nat
  {
    if |stages| == 0 then 0 else |stages[0].names| * |stages[0].types| + StageSize(stages[1..])
  }

  /** Without any selection, 54 one-dimensional runs and the speed test. */
  lemma RunBenchmarkAll(sel: Selection)
    requires sel == Selection(None, None, None)
    ensures |RunBenchmark(sel).0| == 54
    ensures RunBenchmark(sel).1
  {
    StagesHavePaths();
    StageRunsAll(sel, Stages);
    StagesSize();
  }

  lemma StagesSize()
    ensures StageSize(Stages) == 54
  {
    var st := Stages;
    assert StageSize(st[5..]) == 0;
    assert StageSize(st[4..]) == 4 + StageSize(st[5..]);
    assert StageSize(st[3..]) == 5 + StageSize(st[4..]);
    assert StageSize(st[2..]) == 10 + StageSize(st[3..]);
    assert StageSize(st[1..]) == 7 + StageSize(st[2..]);
    assert StageSize(st) == 28 + StageSize(st[1..]);
  }

  /** A run of one stage is a run of the whole list. */
  lemma {:induction false} StageRunsHas(sel: Selection, stages: seq<Stage>, i: nat, run: Run)
    requires forall j :: 0 <= j < |stages| ==> StageHasPaths(stages[j])
    requires i < |stages| && StageHasPaths(stages[i])
    requires run in Cross(sel, stages[i].names, stages[i].types, stages[i].elements, stages[i].kind)
    ensures run in StageRuns(sel, stages)
  {
    if i > 0 {
      StageRunsHas(sel, stages[1..], i - 1, run);
    }
  }

  /** A selected material benchmark runs on every selected backend at the
      regular sizes. */
  lemma RunBenchmarkSelects(sel: Selection, b: BenchmarkName, t: SimulationType1D)
    requires b in Material && Selected(sel, b, t, Diabatic)
    ensures HasPath(b) && Run(b, PathStr(b), BenchmarkElements, Diabatic, t) in RunBenchmark(sel).0
  {
    CrossComplete(sel, Material, All1D, BenchmarkElements, Diabatic, b, t);
    StagesHavePaths();
    assert Stages[0] == Stage(Material, All1D, BenchmarkElements, Diabatic);
    StageRunsHas(sel, Stages, 0, Run(b, PathStr(b), BenchmarkElements, Diabatic, t));
  }

  lemma StagesHavePaths()
    ensures forall j :: 0 <= j < |Stages| ==> StageHasPaths(Stages[j])
  {
  }

  /** Requesting one benchmark, one backend and the diabatic kind selects
      that combination. */
  lemma SelectsPair(b: BenchmarkName, t: SimulationType1D)
    ensures Selected(Selection(Some([FromType1D(t)]), Some([Diabatic]), Some([b])), b, t, Diabatic)
  {
    assert Overlap(b, [b][0]);
    CollectionSelectsAll(t, t);
  }
}
