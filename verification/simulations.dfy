/** Selection of what to simulate and the loading of a 1D FDS input into
    wall elements (src/heat_transfer/simulations/mod.rs). Selections are
    bit sets: a value is selected when its bits overlap a requested one. */
module Simulations {
  import opened Wrappers
  import opened Wall
  import Surfaces
  import Materials
  import Meta

  /** Gas time steps per solid time step. */
  const DeltaTimeSolidFactor: nat := 2

  // ---------------------------------------------------------------- SimulationMethod

  datatype SimulationMethod =
    | OneDimensionalCpu
    | OneDimensionalGpuM1
    | OneDimensionalGpuM2
    | OneDimensionalGpuM3
    | OneDimensional
    | SpeedTestFds

  /** The enum's discriminant. */
  function MethodBits(m: SimulationMethod): bv16
  {
    match m
    case OneDimensionalCpu => 0x01
    case OneDimensionalGpuM1 => 0x02
    case OneDimensionalGpuM2 => 0x04
    case OneDimensionalGpuM3 => 0x08
    case OneDimensional => 0x0F
    case SpeedTestFds => 0x80
  }

  predicate MethodsOverlap(a: SimulationMethod, b: SimulationMethod)
  {
    MethodBits(a) & MethodBits(b) != 0
  }

  /** `any` over the requested methods. */
  function AnyOverlaps(m: SimulationMethod, requested: seq<SimulationMethod>): (r: bool)
    ensures r <==> exists k :: 0 <= k < |requested| && MethodsOverlap(m, requested[k])
  {
    if |requested| == 0 then false
    else MethodsOverlap(m, requested[0]) || AnyOverlaps(m, requested[1..])
  }

  /** `SimulationMethod::is_simulation_type`: everything is selected when
      nothing is requested. */
  function IsSimulationType(m: SimulationMethod, requested: Option<seq<SimulationMethod>>): (r: bool)
    ensures requested.None? ==> r
    ensures requested.Some? ==> (r <==> exists k :: 0 <= k < |requested.value| && MethodsOverlap(m, requested.value[k]))
  {
    match requested
    case None => true
    case Some(rs) => AnyOverlaps(m, rs)
  }

  /** Each single method owns one bit: two methods other than the
      collection overlap iff they are the same. */
  lemma SingleMethodsDisjoint(a: SimulationMethod, b: SimulationMethod)
    requires !a.OneDimensional? && !b.OneDimensional?
    ensures MethodsOverlap(a, b) <==> a == b
  {
  }

  /** The collection is exactly the four 1D methods' bits together, so it
      overlaps each of them and nothing else. */
  lemma CollectionIsUnion(m: SimulationMethod)
    ensures MethodBits(OneDimensional) == MethodBits(OneDimensionalCpu) | MethodBits(OneDimensionalGpuM1)
                                          | MethodBits(OneDimensionalGpuM2) | MethodBits(OneDimensionalGpuM3)
    ensures MethodsOverlap(m, OneDimensional) <==> !m.SpeedTestFds?
  {
  }

  /** `SimulationMethod::path_str`: the collection has no path. */
  function MethodPathStr(m: SimulationMethod): (r: Result<string>)
    ensures r.Err? <==> m.OneDimensional?
  {
    match m
    case OneDimensionalCpu => Ok(PathStr1D(Cpu))
    case OneDimensionalGpuM1 => Ok(PathStr1D(GpuM1))
    case OneDimensionalGpuM2 => Ok(PathStr1D(GpuM2))
    case OneDimensionalGpuM3 => Ok(PathStr1D(GpuM3))
    case SpeedTestFds => Ok("fds")
    case OneDimensional => Err("OneDimensional is a collection, therefore has no distinct path.")
  }

  // ---------------------------------------------------------------- SimulationType1D

  datatype SimulationType1D = Cpu | GpuM1 | GpuM2 | GpuM3

  const All1D: seq<SimulationType1D> := [Cpu, GpuM1, GpuM2, GpuM3]

  function PathStr1D(t: SimulationType1D): string
  {
    match t
    case Cpu => "cpu"
    case GpuM1 => "gpu_m1"
    case GpuM2 => "gpu_m2"
    case GpuM3 => "gpu_m3"
  }

  /** `From<SimulationType1D> for SimulationMethod`. */
  function FromType1D(t: SimulationType1D): SimulationMethod
  {
    match t
    case Cpu => OneDimensionalCpu
    case GpuM1 => OneDimensionalGpuM1
    case GpuM2 => OneDimensionalGpuM2
    case GpuM3 => OneDimensionalGpuM3
  }

  /** A 1D type's method has that type's path, and the conversion is
      one-to-one, so distinct types have distinct paths. */
  lemma PathStrFromType1D(t: SimulationType1D, u: SimulationType1D)
    ensures MethodPathStr(FromType1D(t)) == Ok(PathStr1D(t))
    ensures FromType1D(t) == FromType1D(u) <==> t == u
    ensures PathStr1D(t) == PathStr1D(u) <==> t == u
  {
  }

  /** `SimulationType1D::is_simulation_type`: through the method. */
  function IsSimulationType1D(t: SimulationType1D, requested: Option<seq<SimulationMethod>>): bool
  {
    IsSimulationType(FromType1D(t), requested)
  }

  /** Requesting the collection selects every 1D type; requesting one 1D
      method selects that type alone. */
  lemma CollectionSelectsAll(t: SimulationType1D, u: SimulationType1D)
    ensures IsSimulationType1D(t, Some([OneDimensional]))
    ensures IsSimulationType1D(t, Some([FromType1D(u)])) <==> t == u
    ensures !IsSimulationType1D(t, Some([SpeedTestFds]))
  {
    var m := FromType1D(t);
    assert !m.OneDimensional? && !m.SpeedTestFds?;
    RequestedOne(m, OneDimensional);
    RequestedOne(m, FromType1D(u));
    RequestedOne(m, SpeedTestFds);
    CollectionIsUnion(m);
    SingleMethodsDisjoint(m, FromType1D(u));
    SingleMethodsDisjoint(m, SpeedTestFds);
  }

  /** Requesting one method selects exactly the methods it overlaps. */
  lemma RequestedOne(m: SimulationMethod, x: SimulationMethod)
    ensures IsSimulationType(m, Some([x])) <==> MethodsOverlap(m, x)
  {
    assert [x][0] == x;
  }

  // ---------------------------------------------------------------- SimulationKind

  datatype SimulationKind = Diabatic | DiabaticOneSide | Adiabatic

  function KindBits(k: SimulationKind): bv8
  {
    match k
    case Diabatic => 0x1
    case DiabaticOneSide => 0x2
    case Adiabatic => 0x4
  }

  function AnyKindOverlaps(k: SimulationKind, requested: seq<SimulationKind>): (r: bool)
    ensures r <==> exists j :: 0 <= j < |requested| && KindBits(k) & KindBits(requested[j]) != 0
  {
    if |requested| == 0 then false
    else KindBits(k) & KindBits(requested[0]) != 0 || AnyKindOverlaps(k, requested[1..])
  }

  /** `SimulationKind::is_simulation_kind`: a kind is selected iff it is
      requested, or nothing is. */
  function IsSimulationKind(k: SimulationKind, requested: Option<seq<SimulationKind>>): (r: bool)
    ensures requested.None? ==> r
    ensures requested.Some? ==> (r <==> k in requested.value)
  {
    match requested
    case None => true
    case Some(ks) =>
      KindsDisjoint(k, ks);
      AnyKindOverlaps(k, ks)
  }

  /** The kinds own one bit each. */
  lemma KindsDisjoint(k: SimulationKind, ks: seq<SimulationKind>)
    ensures (exists j :: 0 <= j < |ks| && KindBits(k) & KindBits(ks[j]) != 0) <==> k in ks
  {
    if k in ks {
      var j :| 0 <= j < |ks| && ks[j] == k;
      assert KindBits(k) & KindBits(ks[j]) != 0;
    }
  }

  // ---------------------------------------------------------------- loading

  /** `duplication`: how many times each surface's wall element is repeated.
      A zero divisor panics, so it is required away. */
  function Duplication(elements: nat, wallElements: nat): (r: Result<nat>)
    requires wallElements > 0
    ensures r.Ok? <==> elements % wallElements == 0
    ensures r.Ok? ==> r.value * wallElements == elements
  {
    if elements % wallElements > 0 then Result<nat>.Err("Element count must be divisible without residue by wall element count.")
    else Ok(elements / wallElements)
  }

  /** Loaded cells start at 20 degrees. */
  const InitialTemperature: real := 20.0

  /** A surface cell as a wall cell. */
  function ToWallCell(c: Surfaces.SurfaceCell): WallCell
  {
    WallCell(c.size, c.materialId, InitialTemperature)
  }

  /** The wall element of one surface: its cells, in order. Loading keeps
      everything of the surface, which reads back from the element, and adds
      nothing but the initial temperature. */
  function ToWallElement(s: Surfaces.Surface): (e: WallElement)
    ensures |e| == |s| && forall i :: 0 <= i < |s| ==> e[i] == ToWallCell(s[i])
    ensures ToSurface(e) == s
    ensures forall i :: 0 <= i < |e| ==> e[i].temperature == InitialTemperature
  {
    seq(|s|, i requires 0 <= i < |s| => ToWallCell(s[i]))
  }

  /** Reading the surface back from a wall element. */
  function ToSurface(e: WallElement): (s: Surfaces.Surface)
    ensures |s| == |e| && forall i :: 0 <= i < |e| ==> s[i] == Surfaces.SurfaceCell(e[i].material, e[i].size)
  {
    seq(|e|, i requires 0 <= i < |e| => Surfaces.SurfaceCell(e[i].material, e[i].size))
  }

  /** The surface ids of a 1D header index the surface list. */
  predicate IdsInRange(meta: Meta.Meta, surfaces: Surfaces.SurfaceList)
  {
    meta.OneDimensional? ==> forall k :: 0 <= k < |meta.surfaceIds| ==> meta.surfaceIds[k] < |surfaces|
  }

  /** The part of `load_fds_simulation_one_dimensional` after parsing: one
      wall element per surface id of the header, in order; a 3D header is an
      error. */
  function LoadOneDimensional(meta: Meta.Meta, materials: Materials.MaterialList, surfaces: Surfaces.SurfaceList)
    : (r: Result<(seq<Materials.Material>, seq<WallElement>)>)
    requires IdsInRange(meta, surfaces)
    ensures r.Ok? <==> meta.OneDimensional?
    ensures r.Ok? ==> r.value.0 == Materials.IntoMaterials(materials)
                      && |r.value.1| == |meta.surfaceIds|
                      && forall k :: 0 <= k < |meta.surfaceIds| ==>
                           ToSurface(r.value.1[k]) == surfaces[meta.surfaceIds[k]].1
  {
    match meta
    case ThreeDimensional(_, _, _, _) => Err("The simulation is a 3D simulation.")
    case OneDimensional(ids) =>
      var elements := seq(|ids|, k requires 0 <= k < |ids| => ToWallElement(surfaces[ids[k]].1));
      Ok((Materials.IntoMaterials(materials), elements))
  }

  /** Ids resolved by `Meta::try_new` always index the surface list. */
  lemma ResolvedIdsInRange(dimensions: Option<(string, string, string)>, names: seq<string>, surfaces: Surfaces.SurfaceList)
    requires dimensions.Some? && |names| <= 1 ==> |names| == 1
    requires Meta.TryNew(dimensions, names, surfaces).Ok?
    ensures IdsInRange(Meta.TryNew(dimensions, names, surfaces).value, surfaces)
  {
  }
}
