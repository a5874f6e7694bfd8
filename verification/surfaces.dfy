/** Surfaces read from `&SURF` property lists, and the discretisation of
    each material layer into cells (src/fds/surface.rs). */
module Surfaces {
  import opened Wrappers
  import opened Properties
  import opened Ramps
  import Materials
  import opened Reals
  import Lists
  import Text

  datatype SurfaceCell = SurfaceCell(materialId: nat, size: real)

  type Surface = seq<SurfaceCell>

  type SurfaceList = seq<(string, Surface)>

  /** `f32::sqrt` is an input of the model. */
  type Sqrt = real -> real

  /** Upper bound on the cells of one layer. */
  const MaxCells: nat := 999

  /** Temperature at which the material's properties fix the cell size. */
  const SizingTemperature: real := 20.0

  /** Time step the cell size is chosen for. */
  const SizingDeltaTime: real := 1.0

  // ---------------------------------------------------------------- layer geometry

  /** The weight of cell `i` (1-based) in a layer of `n`: `2^min(i-1, n-i)`. */
  function Weight(n: nat, i: nat): real
    requires 1 <= i <= n
  {
    Pow2(MinNat(i - 1, n - i))
  }

  /** `sum_{j=i..n} Weight(n, j)`. */
  function WeightsFrom(n: nat, i: nat): (r: real)
    requires 1 <= i <= n + 1
    ensures r >= 0.0
    ensures i <= n ==> r >= 1.0
    decreases n + 1 - i
  {
    if i == n + 1 then 0.0 else Weight(n, i) + WeightsFrom(n, i + 1)
  }

  /** `s_n`, the total weight of a layer of `n` cells, as the inner loop of
      src/fds/surface.rs:196-199 sums it. */
  function TotalWeight(n: nat): (r: real)
    requires n >= 1
    ensures r >= 1.0
  {
    WeightsFrom(n, 1)
  }

  /** The search of `get_cell_count_and_start_size` from `n` on. */
  function CountFrom(size: real, thickness: real, n: nat): (r: (nat, real))
    requires 1 <= n <= MaxCells
    ensures n <= r.0 <= MaxCells
    ensures r.1 == thickness / TotalWeight(r.0)
    ensures forall m :: n <= m < r.0 ==> thickness / TotalWeight(m) >= size
    ensures r.0 < MaxCells ==> thickness / TotalWeight(r.0) < size
    decreases MaxCells - n
  {
    if thickness / TotalWeight(n) < size then (n, thickness / TotalWeight(n))
    else if n == MaxCells then (MaxCells, thickness / TotalWeight(MaxCells))
    else CountFrom(size, thickness, n + 1)
  }

  /** `get_cell_count_and_start_size`: the smallest `n` in 1..999 whose start
      size `thickness / s_n` falls below `size`, or 999 when none does. */
  function CellCountAndStartSize(size: real, thickness: real): (r: (nat, real))
    ensures 1 <= r.0 <= MaxCells
    ensures r.1 == thickness / TotalWeight(r.0)
    ensures forall m :: 1 <= m < r.0 ==> thickness / TotalWeight(m) >= size
    ensures r.0 < MaxCells ==> r.1 < size
  {
    CountFrom(size, thickness, 1)
  }

  /** The weights of the `n` cells of a layer, 0-based: `2^min(i, n-1-i)`. */
  function Weights(n: nat): (r: seq<real>)
    ensures |r| == n
    ensures forall i :: 0 <= i < n ==> r[i] == Weight(n, i + 1)
  {
    seq(n, i requires 0 <= i < n => Weight(n, i + 1))
  }

  /** Sizes of the `n` cells of a layer: `start * 2^min(i, n-1-i)`. */
  function LayerSizes(start: real, n: nat): (r: seq<real>)
    ensures |r| == n
  {
    Scale(Weights(n), start)
  }

  /** The layer is symmetric about its middle. */
  lemma LayerSizesSymmetric(start: real, n: nat, i: nat)
    requires i < n
    ensures LayerSizes(start, n)[i] == LayerSizes(start, n)[n - 1 - i]
  {
    assert n - 1 - (n - 1 - i) == i;
    assert MinNat(i, n - 1 - i) == MinNat(n - 1 - i, i);
  }

  lemma {:induction false} WeightsSumFrom(n: nat, k: nat)
    requires k <= n
    ensures Sum(Weights(n)[k..]) == WeightsFrom(n, k + 1)
    decreases n - k
  {
    var xs := Weights(n);
    if k < n {
      WeightsSumFrom(n, k + 1);
      assert xs[k..][1..] == xs[k + 1..];
    }
  }

  /** The sizes of a layer add up to its start size times `s_n`. */
  lemma LayerSizesSum(start: real, n: nat)
    requires n >= 1
    ensures Sum(LayerSizes(start, n)) == start * TotalWeight(n)
  {
    WeightsSumFrom(n, 0);
    assert Weights(n)[0..] == Weights(n);
    SumScale(Weights(n), start);
  }

  /** Over the reals, a layer of `n` cells starting at `thickness / s_n`
      exactly fills the thickness. */
  lemma LayerFillsThickness(n: nat, start: real, thickness: real)
    requires n >= 1 && start == thickness / TotalWeight(n)
    ensures Sum(LayerSizes(start, n)) == thickness
  {
    LayerSizesSum(start, n);
    DivMul(thickness, TotalWeight(n));
  }

  // ---------------------------------------------------------------- cells of a surface

  /** The reference cell size of a material: `sqrt(k * dt / (rho * c))` at 20 degrees. */
  function CellSize(m: Materials.Material, sqrt: Sqrt): real
    requires Materials.Evaluable(m)
  {
    var c := Calc(m.specificHeat, SizingTemperature);
    var k := Calc(m.conductivity, SizingTemperature);
    sqrt(Div(k * SizingDeltaTime, m.density * c))
  }

  /** `cells_from_material_and_thickness`. */
  function LayerCells(materials: Materials.MaterialList, id: nat, thickness: real, sqrt: Sqrt): (r: seq<SurfaceCell>)
    requires id < |materials| && Materials.Evaluable(materials[id].1)
    ensures var (n, start) := CellCountAndStartSize(CellSize(materials[id].1, sqrt), thickness);
            |r| == n
            && (forall i :: 0 <= i < n ==> r[i] == SurfaceCell(id, LayerSizes(start, n)[i]))
  {
    var (n, start) := CellCountAndStartSize(CellSize(materials[id].1, sqrt), thickness);
    var sizes := LayerSizes(start, n);
    seq(n, i requires 0 <= i < n => SurfaceCell(id, sizes[i]))
  }

  function Sizes(cells: seq<SurfaceCell>): (r: seq<real>)
    ensures |r| == |cells| && forall i :: 0 <= i < |cells| ==> r[i] == cells[i].size
  {
    seq(|cells|, i requires 0 <= i < |cells| => cells[i].size)
  }

  lemma SizesAppend(a: seq<SurfaceCell>, b: seq<SurfaceCell>)
    ensures Sizes(a + b) == Sizes(a) + Sizes(b)
  {
    assert forall i :: 0 <= i < |a + b| ==> Sizes(a + b)[i] == (Sizes(a) + Sizes(b))[i];
  }

  /** A layer's cells carry its material and their sizes sum to its thickness. */
  lemma LayerCellsThickness(materials: Materials.MaterialList, id: nat, thickness: real, sqrt: Sqrt)
    requires id < |materials| && Materials.Evaluable(materials[id].1)
    ensures |LayerCells(materials, id, thickness, sqrt)| >= 1
    ensures forall c :: c in LayerCells(materials, id, thickness, sqrt) ==> c.materialId == id
    ensures Sum(Sizes(LayerCells(materials, id, thickness, sqrt))) == thickness
  {
    var (n, start) := CellCountAndStartSize(CellSize(materials[id].1, sqrt), thickness);
    assert Sizes(LayerCells(materials, id, thickness, sqrt)) == LayerSizes(start, n);
    LayerFillsThickness(n, start, thickness);
  }

  predicate ValidIds(materials: Materials.MaterialList, ids: seq<nat>) {
    forall k :: 0 <= k < |ids| ==> ids[k] < |materials| && Materials.Evaluable(materials[ids[k]].1)
  }

  /** The layers `zip` pairs up: as many as the shorter list. */
  function LayerCount(ids: seq<nat>, thicknesses: seq<real>): nat {
    if |ids| < |thicknesses| then |ids| else |thicknesses|
  }

  /** All layers' cells in order (`zip` then `flat_map`). */
  function AllLayers(materials: Materials.MaterialList, ids: seq<nat>, thicknesses: seq<real>, sqrt: Sqrt): (r: seq<SurfaceCell>)
    requires ValidIds(materials, ids)
    ensures LayerCount(ids, thicknesses) > 0 ==> |r| > 0
    decreases |ids|
  {
    if |ids| == 0 || |thicknesses| == 0 then []
    else
      LayerCellsThickness(materials, ids[0], thicknesses[0], sqrt);
      LayerCells(materials, ids[0], thicknesses[0], sqrt) + AllLayers(materials, ids[1..], thicknesses[1..], sqrt)
  }

  /** `cells_from_materials_and_thickness`: the layers' cells with the first
      cell repeated at the front and the last at the back. With no layer at
      all, `surface_cells[0]` panics. */
  function SurfaceCells(materials: Materials.MaterialList, ids: seq<nat>, thicknesses: seq<real>, sqrt: Sqrt): (r: Surface)
    requires ValidIds(materials, ids)
    requires LayerCount(ids, thicknesses) > 0
    ensures var inner := AllLayers(materials, ids, thicknesses, sqrt);
            |r| == |inner| + 2 && r[1..|r| - 1] == inner && r[0] == inner[0] && r[|r| - 1] == inner[|inner| - 1]
  {
    var inner := AllLayers(materials, ids, thicknesses, sqrt);
    [inner[0]] + inner + [inner[|inner| - 1]]
  }

  /** Sum of a layer list's thicknesses, over the layers `zip` keeps. */
  function ZippedThickness(ids: seq<nat>, thicknesses: seq<real>): real
    decreases |ids|
  {
    if |ids| == 0 || |thicknesses| == 0 then 0.0 else thicknesses[0] + ZippedThickness(ids[1..], thicknesses[1..])
  }

  /** The inner cells fill the total thickness of the layers zip keeps. */
  lemma {:induction false} AllLayersThickness(materials: Materials.MaterialList, ids: seq<nat>, thicknesses: seq<real>, sqrt: Sqrt)
    requires ValidIds(materials, ids)
    ensures Sum(Sizes(AllLayers(materials, ids, thicknesses, sqrt))) == ZippedThickness(ids, thicknesses)
    decreases |ids|
  {
    if |ids| > 0 && |thicknesses| > 0 {
      var head := LayerCells(materials, ids[0], thicknesses[0], sqrt);
      var tail := AllLayers(materials, ids[1..], thicknesses[1..], sqrt);
      AllLayersThickness(materials, ids[1..], thicknesses[1..], sqrt);
      LayerCellsThickness(materials, ids[0], thicknesses[0], sqrt);
      SizesAppend(head, tail);
      SumAppend(Sizes(head), Sizes(tail));
    }
  }

  // ---------------------------------------------------------------- SURF properties

  /** Resolves every name to its material index, or fails on the first unknown one. */
  function ResolveAll(materials: Materials.MaterialList, names: seq<string>): (r: Option<seq<nat>>)
    ensures r.Some? <==> forall k :: 0 <= k < |names| ==> Materials.FindIndex(materials, names[k]).Some?
    ensures r.Some? ==> |r.value| == |names|
                        && forall k :: 0 <= k < |names| ==> Some(r.value[k]) == Materials.FindIndex(materials, names[k])
  {
    if |names| == 0 then Some([])
    else
      match Materials.FindIndex(materials, names[0])
      case None => None
      case Some(i) =>
        match ResolveAll(materials, names[1..])
        case None => None
        case Some(rest) => Some([i] + rest)
  }

  /** Parses every piece, or fails on the first that does not parse. */
  function ParseAll(parse: ParseReal, pieces: seq<string>): (r: Option<seq<real>>)
    ensures r.Some? <==> forall k :: 0 <= k < |pieces| ==> parse(pieces[k]).Some?
    ensures r.Some? ==> |r.value| == |pieces|
                        && forall k :: 0 <= k < |pieces| ==> Some(r.value[k]) == parse(pieces[k])
  {
    if |pieces| == 0 then Some([])
    else
      match parse(pieces[0])
      case None => None
      case Some(v) =>
        match ParseAll(parse, pieces[1..])
        case None => None
        case Some(rest) => Some([v] + rest)
  }

  /** `HT3D=.TRUE.` or `HT3D=T` replaces the thicknesses by a single zero. */
  predicate Is3D(p: Property) {
    p.key == "HT3D" && (p.value == ".TRUE." || p.value == "T")
  }

  predicate SetsThickness(p: Property) {
    p.key == "THICKNESS" || Is3D(p)
  }

  function ThicknessOf(p: Property, parse: ParseReal): Option<seq<real>> {
    if p.key == "THICKNESS" then ParseAll(parse, Text.TrimmedFields(p.value, ',')) else Some([0.0])
  }

  function MaterialIdsOf(p: Property, materials: Materials.MaterialList): Option<seq<nat>> {
    ResolveAll(materials, Text.TrimmedFields(p.value, ','))
  }

  predicate PropertyOk(p: Property, materials: Materials.MaterialList, parse: ParseReal) {
    && (p.key == "MATL_ID" ==> MaterialIdsOf(p, materials).Some?)
    && (p.key == "THICKNESS" ==> ThicknessOf(p, parse).Some?)
  }

  datatype State = State(id: Option<string>, materialIds: Option<seq<nat>>, thicknesses: Option<seq<real>>)

  /** The material indexes of the last MATL_ID property. */
  function LastMaterialIds(props: seq<Property>, materials: Materials.MaterialList): Option<seq<nat>> {
    match LastOf(props, HasKey("MATL_ID"))
    case None => None
    case Some(p) => MaterialIdsOf(p, materials)
  }

  /** The thicknesses of the last THICKNESS or true HT3D property. */
  function LastThicknesses(props: seq<Property>, parse: ParseReal): Option<seq<real>> {
    match LastOf(props, SetsThickness)
    case None => None
    case Some(p) => ThicknessOf(p, parse)
  }

  /** What the scan has gathered after reading `props`: every field from its last setter. */
  function Summary(props: seq<Property>, materials: Materials.MaterialList, parse: ParseReal): State {
    State(LastValue(props, "ID"), LastMaterialIds(props, materials), LastThicknesses(props, parse))
  }

  /** When every property reads, a field is missing only when nothing sets it. */
  lemma MaterialIdsComplete(props: seq<Property>, materials: Materials.MaterialList, parse: ParseReal)
    requires forall j :: 0 <= j < |props| ==> PropertyOk(props[j], materials, parse)
    ensures LastMaterialIds(props, materials).Some? <==> LastOf(props, HasKey("MATL_ID")).Some?
  {
    var last := LastOf(props, HasKey("MATL_ID"));
    if last.Some? {
      var j :| 0 <= j < |props| && props[j] == last.value && HasKey("MATL_ID")(last.value);
      assert PropertyOk(last.value, materials, parse);
    }
  }

  lemma ThicknessesComplete(props: seq<Property>, materials: Materials.MaterialList, parse: ParseReal)
    requires forall j :: 0 <= j < |props| ==> PropertyOk(props[j], materials, parse)
    ensures LastThicknesses(props, parse).Some? <==> LastOf(props, SetsThickness).Some?
  {
    var last := LastOf(props, SetsThickness);
    if last.Some? {
      var j :| 0 <= j < |props| && props[j] == last.value && SetsThickness(last.value);
      assert PropertyOk(last.value, materials, parse);
    }
  }

  /** One iteration of the property loop (src/fds/surface.rs:92-125). */
  function Step(s: State, p: Property, materials: Materials.MaterialList, parse: ParseReal): Result<State> {
    match p.key
    case "ID" => Ok(s.(id := Some(p.value)))
    case "MATL_ID" =>
      (match ResolveAll(materials, Text.TrimmedFields(p.value, ','))
       case None => Err("Could not find MATL wit ID = \"" + p.value + "\"")
       case Some(ids) => Ok(s.(materialIds := Some(ids))))
    case "THICKNESS" =>
      (match ParseAll(parse, Text.TrimmedFields(p.value, ','))
       case None => Err("Failed to parse \"" + p.value + "\" to float.")
       case Some(ts) => Ok(s.(thicknesses := Some(ts))))
    case "HT3D" => if p.value == ".TRUE." || p.value == "T" then Ok(s.(thicknesses := Some([0.0]))) else Ok(s)
    case _ => Ok(s)
  }

  lemma StepOk(s: State, p: Property, materials: Materials.MaterialList, parse: ParseReal)
    ensures Step(s, p, materials, parse).Ok? <==> PropertyOk(p, materials, parse)
  {
  }

  lemma StepCases(s: State, s': State, p: Property, materials: Materials.MaterialList, parse: ParseReal)
    requires s'.id == if p.key == "ID" then Some(p.value) else s.id
    requires s'.materialIds == if p.key == "MATL_ID" then MaterialIdsOf(p, materials) else s.materialIds
    requires s'.thicknesses == if SetsThickness(p) then ThicknessOf(p, parse) else s.thicknesses
    ensures Step(s, p, materials, parse).Ok? ==> Step(s, p, materials, parse).value == s'
  {
  }

  lemma StepSummary(props: seq<Property>, materials: Materials.MaterialList, parse: ParseReal, i: nat, s: State)
    requires i < |props|
    requires s == Summary(props[..i], materials, parse)
    ensures Step(s, props[i], materials, parse).Ok? <==> PropertyOk(props[i], materials, parse)
    ensures Step(s, props[i], materials, parse).Ok? ==> Step(s, props[i], materials, parse).value == Summary(props[..i + 1], materials, parse)
  {
    var p := props[i];
    var s' := Summary(props[..i + 1], materials, parse);
    StepOk(s, p, materials, parse);
    LastValueExtend(props, "ID", i);
    LastOfExtend(props, HasKey("MATL_ID"), i);
    LastOfExtend(props, SetsThickness, i);
    assert s'.id == if p.key == "ID" then Some(p.value) else s.id;
    assert s'.materialIds == if p.key == "MATL_ID" then MaterialIdsOf(p, materials) else s.materialIds;
    assert s'.thicknesses == if SetsThickness(p) then ThicknessOf(p, parse) else s.thicknesses;
    StepCases(s, s', p, materials, parse);
  }

  /** The loop's step, its state after a prefix and the properties it
      accepts, as the arguments of `Properties.Scan`. */
  function Stepper(materials: Materials.MaterialList, parse: ParseReal): (State, Property) -> Result<State> {
    (s: State, p: Property) => Step(s, p, materials, parse)
  }

  function Summarize(materials: Materials.MaterialList, parse: ParseReal): seq<Property> -> State {
    (ps: seq<Property>) => Summary(ps, materials, parse)
  }

  function Accepts(materials: Materials.MaterialList, parse: ParseReal): Property -> bool {
    (p: Property) => PropertyOk(p, materials, parse)
  }

  /** The property loop of src/fds/surface.rs:92-125 keeps, after every
      prefix, each field's last setter in that prefix. */
  lemma ScanFollows(props: seq<Property>, materials: Materials.MaterialList, parse: ParseReal)
    ensures StepFollows(props, Stepper(materials, parse), Summarize(materials, parse), Accepts(materials, parse))
  {
    forall j | 0 <= j < |props| {
      StepSummary(props, materials, parse, j, Summary(props[..j], materials, parse));
    }
  }

  /** `try_surface_from_properties`: ID, MATL_ID and the thicknesses each
      take their last setter (THICKNESS or a true HT3D); a missing one, an
      unknown material or an unparsable thickness is an error. */
  function TrySurface(props: seq<Property>, materials: Materials.MaterialList, parse: ParseReal, sqrt: Sqrt): (r: Result<(string, Surface)>)
    requires forall k :: 0 <= k < |materials| ==> Materials.Evaluable(materials[k].1)
    ensures r.Ok? <==> (forall j :: 0 <= j < |props| ==> PropertyOk(props[j], materials, parse))
                       && LastValue(props, "ID").Some?
                       && LastOf(props, HasKey("MATL_ID")).Some? && LastOf(props, SetsThickness).Some?
    ensures r.Ok? ==> var ids := LastMaterialIds(props, materials).value;
                      var ts := LastThicknesses(props, parse).value;
                      && ValidIds(materials, ids) && LayerCount(ids, ts) > 0
                      && r.value == (LastValue(props, "ID").value, SurfaceCells(materials, ids, ts, sqrt))
  {
    ScanFollows(props, materials, parse);
    var s :- Properties.Scan(props, Stepper(materials, parse), Summarize(materials, parse), Accepts(materials, parse),
                             0, State(None, None, None));
    MaterialIdsComplete(props, materials, parse);
    ThicknessesComplete(props, materials, parse);
    MaterialIdsValid(props, materials);
    ThicknessesPresent(props, parse);
    Finish(s, materials, sqrt)
  }

  /** The check after the property loop: every field must have been set. */
  function Finish(s: State, materials: Materials.MaterialList, sqrt: Sqrt): (r: Result<(string, Surface)>)
    requires s.materialIds.Some? ==> ValidIds(materials, s.materialIds.value) && |s.materialIds.value| >= 1
    requires s.thicknesses.Some? ==> |s.thicknesses.value| >= 1
    ensures r.Ok? <==> s.id.Some? && s.materialIds.Some? && s.thicknesses.Some?
    ensures r.Ok? ==> LayerCount(s.materialIds.value, s.thicknesses.value) > 0
                      && r.value == (s.id.value, SurfaceCells(materials, s.materialIds.value, s.thicknesses.value, sqrt))
  {
    if s.id.None? || s.materialIds.None? || s.thicknesses.None? then
      Err("On or more properties are missing.")
    else
      Ok((s.id.value, SurfaceCells(materials, s.materialIds.value, s.thicknesses.value, sqrt)))
  }

  /** Resolved material indexes exist, name evaluable materials and are never empty. */
  lemma MaterialIdsValid(props: seq<Property>, materials: Materials.MaterialList)
    requires forall k :: 0 <= k < |materials| ==> Materials.Evaluable(materials[k].1)
    ensures var ids := LastMaterialIds(props, materials);
            ids.Some? ==> ValidIds(materials, ids.value) && |ids.value| >= 1
  {
    if LastMaterialIds(props, materials).Some? {
      var ids := LastMaterialIds(props, materials).value;
      forall k | 0 <= k < |ids|
        ensures ids[k] < |materials|
      {
      }
    }
  }

  /** A thickness setter always yields at least one thickness. */
  lemma ThicknessesPresent(props: seq<Property>, parse: ParseReal)
    ensures LastThicknesses(props, parse).Some? ==> |LastThicknesses(props, parse).value| >= 1
  {
  }

  /** `SurfaceList::try_add_from_properties`: a readable surface is
      appended under its ID; otherwise the error is returned. */
  function TryAdd(list: SurfaceList, props: seq<Property>, materials: Materials.MaterialList, parse: ParseReal, sqrt: Sqrt): (r: Result<SurfaceList>)
    requires forall k :: 0 <= k < |materials| ==> Materials.Evaluable(materials[k].1)
    ensures r.Ok? <==> TrySurface(props, materials, parse, sqrt).Ok?
    ensures r.Ok? ==> |r.value| == |list| + 1 && r.value[..|list|] == list
                      && r.value[|list|] == TrySurface(props, materials, parse, sqrt).value
  {
    var entry :- TrySurface(props, materials, parse, sqrt);
    Ok(list + [entry])
  }

  /** Appending keeps every earlier lookup, and a new name finds the new
      surface. */
  lemma AppendFinds(list: SurfaceList, e: (string, Surface), id: string)
    ensures FindSurfaceIndex(list, id).Some? ==> FindSurface(list + [e], id) == FindSurface(list, id)
    ensures FindSurfaceIndex(list, id).None? && id == e.0 ==> FindSurface(list + [e], id) == Some(e.1)
  {
    var r := list + [e];
    if FindSurfaceIndex(list, id).Some? {
      var k := FindSurfaceIndex(list, id).value;
      assert r[k].0 == id;
    }
    if FindSurfaceIndex(list, id).None? && id == e.0 {
      assert r[|list|].0 == id;
    }
  }

  /** `SurfaceList::find_index`: the first surface with that name. */
  function FindSurfaceIndex(list: SurfaceList, id: string): (r: Option<nat>)
    ensures r.Some? ==> r.value < |list| && list[r.value].0 == id
                        && forall j :: 0 <= j < r.value ==> list[j].0 != id
    ensures r.None? <==> forall j :: 0 <= j < |list| ==> list[j].0 != id
  {
    Lists.FindIndex(list, (e: (string, Surface)) => e.0, id)
  }

  /** `SurfaceList::find` agrees with `find_index`. */
  function FindSurface(list: SurfaceList, id: string): (r: Option<Surface>)
    ensures r.None? <==> FindSurfaceIndex(list, id).None?
    ensures r.Some? ==> r.value == list[FindSurfaceIndex(list, id).value].1
  {
    match FindSurfaceIndex(list, id)
    case None => None
    case Some(k) => Some(list[k].1)
  }
}
