/** Benchmark runs of the 1D backends (src/heat_transfer/simulations/benchmark.rs):
    which device columns are read for how many wall elements, how a device
    row fills the per-element boundary buffers, how the input is
    duplicated to the requested size, how many updates one run performs,
    and where the timings are written. Timing, files and the backends are
    not modelled. */
module SimBenchmark {
  import opened Wrappers
  import opened Simulations
  import Text
  import Lists
  import Cpu
  import Dispatch
  import Temperature

  type Pair = Dispatch.Pair

  /** Runs per size, and solid time steps per run. */
  const SimulationReruns: nat := 100
  const SimulationSteps: nat := 100

  /** The device columns of one wall element, per kind. */
  function PerElementNames(kind: SimulationKind): (names: seq<string>)
    ensures |names| == PerElement(kind)
  {
    match kind
    case Diabatic =>
      ["DEVC_WALL_HEAT_TRANSFER_COEFFICIENT_WEST", "DEVC_GAS_TEMPERATURE_WEST", "DEVC_WALL_RADIATIVE_HEAT_FLUX_WEST",
       "DEVC_WALL_HEAT_TRANSFER_COEFFICIENT_EAST", "DEVC_GAS_TEMPERATURE_EAST", "DEVC_WALL_RADIATIVE_HEAT_FLUX_EAST"]
    case DiabaticOneSide =>
      ["DEVC_WALL_HEAT_TRANSFER_COEFFICIENT_WEST", "DEVC_GAS_TEMPERATURE_WEST",
       "DEVC_WALL_HEAT_TRANSFER_COEFFICIENT_EAST", "DEVC_GAS_TEMPERATURE_EAST"]
    case Adiabatic => []
  }

  function PerElement(kind: SimulationKind): nat
  {
    match kind
    case Diabatic => 6
    case DiabaticOneSide => 4
    case Adiabatic => 0
  }

  /** `format!("{s}_{}", i + 1)`: the column of element `i`. */
  function Suffixed(base: string, i: nat): string
  {
    base + "_" + Text.NatToString(i + 1)
  }

  function ElementNames(kind: SimulationKind, i: nat): (names: seq<string>)
    ensures |names| == PerElement(kind)
    ensures forall j :: 0 <= j < |names| ==> names[j] == Suffixed(PerElementNames(kind)[j], i)
  {
    Lists.Map(PerElementNames(kind), (s: string) => Suffixed(s, i))
  }

  /** The device list of `SimulationBenchmarkDevice::try_new`: no element
      is an error; one element reads the plain columns; more read every
      element's columns with its 1-based number appended. `Time` comes
      first. */
  function DeviceNames(kind: SimulationKind, count: nat): (r: Result<seq<string>>)
    ensures r.Err? <==> count == 0
    ensures r.Ok? ==> |r.value| == 1 + count * PerElement(kind) && r.value[0] == "Time"
    ensures count == 1 ==> r == Ok(["Time"] + PerElementNames(kind))
  {
    if count == 0 then Err("Count should be at least 1.")
    else if count > 1 then
      var groups := seq(count, i requires 0 <= i < count => ElementNames(kind, i));
      Lists.TotalLengthUniform(groups, PerElement(kind), count);
      assert groups[..count] == groups;
      Lists.FlattenLength(groups);
      Ok(["Time"] + Lists.Flatten(groups))
    else Ok(["Time"] + PerElementNames(kind))
  }

  /** With several elements, column `1 + i * p + j` is column `j` of element
      `i` (whose suffix reads back by `SuffixReadsBack`). */
  lemma DeviceNameAt(kind: SimulationKind, count: nat, i: nat, j: nat)
    requires count > 1 && i < count && j < PerElement(kind)
    ensures var names := DeviceNames(kind, count).value;
            1 + i * PerElement(kind) + j < |names|
            && names[1 + i * PerElement(kind) + j] == Suffixed(PerElementNames(kind)[j], i)
  {
    var groups := seq(count, i requires 0 <= i < count => ElementNames(kind, i));
    Lists.FlattenUniform(groups, PerElement(kind), i, j);
  }

  /** The number after the last `_` of a suffixed column is the element's
      1-based number. */
  lemma SuffixReadsBack(base: string, i: nat)
    requires i + 1 <= Text.UsizeMax
    ensures var pieces := Text.Split(Suffixed(base, i), '_');
            Text.ParseNat(pieces[|pieces| - 1]) == Some(i + 1)
  {
    var digits := Text.NatToString(i + 1);
    assert '_' !in digits by {
      forall k | 0 <= k < |digits| ensures digits[k] != '_' {
      }
    }
    assert Suffixed(base, i) == base + ['_'] + digits;
    Text.SplitLast(base, '_', digits);
    Text.NatStringRoundTrip(i + 1);
  }

  // ---------------------------------------------------------------- the device

  /** The device's state besides its position in the file: the stored time
      and one coefficient pair and one `q` pair per wall element. */
  datatype Device = Device(lastTime: real, coefficients: seq<Pair>, q: seq<Pair>)

  /** A fresh device for `count` elements: zero time and zero buffers. */
  function NewDevice(count: nat): (d: Device)
    ensures |d.coefficients| == |d.q| == count && d.lastTime == 0.0
    ensures forall i :: 0 <= i < count ==> d.coefficients[i] == (0.0, 0.0) && d.q[i] == (0.0, 0.0)
  {
    Device(0.0, seq(count, _ => (0.0, 0.0)), seq(count, _ => (0.0, 0.0)))
  }

  /** A row of the device file for `count` elements: the time and every
      element's columns. */
  predicate RowFits(kind: SimulationKind, count: nat, data: seq<real>)
  {
    |data| >= 1 && |data| == 1 + count * PerElement(kind)
  }

  lemma ColumnInRow(kind: SimulationKind, count: nat, i: nat, j: nat)
    requires i < count && 1 <= j <= PerElement(kind)
    ensures PerElement(kind) * i + j <= count * PerElement(kind)
  {
    assert PerElement(kind) * (i + 1) <= PerElement(kind) * count;
  }

  function DiabaticCoefficients(data: seq<real>, i: nat): Pair
    requires 6 * i + 6 < |data|
  {
    (data[6 * i + 1], data[6 * i + 4])
  }

  /** The front heat uses `data[1]`, element 0's coefficient, for every
      element, as written. */
  function DiabaticQ(data: seq<real>, i: nat): Pair
    requires 6 * i + 6 < |data|
  {
    (data[1] * data[6 * i + 2] + data[6 * i + 3] * Temperature.FluxScale,
     data[6 * i + 4] * data[6 * i + 5] + data[6 * i + 6] * Temperature.FluxScale)
  }

  function OneSideQ(data: seq<real>, i: nat): Pair
    requires 4 * i + 4 < |data|
  {
    (data[4 * i + 1] * data[4 * i + 2], data[4 * i + 3] * data[4 * i + 4])
  }

  /** The `for` loop of `next` over the elements. `DiabaticOneSide` only
      writes `q` (its first assignment is overwritten by the second), so the
      coefficients keep their previous values. */
  function Fill(kind: SimulationKind, data: seq<real>, d: Device): (r: Device)
    requires |d.coefficients| == |d.q| && RowFits(kind, |d.q|, data)
    ensures |r.coefficients| == |r.q| == |d.q| && r.lastTime == d.lastTime
    ensures kind.DiabaticOneSide? ==> r.coefficients == d.coefficients
  {
    var n := |d.q|;
    match kind
    case Diabatic =>
      Device(d.lastTime,
             seq(n, i requires 0 <= i < n => ColumnInRow(kind, n, i, 6); DiabaticCoefficients(data, i)),
             seq(n, i requires 0 <= i < n => ColumnInRow(kind, n, i, 6); DiabaticQ(data, i)))
    case DiabaticOneSide =>
      Device(d.lastTime, d.coefficients, seq(n, i requires 0 <= i < n => ColumnInRow(kind, n, i, 4); OneSideQ(data, i)))
    case Adiabatic =>
      Device(d.lastTime, seq(n, _ => (Cpu.ConstTempH, Cpu.AdiabaticH)), seq(n, _ => (Temperature.AdiabaticFrontValue, 0.0)))
  }

  /** What element `i`'s buffers hold after a row: its own columns, except
      that the diabatic front heat takes element 0's coefficient. */
  lemma FillElement(kind: SimulationKind, data: seq<real>, d: Device, i: nat)
    requires |d.coefficients| == |d.q| && RowFits(kind, |d.q|, data) && i < |d.q|
    ensures var r := Fill(kind, data, d);
            (kind.Diabatic? ==>
               6 * i + 6 < |data|
               && r.coefficients[i] == (data[6 * i + 1], data[6 * i + 4])
               && r.q[i] == (data[1] * data[6 * i + 2] + data[6 * i + 3] * 1000.0,
                             data[6 * i + 4] * data[6 * i + 5] + data[6 * i + 6] * 1000.0))
            && (kind.DiabaticOneSide? ==>
                  4 * i + 4 < |data|
                  && r.coefficients[i] == d.coefficients[i]
                  && r.q[i] == (data[4 * i + 1] * data[4 * i + 2], data[4 * i + 3] * data[4 * i + 4]))
            && (kind.Adiabatic? ==> r.coefficients[i] == (Cpu.ConstTempH, Cpu.AdiabaticH) && r.q[i] == (200.0, 0.0))
  {
    if !kind.Adiabatic? {
      ColumnInRow(kind, |d.q|, i, PerElement(kind));
    }
  }

  /** `SimulationBenchmarkDevice::next` from row `pos`: the same reading of
      `DeltaTimeSolidFactor` rows as the temperature device, yielding the
      step's length and refilling the buffers from the last row read. */
  function Next(kind: SimulationKind, rows: seq<Result<seq<real>>>, pos: nat, d: Device)
    : (r: Option<(Result<real>, nat, Device)>)
    requires pos <= |rows| && |d.coefficients| == |d.q|
    requires forall j :: 0 <= j < |rows| && rows[j].Ok? ==> RowFits(kind, |d.q|, rows[j].value)
    ensures r.Some? ==> pos < r.value.1 <= |rows| && |r.value.2.q| == |r.value.2.coefficients| == |d.q|
    ensures r.Some? && r.value.0.Ok? ==>
              r.value.1 == pos + DeltaTimeSolidFactor && rows[r.value.1 - 1].Ok?
              && RowFits(kind, |d.q|, rows[r.value.1 - 1].value)
              && var data := rows[r.value.1 - 1].value;
                 r.value.0.value == data[0] - d.lastTime && r.value.2.lastTime == data[0]
                 && r.value.2 == Fill(kind, data, d.(lastTime := data[0]))
    ensures r.Some? && r.value.0.Err? ==> r.value.2 == d
  {
    match Temperature.Skip(rows, pos, DeltaTimeSolidFactor - 1)
    case Ended => None
    case Failed(msg, at) => Some((Err(msg), at, d))
    case Skipped(at) =>
      if at == |rows| then None
      else
        match rows[at]
        case Err(msg) => Some((Err(msg), at + 1, d))
        case Ok(data) =>
          assert RowFits(kind, |d.q|, rows[at].value);
          Some((Ok(data[0] - d.lastTime), at + 1, Fill(kind, data, d.(lastTime := data[0]))))
  }

  // ---------------------------------------------------------------- one_dimensional

  /** `flat_map(|w| vec![w; d])`: every entry repeated `d` times in a row. */
  function Duplicate<T>(xs: seq<T>, d: nat): (r: seq<T>)
    ensures |r| == |xs| * d
  {
    var groups := seq(|xs|, i requires 0 <= i < |xs| => seq(d, _ => xs[i]));
    Lists.TotalLengthUniform(groups, d, |xs|);
    assert groups[..|xs|] == groups;
    Lists.FlattenLength(groups);
    Lists.Flatten(groups)
  }

  /** Copy `j` of entry `i` sits at `i * d + j`: taking every `d`-th entry
      gives the input back. */
  lemma DuplicateAt<T>(xs: seq<T>, d: nat, i: nat, j: nat)
    requires i < |xs| && j < d
    ensures i * d + j < |Duplicate(xs, d)| && Duplicate(xs, d)[i * d + j] == xs[i]
  {
    var groups := seq(|xs|, i requires 0 <= i < |xs| => seq(d, _ => xs[i]));
    Lists.FlattenUniform(groups, d, i, j);
  }

  /** The duplicated input has the requested size: `e` elements from `w`
      surfaces when `duplication(e, w)` succeeds. */
  lemma DuplicatedSize<T>(elements: seq<T>, e: nat)
    requires |elements| > 0 && Duplication(e, |elements|).Ok?
    ensures |Duplicate(elements, Duplication(e, |elements|).value)| == e
  {
  }

  /** The update loop of one run as written: the item is read (an error
      ends the run with that error), and the loop stops once more than
      `SimulationSteps` updates were done; the result is the number of
      updates. */
  function UpdatesAsWritten(items: seq<Result<real>>, i: nat): Result<nat>
    requires i <= |items|
    decreases |items| - i
  {
    if i == |items| then Ok(i)
    else if items[i].Err? then Err(items[i].msg)
    else if i > SimulationSteps then Ok(i)
    else UpdatesAsWritten(items, i + 1)
  }

  /** The loop stops on `i > SIMULATION_STEPS`, after `SIMULATION_STEPS + 1`
      updates, when the constant says how many steps should be done. */
  lemma UpdatesOffByOne()
    ensures UpdatesAsWritten(seq(200, _ => Ok(1.0)), 0) == Ok(SimulationSteps + 1)
  {
    var items: seq<Result<real>> := seq(200, _ => Ok(1.0));
    UpdatesAsWrittenCount(items, 0);
  }

  lemma {:induction false} UpdatesAsWrittenCount(items: seq<Result<real>>, i: nat)
    requires i <= |items| && i <= SimulationSteps + 1
    requires forall k :: 0 <= k < |items| ==> items[k].Ok?
    ensures UpdatesAsWritten(items, i) == Ok(if |items| < SimulationSteps + 1 then |items| else SimulationSteps + 1)
    decreases |items| - i
  {
    if i < |items| && i <= SimulationSteps {
      UpdatesAsWrittenCount(items, i + 1);
    }
  }

  /** The update loop with the intended bound: at most `SimulationSteps`
      updates. */
  function Updates(items: seq<Result<real>>, i: nat): (r: Result<nat>)
    requires i <= |items|
    ensures i <= SimulationSteps && r.Ok? ==> i <= r.value <= SimulationSteps
    decreases |items| - i
  {
    if i == |items| then Ok(i)
    else if items[i].Err? then Err(items[i].msg)
    else if i >= SimulationSteps then Ok(i)
    else Updates(items, i + 1)
  }

  /** With every item readable, a run performs `SimulationSteps` updates, or
      one per item when there are fewer; an unreadable item among those
      read fails the run. */
  lemma {:induction false} UpdatesCount(items: seq<Result<real>>, i: nat)
    requires i <= |items| && i <= SimulationSteps
    ensures var n := if |items| < SimulationSteps then |items| else SimulationSteps;
            var read := if |items| < SimulationSteps + 1 then |items| else SimulationSteps + 1;
            (Updates(items, i).Ok? <==> forall k :: i <= k < read ==> items[k].Ok?)
            && (Updates(items, i).Ok? ==> Updates(items, i).value == n)
    decreases |items| - i
  {
    if i < |items| && items[i].Ok? && i < SimulationSteps {
      UpdatesCount(items, i + 1);
    }
  }

  // ---------------------------------------------------------------- BenchmarkPathPart

  /** `BenchmarkPathPart::path_str`: `prefix/label/method`, or `label/method`
      without a prefix; a method without a path is an error. */
  function PathStr(prefix: Option<string>, tag: string, sm: SimulationMethod): (r: Result<string>)
    ensures r.Err? <==> MethodPathStr(sm).Err?
  {
    var m :- MethodPathStr(sm);
    match prefix
    case Some(p) => Ok(p + "/" + tag + "/" + m)
    case None => Ok(tag + "/" + m)
  }

  /** The method paths are single components. */
  lemma MethodPathPlain(sm: SimulationMethod)
    requires MethodPathStr(sm).Ok?
    ensures '/' !in MethodPathStr(sm).value
  {
  }

  /** Splitting the path at `/` gives its parts back, when prefix and label
      are single components. */
  lemma PathStrSplits(prefix: Option<string>, tag: string, sm: SimulationMethod)
    requires MethodPathStr(sm).Ok? && '/' !in tag && (prefix.Some? ==> '/' !in prefix.value)
    ensures var parts := (if prefix.Some? then [prefix.value] else []) + [tag, MethodPathStr(sm).value];
            Text.Split(PathStr(prefix, tag, sm).value, '/') == parts
  {
    var m := MethodPathStr(sm).value;
    MethodPathPlain(sm);
    var parts := (if prefix.Some? then [prefix.value] else []) + [tag, m];
    var two := [tag, m];
    assert two[1..] == [m];
    assert Text.Join(two, '/') == tag + ['/'] + m;
    if prefix.Some? {
      assert parts == [prefix.value] + two && parts[1..] == two;
      assert Text.Join(parts, '/') == prefix.value + ['/'] + (tag + ['/'] + m);
      assert PathStr(prefix, tag, sm).value == prefix.value + ['/'] + (tag + ['/'] + m);
    } else {
      assert parts == two;
      assert PathStr(prefix, tag, sm).value == tag + ['/'] + m;
    }
    assert forall k :: 0 <= k < |parts| ==> '/' !in parts[k];
    Text.SplitJoin(parts, '/');
    assert Text.Join(parts, '/') == PathStr(prefix, tag, sm).value;
  }
}
