/** Temperature comparison runs against FDS
    (src/heat_transfer/simulations/temperature.rs): device rows are turned
    into the boundary data of one solid time step, the simulation is
    stepped with them, and the temperatures of both are collected. The
    device file is the sequence of rows `Devices` yields; the heat-transfer
    backend is a parameter. */
module Temperature {
  import opened Wrappers
  import opened Simulations
  import Cpu
  import Dispatch

  type Pair = Dispatch.Pair

  /** The columns requested from the device file, per kind. */
  function DeviceNames(kind: SimulationKind): (names: seq<string>)
    ensures |names| >= 2 && names[0] == "Time"
  {
    match kind
    case Diabatic =>
      ["Time", "DEVC_WALL_HEAT_TRANSFER_COEFFICIENT_WEST", "DEVC_GAS_TEMPERATURE_WEST",
       "DEVC_WALL_RADIATIVE_HEAT_FLUX_WEST", "DEVC_WALL_TEMPERATURE_WEST",
       "DEVC_WALL_HEAT_TRANSFER_COEFFICIENT_EAST", "DEVC_GAS_TEMPERATURE_EAST",
       "DEVC_WALL_RADIATIVE_HEAT_FLUX_EAST", "DEVC_WALL_TEMPERATURE_EAST"]
    case DiabaticOneSide =>
      ["Time", "DEVC_WALL_HEAT_TRANSFER_COEFFICIENT_WEST", "DEVC_GAS_TEMPERATURE_WEST",
       "DEVC_WALL_RADIATIVE_HEAT_FLUX_WEST", "DEVC_WALL_TEMPERATURE_WEST", "DEVC_WALL_TEMPERATURE_EAST"]
    case Adiabatic => ["Time", "DEVC_WALL_TEMPERATURE_WEST"]
  }

  /** Radiative flux is logged in kW/m², the solver works in W/m². */
  const FluxScale: real := 1000.0

  /** Front surface temperature and heat flux of the adiabatic case. */
  const AdiabaticFrontValue: real := 200.0

  /** One solid time step: its length, the heat-transfer coefficients and
      incoming heat of both sides, and FDS's wall temperatures. */
  datatype Step = Step(deltaTime: real, coefficients: Pair, q: Pair, fds: Pair)

  /** The match in `next`: which columns feed which side. */
  function StepOf(kind: SimulationKind, data: seq<real>, deltaTime: real): (s: Step)
    requires |data| == |DeviceNames(kind)|
    ensures s.deltaTime == deltaTime
    ensures kind.Diabatic? ==> s.coefficients == (data[1], data[5])
                               && s.q == (data[1] * data[2] + data[3] * FluxScale, data[5] * data[6] + data[7] * FluxScale)
                               && s.fds == (data[4], data[8])
    ensures kind.DiabaticOneSide? ==> s.coefficients == (data[1], Cpu.AdiabaticH)
                                      && s.q == (data[1] * data[2] + data[3] * FluxScale, 0.0)
                                      && s.fds == (data[4], data[5])
    ensures kind.Adiabatic? ==> s.coefficients == (Cpu.ConstTempH, Cpu.AdiabaticH)
                                && s.q == (AdiabaticFrontValue, 0.0) && s.fds == (AdiabaticFrontValue, data[1])
  {
    match kind
    case Diabatic =>
      Step(deltaTime, (data[1], data[5]), (data[1] * data[2] + data[3] * FluxScale, data[5] * data[6] + data[7] * FluxScale),
           (data[4], data[8]))
    case DiabaticOneSide =>
      Step(deltaTime, (data[1], Cpu.AdiabaticH), (data[1] * data[2] + data[3] * FluxScale, 0.0), (data[4], data[5]))
    case Adiabatic =>
      Step(deltaTime, (Cpu.ConstTempH, Cpu.AdiabaticH), (AdiabaticFrontValue, 0.0), (AdiabaticFrontValue, data[1]))
  }

  /** Rows that parsed hold one value per requested device (`Devices`
      guarantees it). */
  ghost predicate Shaped(kind: SimulationKind, rows: seq<Result<seq<real>>>)
  {
    forall j :: 0 <= j < |rows| && rows[j].Ok? ==> |rows[j].value| == |DeviceNames(kind)|
  }

  /** What skipping `count` rows ends in. */
  datatype Skipped = Ended | Failed(msg: string, at: nat) | Skipped(at: nat)

  /** The `for` loop of `next`: each skipped row is read, and a row that
      failed to parse is reported; the end of the file ends the iteration. */
  function Skip(rows: seq<Result<seq<real>>>, pos: nat, count: nat): (r: Skipped)
    requires pos <= |rows|
    ensures r.Skipped? <==> pos + count <= |rows| && forall j :: pos <= j < pos + count ==> rows[j].Ok?
    ensures r.Skipped? ==> r.at == pos + count
    ensures r.Failed? ==> pos < r.at <= |rows| && r.at <= pos + count && rows[r.at - 1].Err?
    decreases count
  {
    if count == 0 then Skipped(pos)
    else if pos == |rows| then Ended
    else if rows[pos].Err? then Failed(rows[pos].msg, pos + 1)
    else Skip(rows, pos + 1, count - 1)
  }

  /** `SimulationTemperatureDevice1D::next` from row `pos` with the stored
      time `lastTime`: `None` at the end, else the item, the next row and
      the new stored time. Each item reads `DeltaTimeSolidFactor` rows; the
      step's length is the time column minus the stored time, which then
      becomes that time. */
  function Next(kind: SimulationKind, rows: seq<Result<seq<real>>>, pos: nat, lastTime: real)
    : (r: Option<(Result<Step>, nat, real)>)
    requires pos <= |rows| && Shaped(kind, rows)
    ensures r.Some? ==> pos < r.value.1 <= |rows|
    ensures r.Some? && r.value.0.Ok? ==>
              r.value.1 == pos + DeltaTimeSolidFactor
              && (forall j :: pos <= j < r.value.1 ==> rows[j].Ok?)
              && var data := rows[r.value.1 - 1].value;
                 r.value.2 == data[0] && r.value.0.value == StepOf(kind, data, data[0] - lastTime)
    ensures r.Some? && r.value.0.Err? ==> r.value.2 == lastTime
  {
    match Skip(rows, pos, DeltaTimeSolidFactor - 1)
    case Ended => None
    case Failed(msg, at) => Some((Err(msg), at, lastTime))
    case Skipped(at) =>
      if at == |rows| then None
      else
        match rows[at]
        case Err(msg) => Some((Err(msg), at + 1, lastTime))
        case Ok(data) => Some((Ok(StepOf(kind, data, data[0] - lastTime)), at + 1, data[0]))
  }

  /** All items of the iterator, starting at row `pos` with stored time
      `lastTime` (0 for a fresh device). */
  function Items(kind: SimulationKind, rows: seq<Result<seq<real>>>, pos: nat, lastTime: real): seq<Result<Step>>
    requires pos <= |rows| && Shaped(kind, rows)
    decreases |rows| - pos
  {
    match Next(kind, rows, pos, lastTime)
    case None => []
    case Some((item, next, time)) => [item] + Items(kind, rows, next, time)
  }

  predicate AllOk<T>(xs: seq<Result<T>>)
  {
    forall k :: 0 <= k < |xs| ==> xs[k].Ok?
  }

  /** Total length of the steps. */
  function SumDeltas(steps: seq<Result<Step>>): real
    requires AllOk(steps)
  {
    if |steps| == 0 then 0.0 else steps[0].value.deltaTime + SumDeltas(steps[1..])
  }

  /** When every row parses, the device yields one step per pair of rows,
      and the steps' lengths add up to the last time read minus the time it
      started from: the time steps tile the time axis. */
  lemma {:induction false} ItemsTelescope(kind: SimulationKind, rows: seq<Result<seq<real>>>, pos: nat, lastTime: real)
    requires pos <= |rows| && Shaped(kind, rows) && AllOk(rows)
    ensures var items := Items(kind, rows, pos, lastTime);
            |items| == (|rows| - pos) / DeltaTimeSolidFactor && AllOk(items)
            && (|items| > 0 ==> lastTime + SumDeltas(items)
                                == rows[pos + DeltaTimeSolidFactor * |items| - 1].value[0])
    decreases |rows| - pos
  {
    var items := Items(kind, rows, pos, lastTime);
    if pos + DeltaTimeSolidFactor <= |rows| {
      var n := Next(kind, rows, pos, lastTime);
      assert n.Some? && n.value.0.Ok? && n.value.1 == pos + 2;
      var next, time := n.value.1, n.value.2;
      var rest := Items(kind, rows, next, time);
      assert items == [n.value.0] + rest;
      ItemsTelescope(kind, rows, next, time);
      assert items[1..] == rest;
      if |rest| > 0 {
        assert pos + 2 * |items| - 1 == next + 2 * |rest| - 1;
      }
    } else {
      assert Next(kind, rows, pos, lastTime).None?;
    }
  }

  // ---------------------------------------------------------------- Temperatures

  datatype Temperatures = Temperatures(time: seq<real>, fdsFront: seq<real>, fdsBack: seq<real>,
                                       simFront: seq<real>, simBack: seq<real>)

  /** Elementwise `fds - sim`, as long as the shorter series (`zip`). */
  function DiffSeries(fds: seq<real>, sim: seq<real>): (d: seq<real>)
    ensures |d| == if |fds| < |sim| then |fds| else |sim|
    ensures forall i :: 0 <= i < |d| ==> d[i] == fds[i] - sim[i]
  {
    seq(if |fds| < |sim| then |fds| else |sim|, i requires 0 <= i < |fds| && 0 <= i < |sim| => fds[i] - sim[i])
  }

  datatype Diff = Diff(front: seq<real>, back: seq<real>)

  /** `Temperatures::diff`. */
  function TemperaturesDiff(t: Temperatures): Diff
  {
    Diff(DiffSeries(t.fdsFront, t.simFront), DiffSeries(t.fdsBack, t.simBack))
  }

  /** The difference recovers FDS's values from the simulated ones. */
  lemma DiffRecovers(t: Temperatures)
    requires |t.fdsFront| == |t.simFront| && |t.fdsBack| == |t.simBack|
    ensures var d := TemperaturesDiff(t);
            |d.front| == |t.fdsFront| && |d.back| == |t.fdsBack|
            && (forall i :: 0 <= i < |d.front| ==> t.simFront[i] + d.front[i] == t.fdsFront[i])
            && (forall i :: 0 <= i < |d.back| ==> t.simBack[i] + d.back[i] == t.fdsBack[i])
  {
  }

  // ---------------------------------------------------------------- one_dimensional

  /** `HeatTransfer1D::update` of the chosen backend on its one wall
      element: the new state and the front and back temperatures, or an
      error. */
  type Update<!S> = (S, Step) -> Result<(S, Pair)>

  /** The temperatures the backend reports for `steps`, from state `s`;
      fails at the first failing step or update. */
  function Simulate<S>(s: S, steps: seq<Result<Step>>, update: Update<S>): Result<seq<Pair>>
  {
    if |steps| == 0 then Ok([])
    else if steps[0].Err? then Err(steps[0].msg)
    else
      match update(s, steps[0].value)
      case Err(msg) => Err(msg)
      case Ok((s', out)) =>
        match Simulate(s', steps[1..], update)
        case Err(msg) => Err(msg)
        case Ok(rest) => Ok([out] + rest)
  }

  /** `outs` in front of a successful result. */
  function Prepend(outs: seq<Pair>, r: Result<seq<Pair>>): Result<seq<Pair>>
  {
    match r
    case Err(msg) => Err(msg)
    case Ok(v) => Ok(outs + v)
  }

  /** `t` holds what the first `i` steps report: the accumulated time
      after each, FDS's temperatures and the backend's outputs `outs`. */
  ghost predicate Collected(steps: seq<Result<Step>>, outs: seq<Pair>, t: Temperatures, i: nat)
  {
    i <= |steps| && AllOk(steps[..i])
    && |t.time| == |t.fdsFront| == |t.fdsBack| == |t.simFront| == |t.simBack| == |outs| == i
    && (forall k :: 0 <= k < i ==> t.time[k] == SumDeltas(steps[..k + 1]))
    && (forall k :: 0 <= k < i ==> t.fdsFront[k] == steps[k].value.fds.0 && t.fdsBack[k] == steps[k].value.fds.1)
    && (forall k :: 0 <= k < i ==> t.simFront[k] == outs[k].0 && t.simBack[k] == outs[k].1)
  }

  /** `one_dimensional` after the device and the input are loaded: more
      than one wall element is an error, and the first device item is
      skipped. */
  method OneDimensional<S>(items: seq<Result<Step>>, elementCount: nat, setup: Result<S>, update: Update<S>)
    returns (r: Result<Temperatures>)
    ensures elementCount > 1 || setup.Err? ==> r.Err?
    ensures elementCount <= 1 && setup.Ok? ==>
              (r.Ok? <==> Simulate(setup.value, if |items| == 0 then [] else items[1..], update).Ok?)
    ensures r.Ok? ==>
              var steps := if |items| == 0 then [] else items[1..];
              Collected(steps, Simulate(setup.value, steps, update).value, r.value, |steps|)
  {
    if elementCount > 1 {
      return Err("Multiple wall elements in meta defined, wich is not supported in simulate_collect_temperature.");
    }
    if setup.Err? {
      return Err(setup.msg);
    }
    r := Run(setup.value, if |items| == 0 then [] else items[1..], update);
  }

  /** The loop of `one_dimensional`: every item is an error or a step, which
      is fed to the backend; FDS's temperatures, the backend's and the
      accumulated time are collected. */
  method Run<S>(s0: S, steps: seq<Result<Step>>, update: Update<S>) returns (r: Result<Temperatures>)
    ensures r.Ok? <==> Simulate(s0, steps, update).Ok?
    ensures r.Ok? ==> Collected(steps, Simulate(s0, steps, update).value, r.value, |steps|)
  {
    var s := s0;
    var t := Temperatures([], [], [], [], []);
    ghost var outs: seq<Pair> := [];
    var elapsed := 0.0;
    assert steps[0..] == steps && steps[..0] == [];
    PrependEmpty(Simulate(s0, steps, update));
    for i := 0 to |steps|
      invariant Collected(steps, outs, t, i) && elapsed == SumDeltas(steps[..i])
      invariant Simulate(s0, steps, update) == Prepend(outs, Simulate(s, steps[i..], update))
    {
      if steps[i].Err? {
        assert Simulate(s, steps[i..], update).Err?;
        return Err(steps[i].msg);
      }
      var step := steps[i].value;
      var u := update(s, step);
      if u.Err? {
        assert Simulate(s, steps[i..], update).Err?;
        return Err(u.msg);
      }
      SimulateStep(s, steps, i, update, outs, s0);
      CollectedSnoc(steps, outs, t, i, u.value.1);
      SumDeltasSnoc(steps, i);
      s := u.value.0;
      outs := outs + [u.value.1];
      elapsed := elapsed + step.deltaTime;
      t := Temperatures(t.time + [elapsed], t.fdsFront + [step.fds.0], t.fdsBack + [step.fds.1],
                        t.simFront + [u.value.1.0], t.simBack + [u.value.1.1]);
    }
    assert steps[|steps|..] == [];
    r := Ok(t);
  }

  lemma PrependEmpty(r: Result<seq<Pair>>)
    ensures Prepend([], r) == r
  {
    if r.Ok? {
      assert [] + r.value == r.value;
    }
  }

  /** One more step extends what is collected. */
  lemma CollectedSnoc(steps: seq<Result<Step>>, outs: seq<Pair>, t: Temperatures, i: nat, out: Pair)
    requires Collected(steps, outs, t, i) && i < |steps| && steps[i].Ok?
    ensures AllOk(steps[..i + 1])
    ensures var e := SumDeltas(steps[..i]) + steps[i].value.deltaTime;
            Collected(steps, outs + [out],
                      Temperatures(t.time + [e], t.fdsFront + [steps[i].value.fds.0], t.fdsBack + [steps[i].value.fds.1],
                                   t.simFront + [out.0], t.simBack + [out.1]), i + 1)
  {
    assert forall k :: 0 <= k < i ==> steps[..i + 1][k] == steps[..i][k];
    SumDeltasSnoc(steps, i);
  }

  /** One successful step moves its output from the pending part into the
      collected prefix. */
  lemma SimulateStep<S>(s: S, steps: seq<Result<Step>>, i: nat, update: Update<S>, outs: seq<Pair>, s0: S)
    requires i < |steps| && steps[i].Ok? && update(s, steps[i].value).Ok?
    requires Simulate(s0, steps, update) == Prepend(outs, Simulate(s, steps[i..], update))
    ensures Simulate(s0, steps, update)
            == Prepend(outs + [update(s, steps[i].value).value.1],
                       Simulate(update(s, steps[i].value).value.0, steps[i + 1..], update))
  {
    var step := steps[i].value;
    var (s', out) := update(s, step).value;
    assert steps[i..][1..] == steps[i + 1..];
    var tail := Simulate(s', steps[i + 1..], update);
    assert Simulate(s, steps[i..], update) == Prepend([out], tail);
    if tail.Ok? {
      assert outs + ([out] + tail.value) == outs + [out] + tail.value;
    }
  }

  /** The running sum grows by one step. */
  lemma {:induction false} SumDeltasSnoc(steps: seq<Result<Step>>, i: nat)
    requires i < |steps| && AllOk(steps[..i + 1])
    ensures AllOk(steps[..i])
    ensures SumDeltas(steps[..i + 1]) == SumDeltas(steps[..i]) + steps[i].value.deltaTime
    decreases i
  {
    assert steps[..i + 1][..i] == steps[..i];
    if i > 0 {
      assert steps[1..][..i] == steps[..i + 1][1..];
      assert steps[1..][..i - 1] == steps[..i][1..];
      SumDeltasSnoc(steps[1..], i - 1);
    }
  }
}
