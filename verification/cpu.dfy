/** The CPU backend (src/heat_transfer/one_dimensional/cpu.rs): an implicit
    finite-difference step of the 1D heat equation per wall element, with
    adaptive sub-stepping. `f32` arithmetic is modelled over `real`. */
module Cpu {
  import opened Reals
  import opened Wall
  import opened Thomas
  import Ramps
  import Materials

  type Material = Materials.Material

  /** Largest temperature change per step before the step is subdivided. */
  const DeltaTemperatureLimit: real := 10.0
  const MaxTimeSubdivisions: nat := 4
  /** Stefan-Boltzmann constant. */
  const Sigma: real := 0.0000000567
  /** Sentinel heat-transfer coefficient: the side is adiabatic. */
  const AdiabaticH: real := -100000.0
  /** Sentinel heat-transfer coefficient: the side has a fixed temperature, given as `q`. */
  const ConstTempH: real := -100001.0

  /** Every cell names a material that exists and whose ramps can be evaluated;
      anything else panics in the source. */
  predicate Indexed(e: WallElement, materials: seq<Material>) {
    forall i :: 0 <= i < |e| ==> e[i].material < |materials| && Materials.Evaluable(materials[e[i].material])
  }

  function MaterialAt(e: WallElement, materials: seq<Material>, i: nat): (m: Material)
    requires Indexed(e, materials) && i < |e|
    ensures Materials.Evaluable(m)
  {
    materials[e[i].material]
  }

  function K(m: Material, t: real): real
    requires Materials.Evaluable(m)
  {
    Ramps.Calc(m.conductivity, t)
  }

  function SpecificHeat(m: Material, t: real): real
    requires Materials.Evaluable(m)
  {
    Ramps.Calc(m.specificHeat, t)
  }

  // ---------------------------------------------------------------- max_delta_temperature

  /** Conductive flux `k * dT / ((x1 + x0) / 2)`. */
  function Exchange(k: real, dT: real, x1: real, x0: real): real {
    Div(k * dT, (x1 + x0) / 2.0)
  }

  /** `delta_time * (rho * c)` of a cell. */
  function Storage(dt: real, m: Material, t: real): real
    requires Materials.Evaluable(m)
  {
    dt * (m.density * SpecificHeat(m, t))
  }

  /** Flux j as `max_delta_temperature` computes it. Flux 0 runs between
      cells 0 and 1; flux j >= 1 is computed against cell j+1, but with the
      temperature and conductivity of cell 1 throughout: the loop advances the
      width but never the temperature or conductivity of its centre cell
      (cpu.rs:84-113). */
  function Flux(e: WallElement, materials: seq<Material>, j: nat): real
    requires Indexed(e, materials) && 2 <= |e| && j + 1 < |e|
  {
    var k1 := K(MaterialAt(e, materials, 1), e[1].temperature);
    if j == 0 then
      Exchange((k1 + K(MaterialAt(e, materials, 0), e[0].temperature)) / 2.0,
               e[1].temperature - e[0].temperature, e[1].size, e[0].size)
    else
      Exchange((k1 + K(MaterialAt(e, materials, j + 1), e[j + 1].temperature)) / 2.0,
               e[j + 1].temperature - e[1].temperature, e[j + 1].size, e[j].size)
  }

  function RateOf(f1: real, after: real, before: real, x: real): real {
    Abs(Div(f1 * (after - before), x))
  }

  /** The temperature-change estimate of interior cell i. */
  function Rate(e: WallElement, materials: seq<Material>, dt: real, i: nat): real
    requires Indexed(e, materials) && 1 <= i && i + 1 < |e|
  {
    RateOf(Storage(dt, MaterialAt(e, materials, i), e[i].temperature),
           Flux(e, materials, i), Flux(e, materials, i - 1), e[i].size)
  }

  /** Running maximum of the rates of cells 1 .. i-1, starting from 0. */
  function MaxRate(e: WallElement, materials: seq<Material>, dt: real, i: nat): (r: real)
    requires Indexed(e, materials) && 1 <= i < |e|
    ensures r >= 0.0
    ensures forall k :: 1 <= k < i ==> Rate(e, materials, dt, k) <= r
    ensures i > 1 ==> exists k :: 1 <= k < i && r == Rate(e, materials, dt, k)
  {
    if i == 1 then 0.0 else Max(Rate(e, materials, dt, i - 1), MaxRate(e, materials, dt, i - 1))
  }

  /** `max_delta_temperature`: the largest rate over the interior cells, or 0
      for an element of two cells. */
  method MaxDeltaTemperature(e: WallElement, materials: seq<Material>, dt: real) returns (delta: real)
    requires |e| >= 2 && Indexed(e, materials)
    ensures delta == MaxRate(e, materials, dt, |e| - 1)
    ensures delta >= 0.0
    ensures forall i :: 1 <= i < |e| - 1 ==> Rate(e, materials, dt, i) <= delta
    ensures |e| > 2 ==> exists i :: 1 <= i < |e| - 1 && delta == Rate(e, materials, dt, i)
  {
    delta := 0.0;
    var mb := MaterialAt(e, materials, 0);
    var tb, xb := e[0].temperature, e[0].size;
    var kb := K(mb, tb);
    var mc := MaterialAt(e, materials, 1);
    var tc, xc := e[1].temperature, e[1].size;
    var kc := K(mc, tc);
    var before := Exchange((kc + kb) / 2.0, tc - tb, xc, xb);
    var f1 := Storage(dt, mc, tc);
    assert before == Flux(e, materials, 0);
    for i := 1 to |e| - 1
      invariant xc == e[i].size
      invariant before == Flux(e, materials, i - 1)
      invariant f1 == Storage(dt, MaterialAt(e, materials, i), e[i].temperature)
      invariant delta == MaxRate(e, materials, dt, i)
    {
      var after := NextFlux(e, materials, i, kc, tc, xc);
      delta := Max(RateOf(f1, after, before, xc), delta);
      xc := e[i + 1].size;
      before := after;
      f1 := Storage(dt, MaterialAt(e, materials, i + 1), e[i + 1].temperature);
    }
  }

  /** The flux one turn of the loop of `max_delta_temperature` computes from
      its cached conductivity and temperature of cell 1 and width of cell i. */
  method NextFlux(e: WallElement, materials: seq<Material>, i: nat, kc: real, tc: real, xc: real)
    returns (after: real)
    requires Indexed(e, materials) && 1 <= i && i + 1 < |e|
    requires kc == K(MaterialAt(e, materials, 1), e[1].temperature)
    requires tc == e[1].temperature && xc == e[i].size
    ensures after == Flux(e, materials, i)
  {
    var ma := MaterialAt(e, materials, i + 1);
    var ta, xa := e[i + 1].temperature, e[i + 1].size;
    var ka := K(ma, ta);
    after := Exchange((kc + ka) / 2.0, ta - tc, xa, xc);
  }

  // ---------------------------------------------------------------- repeats

  function Pow2Nat(k: nat): (r: nat)
    ensures r >= k + 1
  {
    if k == 0 then 1 else 2 * Pow2Nat(k - 1)
  }

  lemma {:induction false} Pow2Monotone(i: nat, j: nat)
    requires i <= j
    ensures Pow2Nat(i) <= Pow2Nat(j)
  {
    if i < j {
      Pow2Monotone(i, j - 1);
    }
  }

  function CeilLog2From(eta: real, k: nat): (r: nat)
    requires k > 0 ==> (Pow2Nat(k - 1) as real) < eta
    ensures r >= k
    ensures (Pow2Nat(r) as real) >= eta
    ensures r > 0 ==> (Pow2Nat(r - 1) as real) < eta
    decreases eta.Floor - k
  {
    if (Pow2Nat(k) as real) >= eta then k else CeilLog2From(eta, k + 1)
  }

  /** `ceil(log2(eta))` for `eta >= 1`, computed exactly: the least k with 2^k >= eta. */
  function CeilLog2(eta: real): (r: nat)
    ensures (Pow2Nat(r) as real) >= eta
    ensures r > 0 ==> (Pow2Nat(r - 1) as real) < eta
  {
    CeilLog2From(eta, 0)
  }

  /** Two bounds pin the logarithm down. */
  lemma CeilLog2Unique(eta: real, k: nat)
    requires (Pow2Nat(k) as real) >= eta
    requires k > 0 ==> (Pow2Nat(k - 1) as real) < eta
    ensures CeilLog2(eta) == k
  {
    var r := CeilLog2(eta);
    if r < k {
      Pow2Monotone(r, k - 1);
    } else if r > k {
      Pow2Monotone(k, r - 1);
    }
  }

  function Clamp(v: nat, lo: nat, hi: nat): nat {
    if v < lo then lo else if v > hi then hi else v
  }

  /** `repeats`: how many sub-steps the time step is cut into. Below the limit
      one; otherwise the least power of two not below `x / 10`, clamped to
      [1, 4]. The usize overflow of the source is not reproduced here (see
      `RepeatsAsWritten`). */
  function Repeats(x: real): (r: nat)
    ensures r == 1 || r == 2 || r == 4
    ensures x <= 10.0 ==> r == 1
    ensures 10.0 < x <= 20.0 ==> r == 2
    ensures x > 20.0 ==> r == 4
  {
    if x < DeltaTemperatureLimit then 1
    else
      var k := CeilLog2(x / DeltaTemperatureLimit);
      RepeatsBounds(x / DeltaTemperatureLimit, k);
      Clamp(Pow2Nat(k), 1, MaxTimeSubdivisions)
  }

  lemma RepeatsBounds(eta: real, k: nat)
    requires eta >= 1.0 && k == CeilLog2(eta)
    ensures eta == 1.0 ==> k == 0
    ensures 1.0 < eta <= 2.0 ==> k == 1
    ensures eta > 2.0 ==> Pow2Nat(k) >= 4
  {
    if eta == 1.0 {
      CeilLog2Unique(eta, 0);
    } else if eta <= 2.0 {
      CeilLog2Unique(eta, 1);
    } else {
      if k < 2 {
        Pow2Monotone(k, 1);
      }
      Pow2Monotone(2, k);
    }
  }

  /** More temperature change never means fewer sub-steps. */
  lemma RepeatsMonotone(x: real, y: real)
    requires x <= y
    ensures Repeats(x) <= Repeats(y)
  {
  }

  // ---------------------------------------------------------------- repeats as written

  const U32Max: nat := 0xFFFF_FFFF
  const UsizeModulus: nat := 0x1_0000_0000_0000_0000

  /** `repeats` with the source's integer types: the exponent is cast to u32
      (saturating) and `2_usize.pow` wraps modulo 2^64 in a release build. */
  function RepeatsAsWritten(x: real): (r: nat)
    ensures 1 <= r <= MaxTimeSubdivisions
  {
    if x < DeltaTemperatureLimit then 1
    else
      var k := CeilLog2(x / DeltaTemperatureLimit);
      var k32 := if k > U32Max then U32Max else k;
      Clamp(Pow2Nat(k32) % UsizeModulus, 1, MaxTimeSubdivisions)
  }

  /** Eight doublings multiply by 256. */
  lemma Pow2Eight(k: nat)
    ensures Pow2Nat(k + 8) == 256 * Pow2Nat(k)
  {
    assert Pow2Nat(k + 8) == 2 * Pow2Nat(k + 7);
    assert Pow2Nat(k + 7) == 2 * Pow2Nat(k + 6);
    assert Pow2Nat(k + 6) == 2 * Pow2Nat(k + 5);
    assert Pow2Nat(k + 5) == 2 * Pow2Nat(k + 4);
    assert Pow2Nat(k + 4) == 2 * Pow2Nat(k + 3);
    assert Pow2Nat(k + 3) == 2 * Pow2Nat(k + 2);
    assert Pow2Nat(k + 2) == 2 * Pow2Nat(k + 1);
    assert Pow2Nat(k + 1) == 2 * Pow2Nat(k);
  }

  lemma Pow2At64()
    ensures Pow2Nat(64) == UsizeModulus
    ensures Pow2Nat(63) * 2 == UsizeModulus
  {
    Pow2Eight(0);
    assert Pow2Nat(8) == 0x100;
    Pow2Eight(8);
    assert Pow2Nat(16) == 0x1_0000;
    Pow2Eight(16);
    assert Pow2Nat(24) == 0x100_0000;
    Pow2Eight(24);
    assert Pow2Nat(32) == 0x1_0000_0000;
    Pow2Eight(32);
    assert Pow2Nat(40) == 0x100_0000_0000;
    Pow2Eight(40);
    assert Pow2Nat(48) == 0x1_0000_0000_0000;
    Pow2Eight(48);
    assert Pow2Nat(56) == 0x100_0000_0000_0000;
    Pow2Eight(56);
    assert Pow2Nat(64) == 2 * Pow2Nat(63);
  }

  /** Up to `x = 10 * 2^63` the written code computes the intended value. */
  lemma RepeatsAsWrittenAgrees(x: real)
    requires x <= 10.0 * (Pow2Nat(63) as real)
    ensures RepeatsAsWritten(x) == Repeats(x)
  {
    if x >= DeltaTemperatureLimit {
      var eta := x / DeltaTemperatureLimit;
      assert eta <= Pow2Nat(63) as real;
      var k := CeilLog2(eta);
      if k > 63 {
        Pow2Monotone(63, k - 1);
        assert false;
      }
      Pow2Monotone(k, 63);
      Pow2At64();
      assert Pow2Nat(k) % UsizeModulus == Pow2Nat(k);
      assert RepeatsAsWritten(x) == Clamp(Pow2Nat(k), 1, MaxTimeSubdivisions);
      assert Repeats(x) == Clamp(Pow2Nat(k), 1, MaxTimeSubdivisions);
    }
  }

  /** At `x = 10 * 2^64` the exponent is 64, `2^64` wraps to 0 and the clamp
      yields a single step where four are intended. */
  lemma RepeatsWrapExample()
    ensures RepeatsAsWritten(10.0 * (UsizeModulus as real)) == 1
    ensures Repeats(10.0 * (UsizeModulus as real)) == 4
  {
    Pow2At64();
    var eta := 10.0 * (UsizeModulus as real) / DeltaTemperatureLimit;
    assert eta == UsizeModulus as real;
    CeilLog2Unique(eta, 64);
  }

  // ---------------------------------------------------------------- boundary closure

  /** `calc_rfac2_and_qdxk_no_radiation` as four numbers: each side's ghost
      cell is `rfac2 * (adjacent cell) + qdxk`. */
  datatype Closure = Closure(rfac2F: real, qdxkF: real, rfac2B: real, qdxkB: real)

  /** `k / dx`. */
  function Conductance(m: Material, t: real, dx: real): real
    requires Materials.Evaluable(m)
  {
    Div(K(m, t), dx)
  }

  /** `0.5 * h` plus the linearised emission term `2 * eps * sigma * t^3`. */
  function Rfac(h: real, m: Material, t: real): real {
    0.5 * h + 2.0 * m.emissivity * Sigma * (t * t * t)
  }

  /** The emission source `3 * eps * sigma * t^4`. */
  function EmissionQdxk(m: Material, t: real): real {
    3.0 * m.emissivity * Sigma * (t * t * t * t)
  }

  /** One side of the closure: the two sentinels, or the convective (Robin)
      closure at the face temperature `t`. */
  function SideClosure(h: real, q: real, t: real, m: Material, dx: real): (r: (real, real))
    requires Materials.Evaluable(m)
    ensures h == AdiabaticH ==> r == (1.0, 0.0)
    ensures h == ConstTempH ==> r == (-1.0, 2.0 * q)
  {
    if h == AdiabaticH then (1.0, 0.0)
    else if h == ConstTempH then (-1.0, 2.0 * q)
    else
      var g := Conductance(m, t, dx);
      var rfac := Rfac(h, m, t);
      (Div(g - rfac, g + rfac), Div(q + EmissionQdxk(m, t), g + rfac))
  }

  lemma RobinBalance(g: real, rfac: real, src: real, r2: real, qd: real, t1: real)
    requires g + rfac != 0.0
    requires r2 * (g + rfac) == g - rfac && qd * (g + rfac) == src
    ensures g * ((r2 * t1 + qd) - t1) + rfac * ((r2 * t1 + qd) + t1) == src
  {
    var t0 := r2 * t1 + qd;
    calc {
      g * (t0 - t1) + rfac * (t0 + t1);
      t0 * (g + rfac) - (g - rfac) * t1;
      (r2 * (g + rfac)) * t1 + qd * (g + rfac) - (g - rfac) * t1;
    }
  }

  /** What the ghost value `t0 = rfac2 * t1 + qdxk` means: an adiabatic side
      has no gradient, a fixed-temperature side has face temperature `q`, and
      otherwise conduction balances the incoming flux, convection and
      emission: `k/dx * (t0 - t1) + rfac * (t0 + t1) = q + emission`. */
  lemma SideClosureMeaning(h: real, q: real, t: real, m: Material, dx: real, t1: real)
    requires Materials.Evaluable(m)
    ensures var (r2, qd) := SideClosure(h, q, t, m, dx);
            var t0 := r2 * t1 + qd;
            && (h == AdiabaticH ==> t0 == t1)
            && (h == ConstTempH ==> (t0 + t1) / 2.0 == q)
            && (h != AdiabaticH && h != ConstTempH && Conductance(m, t, dx) + Rfac(h, m, t) != 0.0 ==>
                  Conductance(m, t, dx) * (t0 - t1) + Rfac(h, m, t) * (t0 + t1) == q + EmissionQdxk(m, t))
  {
    if h != AdiabaticH && h != ConstTempH {
      var g := Conductance(m, t, dx);
      var rfac := Rfac(h, m, t);
      if g + rfac != 0.0 {
        DivMul(g - rfac, g + rfac);
        DivMul(q + EmissionQdxk(m, t), g + rfac);
        RobinBalance(g, rfac, q + EmissionQdxk(m, t), Div(g - rfac, g + rfac), Div(q + EmissionQdxk(m, t), g + rfac), t1);
      }
    }
  }

  /** `calc_rfac2_and_qdxk_no_radiation`: the front side reads `h[0]`, `q[0]`
      and cells 0 and 1; the back side `h[1]`, `q[1]` and the last two cells. */
  function ClosureOf(e: WallElement, materials: seq<Material>, h: (real, real), q: (real, real)): (r: Closure)
    requires |e| >= 2 && Indexed(e, materials)
    ensures h.0 == AdiabaticH ==> r.rfac2F == 1.0 && r.qdxkF == 0.0
    ensures h.0 == ConstTempH ==> r.rfac2F == -1.0 && r.qdxkF == 2.0 * q.0
    ensures h.1 == AdiabaticH ==> r.rfac2B == 1.0 && r.qdxkB == 0.0
    ensures h.1 == ConstTempH ==> r.rfac2B == -1.0 && r.qdxkB == 2.0 * q.1
  {
    var n := |e|;
    var front := SideClosure(h.0, q.0, (e[0].temperature + e[1].temperature) / 2.0,
                             MaterialAt(e, materials, 0), e[0].size);
    var back := SideClosure(h.1, q.1, (e[n - 1].temperature + e[n - 2].temperature) / 2.0,
                            MaterialAt(e, materials, n - 1), e[n - 1].size);
    Closure(front.0, front.1, back.0, back.1)
  }

  /** The front closure depends on nothing but the front inputs, the back
      closure on nothing but the back inputs. */
  lemma ClosureLocal(e1: WallElement, e2: WallElement, materials: seq<Material>,
                     h1: (real, real), q1: (real, real), h2: (real, real), q2: (real, real))
    requires |e1| >= 2 && Indexed(e1, materials) && |e2| >= 2 && Indexed(e2, materials)
    ensures e1[0] == e2[0] && e1[1] == e2[1] && h1.0 == h2.0 && q1.0 == q2.0 ==>
              ClosureOf(e1, materials, h1, q1).rfac2F == ClosureOf(e2, materials, h2, q2).rfac2F
              && ClosureOf(e1, materials, h1, q1).qdxkF == ClosureOf(e2, materials, h2, q2).qdxkF
    ensures e1[|e1| - 1] == e2[|e2| - 1] && e1[|e1| - 2] == e2[|e2| - 2] && h1.1 == h2.1 && q1.1 == q2.1 ==>
              ClosureOf(e1, materials, h1, q1).rfac2B == ClosureOf(e2, materials, h2, q2).rfac2B
              && ClosureOf(e1, materials, h1, q1).qdxkB == ClosureOf(e2, materials, h2, q2).qdxkB
  {
  }

  // ---------------------------------------------------------------- populate_solve_matrix

  /** `2 * rho * c` of a cell. */
  function F1(m: Material, t: real): real
    requires Materials.Evaluable(m)
  {
    2.0 * m.density * SpecificHeat(m, t)
  }

  /** Mean of two conductivities. */
  function MeanK(m1: Material, t1: real, m2: Material, t2: real): real
    requires Materials.Evaluable(m1) && Materials.Evaluable(m2)
  {
    (K(m1, t1) + K(m2, t2)) / 2.0
  }

  /** Off-diagonal coefficient `-dt * k / (f1 * dx * (dx + dx') / 2)`. */
  function Coupling(dt: real, k: real, f1: real, dx: real, dxn: real): real {
    Div(-dt * k, f1 * dx * (dx + dxn) / 2.0)
  }

  /** `c_a` and `c_b` of the source: a coefficient times a temperature difference. */
  function Flow(coef: real, t1: real, t0: real): real {
    coef * (t1 - t0)
  }

  function Assemble(b: real, a: real, td: real, ca: real, cb: real): Row {
    Row(b, 1.0 - a - b, a, td - ca + cb)
  }

  /** Sub-diagonal of the row of cell j. For j = 1 it averages the
      conductivities of cells 1 and 0; for j >= 2 the source evaluates cell j's
      own material at both temperatures (cpu.rs:236-238), kept here. */
  function SubDiagonal(e: WallElement, materials: seq<Material>, dt: real, j: nat): real
    requires Indexed(e, materials) && 1 <= j && j + 1 < |e|
  {
    var md := MaterialAt(e, materials, j);
    var kb := if j == 1 then MeanK(md, e[1].temperature, MaterialAt(e, materials, 0), e[0].temperature)
              else MeanK(md, e[j].temperature, md, e[j - 1].temperature);
    Coupling(dt, kb, F1(md, e[j].temperature), e[j].size, e[j - 1].size)
  }

  /** Super-diagonal of the row of cell j. */
  function SuperDiagonal(e: WallElement, materials: seq<Material>, dt: real, j: nat): real
    requires Indexed(e, materials) && 1 <= j && j + 1 < |e|
  {
    var md := MaterialAt(e, materials, j);
    Coupling(dt, MeanK(md, e[j].temperature, MaterialAt(e, materials, j + 1), e[j + 1].temperature),
             F1(md, e[j].temperature), e[j].size, e[j + 1].size)
  }

  /** The row of interior cell j in closed form. */
  function RowAt(e: WallElement, materials: seq<Material>, dt: real, j: nat): Row
    requires Indexed(e, materials) && 1 <= j && j + 1 < |e|
  {
    var b := SubDiagonal(e, materials, dt, j);
    var a := SuperDiagonal(e, materials, dt, j);
    Assemble(b, a, e[j].temperature, Flow(a, e[j + 1].temperature, e[j].temperature),
             Flow(b, e[j].temperature, e[j - 1].temperature))
  }

  /** The rows of the implicit scheme, one per interior cell. */
  function Rows(e: WallElement, materials: seq<Material>, dt: real): (rows: seq<Row>)
    requires Indexed(e, materials) && |e| >= 2
    ensures |rows| == |e| - 2
  {
    RowsUpTo(e, materials, dt, |e| - 2)
  }

  /** The rows of the first `k` interior cells, in order. */
  function RowsUpTo(e: WallElement, materials: seq<Material>, dt: real, k: nat): (rows: seq<Row>)
    requires Indexed(e, materials) && k + 2 <= |e|
    ensures |rows| == k
  {
    if k == 0 then [] else RowsUpTo(e, materials, dt, k - 1) + [RowAt(e, materials, dt, k)]
  }

  /** Row j of the scheme belongs to interior cell j + 1. */
  lemma {:induction false} RowsAt(e: WallElement, materials: seq<Material>, dt: real, k: nat, j: nat)
    requires Indexed(e, materials) && k + 2 <= |e| && j < k
    ensures RowsUpTo(e, materials, dt, k)[j] == RowAt(e, materials, dt, j + 1)
  {
    if j < k - 1 {
      RowsAt(e, materials, dt, k - 1, j);
    }
  }

  /** `populate_solve_matrix`: one row per interior cell, carried through the
      loop with the previous row's sub-diagonal data. Every row has
      `d = 1 - a - b`. */
  method PopulateSolveMatrix(e: WallElement, materials: seq<Material>, dt: real) returns (matrix: seq<Row>)
    requires |e| >= 2 && Indexed(e, materials)
    ensures matrix == Rows(e, materials, dt)
    ensures |matrix| == |e| - 2
    ensures forall k :: 0 <= k < |matrix| ==> matrix[k].d == 1.0 - matrix[k].a - matrix[k].b
  {
    matrix := [];
    var td := e[1].temperature;
    var md := MaterialAt(e, materials, 1);
    var dxd := e[1].size;
    var f1 := F1(md, td);
    var tb := e[0].temperature;
    var mb := MaterialAt(e, materials, 0);
    var dxb := e[0].size;
    var b := Coupling(dt, MeanK(md, td, mb, tb), f1, dxd, dxb);
    var cb := Flow(b, td, tb);
    for i := 1 to |e| - 1
      invariant td == e[i].temperature && md == MaterialAt(e, materials, i) && dxd == e[i].size
      invariant f1 == F1(md, td)
      invariant i + 1 < |e| ==> b == SubDiagonal(e, materials, dt, i)
      invariant cb == Flow(b, td, e[i - 1].temperature)
      invariant matrix == RowsUpTo(e, materials, dt, i - 1)
      invariant forall k :: 0 <= k < i - 1 ==> matrix[k].d == 1.0 - matrix[k].a - matrix[k].b
    {
      var ta := e[i + 1].temperature;
      var ma := MaterialAt(e, materials, i + 1);
      var dxa := e[i + 1].size;
      var a := Coupling(dt, MeanK(md, td, ma, ta), f1, dxd, dxa);
      var ca := Flow(a, ta, td);
      assert a == SuperDiagonal(e, materials, dt, i);
      matrix := matrix + [Assemble(b, a, td, ca, cb)];
      f1 := F1(ma, ta);
      b := Coupling(dt, MeanK(ma, ta, ma, td), f1, dxa, dxd);
      cb := Flow(b, ta, td);
      td, md, dxd := ta, ma, dxa;
    }
  }

  // ---------------------------------------------------------------- solve_heat_transfer

  /** A row with the closure folded in: the first row absorbs the front
      ghost cell and the last row the back one (a single row absorbs both),
      applied in the source's order: both right-hand sides, then both
      diagonals. */
  function FoldedRow(row: Row, cl: Closure, first: bool, last: bool): Row {
    var c1 := if first then row.c - row.b * cl.qdxkF else row.c;
    var c2 := if last then c1 - row.a * cl.qdxkB else c1;
    var d1 := if first then row.d + row.b * cl.rfac2F else row.d;
    var d2 := if last then d1 + row.a * cl.rfac2B else d1;
    Row(row.b, d2, row.a, c2)
  }

  /** The closure folded into the first and last rows. */
  function Fold(rows: seq<Row>, cl: Closure): (r: seq<Row>)
    ensures |r| == |rows|
  {
    seq(|rows|, i requires 0 <= i < |rows| => FoldedRow(rows[i], cl, i == 0, i == |rows| - 1))
  }

  /** The interior solution with both ghost cells appended, as written back. */
  function Extend(x: seq<real>, cl: Closure): (y: seq<real>)
    requires |x| > 0
    ensures |y| == |x| + 2 && y[1..|x| + 1] == x
    ensures y[0] == y[1] * cl.rfac2F + cl.qdxkF
    ensures y[|y| - 1] == y[|y| - 2] * cl.rfac2B + cl.qdxkB
  {
    [x[0] * cl.rfac2F + cl.qdxkF] + x + [x[|x| - 1] * cl.rfac2B + cl.qdxkB]
  }

  /** Every row of the scheme holds over the full temperature vector, ghost
      cells included: row i relates cells i, i+1 and i+2. */
  predicate FullSolves(rows: seq<Row>, y: seq<real>) {
    |y| == |rows| + 2 && forall i :: 0 <= i < |rows| ==> FullLhs(rows, y, i) == rows[i].c
  }

  /** Left-hand side of row i over the full vector. */
  function FullLhs(rows: seq<Row>, y: seq<real>, i: nat): real
    requires |y| == |rows| + 2 && i < |rows|
  {
    rows[i].b * y[i] + rows[i].d * y[i + 1] + rows[i].a * y[i + 2]
  }

  /** Folding eliminates the ghost cells: x solves the folded system exactly
      when x with its ghost cells satisfies every row of the unfolded scheme. */
  lemma FoldMeaning(rows: seq<Row>, cl: Closure, x: seq<real>)
    requires |rows| > 0 && |x| == |rows|
    ensures Solves(Fold(rows, cl), x) <==> FullSolves(rows, Extend(x, cl))
  {
    forall i | 0 <= i < |rows|
      ensures (Lhs(Fold(rows, cl), x, i) == Fold(rows, cl)[i].c) <==> (FullLhs(rows, Extend(x, cl), i) == rows[i].c)
    {
      FoldMeaningAt(rows, cl, x, i);
    }
  }

  lemma FoldMeaningAt(rows: seq<Row>, cl: Closure, x: seq<real>, i: nat)
    requires |x| == |rows| && i < |rows|
    ensures (Lhs(Fold(rows, cl), x, i) == Fold(rows, cl)[i].c) <==> (FullLhs(rows, Extend(x, cl), i) == rows[i].c)
  {
    var n := |rows|;
    if n == 1 {
      FoldSingle(rows, cl, x);
    } else if i == 0 {
      FoldFirst(rows, cl, x);
    } else if i == n - 1 {
      FoldLast(rows, cl, x);
    } else {
      FoldInterior(rows, cl, x, i);
    }
  }

  lemma FoldSingle(rows: seq<Row>, cl: Closure, x: seq<real>)
    requires |x| == |rows| == 1
    ensures (Lhs(Fold(rows, cl), x, 0) == Fold(rows, cl)[0].c) <==> (FullLhs(rows, Extend(x, cl), 0) == rows[0].c)
  {
    var f, y, row := Fold(rows, cl), Extend(x, cl), rows[0];
    assert f[0] == FoldedRow(row, cl, true, true);
    assert y[0] == x[0] * cl.rfac2F + cl.qdxkF && y[1] == x[0] && y[2] == x[0] * cl.rfac2B + cl.qdxkB;
    FoldBoth(row.b, row.d, row.a, row.c, cl.rfac2F, cl.qdxkF, cl.rfac2B, cl.qdxkB, x[0]);
  }

  lemma FoldFirst(rows: seq<Row>, cl: Closure, x: seq<real>)
    requires |x| == |rows| && |rows| > 1
    ensures (Lhs(Fold(rows, cl), x, 0) == Fold(rows, cl)[0].c) <==> (FullLhs(rows, Extend(x, cl), 0) == rows[0].c)
  {
    var f, y, row := Fold(rows, cl), Extend(x, cl), rows[0];
    assert f[0] == FoldedRow(row, cl, true, false);
    assert y[0] == x[0] * cl.rfac2F + cl.qdxkF && y[1] == x[0] && y[2] == x[1];
    FoldFront(row.b, row.d, row.a, row.c, cl.rfac2F, cl.qdxkF, x[0], x[1]);
  }

  lemma FoldLast(rows: seq<Row>, cl: Closure, x: seq<real>)
    requires |x| == |rows| && |rows| > 1
    ensures var i := |rows| - 1;
            (Lhs(Fold(rows, cl), x, i) == Fold(rows, cl)[i].c) <==> (FullLhs(rows, Extend(x, cl), i) == rows[i].c)
  {
    var i := |rows| - 1;
    var f, y, row := Fold(rows, cl), Extend(x, cl), rows[i];
    assert f[i] == FoldedRow(row, cl, false, true);
    assert y[i] == x[i - 1] && y[i + 1] == x[i] && y[i + 2] == x[i] * cl.rfac2B + cl.qdxkB;
    FoldFront(row.a, row.d, row.b, row.c, cl.rfac2B, cl.qdxkB, x[i], x[i - 1]);
  }

  lemma FoldInterior(rows: seq<Row>, cl: Closure, x: seq<real>, i: nat)
    requires |x| == |rows| && 0 < i < |rows| - 1
    ensures (Lhs(Fold(rows, cl), x, i) == Fold(rows, cl)[i].c) <==> (FullLhs(rows, Extend(x, cl), i) == rows[i].c)
  {
    var f, y := Fold(rows, cl), Extend(x, cl);
    assert f[i] == FoldedRow(rows[i], cl, false, false);
    assert y[i] == x[i - 1] && y[i + 1] == x[i] && y[i + 2] == x[i + 1];
  }

  /** A boundary row with its ghost cell `g * rf + qf` folded in: with `g` the
      boundary unknown and `xn` its interior neighbour. */
  lemma FoldFront(b: real, d: real, a: real, c: real, rf: real, qf: real, g: real, xn: real)
    ensures ((d + b * rf) * g + a * xn == c - b * qf) <==> (b * (g * rf + qf) + d * g + a * xn == c)
  {
    assert b * (g * rf + qf) == (b * rf) * g + b * qf;
    assert (d + b * rf) * g == d * g + (b * rf) * g;
  }

  /** A single row with both ghost cells folded in. */
  lemma FoldBoth(b: real, d: real, a: real, c: real, rf: real, qf: real, rb: real, qb: real, g: real)
    ensures ((d + b * rf + a * rb) * g == c - b * qf - a * qb)
            <==> (b * (g * rf + qf) + d * g + a * (g * rb + qb) == c)
  {
    assert b * (g * rf + qf) == (b * rf) * g + b * qf;
    assert a * (g * rb + qb) == (a * rb) * g + a * qb;
    assert (d + b * rf + a * rb) * g == d * g + (b * rf) * g + (a * rb) * g;
  }

  /** Same cells apart from temperatures. */
  predicate SameLayout(e: WallElement, r: WallElement) {
    |r| == |e| && forall i :: 0 <= i < |e| ==> r[i].size == e[i].size && r[i].material == e[i].material
  }

  lemma LayoutTrans(e: WallElement, m: WallElement, r: WallElement)
    requires SameLayout(e, m) && SameLayout(m, r)
    ensures SameLayout(e, r)
  {
  }

  lemma LayoutIndexed(e: WallElement, r: WallElement, materials: seq<Material>)
    requires SameLayout(e, r) && Indexed(e, materials)
    ensures Indexed(r, materials)
  {
  }

  /** The element with new temperatures and everything else kept, built
      cell by cell from the front. */
  function WithTemperatures(e: WallElement, ts: seq<real>): (r: WallElement)
    requires |ts| == |e|
    ensures |r| == |e|
    decreases |e|
  {
    if |e| == 0 then []
    else
      var n := |e| - 1;
      WithTemperatures(e[..n], ts[..n]) + [e[n].(temperature := ts[n])]
  }

  lemma {:induction false} WithTemperaturesAt(e: WallElement, ts: seq<real>, i: nat)
    requires |ts| == |e| && i < |e|
    ensures WithTemperatures(e, ts)[i] == e[i].(temperature := ts[i])
    decreases |e|
  {
    var n := |e| - 1;
    if i < n {
      WithTemperaturesAt(e[..n], ts[..n], i);
    }
  }

  /** Replacing the temperatures keeps every cell's size and material and
      yields exactly the given temperatures. */
  lemma WithTemperaturesMeaning(e: WallElement, ts: seq<real>)
    requires |ts| == |e|
    ensures SameLayout(e, WithTemperatures(e, ts))
    ensures Temperatures(WithTemperatures(e, ts)) == ts
  {
    forall i | 0 <= i < |e| {
      WithTemperaturesAt(e, ts, i);
    }
  }

  /** One implicit step in closed form. */
  function SolveSpec(e: WallElement, materials: seq<Material>, cl: Closure, dt: real): (r: WallElement)
    requires |e| >= 3 && Indexed(e, materials)
    ensures SameLayout(e, r) && Indexed(r, materials)
  {
    var ts := Extend(Solution(Fold(Rows(e, materials, dt), cl)), cl);
    WithTemperaturesMeaning(e, ts);
    var r := WithTemperatures(e, ts);
    LayoutIndexed(e, r, materials);
    r
  }

  /** The four in-place updates of `solve_heat_transfer` that fold the
      closure into the first and last rows, in the source's order: both
      right-hand sides first, then both diagonals. */
  method FoldClosure(rows: seq<Row>, cl: Closure) returns (matrix: seq<Row>)
    requires |rows| > 0
    ensures matrix == Fold(rows, cl)
  {
    var n := |rows|;
    matrix := rows;
    var front := matrix[0];
    matrix := matrix[0 := front.(c := front.c - front.b * cl.qdxkF)];
    var back := matrix[n - 1];
    assert n > 1 ==> back == rows[n - 1];
    matrix := matrix[n - 1 := back.(c := back.c - back.a * cl.qdxkB)];
    front := matrix[0];
    assert n > 1 ==> front == rows[0].(c := rows[0].c - rows[0].b * cl.qdxkF);
    matrix := matrix[0 := front.(d := front.d + front.b * cl.rfac2F)];
    back := matrix[n - 1];
    assert n > 1 ==> back == rows[n - 1].(c := rows[n - 1].c - rows[n - 1].a * cl.qdxkB);
    matrix := matrix[n - 1 := back.(d := back.d + back.a * cl.rfac2B)];
    forall k | 0 <= k < n
      ensures matrix[k] == FoldedRow(rows[k], cl, k == 0, k == n - 1)
    {
      if n == 1 {
        assert matrix[0] == FoldedRow(rows[0], cl, true, true);
      } else if k == 0 {
        assert matrix[0] == FoldedRow(rows[0], cl, true, false);
      } else if k == n - 1 {
        assert matrix[k] == FoldedRow(rows[k], cl, false, true);
      } else {
        assert matrix[k] == rows[k];
      }
    }
  }

  /** Writes the interior solution into cells 1..n-2 and sets both boundary
      cells from their neighbours through the closure. */
  method WriteBack(e: WallElement, x: seq<real>, cl: Closure) returns (r: WallElement)
    requires |e| >= 3 && |x| == |e| - 2
    ensures r == WithTemperatures(e, Extend(x, cl))
    ensures r[0].temperature == r[1].temperature * cl.rfac2F + cl.qdxkF
    ensures r[|r| - 1].temperature == r[|r| - 2].temperature * cl.rfac2B + cl.qdxkB
  {
    var len := |e|;
    r := e;
    for i := 0 to len - 2
      invariant |r| == len
      invariant forall k :: 0 <= k < len ==> r[k].size == e[k].size && r[k].material == e[k].material
      invariant forall k :: 0 <= k < i ==> r[k + 1].temperature == x[k]
    {
      r := r[i + 1 := r[i + 1].(temperature := x[i])];
    }
    r := r[0 := r[0].(temperature := r[1].temperature * cl.rfac2F + cl.qdxkF)];
    r := r[len - 1 := r[len - 1].(temperature := r[len - 2].temperature * cl.rfac2B + cl.qdxkB)];
    ghost var y := Extend(x, cl);
    forall k | 0 <= k < len
      ensures r[k] == WithTemperatures(e, y)[k]
    {
      WithTemperaturesAt(e, y, k);
    }
  }

  /** `solve_heat_transfer`: assemble, fold the closure, run the Thomas solve,
      write the interior temperatures back and set both boundary cells from
      their neighbours. Only temperatures change; when the pivots are
      non-zero the new temperatures satisfy every row of the implicit scheme,
      ghost cells included. */
  method SolveHeatTransfer(e: WallElement, materials: seq<Material>, cl: Closure, dt: real) returns (r: WallElement)
    requires |e| >= 3 && Indexed(e, materials)
    ensures r == SolveSpec(e, materials, cl, dt)
    ensures SameLayout(e, r)
    ensures r[0].temperature == r[1].temperature * cl.rfac2F + cl.qdxkF
    ensures r[|r| - 1].temperature == r[|r| - 2].temperature * cl.rfac2B + cl.qdxkB
    ensures NonzeroPivots(Fold(Rows(e, materials, dt), cl)) ==> FullSolves(Rows(e, materials, dt), Temperatures(r))
  {
    var matrix := PopulateSolveMatrix(e, materials, dt);
    matrix := FoldClosure(matrix, cl);
    var x := Solve(matrix);
    r := WriteBack(e, x, cl);
    WithTemperaturesMeaning(e, Extend(x, cl));
    if NonzeroPivots(matrix) {
      FoldMeaning(Rows(e, materials, dt), cl, x);
    }
  }

  // ---------------------------------------------------------------- heat_transfer and update

  /** `k` sub-steps, each recomputing the closure from the current element. */
  function Steps(e: WallElement, materials: seq<Material>, h: (real, real), q: (real, real), dt: real, k: nat): (r: WallElement)
    requires |e| >= 3 && Indexed(e, materials)
    ensures SameLayout(e, r) && Indexed(r, materials)
    decreases k
  {
    if k == 0 then e
    else
      var next := SolveSpec(e, materials, ClosureOf(e, materials, h, q), dt);
      var r := Steps(next, materials, h, q, dt, k - 1);
      LayoutTrans(e, next, r);
      r
  }

  /** One call of `heat_transfer` in closed form. */
  function Advance(e: WallElement, materials: seq<Material>, h: (real, real), q: (real, real), dt: real): (r: WallElement)
    requires |e| >= 3 && Indexed(e, materials)
    ensures SameLayout(e, r) && Indexed(r, materials)
  {
    var repeats := Repeats(MaxRate(e, materials, dt, |e| - 1));
    Steps(e, materials, h, q, dt / (repeats as real), repeats)
  }

  /** `heat_transfer`: `repeats` solves, each over `delta_time / repeats`. */
  method HeatTransfer(e: WallElement, materials: seq<Material>, h: (real, real), q: (real, real), dt: real)
    returns (r: WallElement)
    requires |e| >= 3 && Indexed(e, materials)
    ensures r == Advance(e, materials, h, q, dt)
    ensures SameLayout(e, r)
  {
    var maxDelta := MaxDeltaTemperature(e, materials, dt);
    var repeats := Repeats(maxDelta);
    var newDt := dt / (repeats as real);
    r := e;
    for k := 0 to repeats
      invariant |r| == |e| && Indexed(r, materials)
      invariant SameLayout(e, r)
      invariant Steps(r, materials, h, q, newDt, repeats - k) == Steps(e, materials, h, q, newDt, repeats)
    {
      var next := SubStep(r, materials, h, q, newDt);
      LayoutTrans(e, r, next);
      r := next;
    }
  }

  /** One pass of the loop of `heat_transfer`: the closure from the current
      temperatures, then one implicit solve. */
  method SubStep(e: WallElement, materials: seq<Material>, h: (real, real), q: (real, real), dt: real)
    returns (r: WallElement)
    requires |e| >= 3 && Indexed(e, materials)
    ensures r == SolveSpec(e, materials, ClosureOf(e, materials, h, q), dt)
  {
    var cl := ClosureOf(e, materials, h, q);
    r := SolveHeatTransfer(e, materials, cl, dt);
  }

  /** Face temperatures reported for an element: the mean of the two
      outermost cells on each side. */
  function FaceTemperatures(e: WallElement): (real, real)
    requires |e| >= 2
  {
    ((e[0].temperature + e[1].temperature) / 2.0,
     (e[|e| - 1].temperature + e[|e| - 2].temperature) / 2.0)
  }

  /** Every element can be solved: at least three cells and valid materials. */
  predicate Solvable(elements: seq<WallElement>, materials: seq<Material>) {
    forall i :: 0 <= i < |elements| ==> |elements[i]| >= 3 && Indexed(elements[i], materials)
  }

  /** The faces of every element, in order. */
  function Faces(next: seq<WallElement>): (r: seq<(real, real)>)
    requires forall k :: 0 <= k < |next| ==> |next[k]| >= 2
    ensures |r| == |next|
  {
    seq(|next|, k requires 0 <= k < |next| => FaceTemperatures(next[k]))
  }

  lemma FacesAppend(next: seq<WallElement>, e: WallElement)
    requires forall k :: 0 <= k < |next| ==> |next[k]| >= 2
    requires |e| >= 2
    ensures Faces(next + [e]) == Faces(next) + [FaceTemperatures(e)]
  {
  }

  /** `CPUSetupData::update`: every element advanced independently with its
      own coefficients and fluxes, and its face temperatures reported. The
      parallel iteration is modelled as a sequential loop; `zip_eq` panics on
      unequal lengths. */
  method Update(elements: seq<WallElement>, materials: seq<Material>, dt: real,
                coefficients: seq<(real, real)>, qIn: seq<(real, real)>)
    returns (next: seq<WallElement>, faces: seq<(real, real)>)
    requires |coefficients| == |elements| && |qIn| == |elements|
    requires Solvable(elements, materials)
    ensures |next| == |elements|
    ensures forall i :: 0 <= i < |elements| ==> |next[i]| == |elements[i]|
    ensures faces == Faces(next)
    ensures forall i :: 0 <= i < |elements| ==> next[i] == Advance(elements[i], materials, coefficients[i], qIn[i], dt)
  {
    next, faces := [], [];
    for i := 0 to |elements|
      invariant |next| == i
      invariant forall k :: 0 <= k < i ==> |next[k]| == |elements[k]|
      invariant faces == Faces(next)
      invariant forall k :: 0 <= k < i ==> next[k] == Advance(elements[k], materials, coefficients[k], qIn[k], dt)
    {
      var advanced := HeatTransfer(elements[i], materials, coefficients[i], qIn[i], dt);
      AppendAdvanced(elements, materials, dt, coefficients, qIn, next, advanced);
      AppendLengths(elements, next, advanced);
      FacesAppend(next, advanced);
      next := next + [advanced];
      faces := faces + [FaceTemperatures(advanced)];
    }
  }

  /** Appending element `|next|` advanced keeps every element advanced. */
  lemma AppendAdvanced(elements: seq<WallElement>, materials: seq<Material>, dt: real,
                       coefficients: seq<(real, real)>, qIn: seq<(real, real)>,
                       next: seq<WallElement>, advanced: WallElement)
    requires |coefficients| == |elements| && |qIn| == |elements| && Solvable(elements, materials)
    requires |next| < |elements|
    requires forall k :: 0 <= k < |next| ==> next[k] == Advance(elements[k], materials, coefficients[k], qIn[k], dt)
    requires advanced == Advance(elements[|next|], materials, coefficients[|next|], qIn[|next|], dt)
    ensures forall k :: 0 <= k < |next| + 1 ==> (next + [advanced])[k] == Advance(elements[k], materials, coefficients[k], qIn[k], dt)
  {
  }

  lemma AppendLengths(elements: seq<WallElement>, next: seq<WallElement>, advanced: WallElement)
    requires |next| < |elements|
    requires forall k :: 0 <= k < |next| ==> |next[k]| == |elements[k]|
    requires |advanced| == |elements[|next|]|
    ensures forall k :: 0 <= k < |next| + 1 ==> |(next + [advanced])[k]| == |elements[k]|
  {
  }

  // ---------------------------------------------------------------- well-posedness

  /** Material data of a physical wall: positive density, specific heat
      tabulated positive and conductivity tabulated non-negative. */
  predicate PhysicalMaterial(m: Material) {
    && Materials.Evaluable(m) && m.density > 0.0
    && (forall k :: 0 <= k < |m.specificHeat.points| ==> m.specificHeat.points[k].1 > 0.0)
    && (forall k :: 0 <= k < |m.conductivity.points| ==> m.conductivity.points[k].1 >= 0.0)
  }

  /** Every cell has a positive width and names physical material data. */
  predicate Physical(e: WallElement, materials: seq<Material>) {
    forall i :: 0 <= i < |e| ==>
      e[i].size > 0.0 && e[i].material < |materials| && PhysicalMaterial(materials[e[i].material])
  }

  /** Physical data give a non-negative conductivity and a positive `2 * rho * c`
      at every temperature. */
  lemma PhysicalBounds(m: Material, t: real)
    requires PhysicalMaterial(m)
    ensures K(m, t) >= 0.0 && F1(m, t) > 0.0
  {
    Ramps.CalcWithinValues(m.conductivity, t, 0.0);
    Ramps.CalcWithinValues(m.specificHeat, t, 0.0);
    assert m.density * SpecificHeat(m, t) > 0.0;
  }

  lemma CouplingNonPositive(dt: real, k: real, f1: real, dx: real, dxn: real)
    requires dt >= 0.0 && k >= 0.0 && f1 > 0.0 && dx > 0.0 && dxn > 0.0
    ensures Coupling(dt, k, f1, dx, dxn) <= 0.0
  {
    assert f1 * dx > 0.0;
    assert f1 * dx * (dx + dxn) > 0.0;
    assert dt * k >= 0.0;
  }

  /** With physical data and a non-negative step, every row of the scheme has
      non-positive off-diagonals and a diagonal `1 - a - b`. */
  lemma RowSigns(e: WallElement, materials: seq<Material>, dt: real, j: nat)
    requires Indexed(e, materials) && Physical(e, materials) && dt >= 0.0
    requires 1 <= j && j + 1 < |e|
    ensures RowAt(e, materials, dt, j).b <= 0.0 && RowAt(e, materials, dt, j).a <= 0.0
    ensures RowAt(e, materials, dt, j).d == 1.0 - RowAt(e, materials, dt, j).a - RowAt(e, materials, dt, j).b
  {
    var md := MaterialAt(e, materials, j);
    PhysicalBounds(md, e[j].temperature);
    PhysicalBounds(md, e[j - 1].temperature);
    PhysicalBounds(MaterialAt(e, materials, j - 1), e[j - 1].temperature);
    PhysicalBounds(MaterialAt(e, materials, j + 1), e[j + 1].temperature);
    var kb := if j == 1 then MeanK(md, e[1].temperature, MaterialAt(e, materials, 0), e[0].temperature)
              else MeanK(md, e[j].temperature, md, e[j - 1].temperature);
    CouplingNonPositive(dt, kb, F1(md, e[j].temperature), e[j].size, e[j - 1].size);
    CouplingNonPositive(dt, MeanK(md, e[j].temperature, MaterialAt(e, materials, j + 1), e[j + 1].temperature),
                        F1(md, e[j].temperature), e[j].size, e[j + 1].size);
  }

  /** Folding a closure whose ghost factors are at most one into rows with
      non-positive off-diagonals and `d = 1 - a - b` yields a dominant system. */
  lemma FoldDominant(rows: seq<Row>, cl: Closure)
    requires forall i :: 0 <= i < |rows| ==>
               rows[i].b <= 0.0 && rows[i].a <= 0.0 && rows[i].d == 1.0 - rows[i].a - rows[i].b
    requires cl.rfac2F <= 1.0 && cl.rfac2B <= 1.0
    ensures Dominant(Fold(rows, cl))
  {
    var f := Fold(rows, cl);
    forall i | 0 <= i < |f|
      ensures f[i].b <= 0.0 && f[i].a <= 0.0
      ensures f[i].d >= 1.0 - (if i + 1 < |f| then f[i].a else 0.0) - (if i > 0 then f[i].b else 0.0)
    {
      var r := rows[i];
      assert r.b * (1.0 - cl.rfac2F) <= 0.0;
      assert r.a * (1.0 - cl.rfac2B) <= 0.0;
    }
  }

  /** The system `solve_heat_transfer` hands to the Thomas solve is dominant
      for physical data, a non-negative step and ghost factors at most one;
      its pivots are then non-zero, so the solve's result satisfies every row
      of the scheme (`SolveHeatTransfer`). */
  lemma SchemeDominant(e: WallElement, materials: seq<Material>, cl: Closure, dt: real)
    requires |e| >= 3 && Indexed(e, materials) && Physical(e, materials) && dt >= 0.0
    requires cl.rfac2F <= 1.0 && cl.rfac2B <= 1.0
    ensures Dominant(Fold(Rows(e, materials, dt), cl))
    ensures NonzeroPivots(Fold(Rows(e, materials, dt), cl))
  {
    var rows := Rows(e, materials, dt);
    forall i | 0 <= i < |rows|
      ensures rows[i].b <= 0.0 && rows[i].a <= 0.0 && rows[i].d == 1.0 - rows[i].a - rows[i].b
    {
      RowsAt(e, materials, dt, |e| - 2, i);
      RowSigns(e, materials, dt, i + 1);
    }
    FoldDominant(rows, cl);
    DominantNonzero(Fold(rows, cl));
  }

  /** Every closure side has a ghost factor of at most one: the sentinels give
      1 and -1, and a convective side with non-negative coefficient,
      emissivity, conductance and face temperature gives
      `(g - rfac) / (g + rfac) <= 1`. */
  lemma SideClosureAtMostOne(h: real, q: real, t: real, m: Material, dx: real)
    requires Materials.Evaluable(m)
    requires h == AdiabaticH || h == ConstTempH
             || (h >= 0.0 && m.emissivity >= 0.0 && t >= 0.0 && Conductance(m, t, dx) >= 0.0)
    ensures SideClosure(h, q, t, m, dx).0 <= 1.0
  {
    if h != AdiabaticH && h != ConstTempH {
      var g := Conductance(m, t, dx);
      assert t * t >= 0.0;
      assert t * t * t >= 0.0;
      assert m.emissivity * Sigma >= 0.0;
      assert 2.0 * m.emissivity * Sigma * (t * t * t) >= 0.0;
      var rfac := Rfac(h, m, t);
      assert rfac >= 0.0;
      if g + rfac != 0.0 {
        assert (g - rfac) / (g + rfac) <= 1.0;
      }
    }
  }

  // ---------------------------------------------------------------- steady state

  /** In a uniform wall every flux is zero. */
  lemma UniformFlux(e: WallElement, materials: seq<Material>, T: real, j: nat)
    requires Indexed(e, materials) && 2 <= |e| && j + 1 < |e|
    requires forall i :: 0 <= i < |e| ==> e[i].temperature == T
    ensures Flux(e, materials, j) == 0.0
  {
    var k1 := K(MaterialAt(e, materials, 1), e[1].temperature);
    var k := if j == 0 then (k1 + K(MaterialAt(e, materials, 0), e[0].temperature)) / 2.0
             else (k1 + K(MaterialAt(e, materials, j + 1), e[j + 1].temperature)) / 2.0;
    var dT := if j == 0 then e[1].temperature - e[0].temperature else e[j + 1].temperature - e[1].temperature;
    assert dT == 0.0;
    assert k * dT == 0.0;
  }

  lemma UniformRate(e: WallElement, materials: seq<Material>, dt: real, T: real, j: nat)
    requires Indexed(e, materials) && 1 <= j && j + 1 < |e|
    requires forall i :: 0 <= i < |e| ==> e[i].temperature == T
    ensures Rate(e, materials, dt, j) == 0.0
  {
    UniformFlux(e, materials, T, j);
    UniformFlux(e, materials, T, j - 1);
    var f1 := Storage(dt, MaterialAt(e, materials, j), e[j].temperature);
    assert f1 * (0.0 - 0.0) == 0.0;
    assert RateOf(f1, 0.0, 0.0, e[j].size) == 0.0;
  }

  /** In a uniform wall every rate, and so their maximum, is zero. */
  lemma {:induction false} UniformRates(e: WallElement, materials: seq<Material>, dt: real, T: real, i: nat)
    requires Indexed(e, materials) && 1 <= i < |e|
    requires forall i :: 0 <= i < |e| ==> e[i].temperature == T
    ensures MaxRate(e, materials, dt, i) == 0.0
  {
    if i > 1 {
      UniformRates(e, materials, dt, T, i - 1);
      UniformRate(e, materials, dt, T, i - 1);
      assert MaxRate(e, materials, dt, i) == Max(Rate(e, materials, dt, i - 1), MaxRate(e, materials, dt, i - 1));
    }
  }

  /** In a uniform wall every row has right-hand side `T`. */
  lemma UniformRows(e: WallElement, materials: seq<Material>, dt: real, T: real)
    requires |e| >= 3 && Indexed(e, materials)
    requires forall i :: 0 <= i < |e| ==> e[i].temperature == T
    ensures forall i :: 0 <= i < |e| - 2 ==>
              Rows(e, materials, dt)[i].c == T
              && Rows(e, materials, dt)[i].d == 1.0 - Rows(e, materials, dt)[i].a - Rows(e, materials, dt)[i].b
  {
    forall i | 0 <= i < |e| - 2
      ensures Rows(e, materials, dt)[i] == RowAt(e, materials, dt, i + 1)
    {
      RowsAt(e, materials, dt, |e| - 2, i);
    }
  }

  /** The adiabatic closure on both sides: each ghost cell copies its neighbour. */
  const AdiabaticClosure := Closure(1.0, 0.0, 1.0, 0.0)

  /** Rows with `d = 1 - a - b` and right-hand side `T`, closed adiabatically,
      have coefficients summing to one on every row. */
  lemma FoldStochastic(rows: seq<Row>, T: real)
    requires forall i :: 0 <= i < |rows| ==> rows[i].c == T && rows[i].d == 1.0 - rows[i].a - rows[i].b
    ensures Stochastic(Fold(rows, AdiabaticClosure), T)
  {
    var f := Fold(rows, AdiabaticClosure);
    forall i | 0 <= i < |f|
      ensures (if i > 0 then f[i].b else 0.0) + f[i].d + (if i + 1 < |f| then f[i].a else 0.0) == 1.0
      ensures f[i].c == T
    {
      assert f[i] == FoldedRow(rows[i], AdiabaticClosure, i == 0, i == |rows| - 1);
    }
  }

  /** The Thomas solve of a uniform, adiabatically closed wall returns the
      uniform temperature when its pivots are non-zero. */
  lemma UniformSolution(e: WallElement, materials: seq<Material>, dt: real, T: real)
    requires |e| >= 3 && Indexed(e, materials)
    requires forall i :: 0 <= i < |e| ==> e[i].temperature == T
    requires NonzeroPivots(Fold(Rows(e, materials, dt), AdiabaticClosure))
    ensures Solution(Fold(Rows(e, materials, dt), AdiabaticClosure)) == seq(|e| - 2, _ => T)
  {
    var rows := Rows(e, materials, dt);
    UniformRows(e, materials, dt, T);
    FoldStochastic(rows, T);
    var f := Fold(rows, AdiabaticClosure);
    ConstantSolves(f, T);
    SolutionUnique(f, seq(|f|, _ => T));
  }

  /** Writing the uniform temperature back, ghost cells copied adiabatically,
      gives the wall unchanged. */
  lemma UniformWriteBack(e: WallElement, T: real)
    requires |e| >= 3
    requires forall i :: 0 <= i < |e| ==> e[i].temperature == T
    ensures WithTemperatures(e, Extend(seq(|e| - 2, _ => T), AdiabaticClosure)) == e
  {
    var x := seq(|e| - 2, _ => T);
    var ts := Extend(x, AdiabaticClosure);
    assert forall i :: 0 <= i < |e| ==> ts[i] == T;
    var r := WithTemperatures(e, ts);
    forall i | 0 <= i < |e|
      ensures r[i] == e[i]
    {
      WithTemperaturesAt(e, ts, i);
    }
  }

  /** One implicit step leaves a uniform, adiabatically closed wall unchanged
      when its pivots are non-zero. */
  lemma UniformSolve(e: WallElement, materials: seq<Material>, dt: real, T: real)
    requires |e| >= 3 && Indexed(e, materials)
    requires forall i :: 0 <= i < |e| ==> e[i].temperature == T
    requires NonzeroPivots(Fold(Rows(e, materials, dt), AdiabaticClosure))
    ensures SolveSpec(e, materials, AdiabaticClosure, dt) == e
  {
    UniformSolution(e, materials, dt, T);
    UniformWriteBack(e, T);
  }

  /** Without sub-stepping, `heat_transfer` is one implicit step over the full
      time step. */
  lemma AdvanceOnce(e: WallElement, materials: seq<Material>, h: (real, real), q: (real, real), dt: real)
    requires |e| >= 3 && Indexed(e, materials)
    requires Repeats(MaxRate(e, materials, dt, |e| - 1)) == 1
    ensures Advance(e, materials, h, q, dt) == SolveSpec(e, materials, ClosureOf(e, materials, h, q), dt)
  {
    var repeats := Repeats(MaxRate(e, materials, dt, |e| - 1));
    assert Advance(e, materials, h, q, dt) == Steps(e, materials, h, q, dt / (repeats as real), repeats);
    assert dt / (repeats as real) == dt;
    StepsOnce(e, materials, h, q, dt);
  }

  lemma StepsOnce(e: WallElement, materials: seq<Material>, h: (real, real), q: (real, real), dt: real)
    requires |e| >= 3 && Indexed(e, materials)
    ensures Steps(e, materials, h, q, dt, 1) == SolveSpec(e, materials, ClosureOf(e, materials, h, q), dt)
  {
    var next := SolveSpec(e, materials, ClosureOf(e, materials, h, q), dt);
    assert Steps(next, materials, h, q, dt, 0) == next;
  }

  /** A uniform wall with both sides adiabatic is a fixed point of
      `heat_transfer` whenever its Thomas solve has non-zero pivots: no
      sub-stepping, and every cell keeps its temperature. */
  lemma SteadyState(e: WallElement, materials: seq<Material>, h: (real, real), q: (real, real), dt: real, T: real)
    requires |e| >= 3 && Indexed(e, materials)
    requires forall i :: 0 <= i < |e| ==> e[i].temperature == T
    requires h == (AdiabaticH, AdiabaticH)
    requires NonzeroPivots(Fold(Rows(e, materials, dt), ClosureOf(e, materials, h, q)))
    ensures Repeats(MaxRate(e, materials, dt, |e| - 1)) == 1
    ensures Advance(e, materials, h, q, dt) == e
  {
    assert Repeats(MaxRate(e, materials, dt, |e| - 1)) == 1 by {
      UniformRates(e, materials, dt, T, |e| - 1);
    }
    AdvanceOnce(e, materials, h, q, dt);
    assert ClosureOf(e, materials, h, q) == AdiabaticClosure;
    UniformSolve(e, materials, dt, T);
  }

  lemma AdiabaticPivots(e: WallElement, materials: seq<Material>, h: (real, real), q: (real, real), dt: real)
    requires |e| >= 3 && Indexed(e, materials) && Physical(e, materials) && dt >= 0.0
    requires h == (AdiabaticH, AdiabaticH)
    ensures NonzeroPivots(Fold(Rows(e, materials, dt), ClosureOf(e, materials, h, q)))
  {
    var cl := ClosureOf(e, materials, h, q);
    assert cl.rfac2F <= 1.0 && cl.rfac2B <= 1.0;
    SchemeDominant(e, materials, cl, dt);
  }

  /** The same fixed point for physical data and a non-negative step, where the
      pivots are non-zero by dominance. */
  lemma SteadyStatePhysical(e: WallElement, materials: seq<Material>, h: (real, real), q: (real, real), dt: real, T: real)
    requires |e| >= 3 && Indexed(e, materials) && Physical(e, materials) && dt >= 0.0
    requires forall i :: 0 <= i < |e| ==> e[i].temperature == T
    requires h == (AdiabaticH, AdiabaticH)
    ensures Advance(e, materials, h, q, dt) == e
  {
    AdiabaticPivots(e, materials, h, q, dt);
    SteadyState(e, materials, h, q, dt, T);
  }

  /** The faces `update` reports for a uniform, adiabatic, physical element
      are both the uniform temperature. */
  lemma SteadyFaces(e: WallElement, materials: seq<Material>, h: (real, real), q: (real, real), dt: real, T: real)
    requires |e| >= 3 && Indexed(e, materials) && Physical(e, materials) && dt >= 0.0
    requires forall i :: 0 <= i < |e| ==> e[i].temperature == T
    requires h == (AdiabaticH, AdiabaticH)
    ensures FaceTemperatures(Advance(e, materials, h, q, dt)) == (T, T)
  {
    SteadyStatePhysical(e, materials, h, q, dt, T);
    UniformFaces(e, T);
  }

  lemma UniformFaces(e: WallElement, T: real)
    requires |e| >= 2
    requires forall i :: 0 <= i < |e| ==> e[i].temperature == T
    ensures FaceTemperatures(e) == (T, T)
  {
  }

  // ---------------------------------------------------------------- fixed-temperature fixed point

  /** The fixed-temperature closure on both sides at `T`: each ghost cell is
      its neighbour mirrored about `T`. */
  function ConstClosure(T: real): (cl: Closure)
    ensures cl.rfac2F <= 1.0 && cl.rfac2B <= 1.0
  {
    Closure(-1.0, 2.0 * T, -1.0, 2.0 * T)
  }

  /** Rows with `d = 1 - a - b` and right-hand side `T`, closed at the fixed
      temperature `T` on both sides, are solved by the uniform vector: the
      first row gives `(1 - a - 2b) * T + a * T = T - 2b * T`, the last one
      symmetrically. */
  lemma FoldConstSolves(rows: seq<Row>, T: real)
    requires forall i :: 0 <= i < |rows| ==> rows[i].c == T && rows[i].d == 1.0 - rows[i].a - rows[i].b
    ensures Solves(Fold(rows, ConstClosure(T)), seq(|rows|, _ => T))
  {
    var cl := ConstClosure(T);
    var f := Fold(rows, cl);
    var x := seq(|rows|, _ => T);
    forall i | 0 <= i < |rows|
      ensures Lhs(f, x, i) == f[i].c
    {
      var r := rows[i];
      var first, last := i == 0, i == |rows| - 1;
      assert f[i] == FoldedRow(r, cl, first, last);
      var bb := if i > 0 then r.b else 0.0;
      var aa := if i + 1 < |rows| then r.a else 0.0;
      var s := (if first then 2.0 * r.b else 0.0) + (if last then 2.0 * r.a else 0.0);
      assert bb + f[i].d + aa == 1.0 - s;
      assert f[i].c == T - s * T;
      assert Lhs(f, x, i) == (bb + f[i].d + aa) * T;
    }
  }

  /** The Thomas solve of a uniform wall held at its own temperature on both
      sides returns that temperature when its pivots are non-zero. */
  lemma ConstSolution(e: WallElement, materials: seq<Material>, dt: real, T: real)
    requires |e| >= 3 && Indexed(e, materials)
    requires forall i :: 0 <= i < |e| ==> e[i].temperature == T
    requires NonzeroPivots(Fold(Rows(e, materials, dt), ConstClosure(T)))
    ensures Solution(Fold(Rows(e, materials, dt), ConstClosure(T))) == seq(|e| - 2, _ => T)
  {
    var rows := Rows(e, materials, dt);
    UniformRows(e, materials, dt, T);
    FoldConstSolves(rows, T);
    SolutionUnique(Fold(rows, ConstClosure(T)), seq(|rows|, _ => T));
  }

  /** Writing the uniform temperature back with ghost cells mirrored about it
      gives the wall unchanged: `-T + 2T = T`. */
  lemma ConstWriteBack(e: WallElement, T: real)
    requires |e| >= 3
    requires forall i :: 0 <= i < |e| ==> e[i].temperature == T
    ensures WithTemperatures(e, Extend(seq(|e| - 2, _ => T), ConstClosure(T))) == e
  {
    var x := seq(|e| - 2, _ => T);
    var ts := Extend(x, ConstClosure(T));
    assert forall i :: 0 <= i < |e| ==> ts[i] == T;
    var r := WithTemperatures(e, ts);
    forall i | 0 <= i < |e|
      ensures r[i] == e[i]
    {
      WithTemperaturesAt(e, ts, i);
    }
  }

  /** One implicit step leaves a uniform wall held at its own temperature on
      both sides unchanged when its pivots are non-zero. */
  lemma ConstSolve(e: WallElement, materials: seq<Material>, dt: real, T: real)
    requires |e| >= 3 && Indexed(e, materials)
    requires forall i :: 0 <= i < |e| ==> e[i].temperature == T
    requires NonzeroPivots(Fold(Rows(e, materials, dt), ConstClosure(T)))
    ensures SolveSpec(e, materials, ConstClosure(T), dt) == e
  {
    ConstSolution(e, materials, dt, T);
    ConstWriteBack(e, T);
  }

  /** Both sides `CONST_TEMP_H` at the wall's own uniform temperature: the
      closure is `(-1, 2T)` on each side. */
  lemma ConstClosureOf(e: WallElement, materials: seq<Material>, q: (real, real), T: real)
    requires |e| >= 3 && Indexed(e, materials) && q == (T, T)
    ensures ClosureOf(e, materials, (ConstTempH, ConstTempH), q) == ConstClosure(T)
  {
  }

  /** A uniform wall at `T` with both sides held at `T` is a fixed point of
      `heat_transfer` for physical data and a non-negative step: no
      sub-stepping, and every cell keeps its temperature. */
  lemma ConstAdvance(e: WallElement, materials: seq<Material>, q: (real, real), dt: real, T: real)
    requires |e| >= 3 && Indexed(e, materials) && Physical(e, materials) && dt >= 0.0
    requires forall i :: 0 <= i < |e| ==> e[i].temperature == T
    requires q == (T, T)
    ensures Repeats(MaxRate(e, materials, dt, |e| - 1)) == 1
    ensures Advance(e, materials, (ConstTempH, ConstTempH), q, dt) == e
  {
    var h := (ConstTempH, ConstTempH);
    assert Repeats(MaxRate(e, materials, dt, |e| - 1)) == 1 by {
      UniformRates(e, materials, dt, T, |e| - 1);
    }
    AdvanceOnce(e, materials, h, q, dt);
    ConstClosureOf(e, materials, q, T);
    SchemeDominant(e, materials, ConstClosure(T), dt);
    ConstSolve(e, materials, dt, T);
  }

  /** The faces `update` reports for such an element are both `T`. */
  lemma ConstFaces(e: WallElement, materials: seq<Material>, q: (real, real), dt: real, T: real)
    requires |e| >= 3 && Indexed(e, materials) && Physical(e, materials) && dt >= 0.0
    requires forall i :: 0 <= i < |e| ==> e[i].temperature == T
    requires q == (T, T)
    ensures FaceTemperatures(Advance(e, materials, (ConstTempH, ConstTempH), q, dt)) == (T, T)
  {
    ConstAdvance(e, materials, q, dt, T);
    UniformFaces(e, T);
  }
}
