/** Kernel text generation (src/heat_transfer/shader.rs): material tables
    are compiled into WGSL `switch` statements, and the GPU methods 2 and 3
    splice their constants into the kernel source. How a float is printed
    (`{:.32}`) is the parameter `fmt`. */
module Shader {
  import opened Wrappers
  import opened Reals
  import opened Ramps
  import Materials
  import Text
  import Lists

  /** `format!("{:.32}", x)`: the text of a float. */
  type Fmt = real -> string

  // ---------------------------------------------------------------- ramp_to_body

  /** The first branch: at or below the first temperature, the first value. */
  function IfBranch(p: Point, fmt: Fmt): string
  {
    "if (temperature <= " + fmt(p.0) + ") {\n\t\t\t\treturn " + fmt(p.1) + ";\n\t\t\t}"
  }

  /** A later branch: at or below `p`'s temperature, interpolate from `last`
      to `p`. */
  function ElseIfBranch(last: Point, p: Point, fmt: Fmt): string
  {
    " else if (temperature <= " + fmt(p.0) + ") {\n\t\t\t\treturn " + fmt(last.1) + " + (" + fmt(p.1) + " - "
    + fmt(last.1) + ") / (" + fmt(p.0) + " - " + fmt(last.0) + ") * (temperature - " + fmt(last.0) + ");\n\t\t\t}"
  }

  /** The closing branch: the last value. */
  function ElseBranch(f: real, fmt: Fmt): string
  {
    " else {\n\t\t\t\treturn " + fmt(f) + ";\n\t\t\t}"
  }

  /** The first `n` branches of the `if` chain. */
  function Leading(ps: seq<Point>, n: nat, fmt: Fmt): (r: seq<string>)
    requires 1 <= n <= |ps|
    ensures |r| == n && r[0] == IfBranch(ps[0], fmt)
    ensures forall i :: 1 <= i < n ==> r[i] == ElseIfBranch(ps[i - 1], ps[i], fmt)
  {
    if n == 1 then [IfBranch(ps[0], fmt)] else Leading(ps, n - 1, fmt) + [ElseIfBranch(ps[n - 2], ps[n - 1], fmt)]
  }

  /** The branches of a ramp that is not a single point: one `if` for the
      first point, one `else if` per later point, a final `else`. An empty
      ramp yields only the `else`, returning the loop's initial 0. */
  function Branches(ps: seq<Point>, fmt: Fmt): (r: seq<string>)
    ensures |ps| > 0 ==> |r| == |ps| + 1
    ensures |r| > 0 && r[|r| - 1] == ElseBranch(if |ps| == 0 then 0.0 else ps[|ps| - 1].1, fmt)
  {
    if |ps| == 0 then [ElseBranch(0.0, fmt)]
    else Leading(ps, |ps|, fmt) + [ElseBranch(ps[|ps| - 1].1, fmt)]
  }

  /** The body generated for a ramp: a single `return` for one point,
      otherwise the branches in order. */
  function RampText(ramp: Ramp, fmt: Fmt): string
  {
    if |ramp.points| == 1 then "return " + fmt(ramp.points[0].1) + ";"
    else Lists.Flatten(Branches(ramp.points, fmt))
  }

  /** `ramp_to_body`: the loop carries the previous point in `last_t` and
      `last_f`, both 0 before the first point. */
  method RampToBody(ramp: Ramp, fmt: Fmt) returns (body: string)
    ensures body == RampText(ramp, fmt)
  {
    var ps := ramp.points;
    if |ps| == 1 {
      return "return " + fmt(ps[0].1) + ";";
    }
    body := "";
    var lastT, lastF := 0.0, 0.0;
    for i := 0 to |ps|
      invariant i == 0 ==> body == "" && lastF == 0.0
      invariant i > 0 ==> lastT == ps[i - 1].0 && lastF == ps[i - 1].1 && body == Lists.Flatten(Leading(ps, i, fmt))
    {
      if i == 0 {
        LeadingFirst(ps, fmt);
        body := body + IfBranch(ps[0], fmt);
      } else {
        LeadingSnoc(ps, i, fmt);
        body := body + ElseIfBranch((lastT, lastF), ps[i], fmt);
      }
      lastT, lastF := ps[i].0, ps[i].1;
    }
    BranchesText(ps, fmt);
    body := body + ElseBranch(lastF, fmt);
  }

  lemma LeadingFirst(ps: seq<Point>, fmt: Fmt)
    requires |ps| > 0
    ensures Lists.Flatten(Leading(ps, 1, fmt)) == IfBranch(ps[0], fmt)
  {
    assert Lists.Flatten(Leading(ps, 1, fmt)) == IfBranch(ps[0], fmt) + Lists.Flatten<char>([]);
  }

  /** One more point appends its `else if`. */
  lemma LeadingSnoc(ps: seq<Point>, i: nat, fmt: Fmt)
    requires 1 <= i < |ps|
    ensures Lists.Flatten(Leading(ps, i + 1, fmt)) == Lists.Flatten(Leading(ps, i, fmt)) + ElseIfBranch(ps[i - 1], ps[i], fmt)
  {
    var e := ElseIfBranch(ps[i - 1], ps[i], fmt);
    Lists.FlattenAppend(Leading(ps, i, fmt), [e]);
    assert Lists.Flatten([e]) == e + Lists.Flatten<char>([]);
  }

  /** The branches' text: the leading ones, then the `else`. */
  lemma BranchesText(ps: seq<Point>, fmt: Fmt)
    ensures |ps| == 0 ==> Lists.Flatten(Branches(ps, fmt)) == ElseBranch(0.0, fmt)
    ensures |ps| > 0 ==> Lists.Flatten(Branches(ps, fmt))
                         == Lists.Flatten(Leading(ps, |ps|, fmt)) + ElseBranch(ps[|ps| - 1].1, fmt)
  {
    var e := ElseBranch(if |ps| == 0 then 0.0 else ps[|ps| - 1].1, fmt);
    assert Lists.Flatten([e]) == e + Lists.Flatten<char>([]);
    if |ps| > 0 {
      Lists.FlattenAppend(Leading(ps, |ps|, fmt), [e]);
    }
  }

  /** What the generated body returns at `temperature`, read off the
      branches: the first value at or below the first temperature, the
      interpolation towards the first later point at or above it, the last
      value past all of them. Division by a zero temperature step is not
      modelled (`Div` yields 0 there). */
  function GeneratedValue(ps: seq<Point>, t: real): real
  {
    if |ps| == 0 then 0.0
    else if |ps| == 1 || t <= ps[0].0 then ps[0].1
    else GeneratedFrom(ps, t, 1)
  }

  function GeneratedFrom(ps: seq<Point>, t: real, i: nat): real
    requires 1 <= i <= |ps|
    decreases |ps| - i
  {
    if i == |ps| then ps[|ps| - 1].1
    else if t <= ps[i].0 then ps[i - 1].1 + Div(ps[i].1 - ps[i - 1].1, ps[i].0 - ps[i - 1].0) * (t - ps[i - 1].0)
    else GeneratedFrom(ps, t, i + 1)
  }

  /** Breakpoint temperatures strictly increase. */
  predicate StrictlyAscending(ps: seq<Point>)
  {
    forall j :: 0 < j < |ps| ==> ps[j - 1].0 < ps[j].0
  }

  /** The kernel tests `temperature <= t_i` where `Ramp::calc` tests
      `t < t_i`; at a breakpoint both give that breakpoint's value, so for
      strictly ascending breakpoints the generated body computes exactly
      `Ramp::calc`. */
  lemma GeneratedIsCalc(ramp: Ramp, t: real)
    requires |ramp.points| > 0 && StrictlyAscending(ramp.points)
    ensures GeneratedValue(ramp.points, t) == Calc(ramp, t)
  {
    var ps := ramp.points;
    if |ps| > 1 && t > ps[0].0 {
      GeneratedFromIsCalcFrom(ps, t, 1);
    }
  }

  lemma {:induction false} GeneratedFromIsCalcFrom(ps: seq<Point>, t: real, i: nat)
    requires 1 <= i <= |ps| && ps[i - 1].0 < t && StrictlyAscending(ps)
    ensures GeneratedFrom(ps, t, i) == CalcFrom(ps, t, i)
    decreases |ps| - i
  {
    if i < |ps| {
      var p0, p1 := ps[i - 1], ps[i];
      assert p0.0 < p1.0;
      DivMul(p1.1 - p0.1, p1.0 - p0.0);
      if t < p1.0 {
        assert GeneratedFrom(ps, t, i) == Lerp(p0, p1, t);
      } else if t == p1.0 {
        assert GeneratedFrom(ps, t, i) == p1.1;
        AtBreakpoint(ps, i);
      } else {
        GeneratedFromIsCalcFrom(ps, t, i + 1);
      }
    }
  }

  /** `Ramp::calc` at breakpoint `i` (past the first) is its value. */
  lemma AtBreakpoint(ps: seq<Point>, i: nat)
    requires 1 <= i < |ps| && StrictlyAscending(ps)
    ensures CalcFrom(ps, ps[i].0, i) == ps[i].1
  {
    var t := ps[i].0;
    if i + 1 < |ps| {
      assert t < ps[i + 1].0;
      assert Lerp(ps[i], ps[i + 1], t) == ps[i].1;
    }
  }

  // ---------------------------------------------------------------- insert_material_data

  /** One arm of a generated `switch`: material 0 is the `default` arm,
      material `k >= 1` the arm `case ku`. */
  function Arm(id: nat, inner: string): string
  {
    if id == 0 then "\t\tdefault: {\n\t\t\t" + inner + "\n\t\t}"
    else "\t\tcase " + Text.NatToString(id) + "u: {\n\t\t\t" + inner + "\n\t\t}"
  }

  const SwitchHead: string := "switch id {\n"
  const SwitchTail: string := "\n\t}"

  /** The arms for the first `n` materials, in id order. */
  function Arms(inners: seq<string>, n: nat): (r: seq<string>)
    requires n <= |inners|
    ensures |r| == n && forall i :: 0 <= i < n ==> r[i] == Arm(i, inners[i])
  {
    if n == 0 then [] else Arms(inners, n - 1) + [Arm(n - 1, inners[n - 1])]
  }

  /** A whole generated `switch`. */
  function Switch(inners: seq<string>): string
  {
    SwitchHead + Lists.Flatten(Arms(inners, |inners|)) + SwitchTail
  }

  /** A `case` label reads back as the material's index. */
  lemma ArmLabel(id: nat, inner: string)
    requires 1 <= id <= Text.UsizeMax
    ensures (var digits := Text.NatToString(id);
             Arm(id, inner) == "\t\tcase " + digits + "u: {\n\t\t\t" + inner + "\n\t\t}"
             && Text.ParseNat(digits) == Some(id))
  {
    Text.NatStringRoundTrip(id);
  }

  function SpecificHeatInner(m: Materials.Material, fmt: Fmt): string { RampText(m.specificHeat, fmt) }
  function ConductivityInner(m: Materials.Material, fmt: Fmt): string { RampText(m.conductivity, fmt) }
  function DensityInner(m: Materials.Material, fmt: Fmt): string { "return " + fmt(m.density) + ";" }
  function EmissivityInner(m: Materials.Material, fmt: Fmt): string { "return " + fmt(m.emissivity) + ";" }

  const SpecificHeatMarker: string := "//! specific_heat"
  const ConductivityMarker: string := "//! conductivity"
  const DensityMarker: string := "//! density"
  const EmissivityMarker: string := "//! emissivity"

  /** The four `switch` bodies, one arm per material in id order. */
  ghost predicate MaterialBodies(materials: seq<Materials.Material>, fmt: Fmt, sh: string, k: string, d: string, e: string)
  {
    sh == Switch(Lists.Map(materials, m => SpecificHeatInner(m, fmt)))
    && k == Switch(Lists.Map(materials, m => ConductivityInner(m, fmt)))
    && d == Switch(Lists.Map(materials, m => DensityInner(m, fmt)))
    && e == Switch(Lists.Map(materials, m => EmissivityInner(m, fmt)))
  }

  /** `insert_material_data`: one pass over the materials builds the four
      `switch` bodies, which then replace the four markers, in this order,
      wherever they occur. */
  method InsertMaterialData(shader: string, materials: seq<Materials.Material>, fmt: Fmt)
    returns (r: string, sh: string, k: string, d: string, e: string)
    ensures MaterialBodies(materials, fmt, sh, k, d, e)
    ensures r == Text.Replace(Text.Replace(Text.Replace(Text.Replace(shader, SpecificHeatMarker, sh),
                                                        ConductivityMarker, k), DensityMarker, d), EmissivityMarker, e)
  {
    var shArms, kArms, dArms, eArms := "", "", "", "";
    for id := 0 to |materials|
      invariant shArms == Lists.Flatten(Arms(Lists.Map(materials, m => SpecificHeatInner(m, fmt)), id))
      invariant kArms == Lists.Flatten(Arms(Lists.Map(materials, m => ConductivityInner(m, fmt)), id))
      invariant dArms == Lists.Flatten(Arms(Lists.Map(materials, m => DensityInner(m, fmt)), id))
      invariant eArms == Lists.Flatten(Arms(Lists.Map(materials, m => EmissivityInner(m, fmt)), id))
    {
      var m := materials[id];
      var shText := RampToBody(m.specificHeat, fmt);
      var kText := RampToBody(m.conductivity, fmt);
      AllArmsSnoc(materials, fmt, id);
      shArms := shArms + Arm(id, shText);
      kArms := kArms + Arm(id, kText);
      dArms := dArms + Arm(id, "return " + fmt(m.density) + ";");
      eArms := eArms + Arm(id, "return " + fmt(m.emissivity) + ";");
    }
    sh, k, d, e := SwitchHead + shArms + SwitchTail, SwitchHead + kArms + SwitchTail,
                   SwitchHead + dArms + SwitchTail, SwitchHead + eArms + SwitchTail;
    r := Text.Replace(Text.Replace(Text.Replace(Text.Replace(shader, SpecificHeatMarker, sh),
                                                ConductivityMarker, k), DensityMarker, d), EmissivityMarker, e);
  }

  /** One more material appends its arm to each of the four bodies. */
  lemma AllArmsSnoc(materials: seq<Materials.Material>, fmt: Fmt, id: nat)
    requires id < |materials|
    ensures Lists.Flatten(Arms(Lists.Map(materials, m => SpecificHeatInner(m, fmt)), id + 1))
            == Lists.Flatten(Arms(Lists.Map(materials, m => SpecificHeatInner(m, fmt)), id)) + Arm(id, RampText(materials[id].specificHeat, fmt))
    ensures Lists.Flatten(Arms(Lists.Map(materials, m => ConductivityInner(m, fmt)), id + 1))
            == Lists.Flatten(Arms(Lists.Map(materials, m => ConductivityInner(m, fmt)), id)) + Arm(id, RampText(materials[id].conductivity, fmt))
    ensures Lists.Flatten(Arms(Lists.Map(materials, m => DensityInner(m, fmt)), id + 1))
            == Lists.Flatten(Arms(Lists.Map(materials, m => DensityInner(m, fmt)), id)) + Arm(id, "return " + fmt(materials[id].density) + ";")
    ensures Lists.Flatten(Arms(Lists.Map(materials, m => EmissivityInner(m, fmt)), id + 1))
            == Lists.Flatten(Arms(Lists.Map(materials, m => EmissivityInner(m, fmt)), id)) + Arm(id, "return " + fmt(materials[id].emissivity) + ";")
  {
    ArmsSnoc(Lists.Map(materials, m => SpecificHeatInner(m, fmt)), id);
    ArmsSnoc(Lists.Map(materials, m => ConductivityInner(m, fmt)), id);
    ArmsSnoc(Lists.Map(materials, m => DensityInner(m, fmt)), id);
    ArmsSnoc(Lists.Map(materials, m => EmissivityInner(m, fmt)), id);
  }

  /** One more material appends its arm. */
  lemma ArmsSnoc(inners: seq<string>, n: nat)
    requires n < |inners|
    ensures Lists.Flatten(Arms(inners, n + 1)) == Lists.Flatten(Arms(inners, n)) + Arm(n, inners[n])
  {
    Lists.FlattenAppend(Arms(inners, n), [Arm(n, inners[n])]);
    assert Lists.Flatten([Arm(n, inners[n])]) == Arm(n, inners[n]) + Lists.Flatten<char>([]);
  }

  // ---------------------------------------------------------------- insert_gpu_m2_data / insert_gpu_m3_data

  /** `const NAME = nu;\n const N = (n-2)u; //`. The `usize` subtraction
      underflows below 2; every element has at least three cells. */
  function CountLine(name: string, n: nat): string
    requires n >= 2
  {
    "const " + name + " = " + Text.NatToString(n) + "u;\n const N = " + Text.NatToString(n - 2) + "u; //"
  }

  /** Both numbers of a count line read back: `n` and `n - 2`. */
  lemma CountLineReadsBack(name: string, n: nat)
    requires 2 <= n <= Text.UsizeMax
    ensures (var a, b := Text.NatToString(n), Text.NatToString(n - 2);
             CountLine(name, n) == "const " + name + " = " + a + "u;\n const N = " + b + "u; //"
             && Text.ParseNat(a) == Some(n) && Text.ParseNat(b) == Some(n - 2))
  {
    Text.NatStringRoundTrip(n);
    Text.NatStringRoundTrip(n - 2);
  }

  /** The folded list of sizes: every size followed by `, `. */
  function SizeItems(sizes: seq<real>, fmt: Fmt): string
  {
    if |sizes| == 0 then "" else fmt(sizes[0]) + ", " + SizeItems(sizes[1..], fmt)
  }

  /** The folded list of material ids: every id followed by `u, `. */
  function MaterialItems(ids: seq<nat>): string
  {
    if |ids| == 0 then "" else Text.NatToString(ids[0]) + "u, " + MaterialItems(ids[1..])
  }

  /** Reading a material list back: digits up to `u`, then `, `. */
  function DecodeIds(s: string): Option<seq<nat>>
    decreases |s|
  {
    if |s| == 0 then Some([])
    else
      match Text.IndexOf(s, 'u')
      case None => None
      case Some(k) =>
        if k + 3 <= |s| && s[k..k + 3] == "u, " then
          match Text.ParseNat(s[..k])
          case None => None
          case Some(id) =>
            match DecodeIds(s[k + 3..])
            case None => None
            case Some(rest) => Some([id] + rest)
        else None
  }

  /** The material array of method 2 keeps every id, in order. */
  lemma {:induction false} MaterialItemsRoundTrip(ids: seq<nat>)
    requires forall i :: 0 <= i < |ids| ==> ids[i] <= Text.UsizeMax
    ensures DecodeIds(MaterialItems(ids)) == Some(ids)
    decreases |ids|
  {
    if |ids| > 0 {
      MaterialItemsRoundTrip(ids[1..]);
      DecodeCons(ids);
    }
  }

  lemma DecodeCons(ids: seq<nat>)
    requires |ids| > 0 && ids[0] <= Text.UsizeMax
    requires DecodeIds(MaterialItems(ids[1..])) == Some(ids[1..])
    ensures DecodeIds(MaterialItems(ids)) == Some(ids)
  {
    var rest := MaterialItems(ids[1..]);
    assert MaterialItems(ids) == Text.NatToString(ids[0]) + "u, " + rest;
    DecodeItem(ids[0], rest);
    assert [ids[0]] + ids[1..] == ids;
  }

  /** One id and its `u, ` are read back in front of the rest. */
  lemma DecodeItem(id: nat, rest: string)
    requires id <= Text.UsizeMax
    ensures DecodeIds(Text.NatToString(id) + "u, " + rest)
            == match DecodeIds(rest) case None => None case Some(tail) => Some([id] + tail)
  {
    var a := Text.NatToString(id);
    var s := a + "u, " + rest;
    assert s == a + ['u'] + (", " + rest);
    Text.IndexOfAfter(a, 'u', ", " + rest);
    assert s[..|a|] == a && s[|a|..|a| + 3] == "u, " && s[|a| + 3..] == rest;
    Text.NatStringRoundTrip(id);
  }

  const CellLengthMarker: string := "//! cell_length\n"
  const CellSizesMarker: string := "//! cell_sizes\n"
  const CellMaterialsMarker: string := "//! cell_materials\n"
  const MaxCellCountMarker: string := "//! max_cell_count\n"

  function LengthLine(sizes: seq<real>): string
    requires |sizes| >= 2
  {
    CountLine("CELL_LENGTH", |sizes|)
  }

  function SizesLine(sizes: seq<real>, fmt: Fmt): string
  {
    "var<private> cell_sizes: array<f32, CELL_LENGTH> = array<f32, CELL_LENGTH>(" + SizeItems(sizes, fmt) + "); //"
  }

  function MaterialsLine(ids: seq<nat>): string
  {
    "var<private> cell_materials: array<u32, CELL_LENGTH> = array<u32, CELL_LENGTH>(" + MaterialItems(ids) + "); //"
  }

  /** `insert_gpu_m2_data`: `CELL_LENGTH` is the number of sizes, and the
      size and material arrays list their values in order; each replaces its
      marker wherever it occurs. */
  function InsertGpuM2Data(shader: string, sizes: seq<real>, ids: seq<nat>, fmt: Fmt): string
    requires |sizes| >= 2
  {
    Text.Replace(Text.Replace(Text.Replace(shader, CellLengthMarker, LengthLine(sizes)),
                              CellSizesMarker, SizesLine(sizes, fmt)),
                 CellMaterialsMarker, MaterialsLine(ids))
  }

  /** `p` occurs in `s` at `i` and nowhere else. */
  ghost predicate OnlyAt(s: string, p: string, i: nat)
  {
    forall j :: Text.OccursAt(s, p, j) ==> j == i
  }

  /** A kernel holding each of the three markers once, in order, gets each
      line in its marker's place and is otherwise unchanged (the markers
      must not reappear in the inserted lines). */
  lemma InsertGpuM2Places(a: string, b: string, c: string, d: string, sizes: seq<real>, ids: seq<nat>, fmt: Fmt)
    requires |sizes| >= 2
    requires OnlyAt(a + CellLengthMarker + (b + CellSizesMarker + c + CellMaterialsMarker + d), CellLengthMarker, |a|)
    requires OnlyAt((a + LengthLine(sizes) + b) + CellSizesMarker + (c + CellMaterialsMarker + d),
                    CellSizesMarker, |a + LengthLine(sizes) + b|)
    requires OnlyAt((a + LengthLine(sizes) + b + SizesLine(sizes, fmt) + c) + CellMaterialsMarker + d,
                    CellMaterialsMarker, |a + LengthLine(sizes) + b + SizesLine(sizes, fmt) + c|)
    ensures InsertGpuM2Data(a + CellLengthMarker + b + CellSizesMarker + c + CellMaterialsMarker + d, sizes, ids, fmt)
            == a + LengthLine(sizes) + b + SizesLine(sizes, fmt) + c + MaterialsLine(ids) + d
  {
    ReplaceThree(a, b, c, d, CellLengthMarker, CellSizesMarker, CellMaterialsMarker,
                 LengthLine(sizes), SizesLine(sizes, fmt), MaterialsLine(ids));
  }

  /** Three replacements, each of a pattern found at one place only. */
  lemma ReplaceThree(a: string, b: string, c: string, d: string, p1: string, p2: string, p3: string,
                     l1: string, l2: string, l3: string)
    requires |p1| > 0 && |p2| > 0 && |p3| > 0
    requires OnlyAt(a + p1 + (b + p2 + c + p3 + d), p1, |a|)
    requires OnlyAt((a + l1 + b) + p2 + (c + p3 + d), p2, |a + l1 + b|)
    requires OnlyAt((a + l1 + b + l2 + c) + p3 + d, p3, |a + l1 + b + l2 + c|)
    ensures Text.Replace(Text.Replace(Text.Replace(a + p1 + b + p2 + c + p3 + d, p1, l1), p2, l2), p3, l3)
            == a + l1 + b + l2 + c + l3 + d
  {
    var rest1 := b + p2 + c + p3 + d;
    assert a + p1 + b + p2 + c + p3 + d == a + p1 + rest1;
    Text.ReplaceOnce(a, p1, rest1, l1);
    var pre2, rest2 := a + l1 + b, c + p3 + d;
    assert a + l1 + rest1 == pre2 + p2 + rest2;
    Text.ReplaceOnce(pre2, p2, rest2, l2);
    var pre3 := a + l1 + b + l2 + c;
    assert pre2 + l2 + rest2 == pre3 + p3 + d;
    Text.ReplaceOnce(pre3, p3, d, l3);
  }

  /** `insert_gpu_m3_data`: the `MAX_CELL_COUNT` line replaces its marker. */
  function InsertGpuM3Data(shader: string, max: nat): string
    requires max >= 2
  {
    Text.Replace(shader, MaxCellCountMarker, CountLine("MAX_CELL_COUNT", max))
  }

  /** A kernel with the marker at one place gets the line at that place and
      is otherwise unchanged. */
  lemma InsertGpuM3Once(a: string, b: string, max: nat)
    requires max >= 2
    requires OnlyAt(a + MaxCellCountMarker + b, MaxCellCountMarker, |a|)
    ensures InsertGpuM3Data(a + MaxCellCountMarker + b, max) == a + CountLine("MAX_CELL_COUNT", max) + b
  {
    Text.ReplaceOnce(a, MaxCellCountMarker, b, CountLine("MAX_CELL_COUNT", max));
  }

  /** A kernel without the marker is left as it is. */
  lemma InsertGpuM3Absent(shader: string, max: nat)
    requires max >= 2
    requires forall i :: !Text.OccursAt(shader, MaxCellCountMarker, i)
    ensures InsertGpuM3Data(shader, max) == shader
  {
    Text.ReplaceAbsent(shader, MaxCellCountMarker, CountLine("MAX_CELL_COUNT", max));
  }
}
