/** Piecewise-linear material property tables (`&RAMP` lines) and the list
    that groups consecutive lines with the same ID (src/fds/ramp.rs). */
module Ramps {
  import opened Wrappers
  import opened Properties
  import Lists

  /** One breakpoint: (temperature, value). */
  type Point = (real, real)

  datatype Ramp = Ramp(points: seq<Point>)

  /** Linear interpolation between two breakpoints. */
  function Lerp(p0: Point, p1: Point, t: real): real
    requires p1.0 != p0.0
  {
    p0.1 + (p1.1 - p0.1) / (p1.0 - p0.0) * (t - p0.0)
  }

  /** First index `i >= 1` with `t < t_i`: the loop at src/fds/ramp.rs:15-21. */
  function Above(ps: seq<Point>, t: real, i: nat): (r: Option<nat>)
    requires 1 <= i <= |ps|
    ensures r.Some? ==> i <= r.value < |ps| && t < ps[r.value].0
    ensures r.Some? ==> forall j :: i <= j < r.value ==> t >= ps[j].0
    ensures r.None? <==> forall j :: i <= j < |ps| ==> t >= ps[j].0
    decreases |ps| - i
  {
    if i == |ps| then None
    else if t < ps[i].0 then Some(i)
    else Above(ps, t, i + 1)
  }

  /** `Above` finds exactly the first breakpoint above `t`. */
  lemma AboveIs(ps: seq<Point>, t: real, i: nat)
    requires 1 <= i < |ps| && t < ps[i].0
    requires forall j :: 1 <= j < i ==> t >= ps[j].0
    ensures Above(ps, t, 1) == Some(i)
  {
  }

  /** `Ramp::calc`. Indexing the first point panics on an empty ramp.
      What it yields in each case is stated by `CalcCases`. */
  function Calc(ramp: Ramp, t: real): (r: real)
    requires |ramp.points| > 0
  {
    var ps := ramp.points;
    if t <= ps[0].0 then ps[0].1 else CalcFrom(ps, t, 1)
  }

  /** The loop of `Ramp::calc` from breakpoint `i` on: interpolate below the
      first breakpoint above `t`, or yield the last value when there is none. */
  function CalcFrom(ps: seq<Point>, t: real, i: nat): real
    requires 1 <= i <= |ps| && ps[i - 1].0 <= t
    decreases |ps| - i
  {
    if i == |ps| then ps[|ps| - 1].1
    else if t < ps[i].0 then Lerp(ps[i - 1], ps[i], t)
    else CalcFrom(ps, t, i + 1)
  }

  /** The loop stops at the breakpoint `Above` finds. */
  lemma {:induction false} CalcFromAbove(ps: seq<Point>, t: real, i: nat)
    requires 1 <= i <= |ps| && ps[i - 1].0 <= t
    ensures Above(ps, t, i).None? ==> CalcFrom(ps, t, i) == ps[|ps| - 1].1
    ensures Above(ps, t, i).Some? ==> var j := Above(ps, t, i).value;
                                      ps[j - 1].0 <= t && CalcFrom(ps, t, i) == Lerp(ps[j - 1], ps[j], t)
    decreases |ps| - i
  {
    if i < |ps| && t >= ps[i].0 {
      CalcFromAbove(ps, t, i + 1);
    }
  }

  /** The three cases of `Ramp::calc`: at or below the first temperature
      the first value; past every later temperature the last value; otherwise
      the interpolation between the first breakpoint above `t` and the one
      before it. */
  lemma CalcCases(ramp: Ramp, t: real)
    requires |ramp.points| > 0
    ensures t <= ramp.points[0].0 ==> Calc(ramp, t) == ramp.points[0].1
    ensures t > ramp.points[0].0 && (forall j :: 1 <= j < |ramp.points| ==> t >= ramp.points[j].0)
            ==> Calc(ramp, t) == ramp.points[|ramp.points| - 1].1
    ensures t > ramp.points[0].0 && Above(ramp.points, t, 1).Some?
            ==> var i := Above(ramp.points, t, 1).value;
                ramp.points[i - 1].0 <= t && Calc(ramp, t) == Lerp(ramp.points[i - 1], ramp.points[i], t)
  {
    if t > ramp.points[0].0 {
      CalcFromAbove(ramp.points, t, 1);
    }
  }

  /** Where `Calc` interpolates, the result lies between the two neighbouring
      values, whichever way round they are; no ordering of the table is needed. */
  lemma CalcBetween(ramp: Ramp, t: real, i: nat)
    requires 1 <= i < |ramp.points|
    requires t > ramp.points[0].0 && t < ramp.points[i].0
    requires forall j :: 1 <= j < i ==> t >= ramp.points[j].0
    ensures var f0, f1 := ramp.points[i - 1].1, ramp.points[i].1;
            var r := Calc(ramp, t);
            (f0 <= f1 ==> f0 <= r <= f1) && (f1 <= f0 ==> f1 <= r <= f0)
  {
    var p0, p1 := ramp.points[i - 1], ramp.points[i];
    AboveIs(ramp.points, t, i);
    CalcCases(ramp, t);
    assert p0.0 <= t && Calc(ramp, t) == Lerp(p0, p1, t);
    LerpBetween(p0, p1, t);
  }

  /** `Ramp::calc` never leaves the range of the table's values: values all
      at least (above) `lo` give a result at least (above) `lo` at every
      temperature. */
  lemma CalcWithinValues(ramp: Ramp, t: real, lo: real)
    requires |ramp.points| > 0
    ensures (forall k :: 0 <= k < |ramp.points| ==> ramp.points[k].1 >= lo) ==> Calc(ramp, t) >= lo
    ensures (forall k :: 0 <= k < |ramp.points| ==> ramp.points[k].1 > lo) ==> Calc(ramp, t) > lo
  {
    var ps := ramp.points;
    CalcCases(ramp, t);
    if t > ps[0].0 {
      var above := Above(ps, t, 1);
      if above.Some? {
        CalcBetween(ramp, t, above.value);
      }
    }
  }

  lemma LerpBetween(p0: Point, p1: Point, t: real)
    requires p0.0 <= t < p1.0
    ensures p0.1 <= p1.1 ==> p0.1 <= Lerp(p0, p1, t) <= p1.1
    ensures p1.1 <= p0.1 ==> p1.1 <= Lerp(p0, p1, t) <= p0.1
  {
    var w := (t - p0.0) / (p1.0 - p0.0);
    UnitFraction(t - p0.0, p1.0 - p0.0);
    assert Lerp(p0, p1, t) == p0.1 + (p1.1 - p0.1) * w;
    ScaleBetween(p1.1 - p0.1, w);
  }

  /** `0 <= x < d` makes `x / d` a fraction in [0, 1). */
  lemma UnitFraction(x: real, d: real)
    requires 0.0 <= x < d
    ensures 0.0 <= x / d < 1.0
  {
    var w := x / d;
    assert w * d == x;
  }

  lemma ScaleBetween(a: real, w: real)
    requires 0.0 <= w <= 1.0
    ensures a >= 0.0 ==> 0.0 <= a * w <= a
    ensures a <= 0.0 ==> a <= a * w <= 0.0
  {
    assert a - a * w == a * (1.0 - w);
  }

  /** With ascending breakpoints, "no `t_i` above `t`" means `t` is at or past the last one. */
  lemma CalcAscendingTail(ramp: Ramp, t: real)
    requires |ramp.points| > 0
    requires forall j :: 0 < j < |ramp.points| ==> ramp.points[j - 1].0 < ramp.points[j].0
    requires t >= ramp.points[|ramp.points| - 1].0
    ensures Calc(ramp, t) == ramp.points[|ramp.points| - 1].1
  {
    var ps := ramp.points;
    forall j | 0 <= j < |ps|
      ensures ps[j].0 <= ps[|ps| - 1].0
    {
      AscendingUpTo(ps, j, |ps| - 1);
    }
    if |ps| > 1 {
      assert ps[0].0 < ps[1].0 <= ps[|ps| - 1].0;
    }
    CalcCases(ramp, t);
  }

  lemma {:induction false} AscendingUpTo(ps: seq<Point>, j: nat, k: nat)
    requires j <= k < |ps|
    requires forall l :: 0 < l < |ps| ==> ps[l - 1].0 < ps[l].0
    ensures ps[j].0 <= ps[k].0
    decreases k - j
  {
    if j < k {
      AscendingUpTo(ps, j + 1, k);
    }
  }

  /** The table [(0,10), (10,20)] evaluated below, inside and above its range. */
  lemma CalcExample()
    ensures Calc(Ramp([(0.0, 10.0), (10.0, 20.0)]), -5.0) == 10.0
    ensures Calc(Ramp([(0.0, 10.0), (10.0, 20.0)]), 5.0) == 15.0
    ensures Calc(Ramp([(0.0, 10.0), (10.0, 20.0)]), 20.0) == 20.0
  {
    var r := Ramp([(0.0, 10.0), (10.0, 20.0)]);
    assert Above(r.points, 5.0, 1) == Some(1);
    assert Above(r.points, 20.0, 1) == None;
  }

  /** `Ramp::multiply`: scales every value, keeps every temperature. */
  function Multiply(ramp: Ramp, v: real): (r: Ramp)
    ensures |r.points| == |ramp.points|
    ensures forall k :: 0 <= k < |r.points| ==> r.points[k].0 == ramp.points[k].0
    ensures forall k :: 0 <= k < |r.points| ==> r.points[k].1 == ramp.points[k].1 * v
  {
    Ramp(seq(|ramp.points|, k requires 0 <= k < |ramp.points| => (ramp.points[k].0, ramp.points[k].1 * v)))
  }

  /** Scaling the table scales every value it yields. */
  lemma CalcMultiply(ramp: Ramp, v: real, t: real)
    requires |ramp.points| > 0
    ensures Calc(Multiply(ramp, v), t) == v * Calc(ramp, t)
  {
    var ps, qs := ramp.points, Multiply(ramp, v).points;
    AboveSameTemperatures(ps, qs, t, 1);
    if t > ps[0].0 {
      var above := Above(ps, t, 1);
      if above.Some? {
        CalcMultiplyInside(ramp, v, t, above.value);
      } else {
        CalcMultiplyPast(ramp, v, t);
      }
    }
  }

  lemma CalcMultiplyPast(ramp: Ramp, v: real, t: real)
    requires |ramp.points| > 0 && t > ramp.points[0].0
    requires forall j :: 1 <= j < |ramp.points| ==> t >= ramp.points[j].0
    ensures Calc(Multiply(ramp, v), t) == v * Calc(ramp, t)
  {
    var qs := Multiply(ramp, v).points;
    assert forall j :: 1 <= j < |qs| ==> t >= qs[j].0;
    CalcCases(ramp, t);
    CalcCases(Multiply(ramp, v), t);
  }

  lemma CalcMultiplyInside(ramp: Ramp, v: real, t: real, i: nat)
    requires |ramp.points| > 0 && t > ramp.points[0].0 && Above(ramp.points, t, 1) == Some(i)
    ensures Calc(Multiply(ramp, v), t) == v * Calc(ramp, t)
  {
    CalcInside(ramp, t, i);
    CalcInsideMultiplied(ramp, v, t, i);
    LerpScaleAt(ramp, v, t, i);
  }

  /** The scaled table interpolates between the same two breakpoints. */
  lemma CalcInsideMultiplied(ramp: Ramp, v: real, t: real, i: nat)
    requires |ramp.points| > 0 && t > ramp.points[0].0 && Above(ramp.points, t, 1) == Some(i)
    ensures Calc(Multiply(ramp, v), t) == Lerp(Multiply(ramp, v).points[i - 1], Multiply(ramp, v).points[i], t)
  {
    var m := Multiply(ramp, v);
    AboveSameTemperatures(ramp.points, m.points, t, 1);
    CalcInside(m, t, i);
  }

  /** Interpolating between two scaled breakpoints scales the interpolation. */
  lemma LerpScaleAt(ramp: Ramp, v: real, t: real, i: nat)
    requires 1 <= i < |ramp.points| && ramp.points[i - 1].0 < ramp.points[i].0
    ensures Lerp(Multiply(ramp, v).points[i - 1], Multiply(ramp, v).points[i], t)
            == v * Lerp(ramp.points[i - 1], ramp.points[i], t)
  {
    MultiplyAt(ramp, v, i - 1);
    MultiplyAt(ramp, v, i);
    LerpScale(ramp.points[i - 1], ramp.points[i], v, t);
  }

  lemma MultiplyAt(ramp: Ramp, v: real, k: nat)
    requires k < |ramp.points|
    ensures Multiply(ramp, v).points[k] == (ramp.points[k].0, ramp.points[k].1 * v)
  {
  }

  lemma CalcInside(ramp: Ramp, t: real, i: nat)
    requires |ramp.points| > 0 && t > ramp.points[0].0 && Above(ramp.points, t, 1) == Some(i)
    ensures 1 <= i < |ramp.points| && ramp.points[i - 1].0 <= t < ramp.points[i].0
    ensures Calc(ramp, t) == Lerp(ramp.points[i - 1], ramp.points[i], t)
  {
    CalcCases(ramp, t);
  }

  lemma LerpScale(p0: Point, p1: Point, v: real, t: real)
    requires p1.0 != p0.0
    ensures Lerp((p0.0, p0.1 * v), (p1.0, p1.1 * v), t) == v * Lerp(p0, p1, t)
  {
    var d, x := p1.0 - p0.0, t - p0.0;
    var q := (p1.1 - p0.1) / d;
    assert q * d == p1.1 - p0.1;
    assert (v * q) * d == p1.1 * v - p0.1 * v;
    assert (p1.1 * v - p0.1 * v) / d == v * q;
  }

  lemma {:induction false} AboveSameTemperatures(ps: seq<Point>, qs: seq<Point>, t: real, i: nat)
    requires 1 <= i <= |ps| == |qs|
    requires forall k :: 0 <= k < |ps| ==> ps[k].0 == qs[k].0
    ensures Above(ps, t, i) == Above(qs, t, i)
    decreases |ps| - i
  {
    if i < |ps| {
      AboveSameTemperatures(ps, qs, t, i + 1);
    }
  }

  /** `impl From<f32> for Ramp`: the single point (20, v). */
  function FromValue(v: real): (r: Ramp)
    ensures |r.points| == 1
    ensures forall t :: Calc(r, t) == v
  {
    Ramp([(20.0, v)])
  }

  // ---------------------------------------------------------------- RAMP lines

  datatype LineState = LineState(id: Option<string>, t: Option<real>, f: Option<real>)

  /** A property that does not make the line fail: `T` and `F` must parse. */
  predicate LineOk(p: Property, parse: ParseReal) {
    (p.key == "T" || p.key == "F") ==> parse(p.value).Some?
  }

  /** What the scan has gathered after reading `props`: the last ID, T and F. */
  function LineSummary(props: seq<Property>, parse: ParseReal): LineState {
    LineState(LastValue(props, "ID"), LastReal(props, "T", parse), LastReal(props, "F", parse))
  }

  function LineStep(s: LineState, p: Property, parse: ParseReal): Result<LineState> {
    match p.key
    case "T" =>
      (match parse(p.value)
       case None => Err("Failed to parse \"" + p.value + "\" to float.")
       case Some(v) => Ok(s.(t := Some(v))))
    case "F" =>
      (match parse(p.value)
       case None => Err("Failed to parse \"" + p.value + "\" to float.")
       case Some(v) => Ok(s.(f := Some(v))))
    case "ID" => Ok(s.(id := Some(p.value)))
    case _ => Ok(s)
  }

  lemma LineStepSummary(props: seq<Property>, parse: ParseReal, i: nat, s: LineState)
    requires i < |props|
    requires s == LineSummary(props[..i], parse)
    ensures LineStep(s, props[i], parse).Ok? <==> LineOk(props[i], parse)
    ensures LineStep(s, props[i], parse).Ok? ==> LineStep(s, props[i], parse).value == LineSummary(props[..i + 1], parse)
  {
    var p := props[i];
    var s' := LineSummary(props[..i + 1], parse);
    LineStepOk(s, p, parse);
    LastValueExtend(props, "ID", i);
    LastValueExtend(props, "T", i);
    LastValueExtend(props, "F", i);
    assert s'.id == if p.key == "ID" then Some(p.value) else s.id;
    assert s'.t == if p.key == "T" then parse(p.value) else s.t;
    assert s'.f == if p.key == "F" then parse(p.value) else s.f;
    LineCases(s, s', p, parse);
  }

  lemma LineStepOk(s: LineState, p: Property, parse: ParseReal)
    ensures LineStep(s, p, parse).Ok? <==> LineOk(p, parse)
  {
  }

  lemma LineCases(s: LineState, s': LineState, p: Property, parse: ParseReal)
    requires s'.id == if p.key == "ID" then Some(p.value) else s.id
    requires s'.t == if p.key == "T" then parse(p.value) else s.t
    requires s'.f == if p.key == "F" then parse(p.value) else s.f
    ensures LineStep(s, p, parse).Ok? ==> LineStep(s, p, parse).value == s'
  {
  }

  /** The loop's step, its state after a prefix and the properties it
      accepts, as the arguments of `Properties.Scan`. */
  function LineStepper(parse: ParseReal): (LineState, Property) -> Result<LineState> {
    (s: LineState, p: Property) => LineStep(s, p, parse)
  }

  function LineSummarize(parse: ParseReal): seq<Property> -> LineState {
    (ps: seq<Property>) => LineSummary(ps, parse)
  }

  function LineAccepts(parse: ParseReal): Property -> bool {
    (p: Property) => LineOk(p, parse)
  }

  /** The property loop of src/fds/ramp.rs:101-120 keeps, after every
      prefix, the last `ID`, `T` and `F` in that prefix. */
  lemma LineScanFollows(props: seq<Property>, parse: ParseReal)
    ensures StepFollows(props, LineStepper(parse), LineSummarize(parse), LineAccepts(parse))
  {
    forall j | 0 <= j < |props| {
      LineStepSummary(props, parse, j, LineSummary(props[..j], parse));
    }
  }

  /** `try_ramp_line_from_properties`: a repeated key takes its last value;
      an unparsable T or F, or a missing ID, T or F, is an error. */
  function TryRampLine(props: seq<Property>, parse: ParseReal): (r: Result<(string, real, real)>)
    ensures r.Ok? <==> (forall j :: 0 <= j < |props| ==> LineOk(props[j], parse))
                       && LastValue(props, "ID").Some?
                       && LastValue(props, "T").Some? && LastValue(props, "F").Some?
    ensures r.Ok? ==> r.value.0 == LastValue(props, "ID").value
                      && Some(r.value.1) == parse(LastValue(props, "T").value)
                      && Some(r.value.2) == parse(LastValue(props, "F").value)
  {
    LineScanFollows(props, parse);
    var s :- Properties.Scan(props, LineStepper(parse), LineSummarize(parse), LineAccepts(parse),
                             0, LineState(None, None, None));
    if s.id.None? || s.t.None? || s.f.None? then
      Err("On or more properties are missing.")
    else
      Ok((s.id.value, s.t.value, s.f.value))
  }

  // ---------------------------------------------------------------- RampList

  type RampList = seq<(string, Ramp)>

  /** Every breakpoint of the list, entry by entry, in order. */
  function AllPoints(list: RampList): seq<Point>
  {
    if |list| == 0 then [] else AllPoints(list[..|list| - 1]) + list[|list| - 1].1.points
  }

  /** Entries are non-empty and consecutive entries carry different IDs. */
  predicate Grouped(list: RampList) {
    (forall k :: 0 <= k < |list| ==> |list[k].1.points| > 0)
    && (forall k :: 0 < k < |list| ==> list[k - 1].0 != list[k].0)
  }

  /** The append step of `try_add_from_properties`: a line with the last
      entry's ID extends that entry, any other ID starts a new entry. */
  function AddLine(list: RampList, id: string, p: Point): (r: RampList)
    ensures |list| > 0 && list[|list| - 1].0 == id <==> |r| == |list|
    ensures |list| == 0 || list[|list| - 1].0 != id <==> |r| == |list| + 1
    ensures r[|r| - 1].0 == id
    ensures r[..|r| - 1] == list[..|r| - 1]
  {
    if |list| > 0 && list[|list| - 1].0 == id then
      var last := list[|list| - 1];
      var r := list[..|list| - 1] + [(id, Ramp(last.1.points + [p]))];
      assert r[..|r| - 1] == list[..|list| - 1];
      r
    else
      var r := list + [(id, Ramp([p]))];
      assert r[..|r| - 1] == list;
      r
  }

  /** Adding a line appends its breakpoint to the flattened list and keeps
      the list grouped. */
  lemma AddLineKeeps(list: RampList, id: string, p: Point)
    ensures AllPoints(AddLine(list, id, p)) == AllPoints(list) + [p]
    ensures Grouped(list) ==> Grouped(AddLine(list, id, p))
  {
    var r := AddLine(list, id, p);
    if |list| > 0 && list[|list| - 1].0 == id {
      var init := list[..|list| - 1];
      assert r[..|r| - 1] == init;
      assert list[..|list| - 1] == init;
      assert AllPoints(list) == AllPoints(init) + list[|list| - 1].1.points;
    } else {
      assert r[..|r| - 1] == list;
    }
  }

  /** `RampList::try_add_from_properties`. */
  function TryAdd(list: RampList, props: seq<Property>, parse: ParseReal): (r: Result<RampList>)
    ensures r.Ok? <==> TryRampLine(props, parse).Ok?
    ensures r.Ok? ==> r.value == AddLine(list, TryRampLine(props, parse).value.0,
                                          (TryRampLine(props, parse).value.1, TryRampLine(props, parse).value.2))
  {
    var line :- TryRampLine(props, parse);
    Ok(AddLine(list, line.0, (line.1, line.2)))
  }

  /** The list built from a sequence of already-read lines, in order. */
  function Build(lines: seq<(string, Point)>): (r: RampList)
  {
    if |lines| == 0 then []
    else AddLine(Build(lines[..|lines| - 1]), lines[|lines| - 1].0, lines[|lines| - 1].1)
  }

  /** The breakpoints of a sequence of lines, in order. */
  function LinePoints(lines: seq<(string, Point)>): (r: seq<Point>)
    ensures |r| == |lines|
    ensures forall k :: 0 <= k < |lines| ==> r[k] == lines[k].1
  {
    if |lines| == 0 then [] else LinePoints(lines[..|lines| - 1]) + [lines[|lines| - 1].1]
  }

  /** Building keeps every breakpoint in input order and groups runs of equal IDs. */
  lemma {:induction false} BuildGroups(lines: seq<(string, Point)>)
    ensures Grouped(Build(lines))
    ensures AllPoints(Build(lines)) == LinePoints(lines)
  {
    if |lines| > 0 {
      BuildGroups(lines[..|lines| - 1]);
      AddLineKeeps(Build(lines[..|lines| - 1]), lines[|lines| - 1].0, lines[|lines| - 1].1);
    }
  }

  /** `RampList::find`: the ramp of the first entry with that ID. */
  function Find(list: RampList, id: string): (r: Option<Ramp>)
    ensures r.None? <==> forall k :: 0 <= k < |list| ==> list[k].0 != id
    ensures r.Some? ==> exists k :: 0 <= k < |list| && list[k].0 == id && list[k].1 == r.value
                                    && forall j :: 0 <= j < k ==> list[j].0 != id
  {
    match Lists.FindIndex(list, (e: (string, Ramp)) => e.0, id)
    case None => None
    case Some(k) => Some(list[k].1)
  }
}
