/** Materials read from `&MATL` property lists (src/fds/material.rs). */
module Materials {
  import opened Wrappers
  import opened Properties
  import opened Ramps
  import Lists

  datatype Material = Material(specificHeat: Ramp, conductivity: Ramp, density: real, emissivity: real)

  type MaterialList = seq<(string, Material)>

  /** Both ramps of a material are evaluated somewhere; evaluating an empty
      ramp panics in the source (src/fds/ramp.rs:12). */
  predicate Evaluable(m: Material) {
    |m.specificHeat.points| > 0 && |m.conductivity.points| > 0
  }

  /** FDS gives specific heat in kJ/(kg·K); the solver works in J/(kg·K). */
  const SpecificHeatScale: real := 1000.0

  predicate IsSpecificHeat(p: Property) {
    p.key == "SPECIFIC_HEAT_RAMP" || p.key == "SPECIFIC_HEAT"
  }

  predicate IsConductivity(p: Property) {
    p.key == "CONDUCTIVITY_RAMP" || p.key == "CONDUCTIVITY"
  }

  /** The specific heat one property denotes: a named ramp or a constant, times 1000. */
  function SpecificHeatOf(p: Property, ramps: RampList, parse: ParseReal): Option<Ramp> {
    if p.key == "SPECIFIC_HEAT_RAMP" then
      match Find(ramps, p.value)
      case None => None
      case Some(r) => Some(Multiply(r, SpecificHeatScale))
    else
      match parse(p.value)
      case None => None
      case Some(v) => Some(FromValue(v * SpecificHeatScale))
  }

  /** The conductivity one property denotes: a named ramp or a constant, unscaled. */
  function ConductivityOf(p: Property, ramps: RampList, parse: ParseReal): Option<Ramp> {
    if p.key == "CONDUCTIVITY_RAMP" then Find(ramps, p.value)
    else
      match parse(p.value)
      case None => None
      case Some(v) => Some(FromValue(v))
  }

  /** A property that does not abort the read: referenced ramps exist, numbers parse. */
  predicate PropertyOk(p: Property, ramps: RampList, parse: ParseReal) {
    && ((p.key == "SPECIFIC_HEAT_RAMP" || p.key == "CONDUCTIVITY_RAMP") ==> Find(ramps, p.value).Some?)
    && ((p.key == "SPECIFIC_HEAT" || p.key == "CONDUCTIVITY" || p.key == "DENSITY" || p.key == "EMISSIVITY")
        ==> parse(p.value).Some?)
  }

  datatype State = State(id: Option<string>, specificHeat: Option<Ramp>, conductivity: Option<Ramp>,
                         density: Option<real>, emissivity: Option<real>)

  /** The specific heat of the last property that sets one. */
  function LastSpecificHeat(props: seq<Property>, ramps: RampList, parse: ParseReal): Option<Ramp> {
    match LastOf(props, IsSpecificHeat)
    case None => None
    case Some(p) => SpecificHeatOf(p, ramps, parse)
  }

  /** The conductivity of the last property that sets one. */
  function LastConductivity(props: seq<Property>, ramps: RampList, parse: ParseReal): Option<Ramp> {
    match LastOf(props, IsConductivity)
    case None => None
    case Some(p) => ConductivityOf(p, ramps, parse)
  }

  /** What the scan has gathered after reading `props`: every field from its last setter. */
  function Summary(props: seq<Property>, ramps: RampList, parse: ParseReal): State {
    State(LastValue(props, "ID"),
          LastSpecificHeat(props, ramps, parse),
          LastConductivity(props, ramps, parse),
          LastReal(props, "DENSITY", parse),
          LastReal(props, "EMISSIVITY", parse))
  }

  /** When every property reads, a field is missing only when nothing sets it. */
  lemma SummaryComplete(props: seq<Property>, ramps: RampList, parse: ParseReal)
    requires forall j :: 0 <= j < |props| ==> PropertyOk(props[j], ramps, parse)
    ensures LastSpecificHeat(props, ramps, parse).Some? <==> LastOf(props, IsSpecificHeat).Some?
    ensures LastConductivity(props, ramps, parse).Some? <==> LastOf(props, IsConductivity).Some?
    ensures LastReal(props, "DENSITY", parse).Some? <==> LastValue(props, "DENSITY").Some?
    ensures LastReal(props, "EMISSIVITY", parse).Some? <==> LastValue(props, "EMISSIVITY").Some?
  {
    SpecificHeatComplete(props, ramps, parse);
    ConductivityComplete(props, ramps, parse);
    LastRealComplete(props, "DENSITY", ramps, parse);
    LastRealComplete(props, "EMISSIVITY", ramps, parse);
  }

  lemma SpecificHeatComplete(props: seq<Property>, ramps: RampList, parse: ParseReal)
    requires forall j :: 0 <= j < |props| ==> PropertyOk(props[j], ramps, parse)
    ensures LastSpecificHeat(props, ramps, parse).Some? <==> LastOf(props, IsSpecificHeat).Some?
  {
    var last := LastOf(props, IsSpecificHeat);
    if last.Some? {
      var j :| 0 <= j < |props| && props[j] == last.value && IsSpecificHeat(last.value);
      SpecificHeatOk(last.value, ramps, parse);
    }
  }

  lemma SpecificHeatOk(p: Property, ramps: RampList, parse: ParseReal)
    requires IsSpecificHeat(p) && PropertyOk(p, ramps, parse)
    ensures SpecificHeatOf(p, ramps, parse).Some?
  {
  }

  lemma ConductivityComplete(props: seq<Property>, ramps: RampList, parse: ParseReal)
    requires forall j :: 0 <= j < |props| ==> PropertyOk(props[j], ramps, parse)
    ensures LastConductivity(props, ramps, parse).Some? <==> LastOf(props, IsConductivity).Some?
  {
    var last := LastOf(props, IsConductivity);
    if last.Some? {
      var j :| 0 <= j < |props| && props[j] == last.value && IsConductivity(last.value);
      ConductivityOk(last.value, ramps, parse);
    }
  }

  lemma ConductivityOk(p: Property, ramps: RampList, parse: ParseReal)
    requires IsConductivity(p) && PropertyOk(p, ramps, parse)
    ensures ConductivityOf(p, ramps, parse).Some?
  {
  }

  lemma LastRealComplete(props: seq<Property>, key: string, ramps: RampList, parse: ParseReal)
    requires key == "DENSITY" || key == "EMISSIVITY"
    requires forall j :: 0 <= j < |props| ==> PropertyOk(props[j], ramps, parse)
    ensures LastReal(props, key, parse).Some? <==> LastValue(props, key).Some?
  {
    var last := LastOf(props, HasKey(key));
    if last.Some? {
      var j :| 0 <= j < |props| && props[j] == last.value && HasKey(key)(last.value);
      assert PropertyOk(last.value, ramps, parse);
    }
  }

  function ParseError(v: string): string {
    "Failed to parse \"" + v + "\" to float."
  }

  function RampError(v: string): string {
    "Could not find RAMP wit ID = \"" + v + "\""
  }

  /** One iteration of the property loop (src/fds/material.rs:82-132). */
  function Step(s: State, p: Property, ramps: RampList, parse: ParseReal): Result<State> {
    match p.key
    case "ID" => Ok(s.(id := Some(p.value)))
    case "SPECIFIC_HEAT_RAMP" =>
      (match Find(ramps, p.value)
       case None => Err(RampError(p.value))
       case Some(r) => Ok(s.(specificHeat := Some(Multiply(r, SpecificHeatScale)))))
    case "SPECIFIC_HEAT" =>
      (match parse(p.value)
       case None => Err(ParseError(p.value))
       case Some(v) => Ok(s.(specificHeat := Some(FromValue(v * SpecificHeatScale)))))
    case "CONDUCTIVITY_RAMP" =>
      (match Find(ramps, p.value)
       case None => Err(RampError(p.value))
       case Some(r) => Ok(s.(conductivity := Some(r))))
    case "CONDUCTIVITY" =>
      (match parse(p.value)
       case None => Err(ParseError(p.value))
       case Some(v) => Ok(s.(conductivity := Some(FromValue(v)))))
    case "DENSITY" =>
      (match parse(p.value)
       case None => Err(ParseError(p.value))
       case Some(v) => Ok(s.(density := Some(v))))
    case "EMISSIVITY" =>
      (match parse(p.value)
       case None => Err(ParseError(p.value))
       case Some(v) => Ok(s.(emissivity := Some(v))))
    case _ => Ok(s)
  }

  lemma StepSummary(props: seq<Property>, ramps: RampList, parse: ParseReal, i: nat, s: State)
    requires i < |props|
    requires s == Summary(props[..i], ramps, parse)
    ensures Step(s, props[i], ramps, parse).Ok? <==> PropertyOk(props[i], ramps, parse)
    ensures Step(s, props[i], ramps, parse).Ok? ==> Step(s, props[i], ramps, parse).value == Summary(props[..i + 1], ramps, parse)
  {
    var p := props[i];
    var s' := Summary(props[..i + 1], ramps, parse);
    StepOk(s, p, ramps, parse);
    LastValueExtend(props, "ID", i);
    LastValueExtend(props, "DENSITY", i);
    LastValueExtend(props, "EMISSIVITY", i);
    LastOfExtend(props, IsSpecificHeat, i);
    LastOfExtend(props, IsConductivity, i);
    assert s'.id == if p.key == "ID" then Some(p.value) else s.id;
    assert s'.density == if p.key == "DENSITY" then parse(p.value) else s.density;
    assert s'.emissivity == if p.key == "EMISSIVITY" then parse(p.value) else s.emissivity;
    assert s'.specificHeat == if IsSpecificHeat(p) then SpecificHeatOf(p, ramps, parse) else s.specificHeat;
    assert s'.conductivity == if IsConductivity(p) then ConductivityOf(p, ramps, parse) else s.conductivity;
    StepCases(s, s', p, ramps, parse);
  }

  lemma StepCases(s: State, s': State, p: Property, ramps: RampList, parse: ParseReal)
    requires s'.id == if p.key == "ID" then Some(p.value) else s.id
    requires s'.density == if p.key == "DENSITY" then parse(p.value) else s.density
    requires s'.emissivity == if p.key == "EMISSIVITY" then parse(p.value) else s.emissivity
    requires s'.specificHeat == if IsSpecificHeat(p) then SpecificHeatOf(p, ramps, parse) else s.specificHeat
    requires s'.conductivity == if IsConductivity(p) then ConductivityOf(p, ramps, parse) else s.conductivity
    ensures Step(s, p, ramps, parse).Ok? ==> Step(s, p, ramps, parse).value == s'
  {
  }

  lemma StepOk(s: State, p: Property, ramps: RampList, parse: ParseReal)
    ensures Step(s, p, ramps, parse).Ok? <==> PropertyOk(p, ramps, parse)
  {
  }

  /** The loop's step, its state after a prefix and the properties it
      accepts, as the arguments of `Properties.Scan`. */
  function Stepper(ramps: RampList, parse: ParseReal): (State, Property) -> Result<State> {
    (s: State, p: Property) => Step(s, p, ramps, parse)
  }

  function Summarize(ramps: RampList, parse: ParseReal): seq<Property> -> State {
    (ps: seq<Property>) => Summary(ps, ramps, parse)
  }

  function Accepts(ramps: RampList, parse: ParseReal): Property -> bool {
    (p: Property) => PropertyOk(p, ramps, parse)
  }

  /** The property loop of src/fds/material.rs:82-132 keeps, after every
      prefix, each field's last setter in that prefix. */
  lemma ScanFollows(props: seq<Property>, ramps: RampList, parse: ParseReal)
    ensures StepFollows(props, Stepper(ramps, parse), Summarize(ramps, parse), Accepts(ramps, parse))
  {
    forall j | 0 <= j < |props| {
      StepSummary(props, ramps, parse, j, Summary(props[..j], ramps, parse));
    }
  }

  /** `try_material_from_properties`: every field takes its last setter; a
      missing field, an unknown ramp or an unparsable number is an error. */
  function TryMaterial(props: seq<Property>, ramps: RampList, parse: ParseReal): (r: Result<(string, Material)>)
    ensures r.Ok? <==> (forall j :: 0 <= j < |props| ==> PropertyOk(props[j], ramps, parse))
                       && LastValue(props, "ID").Some?
                       && LastOf(props, IsSpecificHeat).Some? && LastOf(props, IsConductivity).Some?
                       && LastValue(props, "DENSITY").Some? && LastValue(props, "EMISSIVITY").Some?
    ensures r.Ok? ==> && r.value.0 == LastValue(props, "ID").value
                      && Some(r.value.1.specificHeat) == SpecificHeatOf(LastOf(props, IsSpecificHeat).value, ramps, parse)
                      && Some(r.value.1.conductivity) == ConductivityOf(LastOf(props, IsConductivity).value, ramps, parse)
                      && Some(r.value.1.density) == parse(LastValue(props, "DENSITY").value)
                      && Some(r.value.1.emissivity) == parse(LastValue(props, "EMISSIVITY").value)
  {
    ScanFollows(props, ramps, parse);
    var s :- Properties.Scan(props, Stepper(ramps, parse), Summarize(ramps, parse), Accepts(ramps, parse),
                             0, State(None, None, None, None, None));
    SummaryComplete(props, ramps, parse);
    if s.id.None? || s.specificHeat.None? || s.conductivity.None? || s.density.None? || s.emissivity.None? then
      Err("On or more properties are missing.")
    else
      Ok((s.id.value, Material(s.specificHeat.value, s.conductivity.value, s.density.value, s.emissivity.value)))
  }

  /** Whichever form it came in, the stored specific heat is 1000 times the
      value given, at every temperature. */
  lemma SpecificHeatScaled(p: Property, ramps: RampList, parse: ParseReal, t: real)
    requires IsSpecificHeat(p) && SpecificHeatOf(p, ramps, parse).Some?
    ensures p.key == "SPECIFIC_HEAT_RAMP" ==>
              |Find(ramps, p.value).value.points| > 0 ==>
              Calc(SpecificHeatOf(p, ramps, parse).value, t) == SpecificHeatScale * Calc(Find(ramps, p.value).value, t)
    ensures p.key == "SPECIFIC_HEAT" ==>
              Calc(SpecificHeatOf(p, ramps, parse).value, t) == SpecificHeatScale * parse(p.value).value
  {
    if p.key == "SPECIFIC_HEAT_RAMP" && |Find(ramps, p.value).value.points| > 0 {
      CalcMultiply(Find(ramps, p.value).value, SpecificHeatScale, t);
    }
  }

  /** Conductivity is stored as given: the named ramp itself, or the constant. */
  lemma ConductivityUnscaled(p: Property, ramps: RampList, parse: ParseReal, t: real)
    requires IsConductivity(p) && ConductivityOf(p, ramps, parse).Some?
    ensures p.key == "CONDUCTIVITY_RAMP" ==> ConductivityOf(p, ramps, parse) == Find(ramps, p.value)
    ensures p.key == "CONDUCTIVITY" ==> Calc(ConductivityOf(p, ramps, parse).value, t) == parse(p.value).value
  {
  }

  /** `MaterialList::try_add_from_properties`: a readable material is
      appended under its ID; otherwise the list is left as it was and the
      error is returned. */
  function TryAdd(list: MaterialList, props: seq<Property>, ramps: RampList, parse: ParseReal): (r: Result<MaterialList>)
    ensures r.Ok? <==> TryMaterial(props, ramps, parse).Ok?
    ensures r.Ok? ==> |r.value| == |list| + 1 && r.value[..|list|] == list
                      && r.value[|list|] == TryMaterial(props, ramps, parse).value
  {
    var entry :- TryMaterial(props, ramps, parse);
    Ok(list + [entry])
  }

  /** Appending keeps every earlier lookup: a name already present is still
      found at its old index, and a new name is found at the new entry. */
  lemma TryAddFinds(list: MaterialList, props: seq<Property>, ramps: RampList, parse: ParseReal, id: string)
    requires TryAdd(list, props, ramps, parse).Ok?
    ensures var r := TryAdd(list, props, ramps, parse).value;
            && (FindIndex(list, id).Some? ==> FindIndex(r, id) == FindIndex(list, id))
            && (FindIndex(list, id).None? && id == LastValue(props, "ID").value ==> FindIndex(r, id) == Some(|list|))
            && IntoMaterials(r) == IntoMaterials(list) + [r[|list|].1]
  {
    var r := TryAdd(list, props, ramps, parse).value;
    assert r == list + [r[|list|]];
    AppendFinds(list, r[|list|], id);
  }

  lemma AppendFinds(list: MaterialList, e: (string, Material), id: string)
    ensures FindIndex(list, id).Some? ==> FindIndex(list + [e], id) == FindIndex(list, id)
    ensures FindIndex(list, id).None? && id == e.0 ==> FindIndex(list + [e], id) == Some(|list|)
    ensures IntoMaterials(list + [e]) == IntoMaterials(list) + [e.1]
  {
    var r := list + [e];
    if FindIndex(list, id).Some? {
      var k := FindIndex(list, id).value;
      assert r[k].0 == id;
    }
    if FindIndex(list, id).None? && id == e.0 {
      assert r[|list|].0 == id;
    }
    assert IntoMaterials(r) == IntoMaterials(list) + [e.1];
  }

  /** `MaterialList::find_index`: the first entry with that name. */
  function FindIndex(list: MaterialList, id: string): (r: Option<nat>)
    ensures r.Some? ==> r.value < |list| && list[r.value].0 == id
                        && forall j :: 0 <= j < r.value ==> list[j].0 != id
    ensures r.None? <==> forall j :: 0 <= j < |list| ==> list[j].0 != id
  {
    Lists.FindIndex(list, (e: (string, Material)) => e.0, id)
  }

  /** `MaterialList::into_materials`: drops the names, keeps the order. */
  function IntoMaterials(list: MaterialList): (r: seq<Material>)
    ensures |r| == |list|
    ensures forall k :: 0 <= k < |list| ==> r[k] == list[k].1
  {
    Lists.Map(list, (e: (string, Material)) => e.1)
  }
}
