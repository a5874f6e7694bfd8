/** The `KEY=value` pairs of one FDS namelist group (`&RAMP`, `&MATL`,
    `&SURF`) and the "last occurrence wins" reading the builders apply to them. */
module Properties {
  import opened Wrappers

  datatype Property = Property(key: string, value: string)

  /** Float parsing (`str::parse::<f32>`) is an input of the model. */
  type ParseReal = string -> Option<real>

  /** The last property selected by `sel`, if any. */
  function LastOf(props: seq<Property>, sel: Property -> bool): (r: Option<Property>)
    ensures r.None? <==> forall j :: 0 <= j < |props| ==> !sel(props[j])
    ensures r.Some? ==> exists j :: 0 <= j < |props| && props[j] == r.value && sel(r.value)
                                    && forall l :: j < l < |props| ==> !sel(props[l])
  {
    if |props| == 0 then None
    else if sel(props[|props| - 1]) then Some(props[|props| - 1])
    else LastOf(props[..|props| - 1], sel)
  }

  /** Extending a prefix by one property only changes the answer when that
      property is selected. */
  lemma LastOfExtend(props: seq<Property>, sel: Property -> bool, i: nat)
    requires i < |props|
    ensures LastOf(props[..i + 1], sel)
            == if sel(props[i]) then Some(props[i]) else LastOf(props[..i], sel)
  {
    assert props[..i + 1][..i] == props[..i];
  }

  function HasKey(key: string): Property -> bool {
    (p: Property) => p.key == key
  }

  /** The value of the last property named `key`. */
  function LastValue(props: seq<Property>, key: string): (r: Option<string>)
    ensures r.Some? <==> exists j :: 0 <= j < |props| && props[j].key == key
  {
    match LastOf(props, HasKey(key))
    case None => None
    case Some(p) => Some(p.value)
  }

  lemma LastValueExtend(props: seq<Property>, key: string, i: nat)
    requires i < |props|
    ensures LastValue(props[..i + 1], key)
            == if props[i].key == key then Some(props[i].value) else LastValue(props[..i], key)
  {
    LastOfExtend(props, HasKey(key), i);
  }

  /** The last value of `key`, parsed; `None` if the key is absent or the value does not parse. */
  function LastReal(props: seq<Property>, key: string, parse: ParseReal): Option<real>
  {
    match LastValue(props, key)
    case None => None
    case Some(v) => parse(v)
  }

  /** After every prefix of `props`, `step` accepts the next property exactly
      when `ok` does, and then yields the summary of the prefix one longer. */
  ghost predicate StepFollows<S>(props: seq<Property>, step: (S, Property) -> Result<S>,
                                 summary: seq<Property> -> S, ok: Property -> bool)
  {
    forall j :: 0 <= j < |props| ==>
      && (step(summary(props[..j]), props[j]).Ok? <==> ok(props[j]))
      && (step(summary(props[..j]), props[j]).Ok? ==>
            step(summary(props[..j]), props[j]).value == summary(props[..j + 1]))
  }

  /** The property loop shared by the `&RAMP`, `&MATL` and `&SURF` readers,
      from position `i` on: it stops at the first property `step` rejects.
      When the step follows `summary`, the loop succeeds exactly when every
      remaining property is accepted, and then holds the whole list's summary. */
  function Scan<S>(props: seq<Property>, step: (S, Property) -> Result<S>, summary: seq<Property> -> S,
                   ok: Property -> bool, i: nat, s: S): (r: Result<S>)
    requires i <= |props| && s == summary(props[..i])
    requires StepFollows(props, step, summary, ok)
    ensures r.Ok? <==> forall j :: i <= j < |props| ==> ok(props[j])
    ensures r.Ok? ==> r.value == summary(props)
    decreases |props| - i
  {
    if i == |props| then
      assert props[..i] == props;
      Ok(s)
    else
      match step(s, props[i])
      case Err(e) => Err(e)
      case Ok(s') => Scan(props, step, summary, ok, i + 1, s')
  }
}
