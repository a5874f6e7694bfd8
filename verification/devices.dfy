/** Column selection from FDS's device CSV output (src/fds/device.rs):
    the header picks one column per requested device, and every later row is
    projected onto those columns. The file is given as its lines. */
module Devices {
  import opened Wrappers
  import opened Properties
  import Text
  import Lists

  /** Header cells: split at commas, double quotes removed. */
  function HeaderColumns(line: string): (r: seq<string>)
    ensures |r| >= 1
    ensures forall k :: 0 <= k < |r| ==> '"' !in r[k]
  {
    Lists.Map(Text.Split(line, ','), (s: string) => Text.RemoveChar(s, '"'))
  }

  /** The last column whose header equals `name`. */
  function LastColumn(cols: seq<string>, name: string): (r: Option<nat>)
    ensures r.None? <==> forall i :: 0 <= i < |cols| ==> cols[i] != name
    ensures r.Some? ==> r.value < |cols| && cols[r.value] == name
                        && forall i :: r.value < i < |cols| ==> cols[i] != name
  {
    if |cols| == 0 then None
    else if cols[|cols| - 1] == name then Some(|cols| - 1)
    else LastColumn(cols[..|cols| - 1], name)
  }

  /** The header of the file: its second line, or no column at all. */
  function Header(lines: seq<string>): seq<string> {
    if |lines| >= 2 then HeaderColumns(lines[1]) else []
  }

  /** `Devices::try_new` over the file's lines: the first line is skipped,
      every header column is compared with every requested device and the
      last match wins; any device left without a column is an error. */
  method TryNew(lines: seq<string>, devices: seq<string>) returns (r: Result<seq<nat>>)
    ensures r.Ok? <==> forall j :: 0 <= j < |devices| ==> LastColumn(Header(lines), devices[j]).Some?
    ensures r.Ok? ==> |r.value| == |devices|
                      && forall j :: 0 <= j < |devices| ==> Some(r.value[j]) == LastColumn(Header(lines), devices[j])
  {
    var cols := Header(lines);
    var indexes: seq<Option<nat>> := seq(|devices|, _ => None);
    var i := 0;
    while i < |cols|
      invariant 0 <= i <= |cols|
      invariant |indexes| == |devices|
      invariant forall j :: 0 <= j < |devices| ==> indexes[j] == LastColumn(cols[..i], devices[j])
    {
      indexes := MarkColumn(indexes, devices, cols[i], i);
      forall j | 0 <= j < |devices|
        ensures indexes[j] == LastColumn(cols[..i + 1], devices[j])
      {
        LastColumnSnoc(cols, i, devices[j]);
      }
      i := i + 1;
    }
    assert cols[..i] == cols;
    r := Collect(indexes);
  }

  /** The inner loop of `try_new`: column i is recorded for every device
      named `col`. */
  method MarkColumn(indexes: seq<Option<nat>>, devices: seq<string>, col: string, i: nat)
    returns (next: seq<Option<nat>>)
    requires |indexes| == |devices|
    ensures |next| == |devices|
    ensures forall l :: 0 <= l < |devices| ==> next[l] == if devices[l] == col then Some(i) else indexes[l]
  {
    next := indexes;
    var j := 0;
    while j < |devices|
      invariant 0 <= j <= |devices|
      invariant |next| == |devices|
      invariant forall l :: 0 <= l < j ==> next[l] == if devices[l] == col then Some(i) else indexes[l]
      invariant forall l :: j <= l < |devices| ==> next[l] == indexes[l]
    {
      if devices[j] == col {
        next := next[j := Some(i)];
      }
      j := j + 1;
    }
  }

  /** One more header column: it wins if it matches. */
  lemma LastColumnSnoc(cols: seq<string>, i: nat, name: string)
    requires i < |cols|
    ensures LastColumn(cols[..i + 1], name) == if cols[i] == name then Some(i) else LastColumn(cols[..i], name)
  {
    assert cols[..i + 1][..i] == cols[..i];
  }

  /** Every device must have been found; the columns in request order. */
  method Collect(indexes: seq<Option<nat>>) returns (r: Result<seq<nat>>)
    ensures r.Ok? <==> forall j :: 0 <= j < |indexes| ==> indexes[j].Some?
    ensures r.Ok? ==> |r.value| == |indexes| && forall j :: 0 <= j < |indexes| ==> Some(r.value[j]) == indexes[j]
  {
    var found: seq<nat> := [];
    var k := 0;
    while k < |indexes|
      invariant 0 <= k <= |indexes|
      invariant |found| == k
      invariant forall l :: 0 <= l < k ==> indexes[l] == Some(found[l])
    {
      if indexes[k].None? {
        return Err("On or multiple devices are missing.");
      }
      found := found + [indexes[k].value];
      k := k + 1;
    }
    return Ok(found);
  }

  /** One step of the `Devices` iterator: `None` at the end of the file,
      otherwise the selected cells parsed in request order, or an error for
      the first that is not a number. A selected column beyond the row's end
      panics in the source. */
  function Next(indexes: seq<nat>, rest: seq<string>, parse: ParseReal): (r: Option<Result<seq<real>>>)
    requires |rest| > 0 ==> forall j :: 0 <= j < |indexes| ==> indexes[j] < |Text.TrimmedFields(rest[0], ',')|
    ensures r.None? <==> |rest| == 0
    ensures r.Some? ==> var cells := Text.TrimmedFields(rest[0], ',');
                        (r.value.Ok? <==> forall j :: 0 <= j < |indexes| ==> parse(cells[indexes[j]]).Some?)
                        && (r.value.Ok? ==> |r.value.value| == |indexes|
                                            && forall j :: 0 <= j < |indexes| ==> Some(r.value.value[j]) == parse(cells[indexes[j]]))
  {
    if |rest| == 0 then None
    else Some(Project(Text.TrimmedFields(rest[0], ','), indexes, parse))
  }

  function Project(cells: seq<string>, indexes: seq<nat>, parse: ParseReal): (r: Result<seq<real>>)
    requires forall j :: 0 <= j < |indexes| ==> indexes[j] < |cells|
    ensures r.Ok? <==> forall j :: 0 <= j < |indexes| ==> parse(cells[indexes[j]]).Some?
    ensures r.Ok? ==> |r.value| == |indexes|
                      && forall j :: 0 <= j < |indexes| ==> Some(r.value[j]) == parse(cells[indexes[j]])
  {
    if |indexes| == 0 then Ok([])
    else
      match parse(cells[indexes[0]])
      case None => Err("Failed to parse device value.")
      case Some(v) =>
        var rest :- Project(cells, indexes[1..], parse);
        Ok([v] + rest)
  }
}
