/** The FDS speed test (src/fds/benchmark.rs): each rerun's wall times are
    read from column 7 of FDS's CPU report, sorted, and reduced to their
    median, which is what the benchmark file records. Running FDS, reading
    the report file and writing the benchmark file are not modelled; the
    float parser is a parameter. */
module FdsBenchmark {
  import opened Wrappers
  import Text
  import FdsRuns
  import SimBenchmark
  import Simulations

  /** The prefix of the benchmark path: whether FDS ran on one core. */
  function CoreLabel(cores: nat): (r: string)
    ensures r == "single_core" <==> cores == 1
  {
    if cores == 1 then "single_core" else "multi_core"
  }

  // ---------------------------------------------------------------- the report

  /** Which column of the report holds the wall time (`nth(6)`). */
  const TimeColumn: nat := 6

  /** The trimmed time field of every data line: the header is skipped and
      a line with fewer than seven fields contributes nothing. */
  function TimeFields(lines: seq<string>): (r: seq<string>)
    ensures |lines| <= 1 ==> r == []
    ensures |r| <= |lines|
    decreases |lines|
  {
    if |lines| <= 1 then []
    else
      var rest := TimeFields(lines[..|lines| - 1]);
      var fields := Text.Split(lines[|lines| - 1], ',');
      if |fields| > TimeColumn then rest + [Text.Trim(fields[TimeColumn])] else rest
  }

  /** A data line with at least seven fields contributes its seventh
      field, and such lines alone contribute. */
  lemma {:induction false} TimeFieldsCount(lines: seq<string>)
    ensures |TimeFields(lines)| == |WideLines(lines)|
    ensures forall k :: 0 <= k < |TimeFields(lines)| ==>
              TimeFields(lines)[k] == Text.Trim(Text.Split(WideLines(lines)[k], ',')[TimeColumn])
    decreases |lines|
  {
    if |lines| > 1 {
      TimeFieldsCount(lines[..|lines| - 1]);
    }
  }

  /** The data lines (after the header) that have a seventh field. */
  function WideLines(lines: seq<string>): (r: seq<string>)
    ensures |lines| <= 1 ==> r == []
    ensures forall k :: 0 <= k < |r| ==> |Text.Split(r[k], ',')| > TimeColumn && r[k] in lines[1..]
    decreases |lines|
  {
    if |lines| <= 1 then []
    else
      var rest := WideLines(lines[..|lines| - 1]);
      assert forall x :: x in lines[..|lines| - 1][1..] ==> x in lines[1..];
      if |Text.Split(lines[|lines| - 1], ',')| > TimeColumn then rest + [lines[|lines| - 1]] else rest
  }

  /** `collect::<Result<Vec<f64>, _>>`: every field parses, or nothing does. */
  function ParseAll(fields: seq<string>, parse: string -> Option<real>): (r: Option<seq<real>>)
    ensures r.Some? <==> forall k :: 0 <= k < |fields| ==> parse(fields[k]).Some?
    ensures r.Some? ==> |r.value| == |fields| && forall k :: 0 <= k < |fields| ==> parse(fields[k]) == Some(r.value[k])
  {
    if |fields| == 0 then Some([])
    else
      match ParseAll(fields[..|fields| - 1], parse)
      case None => None
      case Some(init) =>
        match parse(fields[|fields| - 1])
        case None => None
        case Some(t) => Some(init + [t])
  }

  // ---------------------------------------------------------------- sorting

  predicate Sorted(s: seq<real>)
  {
    forall i, j :: 0 <= i < j < |s| ==> s[i] <= s[j]
  }

  /** Puts `x` before the first larger value. */
  function Insert(x: real, s: seq<real>): (r: seq<real>)
    requires Sorted(s)
    ensures Sorted(r) && multiset(r) == multiset(s) + multiset{x}
  {
    if |s| == 0 then [x]
    else if x <= s[0] then [x] + s
    else
      SortedHead(s);
      var rest := Insert(x, s[1..]);
      PrependSorted(s[0], rest);
      [s[0]] + rest
  }

  /** `sort_by(total_cmp)` on the values (no NaN among them). */
  function Sort(s: seq<real>): (r: seq<real>)
    ensures Sorted(r) && multiset(r) == multiset(s)
  {
    if |s| == 0 then []
    else
      assert s == s[..|s| - 1] + [s[|s| - 1]];
      Insert(s[|s| - 1], Sort(s[..|s| - 1]))
  }

  /** The head of a sorted sequence is its least value and its tail is
      sorted. */
  lemma SortedHead(a: seq<real>)
    requires Sorted(a) && |a| > 0
    ensures Sorted(a[1..])
    ensures forall x :: x in multiset(a) ==> a[0] <= x
    ensures multiset(a) == multiset{a[0]} + multiset(a[1..])
  {
    assert a == [a[0]] + a[1..];
  }

  lemma CancelHead(x: real, m: multiset<real>, n: multiset<real>)
    requires multiset{x} + m == multiset{x} + n
    ensures m == n
  {
    forall y ensures m[y] == n[y] {
      assert (multiset{x} + m)[y] == (multiset{x} + n)[y];
    }
  }

  /** A value no greater than any of a sorted sequence's can go first. */
  lemma PrependSorted(x: real, r: seq<real>)
    requires Sorted(r) && forall y :: y in multiset(r) ==> x <= y
    ensures Sorted([x] + r)
  {
    forall k | 0 <= k < |r| ensures x <= r[k] {
      assert r[k] in multiset(r);
    }
  }

  /** Two sorted sequences with the same values are the same sequence. */
  lemma {:induction false} SortedUnique(a: seq<real>, b: seq<real>)
    requires Sorted(a) && Sorted(b) && multiset(a) == multiset(b)
    ensures a == b
    decreases |a|
  {
    assert |a| == |multiset(a)| == |b|;
    if |a| > 0 {
      SortedHead(a);
      SortedHead(b);
      assert b[0] in multiset(b) && a[0] in multiset(a);
      assert a[0] == b[0];
      CancelHead(a[0], multiset(a[1..]), multiset(b[1..]));
      SortedUnique(a[1..], b[1..]);
      assert a == [a[0]] + a[1..] && b == [b[0]] + b[1..];
    }
  }

  // ---------------------------------------------------------------- the median

  /** The reduction of the sorted times: the middle value, or the mean of
      the two middle values. An empty list makes the source index out of
      range, so it is required away. */
  function Median(t: seq<real>): real
    requires |t| > 0
  {
    if |t| % 2 == 0 then (t[|t| / 2 - 1] + t[|t| / 2]) / 2.0 else t[|t| / 2]
  }

  /** The median of sorted values lies between the least and the greatest;
      every value below it is in the lower half and every value above it
      in the upper half. */
  lemma MedianSplits(t: seq<real>)
    requires |t| > 0 && Sorted(t)
    ensures t[0] <= Median(t) <= t[|t| - 1]
    ensures forall i :: 0 <= i < |t| && t[i] < Median(t) ==> i < |t| / 2
    ensures forall i :: 0 <= i < |t| && t[i] > Median(t) ==> i >= |t| - |t| / 2
  {
  }

  /** The time recorded for one list of values, whatever their order. */
  function MedianTime(times: seq<real>): real
    requires |times| > 0
  {
    Median(Sort(times))
  }

  /** The recorded time depends only on the values, not on the order of
      the lines they came from. */
  lemma MedianOrderFree(a: seq<real>, b: seq<real>)
    requires |a| > 0 && multiset(a) == multiset(b)
    ensures |b| > 0 && MedianTime(a) == MedianTime(b)
  {
    assert |a| == |multiset(a)| == |b|;
    SortedUnique(Sort(a), Sort(b));
  }

  // ---------------------------------------------------------------- one rerun

  /** The report yields times and at least one of them, when every field
      parses; otherwise the source would index an empty list. */
  predicate ReportUsable(lines: seq<string>, parse: string -> Option<real>)
  {
    ParseAll(TimeFields(lines), parse).Some? ==> |ParseAll(TimeFields(lines), parse).value| > 0
  }

  /** One rerun of a speed-test simulation: a failed run ends the benchmark
      with an error (a passed one cannot happen: the run is unchecked); a
      successful one contributes the median of its report's times. */
  function Rerun(status: FdsRuns.Status, lines: seq<string>, parse: string -> Option<real>): (r: Result<real>)
    requires !status.Passed?
    requires status.Succeeded? ==> ReportUsable(lines, parse)
    ensures r.Ok? <==> status.Succeeded? && ParseAll(TimeFields(lines), parse).Some?
  {
    match status
    case Failed(_) => Err("Failed to run simulation.")
    case Succeeded(_) =>
      match ParseAll(TimeFields(lines), parse)
      case None => Err("A wall time could not be parsed.")
      case Some(times) => Ok(MedianTime(times))
  }

  /** A successful rerun records the median of its times, sorted: a value
      of the report between its least and greatest time. */
  lemma RerunRecordsMedian(status: FdsRuns.Status, lines: seq<string>, parse: string -> Option<real>)
    requires status.Succeeded? && ReportUsable(lines, parse)
    requires ParseAll(TimeFields(lines), parse).Some?
    ensures var times := ParseAll(TimeFields(lines), parse).value;
            var sorted := Sort(times);
            && Rerun(status, lines, parse) == Ok(Median(sorted))
            && multiset(sorted) == multiset(times)
            && sorted[0] <= Rerun(status, lines, parse).value <= sorted[|sorted| - 1]
  {
    var times := ParseAll(TimeFields(lines), parse).value;
    assert |Sort(times)| == |multiset(times)| == |times|;
    MedianSplits(Sort(times));
  }

  /** The speed test's results are filed under the core label, then the
      run's label, then `fds`. */
  lemma SpeedTestPath(cores: nat, tag: string)
    requires '/' !in tag
    ensures var path := SimBenchmark.PathStr(Some(CoreLabel(cores)), tag, Simulations.SpeedTestFds);
            path.Ok? && Text.Split(path.value, '/') == [CoreLabel(cores), tag, "fds"]
  {
    assert '/' !in CoreLabel(cores);
    SimBenchmark.PathStrSplits(Some(CoreLabel(cores)), tag, Simulations.SpeedTestFds);
  }
}
