/** GPU method 2 (src/heat_transfer/one_dimensional/gpu_m2.rs): consecutive
    wall elements with the same cell sizes and materials share one shader,
    which has those sizes and materials compiled in; only the temperatures
    are uploaded. Only the grouping and the buffer split are modelled. */
module GpuM2 {
  import opened Wall
  import Lists
  import Dispatch

  function Sizes(e: WallElement): (r: seq<real>)
    ensures |r| == |e| && forall j :: 0 <= j < |e| ==> r[j] == e[j].size
  {
    seq(|e|, j requires 0 <= j < |e| => e[j].size)
  }

  function MaterialIds(e: WallElement): (r: seq<nat>)
    ensures |r| == |e| && forall j :: 0 <= j < |e| ==> r[j] == e[j].material
  {
    seq(|e|, j requires 0 <= j < |e| => e[j].material)
  }

  /** The cell sizes and materials that are compiled into a shader. */
  function Signature(e: WallElement): (seq<real>, seq<nat>)
  {
    (Sizes(e), MaterialIds(e))
  }

  /** The test in `ShaderChunk::build`: the element's length differs from
      the current sizes, or some cell differs in size or material. It is
      exactly a change of signature. */
  function Differs(e: WallElement, sizes: seq<real>, materials: seq<nat>): (r: bool)
    requires |sizes| == |materials|
    ensures r <==> Signature(e) != (sizes, materials)
  {
    if |sizes| != |e| then true
    else
      var d := exists j :: 0 <= j < |e| && (e[j].size != sizes[j] || e[j].material != materials[j]);
      assert !d ==> Sizes(e) == sizes && MaterialIds(e) == materials;
      d
  }

  /** The cell temperatures of consecutive elements, concatenated. */
  function AllTemperatures(es: seq<WallElement>): seq<real>
  {
    Lists.Flatten(Lists.Map(es, Temperatures))
  }

  /** One more element appends its temperatures. */
  lemma AllTemperaturesSnoc(es: seq<WallElement>, lo: nat, i: nat)
    requires lo <= i < |es|
    ensures AllTemperatures(es[lo..i + 1]) == AllTemperatures(es[lo..i]) + Temperatures(es[i])
  {
    assert Lists.Map(es[lo..i + 1], Temperatures) == Lists.Map(es[lo..i], Temperatures) + [Temperatures(es[i])];
    Lists.FlattenAppend(Lists.Map(es[lo..i], Temperatures), [Temperatures(es[i])]);
    assert Lists.Flatten([Temperatures(es[i])]) == Temperatures(es[i]) + Lists.Flatten<real>([]);
  }

  /** What `ShaderChunk::new` keeps of one run: the elements `[start, end)`,
      the sizes and materials compiled into its shader, its temperature
      buffer, the size of its coefficient and `q` buffers and its number of
      work groups. */
  datatype ShaderChunk = ShaderChunk(start: nat, end: nat, sizes: seq<real>, materials: seq<nat>,
                                     temperatures: seq<real>, pairBufferBytes: nat, groups: nat)

  function SignatureOf(s: ShaderChunk): (seq<real>, seq<nat>)
  {
    (s.sizes, s.materials)
  }

  /** `s` is a run of `elements`: non-empty, every element in it has its
      signature, and its buffers are sized for its length. */
  ghost predicate RunOf(elements: seq<WallElement>, s: ShaderChunk)
  {
    s.start < s.end <= |elements|
    && |s.sizes| == |s.materials|
    && (forall j :: s.start <= j < s.end ==> Signature(elements[j]) == SignatureOf(s))
    && s.temperatures == AllTemperatures(elements[s.start..s.end])
    && s.pairBufferBytes == PairBufferBytes(s.end - s.start)
    && s.groups == Dispatch.Groups(s.end - s.start)
  }

  /** The runs tile `[0, upTo)`: the first starts at 0, each starts where
      the previous ended, the last ends at `upTo`. */
  ghost predicate Tiles(runs: seq<ShaderChunk>, upTo: nat)
  {
    (|runs| == 0 ==> upTo == 0)
    && (|runs| > 0 ==> runs[0].start == 0 && runs[|runs| - 1].end == upTo)
    && (forall k :: 0 <= k < |runs| ==> runs[k].start < runs[k].end)
    && (forall k :: 0 <= k < |runs| - 1 ==> runs[k].end == runs[k + 1].start)
  }

  /** The runs of `elements` up to `upTo`: they tile it, each is a run, and
      neighbours have different signatures, so no run could be longer. */
  ghost predicate Runs(elements: seq<WallElement>, runs: seq<ShaderChunk>, upTo: nat)
  {
    Tiles(runs, upTo)
    && (forall k :: 0 <= k < |runs| ==> RunOf(elements, runs[k]))
    && (forall k :: 0 <= k < |runs| - 1 ==> SignatureOf(runs[k]) != SignatureOf(runs[k + 1]))
  }

  function MakeRun(elements: seq<WallElement>, start: nat, end: nat, sizes: seq<real>, materials: seq<nat>,
                   temperatures: seq<real>): ShaderChunk
    requires start <= end
  {
    ShaderChunk(start, end, sizes, materials, temperatures, PairBufferBytes(end - start), Dispatch.Groups(end - start))
  }

  /** The state of `ShaderChunk::build` after `i` elements: the closed
      runs tile `[0, start)`, the open run `[start, i)` is non-empty once an
      element was seen, shares the current signature, which differs from
      the last closed run's, and has collected its temperatures. */
  ghost predicate Scanning(elements: seq<WallElement>, runs: seq<ShaderChunk>, start: nat, i: nat,
                           sizes: seq<real>, materials: seq<nat>, temps: seq<real>)
  {
    start <= i <= |elements| && start < |elements|
    && (i > 0 ==> start < i)
    && Runs(elements, runs, start)
    && (sizes, materials) == Signature(elements[start])
    && (forall j :: start <= j < i ==> Signature(elements[j]) == (sizes, materials))
    && temps == AllTemperatures(elements[start..i])
    && (|runs| > 0 ==> SignatureOf(runs[|runs| - 1]) != (sizes, materials))
  }

  /** `ShaderChunk::build`: the first element's signature opens the first
      run; an element with a different signature closes the open run and
      opens the next; the last run is closed after the loop. Indexing the
      first element panics when there is none. No bound on the run length
      is applied. */
  method Build(elements: seq<WallElement>) returns (runs: seq<ShaderChunk>)
    requires |elements| > 0
    ensures Runs(elements, runs, |elements|)
  {
    var sizes := Sizes(elements[0]);
    var materials := MaterialIds(elements[0]);
    var temps: seq<real> := [];
    var start := 0;
    runs := [];
    for i := 0 to |elements|
      invariant Scanning(elements, runs, start, i, sizes, materials, temps)
    {
      runs, start, sizes, materials, temps := Scan(elements, runs, start, i, sizes, materials, temps);
    }
    runs := CloseRun(elements, runs, start, |elements|, sizes, materials, temps);
  }

  /** One element of the loop in `ShaderChunk::build`: a new signature
      closes the open run and opens one at this element; the element's
      temperatures join the open run. */
  method Scan(elements: seq<WallElement>, runs: seq<ShaderChunk>, start: nat, i: nat,
              sizes: seq<real>, materials: seq<nat>, temps: seq<real>)
    returns (runs': seq<ShaderChunk>, start': nat, sizes': seq<real>, materials': seq<nat>, temps': seq<real>)
    requires i < |elements|
    requires Scanning(elements, runs, start, i, sizes, materials, temps)
    ensures Scanning(elements, runs', start', i + 1, sizes', materials', temps')
  {
    runs', start', sizes', materials', temps' := runs, start, sizes, materials, temps;
    if Differs(elements[i], sizes, materials) {
      runs' := CloseRun(elements, runs, start, i, sizes, materials, temps);
      sizes' := Sizes(elements[i]);
      materials' := MaterialIds(elements[i]);
      temps' := [];
      start' := i;
      assert elements[i..i] == [];
    }
    AllTemperaturesSnoc(elements, start', i);
    temps' := temps' + Temperatures(elements[i]);
  }

  /** Closing the open run `[start, i)`. */
  method CloseRun(elements: seq<WallElement>, runs: seq<ShaderChunk>, start: nat, i: nat,
                  sizes: seq<real>, materials: seq<nat>, temps: seq<real>) returns (next: seq<ShaderChunk>)
    requires Scanning(elements, runs, start, i, sizes, materials, temps) && start < i
    ensures Runs(elements, next, i)
    ensures SignatureOf(next[|next| - 1]) == (sizes, materials)
  {
    var s := MakeRun(elements, start, i, sizes, materials, temps);
    next := runs + [s];
    assert RunOf(elements, s);
    assert forall k :: 0 <= k < |runs| ==> next[k] == runs[k];
  }

  /** Every element lies in exactly one run. */
  lemma {:induction false} RunsCover(elements: seq<WallElement>, runs: seq<ShaderChunk>, upTo: nat, i: nat)
    requires Tiles(runs, upTo) && i < upTo
    ensures exists k :: 0 <= k < |runs| && runs[k].start <= i < runs[k].end
    ensures forall k, l :: (0 <= k < |runs| && 0 <= l < |runs| && runs[k].start <= i < runs[k].end
                            && runs[l].start <= i < runs[l].end) ==> k == l
    decreases |runs|
  {
    var last := |runs| - 1;
    if i >= runs[last].start {
      assert runs[last].start <= i < runs[last].end;
    } else {
      var front := runs[..last];
      assert Tiles(front, runs[last].start) by {
        if |front| > 0 {
          assert front[|front| - 1].end == runs[last - 1].end == runs[last].start;
        }
      }
      RunsCover(elements, front, runs[last].start, i);
      var k :| 0 <= k < |front| && front[k].start <= i < front[k].end;
      assert runs[k] == front[k];
    }
    forall k, l | 0 <= k < |runs| && 0 <= l < |runs| && runs[k].start <= i < runs[k].end && runs[l].start <= i < runs[l].end
      ensures k == l
    {
      if k < l {
        TilesOrdered(runs, upTo, k, l);
      } else if l < k {
        TilesOrdered(runs, upTo, l, k);
      }
    }
  }

  /** Later runs start at or after the end of earlier ones. */
  lemma {:induction false} TilesOrdered(runs: seq<ShaderChunk>, upTo: nat, k: nat, l: nat)
    requires Tiles(runs, upTo) && k < l < |runs|
    ensures runs[k].end <= runs[l].start
    decreases l - k
  {
    if k + 1 < l {
      TilesOrdered(runs, upTo, k + 1, l);
    }
  }

  /** Every run ends within the tiled range. */
  lemma TilesBounded(runs: seq<ShaderChunk>, upTo: nat, k: nat)
    requires Tiles(runs, upTo) && k < |runs|
    ensures runs[k].end <= upTo
  {
    if k < |runs| - 1 {
      TilesOrdered(runs, upTo, k, |runs| - 1);
    }
  }

  /** Where one run ends and the next begins, the signature changes. */
  lemma RunsChange(elements: seq<WallElement>, runs: seq<ShaderChunk>, upTo: nat, k: nat)
    requires Runs(elements, runs, upTo) && k + 1 < |runs|
    ensures runs[k + 1].start < |elements|
    ensures Signature(elements[runs[k + 1].start]) != Signature(elements[runs[k].start])
  {
    assert RunOf(elements, runs[k]) && RunOf(elements, runs[k + 1]);
  }

  /** No chunk bound: elements that all share one signature form a single
      run holding every element, however many there are. */
  lemma OneSignatureOneRun(elements: seq<WallElement>, runs: seq<ShaderChunk>)
    requires |elements| > 0
    requires forall j :: 0 <= j < |elements| ==> Signature(elements[j]) == Signature(elements[0])
    requires Runs(elements, runs, |elements|)
    ensures |runs| == 1 && runs[0].start == 0 && runs[0].end == |elements|
  {
    if |runs| > 1 {
      RunsChange(elements, runs, |elements|, 0);
    }
  }

  /** Run `k`'s result occupies `[start, end)` of the output and was
      computed from the same range of the coefficients and of `q`. */
  ghost predicate RunPlaced(runs: seq<ShaderChunk>, coeffs: seq<Dispatch.Pair>, q: seq<Dispatch.Pair>,
                            kernel: Dispatch.Kernel, temps: seq<Dispatch.Pair>, k: nat)
  {
    k < |runs| && runs[k].start <= runs[k].end <= |temps| && runs[k].end <= |coeffs| && runs[k].end <= |q|
    && temps[runs[k].start..runs[k].end]
       == kernel(k, coeffs[runs[k].start..runs[k].end], q[runs[k].start..runs[k].end])
  }

  /** `update`: each run is given `[start, end)` of the coefficients and of
      `q`, and the output is split front to back by the runs' lengths, so
      each result lands on its own run's range. */
  method Update(runs: seq<ShaderChunk>, coeffs: seq<Dispatch.Pair>, q: seq<Dispatch.Pair>, kernel: Dispatch.Kernel)
    returns (temps: seq<Dispatch.Pair>)
    requires Tiles(runs, |coeffs|) && |q| == |coeffs|
    requires Dispatch.KeepsLength(kernel)
    ensures |temps| == |coeffs|
    ensures forall k :: 0 <= k < |runs| ==> RunPlaced(runs, coeffs, q, kernel, temps, k)
  {
    temps := [];
    var offset := 0;
    for k := 0 to |runs|
      invariant offset == |temps|
      invariant k < |runs| ==> offset == runs[k].start
      invariant k == |runs| ==> offset == |coeffs|
      invariant forall j :: 0 <= j < k ==> RunPlaced(runs, coeffs, q, kernel, temps, j)
    {
      var s := runs[k];
      TilesBounded(runs, |coeffs|, k);
      var out := kernel(k, coeffs[s.start..s.end], q[s.start..s.end]);
      PlacedSnoc(runs, coeffs, q, kernel, temps, out, k);
      temps := temps + out;
      offset := offset + (s.end - s.start);
    }
  }

  /** Appending run `k`'s result keeps the earlier results in place. */
  lemma PlacedSnoc(runs: seq<ShaderChunk>, coeffs: seq<Dispatch.Pair>, q: seq<Dispatch.Pair>,
                   kernel: Dispatch.Kernel, temps: seq<Dispatch.Pair>, out: seq<Dispatch.Pair>, k: nat)
    requires Tiles(runs, |coeffs|) && |q| == |coeffs| && k < |runs|
    requires |temps| == runs[k].start && runs[k].end <= |coeffs|
    requires out == kernel(k, coeffs[runs[k].start..runs[k].end], q[runs[k].start..runs[k].end])
    requires |out| == runs[k].end - runs[k].start
    requires forall j :: 0 <= j < k ==> RunPlaced(runs, coeffs, q, kernel, temps, j)
    ensures forall j :: 0 <= j <= k ==> RunPlaced(runs, coeffs, q, kernel, temps + out, j)
  {
    forall j | 0 <= j <= k
      ensures RunPlaced(runs, coeffs, q, kernel, temps + out, j)
    {
      if j < k {
        assert RunPlaced(runs, coeffs, q, kernel, temps, j);
        assert (temps + out)[runs[j].start..runs[j].end] == temps[runs[j].start..runs[j].end];
      } else {
        assert (temps + out)[runs[k].start..runs[k].end] == out;
      }
    }
  }
}
