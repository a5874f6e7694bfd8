/** What the three GPU backends share: the work-group count of a dispatch
    and the way `update` hands each chunk its slices of the per-element
    buffers and copies the results back. The GPU computation itself is a
    parameter. */
module Dispatch {
  import Lists

  /** Invocations per work group in the kernels. */
  const WorkgroupSize: nat := 256

  /** `(count as f32 / 256.0).ceil() as u32`, over exact integers. */
  function Groups(count: nat): (g: nat)
    ensures count == 0 <==> g == 0
    ensures count > 0 ==> WorkgroupSize * (g - 1) < count <= WorkgroupSize * g
  {
    (count + WorkgroupSize - 1) / WorkgroupSize
  }

  /** A `[f32; 2]`: the front and back value of one wall element. */
  type Pair = (real, real)

  /** What a chunk's `q` buffer holds once its kernel has run, given the
      chunk's index and its slices of the coefficients and of `q`. */
  type Kernel = (nat, seq<Pair>, seq<Pair>) -> seq<Pair>

  /** The `q` buffer is sized for the chunk, so the kernel leaves one pair
      per element; `copy_from_slice` panics otherwise. */
  ghost predicate KeepsLength(kernel: Kernel)
  {
    forall k, c, q :: |kernel(k, c, q)| == |c|
  }

  /** Chunk `k` of a chunking by `m` owns `[k*m, min((k+1)*m, n))`: that
      range of the output is the kernel's result on the same range of the
      coefficients and of `q`. */
  ghost predicate Placed(m: nat, coeffs: seq<Pair>, q: seq<Pair>, kernel: Kernel, temps: seq<Pair>, k: nat)
  {
    |q| == |coeffs| == |temps| && k * m < |coeffs|
    && temps[k * m..Lists.ChunkEnd(|coeffs|, m, k)]
       == kernel(k, coeffs[k * m..Lists.ChunkEnd(|coeffs|, m, k)], q[k * m..Lists.ChunkEnd(|coeffs|, m, k)])
  }

  /** `update` of the chunked backends: the output, the coefficients and `q`
      are cut with `chunks(m)` and zipped with the chunks, so chunk `k` works
      on `[k*m, min((k+1)*m, n))` and its result lands on the same range of
      the output. All three buffers hold one pair per wall element. */
  function ChunkedUpdate(m: nat, coeffs: seq<Pair>, q: seq<Pair>, kernel: Kernel): (temps: seq<Pair>)
    requires m > 0 && |q| == |coeffs|
    requires KeepsLength(kernel)
    ensures |temps| == |coeffs|
    ensures forall k :: 0 <= k < |Lists.Chunks(coeffs, m)| ==>
              Placed(m, coeffs, q, kernel, temps, k)
  {
    var cs := Lists.Chunks(coeffs, m);
    var qs := Lists.Chunks(q, m);
    Lists.ChunksSameCount(coeffs, q, m);
    var outs := seq(|cs|, k requires 0 <= k < |cs| => kernel(k, cs[k], qs[k]));
    PiecesPlaced(m, coeffs, q, kernel, outs);
    Lists.Flatten(outs)
  }

  /** The proof of `ChunkedUpdate`: the results keep the chunks' shape, so
      chunking their concatenation recovers them, and each chunk is a slice. */
  lemma PiecesPlaced(m: nat, coeffs: seq<Pair>, q: seq<Pair>, kernel: Kernel, outs: seq<seq<Pair>>)
    requires m > 0 && |q| == |coeffs|
    requires KeepsLength(kernel)
    requires |Lists.Chunks(q, m)| == |Lists.Chunks(coeffs, m)| == |outs|
    requires forall k :: 0 <= k < |outs| ==> outs[k] == kernel(k, Lists.Chunks(coeffs, m)[k], Lists.Chunks(q, m)[k])
    ensures |Lists.Flatten(outs)| == |coeffs|
    ensures forall k :: 0 <= k < |outs| ==>
              Placed(m, coeffs, q, kernel, Lists.Flatten(outs), k)
  {
    var temps := Lists.Flatten(outs);
    assert forall k :: 0 <= k < |outs| ==> |outs[k]| == |Lists.Chunks(coeffs, m)[k]|;
    PiecesShaped(m, coeffs, outs);
    forall k | 0 <= k < |outs|
      ensures Placed(m, coeffs, q, kernel, temps, k)
    {
      PiecePlaced(m, coeffs, q, kernel, temps, outs, k);
    }
  }

  /** The results keep the chunks' shape, so chunking their concatenation
      recovers them. */
  lemma PiecesShaped(m: nat, coeffs: seq<Pair>, outs: seq<seq<Pair>>)
    requires m > 0
    requires |Lists.Chunks(coeffs, m)| == |outs|
    requires forall k :: 0 <= k < |outs| ==> |outs[k]| == |Lists.Chunks(coeffs, m)[k]|
    ensures |Lists.Flatten(outs)| == |coeffs|
    ensures Lists.Chunks(Lists.Flatten(outs), m) == outs
  {
    var cs := Lists.Chunks(coeffs, m);
    Lists.ChunksShape(coeffs, m);
    Lists.ChunksFlatten(outs, m);
    Lists.TotalLengthSame(outs, cs);
    Lists.FlattenLength(outs);
    Lists.FlattenLength(cs);
  }

  /** Chunk `k`'s result is the slice `[k*m, min((k+1)*m, n))` of the output,
      computed from the same slices of the inputs. */
  lemma PiecePlaced(m: nat, coeffs: seq<Pair>, q: seq<Pair>, kernel: Kernel, temps: seq<Pair>, outs: seq<seq<Pair>>, k: nat)
    requires m > 0 && |q| == |coeffs| == |temps|
    requires Lists.Chunks(temps, m) == outs
    requires |Lists.Chunks(q, m)| == |Lists.Chunks(coeffs, m)| == |outs|
    requires k < |outs|
    requires outs[k] == kernel(k, Lists.Chunks(coeffs, m)[k], Lists.Chunks(q, m)[k])
    ensures Placed(m, coeffs, q, kernel, temps, k)
  {
    Lists.ChunksSlice(coeffs, m, k);
    Lists.ChunksSlice(q, m, k);
    Lists.ChunksSlice(temps, m, k);
  }

  /** Every element is handled by exactly one chunk: element `i` lies in
      chunk `i / m`. */
  lemma ChunkOf(n: nat, m: nat, i: nat)
    requires m > 0 && i < n
    ensures (i / m) * m <= i < Lists.ChunkEnd(n, m, i / m)
  {
  }

  // ---------------------------------------------------------------- chunk-size invariance

  /** A kernel computing each element's pair from that element's coefficient
      pair and `q` pair alone, as the one-dimensional kernels do per
      invocation. */
  function PerElement(f: (Pair, Pair) -> Pair): (kernel: Kernel)
    ensures KeepsLength(kernel)
  {
    (k: nat, c: seq<Pair>, q: seq<Pair>) =>
      seq(|c|, i requires 0 <= i < |c| => f(c[i], if i < |q| then q[i] else (0.0, 0.0)))
  }

  /** With a per-element kernel the chunked update is the element-wise map,
      whatever the maximum number of elements per chunk: every `m` gives the
      same output. */
  lemma ChunkSizeInvariant(m: nat, coeffs: seq<Pair>, q: seq<Pair>, f: (Pair, Pair) -> Pair)
    requires m > 0 && |q| == |coeffs|
    ensures KeepsLength(PerElement(f))
    ensures ChunkedUpdate(m, coeffs, q, PerElement(f))
            == seq(|coeffs|, i requires 0 <= i < |coeffs| => f(coeffs[i], q[i]))
  {
    var kernel := PerElement(f);
    var temps := ChunkedUpdate(m, coeffs, q, kernel);
    forall i | 0 <= i < |coeffs|
      ensures temps[i] == f(coeffs[i], q[i])
    {
      var k := i / m;
      ChunkOf(|coeffs|, m, i);
      Lists.ChunksCount(coeffs, m);
      DivBelow(i, |Lists.Chunks(coeffs, m)|, m);
      assert Placed(m, coeffs, q, kernel, temps, k);
      var lo, hi := k * m, Lists.ChunkEnd(|coeffs|, m, k);
      var cs, qs := coeffs[lo..hi], q[lo..hi];
      assert temps[lo..hi] == kernel(k, cs, qs);
      assert temps[i] == temps[lo..hi][i - lo];
      assert kernel(k, cs, qs)[i - lo] == f(cs[i - lo], qs[i - lo]);
    }
  }

  /** An index below `c` chunks of `m` lies in one of them. */
  lemma DivBelow(i: nat, c: nat, m: nat)
    requires m > 0 && i < c * m
    ensures i / m < c
  {
  }
}
