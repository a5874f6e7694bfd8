/** GPU method 1 (src/heat_transfer/one_dimensional/gpu_m1.rs): the wall
    elements are cut into chunks of at most `m` elements; each chunk sends
    its cells flattened, with a running cell index per element telling the
    kernel where each element ends. Only the layout is modelled. */
module GpuM1 {
  import opened Wall
  import Lists
  import Dispatch

  /** What `Chunk::build` prepares for one chunk: the `cell_indices` and
      `wall_cells` uploaded at setup, the size of each of the four matrix
      buffers, the size of the coefficient and `q` buffers, and the number
      of work groups. */
  datatype Chunk = Chunk(cellIndices: seq<nat>, cells: seq<WallCell>, matrixBufferBytes: nat,
                         pairBufferBytes: nat, groups: nat)

  /** `c` is the chunk built from the elements `group`: one running index
      per element, the end of that element's cells; all cells in element
      order; four bytes per cell in each matrix buffer; one pair per element
      in the update buffers. */
  ghost predicate Built(group: seq<WallElement>, c: Chunk)
  {
    |c.cellIndices| == |group|
    && (forall k :: 0 <= k < |group| ==> c.cellIndices[k] == Lists.TotalLength(group[..k + 1]))
    && c.cells == Lists.Flatten(group)
    && c.matrixBufferBytes == F32Bytes * |c.cells|
    && c.pairBufferBytes == PairBufferBytes(|group|)
    && c.groups == Dispatch.Groups(|group|)
  }

  /** Where element `k`'s cells start: 0 for the first, else the previous
      running index. */
  function Start(c: Chunk, k: nat): nat
    requires k < |c.cellIndices|
  {
    if k == 0 then 0 else c.cellIndices[k - 1]
  }

  /** The kernel finds element `k` as the cells between its start and its
      running index. */
  ghost predicate ElementAt(group: seq<WallElement>, c: Chunk, k: nat)
  {
    k < |group| == |c.cellIndices|
    && Start(c, k) <= c.cellIndices[k] <= |c.cells|
    && c.cells[Start(c, k)..c.cellIndices[k]] == group[k]
  }

  /** One pass of the inner loop of `Chunk::build` over a chunk: the running
      size restarts at 0, grows by each element's length and is recorded
      after it; the element's cells are appended. A chunk from `chunks` is
      never empty, and the last index is the chunk's cell count. */
  method BuildChunk(group: seq<WallElement>) returns (c: Chunk)
    requires |group| > 0
    ensures Built(group, c)
    ensures forall k :: 0 <= k < |group| ==> ElementAt(group, c, k)
  {
    var lastSize := 0;
    var indices: seq<nat> := [];
    var cells: seq<WallCell> := [];
    for i := 0 to |group|
      invariant |indices| == i
      invariant lastSize == Lists.TotalLength(group[..i])
      invariant forall k :: 0 <= k < i ==> indices[k] == Lists.TotalLength(group[..k + 1])
      invariant cells == Lists.Flatten(group[..i])
    {
      PrefixStep(group, i);
      lastSize := lastSize + |group[i]|;
      indices := indices + [lastSize];
      cells := cells + group[i];
    }
    assert group[..|group|] == group;
    var cellCount := indices[|indices| - 1];
    Lists.FlattenLength(group);
    c := Chunk(indices, cells, F32Bytes * cellCount, PairBufferBytes(|indices|), Dispatch.Groups(|indices|));
    forall k | 0 <= k < |group|
      ensures ElementAt(group, c, k)
    {
      Lists.FlattenSlice(group, k);
      if k > 0 {
        assert group[..k] == group[..(k - 1) + 1];
      }
    }
  }

  /** One more element adds its length to the running size and its cells
      to the flattened cells. */
  lemma PrefixStep(group: seq<WallElement>, i: nat)
    requires i < |group|
    ensures Lists.TotalLength(group[..i + 1]) == Lists.TotalLength(group[..i]) + |group[i]|
    ensures Lists.Flatten(group[..i + 1]) == Lists.Flatten(group[..i]) + group[i]
  {
    Lists.TotalLengthAppend(group[..i], [group[i]]);
    Lists.FlattenAppend(group[..i], [group[i]]);
    assert group[..i + 1] == group[..i] + [group[i]];
    assert Lists.TotalLength([group[i]]) == |group[i]| + Lists.TotalLength<WallCell>([]);
    assert Lists.Flatten([group[i]]) == group[i] + Lists.Flatten<WallCell>([]);
  }

  /** `Chunk::build`: `chunks(m)` over the elements, one chunk each. */
  method Build(elements: seq<WallElement>, m: nat) returns (chunks: seq<Chunk>)
    requires m > 0
    ensures |chunks| == |Lists.Chunks(elements, m)|
    ensures forall k :: 0 <= k < |chunks| ==> Built(Lists.Chunks(elements, m)[k], chunks[k])
  {
    var groups := Lists.Chunks(elements, m);
    Lists.ChunksNonEmpty(elements, m);
    chunks := [];
    for k := 0 to |groups|
      invariant |chunks| == k
      invariant forall j :: 0 <= j < k ==> Built(groups[j], chunks[j])
    {
      var c := BuildChunk(groups[k]);
      chunks := chunks + [c];
    }
  }

  /** What the chunks of `Build` add up to: every chunk holds between 1 and
      `m` elements, all but the last exactly `m`, there is none for no
      elements, and their cells, taken chunk by chunk, are all the cells of
      all the elements in order. */
  lemma BuildCovers(elements: seq<WallElement>, m: nat, chunks: seq<Chunk>)
    requires m > 0
    requires |chunks| == |Lists.Chunks(elements, m)|
    requires forall k :: 0 <= k < |chunks| ==> Built(Lists.Chunks(elements, m)[k], chunks[k])
    ensures |elements| == 0 <==> |chunks| == 0
    ensures forall k :: 0 <= k < |chunks| ==> 0 < |chunks[k].cellIndices| <= m
    ensures forall k :: 0 <= k < |chunks| - 1 ==> |chunks[k].cellIndices| == m
    ensures Lists.Flatten(Lists.Map(chunks, (c: Chunk) => c.cells)) == Lists.Flatten(elements)
  {
    var groups := Lists.Chunks(elements, m);
    Lists.ChunksShape(elements, m);
    Lists.ChunksCount(elements, m);
    Lists.FlattenTwice(groups);
    assert Lists.Map(chunks, (c: Chunk) => c.cells) == Lists.Map(groups, Lists.Flatten);
  }
}
