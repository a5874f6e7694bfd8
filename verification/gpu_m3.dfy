/** GPU method 3 (src/heat_transfer/one_dimensional/gpu_m3.rs): every wall
    element is padded to the longest element's cell count and uploaded as a
    fixed-size record, a `u32` cell count followed by the cells; the
    elements are cut into chunks of at most `m` as in method 1. The buffer
    is modelled as a sequence of 4-byte words; the bit patterns of `f32`
    are not. */
module GpuM3 {
  import opened Wrappers
  import opened Wall
  import Lists
  import Dispatch

  /** `max_cell_count` in `setup`: the longest element's length, or 0 when
      there is no element (`unwrap_or_default`). */
  function MaxCellCount(elements: seq<WallElement>): (r: nat)
    ensures forall k :: 0 <= k < |elements| ==> |elements[k]| <= r
    ensures |elements| == 0 ==> r == 0
    ensures |elements| > 0 ==> exists k :: 0 <= k < |elements| && |elements[k]| == r
  {
    var lengths := Lists.Map(elements, (e: WallElement) => |e|);
    assert forall k :: 0 <= k < |elements| ==> lengths[k] == |elements[k]|;
    Lists.MaxNat(lengths)
  }

  /** One 4-byte word of the uploaded buffer. */
  datatype Word = Count(n: nat) | Size(size: real) | MaterialId(id: nat) | Temperature(t: real)

  const U32Modulus: nat := 0x1_0000_0000

  /** `len() as u32`: the length truncated to 32 bits. */
  function AsU32(n: nat): (r: nat)
    ensures r < U32Modulus
    ensures n < U32Modulus ==> r == n
  {
    n % U32Modulus
  }

  /** A cell as `bytemuck` lays it out: size, material, temperature. */
  function CellWords(c: WallCell): seq<Word>
  {
    [Size(c.size), MaterialId(c.material), Temperature(c.temperature)]
  }

  function CellsWords(cells: seq<WallCell>): (r: seq<Word>)
    ensures |r| == 3 * |cells|
  {
    if |cells| == 0 then [] else CellWords(cells[0]) + CellsWords(cells[1..])
  }

  /** The inner `for` loop: `max - len` default cells appended. */
  function Padded(e: WallElement, max: nat): (r: WallElement)
    requires |e| <= max
    ensures |r| == max && r[..|e|] == e
    ensures forall i :: |e| <= i < max ==> r[i] == DefaultCell
  {
    e + seq(max - |e|, _ => DefaultCell)
  }

  /** Words of one record. */
  function RecordWords(max: nat): nat
  {
    1 + 3 * max
  }

  /** One element's record: its cell count, then its cells padded to `max`. */
  function Record(e: WallElement, max: nat): (r: seq<Word>)
    requires |e| <= max
    ensures |r| == RecordWords(max)
  {
    [Count(AsU32(|e|))] + CellsWords(Padded(e, max))
  }

  /** How the kernel reads cells back from words. */
  function DecodeCells(ws: seq<Word>): Option<seq<WallCell>>
    decreases |ws|
  {
    if |ws| == 0 then Some([])
    else if |ws| < 3 || !ws[0].Size? || !ws[1].MaterialId? || !ws[2].Temperature? then None
    else
      match DecodeCells(ws[3..])
      case None => None
      case Some(rest) => Some([WallCell(ws[0].size, ws[1].id, ws[2].t)] + rest)
  }

  /** How the kernel reads a record: the count, then that many of the
      `max` cells that follow. */
  function DecodeRecord(ws: seq<Word>, max: nat): Option<WallElement>
  {
    if |ws| != RecordWords(max) || !ws[0].Count? || ws[0].n > max then None
    else
      match DecodeCells(ws[1..])
      case None => None
      case Some(cells) => if |cells| < ws[0].n then None else Some(cells[..ws[0].n])
  }

  lemma {:induction false} CellsRoundTrip(cells: seq<WallCell>)
    ensures DecodeCells(CellsWords(cells)) == Some(cells)
    decreases |cells|
  {
    if |cells| > 0 {
      var ws := CellsWords(cells);
      CellsRoundTrip(cells[1..]);
      assert ws[3..] == CellsWords(cells[1..]);
      assert [cells[0]] + cells[1..] == cells;
    }
  }

  /** The record keeps the element: the kernel reads back exactly its cells,
      as long as the count fits the `u32` header. */
  lemma RecordRoundTrip(e: WallElement, max: nat)
    requires |e| <= max && |e| < U32Modulus
    ensures DecodeRecord(Record(e, max), max) == Some(e)
  {
    var ws := Record(e, max);
    assert ws[1..] == CellsWords(Padded(e, max));
    CellsRoundTrip(Padded(e, max));
  }

  /** Record `k` of a chunk's words sits at `k * RecordWords(max)`. */
  ghost predicate RecordAt(words: seq<Word>, group: seq<WallElement>, max: nat, k: nat)
  {
    k < |group| && |group[k]| <= max
    && k * RecordWords(max) + RecordWords(max) <= |words|
    && words[k * RecordWords(max)..k * RecordWords(max) + RecordWords(max)] == Record(group[k], max)
  }

  /** What `Chunk::build` prepares for one chunk: the uploaded words, their
      size in bytes, the size of the coefficient and `q` buffers, and the
      number of work groups. */
  datatype Chunk = Chunk(words: seq<Word>, bytes: nat, pairBufferBytes: nat, groups: nat)

  /** `c` is the chunk built from `group` with records of `max` cells. */
  ghost predicate Built(group: seq<WallElement>, max: nat, c: Chunk)
  {
    |c.words| == |group| * RecordWords(max)
    && (forall k :: 0 <= k < |group| ==> RecordAt(c.words, group, max, k))
    && c.bytes == |group| * (F32Bytes + WallCellBytes * max)
    && c.pairBufferBytes == PairBufferBytes(|group|)
    && c.groups == Dispatch.Groups(|group|)
  }

  /** One more record keeps the earlier ones where they were. */
  lemma RecordsSnoc(words: seq<Word>, group: seq<WallElement>, max: nat, i: nat)
    requires i < |group| && |group[i]| <= max
    requires |words| == i * RecordWords(max)
    requires forall k :: 0 <= k < i ==> RecordAt(words, group, max, k)
    ensures |words + Record(group[i], max)| == (i + 1) * RecordWords(max)
    ensures forall k :: 0 <= k < i + 1 ==> RecordAt(words + Record(group[i], max), group, max, k)
  {
    var l := RecordWords(max);
    var next := words + Record(group[i], max);
    assert (i + 1) * l == i * l + l;
    forall k | 0 <= k < i + 1
      ensures RecordAt(next, group, max, k)
    {
      if k < i {
        assert RecordAt(words, group, max, k);
        RecordKept(words, Record(group[i], max), group, max, i, k);
      } else {
        assert next[i * l..i * l + l] == Record(group[i], max);
      }
    }
  }

  /** A record before the end stays put when words are appended. */
  lemma RecordKept(words: seq<Word>, more: seq<Word>, group: seq<WallElement>, max: nat, i: nat, k: nat)
    requires k < i && |words| == i * RecordWords(max)
    requires RecordAt(words, group, max, k)
    ensures RecordAt(words + more, group, max, k)
  {
    var l := RecordWords(max);
    assert k * l + l <= |words|;
    assert (words + more)[k * l..k * l + l] == words[k * l..k * l + l];
  }

  /** The body of the outer loop of `Chunk::build` for one chunk: each
      element is padded and written as its record, records in element
      order. The subtraction `max - len` requires every element to be at
      most `max` long. */
  method BuildChunk(group: seq<WallElement>, max: nat) returns (c: Chunk)
    requires forall k :: 0 <= k < |group| ==> |group[k]| <= max
    ensures Built(group, max, c)
  {
    var words: seq<Word> := [];
    for i := 0 to |group|
      invariant |words| == i * RecordWords(max)
      invariant forall k :: 0 <= k < i ==> RecordAt(words, group, max, k)
    {
      RecordsSnoc(words, group, max, i);
      words := words + Record(group[i], max);
    }
    var l := RecordWords(max);
    assert F32Bytes * (|group| * l) == |group| * (F32Bytes + WallCellBytes * max);
    c := Chunk(words, F32Bytes * |words|, PairBufferBytes(|group|), Dispatch.Groups(|group|));
  }

  /** The kernel finds every element of a chunk intact in its record. */
  lemma ChunkReadsBack(group: seq<WallElement>, max: nat, c: Chunk, k: nat)
    requires Built(group, max, c)
    requires k < |group| && |group[k]| < U32Modulus
    ensures k * RecordWords(max) + RecordWords(max) <= |c.words|
            && DecodeRecord(c.words[k * RecordWords(max)..k * RecordWords(max) + RecordWords(max)], max) == Some(group[k])
  {
    assert RecordAt(c.words, group, max, k);
    var l := RecordWords(max);
    var ws := c.words[k * l..k * l + l];
    assert ws == Record(group[k], max);
    RecordRoundTrip(group[k], max);
  }

  /** `setup` and `Chunk::build`: the records are padded to the longest
      element, and `chunks(m)` cuts the elements into chunks. */
  method Setup(elements: seq<WallElement>, m: nat) returns (max: nat, chunks: seq<Chunk>)
    requires m > 0
    ensures max == MaxCellCount(elements)
    ensures |chunks| == |Lists.Chunks(elements, m)|
    ensures forall k :: 0 <= k < |chunks| ==> Built(Lists.Chunks(elements, m)[k], max, chunks[k])
  {
    max := MaxCellCount(elements);
    var groups := Lists.Chunks(elements, m);
    GroupsBounded(elements, m, max);
    chunks := BuildAll(groups, max);
  }

  /** Every element of every chunk is at most as long as the longest. */
  lemma GroupsBounded(elements: seq<WallElement>, m: nat, max: nat)
    requires m > 0
    requires forall k :: 0 <= k < |elements| ==> |elements[k]| <= max
    ensures forall k, j :: 0 <= k < |Lists.Chunks(elements, m)| && 0 <= j < |Lists.Chunks(elements, m)[k]|
                           ==> |Lists.Chunks(elements, m)[k][j]| <= max
  {
    var groups := Lists.Chunks(elements, m);
    forall k, j | 0 <= k < |groups| && 0 <= j < |groups[k]|
      ensures |groups[k][j]| <= max
    {
      Lists.ChunksSlice(elements, m, k);
      assert groups[k][j] == elements[k * m + j];
    }
  }

  /** The outer loop of `Chunk::build`: one chunk per group. */
  method BuildAll(groups: seq<seq<WallElement>>, max: nat) returns (chunks: seq<Chunk>)
    requires forall k, j :: 0 <= k < |groups| && 0 <= j < |groups[k]| ==> |groups[k][j]| <= max
    ensures |chunks| == |groups|
    ensures forall k :: 0 <= k < |groups| ==> Built(groups[k], max, chunks[k])
  {
    chunks := [];
    for k := 0 to |groups|
      invariant |chunks| == k
      invariant forall j :: 0 <= j < k ==> Built(groups[j], max, chunks[j])
    {
      var c := BuildChunk(groups[k], max);
      chunks := chunks + [c];
    }
  }
}
