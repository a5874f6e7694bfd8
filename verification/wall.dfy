/** Wall cells and wall elements, the per-element state every solver backend
    advances, and the sizes of the buffers the GPU backends exchange
    (src/heat_transfer/one_dimensional/mod.rs). */
module Wall {

  /** One cell: its width, the index of its material and its temperature.
      The material index is a `u32` in the source. */
  datatype WallCell = WallCell(size: real, material: nat, temperature: real)

  /** `WallElement` wraps a vector of cells; `new` and `deref` are the identity
      on that vector, so the model uses the sequence itself. */
  type WallElement = seq<WallCell>

  /** `WallCell::default()`: every field zero. */
  const DefaultCell: WallCell := WallCell(0.0, 0, 0.0)

  /** The temperatures of an element's cells, in order. */
  function Temperatures(e: WallElement): (ts: seq<real>)
    ensures |ts| == |e| && forall i :: 0 <= i < |e| ==> ts[i] == e[i].temperature
  {
    seq(|e|, i requires 0 <= i < |e| => e[i].temperature)
  }

  /** Byte width of `f32` and `u32`. */
  const F32Bytes: nat := 4

  /** A wall cell as the GPU sees it: three 4-byte fields. */
  const WallCellBytes: nat := 3 * F32Bytes

  /** Initial value of the process-wide chunk size. */
  const DefaultMaxElementsPerChunk: nat := 16384

  /** The chunk size after the given sequence of `set_max_element_per_chunk`
      calls: the last value set, or the default before any. */
  function MaxElementsPerChunk(sets: seq<nat>): (r: nat)
    ensures r == DefaultMaxElementsPerChunk || r in sets
    ensures |sets| > 0 ==> r == sets[|sets| - 1]
  {
    if |sets| == 0 then DefaultMaxElementsPerChunk else sets[|sets| - 1]
  }

  /** Only the last call matters: whatever was set before it is overwritten. */
  lemma LastSetWins(earlier: seq<nat>, later: seq<nat>)
    requires |later| > 0
    ensures MaxElementsPerChunk(earlier + later) == MaxElementsPerChunk(later)
  {
  }

  /** Size of the coefficient and `q` buffers of `update_bind_group`: one
      `[f32; 2]` per wall element. */
  function PairBufferBytes(count: nat): (r: nat)
    ensures r % (2 * F32Bytes) == 0 && r / (2 * F32Bytes) == count
  {
    2 * F32Bytes * count
  }

  /** Size of the delta-time uniform buffer: one `f32`. */
  const DeltaTimeBufferBytes: nat := F32Bytes
}
