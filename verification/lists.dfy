/** Sequence helpers shared by the model: first-match search, concatenation
    of nested sequences, `slice::chunks` and maxima. */
module Lists {
  import opened Wrappers

  /** `iter().position(|x| key(x) == k)`: the first index whose key is `k`. */
  function FindIndex<T, K(==)>(xs: seq<T>, key: T -> K, k: K): (r: Option<nat>)
    ensures r.Some? ==> r.value < |xs| && key(xs[r.value]) == k
    ensures r.Some? ==> forall j :: 0 <= j < r.value ==> key(xs[j]) != k
    ensures r.None? <==> forall j :: 0 <= j < |xs| ==> key(xs[j]) != k
  {
    if |xs| == 0 then None
    else if key(xs[0]) == k then Some(0)
    else
      match FindIndex(xs[1..], key, k)
      case None => None
      case Some(i) => Some(i + 1)
  }

  /** Concatenates a sequence of sequences in order. */
  function Flatten<T>(xss: seq<seq<T>>): seq<T>
  {
    if |xss| == 0 then [] else xss[0] + Flatten(xss[1..])
  }

  /** Total length of all inner sequences. */
  function TotalLength<T>(xss: seq<seq<T>>): nat
  {
    if |xss| == 0 then 0 else |xss[0]| + TotalLength(xss[1..])
  }

  lemma {:induction false} FlattenLength<T>(xss: seq<seq<T>>)
    ensures |Flatten(xss)| == TotalLength(xss)
  {
    if |xss| > 0 {
      FlattenLength(xss[1..]);
    }
  }

  lemma {:induction false} FlattenAppend<T>(a: seq<seq<T>>, b: seq<seq<T>>)
    ensures Flatten(a + b) == Flatten(a) + Flatten(b)
  {
    if |a| == 0 {
      assert a + b == b;
    } else {
      assert (a + b)[1..] == a[1..] + b;
      FlattenAppend(a[1..], b);
    }
  }

  lemma {:induction false} TotalLengthAppend<T>(a: seq<seq<T>>, b: seq<seq<T>>)
    ensures TotalLength(a + b) == TotalLength(a) + TotalLength(b)
  {
    if |a| == 0 {
      assert a + b == b;
    } else {
      assert (a + b)[1..] == a[1..] + b;
      TotalLengthAppend(a[1..], b);
    }
  }

  /** Element `k` of a chunking into pieces of `m`: `[k*m, min((k+1)*m, n))`. */
  function ChunkEnd(n: nat, m: nat, k: nat): nat
  {
    if k * m + m < n then k * m + m else n
  }

  /** `slice::chunks(m)`: consecutive pieces of `m` elements, the last one
      possibly shorter; `m == 0` panics in the source. Its properties are the
      lemmas below. */
  function Chunks<T>(xs: seq<T>, m: nat): seq<seq<T>>
    requires m > 0
    decreases |xs|
  {
    if |xs| == 0 then []
    else if |xs| <= m then [xs]
    else [xs[..m]] + Chunks(xs[m..], m)
  }

  /** Concatenating the chunks gives the input back; every chunk is
      non-empty and at most `m` long, and all but the last are exactly `m`. */
  lemma {:induction false} ChunksShape<T>(xs: seq<T>, m: nat)
    requires m > 0
    ensures Flatten(Chunks(xs, m)) == xs
    ensures forall k :: 0 <= k < |Chunks(xs, m)| ==> 0 < |Chunks(xs, m)[k]| <= m
    ensures forall k :: 0 <= k < |Chunks(xs, m)| - 1 ==> |Chunks(xs, m)[k]| == m
    decreases |xs|
  {
    var r := Chunks(xs, m);
    if |xs| == 0 {
    } else if |xs| <= m {
      assert Flatten([xs]) == xs + Flatten([]);
    } else {
      var rest := Chunks(xs[m..], m);
      ChunksShape(xs[m..], m);
      assert r[1..] == rest;
      assert Flatten(r) == xs[..m] + Flatten(rest);
      assert forall k :: 1 <= k < |r| ==> r[k] == rest[k - 1];
    }
  }

  /** No chunk is empty. */
  lemma ChunksNonEmpty<T>(xs: seq<T>, m: nat)
    requires m > 0
    ensures forall k :: 0 <= k < |Chunks(xs, m)| ==> |Chunks(xs, m)[k]| > 0
  {
    ChunksShape(xs, m);
  }

  /** Pieces of one length `p`: the first `i` of them hold `i * p`. */
  lemma {:induction false} TotalLengthUniform<T>(xss: seq<seq<T>>, p: nat, i: nat)
    requires i <= |xss|
    requires forall k :: 0 <= k < |xss| ==> |xss[k]| == p
    ensures TotalLength(xss[..i]) == i * p
  {
    if i > 0 {
      TotalLengthUniform(xss, p, i - 1);
      TotalLengthAppend(xss[..i - 1], [xss[i - 1]]);
      assert xss[..i] == xss[..i - 1] + [xss[i - 1]];
      assert TotalLength([xss[i - 1]]) == p + TotalLength<T>([]);
      MulPred(i, p);
    }
  }

  /** Pieces of one length `p`: element `j` of piece `i` sits at `i * p + j`. */
  lemma FlattenUniform<T>(xss: seq<seq<T>>, p: nat, i: nat, j: nat)
    requires i < |xss| && j < p
    requires forall k :: 0 <= k < |xss| ==> |xss[k]| == p
    ensures |Flatten(xss)| == |xss| * p
    ensures i * p + j < |Flatten(xss)| && Flatten(xss)[i * p + j] == xss[i][j]
  {
    FlattenSlice(xss, i);
    TotalLengthUniform(xss, p, i);
    TotalLengthUniform(xss, p, |xss|);
    assert xss[..|xss|] == xss;
    FlattenLength(xss);
    assert Flatten(xss)[i * p..i * p + p][j] == xss[i][j];
  }

  lemma MulStep(k: nat, m: nat)
    ensures (k + 1) * m == k * m + m
  {
  }

  lemma MulPred(k: nat, m: nat)
    requires k >= 1
    ensures k * m == (k - 1) * m + m
  {
  }

  /** There are `ceil(n / m)` chunks, stated without division: `c` pieces of
      at most `m` cover `n` elements and `c - 1` full pieces do not. */
  lemma {:induction false} ChunksCount<T>(xs: seq<T>, m: nat)
    requires m > 0
    ensures |xs| <= |Chunks(xs, m)| * m
    ensures |Chunks(xs, m)| > 0 ==> (|Chunks(xs, m)| - 1) * m < |xs|
    ensures |xs| == 0 <==> |Chunks(xs, m)| == 0
    decreases |xs|
  {
    var c := |Chunks(xs, m)|;
    if |xs| > m {
      ChunksCount(xs[m..], m);
      MulStep(c - 1, m);
      MulStep(c - 2, m);
    }
  }

  /** Chunk `k` is exactly the slice `[k*m, min((k+1)*m, n))`. */
  lemma {:induction false} ChunksSlice<T>(xs: seq<T>, m: nat, k: nat)
    requires m > 0
    requires k < |Chunks(xs, m)|
    ensures k * m < |xs|
    ensures Chunks(xs, m)[k] == xs[k * m..ChunkEnd(|xs|, m, k)]
    decreases |xs|
  {
    var r := Chunks(xs, m);
    if |xs| <= m {
      assert k == 0;
    } else if k > 0 {
      var rest := Chunks(xs[m..], m);
      assert r[k] == rest[k - 1];
      ChunksSlice(xs[m..], m, k - 1);
      var lo := (k - 1) * m;
      var hi := k * m;
      assert hi == lo + m by { MulPred(k, m); }
      var e := ChunkEnd(|xs| - m, m, k - 1);
      assert e + m == ChunkEnd(|xs|, m, k);
      assert xs[m..][lo..e] == xs[hi..e + m];
    }
  }

  /** Piece `k` sits in the concatenation between the total lengths of the
      pieces before it and up to it. */
  lemma FlattenSlice<T>(xss: seq<seq<T>>, k: nat)
    requires k < |xss|
    ensures TotalLength(xss[..k]) + |xss[k]| == TotalLength(xss[..k + 1]) <= |Flatten(xss)|
    ensures Flatten(xss)[TotalLength(xss[..k])..TotalLength(xss[..k + 1])] == xss[k]
  {
    var a, b := xss[..k], xss[k + 1..];
    assert xss == a + [xss[k]] + b;
    assert xss[..k + 1] == a + [xss[k]];
    FlattenAppend(a + [xss[k]], b);
    FlattenAppend(a, [xss[k]]);
    TotalLengthAppend(a, [xss[k]]);
    assert Flatten([xss[k]]) == xss[k] + Flatten([]);
    FlattenLength(a);
    FlattenLength(xss);
    TotalLengthAppend(a + [xss[k]], b);
  }

  /** Concatenating the concatenations of groups is concatenating all the
      pieces. */
  lemma {:induction false} FlattenTwice<T>(xsss: seq<seq<seq<T>>>)
    ensures Flatten(Map(xsss, Flatten)) == Flatten(Flatten(xsss))
    decreases |xsss|
  {
    if |xsss| > 0 {
      FlattenTwice(xsss[1..]);
      assert Map(xsss, Flatten)[1..] == Map(xsss[1..], Flatten);
      FlattenAppend(xsss[0], Flatten(xsss[1..]));
    }
  }

  /** The shape `slice::chunks(m)` produces: non-empty pieces of at most
      `m`, all but the last exactly `m`. */
  predicate ChunkShaped<T>(pieces: seq<seq<T>>, m: nat)
  {
    (forall k :: 0 <= k < |pieces| ==> 0 < |pieces[k]| <= m)
    && (forall k :: 0 <= k < |pieces| - 1 ==> |pieces[k]| == m)
  }

  /** The converse of `ChunksShape`: chunking the concatenation of pieces of
      that shape gives the pieces back. */
  lemma {:induction false} ChunksFlatten<T>(pieces: seq<seq<T>>, m: nat)
    requires m > 0
    requires ChunkShaped(pieces, m)
    ensures Chunks(Flatten(pieces), m) == pieces
    decreases |pieces|
  {
    var xs := Flatten(pieces);
    if |pieces| == 1 {
      assert Flatten(pieces[1..]) == [];
      assert xs == pieces[0];
      assert 0 < |xs| <= m;
      assert pieces == [pieces[0]];
    } else if |pieces| > 1 {
      var rest := pieces[1..];
      assert ChunkShaped(rest, m) by {
        assert forall k :: 0 <= k < |rest| ==> rest[k] == pieces[k + 1];
      }
      ChunksFlatten(rest, m);
      assert |pieces[0]| == m;
      assert |Flatten(rest)| > 0 by {
        assert Flatten(rest) == rest[0] + Flatten(rest[1..]);
      }
      assert xs == pieces[0] + Flatten(rest);
      assert |xs| > m;
      assert xs[..m] == pieces[0] && xs[m..] == Flatten(rest);
      assert Chunks(xs, m) == [pieces[0]] + Chunks(Flatten(rest), m);
      assert pieces == [pieces[0]] + rest;
    }
  }

  /** Chunking depends only on the length: sequences of equal length have
      the same number of chunks. */
  lemma {:induction false} ChunksSameCount<T, U>(xs: seq<T>, ys: seq<U>, m: nat)
    requires m > 0 && |xs| == |ys|
    ensures |Chunks(xs, m)| == |Chunks(ys, m)|
    decreases |xs|
  {
    if |xs| > m {
      ChunksSameCount(xs[m..], ys[m..], m);
    }
  }

  /** Pieces of pointwise equal lengths have equal total length. */
  lemma {:induction false} TotalLengthSame<T, U>(a: seq<seq<T>>, b: seq<seq<U>>)
    requires |a| == |b| && forall k :: 0 <= k < |a| ==> |a[k]| == |b[k]|
    ensures TotalLength(a) == TotalLength(b)
    decreases |a|
  {
    if |a| > 0 {
      TotalLengthSame(a[1..], b[1..]);
    }
  }

  /** Maximum of a sequence of naturals, 0 when empty. */
  function MaxNat(xs: seq<nat>): (r: nat)
    ensures forall k :: 0 <= k < |xs| ==> xs[k] <= r
    ensures |xs| == 0 ==> r == 0
    ensures |xs| > 0 ==> exists k :: 0 <= k < |xs| && xs[k] == r
  {
    if |xs| == 0 then 0
    else
      var m := MaxNat(xs[1..]);
      if xs[0] >= m then xs[0]
      else
        assert exists k :: 0 <= k < |xs[1..]| && xs[1..][k] == m;
        var k :| 0 <= k < |xs[1..]| && xs[1..][k] == m;
        assert xs[k + 1] == m;
        m
  }

  /** Applies `f` to every element. */
  function Map<T, U>(xs: seq<T>, f: T -> U): (r: seq<U>)
    ensures |r| == |xs|
    ensures forall k :: 0 <= k < |xs| ==> r[k] == f(xs[k])
  {
    seq(|xs|, k requires 0 <= k < |xs| => f(xs[k]))
  }
}
