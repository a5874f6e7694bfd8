/** The tridiagonal (Thomas) solve of the CPU backend
    (src/heat_transfer/one_dimensional/cpu.rs:264-284). A system is a sequence
    of rows `[b, d, a, c]`; row i states b·x[i-1] + d·x[i] + a·x[i+1] = c, where
    the first row has no `b` term and the last row no `a` term (the solver has
    folded those into the diagonal and right-hand side beforehand). */
module Thomas {
  import opened Reals

  datatype Row = Row(b: real, d: real, a: real, c: real)

  /** Left-hand side of row i at x. */
  function Lhs(rows: seq<Row>, x: seq<real>, i: nat): real
    requires |x| == |rows| && i < |rows|
  {
    (if i > 0 then rows[i].b * x[i - 1] else 0.0)
    + rows[i].d * x[i]
    + (if i + 1 < |rows| then rows[i].a * x[i + 1] else 0.0)
  }

  /** x satisfies every row of the system. */
  predicate Solves(rows: seq<Row>, x: seq<real>) {
    |x| == |rows| && forall i :: 0 <= i < |rows| ==> Lhs(rows, x, i) == rows[i].c
  }

  // ---------------------------------------------------------------- reference definition

  /** Diagonal of row i after forward elimination. */
  function Pivot(rows: seq<Row>, i: nat): real
    requires i < |rows|
  {
    if i == 0 then rows[0].d
    else rows[i].d - Div(rows[i].b, Pivot(rows, i - 1)) * rows[i - 1].a
  }

  /** Right-hand side of row i after forward elimination. */
  function Reduced(rows: seq<Row>, i: nat): real
    requires i < |rows|
  {
    if i == 0 then rows[0].c
    else rows[i].c - Div(rows[i].b, Pivot(rows, i - 1)) * Reduced(rows, i - 1)
  }

  predicate NonzeroPivots(rows: seq<Row>) {
    forall i :: 0 <= i < |rows| ==> Pivot(rows, i) != 0.0
  }

  /** The unknown of an eliminated row, given the unknown after it. */
  function Substitute(reduced: real, a: real, next: real, pivot: real): real {
    Div(reduced - a * next, pivot)
  }

  /** Back substitution, from the last row upward. */
  function BackSub(rows: seq<Row>, i: nat): real
    requires i < |rows|
    decreases |rows| - i
  {
    if i + 1 == |rows| then Div(Reduced(rows, i), Pivot(rows, i))
    else Substitute(Reduced(rows, i), rows[i].a, BackSub(rows, i + 1), Pivot(rows, i))
  }

  function Solution(rows: seq<Row>): (x: seq<real>)
    ensures |x| == |rows|
  {
    seq(|rows|, i requires 0 <= i < |rows| => BackSub(rows, i))
  }

  /** Row i of the eliminated, upper bidiagonal system holds at x. */
  predicate Upper(rows: seq<Row>, x: seq<real>, i: nat)
    requires |x| == |rows| && i < |rows|
  {
    Pivot(rows, i) * x[i] + (if i + 1 < |rows| then rows[i].a * x[i + 1] else 0.0) == Reduced(rows, i)
  }

  // ---------------------------------------------------------------- the solver

  /** The solve as the source performs it on the matrix: forward elimination
      in place, then back substitution (the source writes the unknowns into
      the `c` column; here they go to `x`). Division by a zero pivot yields
      IEEE infinities in the source and is not modelled; with non-zero pivots
      the result solves the system. */
  method Solve(rows: seq<Row>) returns (x: seq<real>)
    requires |rows| > 0
    ensures x == Solution(rows)
    ensures NonzeroPivots(rows) ==> Solves(rows, x)
  {
    var d, c := ForwardElimination(rows);
    x := BackSubstitution(rows, d, c);
    if NonzeroPivots(rows) {
      SolutionSolves(rows);
    }
  }

  /** The first loop of the solve: each row from the second on loses its
      sub-diagonal entry against the row above it, leaving the pivots and
      the reduced right-hand sides. */
  method ForwardElimination(rows: seq<Row>) returns (d: seq<real>, c: seq<real>)
    requires |rows| > 0
    ensures |d| == |rows| && |c| == |rows|
    ensures forall k :: 0 <= k < |rows| ==> d[k] == Pivot(rows, k) && c[k] == Reduced(rows, k)
  {
    var n := |rows|;
    d := seq(n, i requires 0 <= i < n => rows[i].d);
    c := seq(n, i requires 0 <= i < n => rows[i].c);
    var i := 1;
    while i < n
      invariant 1 <= i <= n
      invariant |d| == n && |c| == n
      invariant forall k :: 0 <= k < i ==> d[k] == Pivot(rows, k)
      invariant forall k :: 0 <= k < i ==> c[k] == Reduced(rows, k)
      invariant forall k :: i <= k < n ==> d[k] == rows[k].d
      invariant forall k :: i <= k < n ==> c[k] == rows[k].c
    {
      var r := Div(rows[i].b, d[i - 1]);
      var pivot, reduced := d[i] - r * rows[i - 1].a, c[i] - r * c[i - 1];
      assert pivot == Pivot(rows, i) && reduced == Reduced(rows, i);
      d := d[i := pivot];
      c := c[i := reduced];
      i := i + 1;
    }
  }

  /** The second loop of the solve: the unknowns from the last row upward. */
  method BackSubstitution(rows: seq<Row>, d: seq<real>, c: seq<real>) returns (x: seq<real>)
    requires |rows| > 0 && |d| == |rows| && |c| == |rows|
    requires forall k :: 0 <= k < |rows| ==> d[k] == Pivot(rows, k) && c[k] == Reduced(rows, k)
    ensures x == Solution(rows)
  {
    var n := |rows|;
    x := seq(n, _ => 0.0);
    x := x[n - 1 := Div(c[n - 1], d[n - 1])];
    var j := n - 1;
    while j > 0
      invariant 0 <= j <= n - 1
      invariant |x| == n
      invariant forall k :: j <= k < n ==> x[k] == BackSub(rows, k)
    {
      j := j - 1;
      assert x[j + 1] == BackSub(rows, j + 1);
      var v := Substitute(c[j], rows[j].a, x[j + 1], d[j]);
      x := x[j := v];
    }
  }

  // ---------------------------------------------------------------- correctness

  /** With non-zero pivots, back substitution satisfies the eliminated system. */
  lemma UpperAt(rows: seq<Row>, i: nat)
    requires NonzeroPivots(rows) && i < |rows|
    ensures Upper(rows, Solution(rows), i)
  {
    var x := Solution(rows);
    if i + 1 < |rows| {
      assert x[i] == Substitute(Reduced(rows, i), rows[i].a, x[i + 1], Pivot(rows, i));
      SubstituteSolves(Reduced(rows, i), rows[i].a, x[i + 1], Pivot(rows, i), x[i]);
    } else {
      assert x[i] == Div(Reduced(rows, i), Pivot(rows, i));
      SubstituteSolves(Reduced(rows, i), 0.0, 0.0, Pivot(rows, i), x[i]);
    }
  }

  /** A substituted unknown satisfies its eliminated row. */
  lemma SubstituteSolves(reduced: real, a: real, next: real, pivot: real, y: real)
    requires pivot != 0.0 && y == Substitute(reduced, a, next, pivot)
    ensures pivot * y + a * next == reduced
  {
    DivMul(reduced - a * next, pivot);
  }

  /** One elimination step undone: row i of the original system follows from
      rows i-1 and i of the eliminated one. */
  lemma Recover(b: real, d: real, c: real, p0: real, r0: real, a0: real, x0: real, x1: real,
                f: real, p1: real, r1: real, rest: real)
    requires f * p0 == b
    requires p0 * x0 + a0 * x1 == r0
    requires p1 == d - f * a0 && r1 == c - f * r0
    requires p1 * x1 + rest == r1
    ensures b * x0 + d * x1 + rest == c
  {
    calc {
      b * x0;
      f * (p0 * x0);
      f * (r0 - a0 * x1);
      f * r0 - f * a0 * x1;
    }
  }

  /** One elimination step: rows i-1 (eliminated) and i (original) give row i
      of the eliminated system. */
  lemma Eliminate(b: real, d: real, c: real, p0: real, r0: real, a0: real, x0: real, x1: real,
                  f: real, p1: real, r1: real, rest: real)
    requires f * p0 == b
    requires p0 * x0 + a0 * x1 == r0
    requires p1 == d - f * a0 && r1 == c - f * r0
    requires b * x0 + d * x1 + rest == c
    ensures p1 * x1 + rest == r1
  {
    calc {
      b * x0;
      f * (p0 * x0);
      f * (r0 - a0 * x1);
      f * r0 - f * a0 * x1;
    }
  }

  lemma RowFromUpper(rows: seq<Row>, x: seq<real>, i: nat)
    requires NonzeroPivots(rows) && |x| == |rows| && i < |rows|
    requires Upper(rows, x, i) && (i > 0 ==> Upper(rows, x, i - 1))
    ensures Lhs(rows, x, i) == rows[i].c
  {
    if i > 0 {
      var f := Div(rows[i].b, Pivot(rows, i - 1));
      DivMul(rows[i].b, Pivot(rows, i - 1));
      var rest := if i + 1 < |rows| then rows[i].a * x[i + 1] else 0.0;
      Recover(rows[i].b, rows[i].d, rows[i].c, Pivot(rows, i - 1), Reduced(rows, i - 1), rows[i - 1].a,
              x[i - 1], x[i], f, Pivot(rows, i), Reduced(rows, i), rest);
    }
  }

  /** With non-zero pivots the Thomas solution satisfies every original row. */
  lemma SolutionSolves(rows: seq<Row>)
    requires NonzeroPivots(rows)
    ensures Solves(rows, Solution(rows))
  {
    var x := Solution(rows);
    forall i | 0 <= i < |rows|
      ensures Upper(rows, x, i)
    {
      UpperAt(rows, i);
    }
    forall i | 0 <= i < |rows|
      ensures Lhs(rows, x, i) == rows[i].c
    {
      RowFromUpper(rows, x, i);
    }
  }

  lemma EliminateRow(rows: seq<Row>, y: seq<real>, i: nat)
    requires |y| == |rows| && 0 < i < |rows| && Pivot(rows, i - 1) != 0.0
    requires Upper(rows, y, i - 1) && Lhs(rows, y, i) == rows[i].c
    ensures Upper(rows, y, i)
  {
    var f := Div(rows[i].b, Pivot(rows, i - 1));
    DivMul(rows[i].b, Pivot(rows, i - 1));
    var rest := if i + 1 < |rows| then rows[i].a * y[i + 1] else 0.0;
    Eliminate(rows[i].b, rows[i].d, rows[i].c, Pivot(rows, i - 1), Reduced(rows, i - 1), rows[i - 1].a,
              y[i - 1], y[i], f, Pivot(rows, i), Reduced(rows, i), rest);
  }

  /** Any solution satisfies the eliminated system. */
  lemma {:induction false} SolvesUpper(rows: seq<Row>, y: seq<real>, i: nat)
    requires NonzeroPivots(rows) && Solves(rows, y) && i < |rows|
    ensures Upper(rows, y, i)
  {
    if i > 0 {
      SolvesUpper(rows, y, i - 1);
      EliminateRow(rows, y, i);
    }
  }

  lemma Cancel(u: real, v: real, p: real)
    requires p != 0.0 && u * p == v * p
    ensures u == v
  {
    assert (u - v) * p == 0.0;
  }

  /** An eliminated row determines its unknown from the next one. */
  lemma SubstituteUnique(y: real, reduced: real, a: real, next: real, pivot: real)
    requires pivot != 0.0 && pivot * y + a * next == reduced
    ensures y == Substitute(reduced, a, next, pivot)
  {
    DivMul(reduced - a * next, pivot);
    Cancel(y, Substitute(reduced, a, next, pivot), pivot);
  }

  lemma DivUnique(y: real, reduced: real, pivot: real)
    requires pivot != 0.0 && pivot * y == reduced
    ensures y == Div(reduced, pivot)
  {
    DivMul(reduced, pivot);
    Cancel(y, Div(reduced, pivot), pivot);
  }

  lemma {:induction false} BackSubUnique(rows: seq<Row>, y: seq<real>, i: nat)
    requires NonzeroPivots(rows) && Solves(rows, y) && i < |rows|
    ensures y[i] == BackSub(rows, i)
    decreases |rows| - i
  {
    SolvesUpper(rows, y, i);
    if i + 1 < |rows| {
      BackSubUnique(rows, y, i + 1);
      BackSubStep(rows, y, i);
    } else {
      BackSubLast(rows, y);
    }
  }

  /** An eliminated row with a non-zero pivot fixes its unknown once the
      next one is the back-substituted value. */
  lemma BackSubStep(rows: seq<Row>, y: seq<real>, i: nat)
    requires |y| == |rows| && i + 1 < |rows| && Pivot(rows, i) != 0.0 && Upper(rows, y, i)
    requires y[i + 1] == BackSub(rows, i + 1)
    ensures y[i] == BackSub(rows, i)
  {
    SubstituteUnique(y[i], Reduced(rows, i), rows[i].a, y[i + 1], Pivot(rows, i));
  }

  /** The last eliminated row fixes the last unknown. */
  lemma BackSubLast(rows: seq<Row>, y: seq<real>)
    requires |y| == |rows| > 0 && Pivot(rows, |rows| - 1) != 0.0 && Upper(rows, y, |rows| - 1)
    ensures y[|rows| - 1] == BackSub(rows, |rows| - 1)
  {
    var i := |rows| - 1;
    DivUnique(y[i], Reduced(rows, i), Pivot(rows, i));
  }

  /** With non-zero pivots the system has exactly one solution, the one the
      Thomas algorithm computes. */
  lemma SolutionUnique(rows: seq<Row>, y: seq<real>)
    requires NonzeroPivots(rows) && Solves(rows, y)
    ensures y == Solution(rows)
  {
    forall i | 0 <= i < |rows|
      ensures y[i] == Solution(rows)[i]
    {
      BackSubUnique(rows, y, i);
    }
  }

  // ---------------------------------------------------------------- when pivots are non-zero

  /** Off-diagonals are non-positive and the diagonal dominates them by at
      least one: the shape the heat equation gives for non-negative time steps
      and positive material data. */
  predicate Dominant(rows: seq<Row>) {
    forall i :: 0 <= i < |rows| ==>
      && rows[i].b <= 0.0 && rows[i].a <= 0.0
      && rows[i].d >= 1.0 - (if i + 1 < |rows| then rows[i].a else 0.0) - (if i > 0 then rows[i].b else 0.0)
  }

  lemma DominantStep(b: real, a: real, p: real, f: real)
    requires b <= 0.0 && a <= 0.0 && p >= 1.0 - a && f * p == b
    ensures f * a + b <= 0.0
  {
    assert f == b / p;
    assert f * a + b == f * (a + p);
  }

  /** Every pivot of a dominant system is at least one. */
  lemma {:induction false} DominantPivots(rows: seq<Row>, i: nat)
    requires Dominant(rows) && i < |rows|
    ensures Pivot(rows, i) >= 1.0 - (if i + 1 < |rows| then rows[i].a else 0.0)
  {
    if i > 0 {
      DominantPivots(rows, i - 1);
      var p := Pivot(rows, i - 1);
      DivMul(rows[i].b, p);
      DominantStep(rows[i].b, rows[i - 1].a, p, Div(rows[i].b, p));
    }
  }

  lemma DominantNonzero(rows: seq<Row>)
    requires Dominant(rows)
    ensures NonzeroPivots(rows)
  {
    forall i | 0 <= i < |rows|
      ensures Pivot(rows, i) != 0.0
    {
      DominantPivots(rows, i);
    }
  }

  /** Every row's coefficients sum to one and its right-hand side is v. */
  predicate Stochastic(rows: seq<Row>, v: real) {
    forall i :: 0 <= i < |rows| ==>
      && (if i > 0 then rows[i].b else 0.0) + rows[i].d + (if i + 1 < |rows| then rows[i].a else 0.0) == 1.0
      && rows[i].c == v
  }

  /** A constant vector solves a system whose rows sum to one and whose
      right-hand sides equal that constant. */
  lemma ConstantSolves(rows: seq<Row>, v: real)
    requires Stochastic(rows, v)
    ensures Solves(rows, seq(|rows|, _ => v))
  {
    var x := seq(|rows|, _ => v);
    forall i | 0 <= i < |rows|
      ensures Lhs(rows, x, i) == rows[i].c
    {
      var bb := if i > 0 then rows[i].b else 0.0;
      var aa := if i + 1 < |rows| then rows[i].a else 0.0;
      assert Lhs(rows, x, i) == bb * v + rows[i].d * v + aa * v;
      assert bb * v + rows[i].d * v + aa * v == (bb + rows[i].d + aa) * v;
    }
  }
}
