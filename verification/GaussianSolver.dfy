/** Solving a linear system by Gaussian elimination with partial pivoting. */
module GaussianSolver {
  import opened Results
  import opened FullMath
  import opened RealMath

  type Row = seq<real>

  /** Below this a pivot counts as zero. */
  const PIVOT_FLOOR: real := 1.0 / Pow10(300)

  function Magnitude(x: real): (m: real)
    ensures m >= 0.0 && (m == 0.0 <==> x == 0.0)
  {
    if x < 0.0 then -x else x
  }

  /** The sum of u[c] * x[c] for lo <= c < hi. */
  function Dot(u: Row, x: Row, lo: nat, hi: nat): real
    requires lo <= hi <= |u| && hi <= |x|
    decreases hi - lo
  {
    if lo == hi then 0.0 else u[lo] * x[lo] + Dot(u, x, lo + 1, hi)
  }

  predicate Square(matrix: seq<Row>, n: nat) {
    |matrix| == n && forall r :: 0 <= r < n ==> |matrix[r]| == n
  }

  /** matrix times x equals vector, row by row. */
  predicate Satisfies(matrix: seq<Row>, vector: Row, x: Row) {
    Square(matrix, |vector|) && |x| == |vector| && forall r :: 0 <= r < |x| ==> Dot(matrix[r], x, 0, |x|) == vector[r]
  }

  // ---- The augmented matrix ----

  predicate Augmented(a: seq<Row>, n: nat) {
    |a| == n && forall r :: 0 <= r < n ==> |a[r]| == n + 1
  }

  predicate RowHolds(row: Row, x: Row) {
    |row| == |x| + 1 && Dot(row, x, 0, |x|) == row[|x|]
  }

  predicate Solves(a: seq<Row>, x: Row) {
    forall r :: 0 <= r < |a| ==> RowHolds(a[r], x)
  }

  /** Both systems have exactly the same solutions. */
  ghost predicate Equivalent(a: seq<Row>, b: seq<Row>, n: nat) {
    forall x: Row :: |x| == n ==> (Solves(a, x) <==> Solves(b, x))
  }

  /** The first `col` columns are zero below the diagonal. */
  predicate Cleared(a: seq<Row>, n: nat, col: nat)
    requires Augmented(a, n)
  {
    forall r, c :: 0 <= c < col && c < r < n ==> a[r][c] == 0.0
  }

  /** The first `col` pivots are usable. */
  predicate Pivoted(a: seq<Row>, n: nat, col: nat)
    requires Augmented(a, n) && col <= n
  {
    forall r :: 0 <= r < col ==> Magnitude(a[r][r]) >= PIVOT_FLOOR
  }

  // ---- Sums ----

  lemma {:induction false} DotSplit(u: Row, x: Row, lo: nat, mid: nat, hi: nat)
    requires lo <= mid <= hi <= |u| && hi <= |x|
    ensures Dot(u, x, lo, hi) == Dot(u, x, lo, mid) + Dot(u, x, mid, hi)
    decreases mid - lo
  {
    if lo < mid { DotSplit(u, x, lo + 1, mid, hi); }
  }

  lemma {:induction false} DotZero(u: Row, x: Row, lo: nat, hi: nat)
    requires lo <= hi <= |u| && hi <= |x|
    requires forall c :: lo <= c < hi ==> u[c] == 0.0 || x[c] == 0.0
    ensures Dot(u, x, lo, hi) == 0.0
    decreases hi - lo
  {
    if lo < hi {
      assert u[lo] * x[lo] == 0.0;
      DotZero(u, x, lo + 1, hi);
    }
  }

  lemma {:induction false} DotAgrees(u: Row, x: Row, v: Row, y: Row, lo: nat, hi: nat)
    requires lo <= hi <= |u| && hi <= |x| && hi <= |v| && hi <= |y|
    requires forall c :: lo <= c < hi ==> u[c] == v[c] && x[c] == y[c]
    ensures Dot(u, x, lo, hi) == Dot(v, y, lo, hi)
    decreases hi - lo
  {
    if lo < hi { DotAgrees(u, x, v, y, lo + 1, hi); }
  }

  /** A row less a multiple of another. */
  function Less(row: Row, f: real, pivot: Row): (r: Row)
    requires |row| == |pivot|
    ensures |r| == |row| && forall c :: 0 <= c < |r| ==> r[c] == row[c] - f * pivot[c]
  {
    seq(|row|, c requires 0 <= c < |row| => row[c] - f * pivot[c])
  }

  lemma {:induction false} DotLess(row: Row, f: real, pivot: Row, x: Row, lo: nat, hi: nat)
    requires |row| == |pivot| && lo <= hi <= |row| && hi <= |x|
    ensures Dot(Less(row, f, pivot), x, lo, hi) == Dot(row, x, lo, hi) - f * Dot(pivot, x, lo, hi)
    decreases hi - lo
  {
    if lo < hi {
      DotLess(row, f, pivot, x, lo + 1, hi);
      Distribute(row[lo], f, pivot[lo], x[lo], Dot(pivot, x, lo + 1, hi));
    }
  }

  lemma Distribute(u: real, f: real, v: real, x: real, rest: real)
    ensures (u - f * v) * x == u * x - f * (v * x)
    ensures f * (v * x + rest) == f * (v * x) + f * rest
  {
  }

  /** Taking a multiple of a row that holds off another does not change whether that one holds. */
  lemma LessHolds(row: Row, f: real, pivot: Row, x: Row)
    requires |row| == |pivot| == |x| + 1 && RowHolds(pivot, x)
    ensures RowHolds(Less(row, f, pivot), x) <==> RowHolds(row, x)
  {
    DotLess(row, f, pivot, x, 0, |x|);
  }

  // ---- Elimination ----

  /** Among rows `col` to `end`, the first whose entry in the column is largest in magnitude. */
  function PivotAmong(a: seq<Row>, n: nat, col: nat, end: nat): (pivot: nat)
    requires Augmented(a, n) && col < end <= n
    ensures col <= pivot < end
    ensures forall r :: col <= r < end ==> Magnitude(a[r][col]) <= Magnitude(a[pivot][col])
    ensures forall r :: col <= r < pivot ==> Magnitude(a[r][col]) < Magnitude(a[pivot][col])
    decreases end
  {
    if end == col + 1 then col
    else
      var best := PivotAmong(a, n, col, end - 1);
      if Magnitude(a[end - 1][col]) > Magnitude(a[best][col]) then end - 1 else best
  }

  predicate HasPivot(a: seq<Row>, n: nat, col: nat)
    requires Augmented(a, n) && col < n
  {
    Magnitude(a[PivotAmong(a, n, col, n)][col]) >= PIVOT_FLOOR
  }

  function Swapped(a: seq<Row>, i: nat, j: nat): (b: seq<Row>)
    requires i < |a| && j < |a|
    ensures |b| == |a| && b[i] == a[j] && b[j] == a[i]
    ensures forall r :: 0 <= r < |a| && r != i && r != j ==> b[r] == a[r]
  {
    a[i := a[j]][j := a[i]]
  }

  /** Takes off every row below the pivot row the multiple of it that clears the pivot column. */
  function ClearedBelow(a: seq<Row>, n: nat, col: nat): (b: seq<Row>)
    requires Augmented(a, n) && col < n && a[col][col] != 0.0
    ensures Augmented(b, n) && forall r :: 0 <= r <= col ==> b[r] == a[r]
    ensures forall r :: col < r < n ==> b[r] == Less(a[r], a[r][col] / a[col][col], a[col])
  {
    seq(n, r requires 0 <= r < n => if r <= col then a[r] else Less(a[r], a[r][col] / a[col][col], a[col]))
  }

  /** The system after one column. */
  function ColumnStep(a: seq<Row>, n: nat, col: nat): (b: seq<Row>)
    requires Augmented(a, n) && col < n && HasPivot(a, n, col)
    ensures Augmented(b, n)
  {
    FloorIsPositive();
    ClearedBelow(Swapped(a, col, PivotAmong(a, n, col, n)), n, col)
  }

  /** How elimination ends: all columns done, or at a column whose candidates are all below the floor. */
  datatype Reduction = Reduced(system: seq<Row>) | OutOfPivots(system: seq<Row>, col: nat)

  function Reduce(a: seq<Row>, n: nat, col: nat): Reduction
    requires Augmented(a, n) && col <= n
    decreases n - col
  {
    if col == n then Reduced(a)
    else if !HasPivot(a, n, col) then OutOfPivots(a, col)
    else Reduce(ColumnStep(a, n, col), n, col + 1)
  }

  // ---- What elimination keeps ----

  lemma ClearingKeepsSolution(a: seq<Row>, n: nat, col: nat, x: Row)
    requires Augmented(a, n) && col < n && a[col][col] != 0.0 && |x| == n
    ensures Solves(a, x) <==> Solves(ClearedBelow(a, n, col), x)
  {
    hide RowHolds, Less;
    var b := ClearedBelow(a, n, col);
    assert b[col] == a[col];
    if RowHolds(a[col], x) {
      forall r | 0 <= r < n ensures RowHolds(b[r], x) <==> RowHolds(a[r], x) {
        if col < r { LessHolds(a[r], a[r][col] / a[col][col], a[col], x); }
      }
    }
  }

  lemma ClearingClears(a: seq<Row>, n: nat, col: nat)
    requires Augmented(a, n) && col < n && a[col][col] != 0.0 && Cleared(a, n, col)
    ensures Cleared(ClearedBelow(a, n, col), n, col + 1)
  {
    var b := ClearedBelow(a, n, col);
    forall r, c | 0 <= c < col + 1 && c < r < n ensures b[r][c] == 0.0 {
      if r > col { EntryCleared(a[r], a[col], col, c); }
    }
  }

  lemma EntryCleared(row: Row, pivot: Row, col: nat, c: nat)
    requires |row| == |pivot| && c <= col < |row| && pivot[col] != 0.0
    requires c < col ==> row[c] == 0.0 == pivot[c]
    ensures Less(row, row[col] / pivot[col], pivot)[c] == 0.0
  {
    Undivide(row[col], pivot[col]);
  }

  lemma SwapKeepsSolution(a: seq<Row>, i: nat, j: nat, x: Row)
    requires i < |a| && j < |a|
    ensures Solves(a, x) <==> Solves(Swapped(a, i, j), x)
  {
    hide RowHolds;
    var b := Swapped(a, i, j);
    if Solves(b, x) {
      forall r | 0 <= r < |a| ensures RowHolds(a[r], x) {
        assert a[r] == b[if r == i then j else if r == j then i else r];
      }
    }
  }

  /** One column keeps exactly the same solutions, clears the column and adds a usable pivot. */
  lemma ColumnStepKeeps(a: seq<Row>, n: nat, col: nat)
    requires Augmented(a, n) && col < n && Cleared(a, n, col) && Pivoted(a, n, col) && HasPivot(a, n, col)
    ensures var b := ColumnStep(a, n, col);
            Cleared(b, n, col + 1) && Pivoted(b, n, col + 1) && Equivalent(a, b, n)
  {
    hide Less, RowHolds, Solves;
    FloorIsPositive();
    var pivot := PivotAmong(a, n, col, n);
    var swapped := Swapped(a, col, pivot);
    ClearingClears(swapped, n, col);
    forall x: Row | |x| == n ensures Solves(a, x) <==> Solves(ColumnStep(a, n, col), x) {
      SwapKeepsSolution(a, col, pivot, x);
      ClearingKeepsSolution(swapped, n, col, x);
    }
  }

  /** Elimination keeps the solutions; it stops early exactly at a column whose candidates are all below the floor. */
  lemma {:induction false} ReduceKeeps(a: seq<Row>, n: nat, col: nat)
    requires Augmented(a, n) && col <= n && Cleared(a, n, col) && Pivoted(a, n, col)
    ensures var r := Reduce(a, n, col);
            && Augmented(r.system, n) && Equivalent(a, r.system, n)
            && (r.Reduced? ==> Cleared(r.system, n, n) && Pivoted(r.system, n, n))
            && (r.OutOfPivots? ==>
                  && col <= r.col < n && Cleared(r.system, n, r.col) && Pivoted(r.system, n, r.col)
                  && forall k :: r.col <= k < n ==> Magnitude(r.system[k][r.col]) < PIVOT_FLOOR)
    decreases n - col
  {
    hide Solves, ColumnStep, Cleared, Pivoted, PivotAmong;
    if col < n && HasPivot(a, n, col) {
      ColumnStepKeeps(a, n, col);
      ReduceKeeps(ColumnStep(a, n, col), n, col + 1);
    }
  }

  // ---- Elimination as the program runs it ----

  method FindPivot(a: seq<Row>, n: nat, col: nat) returns (pivot: nat)
    requires Augmented(a, n) && col < n
    ensures pivot == PivotAmong(a, n, col, n)
  {
    pivot := col;
    for r := col + 1 to n
      invariant pivot == PivotAmong(a, n, col, r)
    {
      if Magnitude(a[r][col]) > Magnitude(a[pivot][col]) {
        pivot := r;
      }
    }
  }

  /** Takes the multiple of the pivot row off one row that clears its entry in the pivot column. */
  method ClearEntry(row: Row, pivotRow: Row, n: nat, col: nat) returns (cleared: Row)
    requires |row| == |pivotRow| == n + 1 && col < n && pivotRow[col] != 0.0
    requires forall c :: 0 <= c < col ==> pivotRow[c] == 0.0
    ensures cleared == Less(row, row[col] / pivotRow[col], pivotRow)
  {
    var f := row[col] / pivotRow[col];
    cleared := row;
    for c := col to n + 1
      invariant |cleared| == n + 1
      invariant forall k :: col <= k < c ==> cleared[k] == row[k] - f * pivotRow[k]
      invariant forall k :: 0 <= k < n + 1 && !(col <= k < c) ==> cleared[k] == row[k]
    {
      cleared := cleared[c := cleared[c] - f * pivotRow[c]];
    }
    forall k | 0 <= k < n + 1 ensures cleared[k] == Less(row, f, pivotRow)[k] {
      if k < col { assert f * pivotRow[k] == 0.0; }
    }
  }

  /** One column: brings its largest entry to the diagonal and clears everything below it. */
  method EliminateColumn(a: seq<Row>, n: nat, col: nat, pivot: nat) returns (b: seq<Row>)
    requires Augmented(a, n) && col < n && Cleared(a, n, col) && HasPivot(a, n, col)
    requires pivot == PivotAmong(a, n, col, n)
    ensures b == ColumnStep(a, n, col)
  {
    hide Less, PivotAmong;
    FloorIsPositive();
    b := a[col := a[pivot]][pivot := a[col]];
    ghost var swapped := Swapped(a, col, pivot);
    for r := col + 1 to n
      invariant |b| == n
      invariant forall k :: 0 <= k < n ==> b[k] == if k < r then ClearedBelow(swapped, n, col)[k] else swapped[k]
    {
      var cleared := ClearEntry(b[r], b[col], n, col);
      b := b[r := cleared];
    }
  }

  lemma FloorIsPositive()
    ensures PIVOT_FLOOR > 0.0
  {
  }

  // ---- Back substitution ----

  /** A reduced row only sees the unknowns from its diagonal on. */
  lemma TailDecides(row: Row, x: Row, r: nat)
    requires |row| == |x| + 1 && r < |x| && forall c :: 0 <= c < r ==> row[c] == 0.0
    ensures Dot(row, x, 0, |x|) == row[r] * x[r] + Dot(row, x, r + 1, |x|)
  {
    DotSplit(row, x, 0, r, |x|);
    DotZero(row, x, 0, r);
  }

  method BackSubstitute(a: seq<Row>, n: nat) returns (x: Row)
    requires Augmented(a, n) && Cleared(a, n, n) && Pivoted(a, n, n)
    ensures |x| == n && Solves(a, x)
  {
    hide Dot, Pivoted, RowHolds;
    x := seq(n, _ => 0.0);
    for r := n downto 0
      invariant |x| == n
      invariant forall k :: r <= k < n ==> RowHolds(a[k], x)
    {
      ghost var was := x;
      PivotIsUsable(a, n, n, r);
      var rest := Dot(a[r], x, r + 1, n);
      var quotient := (a[r][n] - rest) / a[r][r];
      Undivide(a[r][n] - rest, a[r][r]);
      x := x[r := quotient];
      SetUnknown(a[r], was, x, r, quotient, a[r][n] - rest);
      HoldsIf(a[r], x);
      forall k | r < k < n ensures RowHolds(a[k], x) {
        LaterRowsKeep(a[k], was, x, k);
      }
    }
  }

  lemma PivotIsUsable(a: seq<Row>, n: nat, col: nat, r: nat)
    requires Augmented(a, n) && r < col <= n && Pivoted(a, n, col)
    ensures a[r][r] != 0.0
  {
    FloorIsPositive();
  }

  /** Setting one unknown makes its row's sum what the unknown's term is worth plus what the later unknowns give. */
  lemma SetUnknown(row: Row, was: Row, x: Row, r: nat, q: real, term: real)
    requires |row| == |x| + 1 == |was| + 1 && r < |x| && forall c :: 0 <= c < r ==> row[c] == 0.0
    requires x[r] == q && (forall c :: r < c < |x| ==> x[c] == was[c]) && row[r] * q == term
    ensures Dot(row, x, 0, |x|) == term + Dot(row, was, r + 1, |x|)
  {
    hide Dot;
    var n := |x|;
    TailDecides(row, x, r);
    assert Dot(row, x, r + 1, n) == Dot(row, was, r + 1, n) by { DotAgrees(row, x, row, was, r + 1, n); }
    assert x[r] == q;
    SameProduct(row[r], x[r], q);
  }

  lemma SameProduct(a: real, x: real, y: real)
    requires x == y
    ensures a * x == a * y
  {
  }

  lemma HoldsIf(row: Row, x: Row)
    requires |row| == |x| + 1 && Dot(row, x, 0, |x|) == row[|x|]
    ensures RowHolds(row, x)
  {
  }

  lemma LaterRowsKeep(row: Row, was: Row, x: Row, k: nat)
    requires |row| == |x| + 1 == |was| + 1 && k < |x| && forall c :: 0 <= c < k ==> row[c] == 0.0
    requires forall c :: k <= c < |x| ==> x[c] == was[c]
    requires RowHolds(row, was)
    ensures RowHolds(row, x)
  {
    hide Dot;
    var n := |x|;
    TailDecides(row, x, k);
    TailDecides(row, was, k);
    assert Dot(row, x, k + 1, n) == Dot(row, was, k + 1, n) by { DotAgrees(row, x, row, was, k + 1, n); }
    SameProduct(row[k], x[k], was[k]);
    assert Dot(row, x, 0, n) == Dot(row, was, 0, n);
  }

  /** A reduced system with usable pivots has no second solution. */
  lemma {:induction false} TriangularIsUnique(a: seq<Row>, n: nat, x: Row, y: Row, k: nat)
    requires Augmented(a, n) && Cleared(a, n, n) && Pivoted(a, n, n)
    requires |x| == |y| == n && Solves(a, x) && Solves(a, y) && k <= n
    ensures forall c :: k <= c < n ==> x[c] == y[c]
    decreases n - k
  {
    hide Dot, Pivoted;
    if k < n {
      TriangularIsUnique(a, n, x, y, k + 1);
      PivotIsUsable(a, n, n, k);
      assert RowHolds(a[k], x) && RowHolds(a[k], y);
      UnknownDecided(a[k], x, y, k);
    }
  }

  lemma UnknownDecided(row: Row, x: Row, y: Row, k: nat)
    requires |row| == |x| + 1 == |y| + 1 && k < |x| && row[k] != 0.0 && forall c :: 0 <= c < k ==> row[c] == 0.0
    requires RowHolds(row, x) && RowHolds(row, y) && forall c :: k < c < |x| ==> x[c] == y[c]
    ensures x[k] == y[k]
  {
    hide Dot;
    TailDecides(row, x, k);
    TailDecides(row, y, k);
    DotAgrees(row, x, row, y, k + 1, |x|);
    var n := |x|;
    var p, q, t := row[k] * x[k], row[k] * y[k], Dot(row, x, k + 1, n);
    assert Dot(row, x, 0, n) == p + t;
    assert Dot(row, y, 0, n) == q + Dot(row, y, k + 1, n);
    assert Dot(row, y, 0, n) == q + t;
    assert p == q;
    CancelReal(row[k], x[k], y[k]);
  }

  // ---- The solver ----

  function Augment(matrix: seq<Row>, vector: Row): (a: seq<Row>)
    requires Square(matrix, |vector|)
    ensures Augmented(a, |vector|) && forall r :: 0 <= r < |a| ==> a[r] == matrix[r] + [vector[r]]
  {
    seq(|vector|, r requires 0 <= r < |vector| => matrix[r] + [vector[r]])
  }

  lemma AugmentSolves(matrix: seq<Row>, vector: Row, x: Row)
    requires Square(matrix, |vector|) && |x| == |vector|
    ensures Satisfies(matrix, vector, x) <==> Solves(Augment(matrix, vector), x)
  {
    var a := Augment(matrix, vector);
    forall r | 0 <= r < |a| ensures RowHolds(a[r], x) <==> Dot(matrix[r], x, 0, |x|) == vector[r] {
      DotAgrees(a[r], x, matrix[r], x, 0, |x|);
    }
  }

  /** An answer is the one and only solution; there is none exactly when eliminating this system runs out of pivots. */
  method Solve(matrix: seq<Row>, vector: Row) returns (x: Option<Row>)
    requires Square(matrix, |vector|)
    ensures x.None? <==> Reduce(Augment(matrix, vector), |vector|, 0).OutOfPivots?
    ensures x.Some? ==> Satisfies(matrix, vector, x.value)
    ensures x.Some? ==> forall y :: Satisfies(matrix, vector, y) ==> y == x.value
  {
    hide Satisfies, Solves, Cleared, Pivoted, ColumnStep, HasPivot;
    var n := |vector|;
    var a := Augment(matrix, vector);
    ghost var start := a;
    NothingYet(a, n);
    ReduceKeeps(start, n, 0);
    for col := 0 to n
      invariant Augmented(a, n) && Cleared(a, n, col) && Pivoted(a, n, col)
      invariant Reduce(a, n, col) == Reduce(start, n, 0)
    {
      var pivot := FindPivot(a, n, col);
      PivotDecides(a, n, col);
      if Magnitude(a[pivot][col]) < PIVOT_FLOOR {
        return None;
      }
      ColumnStepKeeps(a, n, col);
      a := EliminateColumn(a, n, col, pivot);
    }
    var solution := BackSubstitute(a, n);
    forall y: Row | |y| == n ensures Satisfies(matrix, vector, y) <==> Solves(a, y) {
      AugmentSolves(matrix, vector, y);
    }
    forall y | Satisfies(matrix, vector, y) ensures y == solution {
      SatisfiesLength(matrix, vector, y);
      TriangularIsUnique(a, n, solution, y, 0);
    }
    x := Some(solution);
  }

  lemma PivotDecides(a: seq<Row>, n: nat, col: nat)
    requires Augmented(a, n) && col < n
    ensures HasPivot(a, n, col) <==> Magnitude(a[PivotAmong(a, n, col, n)][col]) >= PIVOT_FLOOR
  {
  }

  lemma NothingYet(a: seq<Row>, n: nat)
    requires Augmented(a, n)
    ensures Cleared(a, n, 0) && Pivoted(a, n, 0)
  {
  }

  lemma SatisfiesLength(matrix: seq<Row>, vector: Row, x: Row)
    requires Satisfies(matrix, vector, x)
    ensures |x| == |vector| && Square(matrix, |vector|)
  {
  }

  // ---- No answer, up to the threshold, means no single solution ----

  /** The rows above the stuck column, with the column itself set to 1: a direction no row can see. */
  lemma {:induction false} NullDirection(a: seq<Row>, n: nat, col: nat, k: nat) returns (d: Row)
    requires Augmented(a, n) && k <= col < n && Cleared(a, n, col) && Pivoted(a, n, col)
    ensures |d| == n && d[col] == 1.0 && forall c :: col < c < n ==> d[c] == 0.0
    ensures forall r :: k <= r < col ==> Dot(a[r], d, 0, n) == 0.0
    decreases col - k
  {
    hide Dot, Pivoted;
    if k == col {
      d := seq(n, c => if c == col then 1.0 else 0.0);
    } else {
      var e := NullDirection(a, n, col, k + 1);
      PivotIsUsable(a, n, col, k);
      var rest := Dot(a[k], e, k + 1, n);
      var quotient := (0.0 - rest) / a[k][k];
      Undivide(0.0 - rest, a[k][k]);
      d := e[k := quotient];
      SetUnknown(a[k], e, d, k, quotient, 0.0 - rest);
      forall r | k < r < col ensures Dot(a[r], d, 0, n) == 0.0 {
        TailDecides(a[r], d, r);
        DotAgrees(a[r], d, a[r], e, r + 1, n);
        TailDecides(a[r], e, r);
      }
    }
  }

  function Sum(x: Row, d: Row): (s: Row)
    requires |x| == |d|
    ensures |s| == |x| && forall c :: 0 <= c < |s| ==> s[c] == x[c] + d[c]
  {
    seq(|x|, c requires 0 <= c < |x| => x[c] + d[c])
  }

  lemma {:induction false} DotSum(u: Row, x: Row, d: Row, lo: nat, hi: nat)
    requires |x| == |d| && lo <= hi <= |x| && hi <= |u|
    ensures Dot(u, Sum(x, d), lo, hi) == Dot(u, x, lo, hi) + Dot(u, d, lo, hi)
    decreases hi - lo
  {
    if lo < hi { DotSum(u, x, d, lo + 1, hi); }
  }

  /** Every candidate of the column is exactly zero. */
  predicate ZeroColumn(a: seq<Row>, col: nat) {
    forall r :: col <= r < |a| ==> col < |a[r]| && a[r][col] == 0.0
  }

  /** When the column that ran out of pivots is exactly zero, no solution is the only one: refusing to answer is then
      not just caution but right. */
  lemma ZeroPivotHasNoSingleSolution(matrix: seq<Row>, vector: Row, x: Row) returns (other: Row)
    requires Satisfies(matrix, vector, x)
    requires var r := Reduce(Augment(matrix, vector), |vector|, 0); r.OutOfPivots? && ZeroColumn(r.system, r.col)
    ensures Satisfies(matrix, vector, other) && other != x
  {
    hide Reduce, Satisfies;
    var n := |vector|;
    SatisfiesLength(matrix, vector, x);
    ReduceKeeps(Augment(matrix, vector), n, 0);
    var r := Reduce(Augment(matrix, vector), n, 0);
    AugmentSolves(matrix, vector, x);
    other := OtherSolution(r.system, n, r.col, x);
    AugmentSolves(matrix, vector, other);
  }

  lemma OtherSolution(a: seq<Row>, n: nat, col: nat, x: Row) returns (other: Row)
    requires Augmented(a, n) && col < n && Cleared(a, n, col) && Pivoted(a, n, col)
    requires |x| == n && Solves(a, x) && forall r :: col <= r < n ==> a[r][col] == 0.0
    ensures |other| == n && Solves(a, other) && other != x
  {
    hide Dot, Pivoted;
    var d := NullDirection(a, n, col, 0);
    other := Sum(x, d);
    forall r | 0 <= r < n ensures RowHolds(a[r], other) {
      assert RowHolds(a[r], x);
      if r >= col { DotZero(a[r], d, 0, n); }
      DotSum(a[r], x, d, 0, n);
    }
    assert other[col] != x[col];
  }

  // ---- Refusing a system that has a single solution ----

  /** One equation whose coefficient is below the floor but not zero has a single solution, and is refused. */
  lemma TinyPivotIsRefused(t: real, v: real, q: real)
    requires 0.0 < Magnitude(t) < PIVOT_FLOOR && t * q == v
    ensures Reduce(Augment([[t]], [v]), 1, 0).OutOfPivots?
    ensures forall x: Row :: Satisfies([[t]], [v], x) <==> x == [q]
  {
    hide Reduce, Satisfies;
    TinySystem(Augment([[t]], [v]));
    forall x: Row ensures Satisfies([[t]], [v], x) <==> x == [q] {
      OneEquation(t, v, q, x);
    }
  }

  /** A single equation is refused exactly when its coefficient is below the floor, which is 10^-300. */
  lemma RefusedBelowFloor(t: real, v: real)
    ensures Reduce(Augment([[t]], [v]), 1, 0).OutOfPivots? <==> Magnitude(t) < PIVOT_FLOOR
    ensures PIVOT_FLOOR * Pow10(300) == 1.0
  {
    SingleSystem(Augment([[t]], [v]));
    FloorIsExact();
  }

  lemma FloorIsExact()
    ensures PIVOT_FLOOR * Pow10(300) == 1.0
  {
    var p := Pow10(300);
    assert p >= 1.0;
    Undivide(1.0, p);
  }

  lemma SingleSystem(a: seq<Row>)
    requires Augmented(a, 1)
    ensures Reduce(a, 1, 0).OutOfPivots? <==> Magnitude(a[0][0]) < PIVOT_FLOOR
  {
  }

  lemma TinySystem(a: seq<Row>)
    requires Augmented(a, 1) && Magnitude(a[0][0]) < PIVOT_FLOOR
    ensures Reduce(a, 1, 0) == OutOfPivots(a, 0)
  {
  }

  lemma OneEquation(t: real, v: real, q: real, x: Row)
    requires t != 0.0 && t * q == v
    ensures Satisfies([[t]], [v], x) <==> x == [q]
  {
    hide Dot;
    var m: seq<Row> := [[t]];
    if |x| == 1 {
      OneTerm(m[0], x);
      if t * x[0] == v { CancelReal(t, x[0], q); }
      assert Satisfies(m, [v], x) <==> Dot(m[0], x, 0, 1) == v;
    }
  }

  lemma OneTerm(u: Row, x: Row)
    requires |u| == |x| == 1
    ensures Dot(u, x, 0, |x|) == u[0] * x[0]
  {
    assert Dot(u, x, 1, 1) == 0.0;
  }

  /** A coefficient of 1e-301: the solution 5e301 is the only one, and the solver does not give it. */
  lemma RefusedThoughSolvable()
    ensures var t := 1.0 / Pow10(301);
            && Reduce(Augment([[t]], [5.0]), 1, 0).OutOfPivots?
            && Satisfies([[t]], [5.0], [5.0 * Pow10(301)])
            && forall x: Row :: Satisfies([[t]], [5.0], x) ==> x == [5.0 * Pow10(301)]
  {
    hide Satisfies, Reduce;
    var p, t := Pow10(301), 1.0 / Pow10(301);
    TenthIsSmaller();
    assert t * (5.0 * p) == 5.0 by { Undivide(1.0, p); }
    TinyPivotIsRefused(t, 5.0, 5.0 * p);
  }

  lemma TenthIsSmaller()
    ensures 0.0 < 1.0 / Pow10(301) < PIVOT_FLOOR
  {
    var p := Pow10(300);
    assert Pow10(301) == 10.0 * p;
    hide Pow10;
    Undivide(1.0, p);
    Undivide(1.0, 10.0 * p);
    Tenth(1.0 / p, 1.0 / (10.0 * p), p);
  }

  lemma Tenth(a: real, b: real, p: real)
    requires p >= 1.0 && a * p == 1.0 && b * (10.0 * p) == 1.0
    ensures 0.0 < b < a
  {
    assert (10.0 * b - a) * p == 0.0;
    if a <= 0.0 { ScaleReal(a, 0.0, p); }
  }

}
