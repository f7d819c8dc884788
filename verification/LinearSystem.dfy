/**
 Gaussian elimination over the scalar field, in place on the matrix rows, with the free
 variables set to zero.  Every row operation keeps the solution set, so the reduced
 system answers for the original one.
 */
module LinearSystem {
  import opened Basics
  import opened Modular
  import opened Polynomials

  /** Marks a column that no pivot row was found for. */
  const FREE: int := -1

  ghost function Dot(row: seq<int>, x: seq<int>): int
    requires |row| == |x|
  {
    if row == [] then 0 else row[0] * x[0] + Dot(row[1..], x[1..])
  }

  ghost predicate Rectangular(a: seq<seq<int>>, width: nat) {
    forall r :: 0 <= r < |a| ==> |a[r]| == width
  }

  ghost predicate Reduced(p: int, a: seq<seq<int>>) {
    forall r :: 0 <= r < |a| ==> AllCanonical(p, a[r])
  }

  ghost predicate Holds(p: int, row: seq<int>, b: int, x: seq<int>)
    requires |row| == |x|
  {
    Cong(p, Dot(row, x), b)
  }

  ghost predicate Solves(p: int, a: seq<seq<int>>, b: seq<int>, x: seq<int>)
    requires |a| == |b| && Rectangular(a, |x|)
  {
    forall r :: 0 <= r < |a| ==> Holds(p, a[r], b[r], x)
  }

  ghost predicate SameSolutions(p: int, n: nat, a: seq<seq<int>>, b: seq<int>, a': seq<seq<int>>, b': seq<int>)
    requires |a| == |b| && Rectangular(a, n)
    requires |a'| == |b'| && Rectangular(a', n)
  {
    forall x: seq<int> :: |x| == n ==> (Solves(p, a, b, x) <==> Solves(p, a', b', x))
  }

  // ----- linearity -----

  /** t is u*a + v*b entry by entry, modulo p. */
  ghost predicate Combines(p: int, t: seq<int>, u: int, a: seq<int>, v: int, b: seq<int>) {
    && |t| == |a| == |b|
    && forall c :: 0 <= c < |t| ==> Cong(p, t[c], u * a[c] + v * b[c])
  }

  lemma {:induction false} DotCombines(p: int, t: seq<int>, u: int, a: seq<int>, v: int, b: seq<int>, x: seq<int>)
    requires p > 0 && Combines(p, t, u, a, v, b) && |x| == |t|
    ensures Cong(p, Dot(t, x), u * Dot(a, x) + v * Dot(b, x))
  {
    hide Cong;
    if t == [] {
      CongRefl(p, 0);
    } else {
      assert Combines(p, t[1..], u, a[1..], v, b[1..]) by {
        forall c | 0 <= c < |t| - 1 ensures Cong(p, t[1..][c], u * a[1..][c] + v * b[1..][c]) {
          assert Cong(p, t[c + 1], u * a[c + 1] + v * b[c + 1]);
        }
      }
      DotCombines(p, t[1..], u, a[1..], v, b[1..], x[1..]);
      CombineCong(p, u, v, t[0], a[0], b[0], x[0], Dot(t[1..], x[1..]), Dot(a[1..], x[1..]), Dot(b[1..], x[1..]));
    }
  }

  lemma CombineCong(p: int, u: int, v: int, t: int, a: int, b: int, x: int, dt: int, da: int, db: int)
    requires p > 0 && Cong(p, t, u * a + v * b) && Cong(p, dt, u * da + v * db)
    ensures Cong(p, t * x + dt, u * (a * x + da) + v * (b * x + db))
  {
    hide Cong;
    CongScale(p, x, t, u * a + v * b);
    CongAdd(p, x * t, x * (u * a + v * b), dt, u * da + v * db);
    CombineStep(u, v, a, b, x, da, db);
    assert x * t == t * x;
  }

  lemma CombineStep(u: int, v: int, a: int, b: int, x: int, da: int, db: int)
    ensures x * (u * a + v * b) + (u * da + v * db) == u * (a * x + da) + v * (b * x + db)
  {}

  lemma {:induction false} DotZero(row: seq<int>, x: seq<int>)
    requires |row| == |x|
    requires forall c :: 0 <= c < |row| ==> row[c] == 0 || x[c] == 0
    ensures Dot(row, x) == 0
  {
    if row != [] {
      assert row[0] * x[0] == 0;
      DotZero(row[1..], x[1..]);
    }
  }

  /** When one column alone meets a non-zero unknown, the product is that term. */
  lemma {:induction false} DotSingle(row: seq<int>, x: seq<int>, k: nat)
    requires |row| == |x| && k < |row|
    requires forall c :: 0 <= c < |row| && c != k ==> row[c] == 0 || x[c] == 0
    ensures Dot(row, x) == row[k] * x[k]
  {
    if k == 0 {
      DotZero(row[1..], x[1..]);
    } else {
      assert row[0] * x[0] == 0;
      DotSingle(row[1..], x[1..], k - 1);
    }
  }

  lemma {:induction false} DotConcat(a: seq<int>, b: seq<int>, u: seq<int>, v: seq<int>)
    requires |a| == |u| && |b| == |v|
    ensures Dot(a + b, u + v) == Dot(a, u) + Dot(b, v)
  {
    if a == [] {
      assert a + b == b && u + v == v;
    } else {
      assert (a + b)[1..] == a[1..] + b && (u + v)[1..] == u[1..] + v;
      DotConcat(a[1..], b, u[1..], v);
    }
  }

  // ----- rows of powers -----

  /** row[c] stands for s * x^(k+c). */
  ghost predicate Geometric(p: int, row: seq<int>, s: int, x: int, k: nat) {
    forall c :: 0 <= c < |row| ==> Cong(p, row[c], s * Power(x, k + c))
  }

  lemma {:induction false} DotGeometric(p: int, row: seq<int>, s: int, x: int, k: nat, v: seq<int>)
    requires p > 0 && |row| == |v| && Geometric(p, row, s, x, k)
    ensures Cong(p, Dot(row, v), s * Power(x, k) * Eval(v, x))
  {
    if row == [] {
      assert s * Power(x, k) * 0 == 0;
      CongRefl(p, 0);
    } else {
      GeometricTail(p, row, s, x, k);
      DotGeometric(p, row[1..], s, x, k + 1, v[1..]);
      assert Cong(p, row[0], s * Power(x, k + 0));
      assert k + 0 == k && Power(x, k + 1) == x * Power(x, k);
      hide Cong, Power;
      GeometricStep(p, row[0], s, Power(x, k), v[0], x, Eval(v[1..], x), Dot(row[1..], v[1..]));
    }
  }

  lemma GeometricTail(p: int, row: seq<int>, s: int, x: int, k: nat)
    requires row != [] && Geometric(p, row, s, x, k)
    ensures Geometric(p, row[1..], s, x, k + 1)
  {
    hide Cong, Power;
    forall c | 0 <= c < |row| - 1 ensures Cong(p, row[1..][c], s * Power(x, k + 1 + c)) {
      assert Cong(p, row[c + 1], s * Power(x, k + (c + 1)));
      assert k + (c + 1) == k + 1 + c;
    }
  }

  lemma GeometricStep(p: int, r: int, s: int, w: int, v: int, x: int, e: int, rest: int)
    requires Cong(p, r, s * w) && Cong(p, rest, s * (x * w) * e)
    ensures Cong(p, r * v + rest, s * w * (v + x * e))
  {
    hide Cong;
    CongScale(p, v, r, s * w);
    CongAdd(p, v * r, v * (s * w), rest, s * (x * w) * e);
    GeometricRing(s, w, v, x, e);
    assert v * r == r * v;
  }

  lemma GeometricRing(s: int, w: int, v: int, x: int, e: int)
    ensures v * (s * w) + s * (x * w) * e == s * w * (v + x * e)
  {
    assert s * w * (v + x * e) == s * w * v + s * w * (x * e);
    assert s * w * (x * e) == s * (x * w) * e;
  }

  // ----- row operations keep the solution set -----

  lemma SwapKeeps(p: int, n: nat, a: seq<seq<int>>, b: seq<int>, i: nat, j: nat)
    requires |a| == |b| && Rectangular(a, n) && i < |a| && j < |a|
    ensures var a', b' := a[i := a[j]][j := a[i]], b[i := b[j]][j := b[i]];
            Rectangular(a', n) && SameSolutions(p, n, a, b, a', b')
  {
    hide Holds;
    var a', b' := a[i := a[j]][j := a[i]], b[i := b[j]][j := b[i]];
    forall x: seq<int> | |x| == n ensures Solves(p, a, b, x) <==> Solves(p, a', b', x) {
      if Solves(p, a', b', x) {
        forall r | 0 <= r < |a| ensures Holds(p, a[r], b[r], x) {
          assert Holds(p, a'[i], b'[i], x) && Holds(p, a'[j], b'[j], x) && Holds(p, a'[r], b'[r], x);
        }
      }
    }
  }

  /** Replacing one row by another that holds exactly when it does, given the rest. */
  lemma ReplaceKeeps(p: int, n: nat, a: seq<seq<int>>, b: seq<int>, k: nat, row: seq<int>, v: int)
    requires |a| == |b| && Rectangular(a, n) && k < |a| && |row| == n
    requires forall x: seq<int> :: |x| == n && OthersHold(p, a, b, k, x) ==>
               (Holds(p, a[k], b[k], x) <==> Holds(p, row, v, x))
    ensures Rectangular(a[k := row], n) && SameSolutions(p, n, a, b, a[k := row], b[k := v])
  {
    hide Holds;
    var a', b' := a[k := row], b[k := v];
    forall x: seq<int> | |x| == n ensures Solves(p, a, b, x) <==> Solves(p, a', b', x) {
      if Solves(p, a', b', x) {
        forall r | 0 <= r < |a| && r != k ensures Holds(p, a[r], b[r], x) {
          assert Holds(p, a'[r], b'[r], x);
        }
        assert OthersHold(p, a, b, k, x) && Holds(p, a'[k], b'[k], x);
      }
      if Solves(p, a, b, x) {
        assert OthersHold(p, a, b, k, x);
        assert Holds(p, row, v, x);
      }
    }
  }

  ghost predicate OthersHold(p: int, a: seq<seq<int>>, b: seq<int>, k: nat, x: seq<int>)
    requires |a| == |b| && Rectangular(a, |x|)
  {
    forall r :: 0 <= r < |a| && r != k ==> Holds(p, a[r], b[r], x)
  }

  lemma ScaleKeeps(p: int, n: nat, a: seq<seq<int>>, b: seq<int>, k: nat, row: seq<int>, v: int, m: int)
    requires Prime(p) && |a| == |b| && Rectangular(a, n) && k < |a|
    requires Combines(p, row, m, a[k], 0, a[k]) && Cong(p, v, m * b[k]) && !Cong(p, m, 0)
    ensures Rectangular(a[k := row], n) && SameSolutions(p, n, a, b, a[k := row], b[k := v])
  {
    forall x: seq<int> | |x| == n ensures Holds(p, a[k], b[k], x) <==> Holds(p, row, v, x) {
      ScaleHolds(p, a[k], b[k], row, v, m, x);
    }
    ReplaceKeeps(p, n, a, b, k, row, v);
  }

  lemma ScaleHolds(p: int, a: seq<int>, b: int, row: seq<int>, v: int, m: int, x: seq<int>)
    requires Prime(p) && |x| == |a| && Combines(p, row, m, a, 0, a) && Cong(p, v, m * b) && !Cong(p, m, 0)
    ensures Holds(p, a, b, x) <==> Holds(p, row, v, x)
  {
    assert p > 0;
    hide Cong, Prime;
    var d, e := Dot(a, x), Dot(row, x);
    DotCombines(p, row, m, a, 0, a, x);
    assert m * d + 0 * d == m * d;
    CongSym(p, v, m * b);
    if Cong(p, d, b) {
      CongScale(p, m, d, b);
      CongTrans(p, e, m * d, m * b);
      CongTrans(p, e, m * b, v);
    }
    if Cong(p, e, v) {
      CongSym(p, e, m * d);
      CongTrans(p, m * d, e, v);
      CongTrans(p, m * d, v, m * b);
      Cancel(p, m, d, b);
    }
  }

  lemma EliminateKeeps(p: int, n: nat, a: seq<seq<int>>, b: seq<int>, k: nat, pivot: nat, row: seq<int>, v: int, f: int)
    requires p > 0 && |a| == |b| && Rectangular(a, n) && k < |a| && pivot < |a| && k != pivot
    requires Combines(p, row, 1, a[k], -f, a[pivot]) && Cong(p, v, b[k] - f * b[pivot])
    ensures Rectangular(a[k := row], n) && SameSolutions(p, n, a, b, a[k := row], b[k := v])
  {
    forall x: seq<int> | |x| == n && OthersHold(p, a, b, k, x)
      ensures Holds(p, a[k], b[k], x) <==> Holds(p, row, v, x)
    {
      EliminateHolds(p, a[k], b[k], a[pivot], b[pivot], row, v, f, x);
    }
    ReplaceKeeps(p, n, a, b, k, row, v);
  }

  lemma EliminateHolds(p: int, a: seq<int>, b: int, pivot: seq<int>, bp: int, row: seq<int>, v: int, f: int,
                       x: seq<int>)
    requires p > 0 && |x| == |a| == |pivot| && Combines(p, row, 1, a, -f, pivot) && Cong(p, v, b - f * bp)
    requires Holds(p, pivot, bp, x)
    ensures Holds(p, a, b, x) <==> Holds(p, row, v, x)
  {
    hide Cong;
    var d, e, g := Dot(a, x), Dot(row, x), Dot(pivot, x);
    DotCombines(p, row, 1, a, -f, pivot, x);
    assert 1 * d + -f * g == d - f * g;
    CongScale(p, f, g, bp);
    CongSym(p, v, b - f * bp);
    if Cong(p, d, b) {
      CongSub(p, d, b, f * g, f * bp);
      CongTrans(p, e, d - f * g, b - f * bp);
      CongTrans(p, e, b - f * bp, v);
    }
    if Cong(p, e, v) {
      CongSym(p, e, d - f * g);
      CongTrans(p, d - f * g, e, v);
      CongTrans(p, d - f * g, v, b - f * bp);
      CongAdd(p, d - f * g, b - f * bp, f * g, f * bp);
    }
  }

  lemma SameSolutionsRefl(p: int, n: nat, a: seq<seq<int>>, b: seq<int>)
    requires |a| == |b| && Rectangular(a, n)
    ensures SameSolutions(p, n, a, b, a, b)
  {
    hide Solves;
  }

  lemma SameSolutionsTrans(p: int, n: nat, a: seq<seq<int>>, b: seq<int>, a': seq<seq<int>>, b': seq<int>,
                           a'': seq<seq<int>>, b'': seq<int>)
    requires |a| == |b| && Rectangular(a, n) && |a'| == |b'| && Rectangular(a', n) && |a''| == |b''|
             && Rectangular(a'', n)
    requires SameSolutions(p, n, a, b, a', b') && SameSolutions(p, n, a', b', a'', b'')
    ensures SameSolutions(p, n, a, b, a'', b'')
  {
    hide Solves;
  }

  // ----- the elimination's shape -----

  /**
   What holds before each column: rows at or below `row` are zero left of `column`, a pivot
   column is one in its pivot row and zero in every other, and a pivot row is zero left of its
   pivot.  `columnOf` lists the pivot columns in row order, which is increasing: reduced row
   echelon form, so a system has one set of pivot columns.
   */
  ghost predicate Echelon(a: seq<seq<int>>, n: nat, pivotOf: seq<int>, columnOf: seq<int>, row: nat, column: nat) {
    && Rectangular(a, n) && |pivotOf| == n && column <= n && row == |columnOf| <= |a|
    && (forall r, c :: row <= r < |a| && 0 <= c < column ==> a[r][c] == 0)
    && (forall c :: column <= c < n ==> pivotOf[c] == FREE)
    && (forall c :: 0 <= c < n && pivotOf[c] != FREE ==> 0 <= pivotOf[c] < row && columnOf[pivotOf[c]] == c)
    && (forall k :: 0 <= k < row ==> 0 <= columnOf[k] < column && pivotOf[columnOf[k]] == k && a[k][columnOf[k]] == 1)
    && (forall k, r :: 0 <= k < row && 0 <= r < |a| && r != k ==> a[r][columnOf[k]] == 0)
    && (forall k, c :: 0 <= k < row && 0 <= c < columnOf[k] ==> a[k][c] == 0)
    && (forall j, k :: 0 <= j < k < row ==> columnOf[j] < columnOf[k])
  }

  /** The unknowns read off a reduced system: the pivot row's right-hand side, or zero. */
  ghost predicate ReadOff(b: seq<int>, pivotOf: seq<int>, x: seq<int>) {
    && |x| == |pivotOf|
    && forall c :: 0 <= c < |x| ==>
         if pivotOf[c] == FREE then x[c] == 0 else 0 <= pivotOf[c] < |b| && x[c] == b[pivotOf[c]]
  }

  function Unknowns(b: seq<int>, pivotOf: seq<int>): (x: seq<int>)
    requires forall c :: 0 <= c < |pivotOf| ==> pivotOf[c] == FREE || 0 <= pivotOf[c] < |b|
    ensures ReadOff(b, pivotOf, x)
  {
    seq(|pivotOf|, c requires 0 <= c < |pivotOf| => if pivotOf[c] == FREE then 0 else b[pivotOf[c]])
  }

  lemma ReadOffSolves(p: int, a: seq<seq<int>>, b: seq<int>, n: nat, pivotOf: seq<int>, columnOf: seq<int>, row: nat,
                      column: nat, x: seq<int>)
    requires p > 0 && |a| == |b| && Echelon(a, n, pivotOf, columnOf, row, column) && ReadOff(b, pivotOf, x)
    requires forall r :: row <= r < |a| ==> b[r] == 0 && column == n
    ensures Solves(p, a, b, x)
  {
    forall r | 0 <= r < |a| ensures Holds(p, a[r], b[r], x) {
      if r < row {
        var k := columnOf[r];
        forall c | 0 <= c < n && c != k ensures a[r][c] == 0 || x[c] == 0 {
          if pivotOf[c] != FREE {
            assert columnOf[pivotOf[c]] == c && pivotOf[c] != r;
          }
        }
        DotSingle(a[r], x, k);
      } else {
        DotZero(a[r], x);
      }
      CongRefl(p, b[r]);
    }
  }

  lemma ZeroRowRefutes(p: int, n: nat, a: seq<seq<int>>, b: seq<int>, r: nat, x: seq<int>)
    requires |a| == |b| && Rectangular(a, n) && r < |a| && |x| == n
    requires forall c :: 0 <= c < n ==> a[r][c] == 0
    requires Canonical(p, b[r]) && b[r] != 0
    ensures !Solves(p, a, b, x)
  {
    DotZero(a[r], x);
    if Holds(p, a[r], b[r], x) {
      CanonicalUnique(p, 0, b[r]);
    }
  }

  // ----- the loops -----

  method FindPivot(matrix: array<seq<int>>, row: nat, column: nat) returns (found: nat)
    requires row <= matrix.Length && forall r :: 0 <= r < matrix.Length ==> column < |matrix[r]|
    ensures row <= found <= matrix.Length
    ensures forall r :: row <= r < found ==> matrix[r][column] == 0
    ensures found < matrix.Length ==> matrix[found][column] != 0
  {
    found := row;
    while found < matrix.Length
      invariant row <= found <= matrix.Length
      invariant forall r :: row <= r < found ==> matrix[r][column] == 0
    {
      if matrix[found][column] != 0 { return; }
      found := found + 1;
    }
  }

  method ScaleRow(p: int, cells: seq<int>, column: nat, inverse: int) returns (out: seq<int>)
    requires p > 0 && column <= |cells| && AllCanonical(p, cells)
    requires forall c :: 0 <= c < column ==> cells[c] == 0
    ensures |out| == |cells| && AllCanonical(p, out)
    ensures forall c :: 0 <= c < column ==> out[c] == 0
    ensures forall c :: column <= c < |cells| ==> out[c] == Mul(p, cells[c], inverse)
    ensures Combines(p, out, inverse, cells, 0, cells)
  {
    out := cells;
    for c := column to |cells|
      invariant |out| == |cells| && AllCanonical(p, out)
      invariant forall i :: 0 <= i < column || c <= i < |cells| ==> out[i] == cells[i]
      invariant forall i :: column <= i < c ==> out[i] == Mul(p, cells[i], inverse)
    {
      Ops(p, out[c], inverse);
      out := out[c := Mul(p, out[c], inverse)];
    }
    forall c | 0 <= c < |out| ensures Cong(p, out[c], inverse * cells[c] + 0 * cells[c]) {
      Ops(p, cells[c], inverse);
      CongRefl(p, 0);
      assert cells[c] * inverse == inverse * cells[c] + 0 * cells[c];
    }
  }

  method EliminateRow(p: int, cells: seq<int>, pivot: seq<int>, column: nat) returns (out: seq<int>)
    requires p > 0 && |cells| == |pivot| && column < |cells|
    requires AllCanonical(p, cells) && AllCanonical(p, pivot) && pivot[column] == 1
    requires forall c :: 0 <= c < column ==> pivot[c] == 0
    ensures |out| == |cells| && AllCanonical(p, out)
    ensures forall c :: 0 <= c < column ==> out[c] == cells[c]
    ensures out[column] == 0
    ensures Combines(p, out, 1, cells, -cells[column], pivot)
  {
    var factor := cells[column];
    out := cells;
    for c := column to |cells|
      invariant |out| == |cells| && AllCanonical(p, out)
      invariant forall i :: 0 <= i < column || c <= i < |cells| ==> out[i] == cells[i]
      invariant forall i :: column <= i < c ==> out[i] == Sub(p, cells[i], Mul(p, pivot[i], factor))
    {
      var value := Mul(p, pivot[c], factor);
      Ops(p, out[c], value);
      out := out[c := Sub(p, out[c], value)];
    }
    assert out[column] == 0 by {
      ModSmall(p, factor);
      assert Mul(p, pivot[column], factor) == factor;
      ModSmall(p, 0);
    }
    forall c | 0 <= c < |out| ensures Cong(p, out[c], 1 * cells[c] + -factor * pivot[c]) {
      if c < column {
        assert -factor * pivot[c] == 0;
        CongRefl(p, cells[c]);
      } else {
        SubMul(p, cells[c], pivot[c], factor);
        assert cells[c] - pivot[c] * factor == 1 * cells[c] + -factor * pivot[c];
      }
    }
  }

  lemma SubMul(p: int, a: int, b: int, f: int)
    requires p > 0
    ensures Cong(p, Sub(p, a, Mul(p, b, f)), a - b * f)
  {
    hide Cong, Sub, Mul;
    Ops(p, b, f);
    Ops(p, a, Mul(p, b, f));
    CongRefl(p, a);
    CongSub(p, a, a, Mul(p, b, f), b * f);
    CongTrans(p, Sub(p, a, Mul(p, b, f)), a - Mul(p, b, f), a - b * f);
  }

  method SwapRows(p: int, matrix: array<seq<int>>, rhs: array<int>, n: nat, i: nat, j: nat)
    requires matrix.Length == rhs.Length && i < matrix.Length && j < matrix.Length && Rectangular(matrix[..], n)
    modifies matrix, rhs
    ensures matrix[..] == old(matrix[..][i := matrix[j]][j := matrix[i]])
    ensures rhs[..] == old(rhs[..][i := rhs[j]][j := rhs[i]])
    ensures Rectangular(matrix[..], n) && SameSolutions(p, n, old(matrix[..]), old(rhs[..]), matrix[..], rhs[..])
  {
    SwapKeeps(p, n, matrix[..], rhs[..], i, j);
    matrix[i], matrix[j] := matrix[j], matrix[i];
    rhs[i], rhs[j] := rhs[j], rhs[i];
    assert matrix[..] == old(matrix[..][i := matrix[j]][j := matrix[i]]);
    assert rhs[..] == old(rhs[..][i := rhs[j]][j := rhs[i]]);
  }

  /** Divide the pivot row, and its right-hand side, by the pivot. */
  method ScalePivot(p: int, matrix: array<seq<int>>, rhs: array<int>, n: nat, row: nat, column: nat)
    requires Prime(p) && matrix.Length == rhs.Length && row < matrix.Length && column < n
    requires Rectangular(matrix[..], n) && Reduced(p, matrix[..]) && AllCanonical(p, rhs[..])
             && matrix[row][column] != 0
    requires forall c :: 0 <= c < column ==> matrix[row][c] == 0
    modifies matrix, rhs
    ensures Rectangular(matrix[..], n) && Reduced(p, matrix[..]) && AllCanonical(p, rhs[..])
    ensures matrix[row][column] == 1 && forall c :: 0 <= c < column ==> matrix[row][c] == 0
    ensures forall r :: 0 <= r < matrix.Length && r != row ==> matrix[r] == old(matrix[r])
    ensures SameSolutions(p, n, old(matrix[..]), old(rhs[..]), matrix[..], rhs[..])
  {
    ghost var a, b := matrix[..], rhs[..];
    assert matrix[row] == a[row] && rhs[row] == b[row];
    PivotInvertible(p, matrix[row][column]);
    var inverse := Inv(p, matrix[row][column]);
    var cells := ScaleRow(p, matrix[row], column, inverse);
    Ops(p, rhs[row], inverse);
    var v := Mul(p, rhs[row], inverse);
    assert rhs[row] * inverse == inverse * b[row];
    hide Mul, Inv, Cong, Combines;
    ScaleKeeps(p, n, a, b, row, cells, v, inverse);
    hide SameSolutions;
    matrix[row] := cells;
    rhs[row] := v;
    assert matrix[..] == a[row := cells] && rhs[..] == b[row := v];
  }

  /** Bring the pivot to `row` and scale that row so that the pivot is one. */
  method RaisePivot(p: int, matrix: array<seq<int>>, rhs: array<int>, n: nat, row: nat, column: nat, found: nat)
    requires Prime(p) && matrix.Length == rhs.Length && row <= found < matrix.Length && column < n
    requires Rectangular(matrix[..], n) && Reduced(p, matrix[..]) && AllCanonical(p, rhs[..])
             && matrix[found][column] != 0
    requires forall c :: 0 <= c < column ==> matrix[found][c] == 0
    modifies matrix, rhs
    ensures Rectangular(matrix[..], n) && Reduced(p, matrix[..]) && AllCanonical(p, rhs[..])
    ensures matrix[row][column] == 1 && forall c :: 0 <= c < column ==> matrix[row][c] == 0
    ensures forall r :: 0 <= r < matrix.Length && r != row ==> matrix[r] == old(matrix[if r == found then row else r])
    ensures SameSolutions(p, n, old(matrix[..]), old(rhs[..]), matrix[..], rhs[..])
  {
    hide SameSolutions;
    ghost var a0, b0 := matrix[..], rhs[..];
    assert a0[found] == matrix[found];
    SwapRows(p, matrix, rhs, n, row, found);
    ghost var a1, b1 := matrix[..], rhs[..];
    assert matrix[row] == a1[row];
    ScalePivot(p, matrix, rhs, n, row, column);
    SameSolutionsTrans(p, n, a0, b0, a1, b1, matrix[..], rhs[..]);
    forall r | 0 <= r < matrix.Length && r != row ensures matrix[r] == a0[if r == found then row else r] {
      assert matrix[r] == a1[r];
    }
  }

  lemma EchelonExtends(a: seq<seq<int>>, a': seq<seq<int>>, n: nat, pivotOf: seq<int>, columnOf: seq<int>, row: nat,
                       column: nat)
    requires Echelon(a, n, pivotOf, columnOf, row, column) && row < |a| == |a'| && column < n && Rectangular(a', n)
    requires forall r, c :: 0 <= r < row && 0 <= c < column ==> a'[r][c] == a[r][c]
    requires forall r, c :: row <= r < |a'| && 0 <= c < column ==> a'[r][c] == 0
    requires a'[row][column] == 1 && forall r :: 0 <= r < |a'| && r != row ==> a'[r][column] == 0
    ensures Echelon(a', n, pivotOf[column := row], columnOf + [column], row + 1, column + 1)
  {
    var q, k' := pivotOf[column := row], columnOf + [column];
    forall c | 0 <= c < n && q[c] != FREE ensures 0 <= q[c] < row + 1 && k'[q[c]] == c {}
    forall k | 0 <= k < row + 1
      ensures 0 <= k'[k] < column + 1 && q[k'[k]] == k && a'[k][k'[k]] == 1
      ensures forall r :: 0 <= r < |a'| && r != k ==> a'[r][k'[k]] == 0
    {
      if k < row { assert k'[k] == columnOf[k] < column; }
    }
  }

  /** Swap, scale and clear one column, the pivot having been found at `found`. */
  method PivotStep(p: int, matrix: array<seq<int>>, rhs: array<int>, n: nat, row: nat, column: nat, found: nat,
                   ghost pivotOf: seq<int>, ghost columnOf: seq<int>)
    requires Prime(p) && matrix.Length == rhs.Length && row <= found < matrix.Length && column < n
    requires Echelon(matrix[..], n, pivotOf, columnOf, row, column)
    requires Reduced(p, matrix[..]) && AllCanonical(p, rhs[..]) && matrix[found][column] != 0
    modifies matrix, rhs
    ensures Echelon(matrix[..], n, pivotOf[column := row], columnOf + [column], row + 1, column + 1)
    ensures Reduced(p, matrix[..]) && AllCanonical(p, rhs[..])
    ensures SameSolutions(p, n, old(matrix[..]), old(rhs[..]), matrix[..], rhs[..])
  {
    ghost var a0, b0 := matrix[..], rhs[..];
    assert a0[found] == matrix[found];
    hide SameSolutions, Reduced;
    RaisePivot(p, matrix, rhs, n, row, column, found);
    ghost var a1, b1 := matrix[..], rhs[..];
    ClearColumn(p, matrix, rhs, n, row, column);
    SameSolutionsTrans(p, n, a0, b0, a1, b1, matrix[..], rhs[..]);
    forall r, c | 0 <= r < matrix.Length && 0 <= c < column
      ensures matrix[..][r][c] == if r < row then a0[r][c] else 0
    {
      assert matrix[r][c] == a1[r][c];
    }
    EchelonExtends(a0, matrix[..], n, pivotOf, columnOf, row, column);
  }

  lemma PivotInvertible(p: int, a: int)
    requires Prime(p) && Canonical(p, a) && a != 0
    ensures Mul(p, a, Inv(p, a)) == 1 && !Cong(p, Inv(p, a), 0) && Canonical(p, Inv(p, a))
  {
    if Cong(p, a, 0) { CanonicalUnique(p, a, 0); }
    var i := Inv(p, a);
    InvCorrect(p, a);
    ModSmall(p, 1);
    if Cong(p, i, 0) {
      CongScale(p, a, i, 0);
      ModSmall(p, 0);
    }
  }

  /** Subtract the pivot row from every other row that has something in the column. */
  method ClearColumn(p: int, matrix: array<seq<int>>, rhs: array<int>, n: nat, row: nat, column: nat)
    requires p > 0 && matrix.Length == rhs.Length && row < matrix.Length && column < n
    requires Rectangular(matrix[..], n) && Reduced(p, matrix[..]) && AllCanonical(p, rhs[..])
    requires matrix[row][column] == 1 && forall c :: 0 <= c < column ==> matrix[row][c] == 0
    modifies matrix, rhs
    ensures Rectangular(matrix[..], n) && Reduced(p, matrix[..]) && AllCanonical(p, rhs[..])
    ensures matrix[row] == old(matrix[row])
    ensures forall r :: 0 <= r < matrix.Length && r != row ==> matrix[r][column] == 0
    ensures forall r, c :: 0 <= r < matrix.Length && 0 <= c < column ==> matrix[r][c] == old(matrix[r][c])
    ensures SameSolutions(p, n, old(matrix[..]), old(rhs[..]), matrix[..], rhs[..])
  {
    hide SameSolutions;
    ghost var a0, b0 := matrix[..], rhs[..];
    var pivotRow := matrix[row];
    SameSolutionsRefl(p, n, a0, b0);
    for r := 0 to matrix.Length
      invariant Rectangular(matrix[..], n) && Reduced(p, matrix[..]) && AllCanonical(p, rhs[..])
      invariant matrix[row] == pivotRow
      invariant forall r' :: 0 <= r' < r && r' != row ==> matrix[r'][column] == 0
      invariant forall r', c :: 0 <= r' < matrix.Length && 0 <= c < column ==> matrix[r'][c] == a0[r'][c]
      invariant SameSolutions(p, n, a0, b0, matrix[..], rhs[..])
    {
      if r != row && matrix[r][column] != 0 {
        ghost var a1, b1 := matrix[..], rhs[..];
        ClearRow(p, matrix, rhs, n, row, column, r);
        SameSolutionsTrans(p, n, a0, b0, a1, b1, matrix[..], rhs[..]);
      }
    }
  }

  /** Subtract the multiple of the pivot row that clears the column of row r. */
  method ClearRow(p: int, matrix: array<seq<int>>, rhs: array<int>, n: nat, row: nat, column: nat, r: nat)
    requires p > 0 && matrix.Length == rhs.Length && row < matrix.Length && column < n && r < matrix.Length && r != row
    requires Rectangular(matrix[..], n) && Reduced(p, matrix[..]) && AllCanonical(p, rhs[..])
    requires matrix[row][column] == 1 && forall c :: 0 <= c < column ==> matrix[row][c] == 0
    modifies matrix, rhs
    ensures Rectangular(matrix[..], n) && Reduced(p, matrix[..]) && AllCanonical(p, rhs[..])
    ensures matrix[r][column] == 0 && forall c :: 0 <= c < column ==> matrix[r][c] == old(matrix[r][c])
    ensures forall k :: 0 <= k < matrix.Length && k != r ==> matrix[k] == old(matrix[k])
    ensures SameSolutions(p, n, old(matrix[..]), old(rhs[..]), matrix[..], rhs[..])
  {
    ghost var a1, b1 := matrix[..], rhs[..];
    assert a1[r] == matrix[r] && a1[row] == matrix[row];
    var factor := matrix[r][column];
    var cells := EliminateRow(p, matrix[r], matrix[row], column);
    var value := Mul(p, rhs[row], factor);
    var v := Sub(p, rhs[r], value);
    Ops(p, rhs[r], value);
    SubMul(p, rhs[r], rhs[row], factor);
    assert rhs[row] * factor == factor * rhs[row];
    hide SameSolutions;
    EliminateKeeps(p, n, a1, b1, r, row, cells, v, factor);
    matrix[r] := cells;
    rhs[r] := v;
    assert matrix[..] == a1[r := cells] && rhs[..] == b1[r := v];
  }

  lemma SkipColumn(a: seq<seq<int>>, n: nat, pivotOf: seq<int>, columnOf: seq<int>, row: nat, column: nat)
    requires Echelon(a, n, pivotOf, columnOf, row, column) && column < n
    requires forall r :: row <= r < |a| ==> a[r][column] == 0
    ensures Echelon(a, n, pivotOf, columnOf, row, column + 1)
  {}

  /** Reduce column by column, stopping early once every row holds a pivot. */
  method Eliminate(p: int, matrix: array<seq<int>>, rhs: array<int>, n: nat)
    returns (pivotOf: seq<int>, ghost columnOf: seq<int>, row: nat, ghost column: nat)
    requires Prime(p) && matrix.Length == rhs.Length
    requires Rectangular(matrix[..], n) && Reduced(p, matrix[..]) && AllCanonical(p, rhs[..])
    modifies matrix, rhs
    ensures Echelon(matrix[..], n, pivotOf, columnOf, row, column)
    ensures row == matrix.Length || column == n
    ensures Reduced(p, matrix[..]) && AllCanonical(p, rhs[..])
    ensures SameSolutions(p, n, old(matrix[..]), old(rhs[..]), matrix[..], rhs[..])
  {
    hide SameSolutions, Reduced;
    ghost var a0, b0 := matrix[..], rhs[..];
    pivotOf, columnOf := seq(n, _ => FREE), [];
    row := 0;
    var next := 0;
    SameSolutionsRefl(p, n, a0, b0);
    while next < n
      invariant 0 <= next <= n
      invariant Echelon(matrix[..], n, pivotOf, columnOf, row, next)
      invariant Reduced(p, matrix[..]) && AllCanonical(p, rhs[..])
      invariant SameSolutions(p, n, a0, b0, matrix[..], rhs[..])
    {
      ghost var a1, b1 := matrix[..], rhs[..];
      assert forall r :: 0 <= r < matrix.Length ==> a1[r] == matrix[r];
      var found := FindPivot(matrix, row, next);
      if found == matrix.Length {
        SkipColumn(a1, n, pivotOf, columnOf, row, next);
        next := next + 1;
      } else {
        hide Echelon;
        PivotStep(p, matrix, rhs, n, row, next, found, pivotOf, columnOf);
        SameSolutionsTrans(p, n, a0, b0, a1, b1, matrix[..], rhs[..]);
        pivotOf, columnOf := pivotOf[next := row], columnOf + [next];
        row, next := row + 1, next + 1;
        if row == matrix.Length { break; }
      }
    }
    column := next;
  }

  /**
   The whole elimination.  The arrays end in reduced echelon form with the solutions they
   started with.  A solution is returned exactly when one exists; it solves the system as it
   was given, is read off at the pivot columns, and is zero at every other column.
   */
  method Solve(p: int, matrix: array<seq<int>>, rhs: array<int>, unknowns: nat)
    returns (r: Option<seq<int>>, ghost pivotOf: seq<int>, ghost columnOf: seq<int>, ghost row: nat, ghost column: nat)
    requires Prime(p) && matrix.Length == rhs.Length
    requires Rectangular(matrix[..], unknowns) && Reduced(p, matrix[..]) && AllCanonical(p, rhs[..])
    modifies matrix, rhs
    ensures Rectangular(old(matrix[..]), unknowns)
    ensures r.Some? ==> |r.value| == unknowns && AllCanonical(p, r.value)
    ensures r.Some? ==> Solves(p, old(matrix[..]), old(rhs[..]), r.value)
    ensures r.None? ==> forall x: seq<int> :: |x| == unknowns ==> !Solves(p, old(matrix[..]), old(rhs[..]), x)
    ensures Echelon(matrix[..], unknowns, pivotOf, columnOf, row, column)
            && (row == matrix.Length || column == unknowns)
    ensures SameSolutions(p, unknowns, old(matrix[..]), old(rhs[..]), matrix[..], rhs[..])
    ensures r.Some? ==> ReadOff(rhs[..], pivotOf, r.value)
  {
    hide SameSolutions, Solves, Reduced, Cong;
    ghost var a0, b0 := matrix[..], rhs[..];
    var pivots, top;
    pivots, columnOf, top, column := Eliminate(p, matrix, rhs, unknowns);
    pivotOf, row := pivots, top;
    var a, b := matrix[..], rhs[..];
    // A row that is all zeros with a non-zero right-hand side has no solution.
    for k := top to matrix.Length
      invariant forall r :: top <= r < k ==> b[r] == 0
    {
      if b[k] != 0 && forall c :: 0 <= c < |a[k]| ==> a[k][c] == 0 {
        NoSolution(p, unknowns, a0, b0, a, b, k);
        return None, pivotOf, columnOf, row, column;
      }
    }
    var x := Unknowns(b, pivots);
    ReadOffSolves(p, a, b, unknowns, pivotOf, columnOf, row, column, x);
    SolvesOriginal(p, unknowns, a0, b0, a, b, x);
    r := Some(x);
  }

  lemma NoSolution(p: int, n: nat, a: seq<seq<int>>, b: seq<int>, a': seq<seq<int>>, b': seq<int>, k: nat)
    requires |a| == |b| && Rectangular(a, n) && |a'| == |b'| && Rectangular(a', n) && k < |a'|
    requires SameSolutions(p, n, a, b, a', b') && Canonical(p, b'[k]) && b'[k] != 0
    requires forall c :: 0 <= c < n ==> a'[k][c] == 0
    ensures forall x: seq<int> :: |x| == n ==> !Solves(p, a, b, x)
  {
    hide Solves;
    forall x: seq<int> | |x| == n ensures !Solves(p, a, b, x) {
      ZeroRowRefutes(p, n, a', b', k, x);
    }
  }

  lemma SolvesOriginal(p: int, n: nat, a: seq<seq<int>>, b: seq<int>, a': seq<seq<int>>, b': seq<int>, x: seq<int>)
    requires |a| == |b| && Rectangular(a, n) && |a'| == |b'| && Rectangular(a', n) && |x| == n
    requires SameSolutions(p, n, a, b, a', b') && Solves(p, a', b', x)
    ensures Solves(p, a, b, x)
  {
    hide Solves;
  }
}
