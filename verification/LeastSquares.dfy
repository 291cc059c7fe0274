/**
 Ordinary least squares by Householder reflections, over exact reals.

 `InnerProducts` is the algebra the argument rests on: a reflection preserves inner products,
 and inner products alone decide residuals, orthogonality and the residual sum of squares.
 `LeastSquares` is the in-place factorisation and back-substitution, proved to minimise.
 */
module InnerProducts {

  type Vec = seq<real>

  /** The inner product of the first n components. */
  ghost function Dot(x: Vec, y: Vec, n: nat): real
    requires n <= |x| && n <= |y|
  {
    if n == 0 then 0.0 else Dot(x, y, n - 1) + x[n - 1] * y[n - 1]
  }

  lemma {:induction false} DotSymmetric(x: Vec, y: Vec, n: nat)
    requires n <= |x| && n <= |y|
    ensures Dot(x, y, n) == Dot(y, x, n)
  {
    if n > 0 {
      DotSymmetric(x, y, n - 1);
    }
  }

  /** z is x + f y, componentwise. */
  ghost predicate IsSum(z: Vec, x: Vec, f: real, y: Vec) {
    |z| == |x| == |y| && forall i :: 0 <= i < |z| ==> z[i] == x[i] + f * y[i]
  }

  /** `yw` names the product's factor, which keeps the arithmetic free of nested products. */
  lemma {:induction false} DotLinear(z: Vec, x: Vec, f: real, y: Vec, w: Vec, n: nat, yw: real)
    requires IsSum(z, x, f, y)
    requires n <= |z| && n <= |w|
    requires yw == Dot(y, w, n)
    ensures Dot(z, w, n) == Dot(x, w, n) + f * yw
  {
    if n > 0 {
      var front := Dot(y, w, n - 1);
      DotLinear(z, x, f, y, w, n - 1, front);
      LinearStep(x[n - 1], f, y[n - 1], w[n - 1], front);
    }
  }

  lemma LinearStep(p: real, f: real, q: real, w: real, d: real)
    ensures f * d + (p + f * q) * w == p * w + f * (d + q * w)
  {
  }

  lemma {:induction false} DotOfSelf(x: Vec, n: nat)
    requires n <= |x|
    ensures Dot(x, x, n) >= 0.0
    ensures Dot(x, x, n) == 0.0 ==> forall i :: 0 <= i < n ==> x[i] == 0.0
  {
    if n > 0 {
      DotOfSelf(x, n - 1);
      SquareNonnegative(x[n - 1]);
      if Dot(x, x, n) == 0.0 {
        assert Dot(x, x, n - 1) == 0.0 && x[n - 1] * x[n - 1] == 0.0;
        assert x[n - 1] == 0.0;
      }
    }
  }

  lemma SquareNonnegative(x: real)
    ensures x * x >= 0.0
    ensures x * x == 0.0 ==> x == 0.0
  {
    if x < 0.0 {
      ProductPositive(-x, -x, x * x);
    } else if x > 0.0 {
      ProductPositive(x, x, x * x);
    }
  }

  lemma ProductPositive(a: real, b: real, ab: real)
    requires a > 0.0 && b > 0.0 && ab == a * b
    ensures ab > 0.0
  {
  }

  lemma {:induction false} DotOfZeros(x: Vec, y: Vec, n: nat)
    requires n <= |x| && n <= |y|
    requires forall i :: 0 <= i < n ==> x[i] == 0.0 || y[i] == 0.0
    ensures Dot(x, y, n) == 0.0
  {
    if n > 0 {
      DotOfZeros(x, y, n - 1);
    }
  }

  // ---- Reflections ---------------------------------------------------------------------------

  ghost function ReflectionFactor(x: Vec, v: Vec): real
    requires |x| == |v| && Dot(v, v, |v|) != 0.0
  {
    2.0 * Dot(v, x, |v|) / Dot(v, v, |v|)
  }

  ghost function Reflect(x: Vec, v: Vec): (r: Vec)
    requires |x| == |v| && Dot(v, v, |v|) != 0.0
    ensures |r| == |x|
  {
    var f := ReflectionFactor(x, v);
    seq(|x|, i requires 0 <= i < |x| => x[i] - f * v[i])
  }

  lemma MirrorPreservesDot(x': Vec, x: Vec, f: real, y': Vec, y: Vec, g: real, v: Vec, n: nat,
                           vx: real, vy: real, vv: real)
    requires IsSum(x', x, f, v) && IsSum(y', y, g, v) && |v| == n
    requires vx == Dot(v, x, n) && vy == Dot(v, y, n) && vv == Dot(v, v, n)
    requires vv != 0.0 && f * vv == -2.0 * vx && g * vv == -2.0 * vy
    ensures Dot(x', y', n) == Dot(x, y, n)
  {
    var vy' := Dot(v, y', n);
    DotLinear(x', x, f, v, y', n, vy');
    DotSymmetric(x, y', n);
    DotLinear(y', y, g, v, x, n, vx);
    DotSymmetric(v, y', n);
    DotLinear(y', y, g, v, v, n, vv);
    DotSymmetric(x, y, n);
    DotSymmetric(y, v, n);
    MirrorCancels(Dot(x', y', n), Dot(x, y', n), Dot(x, y, n), f, g, vx, vy, vv, vy');
  }

  lemma MirrorCancels(whole: real, half: real, none: real, f: real, g: real,
                      vx: real, vy: real, vv: real, vy': real)
    requires vv != 0.0 && f * vv == -2.0 * vx && g * vv == -2.0 * vy
    requires whole == half + f * vy' && half == none + g * vx && vy' == vy + g * vv
    ensures whole == none
  {
  }

  /** Reflecting both vectors in one mirror leaves their inner product alone. */
  lemma ReflectionPreservesDot(x: Vec, y: Vec, v: Vec)
    requires |x| == |y| == |v| && Dot(v, v, |v|) != 0.0
    ensures Dot(Reflect(x, v), Reflect(y, v), |v|) == Dot(x, y, |v|)
  {
    hide *;
    var f, vx, vv := ReflectedIsSum(x, v);
    var g, vy, _ := ReflectedIsSum(y, v);
    MirrorPreservesDot(Reflect(x, v), x, f, Reflect(y, v), y, g, v, |v|, vx, vy, vv);
  }

  lemma ReflectedIsSum(x: Vec, v: Vec) returns (f: real, vx: real, vv: real)
    requires |x| == |v| && Dot(v, v, |v|) != 0.0
    ensures vx == Dot(v, x, |v|) && vv == Dot(v, v, |v|)
    ensures IsSum(Reflect(x, v), x, f, v) && f * vv == -2.0 * vx
  {
    vx, vv := Dot(v, x, |v|), Dot(v, v, |v|);
    f := -(2.0 * vx / vv);
    assert ReflectionFactor(x, v) == -f;
  }

  // ---- Combinations of columns -----------------------------------------------------------------

  ghost predicate Rectangular(cols: seq<Vec>, m: nat) {
    forall j :: 0 <= j < |cols| ==> |cols[j]| == m
  }

  /** The combination of the first n columns with coefficients c. */
  ghost function Combine(cols: seq<Vec>, m: nat, c: Vec, n: nat): (r: Vec)
    requires Rectangular(cols, m) && n <= |cols| && n <= |c|
    ensures |r| == m
  {
    if n == 0 then seq(m, i => 0.0)
    else
      var front := Combine(cols, m, c, n - 1);
      seq(m, i requires 0 <= i < m => front[i] + c[n - 1] * cols[n - 1][i])
  }

  ghost predicate SameGram(a: seq<Vec>, b: seq<Vec>, m: nat)
    requires Rectangular(a, m) && Rectangular(b, m)
  {
    |a| == |b| && forall p, q :: 0 <= p < |a| && 0 <= q < |a| ==> Dot(a[p], a[q], m) == Dot(b[p], b[q], m)
  }

  lemma CombineStep(cols: seq<Vec>, m: nat, c: Vec, n: nat, w: Vec, last: real)
    requires Rectangular(cols, m) && 0 < n <= |cols| && n <= |c| && |w| == m
    requires last == Dot(cols[n - 1], w, m)
    ensures Dot(Combine(cols, m, c, n), w, m) == Dot(Combine(cols, m, c, n - 1), w, m) + c[n - 1] * last
  {
    assert IsSum(Combine(cols, m, c, n), Combine(cols, m, c, n - 1), c[n - 1], cols[n - 1]);
    DotLinear(Combine(cols, m, c, n), Combine(cols, m, c, n - 1), c[n - 1], cols[n - 1], w, m, last);
  }

  lemma {:induction false} GramDecidesColumn(a: seq<Vec>, b: seq<Vec>, m: nat, p: nat, c: Vec, n: nat)
    requires Rectangular(a, m) && Rectangular(b, m) && SameGram(a, b, m)
    requires p < |a| && n <= |a| && n <= |c|
    ensures Dot(Combine(a, m, c, n), a[p], m) == Dot(Combine(b, m, c, n), b[p], m)
  {
    if n == 0 {
      DotOfZeros(Combine(a, m, c, n), a[p], m);
      DotOfZeros(Combine(b, m, c, n), b[p], m);
    } else {
      GramDecidesColumn(a, b, m, p, c, n - 1);
      var last := Dot(a[n - 1], a[p], m);
      CombineStep(a, m, c, n, a[p], last);
      CombineStep(b, m, c, n, b[p], last);
    }
  }

  /** Two matrices with one Gram matrix give every pair of combinations the same inner product. */
  lemma {:induction false} GramDecides(a: seq<Vec>, b: seq<Vec>, m: nat, c: Vec, n: nat, d: Vec, k: nat)
    requires Rectangular(a, m) && Rectangular(b, m) && SameGram(a, b, m)
    requires n <= |a| && n <= |c| && k <= |a| && k <= |d|
    ensures Dot(Combine(a, m, c, n), Combine(a, m, d, k), m) == Dot(Combine(b, m, c, n), Combine(b, m, d, k), m)
  {
    if n == 0 {
      DotOfZeros(Combine(a, m, c, n), Combine(a, m, d, k), m);
      DotOfZeros(Combine(b, m, c, n), Combine(b, m, d, k), m);
    } else {
      GramDecides(a, b, m, c, n - 1, d, k);
      GramDecidesColumn(a, b, m, n - 1, d, k);
      DotSymmetric(a[n - 1], Combine(a, m, d, k), m);
      DotSymmetric(b[n - 1], Combine(b, m, d, k), m);
      var last := Dot(a[n - 1], Combine(a, m, d, k), m);
      CombineStep(a, m, c, n, Combine(a, m, d, k), last);
      CombineStep(b, m, c, n, Combine(b, m, d, k), last);
    }
  }

  lemma {:induction false} CombineExtensional(cols: seq<Vec>, m: nat, c: Vec, d: Vec, n: nat)
    requires Rectangular(cols, m) && n <= |cols| && n <= |c| && n <= |d|
    requires forall j :: 0 <= j < n ==> c[j] == d[j]
    ensures Combine(cols, m, c, n) == Combine(cols, m, d, n)
  {
    if n > 0 {
      CombineExtensional(cols, m, c, d, n - 1);
    }
  }

  lemma {:induction false} CombineAdds(cols: seq<Vec>, m: nat, c: Vec, f: real, d: Vec, e: Vec, n: nat)
    requires Rectangular(cols, m) && n <= |cols| && n <= |c| && IsSum(e, c, f, d)
    ensures IsSum(Combine(cols, m, e, n), Combine(cols, m, c, n), f, Combine(cols, m, d, n))
  {
    if n > 0 {
      CombineAdds(cols, m, c, f, d, e, n - 1);
      hide Combine;
      CombineExtends(cols, m, c, n);
      CombineExtends(cols, m, d, n);
      CombineExtends(cols, m, e, n);
      SumsExtend(Combine(cols, m, e, n), Combine(cols, m, e, n - 1), e[n - 1],
                 Combine(cols, m, c, n), Combine(cols, m, c, n - 1), c[n - 1], f,
                 Combine(cols, m, d, n), Combine(cols, m, d, n - 1), d[n - 1], cols[n - 1]);
    }
  }

  lemma CombineExtends(cols: seq<Vec>, m: nat, c: Vec, n: nat)
    requires Rectangular(cols, m) && 0 < n <= |cols| && n <= |c|
    ensures IsSum(Combine(cols, m, c, n), Combine(cols, m, c, n - 1), c[n - 1], cols[n - 1])
  {
  }

  lemma SumsExtend(e1: Vec, e0: Vec, e: real, c1: Vec, c0: Vec, c: real, f: real, d1: Vec, d0: Vec, d: real, x: Vec)
    requires IsSum(e1, e0, e, x) && IsSum(c1, c0, c, x) && IsSum(d1, d0, d, x)
    requires IsSum(e0, c0, f, d0) && e == c + f * d
    ensures IsSum(e1, c1, f, d1)
  {
  }

  // ---- Upper triangles ----------------------------------------------------------------------

  /** Columns before n vanish below the diagonal. */
  ghost predicate Triangular(cols: seq<Vec>, m: nat, n: nat)
    requires Rectangular(cols, m) && n <= |cols|
  {
    forall j, i :: 0 <= j < n && j < i < m ==> cols[j][i] == 0.0
  }

  lemma {:induction false} CombineBelowDiagonal(cols: seq<Vec>, m: nat, c: Vec, n: nat, i: nat)
    requires Rectangular(cols, m) && n <= |cols| && n <= |c| && Triangular(cols, m, n)
    requires n <= i < m
    ensures Combine(cols, m, c, n)[i] == 0.0
  {
    if n > 0 {
      CombineBelowDiagonal(cols, m, c, n - 1, i);
    }
  }

  /** A triangle with no zero on its diagonal combines to zero only with zero coefficients. */
  lemma {:induction false} TriangleIsInjective(cols: seq<Vec>, m: nat, c: Vec, n: nat)
    requires Rectangular(cols, m) && n <= |cols| && n <= |c| && n <= m && Triangular(cols, m, n)
    requires forall k :: 0 <= k < n ==> cols[k][k] != 0.0
    requires forall i :: 0 <= i < m ==> Combine(cols, m, c, n)[i] == 0.0
    ensures forall j :: 0 <= j < n ==> c[j] == 0.0
  {
    if n > 0 {
      CombineBelowDiagonal(cols, m, c, n - 1, n - 1);
      assert Combine(cols, m, c, n)[n - 1] == Combine(cols, m, c, n - 1)[n - 1] + c[n - 1] * cols[n - 1][n - 1];
      assert c[n - 1] == 0.0;
      var front := Combine(cols, m, c, n - 1);
      forall i | 0 <= i < m ensures front[i] == 0.0 {
        assert Combine(cols, m, c, n)[i] == Combine(cols, m, c, n - 1)[i] + c[n - 1] * cols[n - 1][i];
      }
      TriangleIsInjective(cols, m, c, n - 1);
    }
  }

  /** Such a triangle reaches every target on its first n rows. */
  lemma {:induction false} TriangleSolves(cols: seq<Vec>, m: nat, target: Vec, n: nat) returns (c: Vec)
    requires Rectangular(cols, m) && n <= |cols| && n <= m && Triangular(cols, m, n) && |target| == m
    requires forall k :: 0 <= k < n ==> cols[k][k] != 0.0
    ensures |c| == n
    ensures forall i :: 0 <= i < n ==> Combine(cols, m, c, n)[i] == target[i]
    decreases n
  {
    if n == 0 {
      c := [];
    } else {
      var x := cols[n - 1];
      var last := target[n - 1] / x[n - 1];
      var rest := seq(m, i requires 0 <= i < m => target[i] - last * x[i]);
      var front := TriangleSolves(cols, m, rest, n - 1);
      c := front + [last];
      CombineExtensional(cols, m, front, c, n - 1);
      CombineBelowDiagonal(cols, m, c, n - 1, n - 1);
      forall i | 0 <= i < n ensures Combine(cols, m, c, n)[i] == target[i] {
        assert Combine(cols, m, c, n)[i] == Combine(cols, m, c, n - 1)[i] + c[n - 1] * x[i];
      }
    }
  }
}

module LeastSquares {
  import opened InnerProducts

  datatype Observation = Observation(x: seq<real>, y: real)

  datatype Fit = Fit(
    coefficients: seq<real>,
    rank: nat,
    residuals: seq<real>,
    residualSumSquares: real,
    rootMeanSquareError: real,
    rSquared: real,
    conditionEstimate: real,
    interceptPresent: bool)

  datatype Outcome = Fitted(fit: Fit) | Singular(rank: nat) | Rejected(field: string)

  ghost predicate IsSqrt(sqrt: real -> real) {
    forall x {:trigger sqrt(x)} :: x >= 0.0 ==> sqrt(x) >= 0.0 && sqrt(x) * sqrt(x) == x
  }

  function Magnitude(x: real): real {
    if x < 0.0 then -x else x
  }

  // ---- One Householder step, on columns ------------------------------------------------------

  ghost function Tail(col: Vec, k: nat): (r: Vec)
    ensures |r| == |col|
  {
    seq(|col|, i requires 0 <= i < |col| => if i < k then 0.0 else col[i])
  }

  ghost function Pivot(col: Vec, k: nat, norm: real): real
    requires k < |col|
  {
    if col[k] > 0.0 then -norm else norm
  }

  /** The mirror that sends the tail of a column onto its k-th axis. */
  ghost function Mirror(col: Vec, k: nat, norm: real): (v: Vec)
    requires k < |col|
    ensures |v| == |col|
  {
    Tail(col, k)[k := col[k] - Pivot(col, k, norm)]
  }

  ghost function TailNorm(col: Vec, k: nat, sqrt: real -> real): real {
    sqrt(Dot(Tail(col, k), Tail(col, k), |col|))
  }

  ghost function Step(cols: seq<Vec>, m: nat, k: nat, sqrt: real -> real): (r: seq<Vec>)
    requires Rectangular(cols, m) && k < |cols| && k < m
    ensures |r| == |cols| && Rectangular(r, m)
  {
    var norm := TailNorm(cols[k], k, sqrt);
    var v := Mirror(cols[k], k, norm);
    if norm == 0.0 || Dot(v, v, m) == 0.0 then cols
    else seq(|cols|, j requires 0 <= j < |cols| => Reflect(cols[j], v))
  }

  /** The columns after the first k steps. */
  ghost function Factor(cols: seq<Vec>, m: nat, k: nat, sqrt: real -> real): (r: seq<Vec>)
    requires Rectangular(cols, m) && k <= |cols| && k <= m
    ensures |r| == |cols| && Rectangular(r, m)
  {
    if k == 0 then cols else Step(Factor(cols, m, k - 1, sqrt), m, k - 1, sqrt)
  }

  lemma StepKeepsGram(cols: seq<Vec>, m: nat, k: nat, sqrt: real -> real)
    requires Rectangular(cols, m) && k < |cols| && k < m
    ensures SameGram(Step(cols, m, k, sqrt), cols, m)
  {
    var norm := TailNorm(cols[k], k, sqrt);
    var v := Mirror(cols[k], k, norm);
    hide Dot, Reflect, TailNorm, Mirror;
    if norm != 0.0 && Dot(v, v, m) != 0.0 {
      forall p, q | 0 <= p < |cols| && 0 <= q < |cols|
        ensures Dot(Reflect(cols[p], v), Reflect(cols[q], v), m) == Dot(cols[p], cols[q], m)
      {
        ReflectionPreservesDot(cols[p], cols[q], v);
      }
    }
  }

  lemma GramIsTransitive(a: seq<Vec>, b: seq<Vec>, c: seq<Vec>, m: nat)
    requires Rectangular(a, m) && Rectangular(b, m) && Rectangular(c, m)
    requires SameGram(a, b, m) && SameGram(b, c, m)
    ensures SameGram(a, c, m)
  {
  }

  /** Every step, and so the whole factorisation, preserves all inner products. */
  lemma {:induction false} FactorKeepsGram(cols: seq<Vec>, m: nat, k: nat, sqrt: real -> real)
    requires Rectangular(cols, m) && k <= |cols| && k <= m
    ensures SameGram(Factor(cols, m, k, sqrt), cols, m)
  {
    if k > 0 {
      hide Dot, Step;
      FactorKeepsGram(cols, m, k - 1, sqrt);
      StepKeepsGram(Factor(cols, m, k - 1, sqrt), m, k - 1, sqrt);
      GramIsTransitive(Factor(cols, m, k, sqrt), Factor(cols, m, k - 1, sqrt), cols, m);
    } else {
      hide Dot;
    }
  }

  /** The mirror is orthogonal to the columns already reduced. */
  lemma ReducedColumnsStay(cols: seq<Vec>, m: nat, k: nat, v: Vec, j: nat)
    requires Rectangular(cols, m) && j < k < |cols| && k < m && |v| == m && Triangular(cols, m, k)
    requires forall i :: 0 <= i < k ==> v[i] == 0.0
    requires Dot(v, v, m) != 0.0
    ensures Reflect(cols[j], v) == cols[j]
  {
    DotOfZeros(v, cols[j], m);
  }

  lemma {:induction false} DotOfShifted(v: Vec, t: Vec, k: nat, alpha: real, x: Vec, n: nat, ax: real)
    requires |v| == |t| == |x| && k < |v| && n <= |v|
    requires v == t[k := t[k] - alpha] && ax == alpha * x[k]
    ensures Dot(v, x, n) == Dot(t, x, n) - if k < n then ax else 0.0
  {
    if n > 0 {
      DotOfShifted(v, t, k, alpha, x, n - 1, ax);
      if n - 1 == k {
        assert (t[k] - alpha) * x[k] == t[k] * x[k] - alpha * x[k];
      }
    }
  }

  lemma {:induction false} DotOfTail(col: Vec, k: nat, n: nat)
    requires n <= |col|
    ensures Dot(Tail(col, k), col, n) == Dot(Tail(col, k), Tail(col, k), n)
  {
    if n > 0 {
      DotOfTail(col, k, n - 1);
    }
  }

  /** Twice the projection of the column on its mirror is the mirror's own square. */
  lemma MirrorHalves(col: Vec, k: nat, sqrt: real -> real)
    requires IsSqrt(sqrt) && k < |col|
    ensures var v := Mirror(col, k, TailNorm(col, k, sqrt));
      2.0 * Dot(v, col, |col|) == Dot(v, v, |col|)
  {
    var alpha, ax, av := PivotSquare(col, k, sqrt);
    ShiftHalves(col, k, alpha, Mirror(col, k, TailNorm(col, k, sqrt)), ax, av);
  }

  lemma ShiftHalves(col: Vec, k: nat, alpha: real, v: Vec, ax: real, av: real)
    requires k < |col| && v == Tail(col, k)[k := col[k] - alpha]
    requires ax == alpha * col[k] && av == alpha * (col[k] - alpha)
    requires av == ax - Dot(Tail(col, k), Tail(col, k), |col|)
    ensures 2.0 * Dot(v, col, |col|) == Dot(v, v, |col|)
  {
    hide Dot;
    var n, t := |col|, Tail(col, k);
    SameProduct(alpha, v[k], col[k] - alpha);
    SameProduct(alpha, t[k], col[k]);
    DotOfShifted(v, t, k, alpha, col, n, ax);
    DotOfTail(col, k, n);
    DotOfShifted(v, t, k, alpha, v, n, av);
    DotSymmetric(t, v, n);
    DotOfShifted(v, t, k, alpha, t, n, ax);
  }

  lemma SameProduct(a: real, b: real, c: real)
    requires b == c
    ensures a * b == a * c
  {
  }

  lemma PivotSquare(col: Vec, k: nat, sqrt: real -> real) returns (alpha: real, ax: real, av: real)
    requires IsSqrt(sqrt) && k < |col|
    ensures Mirror(col, k, TailNorm(col, k, sqrt)) == Tail(col, k)[k := col[k] - alpha]
    ensures ax == alpha * col[k] && av == alpha * (col[k] - alpha)
    ensures av == ax - Dot(Tail(col, k), Tail(col, k), |col|)
  {
    var tt := Dot(Tail(col, k), Tail(col, k), |col|);
    DotOfSelf(Tail(col, k), |col|);
    var norm := sqrt(tt);
    assert norm * norm == tt;
    alpha := Pivot(col, k, norm);
    ax, av := alpha * col[k], alpha * (col[k] - alpha);
    PivotArithmetic(tt, norm, alpha, col[k], ax, av);
  }

  lemma PivotArithmetic(tt: real, norm: real, alpha: real, x: real, ax: real, av: real)
    requires norm * norm == tt && (alpha == norm || alpha == -norm)
    requires ax == alpha * x && av == alpha * (x - alpha)
    ensures av == ax - tt
  {
  }

  lemma UnitRatio(a: real, b: real)
    requires a == b && b != 0.0
    ensures a / b == 1.0
  {
  }

  lemma ZeroNorm(square: real, sqrt: real -> real)
    requires IsSqrt(sqrt) && square >= 0.0 && sqrt(square) == 0.0
    ensures square == 0.0
  {
  }

  /** After step k the k-th column ends at the diagonal too. */
  lemma StepIsTriangular(cols: seq<Vec>, m: nat, k: nat, sqrt: real -> real)
    requires IsSqrt(sqrt) && Rectangular(cols, m) && k < |cols| && k < m && Triangular(cols, m, k)
    ensures Triangular(Step(cols, m, k, sqrt), m, k + 1)
  {
    var col, norm := cols[k], TailNorm(cols[k], k, sqrt);
    var v := Mirror(col, k, norm);
    DotOfSelf(Tail(col, k), m);
    DotOfSelf(v, m);
    if norm == 0.0 {
      ZeroNorm(Dot(Tail(col, k), Tail(col, k), m), sqrt);
      assert forall i :: k < i < m ==> Tail(col, k)[i] == col[i];
    } else if Dot(v, v, m) == 0.0 {
      assert forall i :: k < i < m ==> v[i] == col[i];
    } else {
      MirrorHalves(col, k, sqrt);
      UnitRatio(2.0 * Dot(v, col, m), Dot(v, v, m));
      forall j | 0 <= j < k ensures Reflect(cols[j], v) == cols[j] {
        ReducedColumnsStay(cols, m, k, v, j);
      }
    }
  }

  lemma {:induction false} FactorIsTriangular(cols: seq<Vec>, m: nat, k: nat, sqrt: real -> real)
    requires IsSqrt(sqrt) && Rectangular(cols, m) && k <= |cols| && k <= m
    ensures Triangular(Factor(cols, m, k, sqrt), m, k)
  {
    if k > 0 {
      FactorIsTriangular(cols, m, k - 1, sqrt);
      StepIsTriangular(Factor(cols, m, k - 1, sqrt), m, k - 1, sqrt);
    }
  }
}

/** What the solved triangle says about the original observations. */
module LeastSquaresTheory {
  import opened InnerProducts
  import opened LeastSquares

  /** x[lo]c[lo] + ... + x[hi-1]c[hi-1]. */
  ghost function FittedFrom(x: Vec, c: Vec, lo: nat, hi: nat): real
    requires hi <= |x| && hi <= |c|
  {
    if hi <= lo then 0.0 else FittedFrom(x, c, lo, hi - 1) + x[hi - 1] * c[hi - 1]
  }

  ghost predicate Wide(rows: seq<Observation>, n: nat) {
    forall i :: 0 <= i < |rows| ==> |rows[i].x| == n
  }

  ghost function Residuals(rows: seq<Observation>, c: Vec): (r: Vec)
    requires Wide(rows, |c|)
    ensures |r| == |rows|
  {
    seq(|rows|, i requires 0 <= i < |rows| => rows[i].y - FittedFrom(rows[i].x, c, 0, |c|))
  }

  ghost function Rss(rows: seq<Observation>, c: Vec): real
    requires Wide(rows, |c|)
  {
    Dot(Residuals(rows, c), Residuals(rows, c), |rows|)
  }

  ghost function Column(rows: seq<Observation>, n: nat, j: nat): (r: Vec)
    requires Wide(rows, n) && j <= n
    ensures |r| == |rows|
  {
    seq(|rows|, i requires 0 <= i < |rows| => if j < n then rows[i].x[j] else rows[i].y)
  }

  /** The design columns followed by the response. */
  ghost function Design(rows: seq<Observation>, n: nat): (r: seq<Vec>)
    requires Wide(rows, n)
    ensures |r| == n + 1 && Rectangular(r, |rows|)
  {
    seq(n + 1, j requires 0 <= j <= n => Column(rows, n, j))
  }

  /** No nonzero combination of the design columns vanishes. */
  ghost predicate Independent(rows: seq<Observation>, n: nat)
    requires Wide(rows, n)
  {
    forall c: Vec :: |c| == n && Vanishes(rows, c) ==> forall j :: 0 <= j < n ==> c[j] == 0.0
  }

  ghost predicate Vanishes(rows: seq<Observation>, c: Vec)
    requires Wide(rows, |c|)
  {
    forall i :: 0 <= i < |rows| ==> FittedFrom(rows[i].x, c, 0, |c|) == 0.0
  }

  ghost predicate Orthogonal(rows: seq<Observation>, c: Vec)
    requires Wide(rows, |c|)
  {
    forall j :: 0 <= j < |c| ==> Dot(Residuals(rows, c), Column(rows, |c|, j), |rows|) == 0.0
  }

  /** No other coefficients do as well. */
  ghost predicate UniqueMinimum(rows: seq<Observation>, c: Vec)
    requires Wide(rows, |c|)
  {
    forall d: Vec :: |d| == |c| ==> Rss(rows, c) <= Rss(rows, d) && (Rss(rows, c) == Rss(rows, d) ==> c == d)
  }

  ghost predicate Nonsingular(tri: seq<Vec>, m: nat, n: nat)
    requires Rectangular(tri, m) && n <= |tri| && n <= m
  {
    forall k :: 0 <= k < n ==> tri[k][k] != 0.0
  }

  // ---- Residuals as a combination of the augmented columns ------------------------------------

  ghost function ResidualWeights(c: Vec): (w: Vec)
    ensures |w| == |c| + 1
  {
    seq(|c| + 1, j requires 0 <= j <= |c| => if j < |c| then -c[j] else 1.0)
  }

  lemma {:induction false} CombineIsFitted(rows: seq<Observation>, n: nat, c: Vec, k: nat, i: nat)
    requires Wide(rows, n) && k <= n && k <= |c| && i < |rows|
    ensures Combine(Design(rows, n), |rows|, c, k)[i] == FittedFrom(rows[i].x, c, 0, k)
  {
    if k > 0 {
      CombineIsFitted(rows, n, c, k - 1, i);
      assert Design(rows, n)[k - 1][i] == rows[i].x[k - 1];
    }
  }

  lemma {:induction false} FittedNegates(x: Vec, c: Vec, d: Vec, hi: nat)
    requires hi <= |x| && hi <= |c| && hi <= |d|
    requires forall j :: 0 <= j < hi ==> d[j] == -c[j]
    ensures FittedFrom(x, d, 0, hi) == -FittedFrom(x, c, 0, hi)
  {
    if hi > 0 {
      FittedNegates(x, c, d, hi - 1);
      assert x[hi - 1] * -c[hi - 1] == -(x[hi - 1] * c[hi - 1]);
    }
  }

  lemma ResidualsAreCombination(rows: seq<Observation>, c: Vec)
    requires Wide(rows, |c|)
    ensures Residuals(rows, c) == Combine(Design(rows, |c|), |rows|, ResidualWeights(c), |c| + 1)
  {
    var n, w := |c|, ResidualWeights(c);
    forall i | 0 <= i < |rows|
      ensures Residuals(rows, c)[i] == Combine(Design(rows, n), |rows|, w, n + 1)[i]
    {
      CombineIsFitted(rows, n, w, n, i);
      FittedNegates(rows[i].x, c, w, n);
      assert Design(rows, n)[n][i] == rows[i].y;
    }
  }

  // ---- Orthogonality and the minimum -------------------------------------------------------------

  /** Back-substitution left nothing of the response on the first n rows. */
  ghost predicate Solves(tri: seq<Vec>, m: nat, c: Vec)
    requires Rectangular(tri, m) && |tri| == |c| + 1 && |c| <= m
  {
    forall i :: 0 <= i < |c| ==> SolvesRow(tri, m, c, i)
  }

  ghost predicate SolvesRow(tri: seq<Vec>, m: nat, c: Vec, i: nat)
    requires Rectangular(tri, m) && |tri| == |c| + 1 && i < m
  {
    Combine(tri, m, ResidualWeights(c), |c| + 1)[i] == 0.0
  }

  lemma SolvedIsOrthogonal(rows: seq<Observation>, tri: seq<Vec>, c: Vec)
    requires Wide(rows, |c|) && Rectangular(tri, |rows|) && |tri| == |c| + 1 && |c| <= |rows|
    requires SameGram(tri, Design(rows, |c|), |rows|) && Triangular(tri, |rows|, |c|) && Solves(tri, |rows|, c)
    ensures Orthogonal(rows, c)
  {
    hide Dot, Combine, ResidualWeights, SameGram;
    var m, n, w := |rows|, |c|, ResidualWeights(c);
    ResidualsAreCombination(rows, c);
    forall j | 0 <= j < n ensures Dot(Residuals(rows, c), Column(rows, n, j), m) == 0.0 {
      GramDecidesColumn(tri, Design(rows, n), m, j, w, n + 1);
      forall i | 0 <= i < m ensures Combine(tri, m, w, n + 1)[i] == 0.0 || tri[j][i] == 0.0 {
        if i <= j {
          assert SolvesRow(tri, m, c, i);
        }
      }
      DotOfZeros(Combine(tri, m, w, n + 1), tri[j], m);
      assert Design(rows, n)[j] == Column(rows, n, j);
    }
  }

  lemma {:induction false} OrthogonalToCombination(rows: seq<Observation>, c: Vec, e: Vec, k: nat)
    requires Wide(rows, |c|) && Orthogonal(rows, c) && k <= |c| && k <= |e|
    ensures Dot(Combine(Design(rows, |c|), |rows|, e, k), Residuals(rows, c), |rows|) == 0.0
  {
    var m, res := |rows|, Residuals(rows, c);
    if k == 0 {
      DotOfZeros(Combine(Design(rows, |c|), m, e, k), res, m);
    } else {
      OrthogonalToCombination(rows, c, e, k - 1);
      DotSymmetric(res, Column(rows, |c|, k - 1), m);
      assert Design(rows, |c|)[k - 1] == Column(rows, |c|, k - 1);
      CombineStep(Design(rows, |c|), m, e, k, res, 0.0);
    }
  }

  lemma Pythagoras(z: Vec, x: Vec, y: Vec, n: nat)
    requires IsSum(z, x, 1.0, y) && |z| == n && Dot(y, x, n) == 0.0
    ensures Dot(z, z, n) == Dot(x, x, n) + Dot(y, y, n)
  {
    var yz, yy := Dot(y, z, n), Dot(y, y, n);
    DotLinear(z, x, 1.0, y, z, n, yz);
    DotSymmetric(x, z, n);
    DotLinear(z, x, 1.0, y, x, n, 0.0);
    DotSymmetric(y, z, n);
    DotLinear(z, x, 1.0, y, y, n, yy);
    DotSymmetric(x, y, n);
  }

  /** Changing the coefficients adds the squared length of the change in fitted values. */
  lemma RssOfOther(rows: seq<Observation>, c: Vec, d: Vec, e: Vec)
    requires Wide(rows, |c|) && Orthogonal(rows, c) && |c| == |d| == |e|
    requires forall j :: 0 <= j < |c| ==> e[j] == c[j] - d[j]
    ensures var change := Combine(Design(rows, |c|), |rows|, e, |c|);
      Rss(rows, d) == Rss(rows, c) + Dot(change, change, |rows|)
  {
    hide *;
    var change := Combine(Design(rows, |c|), |rows|, e, |c|);
    ChangeOfResiduals(rows, c, d, e);
    OrthogonalToCombination(rows, c, e, |c|);
    RssIsDot(rows, c);
    RssIsDot(rows, d);
    Pythagoras(Residuals(rows, d), Residuals(rows, c), change, |rows|);
  }

  lemma RssIsDot(rows: seq<Observation>, c: Vec)
    requires Wide(rows, |c|)
    ensures Rss(rows, c) == Dot(Residuals(rows, c), Residuals(rows, c), |rows|)
  {
  }

  lemma ChangeOfResiduals(rows: seq<Observation>, c: Vec, d: Vec, e: Vec)
    requires Wide(rows, |c|) && |c| == |d| == |e|
    requires forall j :: 0 <= j < |c| ==> e[j] == c[j] - d[j]
    ensures IsSum(Residuals(rows, d), Residuals(rows, c), 1.0, Combine(Design(rows, |c|), |rows|, e, |c|))
  {
    hide *;
    var n := |c|;
    var change, rc, rd := Combine(Design(rows, n), |rows|, e, n), Residuals(rows, c), Residuals(rows, d);
    forall i | 0 <= i < |rows| ensures rd[i] == rc[i] + change[i] {
      ResidualAt(rows, c, i);
      ResidualAt(rows, d, i);
      CombineIsFitted(rows, n, e, n, i);
      FittedSubtracts(rows[i].x, c, d, e, n);
    }
    PlainSum(rd, rc, change);
  }

  lemma ResidualAt(rows: seq<Observation>, c: Vec, i: nat)
    requires Wide(rows, |c|) && i < |rows|
    ensures |rows[i].x| == |c|
    ensures Residuals(rows, c)[i] == rows[i].y - FittedFrom(rows[i].x, c, 0, |c|)
  {
  }

  lemma PlainSum(z: Vec, x: Vec, y: Vec)
    requires |z| == |x| == |y| && forall i :: 0 <= i < |z| ==> z[i] == x[i] + y[i]
    ensures IsSum(z, x, 1.0, y)
  {
  }

  lemma {:induction false} FittedSubtracts(x: Vec, c: Vec, d: Vec, e: Vec, hi: nat)
    requires hi <= |x| && hi <= |c| && hi <= |d| && hi <= |e|
    requires forall j :: 0 <= j < hi ==> e[j] == c[j] - d[j]
    ensures FittedFrom(x, e, 0, hi) == FittedFrom(x, c, 0, hi) - FittedFrom(x, d, 0, hi)
  {
    if hi > 0 {
      FittedSubtracts(x, c, d, e, hi - 1);
      var p := x[hi - 1];
      assert p * (c[hi - 1] - d[hi - 1]) == p * c[hi - 1] - p * d[hi - 1];
    }
  }

  /** A combination of the design columns of zero length has only zero coefficients. */
  lemma ShortCombinationIsZero(rows: seq<Observation>, n: nat, tri: seq<Vec>, e: Vec)
    requires Wide(rows, n) && Rectangular(tri, |rows|) && |tri| == n + 1 && n <= |rows| && |e| == n
    requires SameGram(tri, Design(rows, n), |rows|) && Triangular(tri, |rows|, n) && Nonsingular(tri, |rows|, n)
    requires Dot(Combine(Design(rows, n), |rows|, e, n), Combine(Design(rows, n), |rows|, e, n), |rows|) == 0.0
    ensures forall j :: 0 <= j < n ==> e[j] == 0.0
  {
    GramDecides(tri, Design(rows, n), |rows|, e, n, e, n);
    DotOfSelf(Combine(tri, |rows|, e, n), |rows|);
    TriangleIsInjective(tri, |rows|, e, n);
  }

  lemma SolvedIsUniqueMinimum(rows: seq<Observation>, tri: seq<Vec>, c: Vec)
    requires Wide(rows, |c|) && Rectangular(tri, |rows|) && |tri| == |c| + 1 && |c| <= |rows|
    requires SameGram(tri, Design(rows, |c|), |rows|) && Triangular(tri, |rows|, |c|)
    requires Nonsingular(tri, |rows|, |c|) && Orthogonal(rows, c)
    ensures UniqueMinimum(rows, c)
  {
    var n := |c|;
    forall d: Vec | |d| == n
      ensures Rss(rows, c) <= Rss(rows, d) && (Rss(rows, c) == Rss(rows, d) ==> c == d)
    {
      var e := seq(n, j requires 0 <= j < n => c[j] - d[j]);
      RssOfOther(rows, c, d, e);
      DotOfSelf(Combine(Design(rows, n), |rows|, e, n), |rows|);
      if Rss(rows, c) == Rss(rows, d) {
        ShortCombinationIsZero(rows, n, tri, e);
        assert forall j :: 0 <= j < n ==> c[j] == d[j];
      }
    }
  }

  // ---- Singular designs ------------------------------------------------------------------------

  lemma VanishingHasNoLength(rows: seq<Observation>, c: Vec)
    requires Wide(rows, |c|)
    ensures var v := Combine(Design(rows, |c|), |rows|, c, |c|);
      Vanishes(rows, c) <==> Dot(v, v, |rows|) == 0.0
  {
    var v := Combine(Design(rows, |c|), |rows|, c, |c|);
    forall i | 0 <= i < |rows| ensures v[i] == FittedFrom(rows[i].x, c, 0, |c|) {
      CombineIsFitted(rows, |c|, c, |c|, i);
    }
    DotOfSelf(v, |rows|);
    if Vanishes(rows, c) {
      DotOfZeros(v, v, |rows|);
    }
  }

  /** Independence of the design is exactly a diagonal without zeros. */
  lemma IndependentExactlyWhenNonsingular(rows: seq<Observation>, n: nat, tri: seq<Vec>)
    requires Wide(rows, n) && Rectangular(tri, |rows|) && |tri| == n + 1 && n <= |rows|
    requires SameGram(tri, Design(rows, n), |rows|) && Triangular(tri, |rows|, n)
    ensures Independent(rows, n) <==> Nonsingular(tri, |rows|, n)
  {
    if Nonsingular(tri, |rows|, n) {
      forall c: Vec | |c| == n && Vanishes(rows, c) ensures forall j :: 0 <= j < n ==> c[j] == 0.0 {
        VanishingHasNoLength(rows, c);
        ShortCombinationIsZero(rows, n, tri, c);
      }
    } else {
      var k := FirstZero(tri, |rows|, n);
      var c := DependentCoefficients(tri, |rows|, n, k);
      DotOfZeros(Combine(tri, |rows|, c, n), Combine(tri, |rows|, c, n), |rows|);
      GramDecides(tri, Design(rows, n), |rows|, c, n, c, n);
      VanishingHasNoLength(rows, c);
      assert c[k] != 0.0;
    }
  }

  lemma {:induction false} FirstZero(tri: seq<Vec>, m: nat, n: nat) returns (k: nat)
    requires Rectangular(tri, m) && n <= |tri| && n <= m && !Nonsingular(tri, m, n)
    ensures k < n && tri[k][k] == 0.0 && Nonsingular(tri, m, k)
    decreases n
  {
    if Nonsingular(tri, m, n - 1) {
      k := n - 1;
    } else {
      k := FirstZero(tri, m, n - 1);
    }
  }

  /** Column k lies in the span of the columns before it. */
  lemma DependentCoefficients(tri: seq<Vec>, m: nat, n: nat, k: nat) returns (c: Vec)
    requires Rectangular(tri, m) && n <= |tri| && n <= m && Triangular(tri, m, n)
    requires k < n && tri[k][k] == 0.0 && Nonsingular(tri, m, k)
    ensures |c| == n && c[k] == -1.0
    ensures forall i :: 0 <= i < m ==> Combine(tri, m, c, n)[i] == 0.0
  {
    var front := TriangleSolves(tri, m, tri[k], k);
    c := seq(n, j requires 0 <= j < n => if j < k then front[j] else if j == k then -1.0 else 0.0);
    CombineExtensional(tri, m, front, c, k);
    var upTo := Combine(tri, m, c, k + 1);
    forall i | 0 <= i < m ensures upTo[i] == 0.0 {
      assert Combine(tri, m, c, k + 1)[i] == Combine(tri, m, c, k)[i] + -1.0 * tri[k][i];
      if i >= k {
        CombineBelowDiagonal(tri, m, c, k, i);
      }
    }
    ZeroTail(tri, m, c, k + 1, n);
  }

  lemma {:induction false} ZeroTail(cols: seq<Vec>, m: nat, c: Vec, k: nat, n: nat)
    requires Rectangular(cols, m) && k <= n <= |cols| && n <= |c|
    requires forall j :: k <= j < n ==> c[j] == 0.0
    ensures Combine(cols, m, c, n) == Combine(cols, m, c, k)
    decreases n
  {
    if k < n {
      ZeroTail(cols, m, c, k, n - 1);
      forall i | 0 <= i < m ensures Combine(cols, m, c, n)[i] == Combine(cols, m, c, n - 1)[i] {
        assert Combine(cols, m, c, n)[i] == Combine(cols, m, c, n - 1)[i] + 0.0 * cols[n - 1][i];
      }
    }
  }

  // ---- Scaled diagonal and R squared -----------------------------------------------------------

  lemma {:induction false} ComponentWithin(x: Vec, n: nat, i: nat, d: real, dd: real)
    requires i < n <= |x| && d == x[i] && dd == d * d
    ensures dd <= Dot(x, x, n)
  {
    SquareNonnegative(x[n - 1]);
    DotOfSelf(x, n - 1);
    if i < n - 1 {
      ComponentWithin(x, n - 1, i, d, dd);
    }
  }

  lemma SquareOrder(a: real, aa: real, b: real, bb: real)
    requires b >= 0.0 && aa == a * a && bb == b * b && aa <= bb
    ensures Magnitude(a) <= b
  {
    var x := Magnitude(a);
    assert x * x == a * a;
    assert (x - b) * (x + b) == x * x - b * b;
    if x > b {
      ProductPositive(x - b, x + b, (x - b) * (x + b));
    }
  }

  /** No diagonal entry exceeds the length of its original column. */
  lemma DiagonalWithinNorm(rows: seq<Observation>, n: nat, tri: seq<Vec>, k: nat, norm: real, square: real)
    requires Wide(rows, n) && Rectangular(tri, |rows|) && |tri| == n + 1 && k < n <= |rows|
    requires SameGram(tri, Design(rows, n), |rows|)
    requires square == Dot(Column(rows, n, k), Column(rows, n, k), |rows|)
    requires norm >= 0.0 && norm * norm == square
    ensures Magnitude(tri[k][k]) <= norm
  {
    assert Design(rows, n)[k] == Column(rows, n, k);
    DiagonalOrder(tri[k], k, tri[k][k], norm, square, |rows|);
  }

  lemma DiagonalOrder(x: Vec, k: nat, d: real, norm: real, square: real, m: nat)
    requires k < m == |x| && d == x[k] && Dot(x, x, m) == square
    requires norm >= 0.0 && norm * norm == square
    ensures Magnitude(d) <= norm
  {
    var dd := d * d;
    ComponentWithin(x, m, k, d, dd);
    SquareOrder(d, dd, norm, square);
  }

  ghost function Deviations(rows: seq<Observation>, centre: real): (r: Vec)
    ensures |r| == |rows|
  {
    seq(|rows|, i requires 0 <= i < |rows| => rows[i].y - centre)
  }

  ghost function ResponseSum(rows: seq<Observation>, n: nat): real
    requires n <= |rows|
  {
    if n == 0 then 0.0 else ResponseSum(rows, n - 1) + rows[n - 1].y
  }

  ghost function MeanResponse(rows: seq<Observation>): real
    requires |rows| > 0
  {
    ResponseSum(rows, |rows|) / |rows| as real
  }

  ghost function Tss(rows: seq<Observation>, centre: real): real {
    Dot(Deviations(rows, centre), Deviations(rows, centre), |rows|)
  }

  ghost predicate ConstantColumn(rows: seq<Observation>, n: nat, j: nat)
    requires Wide(rows, n) && |rows| > 0
  {
    j < n && rows[0].x[j] != 0.0 && forall i :: 0 <= i < |rows| ==> rows[i].x[j] == rows[0].x[j]
  }

  /** With a constant column the fit does at least as well as any constant. */
  lemma InterceptBeatsConstant(rows: seq<Observation>, c: Vec, j: nat, centre: real)
    requires Wide(rows, |c|) && |rows| > 0 && ConstantColumn(rows, |c|, j) && UniqueMinimum(rows, c)
    ensures Rss(rows, c) <= Tss(rows, centre)
  {
    var first := rows[0].x[j];
    var level := centre / first;
    var d := seq(|c|, i requires 0 <= i < |c| => if i == j then level else 0.0);
    QuotientBack(first, level, centre);
    forall i | 0 <= i < |rows| ensures Residuals(rows, d)[i] == Deviations(rows, centre)[i] {
      hide UniqueMinimum, FittedFrom;
      OneTerm(rows[i].x, d, j, |c|, first, level, centre);
    }
    assert Residuals(rows, d) == Deviations(rows, centre);
  }

  lemma QuotientBack(first: real, level: real, centre: real)
    requires first != 0.0 && level == centre / first
    ensures first * level == centre
  {
  }

  /** With one coefficient that is not zero, its product with the regressor is all there is. */
  lemma {:induction false} OneTerm(x: Vec, d: Vec, j: nat, hi: nat, a: real, b: real, product: real)
    requires hi <= |x| && hi <= |d| && j < |x| && j < |d|
    requires forall i :: 0 <= i < hi && i != j ==> d[i] == 0.0
    requires x[j] == a && d[j] == b && a * b == product
    ensures FittedFrom(x, d, 0, hi) == if j < hi then product else 0.0
  {
    if hi > 0 {
      OneTerm(x, d, j, hi - 1, a, b, product);
      if hi - 1 != j {
        assert x[hi - 1] * 0.0 == 0.0;
      }
    }
  }

  // ---- The scaled diagonal -------------------------------------------------------------------------

  ghost function ColumnNorm(rows: seq<Observation>, n: nat, sqrt: real -> real, k: nat): real
    requires Wide(rows, n) && k <= n
  {
    sqrt(Dot(Column(rows, n, k), Column(rows, n, k), |rows|))
  }

  ghost function Triangle(rows: seq<Observation>, n: nat, sqrt: real -> real): (r: seq<Vec>)
    requires Wide(rows, n) && n <= |rows|
    ensures |r| == n + 1 && Rectangular(r, |rows|)
  {
    Factor(Design(rows, n), |rows|, n, sqrt)
  }

  /** The k-th diagonal entry in units of its own column; zero for a zero column. */
  ghost function Scaled(rows: seq<Observation>, n: nat, sqrt: real -> real, k: nat): real
    requires Wide(rows, n) && k < n <= |rows|
  {
    var norm := ColumnNorm(rows, n, sqrt, k);
    if norm == 0.0 then 0.0 else Magnitude(Triangle(rows, n, sqrt)[k][k]) / norm
  }

  lemma TriangleFacts(rows: seq<Observation>, n: nat, sqrt: real -> real)
    requires Wide(rows, n) && n <= |rows| && IsSqrt(sqrt)
    ensures SameGram(Triangle(rows, n, sqrt), Design(rows, n), |rows|)
    ensures Triangular(Triangle(rows, n, sqrt), |rows|, n)
  {
    FactorKeepsGram(Design(rows, n), |rows|, n, sqrt);
    FactorIsTriangular(Design(rows, n), |rows|, n, sqrt);
  }

  lemma SqrtFacts(sqrt: real -> real, square: real)
    requires IsSqrt(sqrt) && square >= 0.0
    ensures sqrt(square) >= 0.0 && sqrt(square) * sqrt(square) == square
  {
  }

  lemma RatioFacts(a: real, norm: real)
    requires Magnitude(a) <= norm && norm > 0.0
    ensures 0.0 <= Magnitude(a) / norm <= 1.0
    ensures Magnitude(a) / norm == 0.0 <==> a == 0.0
  {
    var q := Magnitude(a) / norm;
    assert q * norm == Magnitude(a);
    if q > 1.0 {
      ProductPositive(q - 1.0, norm, (q - 1.0) * norm);
    } else if q < 0.0 {
      ProductPositive(-q, norm, -q * norm);
    }
  }

  /** Every scaled entry lies in [0,1], and is zero exactly where the diagonal is. */
  lemma ScaledRange(rows: seq<Observation>, n: nat, sqrt: real -> real, k: nat)
    requires Wide(rows, n) && k < n <= |rows| && IsSqrt(sqrt)
    ensures 0.0 <= Scaled(rows, n, sqrt, k) <= 1.0
    ensures Scaled(rows, n, sqrt, k) == 0.0 <==> Triangle(rows, n, sqrt)[k][k] == 0.0
  {
    var tri, square := Triangle(rows, n, sqrt), Dot(Column(rows, n, k), Column(rows, n, k), |rows|);
    var norm := ColumnNorm(rows, n, sqrt, k);
    TriangleFacts(rows, n, sqrt);
    DotOfSelf(Column(rows, n, k), |rows|);
    SqrtFacts(sqrt, square);
    DiagonalWithinNorm(rows, n, tri, k, norm, square);
    if norm != 0.0 {
      RatioFacts(tri[k][k], norm);
    }
  }

  /** Column k is a combination of the columns before it. */
  ghost predicate InSpanBefore(rows: seq<Observation>, n: nat, k: nat)
    requires Wide(rows, n) && k < n
  {
    exists c: Vec :: SpansBefore(rows, n, k, c)
  }

  ghost predicate SpansBefore(rows: seq<Observation>, n: nat, k: nat, c: Vec)
    requires Wide(rows, n) && k < n
  {
    |c| == k && Combine(Design(rows, n), |rows|, c, k) == Column(rows, n, k)
  }

  ghost function MinusLast(c: Vec): (r: Vec)
    ensures |r| == |c| + 1
  {
    c + [-1.0]
  }

  lemma SpanDifference(cols: seq<Vec>, m: nat, c: Vec, k: nat)
    requires Rectangular(cols, m) && k < |cols| && |c| == k
    ensures var v := Combine(cols, m, MinusLast(c), k + 1);
      Dot(v, v, m) == 0.0 <==> Combine(cols, m, c, k) == cols[k]
  {
    var v := Combine(cols, m, MinusLast(c), k + 1);
    CombineExtensional(cols, m, c, MinusLast(c), k);
    assert forall i :: 0 <= i < m ==> v[i] == Combine(cols, m, c, k)[i] + -1.0 * cols[k][i];
    DotOfSelf(v, m);
    if Combine(cols, m, c, k) == cols[k] {
      DotOfZeros(v, v, m);
    }
  }

  /** A column in the span of its predecessors always scores zero. */
  lemma SpanScoresZero(rows: seq<Observation>, n: nat, sqrt: real -> real, k: nat)
    requires Wide(rows, n) && k < n <= |rows| && IsSqrt(sqrt) && InSpanBefore(rows, n, k)
    ensures Scaled(rows, n, sqrt, k) == 0.0
  {
    var tri, m, x := Triangle(rows, n, sqrt), |rows|, Design(rows, n);
    hide Dot, Triangle, Scaled, SameGram, Combine;
    TriangleFacts(rows, n, sqrt);
    var c: Vec :| SpansBefore(rows, n, k, c);
    assert x[k] == Column(rows, n, k);
    SpanTransfers(x, tri, m, c, k);
    CombineBelowDiagonal(tri, m, c, k, k);
    ScaledRange(rows, n, sqrt, k);
  }

  /** The same coefficients span a column in both matrices. */
  lemma SpanTransfers(a: seq<Vec>, b: seq<Vec>, m: nat, c: Vec, k: nat)
    requires Rectangular(a, m) && Rectangular(b, m) && SameGram(b, a, m) && k < |a| && |c| == k
    ensures Combine(a, m, c, k) == a[k] <==> Combine(b, m, c, k) == b[k]
  {
    hide Dot, Combine;
    SpanDifference(a, m, c, k);
    SpanDifference(b, m, c, k);
    GramDecides(b, a, m, MinusLast(c), k + 1, MinusLast(c), k + 1);
  }

  const HIDING := [Observation([0.0, 1.0], 0.0), Observation([0.0, 0.0], 0.0)]

  lemma HidingFactors(sqrt: real -> real)
    requires IsSqrt(sqrt)
    ensures Factor(Design(HIDING, 2), 2, 2, sqrt) == Design(HIDING, 2)
  {
    var x := Design(HIDING, 2);
    DotOfZeros(Tail(x[0], 0), Tail(x[0], 0), 2);
    DotOfZeros(Tail(x[1], 1), Tail(x[1], 1), 2);
    SqrtFacts(sqrt, 0.0);
    SquareNonnegative(sqrt(0.0));
    hide Dot;
    assert Factor(x, 2, 0, sqrt) == x;
    assert Factor(x, 2, 1, sqrt) == x;
  }

  /** Behind a zero column the second column scores zero without being in its span. */
  lemma ZeroColumnHidesTheNext(sqrt: real -> real)
    requires IsSqrt(sqrt)
    ensures Scaled(HIDING, 2, sqrt, 1) == 0.0 && !InSpanBefore(HIDING, 2, 1)
  {
    var x := Design(HIDING, 2);
    HidingFactors(sqrt);
    assert Triangle(HIDING, 2, sqrt)[1][1] == 0.0;
    ScaledRange(HIDING, 2, sqrt, 1);
    assert Column(HIDING, 2, 1)[0] == 1.0;
    forall c: Vec | |c| == 1 ensures !SpansBefore(HIDING, 2, 1, c) {
      var combination := Combine(x, 2, c, 1);
      assert Combine(x, 2, c, 0)[0] == 0.0 && x[0][0] == 0.0;
      assert combination[0] == Combine(x, 2, c, 0)[0] + c[0] * x[0][0];
    }
  }

  // ---- Back-substitution -----------------------------------------------------------------------

  lemma {:induction false} FittedFrame(x: Vec, c: Vec, d: Vec, lo: nat, hi: nat)
    requires hi <= |x| && hi <= |c| && hi <= |d|
    requires forall j :: lo <= j < hi ==> c[j] == d[j]
    ensures FittedFrom(x, c, lo, hi) == FittedFrom(x, d, lo, hi)
    decreases hi
  {
    if lo < hi {
      FittedFrame(x, c, d, lo, hi - 1);
    }
  }

  lemma {:induction false} FittedSkipsZeros(x: Vec, c: Vec, lo: nat, hi: nat)
    requires lo <= hi <= |x| && hi <= |c|
    requires forall j :: 0 <= j < lo ==> x[j] == 0.0
    ensures FittedFrom(x, c, 0, hi) == FittedFrom(x, c, lo, hi)
    decreases hi
  {
    if hi > 0 {
      if lo < hi {
        FittedSkipsZeros(x, c, lo, hi - 1);
      } else {
        FittedSkipsZeros(x, c, lo - 1, hi - 1);
        assert 0.0 * c[hi - 1] == 0.0;
      }
    }
  }

  lemma {:induction false} FittedSplitsFirst(x: Vec, c: Vec, lo: nat, hi: nat)
    requires lo < hi <= |x| && hi <= |c|
    ensures FittedFrom(x, c, lo, hi) == x[lo] * c[lo] + FittedFrom(x, c, lo + 1, hi)
    decreases hi
  {
    if lo + 1 < hi {
      FittedSplitsFirst(x, c, lo, hi - 1);
    }
  }

  ghost function TriangleRow(tri: seq<Vec>, m: nat, n: nat, i: nat): (r: Vec)
    requires Rectangular(tri, m) && n <= |tri| && i < m
    ensures |r| == n
  {
    seq(n, j requires 0 <= j < n => tri[j][i])
  }

  lemma {:induction false} CombineIsRow(tri: seq<Vec>, m: nat, n: nat, i: nat, c: Vec, k: nat)
    requires Rectangular(tri, m) && n <= |tri| && i < m && k <= n && k <= |c|
    ensures Combine(tri, m, c, k)[i] == FittedFrom(TriangleRow(tri, m, n, i), c, 0, k)
  {
    if k > 0 {
      CombineIsRow(tri, m, n, i, c, k - 1);
    }
  }

  lemma LastWeightIsOne(tri: seq<Vec>, m: nat, c: Vec, i: nat)
    requires Rectangular(tri, m) && |tri| == |c| + 1 && i < m
    ensures Combine(tri, m, ResidualWeights(c), |c| + 1)[i] ==
            Combine(tri, m, ResidualWeights(c), |c|)[i] + tri[|c|][i]
  {
  }

  /** Rows solved one at a time from the last are all solved. */
  lemma BackSubstitutionSolves(tri: seq<Vec>, m: nat, c: Vec)
    requires Rectangular(tri, m) && |tri| == |c| + 1 && |c| <= m && Triangular(tri, m, |c|)
    requires forall i :: 0 <= i < |c| ==> tri[|c|][i] == FittedFrom(TriangleRow(tri, m, |c|, i), c, i, |c|)
    ensures Solves(tri, m, c)
  {
    var n, w := |c|, ResidualWeights(c);
    forall i | 0 <= i < n ensures SolvesRow(tri, m, c, i) {
      var x := TriangleRow(tri, m, n, i);
      CombineIsRow(tri, m, n, i, w, n);
      FittedNegates(x, c, w, n);
      FittedSkipsZeros(x, c, i, n);
      LastWeightIsOne(tri, m, c, i);
    }
  }
}

/** The fit itself, in place on a matrix and a vector. */
module OlsQr {
  import opened InnerProducts
  import opened LeastSquares
  import opened LeastSquaresTheory

  // ---- Input checks ------------------------------------------------------------------------------

  /** The white space and line terminators that ECMAScript's String trim removes. */
  predicate IsSpace(c: char) {
    var n := c as int;
    || 0x09 <= n <= 0x0D || n == 0x20 || n == 0xA0 || n == 0x1680 || 0x2000 <= n <= 0x200A
    || n == 0x2028 || n == 0x2029 || n == 0x202F || n == 0x205F || n == 0x3000 || n == 0xFEFF
  }

  predicate Blank(s: string) {
    forall i :: 0 <= i < |s| ==> IsSpace(s[i])
  }

  ghost predicate GoodColumns(columns: seq<string>) {
    && columns != []
    && (forall i :: 0 <= i < |columns| ==> !Blank(columns[i]))
    && (forall i, j :: 0 <= i < j < |columns| ==> columns[i] != columns[j])
  }

  ghost predicate GoodRows(columns: seq<string>, rows: seq<Observation>) {
    |columns| <= |rows| && Wide(rows, |columns|)
  }

  /** The field at fault, or the empty string. */
  method CheckInput(columns: seq<string>, rows: seq<Observation>) returns (field: string)
    ensures field == "columns" <==> !GoodColumns(columns)
    ensures field == "" <==> GoodColumns(columns) && GoodRows(columns, rows)
    ensures field == "rows" <==> GoodColumns(columns) && !GoodRows(columns, rows)
  {
    if columns == [] {
      return "columns";
    }
    var seen: set<string> := {};
    for i := 0 to |columns|
      invariant forall s :: s in seen <==> exists j :: 0 <= j < i && columns[j] == s
      invariant forall j :: 0 <= j < i ==> !Blank(columns[j])
      invariant forall j, k :: 0 <= j < k < i ==> columns[j] != columns[k]
    {
      if Blank(columns[i]) || columns[i] in seen {
        return "columns";
      }
      seen := seen + {columns[i]};
    }
    if rows == [] || |rows| < |columns| {
      return "rows";
    }
    for i := 0 to |rows|
      invariant forall j :: 0 <= j < i ==> |rows[j].x| == |columns|
    {
      if |rows[i].x| != |columns| {
        return "rows";
      }
    }
    return "";
  }

  // ---- The factorisation -------------------------------------------------------------------------

  /** The matrix and the response vector hold these columns. */
  ghost predicate Holds(a: array2<real>, b: array<real>, cols: seq<Vec>)
    reads a, b
  {
    && |cols| == a.Length1 + 1 && a.Length0 == b.Length && Rectangular(cols, a.Length0)
    && (forall i, j :: 0 <= i < a.Length0 && 0 <= j < a.Length1 ==> a[i, j] == cols[j][i])
    && (forall i :: 0 <= i < b.Length ==> b[i] == cols[a.Length1][i])
  }

  method ReflectColumn(a: array2<real>, j: nat, k: nat, v: seq<real>, vNorm2: real, ghost x: Vec)
    requires j < a.Length1 && k <= a.Length0 && |v| == |x| == a.Length0
    requires forall i :: 0 <= i < a.Length0 ==> a[i, j] == x[i]
    requires forall i :: 0 <= i < k ==> v[i] == 0.0
    requires vNorm2 == Dot(v, v, |v|) != 0.0
    modifies a
    ensures forall i, c :: 0 <= i < a.Length0 && 0 <= c < a.Length1 ==>
      a[i, c] == if c == j then Reflect(x, v)[i] else old(a[i, c])
  {
    var dot := 0.0;
    DotOfZeros(v, x, k);
    for i := k to a.Length0
      invariant dot == Dot(v, x, i)
    {
      dot := dot + v[i] * a[i, j];
    }
    var factor := 2.0 * dot / vNorm2;
    assert forall i :: 0 <= i < k ==> Reflect(x, v)[i] == x[i] - factor * 0.0;
    for i := k to a.Length0
      invariant forall r, c :: 0 <= r < a.Length0 && 0 <= c < a.Length1 ==>
        a[r, c] == if c == j && r < i then Reflect(x, v)[r] else old(a[r, c])
    {
      a[i, j] := a[i, j] - factor * v[i];
    }
  }

  method ReflectVector(b: array<real>, k: nat, v: seq<real>, vNorm2: real)
    requires k <= b.Length == |v|
    requires forall i :: 0 <= i < k ==> v[i] == 0.0
    requires vNorm2 == Dot(v, v, |v|) != 0.0
    modifies b
    ensures b[..] == Reflect(old(b[..]), v)
  {
    ghost var x := b[..];
    var dot := 0.0;
    DotOfZeros(v, x, k);
    for i := k to b.Length
      invariant dot == Dot(v, x, i)
    {
      dot := dot + v[i] * b[i];
    }
    var factor := 2.0 * dot / vNorm2;
    ghost var target := Reflect(x, v);
    assert forall i :: 0 <= i < |v| ==> target[i] == x[i] - factor * v[i];
    hide Dot, Reflect;
    for i := k to b.Length
      invariant forall r :: 0 <= r < i ==> b[r] == target[r]
      invariant forall r :: i <= r < b.Length ==> b[r] == x[r]
    {
      b[i] := b[i] - factor * v[i];
    }
  }

  /** The tail norm of column k. */
  method ColumnTailNorm(a: array2<real>, k: nat, sqrt: real -> real, ghost x: Vec) returns (norm: real)
    requires k < a.Length0 && k < a.Length1 && |x| == a.Length0
    requires forall i :: 0 <= i < a.Length0 ==> a[i, k] == x[i]
    ensures norm == TailNorm(x, k, sqrt)
  {
    var sum := 0.0;
    ghost var t := Tail(x, k);
    DotOfZeros(t, t, k);
    for i := k to a.Length0
      invariant sum == Dot(t, t, i)
    {
      sum := sum + a[i, k] * a[i, k];
    }
    norm := sqrt(sum);
  }

  /** The mirror for column k and its square. */
  method BuildMirror(a: array2<real>, k: nat, norm: real, ghost x: Vec) returns (v: seq<real>, vNorm2: real)
    requires k < a.Length0 && k < a.Length1 && |x| == a.Length0
    requires forall i :: 0 <= i < a.Length0 ==> a[i, k] == x[i]
    ensures v == Mirror(x, k, norm) && vNorm2 == Dot(v, v, |v|)
  {
    var alpha := if a[k, k] > 0.0 then -norm else norm;
    var w := new real[a.Length0](_ => 0.0);
    for i := k to a.Length0
      invariant forall r :: 0 <= r < w.Length ==> w[r] == if k <= r < i then x[r] else 0.0
    {
      w[i] := a[i, k];
    }
    w[k] := w[k] - alpha;
    v := w[..];
    assert v == Mirror(x, k, norm);
    vNorm2 := 0.0;
    DotOfZeros(v, v, k);
    for i := k to |v|
      invariant vNorm2 == Dot(v, v, i)
    {
      vNorm2 := vNorm2 + v[i] * v[i];
    }
  }

  method Eliminate(a: array2<real>, b: array<real>, k: nat, sqrt: real -> real, ghost cols: seq<Vec>)
    requires k < a.Length1 && k < a.Length0
    requires Holds(a, b, cols) && Triangular(cols, a.Length0, k)
    modifies a, b
    ensures Holds(a, b, Step(cols, a.Length0, k, sqrt))
  {
    var norm := ColumnTailNorm(a, k, sqrt, cols[k]);
    if norm == 0.0 {
      return;
    }
    var v, vNorm2 := BuildMirror(a, k, norm, cols[k]);
    if vNorm2 == 0.0 {
      return;
    }
    var n := a.Length1;
    for j := k to n
      invariant forall i :: 0 <= i < b.Length ==> b[i] == cols[n][i]
      invariant forall i, c :: 0 <= i < a.Length0 && 0 <= c < n ==>
        a[i, c] == if k <= c < j then Reflect(cols[c], v)[i] else cols[c][i]
    {
      ReflectColumn(a, j, k, v, vNorm2, cols[j]);
    }
    assert b[..] == cols[n];
    ReflectVector(b, k, v, vNorm2);
    forall c | 0 <= c < k ensures Reflect(cols[c], v) == cols[c] {
      ReducedColumnsStay(cols, a.Length0, k, v, c);
    }
    assert forall i :: 0 <= i < b.Length ==> b[i] == b[..][i];
  }

  method Factorise(a: array2<real>, b: array<real>, sqrt: real -> real, ghost cols: seq<Vec>)
    requires a.Length1 <= a.Length0 && Holds(a, b, cols) && IsSqrt(sqrt)
    modifies a, b
    ensures Holds(a, b, Factor(cols, a.Length0, a.Length1, sqrt))
  {
    for k := 0 to a.Length1
      invariant Holds(a, b, Factor(cols, a.Length0, k, sqrt))
    {
      FactorIsTriangular(cols, a.Length0, k, sqrt);
      Eliminate(a, b, k, sqrt, Factor(cols, a.Length0, k, sqrt));
    }
  }

  // ---- Reading the fit off the triangle ------------------------------------------------------------

  method ScaledDiagonal(a: array2<real>, rows: seq<Observation>, sqrt: real -> real) returns (d: seq<real>)
    requires a.Length0 == |rows| && a.Length1 <= |rows| && Wide(rows, a.Length1)
    requires forall k :: 0 <= k < a.Length1 ==> a[k, k] == Triangle(rows, a.Length1, sqrt)[k][k]
    ensures |d| == a.Length1
    ensures forall k :: 0 <= k < |d| ==> d[k] == Scaled(rows, |d|, sqrt, k)
  {
    d := [];
    for k := 0 to a.Length1
      invariant |d| == k
      invariant forall j :: 0 <= j < k ==> d[j] == Scaled(rows, a.Length1, sqrt, j)
    {
      var sum := 0.0;
      ghost var x := Column(rows, a.Length1, k);
      for i := 0 to |rows|
        invariant sum == Dot(x, x, i)
      {
        sum := sum + rows[i].x[k] * rows[i].x[k];
      }
      var norm := sqrt(sum);
      d := d + [if norm == 0.0 then 0.0 else Magnitude(a[k, k]) / norm];
    }
  }

  ghost function CountAbove(d: seq<real>, tolerance: real, n: nat): nat
    requires n <= |d|
  {
    if n == 0 then 0 else CountAbove(d, tolerance, n - 1) + if d[n - 1] > tolerance then 1 else 0
  }

  lemma {:induction false} CountAllAbove(d: seq<real>, tolerance: real, n: nat)
    requires n <= |d|
    ensures CountAbove(d, tolerance, n) <= n
    ensures CountAbove(d, tolerance, n) == n <==> forall k :: 0 <= k < n ==> d[k] > tolerance
  {
    if n > 0 {
      CountAllAbove(d, tolerance, n - 1);
    }
  }

  method Rank(d: seq<real>, tolerance: real) returns (rank: nat)
    ensures rank == CountAbove(d, tolerance, |d|)
    ensures rank < |d| <==> exists k :: 0 <= k < |d| && d[k] <= tolerance
  {
    rank := 0;
    for k := 0 to |d|
      invariant rank == CountAbove(d, tolerance, k)
    {
      if d[k] > tolerance {
        rank := rank + 1;
      }
    }
    CountAllAbove(d, tolerance, |d|);
  }

  ghost predicate IsRange(d: seq<real>, hi: int, lo: int) {
    0 <= hi < |d| && 0 <= lo < |d| && forall k :: 0 <= k < |d| ==> d[lo] <= d[k] <= d[hi]
  }

  /** Largest over smallest. */
  method ConditionEstimate(d: seq<real>) returns (c: real)
    requires d != [] && forall k :: 0 <= k < |d| ==> d[k] > 0.0
    ensures IsSpread(d, c) && c >= 1.0
  {
    var hi, lo := 0, 0;
    for k := 1 to |d|
      invariant 0 <= hi < |d| && 0 <= lo < |d|
      invariant forall j :: 0 <= j < k ==> d[lo] <= d[j] <= d[hi]
    {
      if d[k] > d[hi] {
        hi := k;
      }
      if d[k] < d[lo] {
        lo := k;
      }
    }
    c := d[hi] / d[lo];
    assert IsRange(d, hi, lo);
    RatioAtLeastOne(d[hi], d[lo]);
  }

  lemma RatioAtLeastOne(a: real, b: real)
    requires a >= b > 0.0
    ensures a / b >= 1.0
  {
    var q := a / b;
    assert q * b == a;
    if q < 1.0 {
      ProductPositive(1.0 - q, b, (1.0 - q) * b);
    }
  }

  method BackSubstitute(a: array2<real>, b: array<real>, ghost tri: seq<Vec>) returns (c: seq<real>)
    requires Holds(a, b, tri) && a.Length1 <= a.Length0 && Triangular(tri, a.Length0, a.Length1)
    requires Nonsingular(tri, a.Length0, a.Length1)
    ensures |c| == a.Length1 && Solves(tri, a.Length0, c)
  {
    var n := a.Length1;
    var w := new real[n](_ => 0.0);
    var k := n;
    while k > 0
      invariant 0 <= k <= n
      invariant forall i :: k <= i < n ==>
        tri[n][i] == FittedFrom(TriangleRow(tri, a.Length0, n, i), w[..], i, n)
    {
      k := k - 1;
      ghost var x := TriangleRow(tri, a.Length0, n, k);
      var sum := b[k];
      for j := k + 1 to n
        invariant sum == tri[n][k] - FittedFrom(x, w[..], k + 1, j)
      {
        sum := sum - a[k, j] * w[j];
      }
      ghost var before := w[..];
      w[k] := sum / a[k, k];
      ghost var after := w[..];
      assert x[k] * after[k] == sum by {
        QuotientTimes(sum, a[k, k], after[k]);
      }
      FittedFrame(x, before, after, k + 1, n);
      FittedSplitsFirst(x, after, k, n);
      forall i | k < i < n
        ensures tri[n][i] == FittedFrom(TriangleRow(tri, a.Length0, n, i), after, i, n)
      {
        FittedFrame(TriangleRow(tri, a.Length0, n, i), before, after, i, n);
      }
    }
    c := w[..];
    BackSubstitutionSolves(tri, a.Length0, c);
  }

  lemma QuotientTimes(s: real, d: real, q: real)
    requires d != 0.0 && q == s / d
    ensures d * q == s
  {
  }

  method ComputeResiduals(rows: seq<Observation>, c: seq<real>) returns (residuals: seq<real>, rss: real)
    requires Wide(rows, |c|)
    ensures residuals == Residuals(rows, c) && rss == Rss(rows, c)
  {
    residuals, rss := [], 0.0;
    for i := 0 to |rows|
      invariant |residuals| == i && forall r :: 0 <= r < i ==> residuals[r] == Residuals(rows, c)[r]
      invariant rss == Dot(Residuals(rows, c), Residuals(rows, c), i)
    {
      var fitted := 0.0;
      for j := 0 to |c|
        invariant fitted == FittedFrom(rows[i].x, c, 0, j)
      {
        fitted := fitted + rows[i].x[j] * c[j];
      }
      var e := rows[i].y - fitted;
      residuals := residuals + [e];
      rss := rss + e * e;
    }
  }

  /** The total sum of squares about the mean response. */
  method TotalSquares(rows: seq<Observation>) returns (tss: real)
    requires |rows| > 0
    ensures tss == Tss(rows, MeanResponse(rows)) && tss >= 0.0
  {
    var total := 0.0;
    for i := 0 to |rows|
      invariant total == ResponseSum(rows, i)
    {
      total := total + rows[i].y;
    }
    var mean := total / |rows| as real;
    tss := 0.0;
    for i := 0 to |rows|
      invariant tss == Dot(Deviations(rows, mean), Deviations(rows, mean), i)
    {
      tss := tss + (rows[i].y - mean) * (rows[i].y - mean);
    }
    DotOfSelf(Deviations(rows, mean), |rows|);
  }

  /** Whether some design column is constant and nonzero. */
  method InterceptPresent(rows: seq<Observation>, n: nat) returns (present: bool)
    requires Wide(rows, n) && |rows| > 0
    ensures present <==> exists j: nat :: ConstantColumn(rows, n, j)
  {
    present := false;
    for j := 0 to n
      invariant !present ==> forall k: nat :: k < j ==> !ConstantColumn(rows, n, k)
      invariant present ==> exists k: nat :: ConstantColumn(rows, n, k)
    {
      var first := rows[0].x[j];
      var constant := first != 0.0;
      for i := 0 to |rows|
        invariant constant <==> first != 0.0 && forall r :: 0 <= r < i ==> rows[r].x[j] == first
      {
        if rows[i].x[j] != first {
          constant := false;
        }
      }
      if constant {
        assert ConstantColumn(rows, n, j);
        present := true;
      }
    }
  }

  function RSquared(rss: real, tss: real): real {
    if tss == 0.0 then if rss == 0.0 then 1.0 else 0.0
    else 1.0 - rss / tss
  }

  lemma RSquaredRange(rss: real, tss: real)
    requires rss >= 0.0 && tss >= 0.0
    ensures RSquared(rss, tss) <= 1.0
    ensures rss <= tss ==> RSquared(rss, tss) >= 0.0
  {
    if tss > 0.0 {
      var q := rss / tss;
      assert q * tss == rss;
      if q < 0.0 {
        ProductPositive(-q, tss, -q * tss);
      } else if q > 1.0 {
        ProductPositive(q - 1.0, tss, (q - 1.0) * tss);
      }
    }
  }

  // ---- The contract --------------------------------------------------------------------------------

  /** What a returned fit promises about the observations it was given. */
  ghost predicate Sound(fit: Fit, rows: seq<Observation>, n: nat)
    requires Wide(rows, n) && |rows| > 0
  {
    && |fit.coefficients| == n && fit.rank == n
    && fit.residuals == Residuals(rows, fit.coefficients)
    && fit.residualSumSquares == Rss(rows, fit.coefficients)
    && Orthogonal(rows, fit.coefficients)
    && UniqueMinimum(rows, fit.coefficients)
    && fit.rootMeanSquareError >= 0.0
    && fit.rootMeanSquareError * fit.rootMeanSquareError == fit.residualSumSquares / |rows| as real
    && fit.conditionEstimate >= 1.0
    && fit.rSquared == RSquared(fit.residualSumSquares, Tss(rows, MeanResponse(rows))) <= 1.0
    && (fit.interceptPresent <==> exists j: nat :: ConstantColumn(rows, n, j))
    && (fit.interceptPresent ==> fit.rSquared >= 0.0)
  }

  /** The scaled diagonal: one score a column. */
  ghost function Scores(rows: seq<Observation>, n: nat, sqrt: real -> real): (d: seq<real>)
    requires Wide(rows, n) && n <= |rows|
    ensures |d| == n && forall k :: 0 <= k < n ==> d[k] == Scaled(rows, n, sqrt, k)
  {
    seq(n, k requires 0 <= k < n => Scaled(rows, n, sqrt, k))
  }

  /** The largest of the values over the smallest. */
  ghost predicate IsSpread(d: seq<real>, c: real) {
    exists i, j :: IsRange(d, i, j) && d[j] != 0.0 && c == d[i] / d[j]
  }

  ghost predicate ScoresAtMost(rows: seq<Observation>, n: nat, sqrt: real -> real, tolerance: real)
    requires Wide(rows, n) && n <= |rows|
  {
    exists k :: 0 <= k < n && Scaled(rows, n, sqrt, k) <= tolerance
  }

  /**
   Fits the observations.  A fit is returned exactly when every scaled diagonal entry exceeds
   the tolerance; it is then the one minimiser, and the design has full rank.
   */
  method Ols(columns: seq<string>, rows: seq<Observation>, sqrt: real -> real, tolerance: real)
    returns (r: Outcome)
    requires IsSqrt(sqrt) && tolerance >= 0.0
    ensures r.Rejected? <==> !(GoodColumns(columns) && GoodRows(columns, rows))
    ensures r.Rejected? ==> r.field == if GoodColumns(columns) then "rows" else "columns"
    ensures !r.Rejected? ==> (r.Singular? <==> ScoresAtMost(rows, |columns|, sqrt, tolerance))
    ensures r.Singular? ==>
      r.rank == CountAbove(Scores(rows, |columns|, sqrt), tolerance, |columns|) < |columns|
    ensures r.Fitted? ==> Sound(r.fit, rows, |columns|) && Independent(rows, |columns|)
    ensures r.Fitted? ==> IsSpread(Scores(rows, |columns|, sqrt), r.fit.conditionEstimate)
    ensures r.Singular? && tolerance == 0.0 ==> !Independent(rows, |columns|)
  {
    var field := CheckInput(columns, rows);
    if field != "" {
      return Rejected(field);
    }
    r := FitRows(rows, |columns|, sqrt, tolerance);
  }

  method FitRows(rows: seq<Observation>, n: nat, sqrt: real -> real, tolerance: real) returns (r: Outcome)
    requires IsSqrt(sqrt) && tolerance >= 0.0 && Wide(rows, n) && 0 < n <= |rows|
    ensures !r.Rejected?
    ensures r.Singular? <==> ScoresAtMost(rows, n, sqrt, tolerance)
    ensures r.Singular? ==> r.rank == CountAbove(Scores(rows, n, sqrt), tolerance, n) < n
    ensures r.Singular? && tolerance == 0.0 ==> !Independent(rows, n)
    ensures r.Fitted? ==> Sound(r.fit, rows, n) && Independent(rows, n)
    ensures r.Fitted? ==> IsSpread(Scores(rows, n, sqrt), r.fit.conditionEstimate)
  {
    hide Triangle, Scaled, Design, Factor, Independent, Nonsingular, Sound, IsSpread, CountAbove;
    var a, b := Load(rows, n);
    Factorise(a, b, sqrt, Design(rows, n));
    TriangleIsFactor(rows, n, sqrt);
    var d := ScaledDiagonal(a, rows, sqrt);
    assert d == Scores(rows, n, sqrt);
    DiagonalDecides(rows, n, sqrt);
    var rank := Rank(d, tolerance);
    if rank < n {
      ghost var k :| 0 <= k < n && d[k] <= tolerance;
      assert Scaled(rows, n, sqrt, k) <= tolerance;
      return Singular(rank);
    }
    var condition := ConditionEstimate(d);
    r := SolveAndSummarise(a, b, rows, sqrt, condition);
  }

  method Load(rows: seq<Observation>, n: nat) returns (a: array2<real>, b: array<real>)
    requires Wide(rows, n)
    ensures fresh(a) && fresh(b) && a.Length0 == |rows| && a.Length1 == n
    ensures Holds(a, b, Design(rows, n))
  {
    a := new real[|rows|, n]((i, j) requires 0 <= i < |rows| && 0 <= j < n => rows[i].x[j]);
    b := new real[|rows|](i requires 0 <= i < |rows| => rows[i].y);
  }

  lemma TriangleIsFactor(rows: seq<Observation>, n: nat, sqrt: real -> real)
    requires Wide(rows, n) && n <= |rows|
    ensures Triangle(rows, n, sqrt) == Factor(Design(rows, n), |rows|, n, sqrt)
  {
  }

  /** Nonzero scores, a nonsingular triangle and an independent design are one condition. */
  lemma DiagonalDecides(rows: seq<Observation>, n: nat, sqrt: real -> real)
    requires Wide(rows, n) && n <= |rows| && IsSqrt(sqrt)
    ensures forall k :: 0 <= k < n ==> Scaled(rows, n, sqrt, k) >= 0.0
    ensures Independent(rows, n) <==> forall k :: 0 <= k < n ==> Scaled(rows, n, sqrt, k) != 0.0
    ensures Independent(rows, n) <==> Nonsingular(Triangle(rows, n, sqrt), |rows|, n)
  {
    TriangleFacts(rows, n, sqrt);
    forall k | 0 <= k < n
      ensures Scaled(rows, n, sqrt, k) >= 0.0
      ensures Scaled(rows, n, sqrt, k) == 0.0 <==> Triangle(rows, n, sqrt)[k][k] == 0.0
    {
      ScaledRange(rows, n, sqrt, k);
    }
    IndependentExactlyWhenNonsingular(rows, n, Triangle(rows, n, sqrt));
  }

  method SolveAndSummarise(a: array2<real>, b: array<real>, rows: seq<Observation>, sqrt: real -> real,
                           condition: real) returns (r: Outcome)
    requires IsSqrt(sqrt) && Wide(rows, a.Length1) && a.Length0 == |rows| && a.Length1 <= |rows| && |rows| > 0
    requires Holds(a, b, Triangle(rows, a.Length1, sqrt)) && condition >= 1.0
    requires Nonsingular(Triangle(rows, a.Length1, sqrt), |rows|, a.Length1)
    ensures r.Fitted? && Sound(r.fit, rows, a.Length1) && r.fit.conditionEstimate == condition
  {
    ghost var tri := Triangle(rows, a.Length1, sqrt);
    TriangleFacts(rows, a.Length1, sqrt);
    var c := BackSubstitute(a, b, tri);
    SolvedIsOrthogonal(rows, tri, c);
    SolvedIsUniqueMinimum(rows, tri, c);
    r := Summarise(rows, c, sqrt, condition);
  }

  method Summarise(rows: seq<Observation>, c: seq<real>, sqrt: real -> real, condition: real) returns (r: Outcome)
    requires IsSqrt(sqrt) && Wide(rows, |c|) && |rows| > 0 && condition >= 1.0
    requires Orthogonal(rows, c) && UniqueMinimum(rows, c)
    ensures r.Fitted? && Sound(r.fit, rows, |c|) && r.fit.conditionEstimate == condition
  {
    hide Orthogonal, UniqueMinimum, Tss, MeanResponse, RSquared, Residuals, Dot;
    var residuals, rss := ComputeResiduals(rows, c);
    var tss := TotalSquares(rows);
    var intercept := InterceptPresent(rows, |c|);
    DotOfSelf(Residuals(rows, c), |rows|);
    RSquaredRange(rss, tss);
    if intercept {
      ghost var j: nat :| ConstantColumn(rows, |c|, j);
      InterceptBeatsConstant(rows, c, j, MeanResponse(rows));
    }
    var meanSquare := rss / |rows| as real;
    QuotientNonnegative(rss, |rows| as real);
    SqrtFacts(sqrt, meanSquare);
    r := Fitted(Fit(c, |c|, residuals, rss, sqrt(meanSquare), RSquared(rss, tss), condition, intercept));
  }

  lemma QuotientNonnegative(a: real, b: real)
    requires a >= 0.0 && b > 0.0
    ensures a / b >= 0.0
  {
    var q := a / b;
    assert q * b == a;
    if q < 0.0 {
      ProductPositive(-q, b, -q * b);
    }
  }
}
