/**
 What the scores of the rank gate mean: when a score of zero stands for a linear combination, when the
 diagonal is a distance, and which changes of the input leave the scores and the verdict alone.
 */
module RankGate {
  import opened InnerProducts
  import opened LeastSquares
  import opened LeastSquaresTheory
  import opened OlsQr

  ghost predicate IsZero(x: Vec) {
    forall i :: 0 <= i < |x| ==> x[i] == 0.0
  }

  /** No nonzero combination of the first k columns vanishes. */
  ghost predicate IndependentBefore(cols: seq<Vec>, m: nat, k: nat)
    requires Rectangular(cols, m) && k <= |cols|
  {
    forall c: Vec :: |c| == k && IsZero(Combine(cols, m, c, k)) ==> IsZero(c)
  }

  lemma ZeroHasNoLength(x: Vec)
    ensures IsZero(x) <==> Dot(x, x, |x|) == 0.0
  {
    DotOfSelf(x, |x|);
    if IsZero(x) {
      DotOfZeros(x, x, |x|);
    }
  }

  /** Independence of the first columns is a diagonal without zeros up to there. */
  lemma IndependentExactlyDiagonal(cols: seq<Vec>, tri: seq<Vec>, m: nat, k: nat)
    requires Rectangular(cols, m) && Rectangular(tri, m) && SameGram(tri, cols, m)
    requires k <= |tri| && k <= m && Triangular(tri, m, k)
    ensures IndependentBefore(cols, m, k) <==> Nonsingular(tri, m, k)
  {
    hide Dot, Combine;
    if Nonsingular(tri, m, k) {
      forall c: Vec | |c| == k && IsZero(Combine(cols, m, c, k)) ensures IsZero(c) {
        ZeroHasNoLength(Combine(cols, m, c, k));
        GramDecides(tri, cols, m, c, k, c, k);
        ZeroHasNoLength(Combine(tri, m, c, k));
        TriangleIsInjective(tri, m, c, k);
      }
    } else {
      var z := FirstZero(tri, m, k);
      var c := DependentCoefficients(tri, m, k, z);
      ZeroHasNoLength(Combine(tri, m, c, k));
      GramDecides(tri, cols, m, c, k, c, k);
      ZeroHasNoLength(Combine(cols, m, c, k));
      assert !IsZero(c);
    }
  }

  // ---- Replacing a column -----------------------------------------------------------------------

  /** The observations with u in place of column k. */
  function WithColumn(rows: seq<Observation>, k: nat, u: Vec): (r: seq<Observation>)
    requires |u| == |rows| && forall i :: 0 <= i < |rows| ==> k < |rows[i].x|
    ensures |r| == |rows|
    ensures forall i :: 0 <= i < |r| ==> |r[i].x| == |rows[i].x|
  {
    seq(|rows|, i requires 0 <= i < |rows| && |u| == |rows| && k < |rows[i].x| =>
      Observation(rows[i].x[k := u[i]], rows[i].y))
  }

  lemma DesignWithColumn(rows: seq<Observation>, n: nat, k: nat, u: Vec)
    requires Wide(rows, n) && k < n && |u| == |rows|
    ensures Wide(WithColumn(rows, k, u), n)
    ensures Design(WithColumn(rows, k, u), n) == Design(rows, n)[k := u]
  {
    var changed := WithColumn(rows, k, u);
    forall j | 0 <= j <= n ensures Column(changed, n, j) == if j == k then u else Column(rows, n, j) {
    }
  }

  lemma {:induction false} CombineOfSameColumns(a: seq<Vec>, b: seq<Vec>, m: nat, c: Vec, k: nat)
    requires Rectangular(a, m) && Rectangular(b, m) && k <= |a| && k <= |b| && k <= |c|
    requires forall j :: 0 <= j < k ==> a[j] == b[j]
    ensures Combine(a, m, c, k) == Combine(b, m, c, k)
  {
    if k > 0 {
      CombineOfSameColumns(a, b, m, c, k - 1);
    }
  }

  lemma EarlierColumnsDecide(a: seq<Vec>, b: seq<Vec>, m: nat, k: nat)
    requires Rectangular(a, m) && Rectangular(b, m) && k <= |a| && k <= |b|
    requires forall j :: 0 <= j < k ==> a[j] == b[j]
    ensures IndependentBefore(a, m, k) <==> IndependentBefore(b, m, k)
  {
    hide Combine;
    forall c: Vec | |c| == k ensures Combine(a, m, c, k) == Combine(b, m, c, k) {
      CombineOfSameColumns(a, b, m, c, k);
    }
  }

  // ---- One step, on one column ------------------------------------------------------------------

  /** What the step on a pivot column does to any column. */
  ghost function Moved(pivot: Vec, k: nat, sqrt: real -> real, x: Vec): (r: Vec)
    requires k < |pivot| == |x|
    ensures |r| == |x|
  {
    var norm := TailNorm(pivot, k, sqrt);
    var v := Mirror(pivot, k, norm);
    if norm == 0.0 || Dot(v, v, |v|) == 0.0 then x else Reflect(x, v)
  }

  lemma StepMoves(cols: seq<Vec>, m: nat, k: nat, sqrt: real -> real, j: nat)
    requires Rectangular(cols, m) && k < |cols| && k < m && j < |cols|
    ensures Step(cols, m, k, sqrt)[j] == Moved(cols[k], k, sqrt, cols[j])
  {
  }

  lemma ReflectTwice(x: Vec, v: Vec)
    requires |x| == |v| && Dot(v, v, |v|) != 0.0
    ensures Reflect(Reflect(x, v), v) == x
  {
    hide *;
    var r := Reflect(x, v);
    var f, vx, vv := ReflectedIsSum(x, v);
    var g, vr, _ := ReflectedIsSum(r, v);
    DotSymmetric(v, r, |v|);
    DotSymmetric(v, x, |v|);
    DotLinear(r, x, f, v, v, |v|, vv);
    Opposite(f, g, vx, vr, vv);
    SumBack(Reflect(r, v), r, x, f, v);
  }

  lemma SumBack(back: Vec, r: Vec, x: Vec, f: real, v: Vec)
    requires IsSum(r, x, f, v) && IsSum(back, r, -f, v)
    ensures back == x
  {
    forall i | 0 <= i < |x| ensures back[i] == x[i] {
      assert -f * v[i] == -(f * v[i]);
    }
  }

  lemma Opposite(f: real, g: real, vx: real, vr: real, vv: real)
    requires vv != 0.0 && f * vv == -2.0 * vx && g * vv == -2.0 * vr && vr == vx + f * vv
    ensures g == -f
  {
    assert (f + g) * vv == 0.0;
  }

  lemma MovedTwice(pivot: Vec, k: nat, sqrt: real -> real, x: Vec)
    requires k < |pivot| == |x|
    ensures Moved(pivot, k, sqrt, Moved(pivot, k, sqrt, x)) == x
  {
    var v := Mirror(pivot, k, TailNorm(pivot, k, sqrt));
    hide Dot, Reflect, Mirror, TailNorm;
    if Moved(pivot, k, sqrt, x) != x {
      ReflectTwice(x, v);
    }
  }

  /** The first k steps on the first k columns do not see the others. */
  lemma {:induction false} SameEarlier(a: seq<Vec>, b: seq<Vec>, m: nat, k: nat, t: nat, sqrt: real -> real)
    requires Rectangular(a, m) && Rectangular(b, m) && t <= k <= |a| && k <= |b| && t <= m
    requires forall j :: 0 <= j < k ==> a[j] == b[j]
    ensures forall j :: 0 <= j < k ==> Factor(a, m, t, sqrt)[j] == Factor(b, m, t, sqrt)[j]
    decreases t
  {
    hide Step, Moved;
    if t > 0 {
      SameEarlier(a, b, m, k, t - 1, sqrt);
      var fa, fb := Factor(a, m, t - 1, sqrt), Factor(b, m, t - 1, sqrt);
      forall j | 0 <= j < k ensures Factor(a, m, t, sqrt)[j] == Factor(b, m, t, sqrt)[j] {
        StepMoves(fa, m, t - 1, sqrt, j);
        StepMoves(fb, m, t - 1, sqrt, j);
      }
    }
  }

  /** The column that the first t steps turn into w. */
  ghost function Back(cols: seq<Vec>, m: nat, t: nat, sqrt: real -> real, w: Vec): (u: Vec)
    requires Rectangular(cols, m) && t <= |cols| && t <= m && |w| == m
    ensures |u| == m
    decreases t
  {
    if t == 0 then w
    else Back(cols, m, t - 1, sqrt, Moved(Factor(cols, m, t - 1, sqrt)[t - 1], t - 1, sqrt, w))
  }

  lemma {:induction false} BackComesForward(cols: seq<Vec>, m: nat, k: nat, t: nat, sqrt: real -> real, w: Vec)
    requires Rectangular(cols, m) && t <= k < |cols| && t <= m && |w| == m
    ensures Rectangular(cols[k := Back(cols, m, t, sqrt, w)], m)
    ensures Factor(cols[k := Back(cols, m, t, sqrt, w)], m, t, sqrt)[k] == w
    decreases t
  {
    hide Step, Moved;
    if t > 0 {
      var pivot := Factor(cols, m, t - 1, sqrt)[t - 1];
      var earlier := Moved(pivot, t - 1, sqrt, w);
      var changed := cols[k := Back(cols, m, t, sqrt, w)];
      assert Back(cols, m, t, sqrt, w) == Back(cols, m, t - 1, sqrt, earlier);
      BackComesForward(cols, m, k, t - 1, sqrt, earlier);
      SameEarlier(changed, cols, m, k, t - 1, sqrt);
      StepMoves(Factor(changed, m, t - 1, sqrt), m, t - 1, sqrt, k);
      MovedTwice(pivot, t - 1, sqrt, w);
    }
  }

  lemma {:induction false} DoneColumnStays(cols: seq<Vec>, m: nat, k: nat, t: nat, sqrt: real -> real)
    requires IsSqrt(sqrt) && Rectangular(cols, m) && k < t <= |cols| && t <= m
    ensures Factor(cols, m, t, sqrt)[k] == Factor(cols, m, k + 1, sqrt)[k]
    decreases t
  {
    hide Dot, TailNorm;
    if t > k + 1 {
      DoneColumnStays(cols, m, k, t - 1, sqrt);
      FactorIsTriangular(cols, m, t - 1, sqrt);
      var f := Factor(cols, m, t - 1, sqrt);
      StepMoves(f, m, t - 1, sqrt, k);
      var v := Mirror(f[t - 1], t - 1, TailNorm(f[t - 1], t - 1, sqrt));
      if Dot(v, v, m) != 0.0 {
        ReducedColumnsStay(f, m, t - 1, v, k);
      }
    }
  }

  // ---- A zero hides a column ---------------------------------------------------------------------

  ghost function Axis(m: nat, z: nat): (e: Vec)
    ensures |e| == m
  {
    seq(m, i => if i == z then 1.0 else 0.0)
  }

  lemma {:induction false} LastZero(tri: seq<Vec>, m: nat, n: nat) returns (z: nat)
    requires Rectangular(tri, m) && n <= |tri| && n <= m && !Nonsingular(tri, m, n)
    ensures z < n && tri[z][z] == 0.0 && forall j :: z < j < n ==> tri[j][j] != 0.0
    decreases n
  {
    if tri[n - 1][n - 1] == 0.0 {
      z := n - 1;
    } else {
      z := LastZero(tri, m, n - 1);
    }
  }

  /** Behind its last zero a triangle does not reach that axis. */
  lemma {:induction false} AxisIsNotReached(tri: seq<Vec>, m: nat, k: nat, z: nat, c: Vec)
    requires Rectangular(tri, m) && z < k <= |tri| && k <= m && k <= |c| && Triangular(tri, m, k)
    requires tri[z][z] == 0.0 && forall j :: z < j < k ==> tri[j][j] != 0.0
    ensures Combine(tri, m, c, k) != Axis(m, z)
    decreases k
  {
    if Combine(tri, m, c, k) == Axis(m, z) {
      CombineBelowDiagonal(tri, m, c, k - 1, k - 1);
      var front := Combine(tri, m, c, k - 1);
      assert Combine(tri, m, c, k)[k - 1] == front[k - 1] + c[k - 1] * tri[k - 1][k - 1];
      if k - 1 > z {
        assert c[k - 1] == 0.0;
        forall i | 0 <= i < m ensures front[i] == Axis(m, z)[i] {
          assert Combine(tri, m, c, k)[i] == front[i] + c[k - 1] * tri[k - 1][i];
        }
        AxisIsNotReached(tri, m, k - 1, z, c);
      }
    }
  }

  /** A column that ends on an axis already passed has a zero on the diagonal. */
  lemma PassedAxisScoresZero(cols: seq<Vec>, m: nat, k: nat, z: nat, n: nat, sqrt: real -> real)
    requires IsSqrt(sqrt) && Rectangular(cols, m) && z < k < n <= |cols| && n <= m
    requires Factor(cols, m, k, sqrt)[k] == Axis(m, z)
    ensures Factor(cols, m, n, sqrt)[k][k] == 0.0
  {
    var pivot := Axis(m, z);
    DotOfZeros(Tail(pivot, k), Tail(pivot, k), m);
    SqrtFacts(sqrt, 0.0);
    SquareNonnegative(sqrt(0.0));
    hide Dot;
    StepMoves(Factor(cols, m, k, sqrt), m, k, sqrt, k);
    assert TailNorm(pivot, k, sqrt) == 0.0;
    DoneColumnStays(cols, m, k, n, sqrt);
  }

  /** A score of zero says whether column k is a combination of the columns before it. */
  ghost predicate ZeroMeansSpan(rows: seq<Observation>, n: nat, sqrt: real -> real, k: nat)
    requires Wide(rows, n) && k < n <= |rows|
  {
    Scaled(rows, n, sqrt, k) == 0.0 <==> InSpanBefore(rows, n, k)
  }

  lemma BehindIndependentColumns(rows: seq<Observation>, n: nat, sqrt: real -> real, k: nat)
    requires Wide(rows, n) && k < n <= |rows| && IsSqrt(sqrt)
    requires IndependentBefore(Design(rows, n), |rows|, k)
    ensures ZeroMeansSpan(rows, n, sqrt, k)
  {
    hide Dot, Triangle, Scaled, SameGram, Combine, Design, IndependentBefore;
    var tri, m, x := Triangle(rows, n, sqrt), |rows|, Design(rows, n);
    TriangleFacts(rows, n, sqrt);
    IndependentExactlyDiagonal(x, tri, m, k);
    ScaledRange(rows, n, sqrt, k);
    if Scaled(rows, n, sqrt, k) == 0.0 {
      var c := TriangleSolves(tri, m, tri[k], k);
      forall i | k <= i < m ensures Combine(tri, m, c, k)[i] == tri[k][i] {
        CombineBelowDiagonal(tri, m, c, k, i);
      }
      assert Combine(tri, m, c, k) == tri[k];
      SpanTransfers(x, tri, m, c, k);
      DesignAt(rows, n, k);
      assert SpansBefore(rows, n, k, c);
    } else if InSpanBefore(rows, n, k) {
      SpanScoresZero(rows, n, sqrt, k);
    }
  }

  lemma DesignAt(rows: seq<Observation>, n: nat, j: nat)
    requires Wide(rows, n) && j <= n
    ensures Design(rows, n)[j] == Column(rows, n, j)
  {
  }

  /** Behind dependent columns some column scores zero without being a combination of them. */
  lemma HiddenColumn(rows: seq<Observation>, n: nat, sqrt: real -> real, k: nat) returns (u: Vec)
    requires Wide(rows, n) && k < n <= |rows| && IsSqrt(sqrt)
    requires !IndependentBefore(Design(rows, n), |rows|, k)
    ensures |u| == |rows| && !ZeroMeansSpan(WithColumn(rows, k, u), n, sqrt, k)
  {
    hide Dot, Factor, SameGram, Combine, Design, IndependentBefore, Back, Axis, Scaled;
    var m, x := |rows|, Design(rows, n);
    var early := Factor(x, m, k, sqrt);
    FactorKeepsGram(x, m, k, sqrt);
    FactorIsTriangular(x, m, k, sqrt);
    IndependentExactlyDiagonal(x, early, m, k);
    var z := LastZero(early, m, k);
    u := Back(x, m, k, sqrt, Axis(m, z));
    var changed := WithColumn(rows, k, u);
    DesignWithColumn(rows, n, k, u);
    var y := Design(changed, n);
    var f := Factor(y, m, k, sqrt);
    BackComesForward(x, m, k, k, sqrt, Axis(m, z));
    SameEarlier(y, x, m, k, k, sqrt);
    PassedAxisScoresZero(y, m, k, z, n, sqrt);
    ScaledRange(changed, n, sqrt, k);
    assert Triangle(changed, n, sqrt) == Factor(y, m, n, sqrt);
    FactorKeepsGram(y, m, k, sqrt);
    FactorIsTriangular(y, m, k, sqrt);
    forall c: Vec | |c| == k ensures !SpansBefore(changed, n, k, c) {
      AxisIsNotReached(f, m, k, z, c);
      SpanTransfers(y, f, m, c, k);
      DesignAt(changed, n, k);
    }
  }

  /** The scores before k are all above zero exactly when the columns before k are independent. */
  lemma EarlierScoresDecide(rows: seq<Observation>, n: nat, sqrt: real -> real, k: nat)
    requires Wide(rows, n) && k <= n <= |rows| && IsSqrt(sqrt)
    ensures
      IndependentBefore(Design(rows, n), |rows|, k) <==>
      forall j :: 0 <= j < k ==> Scaled(rows, n, sqrt, j) != 0.0
  {
    hide Dot, Triangle, Scaled, SameGram, Combine, Design, IndependentBefore;
    TriangleFacts(rows, n, sqrt);
    IndependentExactlyDiagonal(Design(rows, n), Triangle(rows, n, sqrt), |rows|, k);
    forall j | 0 <= j < k
      ensures Scaled(rows, n, sqrt, j) == 0.0 <==> Triangle(rows, n, sqrt)[j][j] == 0.0
    {
      ScaledRange(rows, n, sqrt, j);
    }
  }

  /**
   A score of zero means a linear combination of the columns before, whatever column stands in that
   place, exactly when those columns are independent; that is, when none of them scores zero.
   */
  lemma ScoresZeroExactlyInSpan(rows: seq<Observation>, n: nat, sqrt: real -> real, k: nat)
    requires Wide(rows, n) && k < n <= |rows| && IsSqrt(sqrt)
    ensures
      IndependentBefore(Design(rows, n), |rows|, k) <==>
      forall u: Vec :: |u| == |rows| ==> ZeroMeansSpan(WithColumn(rows, k, u), n, sqrt, k)
    ensures
      IndependentBefore(Design(rows, n), |rows|, k) <==>
      forall j :: 0 <= j < k ==> Scaled(rows, n, sqrt, j) != 0.0
  {
    hide Design, IndependentBefore, ZeroMeansSpan, Scaled, WithColumn;
    EarlierScoresDecide(rows, n, sqrt, k);
    if IndependentBefore(Design(rows, n), |rows|, k) {
      forall u: Vec | |u| == |rows| ensures ZeroMeansSpan(WithColumn(rows, k, u), n, sqrt, k) {
        DesignWithColumn(rows, n, k, u);
        EarlierColumnsDecide(Design(WithColumn(rows, k, u), n), Design(rows, n), |rows|, k);
        BehindIndependentColumns(WithColumn(rows, k, u), n, sqrt, k);
      }
    } else {
      var u := HiddenColumn(rows, n, sqrt, k);
    }
  }

  // ---- The diagonal as a distance ---------------------------------------------------------------

  /** The squared distance between column k and a combination of the columns before it. */
  ghost function Gap(cols: seq<Vec>, m: nat, k: nat, c: Vec): real
    requires Rectangular(cols, m) && k < |cols| && |c| == k
  {
    var v := Combine(cols, m, MinusLast(c), k + 1);
    Dot(v, v, m)
  }

  lemma DifferenceAt(cols: seq<Vec>, m: nat, k: nat, c: Vec, i: nat)
    requires Rectangular(cols, m) && k < |cols| && |c| == k && i < m
    ensures Combine(cols, m, MinusLast(c), k + 1)[i] == Combine(cols, m, c, k)[i] - cols[k][i]
  {
    CombineExtensional(cols, m, c, MinusLast(c), k);
    assert Combine(cols, m, MinusLast(c), k + 1)[i] ==
           Combine(cols, m, MinusLast(c), k)[i] + -1.0 * cols[k][i];
  }

  /** No combination comes closer to column k than its diagonal entry. */
  lemma DiagonalWithinGap(cols: seq<Vec>, tri: seq<Vec>, m: nat, k: nat, c: Vec, d: real, dd: real)
    requires Rectangular(cols, m) && Rectangular(tri, m) && SameGram(tri, cols, m)
    requires k < |tri| && k < m && Triangular(tri, m, k) && |c| == k
    requires d == tri[k][k] && dd == d * d
    ensures dd <= Gap(cols, m, k, c)
  {
    hide Dot, Combine, SameGram;
    var v := Combine(tri, m, MinusLast(c), k + 1);
    GramDecides(tri, cols, m, MinusLast(c), k + 1, MinusLast(c), k + 1);
    DifferenceAt(tri, m, k, c, k);
    CombineBelowDiagonal(tri, m, c, k, k);
    Negated(d, v[k], dd);
    ComponentWithin(v, m, k, v[k], dd);
  }

  lemma Negated(d: real, e: real, dd: real)
    requires e == -d && dd == d * d
    ensures dd == e * e
  {
  }

  lemma {:induction false} OneComponent(x: Vec, n: nat, k: nat, xx: real)
    requires k < |x| && n <= |x| && xx == x[k] * x[k]
    requires forall i :: 0 <= i < n && i != k ==> x[i] == 0.0
    ensures Dot(x, x, n) == if k < n then xx else 0.0
  {
    if n > 0 {
      OneComponent(x, n - 1, k, xx);
    }
  }

  /** Behind independent columns some combination comes as close as that. */
  lemma DiagonalIsReached(cols: seq<Vec>, tri: seq<Vec>, m: nat, k: nat, d: real, dd: real) returns (c: Vec)
    requires Rectangular(cols, m) && Rectangular(tri, m) && SameGram(tri, cols, m)
    requires k < |tri| && k < m && Triangular(tri, m, k + 1) && Nonsingular(tri, m, k)
    requires d == tri[k][k] && dd == d * d
    ensures |c| == k && Gap(cols, m, k, c) == dd
  {
    hide Dot, Combine, SameGram;
    c := TriangleSolves(tri, m, tri[k], k);
    var v := Combine(tri, m, MinusLast(c), k + 1);
    GramDecides(tri, cols, m, MinusLast(c), k + 1, MinusLast(c), k + 1);
    forall i | 0 <= i < m ensures v[i] == if i == k then -d else 0.0 {
      DifferenceAt(tri, m, k, c, i);
      if i >= k {
        CombineBelowDiagonal(tri, m, c, k, i);
      }
    }
    Negated(d, v[k], dd);
    OneComponent(v, m, k, dd);
  }

  /** The diagonal entry is the distance of column k from the span of the columns before it. */
  ghost predicate IsDistance(rows: seq<Observation>, n: nat, sqrt: real -> real, k: nat)
    requires Wide(rows, n) && k < n <= |rows|
  {
    var x, d := Design(rows, n), Triangle(rows, n, sqrt)[k][k];
    && (forall c: Vec :: |c| == k ==> d * d <= Gap(x, |rows|, k, c))
    && (exists c: Vec :: |c| == k && Gap(x, |rows|, k, c) == d * d)
  }

  lemma BehindIndependentIsDistance(rows: seq<Observation>, n: nat, sqrt: real -> real, k: nat)
    requires Wide(rows, n) && k < n <= |rows| && IsSqrt(sqrt)
    requires IndependentBefore(Design(rows, n), |rows|, k)
    ensures IsDistance(rows, n, sqrt, k)
  {
    hide Dot, Triangle, Scaled, SameGram, Combine, Design, IndependentBefore, Gap;
    var x, tri, m := Design(rows, n), Triangle(rows, n, sqrt), |rows|;
    var d := tri[k][k];
    TriangleFacts(rows, n, sqrt);
    IndependentExactlyDiagonal(x, tri, m, k);
    forall c: Vec | |c| == k ensures d * d <= Gap(x, m, k, c) {
      DiagonalWithinGap(x, tri, m, k, c, d, d * d);
    }
    var c := DiagonalIsReached(x, tri, m, k, d, d * d);
  }

  lemma ZeroDistanceIsSpan(rows: seq<Observation>, n: nat, sqrt: real -> real, k: nat)
    requires Wide(rows, n) && k < n <= |rows| && IsSqrt(sqrt) && IsDistance(rows, n, sqrt, k)
    ensures ZeroMeansSpan(rows, n, sqrt, k)
  {
    hide Dot, Triangle, Scaled, Combine, Design;
    ScaledRange(rows, n, sqrt, k);
    var d := Triangle(rows, n, sqrt)[k][k];
    if Scaled(rows, n, sqrt, k) == 0.0 {
      var c: Vec :| |c| == k && Gap(Design(rows, n), |rows|, k, c) == d * d;
      assert d * d == 0.0;
      SpanDifference(Design(rows, n), |rows|, c, k);
      DesignAt(rows, n, k);
      assert SpansBefore(rows, n, k, c);
    } else if InSpanBefore(rows, n, k) {
      SpanScoresZero(rows, n, sqrt, k);
    }
  }

  /**
   The diagonal entry is the distance of column k from the span of the columns before it, whatever column
   stands in that place, exactly when those columns are independent.
   */
  lemma DiagonalIsDistance(rows: seq<Observation>, n: nat, sqrt: real -> real, k: nat)
    requires Wide(rows, n) && k < n <= |rows| && IsSqrt(sqrt)
    ensures
      IndependentBefore(Design(rows, n), |rows|, k) <==>
      forall u: Vec :: |u| == |rows| ==> IsDistance(WithColumn(rows, k, u), n, sqrt, k)
  {
    hide Design, IndependentBefore, IsDistance, ZeroMeansSpan, WithColumn;
    if IndependentBefore(Design(rows, n), |rows|, k) {
      forall u: Vec | |u| == |rows| ensures IsDistance(WithColumn(rows, k, u), n, sqrt, k) {
        DesignWithColumn(rows, n, k, u);
        EarlierColumnsDecide(Design(WithColumn(rows, k, u), n), Design(rows, n), |rows|, k);
        BehindIndependentIsDistance(WithColumn(rows, k, u), n, sqrt, k);
      }
    } else {
      var u := HiddenColumn(rows, n, sqrt, k);
      DesignWithColumn(rows, n, k, u);
      if IsDistance(WithColumn(rows, k, u), n, sqrt, k) {
        ZeroDistanceIsSpan(WithColumn(rows, k, u), n, sqrt, k);
      }
    }
  }

  // ---- Units -------------------------------------------------------------------------------------

  ghost function Times(f: real, x: Vec): (r: Vec)
    ensures |r| == |x|
  {
    seq(|x|, i requires 0 <= i < |x| => f * x[i])
  }

  lemma FourProduct(f: real, x: real, g: real, y: real, fg: real, xy: real)
    requires fg == f * g && xy == x * y
    ensures (f * x) * (g * y) == fg * xy
  {
    assert (f * x) * (g * y) == f * (x * (g * y));
    assert x * (g * y) == g * xy;
    assert f * (g * xy) == fg * xy;
  }

  lemma {:induction false} DotTimes(f: real, x: Vec, g: real, y: Vec, n: nat, fg: real)
    requires n <= |x| && n <= |y| && fg == f * g
    ensures Dot(Times(f, x), Times(g, y), n) == fg * Dot(x, y, n)
  {
    hide Times;
    TimesAt(f, x);
    TimesAt(g, y);
    if n > 0 {
      DotTimes(f, x, g, y, n - 1, fg);
      var last := x[n - 1] * y[n - 1];
      FourProduct(f, x[n - 1], g, y[n - 1], fg, last);
      Distributes(fg, Dot(x, y, n - 1), last);
    }
  }

  lemma Distributes(f: real, a: real, b: real)
    ensures f * (a + b) == f * a + f * b
  {
  }

  lemma TailTimes(f: real, x: Vec, k: nat)
    ensures Tail(Times(f, x), k) == Times(f, Tail(x, k))
  {
    forall i | 0 <= i < |x| ensures Tail(Times(f, x), k)[i] == Times(f, Tail(x, k))[i] {
      assert f * 0.0 == 0.0;
    }
  }

  /** A square has one root that is not negative. */
  lemma OneRoot(a: real, b: real, aa: real)
    requires a >= 0.0 && b >= 0.0 && a * a == aa && b * b == aa
    ensures a == b
  {
    var product := (a - b) * (a + b);
    assert product == a * a - b * b;
    assert (b - a) * (a + b) == -product;
    if a > b {
      ProductPositive(a - b, a + b, product);
    } else if b > a {
      ProductPositive(b - a, a + b, -product);
    }
  }

  lemma RootTimes(f: real, square: real, ff: real, product: real, sqrt: real -> real)
    requires IsSqrt(sqrt) && f > 0.0 && square >= 0.0 && ff == f * f && product == ff * square
    ensures sqrt(product) == f * sqrt(square)
  {
    hide *;
    var root := sqrt(square);
    SqrtFacts(sqrt, square);
    SquareNonnegative(f);
    NonnegativeProduct(ff, square);
    NonnegativeProduct(f, root);
    SqrtFacts(sqrt, product);
    FourProduct(f, root, f, root, ff, square);
    OneRoot(sqrt(product), f * root, product);
  }

  lemma NonnegativeProduct(a: real, b: real)
    requires a >= 0.0 && b >= 0.0
    ensures a * b >= 0.0
  {
    if a > 0.0 && b > 0.0 {
      ProductPositive(a, b, a * b);
    } else {
      assert a * b == 0.0;
    }
  }

  lemma TailNormTimes(f: real, x: Vec, k: nat, sqrt: real -> real)
    requires IsSqrt(sqrt) && f > 0.0
    ensures TailNorm(Times(f, x), k, sqrt) == f * TailNorm(x, k, sqrt)
  {
    hide *;
    var t := Tail(x, k);
    TailTimes(f, x, k);
    TailNormIsRoot(x, k, sqrt);
    TailNormIsRoot(Times(f, x), k, sqrt);
    LengthTimes(f, t, sqrt);
  }

  lemma TailNormIsRoot(x: Vec, k: nat, sqrt: real -> real)
    ensures |Tail(x, k)| == |x|
    ensures TailNorm(x, k, sqrt) == sqrt(Dot(Tail(x, k), Tail(x, k), |x|))
  {
  }

  lemma LengthTimes(f: real, x: Vec, sqrt: real -> real)
    requires IsSqrt(sqrt) && f > 0.0
    ensures |Times(f, x)| == |x|
    ensures sqrt(Dot(Times(f, x), Times(f, x), |x|)) == f * sqrt(Dot(x, x, |x|))
  {
    hide *;
    var ff := f * f;
    DotTimes(f, x, f, x, |x|, ff);
    DotOfSelf(x, |x|);
    RootTimes(f, Dot(x, x, |x|), ff, Dot(Times(f, x), Times(f, x), |x|), sqrt);
  }

  lemma SameSign(f: real, x: real)
    requires f > 0.0
    ensures f * x > 0.0 <==> x > 0.0
    ensures f * x == 0.0 <==> x == 0.0
  {
    if x > 0.0 {
      ProductPositive(f, x, f * x);
    } else if x < 0.0 {
      ProductPositive(f, -x, f * -x);
      assert f * -x == -(f * x);
    }
  }

  lemma MirrorTimes(f: real, x: Vec, k: nat, norm: real, norm': real)
    requires f > 0.0 && k < |x| && norm' == f * norm
    ensures Mirror(Times(f, x), k, norm') == Times(f, Mirror(x, k, norm))
  {
    TailTimes(f, x, k);
    SameSign(f, x[k]);
    var alpha := Pivot(x, k, norm);
    assert f * -norm == -norm';
    assert Pivot(Times(f, x), k, norm') == f * alpha;
    assert f * x[k] - f * alpha == f * (x[k] - alpha);
    forall i | 0 <= i < |x| ensures Mirror(Times(f, x), k, norm')[i] == Times(f, Mirror(x, k, norm))[i] {
    }
  }

  /** A mirror does not depend on the length of its normal, and reflecting is linear. */
  lemma ReflectTimes(g: real, x: Vec, f: real, v: Vec)
    requires f > 0.0 && |x| == |v| && Dot(v, v, |v|) != 0.0
    ensures Dot(Times(f, v), Times(f, v), |v|) != 0.0
    ensures Reflect(Times(g, x), Times(f, v)) == Times(g, Reflect(x, v))
  {
    hide *;
    var n, ff, fg := |v|, f * f, f * g;
    var h, vx, vv := ReflectedIsSum(x, v);
    var gx, fv := Times(g, x), Times(f, v);
    DotTimes(f, v, f, v, n, ff);
    DotTimes(f, v, g, x, n, fg);
    ProductPositive(f, f, ff);
    NonzeroProduct(ff, vv);
    TimesAt(f, v);
    TimesAt(g, x);
    var h', vx', vv' := ReflectedIsSum(gx, fv);
    FactorTimes(f, g, h, h', vx, vv, vx', vv', ff, fg);
    SumTimes(Reflect(gx, fv), gx, h', fv, Reflect(x, v), x, h, v, f, g);
  }

  lemma TimesAt(f: real, x: Vec)
    ensures |Times(f, x)| == |x| && forall i :: 0 <= i < |x| ==> Times(f, x)[i] == f * x[i]
  {
  }

  lemma SumTimes(r': Vec, x': Vec, h': real, v': Vec, r: Vec, x: Vec, h: real, v: Vec, f: real, g: real)
    requires IsSum(r', x', h', v') && IsSum(r, x, h, v) && x' == Times(g, x) && v' == Times(f, v)
    requires h' * f == g * h
    ensures r' == Times(g, r)
  {
    hide *;
    TimesAt(f, v);
    TimesAt(g, x);
    TimesAt(g, r);
    SumAt(r', x', h', v');
    SumAt(r, x, h, v);
    forall i | 0 <= i < |r| ensures r'[i] == Times(g, r)[i] {
      Regroup(h', f, v[i], g, h, x[i]);
    }
  }

  lemma SumAt(r: Vec, x: Vec, h: real, v: Vec)
    requires IsSum(r, x, h, v)
    ensures |r| == |x| == |v| && forall i :: 0 <= i < |r| ==> r[i] == x[i] + h * v[i]
  {
  }

  lemma NonzeroProduct(a: real, b: real)
    requires a != 0.0 && b != 0.0
    ensures a * b != 0.0
  {
  }

  lemma FactorTimes(f: real, g: real, h: real, h': real, vx: real, vv: real, vx': real, vv': real,
                    ff: real, fg: real)
    requires ff == f * f && fg == f * g
    requires f != 0.0 && vv != 0.0 && vv' != 0.0
    requires h * vv == -2.0 * vx && h' * vv' == -2.0 * vx'
    requires vv' == ff * vv && vx' == fg * vx
    ensures h' * f == g * h
  {
    NonzeroProduct(f, vv);
    var fvv := f * vv;
    assert vv' == f * fvv by { assert (f * f) * vv == f * (f * vv); }
    assert h' * vv' == (h' * f) * fvv;
    assert vx' == f * (g * vx) by { assert (f * g) * vx == f * (g * vx); }
    assert (g * h) * fvv == f * (g * (h * vv));
    assert f * (g * (-2.0 * vx)) == -2.0 * (f * (g * vx));
    CancelFactor(h' * f, g * h, fvv);
  }

  lemma CancelFactor(a: real, b: real, c: real)
    requires c != 0.0 && a * c == b * c
    ensures a == b
  {
    assert (a - b) * c == 0.0;
  }

  lemma Regroup(h': real, f: real, v: real, g: real, h: real, x: real)
    requires h' * f == g * h
    ensures g * x + h' * (f * v) == g * (x + h * v)
  {
    assert h' * (f * v) == (h' * f) * v;
    assert (g * h) * v == g * (h * v);
    Distributes(g, x, h * v);
  }

  lemma MovedTimes(f: real, pivot: Vec, k: nat, sqrt: real -> real, g: real, x: Vec)
    requires IsSqrt(sqrt) && f > 0.0 && k < |pivot| == |x|
    ensures Moved(Times(f, pivot), k, sqrt, Times(g, x)) == Times(g, Moved(pivot, k, sqrt, x))
  {
    hide *;
    var norm := TailNorm(pivot, k, sqrt);
    var v := Mirror(pivot, k, norm);
    var ff := f * f;
    TailNormTimes(f, pivot, k, sqrt);
    MirrorTimes(f, pivot, k, norm, TailNorm(Times(f, pivot), k, sqrt));
    SameSign(f, norm);
    TimesAt(f, pivot);
    TimesAt(g, x);
    TimesAt(f, v);
    DotTimes(f, v, f, v, |v|, ff);
    MovedIs(pivot, k, sqrt, x);
    MovedIs(Times(f, pivot), k, sqrt, Times(g, x));
    var v' := Times(f, v);
    if Dot(v, v, |v|) != 0.0 {
      ReflectTimes(g, x, f, v);
      assert Dot(v', v', |v'|) != 0.0;
    } else {
      assert ff * 0.0 == 0.0;
      assert Dot(v', v', |v'|) == 0.0;
    }
  }

  lemma MovedIs(pivot: Vec, k: nat, sqrt: real -> real, x: Vec)
    requires k < |pivot| == |x|
    ensures
      var norm := TailNorm(pivot, k, sqrt);
      var v := Mirror(pivot, k, norm);
      |v| == |x| &&
      Moved(pivot, k, sqrt, x) == if norm == 0.0 || Dot(v, v, |v|) == 0.0 then x else Reflect(x, v)
  {
  }

  /** Every column in a unit of its own. */
  ghost predicate Rescales(b: seq<Vec>, a: seq<Vec>, s: Vec) {
    |b| == |a| == |s| && forall j :: 0 <= j < |a| ==> s[j] > 0.0 && b[j] == Times(s[j], a[j])
  }

  lemma {:induction false} FactorRescales(a: seq<Vec>, b: seq<Vec>, s: Vec, m: nat, t: nat, sqrt: real -> real)
    requires IsSqrt(sqrt) && Rectangular(a, m) && Rectangular(b, m) && Rescales(b, a, s) && t <= |a| && t <= m
    ensures Rescales(Factor(b, m, t, sqrt), Factor(a, m, t, sqrt), s)
    decreases t
  {
    hide Step, Moved, Times;
    if t > 0 {
      FactorRescales(a, b, s, m, t - 1, sqrt);
      var fa, fb := Factor(a, m, t - 1, sqrt), Factor(b, m, t - 1, sqrt);
      forall j | 0 <= j < |a|
        ensures Factor(b, m, t, sqrt)[j] == Times(s[j], Factor(a, m, t, sqrt)[j])
      {
        StepMoves(fa, m, t - 1, sqrt, j);
        StepMoves(fb, m, t - 1, sqrt, j);
        MovedTimes(s[t - 1], fa[t - 1], t - 1, sqrt, s[j], fa[j]);
      }
    }
  }

  /** The same observations, each regressor measured in another unit. */
  function InUnits(rows: seq<Observation>, s: Vec): (r: seq<Observation>)
    requires forall i :: 0 <= i < |rows| ==> |rows[i].x| == |s|
    ensures |r| == |rows| && forall i :: 0 <= i < |r| ==> |r[i].x| == |s|
  {
    seq(|rows|, i requires 0 <= i < |rows| && |rows[i].x| == |s| =>
      Observation(seq(|s|, j requires 0 <= j < |s| && |rows[i].x| == |s| => s[j] * rows[i].x[j]), rows[i].y))
  }

  lemma DesignInUnits(rows: seq<Observation>, s: Vec)
    requires Wide(rows, |s|) && forall j :: 0 <= j < |s| ==> s[j] > 0.0
    ensures Wide(InUnits(rows, s), |s|)
    ensures Rescales(Design(InUnits(rows, s), |s|), Design(rows, |s|), s + [1.0])
  {
    var n, changed := |s|, InUnits(rows, s);
    forall j | 0 <= j <= n ensures Column(changed, n, j) == Times((s + [1.0])[j], Column(rows, n, j)) {
      forall i | 0 <= i < |rows|
        ensures Column(changed, n, j)[i] == Times((s + [1.0])[j], Column(rows, n, j))[i]
      {
      }
    }
  }

  lemma RatioTimes(f: real, d: real, norm: real, fd: real, fn: real)
    requires f > 0.0 && norm != 0.0 && fd == f * d && fn == f * norm
    ensures fn != 0.0 && Magnitude(fd) / fn == Magnitude(d) / norm
  {
    SameSign(f, norm);
    SameSign(f, d);
    var q := Magnitude(d) / norm;
    assert q * norm == Magnitude(d);
    assert f * -d == -fd;
    assert Magnitude(fd) == f * Magnitude(d) == f * (q * norm) == q * fn;
    QuotientOf(q, fn, Magnitude(fd));
  }

  lemma QuotientOf(q: real, d: real, p: real)
    requires d != 0.0 && p == q * d
    ensures p / d == q
  {
    CancelFactor(p / d, q, d);
  }

  lemma UnitKeepsScore(rows: seq<Observation>, s: Vec, sqrt: real -> real, k: nat)
    requires Wide(rows, |s|) && k < |s| <= |rows| && IsSqrt(sqrt) && forall j :: 0 <= j < |s| ==> s[j] > 0.0
    ensures Wide(InUnits(rows, s), |s|)
    ensures Scaled(InUnits(rows, s), |s|, sqrt, k) == Scaled(rows, |s|, sqrt, k)
  {
    hide Dot, Factor, InUnits;
    var n, m, changed := |s|, |rows|, InUnits(rows, s);
    DesignInUnits(rows, s);
    var x, y := Design(rows, n), Design(changed, n);
    FactorRescales(x, y, s + [1.0], m, n, sqrt);
    DesignAt(rows, n, k);
    DesignAt(changed, n, k);
    assert Column(changed, n, k) == Times(s[k], Column(rows, n, k));
    LengthTimes(s[k], x[k], sqrt);
    var norm, d := ColumnNorm(rows, n, sqrt, k), Triangle(rows, n, sqrt)[k][k];
    assert Triangle(changed, n, sqrt)[k][k] == s[k] * d;
    assert ColumnNorm(changed, n, sqrt, k) == s[k] * norm;
    if norm != 0.0 {
      RatioTimes(s[k], d, norm, s[k] * d, s[k] * norm);
    }
  }

  /**
   No score depends on the units in which the columns were measured, in any design; so neither does
   the verdict, the rank or the condition estimate.
   */
  lemma UnitsDoNotMatter(rows: seq<Observation>, s: Vec, sqrt: real -> real)
    requires Wide(rows, |s|) && |s| <= |rows| && IsSqrt(sqrt) && forall j :: 0 <= j < |s| ==> s[j] > 0.0
    ensures Wide(InUnits(rows, s), |s|)
    ensures Scores(InUnits(rows, s), |s|, sqrt) == Scores(rows, |s|, sqrt)
  {
    hide InUnits, Scaled;
    DesignInUnits(rows, s);
    forall k | 0 <= k < |s| ensures Scores(InUnits(rows, s), |s|, sqrt)[k] == Scores(rows, |s|, sqrt)[k] {
      UnitKeepsScore(rows, s, sqrt, k);
    }
  }

  // ---- Column order ------------------------------------------------------------------------------

  /** Every column once, in some order. */
  ghost predicate IsOrder(p: seq<nat>, n: nat) {
    && |p| == n
    && (forall j :: 0 <= j < n ==> p[j] < n)
    && (forall i, j :: 0 <= i < j < n ==> p[i] != p[j])
    && (forall i: nat :: i < n ==> i in p)
  }

  /** The same observations, their regressors listed in the order p. */
  function Reordered(rows: seq<Observation>, p: seq<nat>): (r: seq<Observation>)
    requires forall i, j :: 0 <= i < |rows| && 0 <= j < |p| ==> p[j] < |rows[i].x|
    ensures |r| == |rows|
    ensures forall i :: 0 <= i < |r| ==>
      |r[i].x| == |p| && r[i].y == rows[i].y && forall j :: 0 <= j < |p| ==> r[i].x[j] == rows[i].x[p[j]]
  {
    seq(|rows|, i requires 0 <= i < |rows| && forall j :: 0 <= j < |p| ==> p[j] < |rows[i].x| =>
      Observation(seq(|p|, j requires 0 <= j < |p| && p[j] < |rows[i].x| => rows[i].x[p[j]]), rows[i].y))
  }

  /** The first k coefficients, each put back in its column's place. */
  ghost function Placed(c: Vec, p: seq<nat>, n: nat, k: nat): (d: Vec)
    requires k <= |c| && k <= |p| && forall j :: 0 <= j < |p| ==> p[j] < n
    ensures |d| == n
  {
    if k == 0 then seq(n, i => 0.0) else Placed(c, p, n, k - 1)[p[k - 1] := c[k - 1]]
  }

  lemma {:induction false} PlacedAt(c: Vec, p: seq<nat>, n: nat, k: nat)
    requires k <= |c| && IsOrder(p, n) && k <= n
    ensures forall j :: 0 <= j < k ==> Placed(c, p, n, k)[p[j]] == c[j]
    ensures forall j :: k <= j < n ==> Placed(c, p, n, k)[p[j]] == 0.0
  {
    if k > 0 {
      PlacedAt(c, p, n, k - 1);
    }
  }

  lemma {:induction false} FittedUpdate(x: Vec, d: Vec, i: nat, v: real, hi: nat, term: real)
    requires hi <= |x| && hi <= |d| && i < |x| && i < |d| && d[i] == 0.0 && term == x[i] * v
    ensures FittedFrom(x, d[i := v], 0, hi) == FittedFrom(x, d, 0, hi) + if i < hi then term else 0.0
  {
    if hi > 0 {
      FittedUpdate(x, d, i, v, hi - 1, term);
    }
  }

  lemma {:induction false} FittedReordered(x: Vec, y: Vec, c: Vec, p: seq<nat>, n: nat, k: nat)
    requires IsOrder(p, n) && |x| == |y| == |c| == n && k <= n
    requires forall j :: 0 <= j < n ==> y[j] == x[p[j]]
    ensures FittedFrom(y, c, 0, k) == FittedFrom(x, Placed(c, p, n, k), 0, n)
    decreases k
  {
    if k == 0 {
      FittedOfZeros(x, Placed(c, p, n, 0), n);
    } else {
      FittedReordered(x, y, c, p, n, k - 1);
      PlacedAt(c, p, n, k - 1);
      FittedUpdate(x, Placed(c, p, n, k - 1), p[k - 1], c[k - 1], n, y[k - 1] * c[k - 1]);
    }
  }

  lemma {:induction false} FittedOfZeros(x: Vec, d: Vec, hi: nat)
    requires hi <= |x| && hi <= |d| && forall i :: 0 <= i < hi ==> d[i] == 0.0
    ensures FittedFrom(x, d, 0, hi) == 0.0
  {
    if hi > 0 {
      FittedOfZeros(x, d, hi - 1);
      assert x[hi - 1] * 0.0 == 0.0;
    }
  }

  /** Placed coefficients of the reordered columns combine the original ones to the same vector. */
  lemma VanishesReordered(rows: seq<Observation>, p: seq<nat>, n: nat, c: Vec)
    requires Wide(rows, n) && IsOrder(p, n) && |c| == n
    ensures Wide(Reordered(rows, p), n)
    ensures Vanishes(Reordered(rows, p), c) <==> Vanishes(rows, Placed(c, p, n, n))
  {
    forall i | 0 <= i < |rows|
      ensures FittedFrom(Reordered(rows, p)[i].x, c, 0, n) == FittedFrom(rows[i].x, Placed(c, p, n, n), 0, n)
    {
      FittedReordered(rows[i].x, Reordered(rows, p)[i].x, c, p, n, n);
    }
  }

  lemma IndependentReordered(rows: seq<Observation>, p: seq<nat>, n: nat)
    requires Wide(rows, n) && IsOrder(p, n)
    ensures Wide(Reordered(rows, p), n)
    ensures Independent(Reordered(rows, p), n) <==> Independent(rows, n)
  {
    hide Vanishes, Reordered;
    VanishesReordered(rows, p, n, seq(n, i => 0.0));
    if Independent(rows, n) {
      forall c: Vec | |c| == n && Vanishes(Reordered(rows, p), c)
        ensures forall j :: 0 <= j < n ==> c[j] == 0.0
      {
        VanishesReordered(rows, p, n, c);
        PlacedAt(c, p, n, n);
      }
    }
    if Independent(Reordered(rows, p), n) {
      forall d: Vec | |d| == n && Vanishes(rows, d) ensures forall j :: 0 <= j < n ==> d[j] == 0.0 {
        var c := seq(n, j requires 0 <= j < n => d[p[j]]);
        PlacedAt(c, p, n, n);
        forall i | 0 <= i < n ensures Placed(c, p, n, n)[i] == d[i] {
          assert i in p;
          var j :| 0 <= j < n && p[j] == i;
        }
        assert Placed(c, p, n, n) == d;
        VanishesReordered(rows, p, n, c);
        forall i | 0 <= i < n ensures d[i] == 0.0 {
          assert i in p;
          var j :| 0 <= j < n && p[j] == i;
          assert c[j] == 0.0;
        }
      }
    }
  }

  /** At tolerance zero the verdict does not depend on the order in which the columns are listed. */
  lemma OrderDoesNotMatterAtZero(rows: seq<Observation>, p: seq<nat>, n: nat, sqrt: real -> real)
    requires Wide(rows, n) && IsOrder(p, n) && n <= |rows| && IsSqrt(sqrt)
    ensures Wide(Reordered(rows, p), n)
    ensures ScoresAtMost(Reordered(rows, p), n, sqrt, 0.0) <==> ScoresAtMost(rows, n, sqrt, 0.0)
  {
    hide Independent, Reordered, Scaled;
    IndependentReordered(rows, p, n);
    ZeroToleranceIsIndependence(rows, n, sqrt);
    ZeroToleranceIsIndependence(Reordered(rows, p), n, sqrt);
  }

  lemma ZeroToleranceIsIndependence(rows: seq<Observation>, n: nat, sqrt: real -> real)
    requires Wide(rows, n) && n <= |rows| && IsSqrt(sqrt)
    ensures ScoresAtMost(rows, n, sqrt, 0.0) <==> !Independent(rows, n)
  {
    hide Independent, Scaled;
    DiagonalDecides(rows, n, sqrt);
  }

  // ---- An order that matters ----------------------------------------------------------------------

  /** The score is the diagonal entry in units of the column's length. */
  lemma ScoreIs(rows: seq<Observation>, n: nat, sqrt: real -> real, k: nat, square: real)
    returns (norm: real, d: real)
    requires Wide(rows, n) && k < n <= |rows| && IsSqrt(sqrt)
    requires square == Dot(Column(rows, n, k), Column(rows, n, k), |rows|)
    ensures d == Triangle(rows, n, sqrt)[k][k] && norm >= 0.0 && norm * norm == square
    ensures norm == 0.0 ==> Scaled(rows, n, sqrt, k) == 0.0
    ensures norm != 0.0 ==> Scaled(rows, n, sqrt, k) == Magnitude(d) / norm
  {
    norm, d := ColumnNorm(rows, n, sqrt, k), Triangle(rows, n, sqrt)[k][k];
    DotOfSelf(Column(rows, n, k), |rows|);
    SqrtFacts(sqrt, square);
  }

  /** A combination as near as the tolerance keeps the score down to it. */
  lemma NearScoresLow(rows: seq<Observation>, n: nat, sqrt: real -> real, k: nat, c: Vec, t: real, tt: real,
                      square: real)
    requires Wide(rows, n) && k < n <= |rows| && IsSqrt(sqrt) && |c| == k && t >= 0.0 && tt == t * t
    requires square == Dot(Column(rows, n, k), Column(rows, n, k), |rows|)
    requires Gap(Design(rows, n), |rows|, k, c) <= tt * square
    ensures Scaled(rows, n, sqrt, k) <= t
  {
    hide *;
    var norm, d := ScoreIs(rows, n, sqrt, k, square);
    var dd := d * d;
    TriangleFacts(rows, n, sqrt);
    TriangularUpTo(Triangle(rows, n, sqrt), |rows|, k, n);
    DiagonalWithinGap(Design(rows, n), Triangle(rows, n, sqrt), |rows|, k, c, d, dd);
    if norm != 0.0 {
      LowRatio(d, dd, norm, t, tt, square);
    }
  }

  lemma TriangularUpTo(tri: seq<Vec>, m: nat, k: nat, n: nat)
    requires Rectangular(tri, m) && k <= n <= |tri| && Triangular(tri, m, n)
    ensures Triangular(tri, m, k)
  {
  }

  lemma LowRatio(d: real, dd: real, norm: real, t: real, tt: real, square: real)
    requires dd == d * d && norm > 0.0 && t >= 0.0 && tt == t * t && square == norm * norm && dd <= tt * square
    ensures Magnitude(d) / norm <= t
  {
    var bound := t * norm;
    FourProduct(t, norm, t, norm, tt, square);
    NonnegativeProduct(t, norm);
    SquareOrder(d, dd, bound, tt * square);
    RatioAtMost(Magnitude(d), norm, t);
  }

  lemma RatioAtMost(a: real, norm: real, t: real)
    requires norm > 0.0 && a <= t * norm
    ensures a / norm <= t
  {
    var q := a / norm;
    assert q * norm == a;
    if q > t {
      ProductPositive(q - t, norm, (q - t) * norm);
    }
  }

  /** A column that every combination misses by more than the tolerance scores above it. */
  lemma FarScoresHigh(rows: seq<Observation>, n: nat, sqrt: real -> real, k: nat, t: real, tt: real, square: real)
    requires Wide(rows, n) && k < n <= |rows| && IsSqrt(sqrt) && t >= 0.0 && tt == t * t
    requires square == Dot(Column(rows, n, k), Column(rows, n, k), |rows|) && square > 0.0
    requires forall j :: 0 <= j < k ==> Scaled(rows, n, sqrt, j) != 0.0
    requires forall c: Vec :: |c| == k ==> Gap(Design(rows, n), |rows|, k, c) > tt * square
    ensures Scaled(rows, n, sqrt, k) > t
  {
    hide *;
    var norm, d := ScoreIs(rows, n, sqrt, k, square);
    EarlierScoresDecide(rows, n, sqrt, k);
    BehindIndependentIsDistance(rows, n, sqrt, k);
    DistanceIsReached(rows, n, sqrt, k);
    var c: Vec :| |c| == k && Gap(Design(rows, n), |rows|, k, c) == d * d;
    HighRatio(d, d * d, norm, t, tt, square);
  }

  lemma DistanceIsReached(rows: seq<Observation>, n: nat, sqrt: real -> real, k: nat)
    requires Wide(rows, n) && k < n <= |rows| && IsDistance(rows, n, sqrt, k)
    ensures var d := Triangle(rows, n, sqrt)[k][k];
      exists c: Vec :: |c| == k && Gap(Design(rows, n), |rows|, k, c) == d * d
  {
  }

  lemma HighRatio(d: real, dd: real, norm: real, t: real, tt: real, square: real)
    requires dd == d * d && norm >= 0.0 && t >= 0.0 && tt == t * t && square == norm * norm
    requires square > 0.0 && dd > tt * square
    ensures norm != 0.0 && Magnitude(d) / norm > t
  {
    var q := Magnitude(d) / norm;
    assert q * norm == Magnitude(d);
    if q <= t {
      MagnitudeSquare(d, dd);
      RatioFromBelow(Magnitude(d), norm, q, t, dd, tt, square);
    }
  }

  lemma MagnitudeSquare(d: real, dd: real)
    requires dd == d * d
    ensures Magnitude(d) >= 0.0 && Magnitude(d) * Magnitude(d) == dd
  {
  }

  lemma RatioFromBelow(a: real, norm: real, q: real, t: real, aa: real, tt: real, square: real)
    requires a >= 0.0 && norm > 0.0 && a == q * norm && q <= t && t >= 0.0
    requires aa == a * a && tt == t * t && square == norm * norm
    ensures aa <= tt * square
  {
    var bound := t * norm;
    NonnegativeProduct(t - q, norm);
    assert (t - q) * norm == bound - a;
    NonnegativeProduct(bound - a, bound + a);
    assert (bound - a) * (bound + a) == bound * bound - aa;
    FourProduct(t, norm, t, norm, tt, square);
  }

  lemma CombineOne(cols: seq<Vec>, m: nat, c: Vec, i: nat)
    requires Rectangular(cols, m) && |cols| >= 1 && |c| >= 1 && i < m
    ensures Combine(cols, m, c, 1)[i] == c[0] * cols[0][i]
  {
    assert Combine(cols, m, c, 0)[i] == 0.0;
  }

  lemma CombineTwo(cols: seq<Vec>, m: nat, c: Vec, i: nat)
    requires Rectangular(cols, m) && |cols| >= 2 && |c| >= 2 && i < m
    ensures Combine(cols, m, c, 2)[i] == c[0] * cols[0][i] + c[1] * cols[1][i]
  {
    hide Combine;
    CombineOne(cols, m, c, i);
    CombineAt(cols, m, c, 2, i);
  }

  lemma CombineAt(cols: seq<Vec>, m: nat, c: Vec, n: nat, i: nat)
    requires Rectangular(cols, m) && 0 < n <= |cols| && n <= |c| && i < m
    ensures Combine(cols, m, c, n)[i] == Combine(cols, m, c, n - 1)[i] + c[n - 1] * cols[n - 1][i]
  {
  }

  // ---- Designs given by their columns ---------------------------------------------------------------

  /** The observations whose regressors are these columns. */
  function FromColumns(m: nat, cols: seq<Vec>): (rows: seq<Observation>)
    requires Rectangular(cols, m)
    ensures |rows| == m && forall i :: 0 <= i < m ==> |rows[i].x| == |cols|
    ensures forall i, j :: 0 <= i < m && 0 <= j < |cols| ==> rows[i].x[j] == cols[j][i]
  {
    seq(m, i requires 0 <= i < m => Observation(seq(|cols|, j requires 0 <= j < |cols| => cols[j][i]), 0.0))
  }

  lemma ColumnOf(m: nat, cols: seq<Vec>, j: nat)
    requires Rectangular(cols, m) && j < |cols|
    ensures Wide(FromColumns(m, cols), |cols|)
    ensures Column(FromColumns(m, cols), |cols|, j) == cols[j] == Design(FromColumns(m, cols), |cols|)[j]
  {
    assert forall i :: 0 <= i < m ==> Column(FromColumns(m, cols), |cols|, j)[i] == cols[j][i];
  }

  function Listed(cols: seq<Vec>, order: seq<nat>): (listed: seq<Vec>)
    requires forall j :: 0 <= j < |order| ==> order[j] < |cols|
    ensures |listed| == |order| && forall j :: 0 <= j < |order| ==> listed[j] == cols[order[j]]
  {
    seq(|order|, j requires 0 <= j < |order| => cols[order[j]])
  }

  lemma ReorderedColumns(m: nat, cols: seq<Vec>, order: seq<nat>)
    requires Rectangular(cols, m) && forall j :: 0 <= j < |order| ==> order[j] < |cols|
    ensures Rectangular(Listed(cols, order), m)
    ensures Reordered(FromColumns(m, cols), order) == FromColumns(m, Listed(cols, order))
  {
    var a, b := Reordered(FromColumns(m, cols), order), FromColumns(m, Listed(cols, order));
    forall i | 0 <= i < m ensures a[i] == b[i] {
      assert a[i].x == b[i].x;
    }
  }

  // ---- An order that matters ----------------------------------------------------------------------

  /** The column at height 1 above the point (p, q) of the plane of the first two axes. */
  ghost function Leaning(m: nat, p: real, q: real): (x: Vec)
    ensures |x| == m
  {
    seq(m, i => if i == 0 then p else if i == 1 then q else if i == 2 then 1.0 else 0.0)
  }

  /** The first n axes, but for the third, which leans. */
  ghost function LeaningColumns(m: nat, n: nat, p: real, q: real): (cols: seq<Vec>)
    ensures |cols| == n && Rectangular(cols, m)
  {
    seq(n, j requires 0 <= j < n => if j == 2 then Leaning(m, p, q) else Axis(m, j))
  }

  /** The leaning column before the second axis. */
  function ThirdBeforeSecond(n: nat): (order: seq<nat>)
    requires n >= 3
    ensures |order| == n
  {
    seq(n, j requires 0 <= j < n => if j == 1 then 2 else if j == 2 then 1 else j)
  }

  lemma ThirdBeforeSecondIsOrder(n: nat)
    requires n >= 3
    ensures IsOrder(ThirdBeforeSecond(n), n)
  {
    var order := ThirdBeforeSecond(n);
    forall i: nat | i < n ensures i in order {
      assert order[order[i]] == i;
    }
  }

  lemma {:induction false} DotStops(x: Vec, n: nat, k: nat)
    requires k <= n <= |x| && forall i :: k <= i < n ==> x[i] == 0.0
    ensures Dot(x, x, n) == Dot(x, x, k)
    decreases n
  {
    if k < n {
      DotStops(x, n - 1, k);
    }
  }

  lemma DotOfThree(x: Vec)
    requires |x| >= 3
    ensures Dot(x, x, 2) == x[0] * x[0] + x[1] * x[1]
    ensures Dot(x, x, 3) == x[0] * x[0] + x[1] * x[1] + x[2] * x[2]
  {
    assert Dot(x, x, 0) == 0.0;
    assert Dot(x, x, 1) == x[0] * x[0];
  }

  lemma {:induction false} TwoWithin(x: Vec, n: nat, i: nat, j: nat)
    requires i < j < n <= |x|
    ensures x[i] * x[i] + x[j] * x[j] <= Dot(x, x, n)
  {
    if n - 1 == j {
      ComponentWithin(x, n - 1, i, x[i], x[i] * x[i]);
    } else {
      TwoWithin(x, n - 1, i, j);
      SquareNonnegative(x[n - 1]);
    }
  }

  lemma LengthOfAxis(m: nat, z: nat)
    requires z < m
    ensures Dot(Axis(m, z), Axis(m, z), m) == 1.0
  {
    OneComponent(Axis(m, z), m, z, 1.0);
  }

  lemma LengthOfLeaning(m: nat, p: real, q: real)
    requires m >= 3
    ensures Dot(Leaning(m, p, q), Leaning(m, p, q), m) == p * p + q * q + 1.0
  {
    var x := Leaning(m, p, q);
    DotStops(x, m, 3);
    DotOfThree(x);
    assert x[0] == p && x[1] == q && x[2] == 1.0;
  }

  /** The difference whose squared length is the gap. */
  lemma GapVector(cols: seq<Vec>, m: nat, k: nat, c: Vec) returns (v: Vec)
    requires Rectangular(cols, m) && k < |cols| && |c| == k
    ensures |v| == m && forall i :: 0 <= i < m ==> v[i] == Combine(cols, m, c, k)[i] - cols[k][i]
    ensures Gap(cols, m, k, c) == Dot(v, v, m)
  {
    v := Combine(cols, m, MinusLast(c), k + 1);
    forall i | 0 <= i < m ensures v[i] == Combine(cols, m, c, k)[i] - cols[k][i] {
      DifferenceAt(cols, m, k, c, i);
    }
  }

  lemma LeaningGap(cols: seq<Vec>, m: nat, p: real, q: real, c: Vec)
    requires |cols| >= 3 && m >= 3 && Rectangular(cols, m) && c == [p, q]
    requires cols[0] == Axis(m, 0) && cols[1] == Axis(m, 1) && cols[2] == Leaning(m, p, q)
    ensures Gap(cols, m, 2, c) == 1.0
  {
    hide Gap, Dot, Combine;
    var v := GapVector(cols, m, 2, c);
    forall i | 0 <= i < m ensures v[i] == if i == 2 then -1.0 else 0.0 {
      CombineTwo(cols, m, c, i);
    }
    OneComponent(v, m, 2, 1.0);
  }

  /** Listed after the second axis, the leaning column is at distance 1 from the plane of the axes. */
  lemma LeaningIsNear(m: nat, n: nat, p: real, q: real, sqrt: real -> real, t: real, tt: real, square: real)
    requires 3 <= n <= m && IsSqrt(sqrt) && t >= 0.0 && tt == t * t
    requires square == p * p + q * q + 1.0 && 1.0 <= tt * square
    ensures var rows := FromColumns(m, LeaningColumns(m, n, p, q));
      Wide(rows, n) && Scaled(rows, n, sqrt, 2) <= t
  {
    hide *;
    var cols, c := LeaningColumns(m, n, p, q), [p, q];
    FirstColumns(m, n, p, q);
    ColumnOf(m, cols, 0);
    ColumnOf(m, cols, 1);
    ColumnOf(m, cols, 2);
    LeaningGap(Design(FromColumns(m, cols), n), m, p, q, c);
    LengthOfLeaning(m, p, q);
    NearScoresLow(FromColumns(m, cols), n, sqrt, 2, c, t, tt, square);
  }

  lemma FirstColumns(m: nat, n: nat, p: real, q: real)
    requires 3 <= n
    ensures
      var cols := LeaningColumns(m, n, p, q);
      cols[0] == Axis(m, 0) && cols[1] == Axis(m, 1) && cols[2] == Leaning(m, p, q)
  {
  }

  /** The reordered columns: the first axis, the leaning one, and the other axes. */
  ghost predicate LeansEarly(cols: seq<Vec>, m: nat, n: nat, p: real, q: real) {
    && 3 <= n <= m && |cols| >= n && Rectangular(cols, m)
    && cols[0] == Axis(m, 0) && cols[1] == Leaning(m, p, q) && cols[2] == Axis(m, 1)
    && forall j :: 3 <= j < n ==> cols[j] == Axis(m, j)
  }

  lemma FirstIsFar(cols: seq<Vec>, m: nat, c: Vec)
    requires |cols| >= 1 && m >= 1 && Rectangular(cols, m) && cols[0] == Axis(m, 0) && |c| == 0
    ensures Gap(cols, m, 0, c) >= 1.0
  {
    hide Gap;
    var v := GapVector(cols, m, 0, c);
    ComponentWithin(v, m, 0, -1.0, 1.0);
  }

  lemma SecondIsFar(cols: seq<Vec>, m: nat, p: real, q: real, c: Vec)
    requires |cols| >= 2 && m >= 3 && Rectangular(cols, m) && cols[0] == Axis(m, 0)
    requires cols[1] == Leaning(m, p, q) && |c| == 1
    ensures Gap(cols, m, 1, c) >= q * q + 1.0
  {
    hide Gap, Dot, Combine;
    var v := GapVector(cols, m, 1, c);
    CombineOne(cols, m, c, 1);
    CombineOne(cols, m, c, 2);
    assert v[1] == -q && v[2] == -1.0;
    TwoWithin(v, m, 1, 2);
    Negated(q, v[1], q * q);
  }

  lemma ThirdIsFar(cols: seq<Vec>, m: nat, p: real, q: real, t: real, c: Vec)
    requires |cols| >= 3 && m >= 3 && Rectangular(cols, m) && cols[0] == Axis(m, 0)
    requires cols[1] == Leaning(m, p, q) && cols[2] == Axis(m, 1) && |c| == 2
    requires t >= 0.0 && t * (q * q + 1.0) == 1.0
    ensures Gap(cols, m, 2, c) >= t
  {
    hide Gap, Dot, Combine;
    var v := GapVector(cols, m, 2, c);
    CombineTwo(cols, m, c, 1);
    CombineTwo(cols, m, c, 2);
    var r := c[1];
    assert v[1] == r * q - 1.0 && v[2] == r;
    TwoWithin(v, m, 1, 2);
    ThirdArithmetic(r, q, t, v[1]);
  }

  lemma {:induction false} ZeroRow(cols: seq<Vec>, m: nat, c: Vec, k: nat, i: nat)
    requires Rectangular(cols, m) && k <= |cols| && k <= |c| && i < m
    requires forall j :: 0 <= j < k ==> cols[j][i] == 0.0
    ensures Combine(cols, m, c, k)[i] == 0.0
  {
    if k > 0 {
      ZeroRow(cols, m, c, k - 1, i);
    }
  }

  lemma LaterIsFar(cols: seq<Vec>, m: nat, n: nat, p: real, q: real, k: nat, c: Vec)
    requires LeansEarly(cols, m, n, p, q) && 3 <= k < n && |c| == k
    ensures Gap(cols, m, k, c) >= 1.0
  {
    hide Gap, Dot, Combine;
    var v := GapVector(cols, m, k, c);
    ZeroRow(cols, m, c, k, k);
    assert v[k] == -1.0;
    ComponentWithin(v, m, k, -1.0, 1.0);
  }

  /** Listed before the second axis, it and every axis are far from what precedes them. */
  lemma {:induction false} LeaningIsFar(rows: seq<Observation>, m: nat, n: nat, p: real, q: real,
                                        sqrt: real -> real, t: real, tt: real, square: real, k: nat)
    requires Wide(rows, n) && |rows| == m && LeansEarly(Design(rows, n), m, n, p, q) && k < n
    requires IsSqrt(sqrt) && 0.0 < t && tt == t * t && tt < t < 1.0 && t * (q * q + 1.0) == 1.0
    requires square == p * p + q * q + 1.0 && tt * square < q * q + 1.0
    ensures forall j :: 0 <= j <= k ==> Scaled(rows, n, sqrt, j) > t
    decreases k
  {
    hide Scaled, Dot, Combine, Design, Gap;
    if k > 0 {
      LeaningIsFar(rows, m, n, p, q, sqrt, t, tt, square, k - 1);
    }
    var x := Design(rows, n);
    DesignAt(rows, n, k);
    var length := if k == 1 then square else 1.0;
    forall c: Vec | |c| == k ensures Gap(x, m, k, c) > tt * length {
      if k == 0 {
        FirstIsFar(x, m, c);
      } else if k == 1 {
        SecondIsFar(x, m, p, q, c);
      } else if k == 2 {
        ThirdIsFar(x, m, p, q, t, c);
      } else {
        LaterIsFar(x, m, n, p, q, k, c);
      }
    }
    if k == 1 {
      LengthOfLeaning(m, p, q);
      SquareNonnegative(p);
      SquareNonnegative(q);
    } else {
      LengthOfAxis(m, if k == 2 then 1 else k);
    }
    FarScoresHigh(rows, n, sqrt, k, t, tt, length);
  }

  /** The least of a quadratic in s. */
  lemma ThirdArithmetic(s: real, q: real, t: real, a: real)
    requires a == s * q - 1.0 && t >= 0.0 && t * (q * q + 1.0) == 1.0
    ensures a * a + s * s >= t
  {
    var big := q * q + 1.0;
    var y := big * s - q;
    SquareNonnegative(y);
    NonnegativeProduct(t, y * y);
    ThirdExpands(s, q, big, t, y);
    assert a * a == s * s * (q * q) - 2.0 * (s * q) + 1.0;
  }

  lemma ThirdExpands(s: real, q: real, big: real, t: real, y: real)
    requires y == big * s - q && t * big == 1.0 && big == q * q + 1.0
    ensures t * (y * y) == s * s * (q * q) + s * s - 2.0 * (s * q) + 1.0 - t
  {
    var bs := big * s;
    assert y * y == bs * bs - 2.0 * (bs * q) + q * q;
    assert t * (bs * bs) == (t * big) * (s * bs) == s * bs;
    assert s * bs == s * s * (q * q) + s * s;
    assert t * (bs * q) == (t * big) * (s * q) == s * q;
    assert t * (q * q) == t * big - t;
    assert t * (y * y) == t * (bs * bs) - 2.0 * (t * (bs * q)) + t * (q * q);
  }

  /**
   At any tolerance between 0 and 1, however small, some design of any three or more columns is singular
   in one order of its columns and has full rank in another.
   */
  lemma OrderMatters(sqrt: real -> real, m: nat, n: nat, t: real)
    returns (rows: seq<Observation>, order: seq<nat>)
    requires IsSqrt(sqrt) && 3 <= n <= m && 0.0 < t < 1.0
    ensures |rows| == m && Wide(rows, n) && IsOrder(order, n)
    ensures ScoresAtMost(rows, n, sqrt, t) && !ScoresAtMost(Reordered(rows, order), n, sqrt, t)
  {
    hide Scaled, FromColumns, Reordered, LeaningColumns, Design;
    var tt, inverse, square := LeaningSizes(t);
    SqrtFacts(sqrt, inverse - 1.0);
    SqrtFacts(sqrt, square - inverse);
    var p, q := sqrt(square - inverse), sqrt(inverse - 1.0);
    order := ThirdBeforeSecond(n);
    ThirdBeforeSecondIsOrder(n);
    var cols := LeaningColumns(m, n, p, q);
    rows := FromColumns(m, cols);
    ReorderedColumns(m, cols, order);
    LeaningIsNear(m, n, p, q, sqrt, t, tt, square);
    ListedLeansEarly(m, n, p, q);
    LeaningIsFar(Reordered(rows, order), m, n, p, q, sqrt, t, tt, square, n - 1);
  }

  lemma ListedLeansEarly(m: nat, n: nat, p: real, q: real)
    requires 3 <= n <= m
    ensures
      var cols := Listed(LeaningColumns(m, n, p, q), ThirdBeforeSecond(n));
      && Rectangular(cols, m) && Wide(FromColumns(m, cols), n)
      && LeansEarly(Design(FromColumns(m, cols), n), m, n, p, q)
  {
    var cols := Listed(LeaningColumns(m, n, p, q), ThirdBeforeSecond(n));
    forall j | 0 <= j < n ensures Design(FromColumns(m, cols), n)[j] == cols[j] {
      ColumnOf(m, cols, j);
    }
  }

  /** 1/t and its square. */
  lemma LeaningSizes(t: real) returns (tt: real, inverse: real, square: real)
    requires 0.0 < t < 1.0
    ensures tt == t * t && tt < t && t * inverse == 1.0 && tt * square == 1.0
    ensures 1.0 <= inverse <= square && 1.0 < inverse
  {
    tt, inverse := t * t, 1.0 / t;
    assert inverse * t == 1.0;
    QuotientNonnegative(1.0, t);
    NonnegativeProduct(inverse, 1.0 - t);
    square := inverse * inverse;
    FourProduct(t, inverse, t, inverse, tt, square);
    NonnegativeProduct(inverse, inverse - 1.0);
    ProductPositive(t, 1.0 - t, t * (1.0 - t));
    assert inverse != 1.0;
  }

  // ---- Two columns --------------------------------------------------------------------------------

  lemma {:induction false} OneProduct(x: Vec, y: Vec, n: nat, k: nat, xy: real)
    requires k < |x| && k < |y| && n <= |x| && n <= |y| && xy == x[k] * y[k]
    requires forall i :: 0 <= i < n && i != k ==> x[i] == 0.0
    ensures Dot(x, y, n) == if k < n then xy else 0.0
  {
    if n > 0 {
      OneProduct(x, y, n - 1, k, xy);
    }
  }

  /** The inner products of two columns, by their triangle. */
  lemma TriangleOfTwo(rows: seq<Observation>, sqrt: real -> real) returns (d0: real, r: real, d1: real)
    requires Wide(rows, 2) && 2 <= |rows| && IsSqrt(sqrt)
    ensures d0 == Triangle(rows, 2, sqrt)[0][0] && d1 == Triangle(rows, 2, sqrt)[1][1]
    ensures
      var a, b, m := Column(rows, 2, 0), Column(rows, 2, 1), |rows|;
      Dot(a, a, m) == d0 * d0 && Dot(a, b, m) == d0 * r && Dot(b, b, m) == r * r + d1 * d1
  {
    hide Dot, Triangle;
    var tri, m := Triangle(rows, 2, sqrt), |rows|;
    TriangleFacts(rows, 2, sqrt);
    DesignAt(rows, 2, 0);
    DesignAt(rows, 2, 1);
    d0, r, d1 := tri[0][0], tri[1][0], tri[1][1];
    OneProduct(tri[0], tri[0], m, 0, d0 * d0);
    OneProduct(tri[0], tri[1], m, 0, d0 * r);
    DotStops(tri[1], m, 2);
    DotOfTwo(tri[1]);
  }

  lemma DotOfTwo(x: Vec)
    requires |x| >= 2
    ensures Dot(x, x, 2) == x[0] * x[0] + x[1] * x[1]
  {
    assert Dot(x, x, 0) == 0.0;
    assert Dot(x, x, 1) == x[0] * x[0];
  }

  /** The first score tells only whether its column is zero; the second is decided by the inner products. */
  lemma ScoresOfTwo(rows: seq<Observation>, sqrt: real -> real, aa: real, ab: real, bb: real)
    requires Wide(rows, 2) && 2 <= |rows| && IsSqrt(sqrt)
    requires
      var a, b, m := Column(rows, 2, 0), Column(rows, 2, 1), |rows|;
      aa == Dot(a, a, m) && ab == Dot(a, b, m) && bb == Dot(b, b, m)
    ensures aa >= 0.0 && bb >= 0.0
    ensures Scaled(rows, 2, sqrt, 0) == if aa == 0.0 then 0.0 else 1.0
    ensures bb == 0.0 ==> Scaled(rows, 2, sqrt, 1) == 0.0
    ensures bb != 0.0 ==>
      var u := Scaled(rows, 2, sqrt, 1);
      u >= 0.0 && (u * u) * (aa * bb) == aa * bb - ab * ab
  {
    hide *;
    var d0, r, d1 := TriangleOfTwo(rows, sqrt);
    DotOfSelf(Column(rows, 2, 0), |rows|);
    DotOfSelf(Column(rows, 2, 1), |rows|);
    var normA, e0 := ScoreIs(rows, 2, sqrt, 0, aa);
    var normB, e1 := ScoreIs(rows, 2, sqrt, 1, bb);
    MagnitudeSquare(d0, aa);
    OneRoot(Magnitude(d0), normA, aa);
    RootIsZero(normA, aa);
    RootIsZero(normB, bb);
    if aa != 0.0 {
      UnitRatio(Magnitude(d0), normA);
    }
    if bb != 0.0 {
      SecondSquare(d0, r, d1, normB, aa, ab, bb, Scaled(rows, 2, sqrt, 1));
    }
  }

  lemma RootIsZero(norm: real, square: real)
    requires norm * norm == square
    ensures norm == 0.0 <==> square == 0.0
  {
    SquareNonnegative(norm);
  }

  lemma SecondSquare(d0: real, r: real, d1: real, norm: real, aa: real, ab: real, bb: real, u: real)
    requires aa == d0 * d0 && ab == d0 * r && bb == r * r + d1 * d1
    requires norm > 0.0 && norm * norm == bb && u == Magnitude(d1) / norm
    ensures u >= 0.0 && (u * u) * (aa * bb) == aa * bb - ab * ab
  {
    assert u * norm == Magnitude(d1);
    MagnitudeSquare(d1, d1 * d1);
    QuotientNonnegative(Magnitude(d1), norm);
    FourProduct(u, norm, u, norm, u * u, bb);
    assert (u * u) * bb == d1 * d1;
    assert (u * u) * (aa * bb) == aa * ((u * u) * bb);
    FourProduct(d0, r, d0, r, aa, r * r);
    Distributes(aa, r * r, d1 * d1);
  }

  /** Swapping two columns changes no verdict below 1. */
  lemma TwoColumnsSwap(rows: seq<Observation>, sqrt: real -> real, t: real)
    requires Wide(rows, 2) && 2 <= |rows| && IsSqrt(sqrt) && 0.0 < t < 1.0
    ensures Wide(Reordered(rows, [1, 0]), 2)
    ensures ScoresAtMost(Reordered(rows, [1, 0]), 2, sqrt, t) <==> ScoresAtMost(rows, 2, sqrt, t)
  {
    hide Scaled, Dot;
    var m, swapped := |rows|, Reordered(rows, [1, 0]);
    var a, b := Column(rows, 2, 0), Column(rows, 2, 1);
    assert Column(swapped, 2, 0) == b && Column(swapped, 2, 1) == a;
    DotSymmetric(a, b, m);
    var aa, ab, bb := Dot(a, a, m), Dot(a, b, m), Dot(b, b, m);
    ScoresOfTwo(rows, sqrt, aa, ab, bb);
    ScoresOfTwo(swapped, sqrt, bb, ab, aa);
    TwoVerdicts(rows, sqrt, t);
    TwoVerdicts(swapped, sqrt, t);
    if aa != 0.0 && bb != 0.0 {
      NonzeroProduct(aa, bb);
      SameSquare(Scaled(rows, 2, sqrt, 1), Scaled(swapped, 2, sqrt, 1), aa * bb, bb * aa, aa * bb - ab * ab);
    }
  }

  lemma TwoVerdicts(rows: seq<Observation>, sqrt: real -> real, t: real)
    requires Wide(rows, 2) && 2 <= |rows|
    ensures ScoresAtMost(rows, 2, sqrt, t) <==> Scaled(rows, 2, sqrt, 0) <= t || Scaled(rows, 2, sqrt, 1) <= t
  {
    hide Scaled;
  }

  lemma SameSquare(u: real, w: real, f: real, g: real, all: real)
    requires u >= 0.0 && w >= 0.0 && f == g && f != 0.0 && (u * u) * f == all && (w * w) * g == all
    ensures u == w
  {
    CancelFactor(u * u, w * w, f);
    OneRoot(u, w, u * u);
  }

  // ---- Exactly when the order matters ---------------------------------------------------------------

  /** The verdict on a design does not depend on the order of its columns. */
  ghost predicate OrderFree(rows: seq<Observation>, n: nat, order: seq<nat>, sqrt: real -> real, t: real)
    requires Wide(rows, n) && n <= |rows| && IsOrder(order, n) && Wide(Reordered(rows, order), n)
  {
    ScoresAtMost(Reordered(rows, order), n, sqrt, t) <==> ScoresAtMost(rows, n, sqrt, t)
  }

  ghost predicate Reorderable(rows: seq<Observation>, m: nat, n: nat, order: seq<nat>) {
    |rows| == m && Wide(rows, n) && n <= m && IsOrder(order, n) && Wide(Reordered(rows, order), n)
  }

  lemma OwnOrder(rows: seq<Observation>, n: nat, order: seq<nat>)
    requires Wide(rows, n) && IsOrder(order, n) && forall j :: 0 <= j < n ==> order[j] == j
    ensures Reordered(rows, order) == rows
  {
    var same := Reordered(rows, order);
    forall i | 0 <= i < |rows| ensures same[i] == rows[i] {
      assert same[i].x == rows[i].x;
    }
  }

  lemma FewColumnsAreOrderFree(rows: seq<Observation>, m: nat, n: nat, order: seq<nat>, sqrt: real -> real, t: real)
    requires Reorderable(rows, m, n, order) && n <= 2 && IsSqrt(sqrt) && 0.0 < t < 1.0
    ensures OrderFree(rows, n, order, sqrt, t)
  {
    hide Scaled, Reordered;
    if n == 2 && order[0] == 1 {
      assert order == [1, 0];
      TwoColumnsSwap(rows, sqrt, t);
    } else {
      OwnOrder(rows, n, order);
    }
  }

  /**
   For designs of n columns and m observations no verdict depends on the order of the columns exactly when
   there are at most two columns, or at tolerance zero, or where everything is singular.
   */
  lemma OrderMattersExactly(sqrt: real -> real, m: nat, n: nat, t: real)
    requires IsSqrt(sqrt) && t >= 0.0 && n <= m
    ensures
      n <= 2 || t == 0.0 || t >= 1.0 <==>
      forall rows, order :: Reorderable(rows, m, n, order) ==> OrderFree(rows, n, order, sqrt, t)
  {
    hide Reordered, Scaled;
    if 0.0 < t < 1.0 && n >= 3 {
      var rows, order := OrderMatters(sqrt, m, n, t);
      assert Reorderable(rows, m, n, order) && !OrderFree(rows, n, order, sqrt, t);
    } else {
      forall rows, order | Reorderable(rows, m, n, order) ensures OrderFree(rows, n, order, sqrt, t) {
        if t == 0.0 {
          OrderDoesNotMatterAtZero(rows, order, n, sqrt);
        } else if t < 1.0 {
          FewColumnsAreOrderFree(rows, m, n, order, sqrt, t);
        } else if n > 0 {
          ScaledRange(rows, n, sqrt, 0);
          ScaledRange(Reordered(rows, order), n, sqrt, 0);
        }
      }
    }
  }
}
