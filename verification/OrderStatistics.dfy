/**
 Quantiles and bootstraps over exact reals: what a quantile of a sample is, and between which
 values every resampled statistic must lie.
 */
module OrderStatistics {

  predicate Ascends(s: seq<real>) {
    forall i, j :: 0 <= i <= j < |s| ==> s[i] <= s[j]
  }

  function Insert(x: real, sorted: seq<real>): (r: seq<real>)
    ensures |r| == |sorted| + 1
  {
    if sorted == [] || x <= sorted[0] then [x] + sorted else [sorted[0]] + Insert(x, sorted[1..])
  }

  lemma {:induction false} InsertSorts(x: real, sorted: seq<real>)
    requires Ascends(sorted)
    ensures Ascends(Insert(x, sorted)) && multiset(Insert(x, sorted)) == multiset(sorted) + multiset{x}
    decreases |sorted|
  {
    if sorted != [] && x > sorted[0] {
      var rest := Insert(x, sorted[1..]);
      InsertSorts(x, sorted[1..]);
      assert sorted == [sorted[0]] + sorted[1..];
      forall y | y in rest ensures sorted[0] <= y {
        assert y in multiset(rest);
        assert y == x || y in sorted[1..];
      }
      LeastInFront(sorted[0], rest);
    } else if sorted != [] {
      LeastInFront(x, sorted);
    }
  }

  lemma LeastInFront(x: real, rest: seq<real>)
    requires Ascends(rest) && forall y :: y in rest ==> x <= y
    ensures Ascends([x] + rest)
  {
    var r := [x] + rest;
    forall i, j | 0 <= i <= j < |r| ensures r[i] <= r[j] {
      assert j > 0 ==> r[j] == rest[j - 1] && r[j] in rest;
      assert i > 0 ==> r[i] == rest[i - 1];
    }
  }

  function Sorted(values: seq<real>): (r: seq<real>)
    ensures Ascends(r) && |r| == |values| && multiset(r) == multiset(values)
  {
    if values == [] then []
    else
      assert values == [values[0]] + values[1..];
      InsertSorts(values[0], Sorted(values[1..]));
      Insert(values[0], Sorted(values[1..]))
  }

  function Ceiling(x: real): int {
    -((-x).Floor)
  }

  function AtMost(values: seq<real>, x: real): nat {
    if values == [] then 0 else (if values[0] <= x then 1 else 0) + AtMost(values[1..], x)
  }

  function AtLeast(values: seq<real>, x: real): nat {
    if values == [] then 0 else (if values[0] >= x then 1 else 0) + AtLeast(values[1..], x)
  }

  // ---- Counting does not depend on order -------------------------------------------------------------

  lemma {:induction false} CountsInsert(x: real, sorted: seq<real>, y: real)
    ensures AtMost(Insert(x, sorted), y) == AtMost(sorted, y) + (if x <= y then 1 else 0)
    ensures AtLeast(Insert(x, sorted), y) == AtLeast(sorted, y) + (if x >= y then 1 else 0)
    decreases |sorted|
  {
    var r := Insert(x, sorted);
    if sorted == [] || x <= sorted[0] {
      assert r[1..] == sorted;
    } else {
      assert r[1..] == Insert(x, sorted[1..]);
      CountsInsert(x, sorted[1..], y);
    }
  }

  lemma {:induction false} CountsSorted(values: seq<real>, y: real)
    ensures AtMost(Sorted(values), y) == AtMost(values, y) && AtLeast(Sorted(values), y) == AtLeast(values, y)
    decreases |values|
  {
    if values != [] {
      CountsSorted(values[1..], y);
      CountsInsert(values[0], Sorted(values[1..]), y);
    }
  }

  /** In a sorted sequence the first k values are at most the k-th, and the rest at least it. */
  lemma {:induction false} CountsAtRank(sorted: seq<real>, rank: nat, y: real)
    requires Ascends(sorted) && rank <= |sorted|
    ensures rank > 0 && sorted[rank - 1] <= y ==> AtMost(sorted, y) >= rank
    ensures rank < |sorted| && y < sorted[rank] ==> AtMost(sorted, y) <= rank
    ensures rank > 0 && y <= sorted[rank - 1] ==> AtLeast(sorted, y) >= |sorted| - rank + 1
    decreases |sorted|
  {
    if sorted != [] {
      var rest := sorted[1..];
      assert forall i :: 0 <= i < |rest| ==> rest[i] == sorted[i + 1];
      CountsAtRank(rest, if rank > 0 then rank - 1 else 0, y);
      if rank <= 1 {
        AllAtLeast(rest, y);
      }
      if rank == 0 && y < sorted[0] {
        NoneAtMost(rest, y);
      }
    }
  }

  lemma {:induction false} AllAtLeast(sorted: seq<real>, y: real)
    ensures (forall i :: 0 <= i < |sorted| ==> y <= sorted[i]) ==> AtLeast(sorted, y) == |sorted|
    decreases |sorted|
  {
    if sorted != [] {
      AllAtLeast(sorted[1..], y);
      assert (forall i :: 0 <= i < |sorted| ==> y <= sorted[i]) ==>
        forall i :: 0 <= i < |sorted[1..]| ==> y <= sorted[1..][i];
    }
  }

  lemma {:induction false} NoneAtMost(sorted: seq<real>, y: real)
    requires forall i :: 0 <= i < |sorted| ==> y < sorted[i]
    ensures AtMost(sorted, y) == 0
    decreases |sorted|
  {
    if sorted != [] {
      NoneAtMost(sorted[1..], y);
    }
  }

  // ---- The nearest-rank quantile ------------------------------------------------------------------------

  function Share(q: real, n: int): real {
    q * n as real
  }

  function Rank(n: nat, q: real): int {
    var r := Ceiling(Share(q, n));
    if n < (if 1 < r then r else 1) then n else if 1 < r then r else 1
  }

  function NearestRank(values: seq<real>, q: real): real
    requires values != [] && 0.0 <= q <= 1.0
  {
    RankIsIndex(|values|, q);
    Sorted(values)[Rank(|values|, q) - 1]
  }

  lemma Shrinks(q: real, n: int)
    requires 0.0 <= q <= 1.0 && n >= 0
    ensures 0.0 <= Share(q, n) <= n as real
  {
    Steeper(q, 1.0, n as real);
    Steeper(0.0, q, n as real);
  }

  lemma Steeper(t: real, u: real, d: real)
    requires t <= u && d >= 0.0
    ensures t * d <= u * d
  {
  }

  lemma RankIsIndex(n: nat, q: real)
    requires n > 0 && 0.0 <= q <= 1.0
    ensures 1 <= Rank(n, q) <= n
    ensures Share(q, n) <= Rank(n, q) as real
    ensures Rank(n, q) > 1 ==> (Rank(n, q) - 1) as real < Share(q, n)
  {
  }

  /**
   The nearest-rank quantile is the least sample value that at least a share q of the sample does
   not exceed.
   */
  lemma NearestRankIsLeast(values: seq<real>, q: real)
    requires values != [] && 0.0 <= q <= 1.0
    ensures
      var r := NearestRank(values, q);
      && r in values
      && AtMost(values, r) as real >= Share(q, |values|)
      && (forall v :: v in values && v < r ==> AtMost(values, v) as real < Share(q, |values|))
      && AtMost(values, r) >= Rank(|values|, q)
      && AtLeast(values, r) >= |values| - Rank(|values|, q) + 1
  {
    hide Share, Rank, Insert, AtMost, AtLeast, Ascends;
    var sorted := Sorted(values);
    var rank := Rank(|values|, q);
    RankIsIndex(|values|, q);
    var r := sorted[rank - 1];
    assert r in multiset(sorted);
    CountsAtRank(sorted, rank, r);
    CountsSorted(values, r);
    forall v | v in values && v < r ensures AtMost(values, v) as real < Share(q, |values|) {
      assert v in multiset(sorted);
      LeastIsFirst(sorted, v);
      assert rank > 1;
      CountsAtRank(sorted, rank - 1, v);
      CountsSorted(values, v);
    }
  }

  lemma LeastIsFirst(sorted: seq<real>, v: real)
    requires Ascends(sorted) && v in sorted
    ensures sorted[0] <= v <= sorted[|sorted| - 1]
  {
  }

  // ---- The R-7 quantile -----------------------------------------------------------------------------------

  function Mix(x: real, y: real, t: real): real {
    x + t * (y - x)
  }

  lemma MixBetween(x: real, y: real, t: real)
    requires x <= y && 0.0 <= t <= 1.0
    ensures x <= Mix(x, y, t) <= y
  {
    var d := y - x;
    Steeper(t, 1.0, d);
    Steeper(0.0, t, d);
  }

  lemma MixMonotone(x: real, y: real, t: real, u: real)
    requires x <= y && t <= u
    ensures Mix(x, y, t) <= Mix(x, y, u)
  {
  }

  lemma MixEnds(x: real, y: real, t: real)
    ensures Mix(x, y, 0.0) == x && Mix(x, x, t) == x
  {
  }

  /** Linear interpolation at a fractional position of a sorted sequence. */
  function Interpolated(sorted: seq<real>, h: real): real
    requires sorted != [] && 0.0 <= h <= (|sorted| - 1) as real
  {
    Mix(sorted[h.Floor], sorted[Ceiling(h)], h - h.Floor as real)
  }

  function QuantileR7(values: seq<real>, q: real): real
    requires values != [] && 0.0 <= q <= 1.0
  {
    var sorted := Sorted(values);
    var n := |sorted|;
    if n == 1 then sorted[0]
    else
      Shrinks(q, n - 1);
      Interpolated(sorted, Share(q, n - 1))
  }

  /** The interpolated value lies between its neighbours. */
  lemma InterpolatesBetween(sorted: seq<real>, h: real)
    requires sorted != [] && Ascends(sorted) && 0.0 <= h <= (|sorted| - 1) as real
    ensures sorted[h.Floor] <= Interpolated(sorted, h) <= sorted[Ceiling(h)]
    ensures h.Floor <= Ceiling(h) <= h.Floor + 1
  {
    hide Mix;
    MixBetween(sorted[h.Floor], sorted[Ceiling(h)], h - h.Floor as real);
  }

  lemma InterpolationIsMonotone(sorted: seq<real>, h: real, k: real)
    requires sorted != [] && Ascends(sorted) && 0.0 <= h <= k <= (|sorted| - 1) as real
    ensures Interpolated(sorted, h) <= Interpolated(sorted, k)
  {
    hide Mix;
    InterpolatesBetween(sorted, h);
    InterpolatesBetween(sorted, k);
    var lo := h.Floor;
    if lo == k.Floor {
      if Ceiling(h) == Ceiling(k) {
        MixMonotone(sorted[lo], sorted[Ceiling(h)], h - lo as real, k - lo as real);
      } else {
        assert Ceiling(h) == lo;
        MixEnds(sorted[lo], sorted[lo], h - lo as real);
      }
    } else {
      assert sorted[Ceiling(h)] <= sorted[k.Floor];
    }
  }

  lemma ShareIsMonotone(q: real, r: real, n: int)
    requires q <= r && n >= 0
    ensures Share(q, n) <= Share(r, n)
  {
  }

  lemma ShareEnds(n: int)
    ensures Share(0.0, n) == 0.0 && Share(1.0, n) == n as real
  {
  }

  lemma InterpolatesWithin(sorted: seq<real>, h: real)
    requires sorted != [] && Ascends(sorted) && 0.0 <= h <= (|sorted| - 1) as real
    ensures sorted[0] <= Interpolated(sorted, h) <= sorted[|sorted| - 1]
  {
    hide Interpolated;
    InterpolatesBetween(sorted, h);
  }

  /** R-7 quantiles lie between the least and the greatest value. */
  lemma R7WithinRange(values: seq<real>, q: real)
    requires values != [] && 0.0 <= q <= 1.0
    ensures Sorted(values)[0] <= QuantileR7(values, q) <= Sorted(values)[|values| - 1]
  {
    hide Interpolated, Share, Ascends, Sorted;
    Shrinks(q, |values| - 1);
    if |values| > 1 {
      InterpolatesWithin(Sorted(values), Share(q, |values| - 1));
    }
  }

  /** They reach both at the ends of the unit interval. */
  lemma R7ReachesEnds(values: seq<real>)
    requires values != []
    ensures QuantileR7(values, 0.0) == Sorted(values)[0]
    ensures QuantileR7(values, 1.0) == Sorted(values)[|values| - 1]
  {
    hide Interpolated, Share;
    ShareEnds(|values| - 1);
    AtPosition(Sorted(values), 0);
    AtPosition(Sorted(values), |values| - 1);
  }

  lemma AtPosition(sorted: seq<real>, k: nat)
    requires k < |sorted|
    ensures Interpolated(sorted, k as real) == sorted[k]
  {
  }

  lemma R7IsMonotone(values: seq<real>, q: real, r: real)
    requires values != [] && 0.0 <= q <= r <= 1.0
    ensures QuantileR7(values, q) <= QuantileR7(values, r)
  {
    hide Interpolated, Share, Ascends;
    if |values| > 1 {
      var n := |values| - 1;
      Shrinks(q, n);
      Shrinks(r, n);
      ShareIsMonotone(q, r, n);
      InterpolationIsMonotone(Sorted(values), Share(q, n), Share(r, n));
    }
  }

  datatype Interval = Interval(lower: real, upper: real, confidence: real)

  function PercentileInterval(replicates: seq<real>, confidence: real): Interval
    requires replicates != [] && 0.0 < confidence < 1.0
  {
    var alpha := (1.0 - confidence) / 2.0;
    Interval(QuantileR7(replicates, alpha), QuantileR7(replicates, 1.0 - alpha), confidence)
  }

  predicate IsWithin(x: real, low: real, high: real) {
    low <= x <= high
  }

  predicate AllWithin(s: seq<real>, low: real, high: real) {
    forall x :: x in s ==> IsWithin(x, low, high)
  }

  /** Every percentile interval is ordered and inside the range of its replicates. */
  lemma IntervalIsOrdered(replicates: seq<real>, confidence: real, low: real, high: real)
    requires replicates != [] && 0.0 < confidence < 1.0 && AllWithin(replicates, low, high)
    ensures
      var interval := PercentileInterval(replicates, confidence);
      low <= interval.lower <= interval.upper <= high
  {
    hide QuantileR7;
    var alpha := (1.0 - confidence) / 2.0;
    R7IsMonotone(replicates, alpha, 1.0 - alpha);
    R7WithinRange(replicates, alpha);
    R7WithinRange(replicates, 1.0 - alpha);
    var sorted := Sorted(replicates);
    assert sorted[0] in multiset(sorted) && sorted[|sorted| - 1] in multiset(sorted);
    assert IsWithin(sorted[0], low, high) && IsWithin(sorted[|sorted| - 1], low, high);
  }
}

module Bootstrap {

  import opened OrderStatistics
  import opened UnicodeText

  /** The generator: draw number k, in [0, 1). */
  type Draws = nat -> real

  ghost predicate UnitDraws(draws: Draws) {
    forall k :: 0.0 <= draws(k) < 1.0
  }

  function Index(u: real, n: nat): (i: nat)
    requires n > 0 && 0.0 <= u < 1.0
    ensures i < n
  {
    Shrinks(u, n);
    StrictlyShrinks(u, n as real);
    Share(u, n).Floor
  }

  lemma StrictlyShrinks(u: real, n: real)
    requires u < 1.0 && n > 0.0
    ensures u * n < n
  {
  }

  /** The sample drawn when `from` draws have been consumed. */
  ghost function Drawn<T>(source: seq<T>, draws: Draws, from: nat, count: nat): (r: seq<T>)
    requires UnitDraws(draws) && (count > 0 ==> source != [])
    ensures |r| == count && forall x :: x in r ==> x in source
  {
    if count == 0 then []
    else
      Drawn(source, draws, from, count - 1) + [source[Index(draws(from + count - 1), |source|)]]
  }

  method DrawWithReplacement<T>(source: seq<T>, draws: Draws, from: nat) returns (drawn: seq<T>, next: nat)
    requires UnitDraws(draws)
    ensures drawn == Drawn(source, draws, from, |source|) && next == from + |source|
  {
    drawn := [];
    next := from;
    var n := |source|;
    for i := 0 to n
      invariant drawn == Drawn(source, draws, from, i) && next == from + i
    {
      drawn := drawn + [source[Index(draws(next), n)]];
      next := next + 1;
    }
  }

  datatype Statistic = MeanStatistic | NearestRankStatistic(q: real) | R7Statistic(q: real)

  predicate ValidStatistic(statistic: Statistic) {
    statistic.MeanStatistic? || 0.0 <= statistic.q <= 1.0
  }

  function Sum(s: seq<real>): real {
    if s == [] then 0.0 else s[0] + Sum(s[1..])
  }

  function Mean(s: seq<real>): real
    requires s != []
  {
    Sum(s) / |s| as real
  }

  function Apply(values: seq<real>, statistic: Statistic): real
    requires values != [] && ValidStatistic(statistic)
  {
    match statistic
    case MeanStatistic => Mean(values)
    case NearestRankStatistic(q) => NearestRank(values, q)
    case R7Statistic(q) => QuantileR7(values, q)
  }

  // ---- Sums and means --------------------------------------------------------------------------------------

  function Times(x: real, n: nat): real {
    x * n as real
  }

  lemma {:induction false} SumWithin(s: seq<real>, low: real, high: real)
    requires AllWithin(s, low, high)
    ensures Times(low, |s|) <= Sum(s) <= Times(high, |s|)
    decreases |s|
  {
    hide Times;
    NoTerms(low);
    NoTerms(high);
    if s != [] {
      SumWithin(s[1..], low, high);
      assert IsWithin(s[0], low, high);
      OneMoreTerm(low, |s| - 1);
      OneMoreTerm(high, |s| - 1);
    }
  }

  lemma OneMoreTerm(x: real, n: nat)
    ensures Times(x, n + 1) == Times(x, n) + x
  {
  }

  lemma NoTerms(x: real)
    ensures Times(x, 0) == 0.0
  {
  }

  lemma DivideMonotone(x: real, y: real, n: real)
    requires x <= y && n > 0.0
    ensures x / n <= y / n
  {
  }

  lemma DivideBounds(total: real, n: real, low: real, high: real)
    requires n > 0.0 && low * n <= total <= high * n
    ensures low <= total / n <= high
  {
  }

  lemma MeanWithin(values: seq<real>, low: real, high: real)
    requires values != [] && AllWithin(values, low, high)
    ensures low <= Mean(values) <= high
  {
    SumWithin(values, low, high);
    DivideBounds(Sum(values), |values| as real, low, high);
  }

  /** A statistic of a sample lies between the bounds of the sample. */
  lemma StatisticWithin(values: seq<real>, statistic: Statistic, low: real, high: real)
    requires values != [] && ValidStatistic(statistic) && AllWithin(values, low, high)
    ensures low <= Apply(values, statistic) <= high
  {
    hide QuantileR7, NearestRank, AtMost, AtLeast, Mean, Share;
    match statistic {
      case MeanStatistic => MeanWithin(values, low, high);
      case NearestRankStatistic(q) =>
        NearestRankIsLeast(values, q);
        assert IsWithin(NearestRank(values, q), low, high);
      case R7Statistic(q) =>
        R7WithinRange(values, q);
        var sorted := Sorted(values);
        assert sorted[0] in multiset(sorted) && sorted[|sorted| - 1] in multiset(sorted);
        assert IsWithin(sorted[0], low, high) && IsWithin(sorted[|sorted| - 1], low, high);
    }
  }

  // ---- The percentile bootstrap ------------------------------------------------------------------------------

  /** Replicate r is the statistic of the sample drawn by the r-th block of draws. */
  ghost function Replicate(values: seq<real>, statistic: Statistic, draws: Draws, r: nat): real
    requires values != [] && ValidStatistic(statistic) && UnitDraws(draws)
  {
    Apply(Drawn(values, draws, r * |values|, |values|), statistic)
  }

  method BootstrapReplicates(values: seq<real>, statistic: Statistic, draws: Draws, resamples: nat)
    returns (replicates: seq<real>)
    requires values != [] && ValidStatistic(statistic) && UnitDraws(draws)
    ensures |replicates| == resamples
    ensures forall r :: 0 <= r < resamples ==> replicates[r] == Replicate(values, statistic, draws, r)
  {
    replicates := [];
    var next := 0;
    for r := 0 to resamples
      invariant |replicates| == r && next == r * |values|
      invariant forall k :: 0 <= k < r ==> replicates[k] == Replicate(values, statistic, draws, k)
    {
      var drawn;
      drawn, next := DrawWithReplacement(values, draws, next);
      replicates := replicates + [Apply(drawn, statistic)];
      assert (r + 1) * |values| == r * |values| + |values|;
    }
  }

  /** Whatever is drawn, the whole interval lies inside the range of the sample. */
  lemma BootstrapStaysInRange(values: seq<real>, statistic: Statistic, draws: Draws, replicates: seq<real>,
                              confidence: real, low: real, high: real)
    requires values != [] && ValidStatistic(statistic) && UnitDraws(draws) && AllWithin(values, low, high)
    requires replicates != [] && 0.0 < confidence < 1.0
    requires forall r :: 0 <= r < |replicates| ==> replicates[r] == Replicate(values, statistic, draws, r)
    ensures
      var interval := PercentileInterval(replicates, confidence);
      low <= interval.lower <= interval.upper <= high
  {
    hide Apply, PercentileInterval;
    forall x | x in replicates ensures IsWithin(x, low, high) {
      var r :| 0 <= r < |replicates| && replicates[r] == x;
      StatisticWithin(Drawn(values, draws, r * |values|, |values|), statistic, low, high);
    }
    IntervalIsOrdered(replicates, confidence, low, high);
  }

  // ---- Strata ----------------------------------------------------------------------------------------------------

  datatype Pair = Pair(stratum: Text, baseline: real, candidate: real)

  datatype Result<T> = Ok(value: T) | BlankStratum(position: nat)

  /** The strata in order of first appearance. */
  function Order(pairs: seq<Pair>): (order: seq<Text>)
    ensures forall s :: s in order <==> exists i :: 0 <= i < |pairs| && pairs[i].stratum == s
  {
    if pairs == [] then []
    else
      var earlier := Order(pairs[..|pairs| - 1]);
      var last := pairs[|pairs| - 1].stratum;
      assert pairs == pairs[..|pairs| - 1] + [pairs[|pairs| - 1]];
      if last in earlier then earlier else earlier + [last]
  }

  /** A stratum's differences, in the order of the pairs. */
  function Differences(pairs: seq<Pair>, stratum: Text): seq<real> {
    if pairs == [] then []
    else
      var last := pairs[|pairs| - 1];
      Differences(pairs[..|pairs| - 1], stratum) +
      (if last.stratum == stratum then [last.candidate - last.baseline] else [])
  }

  ghost predicate GroupedAs(groups: seq<seq<real>>, order: seq<Text>, pairs: seq<Pair>) {
    |groups| == |order| && forall i :: 0 <= i < |order| ==> groups[i] == Differences(pairs, order[i])
  }

  predicate HasBlank(pairs: seq<Pair>, position: nat) {
    position < |pairs| && IsBlank(pairs[position].stratum)
  }

  lemma PairStep(pairs: seq<Pair>, k: nat)
    requires k < |pairs|
    ensures
      var p := pairs[k];
      && Order(pairs[..k + 1]) == (if p.stratum in Order(pairs[..k]) then Order(pairs[..k])
                                   else Order(pairs[..k]) + [p.stratum])
      && forall s :: Differences(pairs[..k + 1], s) ==
           Differences(pairs[..k], s) + (if p.stratum == s then [p.candidate - p.baseline] else [])
  {
    assert pairs[..k + 1][..k] == pairs[..k];
  }

  lemma NoPairs()
    ensures Order([]) == []
  {
  }

  method GroupStrata(pairs: seq<Pair>) returns (result: Result<seq<seq<real>>>)
    ensures result.BlankStratum? ==>
      HasBlank(pairs, result.position) && forall i :: 0 <= i < result.position ==> !HasBlank(pairs, i)
    ensures result.Ok? ==>
      (forall i :: 0 <= i < |pairs| ==> !HasBlank(pairs, i)) && GroupedAs(result.value, Order(pairs), pairs)
  {
    hide Order, Differences, IsBlank;
    NoPairs();
    var order: seq<Text> := [];
    var byStratum: map<Text, seq<real>> := map[];
    for k := 0 to |pairs|
      invariant forall i :: 0 <= i < k ==> !HasBlank(pairs, i)
      invariant order == Order(pairs[..k])
      invariant byStratum.Keys == set s | s in order
      invariant forall s :: s in byStratum ==> byStratum[s] == Differences(pairs[..k], s)
    {
      var p := pairs[k];
      if IsBlank(p.stratum) {
        return BlankStratum(k);
      }
      PairStep(pairs, k);
      var bucket := [];
      if p.stratum in byStratum {
        bucket := byStratum[p.stratum];
      } else {
        NoDifferences(pairs[..k], p.stratum);
        order := order + [p.stratum];
      }
      byStratum := byStratum[p.stratum := bucket + [p.candidate - p.baseline]];
    }
    assert pairs[..|pairs|] == pairs;
    return Ok(seq(|order|, i requires 0 <= i < |order| => byStratum[order[i]]));
  }

  lemma {:induction false} NoDifferences(pairs: seq<Pair>, stratum: Text)
    requires stratum !in Order(pairs)
    ensures Differences(pairs, stratum) == []
    decreases |pairs|
  {
    if pairs != [] {
      assert pairs == pairs[..|pairs| - 1] + [pairs[|pairs| - 1]];
      NoDifferences(pairs[..|pairs| - 1], stratum);
    }
  }

  function Flatten(groups: seq<seq<real>>): seq<real> {
    if groups == [] then [] else groups[0] + Flatten(groups[1..])
  }

  function Grouped(pairs: seq<Pair>, order: seq<Text>): seq<seq<real>> {
    seq(|order|, i requires 0 <= i < |order| => Differences(pairs, order[i]))
  }

  predicate DistinctStrata(order: seq<Text>) {
    forall i, j :: 0 <= i < j < |order| ==> order[i] != order[j]
  }

  lemma {:induction false} OrderIsDistinct(pairs: seq<Pair>)
    ensures DistinctStrata(Order(pairs))
    decreases |pairs|
  {
    if pairs != [] {
      OrderIsDistinct(pairs[..|pairs| - 1]);
    }
  }

  lemma LastDifference(pairs: seq<Pair>, p: Pair, stratum: Text)
    ensures Differences(pairs + [p], stratum) ==
      Differences(pairs, stratum) + (if p.stratum == stratum then [p.candidate - p.baseline] else [])
  {
  }

  lemma {:induction false} OneMorePair(pairs: seq<Pair>, p: Pair, order: seq<Text>)
    requires DistinctStrata(order)
    ensures multiset(Flatten(Grouped(pairs + [p], order))) ==
      multiset(Flatten(Grouped(pairs, order))) +
      (if p.stratum in order then multiset{p.candidate - p.baseline} else multiset{})
    decreases |order|
  {
    hide Differences;
    if order != [] {
      var before, after := Grouped(pairs, order), Grouped(pairs + [p], order);
      assert before[1..] == Grouped(pairs, order[1..]) && after[1..] == Grouped(pairs + [p], order[1..]);
      OneMorePair(pairs, p, order[1..]);
      LastDifference(pairs, p, order[0]);
      assert p.stratum in order <==> p.stratum == order[0] || p.stratum in order[1..];
    }
  }

  lemma {:induction false} FlattenAppends(groups: seq<seq<real>>, last: seq<real>)
    ensures Flatten(groups + [last]) == Flatten(groups) + last
    decreases |groups|
  {
    if groups == [] {
      assert groups + [last] == [last];
      assert [last][1..] == [];
    } else {
      assert (groups + [last])[1..] == groups[1..] + [last];
      FlattenAppends(groups[1..], last);
    }
  }

  function AllDifferences(pairs: seq<Pair>): seq<real> {
    if pairs == [] then []
    else
      var last := pairs[|pairs| - 1];
      AllDifferences(pairs[..|pairs| - 1]) + [last.candidate - last.baseline]
  }

  lemma NewStratum(earlier: seq<Pair>, stratum: Text)
    requires stratum !in Order(earlier)
    ensures Flatten(Grouped(earlier, Order(earlier) + [stratum])) == Flatten(Grouped(earlier, Order(earlier)))
  {
    hide Differences, Flatten, Order;
    var order := Order(earlier);
    NoDifferences(earlier, stratum);
    assert Grouped(earlier, order + [stratum]) == Grouped(earlier, order) + [Differences(earlier, stratum)];
    FlattenAppends(Grouped(earlier, order), []);
    assert Flatten(Grouped(earlier, order)) + [] == Flatten(Grouped(earlier, order));
  }

  /** Grouping loses and invents no difference. */
  lemma {:induction false} GroupingConserves(pairs: seq<Pair>)
    ensures multiset(Flatten(Grouped(pairs, Order(pairs)))) == multiset(AllDifferences(pairs))
    decreases |pairs|
  {
    hide Differences, Flatten, Grouped;
    if pairs == [] {
      NothingGrouped();
    } else {
      var earlier, last := pairs[..|pairs| - 1], pairs[|pairs| - 1];
      assert pairs == earlier + [last];
      GroupingConserves(earlier);
      OrderIsDistinct(pairs);
      OneMorePair(earlier, last, Order(pairs));
      if last.stratum !in Order(earlier) {
        NewStratum(earlier, last.stratum);
      }
      assert last.stratum in Order(pairs);
    }
  }

  lemma NothingGrouped()
    ensures Flatten(Grouped([], Order([]))) == []
  {
  }

  // ---- The stratified bootstrap ---------------------------------------------------------------------------------

  function Total(strata: seq<seq<real>>): nat {
    if strata == [] then 0 else |strata[0]| + Total(strata[1..])
  }

  /** One replicate's sample: each stratum resampled within itself, in order. */
  ghost function DrawnStrata(strata: seq<seq<real>>, draws: Draws, from: nat): (r: seq<seq<real>>)
    requires UnitDraws(draws)
    ensures |r| == |strata|
    ensures forall i :: 0 <= i < |r| ==> |r[i]| == |strata[i]| && forall x :: x in r[i] ==> x in strata[i]
  {
    if strata == [] then []
    else
      [Drawn(strata[0], draws, from, |strata[0]|)] + DrawnStrata(strata[1..], draws, from + |strata[0]|)
  }

  lemma NextStratum(strata: seq<seq<real>>, draws: Draws, from: nat, k: nat)
    requires UnitDraws(draws) && k < |strata|
    ensures Total(strata[k..]) == |strata[k]| + Total(strata[k + 1..])
    ensures Flatten(DrawnStrata(strata[k..], draws, from)) ==
      Drawn(strata[k], draws, from, |strata[k]|) +
      Flatten(DrawnStrata(strata[k + 1..], draws, from + |strata[k]|))
  {
  }

  method StratifiedSample(strata: seq<seq<real>>, draws: Draws, from: nat) returns (drawn: seq<real>, next: nat)
    requires UnitDraws(draws)
    ensures drawn == Flatten(DrawnStrata(strata, draws, from)) && next == from + Total(strata)
  {
    hide Drawn, DrawnStrata, Flatten, Total;
    drawn := [];
    next := from;
    var k := 0;
    assert strata[0..] == strata;
    while k < |strata|
      invariant 0 <= k <= |strata|
      invariant drawn + Flatten(DrawnStrata(strata[k..], draws, next)) == Flatten(DrawnStrata(strata, draws, from))
      invariant next + Total(strata[k..]) == from + Total(strata)
    {
      NextStratum(strata, draws, next, k);
      var sample;
      sample, next := DrawWithReplacement(strata[k], draws, next);
      drawn := drawn + sample;
      k := k + 1;
    }
    assert strata[k..] == [];
    NoStrata(draws, next);
  }

  lemma NoStrata(draws: Draws, from: nat)
    requires UnitDraws(draws)
    ensures Flatten(DrawnStrata([], draws, from)) == [] && Total([]) == 0
  {
  }

  /** The weighted sum of a bound per stratum. */
  function Weighted(strata: seq<seq<real>>, bounds: seq<real>): real
    requires |bounds| == |strata|
  {
    if strata == [] then 0.0 else Times(bounds[0], |strata[0]|) + Weighted(strata[1..], bounds[1..])
  }

  lemma {:induction false} SumConcatenates(a: seq<real>, b: seq<real>)
    ensures Sum(a + b) == Sum(a) + Sum(b)
    decreases |a|
  {
    if a == [] {
      assert a + b == b;
    } else {
      assert (a + b)[1..] == a[1..] + b;
      SumConcatenates(a[1..], b);
    }
  }

  lemma {:induction false} StratifiedSumWithin(strata: seq<seq<real>>, drawn: seq<seq<real>>,
                                               lows: seq<real>, highs: seq<real>)
    requires |lows| == |highs| == |strata| == |drawn|
    requires forall i :: 0 <= i < |strata| ==> |drawn[i]| == |strata[i]| && AllWithin(drawn[i], lows[i], highs[i])
    ensures Weighted(strata, lows) <= Sum(Flatten(drawn)) <= Weighted(strata, highs)
    ensures |Flatten(drawn)| == Total(strata)
    decreases |strata|
  {
    if strata != [] {
      hide Sum, Times;
      SumWithin(drawn[0], lows[0], highs[0]);
      SumConcatenates(drawn[0], Flatten(drawn[1..]));
      StratifiedSumWithin(strata[1..], drawn[1..], lows[1..], highs[1..]);
    }
  }

  /**
   Every stratified replicate keeps each stratum's count, so its mean lies between the
   count-weighted bounds of the strata, however far the strata lie apart.
   */
  lemma StratifiedReplicateWithin(strata: seq<seq<real>>, draws: Draws, from: nat,
                                  lows: seq<real>, highs: seq<real>)
    requires UnitDraws(draws) && |lows| == |highs| == |strata| && Total(strata) > 0
    requires forall i :: 0 <= i < |strata| ==> AllWithin(strata[i], lows[i], highs[i])
    ensures
      var sample := Flatten(DrawnStrata(strata, draws, from));
      var n := Total(strata) as real;
      |sample| == Total(strata) && Weighted(strata, lows) / n <= Mean(sample) <= Weighted(strata, highs) / n
  {
    var drawn := DrawnStrata(strata, draws, from);
    var n := Total(strata) as real;
    StratifiedSumWithin(strata, drawn, lows, highs);
    DivideMonotone(Weighted(strata, lows), Sum(Flatten(drawn)), n);
    DivideMonotone(Sum(Flatten(drawn)), Weighted(strata, highs), n);
  }
}
