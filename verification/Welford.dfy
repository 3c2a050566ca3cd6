/** The benchmark summary: averages and second moments of the runs by Welford's one-pass update. */
module Welford {
  import opened RealSeries
  import opened Wrappers

  datatype Phase = Phase(time: real, rate: real, period: real)

  datatype RunResult = RunResult(init: Phase, run: Phase)

  function SumSquares(xs: seq<real>): real {
    if xs == [] then 0.0 else SumSquares(xs[..|xs| - 1]) + xs[|xs| - 1] * xs[|xs| - 1]
  }

  function Mean(xs: seq<real>): real
    requires xs != []
  {
    Sum(xs) / |xs| as real
  }

  /** The sum of squared deviations from m. */
  function Deviations(xs: seq<real>, m: real): real {
    if xs == [] then 0.0 else Deviations(xs[..|xs| - 1], m) + (xs[|xs| - 1] - m) * (xs[|xs| - 1] - m)
  }

  lemma {:induction false} DeviationsExpand(xs: seq<real>, m: real)
    ensures Deviations(xs, m) == SumSquares(xs) - 2.0 * m * Sum(xs) + m * m * |xs| as real
  {
    if xs != [] {
      var front, x := xs[..|xs| - 1], xs[|xs| - 1];
      DeviationsExpand(front, m);
      ExpandStep(Deviations(front, m), SumSquares(front), Sum(front), |front| as real, x, m,
                 Deviations(xs, m), SumSquares(xs), Sum(xs), |xs| as real);
    }
  }

  lemma ExpandStep(dev: real, squares: real, sum: real, n: real, x: real, m: real,
                   dev': real, squares': real, sum': real, n': real)
    requires dev == squares - 2.0 * m * sum + m * m * n
    requires n' == n + 1.0 && sum' == sum + x && squares' == squares + x * x && dev' == dev + (x - m) * (x - m)
    ensures dev' == squares' - 2.0 * m * sum' + m * m * n'
  {
    assert 2.0 * m * sum' == 2.0 * m * sum + 2.0 * m * x;
    assert m * m * n' == m * m * n + m * m;
  }

  /** `average` and `moment2` are the mean and the squared deviations from it, written without division. */
  predicate Summarises(xs: seq<real>, average: real, moment2: real) {
    Sum(xs) == average * |xs| as real && moment2 == SumSquares(xs) - average * average * |xs| as real
  }

  lemma SummaryMeans(xs: seq<real>, average: real, moment2: real)
    requires xs != [] && Summarises(xs, average, moment2)
    ensures average == Mean(xs) && moment2 == Deviations(xs, Mean(xs)) >= 0.0
  {
    var n := |xs| as real;
    assert average * n / n == average;
    DeviationsExpand(xs, average);
    assert average * (average * n) == average * average * n;
    DeviationsNotNegative(xs, average);
  }

  lemma {:induction false} DeviationsNotNegative(xs: seq<real>, m: real)
    ensures Deviations(xs, m) >= 0.0
  {
    if xs != [] {
      DeviationsNotNegative(xs[..|xs| - 1], m);
      SquareNotNegative(xs[|xs| - 1] - m);
    }
  }

  lemma SquareNotNegative(d: real)
    ensures d * d >= 0.0
  {
  }

  lemma UpdateIdentity(n: real, average: real, next: real, x: real)
    requires (n + 1.0) * next == n * average + x
    ensures (x - average) * (x - next) == x * x + n * (average * average) - (n + 1.0) * (next * next)
  {
    var d := (n + 1.0) * next;
    assert d * next == (n + 1.0) * (next * next);
    assert (n * average + x) * next == n * average * next + x * next;
    assert x * (n + 1.0) * next == x * (n * average + x);
    assert n * average * ((n + 1.0) * next) == n * average * (n * average + x);
    var lhs := (x - average) * (x - next);
    var rhs := x * x + n * (average * average) - (n * average + x) * next;
    assert lhs == x * x - x * next - average * x + average * next;
    assert lhs - rhs == -average * x + average * next - n * (average * average) + n * average * next;
    assert lhs - rhs == average * ((n + 1.0) * next - x - n * average);
  }

  /** One accumulation step, the macro of the source: it turns the summary of the first samples into that of
      one more. The first average is the first sample itself, so the first step changes nothing. */
  method Accumulate(ghost xs: seq<real>, x: real, count: nat, average: real, moment2: real)
    returns (nextAverage: real, nextMoment2: real)
    requires count == |xs| + 1 && (xs != [] ==> Summarises(xs, average, moment2))
    requires xs == [] ==> average == x && moment2 == 0.0
    ensures Summarises(xs + [x], nextAverage, nextMoment2)
  {
    var deltaPre := x - average;
    nextAverage := average + deltaPre / count as real;
    var deltaPost := x - nextAverage;
    nextMoment2 := moment2 + deltaPre * deltaPost;
    assert (xs + [x])[..|xs|] == xs;
    AccumulateStep(Sum(xs), SumSquares(xs), |xs| as real, average, moment2, x, count as real, nextAverage);
  }

  lemma AccumulateStep(sum: real, squares: real, n: real, average: real, moment2: real, x: real, n': real, next: real)
    requires n >= 0.0 && n' == n + 1.0 && next == average + (x - average) / n'
    requires sum == average * n && moment2 == squares - average * average * n
    ensures sum + x == next * n'
    ensures moment2 + (x - average) * (x - next) == squares + x * x - next * next * n'
  {
    var step := (x - average) / n';
    assert step * n' == x - average;
    assert next * n' == average * n' + step * n';
    assert average * n' == average * n + average;
    UpdateIdentity(n, average, next, x);
    assert n * (average * average) == average * average * n;
    assert n' * (next * next) == next * next * n';
  }

  function Times(ps: seq<Phase>): seq<real> { seq(|ps|, i requires 0 <= i < |ps| => ps[i].time) }
  function Rates(ps: seq<Phase>): seq<real> { seq(|ps|, i requires 0 <= i < |ps| => ps[i].rate) }
  function Periods(ps: seq<Phase>): seq<real> { seq(|ps|, i requires 0 <= i < |ps| => ps[i].period) }
  function Inits(rs: seq<RunResult>): seq<Phase> { seq(|rs|, i requires 0 <= i < |rs| => rs[i].init) }
  function Runs(rs: seq<RunResult>): seq<Phase> { seq(|rs|, i requires 0 <= i < |rs| => rs[i].run) }

  predicate PhaseSummarised(ps: seq<Phase>, average: Phase, moment2: Phase) {
    && Summarises(Times(ps), average.time, moment2.time)
    && Summarises(Rates(ps), average.rate, moment2.rate)
    && Summarises(Periods(ps), average.period, moment2.period)
  }

  const ZERO := Phase(0.0, 0.0, 0.0)

  method AccumulatePhase(ghost ps: seq<Phase>, p: Phase, count: nat, average: Phase, moment2: Phase)
    returns (nextAverage: Phase, nextMoment2: Phase)
    requires count == |ps| + 1 && (ps != [] ==> PhaseSummarised(ps, average, moment2))
    requires ps == [] ==> average == p && moment2 == ZERO
    ensures PhaseSummarised(ps + [p], nextAverage, nextMoment2)
  {
    var a, m := Accumulate(Times(ps), p.time, count, average.time, moment2.time);
    var b, n := Accumulate(Rates(ps), p.rate, count, average.rate, moment2.rate);
    var c, o := Accumulate(Periods(ps), p.period, count, average.period, moment2.period);
    nextAverage, nextMoment2 := Phase(a, b, c), Phase(m, n, o);
    assert Times(ps + [p]) == Times(ps) + [p.time];
    assert Rates(ps + [p]) == Rates(ps) + [p.rate];
    assert Periods(ps + [p]) == Periods(ps) + [p.period];
  }

  predicate MeansAndDeviations(xs: seq<real>, average: real, moment2: real) {
    xs != [] && average == Mean(xs) && moment2 == Deviations(xs, Mean(xs))
  }

  predicate PhaseMeans(ps: seq<Phase>, average: Phase, moment2: Phase) {
    && MeansAndDeviations(Times(ps), average.time, moment2.time)
    && MeansAndDeviations(Rates(ps), average.rate, moment2.rate)
    && MeansAndDeviations(Periods(ps), average.period, moment2.period)
  }

  lemma PhaseSummaryMeans(ps: seq<Phase>, average: Phase, moment2: Phase)
    requires ps != [] && PhaseSummarised(ps, average, moment2)
    ensures PhaseMeans(ps, average, moment2)
  {
    SummaryMeans(Times(ps), average.time, moment2.time);
    SummaryMeans(Rates(ps), average.rate, moment2.rate);
    SummaryMeans(Periods(ps), average.period, moment2.period);
  }

  predicate RunSummarised(rs: seq<RunResult>, average: RunResult, moment2: RunResult) {
    PhaseSummarised(Inits(rs), average.init, moment2.init) && PhaseSummarised(Runs(rs), average.run, moment2.run)
  }

  method AccumulateRun(ghost rs: seq<RunResult>, r: RunResult, count: nat, average: RunResult, moment2: RunResult)
    returns (nextAverage: RunResult, nextMoment2: RunResult)
    requires count == |rs| + 1 && (rs != [] ==> RunSummarised(rs, average, moment2))
    requires rs == [] ==> average == r && moment2 == RunResult(ZERO, ZERO)
    ensures RunSummarised(rs + [r], nextAverage, nextMoment2)
  {
    var i, mi := AccumulatePhase(Inits(rs), r.init, count, average.init, moment2.init);
    var u, mu := AccumulatePhase(Runs(rs), r.run, count, average.run, moment2.run);
    nextAverage, nextMoment2 := RunResult(i, u), RunResult(mi, mu);
    assert Inits(rs + [r]) == Inits(rs) + [r.init];
    assert Runs(rs + [r]) == Runs(rs) + [r.run];
  }

  /** The summary of a suite of runs, which needs at least two: each average is the arithmetic mean of its
      column and each moment the sum of squared deviations from that mean, whose root over the number of
      runs is printed. */
  method Summary(results: seq<RunResult>) returns (r: Option<(RunResult, RunResult)>)
    ensures r.None? <==> |results| < 2
    ensures r.Some? ==>
      var (average, moment2) := r.value;
      PhaseMeans(Inits(results), average.init, moment2.init) && PhaseMeans(Runs(results), average.run, moment2.run)
  {
    if |results| < 2 {
      return None;
    }
    var average, moment2 := results[0], RunResult(ZERO, ZERO);
    for n := 0 to |results|
      invariant n == 0 ==> average == results[0] && moment2 == RunResult(ZERO, ZERO)
      invariant n > 0 ==> RunSummarised(results[..n], average, moment2)
    {
      average, moment2 := AccumulateRun(results[..n], results[n], n + 1, average, moment2);
      assert results[..n + 1] == results[..n] + [results[n]];
    }
    assert results[..|results|] == results;
    PhaseSummaryMeans(Inits(results), average.init, moment2.init);
    PhaseSummaryMeans(Runs(results), average.run, moment2.run);
    return Some((average, moment2));
  }
}
