/** Mean, least and greatest completion delay over the SR phases of one combined TDD/SR cycle. */
module BaseDelay {
  import opened Wrappers
  import opened TddPattern
  import opened UplinkTargets
  import FirstSlots
  import opened RealSeries
  import SlotArithmetic

  const SYMBOLS_PER_SLOT := 14

  datatype Config = Config(period: int, offset: int, timing: Timing, numerology: int, segments: int, controlSymbols: int)

  datatype Spread = Spread(mean: real, least: real, greatest: real)

  datatype DelayEstimate = DelayEstimate(segments: int, slots: Spread, ms: Spread)

  datatype EstimateError =
    | BadPattern(reason: PatternError)
    | PeriodNotPositive
    | OffsetOutOfRange
    | NegativeTiming
    | NegativeNumerology
    | NoSegments
    | ControlSymbolsOutOfRange
    | SrWithoutUlControl(slots: seq<int>)
    | Unschedulable

  function BadArgument(c: Config): Option<EstimateError> {
    if c.period <= 0 then Some(PeriodNotPositive)
    else if !(0 <= c.offset < c.period) then Some(OffsetOutOfRange)
    else if c.timing.lookahead < 0 || c.timing.k2 < 0 then Some(NegativeTiming)
    else if c.numerology < 0 then Some(NegativeNumerology)
    else if c.segments <= 0 then Some(NoSegments)
    else if !(0 <= c.controlSymbols < SYMBOLS_PER_SLOT) then Some(ControlSymbolsOutOfRange)
    else None
  }

  predicate ValidConfig(c: Config) { BadArgument(c) == None }

  /** The configurations that are accepted: a positive period holding the offset, no negative slot count or numerology, a
      segment at least, and data left beside the control symbols of a slot of 14. */
  lemma ValidConfigMeans(c: Config)
    ensures ValidConfig(c) <==>
            && 0 <= c.offset < c.period && c.timing.lookahead >= 0 && c.timing.k2 >= 0
            && c.numerology >= 0 && c.segments >= 1 && 0 <= c.controlSymbols <= 13
    ensures BadArgument(c) == Some(PeriodNotPositive) <==> c.period <= 0
    ensures BadArgument(c) == Some(OffsetOutOfRange) <==> c.period > 0 && (c.offset < 0 || c.offset >= c.period)
  {
  }

  function Cycle(p: Pattern, c: Config): int
    requires ValidConfig(c)
  {
    SlotArithmetic.Lcm(c.period, |p|)
  }

  function Opportunity(c: Config, j: int): int { c.offset + j * c.period }

  // SR opportunities in one cycle.
  function Phases(p: Pattern, c: Config): (n: int)
    requires ValidConfig(c)
    ensures n > 0 && n * c.period == Cycle(p, c)
  {
    var n := Cycle(p, c) / c.period;
    SlotArithmetic.ProductBound(n, c.period);
    n
  }

  /** The SR slots of one cycle: range(offset, cycle, period). */
  function SrSlots(p: Pattern, c: Config): (srs: seq<int>)
    requires ValidConfig(c)
    ensures |srs| == Phases(p, c) && forall j :: 0 <= j < |srs| ==> srs[j] == Opportunity(c, j)
  {
    seq(Phases(p, c), j => Opportunity(c, j))
  }

  function WithoutUlControl(p: Pattern, srs: seq<int>): (bad: seq<int>)
    ensures forall s :: s in bad <==> s in srs && !CarriesUlControl(At(p, s))
  {
    if srs == [] then []
    else
      var rest := WithoutUlControl(p, srs[1..]);
      if CarriesUlControl(At(p, srs[0])) then rest else [srs[0]] + rest
  }

  // ---------- one SR phase ----------

  ghost function FirstTarget(p: Pattern, t: Timing, sr: int): int {
    Targets(p, t, sr + 1, sr + 1, 1)[0]
  }

  /** The slots that complete segments 1, 2, ... of a packet announced by the SR in slot `sr`: the
      first target after the SR, then, from the slot after it, the following ones. */
  ghost function SegmentSlots(p: Pattern, t: Timing, sr: int, count: int): (ts: seq<int>)
    requires count >= 1
    ensures |ts| == count
  {
    var first := FirstTarget(p, t, sr);
    [first] + Targets(p, t, first + 1, first + 1, count - 1)
  }

  ghost predicate Found(p: Pattern, t: Timing, sr: int, count: int)
    requires count >= 1
  {
    var first := FirstTarget(p, t, sr);
    && ScansNeeded(p, t, sr + 1, sr + 1, 1) <= ScanLimit(p, 1)
    && ScansNeeded(p, t, first + 1, first + 1, count - 1) <= ScanLimit(p, count - 1)
  }

  method FindSegmentSlots(p: Pattern, t: Timing, sr: int, count: int) returns (r: Result<seq<int>, SearchError>)
    requires count >= 1
    ensures r.Ok? <==> Found(p, t, sr, count)
    ensures r.Ok? ==> r.value == SegmentSlots(p, t, sr, count)
  {
    var head := EligibleUlTargets(p, sr + 1, sr + 1, 1, t);
    if head.Err? {
      return head;
    }
    var firstTarget := head.value[0];
    var targets := [firstTarget];
    if count > 1 {
      var tail := EligibleUlTargets(p, firstTarget + 1, firstTarget + 1, count - 1, t);
      if tail.Err? {
        return tail;
      }
      targets := targets + tail.value;
    }
    return Ok(targets);
  }

  lemma SegmentSlotsPeriodic(p: Pattern, t: Timing, sr: int, count: int, k: nat)
    requires k < count
    ensures SegmentSlots(p, t, sr + |p|, count)[k] == SegmentSlots(p, t, sr, count)[k] + |p|
  {
    TargetsPeriodic(p, t, sr + 1, sr + 1, 1, 0);
    if k > 0 {
      var first := FirstTarget(p, t, sr);
      TargetsPeriodic(p, t, first + 1, first + 1, count - 1, k - 1);
    }
  }

  /** Raising K2 or the lookahead never makes any segment complete earlier. */
  lemma SegmentSlotsMonotone(p: Pattern, t: Timing, t': Timing, sr: int, count: int, k: nat)
    requires t.k2 <= t'.k2 && t.lookahead <= t'.lookahead && k < count
    ensures SegmentSlots(p, t, sr, count)[k] <= SegmentSlots(p, t', sr, count)[k]
  {
    TargetsMonotone(p, t, t', sr + 1, sr + 1, sr + 1, sr + 1, 1, 0);
    if k > 0 {
      var first, first' := FirstTarget(p, t, sr), FirstTarget(p, t', sr);
      TargetsMonotone(p, t, t', first + 1, first' + 1, first + 1, first' + 1, count - 1, k - 1);
    }
  }

  // When the scheduler knows of segment k + 1: after the SR for the first, after the BSR it carries for the rest.
  ghost function ReadyFor(ts: seq<int>, sr: int, k: nat): int
    requires k < |ts|
  {
    if k == 0 then sr + 1 else ts[0] + 1
  }

  // The first slot after `previous` that can be scheduled by a scheduler ready in slot `ready`.
  ghost predicate FirstAfter(p: Pattern, t: Timing, ready: int, previous: int, slot: int) {
    previous < slot && Eligible(p, t, ready, slot) && forall s :: previous < s < slot ==> !Eligible(p, t, ready, s)
  }

  /** Each segment completes in the first slot after the SR, or after the segment before it, that can be
      scheduled once the scheduler knows of it; so the slots increase. */
  lemma SegmentSlotsMean(p: Pattern, t: Timing, sr: int, count: int, k: nat)
    requires k < count
    ensures var ts := SegmentSlots(p, t, sr, count);
            FirstAfter(p, t, ReadyFor(ts, sr, k), if k == 0 then sr else ts[k - 1], ts[k])
  {
    var first := FirstTarget(p, t, sr);
    if k == 0 {
      TargetFirstAfter(p, t, sr + 1, 1, 0);
    } else {
      TargetFirstAfter(p, t, first + 1, count - 1, k - 1);
    }
  }

  lemma TargetFirstAfter(p: Pattern, t: Timing, ready: int, count: nat, i: nat)
    requires i < count
    ensures var ts := Targets(p, t, ready, ready, count);
            FirstAfter(p, t, ready, if i == 0 then ready - 1 else ts[i - 1], ts[i])
  {
    var e, ts := Schedulable(p, t, ready), Targets(p, t, ready, ready, count);
    TargetsAreFirst(p, t, ready, ready, count);
    FirstSlots.NoGap(e, ready, ts, i);
    forall s | (if i == 0 then ready - 1 else ts[i - 1]) < s < ts[i]
      ensures !Eligible(p, t, ready, s)
    {
      assert !e(s);
    }
    assert e(ts[i]);
  }

  /** With K2 plus lookahead of at most 9800 slots the estimator never gives up. */
  lemma AlwaysFound(p: Pattern, t: Timing, sr: int, count: int)
    requires t.k2 >= 0 && t.lookahead >= 0 && t.k2 + t.lookahead <= 9_800 && count >= 1
    ensures Found(p, t, sr, count)
  {
    SearchSucceeds(p, t, sr + 1, 1);
    SearchSucceeds(p, t, FirstTarget(p, t, sr) + 1, count - 1);
  }

  /** When an SR phase is given up, for every pattern and timing: the first UL-data slot from the opening after the
      SR, or the last wanted one from the opening after that, lies beyond the limit. */
  lemma FoundExactlyWhen(p: Pattern, t: Timing, sr: int, count: int)
    requires count >= 1
    ensures var first := NthUlData(p, Start(p, t, sr + 1, sr + 1), 1);
            && FirstTarget(p, t, sr) == first
            && (Found(p, t, sr, count) <==>
                 !BeyondLimit(p, t, sr + 1, sr + 1, 1) && (count > 1 ==> !BeyondLimit(p, t, first + 1, first + 1, count - 1)))
  {
    TargetsFromOpening(p, t, sr + 1, sr + 1, 1);
    FailsExactlyWhen(p, t, sr + 1, sr + 1, 1);
    var first := FirstTarget(p, t, sr);
    if count > 1 {
      FailsExactlyWhen(p, t, first + 1, first + 1, count - 1);
    }
  }

  // ---------- delays ----------

  function CompletionFraction(c: Config): real {
    (SYMBOLS_PER_SLOT - c.controlSymbols) as real / SYMBOLS_PER_SLOT as real
  }

  function DelayAt(c: Config, sr: int, target: int): real {
    c.period as real / 2.0 + (target - sr) as real + CompletionFraction(c)
  }

  /** Delay of segment k + 1 when the SR is sent in slot `sr`. */
  ghost function Delay(p: Pattern, c: Config, sr: int, k: nat): real
    requires k < c.segments
  {
    DelayAt(c, sr, SegmentSlots(p, c.timing, sr, c.segments)[k])
  }

  function Mean(xs: seq<real>): real
    requires xs != []
  {
    Sum(xs) / |xs| as real
  }

  function SpreadOf(xs: seq<real>): Spread
    requires xs != []
  {
    Spread(Mean(xs), Least(xs), Greatest(xs))
  }

  function Pow2(n: nat): (r: int)
    ensures r >= 1
  {
    if n == 0 then 1 else 2 * Pow2(n - 1)
  }

  function SlotMs(numerology: nat): real { 1.0 / Pow2(numerology) as real }

  function Scaled(s: Spread, d: real): Spread { Spread(s.mean * d, s.least * d, s.greatest * d) }

  function EstimateOf(c: Config, segments: int, delays: seq<real>): DelayEstimate
    requires ValidConfig(c) && delays != []
  {
    var slots := SpreadOf(delays);
    DelayEstimate(segments, slots, Scaled(slots, SlotMs(c.numerology)))
  }

  ghost function Delays(p: Pattern, c: Config, k: nat): (xs: seq<real>)
    requires ValidConfig(c) && k < c.segments
    ensures |xs| == Phases(p, c) && forall j :: 0 <= j < |xs| ==> xs[j] == Delay(p, c, Opportunity(c, j), k)
  {
    seq(Phases(p, c), j => Delay(p, c, Opportunity(c, j), k))
  }

  ghost function Estimate(p: Pattern, c: Config, k: nat): DelayEstimate
    requires ValidConfig(c) && k < c.segments
  {
    EstimateOf(c, k + 1, Delays(p, c, k))
  }

  method BuildSrSlots(p: Pattern, c: Config) returns (srs: seq<int>)
    requires ValidConfig(c)
    ensures srs == SrSlots(p, c)
  {
    srs := [];
    var cycle := Cycle(p, c);
    var slot := c.offset;
    ghost var n := Phases(p, c);
    while slot < cycle
      invariant |srs| <= n && slot == Opportunity(c, |srs|)
      invariant forall j :: 0 <= j < |srs| ==> srs[j] == Opportunity(c, j)
      decreases cycle - slot
    {
      assert (n - |srs|) * c.period == n * c.period - |srs| * c.period;
      SlotArithmetic.ProductBound(n - |srs|, c.period);
      assert (|srs| + 1) * c.period == |srs| * c.period + c.period;
      srs := srs + [slot];
      slot := slot + c.period;
    }
    assert (n - |srs|) * c.period == n * c.period - |srs| * c.period;
    SlotArithmetic.ProductBound(n - |srs|, c.period);
  }

  ghost predicate AllFound(p: Pattern, c: Config, srs: seq<int>)
    requires ValidConfig(c)
  {
    forall j :: 0 <= j < |srs| ==> Found(p, c.timing, srs[j], c.segments)
  }

  // Row k holds the delays of segment k + 1, one for each SR slot handled so far.
  ghost predicate Collected(p: Pattern, c: Config, srs: seq<int>, done: nat, delays: seq<seq<real>>)
    requires ValidConfig(c)
  {
    && done <= |srs| && |delays| == c.segments
    && (forall k :: 0 <= k < c.segments ==> |delays[k]| == done)
    && (forall k, j :: 0 <= k < c.segments && 0 <= j < done ==> delays[k][j] == Delay(p, c, srs[j], k))
  }

  method CollectDelays(p: Pattern, c: Config, srs: seq<int>) returns (r: Result<seq<seq<real>>, SearchError>)
    requires ValidConfig(c)
    ensures r.Ok? <==> AllFound(p, c, srs)
    ensures r.Ok? ==> Collected(p, c, srs, |srs|, r.value)
  {
    var delays: seq<seq<real>> := seq(c.segments, _ => []);
    for i := 0 to |srs|
      invariant Collected(p, c, srs, i, delays)
      invariant AllFound(p, c, srs[..i])
    {
      var found := FindSegmentSlots(p, c.timing, srs[i], c.segments);
      if found.Err? {
        return Err(found.error);
      }
      delays := AppendRow(p, c, srs, i, delays, found.value);
    }
    assert srs[..|srs|] == srs;
    return Ok(delays);
  }

  method AppendRow(p: Pattern, c: Config, srs: seq<int>, i: nat, delays: seq<seq<real>>, targets: seq<int>)
    returns (r: seq<seq<real>>)
    requires ValidConfig(c) && i < |srs| && Collected(p, c, srs, i, delays)
    requires targets == SegmentSlots(p, c.timing, srs[i], c.segments)
    ensures Collected(p, c, srs, i + 1, r)
  {
    r := delays;
    for k := 0 to c.segments
      invariant |r| == c.segments
      invariant forall h :: k <= h < c.segments ==> r[h] == delays[h]
      invariant forall h :: 0 <= h < k ==> r[h] == delays[h] + [DelayAt(c, srs[i], targets[h])]
    {
      r := r[k := r[k] + [DelayAt(c, srs[i], targets[k])]];
    }
  }

  method Summarise(p: Pattern, c: Config, delays: seq<seq<real>>) returns (estimates: seq<DelayEstimate>)
    requires ValidConfig(c) && Collected(p, c, SrSlots(p, c), Phases(p, c), delays)
    ensures |estimates| == c.segments && forall k :: 0 <= k < c.segments ==> estimates[k] == Estimate(p, c, k)
  {
    estimates := [];
    for k := 0 to c.segments
      invariant |estimates| == k
      invariant forall h :: 0 <= h < k ==> estimates[h] == Estimate(p, c, h)
    {
      assert delays[k] == Delays(p, c, k);
      estimates := estimates + [EstimateOf(c, k + 1, delays[k])];
    }
  }

  /** The estimator. It rejects a bad pattern, then a bad argument, then an SR slot without UL
      control, gives up when some search exceeds its scan limit, and otherwise returns one estimate
      for each number of segments. */
  method EstimateBaseDelays(text: string, c: Config) returns (r: Result<seq<DelayEstimate>, EstimateError>)
    ensures Parse(text).Err? ==> r == Err(BadPattern(Parse(text).error))
    ensures Parse(text).Ok? && BadArgument(c).Some? ==> r == Err(BadArgument(c).value)
    ensures Parse(text).Ok? && ValidConfig(c) ==>
      var p: Pattern := Parse(text).value;
      var bad := WithoutUlControl(p, SrSlots(p, c));
      if bad != [] then r == Err(SrWithoutUlControl(bad))
      else if !AllFound(p, c, SrSlots(p, c)) then r == Err(Unschedulable)
      else r.Ok? && |r.value| == c.segments && forall k :: 0 <= k < c.segments ==> r.value[k] == Estimate(p, c, k)
  {
    var parsed := Parse(text);
    if parsed.Err? {
      return Err(BadPattern(parsed.error));
    }
    var p: Pattern := parsed.value;
    var badArgument := BadArgument(c);
    if badArgument.Some? {
      return Err(badArgument.value);
    }
    var srs := BuildSrSlots(p, c);
    var invalid := WithoutUlControl(p, srs);
    if invalid != [] {
      return Err(SrWithoutUlControl(invalid));
    }
    var collected := CollectDelays(p, c, srs);
    if collected.Err? {
      return Err(Unschedulable);
    }
    var estimates := Summarise(p, c, collected.value);
    return Ok(estimates);
  }

  // ---------- what the estimates mean ----------

  lemma {:induction false} SumBetween(xs: seq<real>, lo: real, hi: real)
    requires forall i :: 0 <= i < |xs| ==> lo <= xs[i] <= hi
    ensures lo * |xs| as real <= Sum(xs) <= hi * |xs| as real
  {
    if xs != [] {
      SumBetween(xs[..|xs| - 1], lo, hi);
      OneMore(lo, |xs| - 1);
      OneMore(hi, |xs| - 1);
    }
  }

  lemma OneMore(d: real, n: nat)
    ensures d * (n + 1) as real == d * n as real + d
  {
    assert (n + 1) as real == n as real + 1.0;
  }

  lemma AllBetween(xs: seq<real>, lo: real, hi: real)
    requires xs != [] && lo == Least(xs) && hi == Greatest(xs)
    ensures forall i :: 0 <= i < |xs| ==> lo <= xs[i] <= hi
  {
    LeastIsLeast(xs);
    GreatestIsGreatest(xs);
    assert forall i :: 0 <= i < |xs| ==> xs[i] in xs;
  }

  lemma SpreadOrdered(xs: seq<real>)
    requires xs != []
    ensures Ordered(SpreadOf(xs))
  {
    var lo, hi := Least(xs), Greatest(xs);
    AllBetween(xs, lo, hi);
    SumBetween(xs, lo, hi);
    DivideBetween(lo, Sum(xs), hi, |xs| as real);
  }

  lemma DivideBetween(lo: real, sum: real, hi: real, n: real)
    requires n > 0.0 && lo * n <= sum <= hi * n
    ensures lo <= sum / n <= hi
  {
    var q := sum / n;
    assert q * n == sum;
    assert (q - lo) * n >= 0.0 && (hi - q) * n >= 0.0;
  }

  // Raising every delay by at least d raises the mean, the least and the greatest by at least d.
  lemma {:induction false} SumShift(xs: seq<real>, ys: seq<real>, d: real)
    requires |xs| == |ys| && forall j :: 0 <= j < |xs| ==> xs[j] + d <= ys[j]
    ensures Sum(xs) + d * |xs| as real <= Sum(ys)
  {
    if xs != [] {
      SumShift(xs[..|xs| - 1], ys[..|ys| - 1], d);
      OneMore(d, |xs| - 1);
    }
  }

  ghost predicate AtLeastBy(a: Spread, b: Spread, d: real) {
    a.mean + d <= b.mean && a.least + d <= b.least && a.greatest + d <= b.greatest
  }

  lemma MeanShift(a: real, b: real, d: real, n: real)
    requires n > 0.0 && a + d * n <= b
    ensures a / n + d <= b / n
  {
    var x, y := a / n, b / n;
    assert (y - x - d) * n == b - a - d * n;
  }

  lemma SpreadShift(xs: seq<real>, ys: seq<real>, d: real)
    requires |xs| == |ys| > 0 && forall j :: 0 <= j < |xs| ==> xs[j] + d <= ys[j]
    ensures AtLeastBy(SpreadOf(xs), SpreadOf(ys), d)
  {
    SumShift(xs, ys, d);
    MeanShift(Sum(xs), Sum(ys), d, |xs| as real);
    LeastIsLeast(xs);
    LeastIsLeast(ys);
    var i :| 0 <= i < |ys| && ys[i] == Least(ys);
    assert xs[i] in xs;
    GreatestIsGreatest(xs);
    GreatestIsGreatest(ys);
    var h :| 0 <= h < |xs| && xs[h] == Greatest(xs);
    assert ys[h] in ys;
  }

  lemma DelayStep(p: Pattern, c: Config, sr: int, k: nat)
    requires k < c.segments
    ensures Delay(p, c, sr + |p|, k) == Delay(p, c, sr, k) && At(p, sr + |p|) == At(p, sr)
  {
    SegmentSlotsPeriodic(p, c.timing, sr, c.segments, k);
    AtPeriodic(p, sr);
  }

  lemma {:induction false} DelayPeriodic(p: Pattern, c: Config, sr: int, sr': int, k: nat, m: int)
    requires k < c.segments && sr' == sr + m * |p|
    ensures Delay(p, c, sr', k) == Delay(p, c, sr, k) && At(p, sr') == At(p, sr)
    decreases if m < 0 then -m else m
  {
    if m > 0 {
      SlotArithmetic.Distribute(m - 1, 1, |p|);
      DelayPeriodic(p, c, sr, sr' - |p|, k, m - 1);
      DelayStep(p, c, sr' - |p|, k);
    } else if m < 0 {
      SlotArithmetic.Distribute(m, 1, |p|);
      DelayPeriodic(p, c, sr, sr' + |p|, k, m + 1);
      DelayStep(p, c, sr', k);
    }
  }

  // Opportunity j is a whole number of patterns away from one in the cycle.
  lemma CycleCovers(p: Pattern, c: Config, j: int) returns (phase: nat, m: int)
    requires ValidConfig(c)
    ensures phase < Phases(p, c) && Opportunity(c, j) == Opportunity(c, phase) + m * |p|
  {
    var n := Phases(p, c);
    phase := j % n;
    var laps := Cycle(p, c) / |p|;
    m := (j / n) * laps;
    WholeLaps(j / n, n, phase, c.period, laps, |p|);
  }

  lemma WholeLaps(q: int, n: int, phase: int, period: int, laps: int, length: int)
    requires n * period == laps * length
    ensures (q * n + phase) * period == phase * period + (q * laps) * length
  {
    assert (q * n + phase) * period == q * (n * period) + phase * period;
    assert q * (laps * length) == (q * laps) * length;
  }

  /** The finite enumeration stands for the endless timeline: if the SR slots of one cycle carry UL
      control then all SR opportunities do, and the least and greatest delay of the cycle are the
      least and greatest over all of them, each of them attained. */
  lemma CycleStandsForTimeline(p: Pattern, c: Config, k: nat, j: int)
    requires ValidConfig(c) && k < c.segments && WithoutUlControl(p, SrSlots(p, c)) == []
    ensures CarriesUlControl(At(p, Opportunity(c, j)))
    ensures Estimate(p, c, k).slots.least <= Delay(p, c, Opportunity(c, j), k) <= Estimate(p, c, k).slots.greatest
    ensures exists i, h :: Delay(p, c, Opportunity(c, i), k) == Estimate(p, c, k).slots.least
                        && Delay(p, c, Opportunity(c, h), k) == Estimate(p, c, k).slots.greatest
  {
    var phase, m := CycleCovers(p, c, j);
    DelayPeriodic(p, c, Opportunity(c, phase), Opportunity(c, j), k, m);
    assert SrSlots(p, c)[phase] !in WithoutUlControl(p, SrSlots(p, c));
    var xs := Delays(p, c, k);
    assert xs[phase] in xs;
    LeastIsLeast(xs);
    GreatestIsGreatest(xs);
    var i: nat :| i < |xs| && xs[i] == Least(xs);
    var h: nat :| h < |xs| && xs[h] == Greatest(xs);
    assert Delay(p, c, Opportunity(c, i), k) == Estimate(p, c, k).slots.least
        && Delay(p, c, Opportunity(c, h), k) == Estimate(p, c, k).slots.greatest;
  }

  // ---------- what the mean averages ----------

  // Half the length of one of n equal parts.
  function HalfPart(period: real, n: nat): real
    requires n > 0
  {
    period / (2 * n) as real
  }

  // The middle of part i, counted from the start.
  function Middle(start: real, half: real, i: nat): real { start + (2 * i + 1) as real * half }

  /** The middle of part i of n equal parts of the period before the SR slot. */
  function Arrival(c: Config, sr: int, n: nat, i: nat): real
    requires i < n
  {
    Middle((sr - c.period) as real, HalfPart(c.period as real, n), i)
  }

  /** When the last UL-data symbol of segment k + 1 ends: the control symbols are the last of the slot's 14. */
  ghost function Completion(p: Pattern, c: Config, sr: int, k: nat): real
    requires k < c.segments
  {
    SegmentSlots(p, c.timing, sr, c.segments)[k] as real + (14 - c.controlSymbols) as real * (1.0 / 14.0)
  }

  // What the packets of the n arrivals before the SR wait.
  ghost function Waits(p: Pattern, c: Config, sr: int, k: nat, n: nat): (ws: seq<real>)
    requires k < c.segments
    ensures |ws| == n && forall i :: 0 <= i < n ==> ws[i] == Completion(p, c, sr, k) - Arrival(c, sr, n, i)
  {
    seq(n, i requires 0 <= i < n => Completion(p, c, sr, k) - Arrival(c, sr, n, i))
  }

  lemma ArrivalInPeriod(c: Config, j: int, n: nat, i: nat)
    requires ValidConfig(c) && i < n
    ensures Opportunity(c, j - 1) as real < Arrival(c, Opportunity(c, j), n, i) < Opportunity(c, j) as real
  {
    var part := HalfPart(c.period as real, n);
    assert part * (2 * n) as real == c.period as real;
    assert part > 0.0;
    assert (2 * n - 2 * i - 1) as real * part > 0.0;
    assert (j - 1) * c.period == j * c.period - c.period;
  }

  ghost predicate Evenly(ws: seq<real>, end: real, start: real, half: real) {
    forall i :: 0 <= i < |ws| ==> ws[i] == end - Middle(start, half, i)
  }

  lemma {:induction false} SumOfWaits(ws: seq<real>, end: real, start: real, part: real)
    requires Evenly(ws, end, start, part)
    ensures Sum(ws) == |ws| as real * (end - start) - (|ws| * |ws|) as real * part
  {
    if ws != [] {
      SumOfWaits(ws[..|ws| - 1], end, start, part);
      OneMoreWait(|ws| - 1, end, start, part);
    }
  }

  lemma OneMoreWait(i: nat, end: real, start: real, part: real)
    ensures var m := i + 1;
            m as real * (end - start) - (m * m) as real * part
            == i as real * (end - start) - (i * i) as real * part + (end - (start + (2 * i + 1) as real * part))
  {
    var d, m := end - start, i + 1;
    assert m as real == i as real + 1.0;
    assert m as real * d == i as real * d + d;
    assert m * m == i * i + 2 * i + 1;
    assert (m * m) as real == (i * i) as real + (2 * i + 1) as real;
    assert (m * m) as real * part == (i * i) as real * part + (2 * i + 1) as real * part;
  }

  lemma MeanWait(ws: seq<real>, end: real, start: real, period: real, delay: real)
    requires |ws| > 0 && Evenly(ws, end, start, HalfPart(period, |ws|))
    requires delay == (end - (start + period)) + period / 2.0
    ensures Mean(ws) == delay
  {
    SumOfWaits(ws, end, start, HalfPart(period, |ws|));
    HalfPeriod(|ws|, end - (start + period), period);
  }

  lemma HalfPeriod(n: nat, d: real, period: real)
    requires n > 0
    ensures n as real * (d + period) - (n * n) as real * (period / (2 * n) as real) == (d + period / 2.0) * n as real
  {
    var x := n as real;
    var part := period / (2 * n) as real;
    assert (2 * n) as real == 2.0 * x;
    assert part * (2.0 * x) == period;
    assert (n * n) as real == x * x;
    assert x * x * part == x * (part * x);
  }

  lemma DelayToCompletion(p: Pattern, c: Config, sr: int, k: nat)
    requires k < c.segments
    ensures Delay(p, c, sr, k) == (Completion(p, c, sr, k) - sr as real) + c.period as real / 2.0
  {
    var target := SegmentSlots(p, c.timing, sr, c.segments)[k];
    assert CompletionFraction(c) == (14 - c.controlSymbols) as real * (1.0 / 14.0);
  }

  lemma WaitsAreEven(p: Pattern, c: Config, sr: int, k: nat, n: nat)
    requires k < c.segments && n > 0
    ensures Evenly(Waits(p, c, sr, k, n), Completion(p, c, sr, k), (sr - c.period) as real, HalfPart(c.period as real, n))
  {
  }

  /** However finely a period is divided, the delay is the mean time from an arrival to the completion. */
  lemma DelayIsMeanWait(p: Pattern, c: Config, sr: int, k: nat, n: nat)
    requires k < c.segments && n > 0
    ensures Mean(Waits(p, c, sr, k, n)) == Delay(p, c, sr, k)
  {
    WaitsAreEven(p, c, sr, k, n);
    DelayToCompletion(p, c, sr, k);
    MeanWait(Waits(p, c, sr, k, n), Completion(p, c, sr, k), (sr - c.period) as real, c.period as real, Delay(p, c, sr, k));
  }

  // The mean waits of n packets before each of the SRs.
  ghost function MeanWaits(p: Pattern, c: Config, srs: seq<int>, k: nat, n: nat): (ws: seq<real>)
    requires k < c.segments && n > 0
    ensures |ws| == |srs| && forall j :: 0 <= j < |srs| ==> ws[j] == Mean(Waits(p, c, srs[j], k, n))
  {
    seq(|srs|, j requires 0 <= j < |srs| => Mean(Waits(p, c, srs[j], k, n)))
  }

  /** The estimate for k + 1 segments: its mean is the mean over n packets, evenly spread, before each SR slot of the
      cycle. */
  lemma EstimateIsMeanWait(p: Pattern, c: Config, k: nat, n: nat)
    requires ValidConfig(c) && k < c.segments && n > 0
    ensures Estimate(p, c, k).segments == k + 1
    ensures var ws := MeanWaits(p, c, SrSlots(p, c), k, n);
            ws != [] && Estimate(p, c, k).slots == SpreadOf(ws)
  {
    var xs, ws := Delays(p, c, k), MeanWaits(p, c, SrSlots(p, c), k, n);
    forall j | 0 <= j < |xs|
      ensures ws[j] == xs[j]
    {
      DelayIsMeanWait(p, c, SrSlots(p, c)[j], k, n);
    }
    assert ws == xs;
  }

  /** In milliseconds every figure is a 2^numerology-th of the figure in slots. */
  lemma EstimateInMs(p: Pattern, c: Config, k: nat)
    requires ValidConfig(c) && k < c.segments
    ensures Scaled(Estimate(p, c, k).ms, Pow2(c.numerology) as real) == Estimate(p, c, k).slots
  {
    ScaledBack(Estimate(p, c, k).slots, c.numerology);
  }

  lemma ScaledBack(s: Spread, numerology: nat)
    ensures Scaled(Scaled(s, SlotMs(numerology)), Pow2(numerology) as real) == s
  {
    var d, n := SlotMs(numerology), Pow2(numerology) as real;
    assert d * n == 1.0;
    assert s.mean * d * n == s.mean * (d * n) && s.least * d * n == s.least * (d * n) && s.greatest * d * n == s.greatest * (d * n);
  }

  ghost predicate Ordered(s: Spread) { s.least <= s.mean <= s.greatest }

  lemma ScaledOrdered(s: Spread, d: real)
    requires Ordered(s) && d > 0.0
    ensures Ordered(Scaled(s, d))
  {
    assert (s.mean - s.least) * d >= 0.0 && (s.greatest - s.mean) * d >= 0.0;
  }

  lemma SlotMsPositive(numerology: nat)
    ensures SlotMs(numerology) > 0.0
  {
  }

  /** least <= mean <= greatest, in slots and in milliseconds. */
  lemma EstimateOrdered(p: Pattern, c: Config, k: nat)
    requires ValidConfig(c) && k < c.segments
    ensures Ordered(Estimate(p, c, k).slots) && Ordered(Estimate(p, c, k).ms)
  {
    var xs := Delays(p, c, k);
    SpreadOrdered(xs);
    SlotMsPositive(c.numerology);
    ScaledOrdered(SpreadOf(xs), SlotMs(c.numerology));
  }

  lemma ScaledAtLeast(a: Spread, b: Spread, d: real)
    requires AtLeastBy(a, b, 0.0) && d > 0.0
    ensures AtLeastBy(Scaled(a, d), Scaled(b, d), 0.0)
  {
    assert (b.mean - a.mean) * d >= 0.0 && (b.least - a.least) * d >= 0.0 && (b.greatest - a.greatest) * d >= 0.0;
  }

  /** A larger K2 or lookahead never lowers the mean, the least or the greatest delay, in slots or milliseconds. */
  lemma EstimateMonotone(p: Pattern, c: Config, c': Config, k: nat)
    requires ValidConfig(c) && k < c.segments
    requires c' == c.(timing := c'.timing) && c.timing.k2 <= c'.timing.k2 && c.timing.lookahead <= c'.timing.lookahead
    ensures ValidConfig(c') && AtLeastBy(Estimate(p, c, k).slots, Estimate(p, c', k).slots, 0.0)
    ensures AtLeastBy(Estimate(p, c, k).ms, Estimate(p, c', k).ms, 0.0)
  {
    var xs, ys := Delays(p, c, k), Delays(p, c', k);
    forall j | 0 <= j < |xs|
      ensures xs[j] + 0.0 <= ys[j]
    {
      SegmentSlotsMonotone(p, c.timing, c'.timing, Opportunity(c, j), c.segments, k);
    }
    SpreadShift(xs, ys, 0.0);
    SlotMsPositive(c.numerology);
    ScaledAtLeast(SpreadOf(xs), SpreadOf(ys), SlotMs(c.numerology));
  }

  /** Every further segment costs at least one more slot, on the mean and at both ends. */
  lemma SegmentCostsASlot(p: Pattern, c: Config, k: nat)
    requires ValidConfig(c) && k + 1 < c.segments
    ensures AtLeastBy(Estimate(p, c, k).slots, Estimate(p, c, k + 1).slots, 1.0)
  {
    var xs, ys := Delays(p, c, k), Delays(p, c, k + 1);
    forall j | 0 <= j < |xs|
      ensures xs[j] + 1.0 <= ys[j]
    {
      SegmentSlotsMean(p, c.timing, Opportunity(c, j), c.segments, k + 1);
    }
    SpreadShift(xs, ys, 1.0);
  }
}
