/** Aggregating a trace into fixed time windows, over a whole cell and for each RNTI. */
module TimeWindows {
  import opened RealSeries
  import opened Wrappers
  import SlotArithmetic

  // One trace row of an aggregated column. Times are microseconds; a missing cell is None.
  datatype Row = Row(time: Option<int>, rnti: Option<int>, value: Option<real>)

  predicate Within(r: Row, lo: int, hi: int) { r.time.Some? && lo <= r.time.value < hi }

  predicate AnyTime(rows: seq<Row>) { exists i :: 0 <= i < |rows| && rows[i].time.Some? }

  /** The present samples with lo <= time < hi. */
  function Samples(rows: seq<Row>, lo: int, hi: int): seq<real> {
    if rows == [] then []
    else
      var r := rows[|rows| - 1];
      Samples(rows[..|rows| - 1], lo, hi) + if Within(r, lo, hi) && r.value.Some? then [r.value.value] else []
  }

  /** An aggregation of the present samples of a window; sums give zero for no samples, the others nothing. */
  type Aggregate = seq<real> -> Option<real>

  datatype Fill = Zero | Number(value: real) | Forward | Unfilled | Unknown

  datatype FillError = NoFillRules | UnknownRule

  datatype Window = Window(start: int, value: Option<real>)

  // How many of from, from + window, from + 2 * window, ... lie before the end.
  function Starts(window: int, end: int, from: int): (n: nat)
    requires window > 0
    decreases end - from
  {
    if from >= end then 0 else 1 + Starts(window, end, from + window)
  }

  // The windows of an interval; an empty interval has one.
  function WindowCount(window: int, start: int, end: int): nat
    requires window > 0
  {
    if end <= start then 1 else Starts(window, end, start)
  }

  lemma {:induction false} StartsCover(window: int, end: int, from: int)
    requires window > 0 && from < end
    ensures var n := Starts(window, end, from);
            n > 0 && from + (n - 1) * window < end <= from + n * window
    decreases end - from
  {
    if from + window < end {
      StartsCover(window, end, from + window);
      var n := Starts(window, end, from + window);
      assert (n + 1) * window == n * window + window && (n + 1 - 1) * window == (n - 1) * window + window;
    } else {
      assert Starts(window, end, from + window) == 0;
    }
  }

  /** The number of windows is the least that reaches the end: its last window starts before the end and
      stops no earlier than it. */
  lemma WindowsReachEnd(window: int, start: int, end: int)
    requires window > 0 && start < end
    ensures var n := WindowCount(window, start, end); n > 0 && start + (n - 1) * window < end <= start + n * window
  {
    StartsCover(window, end, start);
  }

  /** The value of the window at `at` before filling: resampling gives one to each multiple of the window from the
      first sample's to the last one's, and none elsewhere. */
  function Resampled(rows: seq<Row>, window: int, at: int, agg: Aggregate): Option<real>
    requires window > 0
  {
    if at % window == 0 && (exists i :: 0 <= i < |rows| && rows[i].time.Some? && rows[i].time.value < at + window)
       && (exists i :: 0 <= i < |rows| && rows[i].time.Some? && at <= rows[i].time.value)
    then agg(Samples(rows, at, at + window))
    else None
  }

  // The start of the bin a time falls into: a whole number of windows from zero.
  function Bin(time: int, window: int): int
    requires window > 0
  {
    time / window * window
  }

  lemma BinSplits(time: int, window: int, at: int)
    requires window > 0 && at % window == 0
    ensures time < at + window <==> Bin(time, window) <= at
    ensures at <= time <==> at <= Bin(time, window)
  {
    var q, a := time / window, at / window;
    assert time == q * window + time % window && at == a * window;
    assert (q - a) * window == q * window - a * window;
    SlotArithmetic.ProductBound(q - a, window);
  }

  ghost predicate BinBy(rows: seq<Row>, window: int, at: int)
    requires window > 0
  {
    exists i :: 0 <= i < |rows| && rows[i].time.Some? && Bin(rows[i].time.value, window) <= at
  }

  ghost predicate BinFrom(rows: seq<Row>, window: int, at: int)
    requires window > 0
  {
    exists i :: 0 <= i < |rows| && rows[i].time.Some? && at <= Bin(rows[i].time.value, window)
  }

  /** That is, to each bin from the bin of the first sample to the bin of the last. */
  lemma ResampledMeans(rows: seq<Row>, window: int, at: int, agg: Aggregate)
    requires window > 0
    ensures Resampled(rows, window, at, agg) ==
            if at % window == 0 && BinBy(rows, window, at) && BinFrom(rows, window, at) then agg(Samples(rows, at, at + window)) else None
  {
    if at % window == 0 {
      forall i | 0 <= i < |rows| && rows[i].time.Some?
        ensures rows[i].time.value < at + window <==> Bin(rows[i].time.value, window) <= at
        ensures at <= rows[i].time.value <==> at <= Bin(rows[i].time.value, window)
      {
        BinSplits(rows[i].time.value, window, at);
      }
    }
  }

  // The last value present among the first n.
  function LastPresent(values: seq<Option<real>>, n: nat): Option<real>
    requires n <= |values|
  {
    if n == 0 then None else if values[n - 1].Some? then values[n - 1] else LastPresent(values, n - 1)
  }

  // The fill rule of one column, applied to the value at position k.
  function FilledAt(fill: Fill, values: seq<Option<real>>, k: nat): Option<real>
    requires k < |values|
  {
    if values[k].Some? then values[k]
    else
      match fill
      case Zero => Some(0.0)
      case Number(v) => Some(v)
      case Forward => LastPresent(values, k)
      case Unfilled => None
      case Unknown => None
  }

  /** Forward filling: the value nearest at or before, if there is one. */
  lemma {:induction false} LastPresentIsLast(values: seq<Option<real>>, n: nat)
    requires n <= |values|
    ensures LastPresent(values, n).None? <==> forall k :: 0 <= k < n ==> values[k].None?
    ensures LastPresent(values, n).Some? ==>
      exists j :: 0 <= j < n && values[j] == LastPresent(values, n) && forall k :: j < k < n ==> values[k].None?
  {
    if n > 0 && values[n - 1].None? {
      LastPresentIsLast(values, n - 1);
    }
  }

  /** What a fill rule asks of position k: a value that is there stays; a missing one becomes zero, the given number
      or the nearest earlier value, or stays missing. */
  ghost predicate FilledBy(fill: Fill, values: seq<Option<real>>, k: nat, filled: Option<real>)
    requires k < |values| && !fill.Unknown?
  {
    if values[k].Some? then filled == values[k]
    else
      match fill
      case Zero => filled == Some(0.0)
      case Number(v) => filled == Some(v)
      case Forward => NearestEarlier(values, k, filled)
      case Unfilled => filled.None?
  }

  ghost predicate NearestEarlier(values: seq<Option<real>>, k: nat, nearest: Option<real>)
    requires k <= |values|
  {
    || (nearest.None? && forall i :: 0 <= i < k ==> values[i].None?)
    || (nearest.Some? && exists j :: 0 <= j < k && values[j] == nearest && forall i :: j < i < k ==> values[i].None?)
  }

  lemma FilledAtMeans(fill: Fill, values: seq<Option<real>>, k: nat)
    requires k < |values| && !fill.Unknown?
    ensures FilledBy(fill, values, k, FilledAt(fill, values, k))
  {
    LastPresentIsLast(values, k);
  }

  /** The rule of one column; None when no rules are given. */
  method ApplyFillRules(values: seq<Option<real>>, fill: Option<Fill>) returns (r: Result<seq<Option<real>>, FillError>)
    ensures r.Err? <==> fill.None? || fill.value.Unknown?
    ensures r.Err? ==> r.error == if fill.None? then NoFillRules else UnknownRule
    ensures r.Ok? ==> |r.value| == |values| && forall k :: 0 <= k < |values| ==> r.value[k] == FilledAt(fill.value, values, k)
    ensures r.Ok? ==> forall k :: 0 <= k < |values| ==> FilledBy(fill.value, values, k, r.value[k])
  {
    if fill.None? {
      return Err(NoFillRules);
    }
    if fill.value.Unknown? {
      return Err(UnknownRule);
    }
    forall k | 0 <= k < |values|
      ensures FilledBy(fill.value, values, k, FilledAt(fill.value, values, k))
    {
      FilledAtMeans(fill.value, values, k);
    }
    return Ok(seq(|values|, k requires 0 <= k < |values| => FilledAt(fill.value, values, k)));
  }

  /** A column of an aggregation: its windows, their aggregate and how they are filled, if they are. */
  datatype Plan = Plan(window: int, start: int, end: int, agg: Aggregate, impute: bool, fill: Option<Fill>)

  function Raw(rows: seq<Row>, p: Plan): (values: seq<Option<real>>)
    requires p.window > 0
    ensures |values| == WindowCount(p.window, p.start, p.end)
    ensures forall k :: 0 <= k < |values| ==> values[k] == Resampled(rows, p.window, p.start + k * p.window, p.agg)
  {
    seq(WindowCount(p.window, p.start, p.end), k => Resampled(rows, p.window, p.start + k * p.window, p.agg))
  }

  predicate BadFill(p: Plan) { p.impute && (p.fill.None? || p.fill.value.Unknown?) }

  function ValueAt(rows: seq<Row>, p: Plan, k: nat): Option<real>
    requires p.window > 0 && !BadFill(p) && k < WindowCount(p.window, p.start, p.end)
  {
    if p.impute then FilledAt(p.fill.value, Raw(rows, p), k) else Raw(rows, p)[k]
  }

  ghost predicate Aggregated(rows: seq<Row>, p: Plan, windows: seq<Window>)
    requires p.window > 0 && !BadFill(p)
  {
    && |windows| == (if AnyTime(rows) then WindowCount(p.window, p.start, p.end) else 0)
    && forall k :: 0 <= k < |windows| ==> windows[k] == Window(p.start + k * p.window, ValueAt(rows, p, k))
  }

  // list(range(start, end, window)), or the start alone when the end is not after it.
  method WindowStarts(window: int, start: int, end: int) returns (starts: seq<int>)
    requires window > 0
    ensures |starts| == WindowCount(window, start, end)
    ensures forall k :: 0 <= k < |starts| ==> starts[k] == start + k * window
  {
    if end <= start {
      return [start];
    }
    starts := [];
    var at := start;
    while at < end
      invariant at == start + |starts| * window
      invariant Starts(window, end, start) == |starts| + Starts(window, end, at)
      invariant forall k :: 0 <= k < |starts| ==> starts[k] == start + k * window
      decreases end - at
    {
      assert (|starts| + 1) * window == |starts| * window + window;
      starts := starts + [at];
      at := at + window;
    }
  }

  /** aggregate_time_windows for one column. A trace without a single time gives no window at all, and then no
      error either, where any other trace gives all the windows of the interval. */
  method AggregateTimeWindows(rows: seq<Row>, p: Plan) returns (r: Result<seq<Window>, FillError>)
    requires p.window > 0
    ensures r.Err? <==> AnyTime(rows) && BadFill(p)
    ensures !AnyTime(rows) ==> r == Ok([])
    ensures r.Ok? && !BadFill(p) ==> Aggregated(rows, p, r.value)
  {
    if !AnyTime(rows) {
      return Ok([]);
    }
    var starts := WindowStarts(p.window, p.start, p.end);
    var values := Raw(rows, p);
    if p.impute {
      var filled := ApplyFillRules(values, p.fill);
      if filled.Err? {
        return Err(filled.error);
      }
      values := filled.value;
    }
    return Ok(seq(|starts|, k requires 0 <= k < |starts| => Window(starts[k], values[k])));
  }

  // ---------- sums with zero fill ----------

  // A sum skips missing values.
  function Amount(r: Row): real { if r.value.Some? then r.value.value else 0.0 }

  /** The sum of the samples with lo <= time < hi. */
  function Total(rows: seq<Row>, lo: int, hi: int): real {
    if rows == [] then 0.0
    else
      var r := rows[|rows| - 1];
      Total(rows[..|rows| - 1], lo, hi) + if Within(r, lo, hi) then Amount(r) else 0.0
  }

  function Summing(): Aggregate { xs => Some(Sum(xs)) }

  // A summed column filled with zero, from time 0.
  function SumPlan(window: int, end: int): Plan { Plan(window, 0, end, Summing(), true, Some(Zero)) }

  lemma {:induction false} TotalAddsSamples(rows: seq<Row>, lo: int, hi: int)
    ensures Sum(Samples(rows, lo, hi)) == Total(rows, lo, hi)
  {
    if rows != [] {
      var front, r := rows[..|rows| - 1], rows[|rows| - 1];
      TotalAddsSamples(front, lo, hi);
      if Within(r, lo, hi) && r.value.Some? {
        assert (Samples(front, lo, hi) + [r.value.value])[..|Samples(front, lo, hi)|] == Samples(front, lo, hi);
      } else {
        assert Samples(rows, lo, hi) == Samples(front, lo, hi);
      }
    }
  }

  lemma {:induction false} NothingIn(rows: seq<Row>, lo: int, hi: int)
    requires forall i :: 0 <= i < |rows| ==> !Within(rows[i], lo, hi)
    ensures Total(rows, lo, hi) == 0.0
  {
    if rows != [] {
      NothingIn(rows[..|rows| - 1], lo, hi);
    }
  }

  lemma Multiple(k: nat, window: int)
    requires window > 0
    ensures (k * window) % window == 0
  {
    SlotArithmetic.ModUnique(k * window, window, k, 0);
  }

  /** Each window of a summed column holds the sum of its samples, also outside the resampled range. */
  lemma SumWindowIsTotal(rows: seq<Row>, window: int, end: int, k: nat)
    requires window > 0 && k < WindowCount(window, 0, end)
    ensures ValueAt(rows, SumPlan(window, end), k) == Some(Total(rows, k * window, k * window + window))
  {
    var at := k * window;
    Multiple(k, window);
    TotalAddsSamples(rows, at, at + window);
    if Resampled(rows, window, at, Summing()).None? {
      NothingIn(rows, at, at + window);
    }
  }

  lemma {:induction false} TotalSplits(rows: seq<Row>, lo: int, mid: int, hi: int)
    requires lo <= mid <= hi
    ensures Total(rows, lo, hi) == Total(rows, lo, mid) + Total(rows, mid, hi)
  {
    if rows != [] {
      TotalSplits(rows[..|rows| - 1], lo, mid, hi);
    }
  }

  function Summed(windows: seq<Window>): real {
    if windows == [] then 0.0
    else
      var v := windows[|windows| - 1].value;
      Summed(windows[..|windows| - 1]) + if v.Some? then v.value else 0.0
  }

  // The start of window k, from 0 on by steps.
  function StartOf(window: int, k: nat): int { if k == 0 then 0 else StartOf(window, k - 1) + window }

  lemma {:induction false} StartIsMultiple(window: int, k: nat)
    ensures StartOf(window, k) == k * window
  {
    if k > 0 {
      StartIsMultiple(window, k - 1);
      assert k * window == (k - 1) * window + window;
    }
  }

  /** The sum of the samples of window k. */
  function TotalIn(rows: seq<Row>, window: int, k: nat): real {
    Total(rows, StartOf(window, k), StartOf(window, k) + window)
  }

  /** The windows of a summed column. */
  ghost predicate Sums(rows: seq<Row>, window: int, end: int, windows: seq<Window>)
    requires window > 0
  {
    && |windows| == (if AnyTime(rows) then WindowCount(window, 0, end) else 0)
    && forall k :: 0 <= k < |windows| ==> windows[k].value == Some(TotalIn(rows, window, k))
  }

  lemma AggregatedSums(rows: seq<Row>, window: int, end: int, windows: seq<Window>)
    requires window > 0 && Aggregated(rows, SumPlan(window, end), windows)
    ensures Sums(rows, window, end, windows)
  {
    forall k | 0 <= k < |windows|
      ensures windows[k].value == Some(TotalIn(rows, window, k))
    {
      StartIsMultiple(window, k);
      SumWindowIsTotal(rows, window, end, k);
    }
  }

  lemma {:induction false} FirstWindows(rows: seq<Row>, window: int, end: int, windows: seq<Window>, n: nat, at: int)
    requires window > 0 && Sums(rows, window, end, windows) && n <= |windows| && at == StartOf(window, n)
    ensures Summed(windows[..n]) == Total(rows, 0, at)
  {
    if n == 0 {
      NothingIn(rows, 0, 0);
    } else {
      var m, lo := n - 1, at - window;
      StartIsMultiple(window, m);
      assert 0 <= m * window;
      FirstWindows(rows, window, end, windows, m, lo);
      OneWindowMore(windows, m);
      TotalSplits(rows, 0, lo, at);
    }
  }

  lemma OneWindowMore(windows: seq<Window>, m: nat)
    requires m < |windows| && windows[m].value.Some?
    ensures Summed(windows[..m + 1]) == Summed(windows[..m]) + windows[m].value.value
  {
    assert windows[..m + 1][..m] == windows[..m];
  }

  /** The windows together hold every sample from time 0 to the end of the last window, once. */
  lemma WindowsConserve(rows: seq<Row>, window: int, end: int, windows: seq<Window>)
    requires window > 0 && Aggregated(rows, SumPlan(window, end), windows)
    ensures Summed(windows) == Total(rows, 0, |windows| * window)
  {
    AggregatedSums(rows, window, end, windows);
    StartIsMultiple(window, |windows|);
    FirstWindows(rows, window, end, windows, |windows|, |windows| * window);
    assert windows[..|windows|] == windows;
  }

  // ---------- conservation over the RNTIs of a cell ----------

  // The rows of one RNTI; None collects the rows whose RNTI is missing, which no group takes.
  function Group(rows: seq<Row>, rnti: Option<int>): seq<Row> {
    if rows == [] then []
    else
      var r := rows[|rows| - 1];
      Group(rows[..|rows| - 1], rnti) + if r.rnti == rnti then [r] else []
  }

  // The known RNTIs, in order of first appearance.
  function Rntis(rows: seq<Row>): seq<int> {
    if rows == [] then []
    else
      var seen, r := Rntis(rows[..|rows| - 1]), rows[|rows| - 1];
      if r.rnti.Some? && r.rnti.value !in seen then seen + [r.rnti.value] else seen
  }

  lemma {:induction false} RntisAreDistinct(rows: seq<Row>)
    ensures forall i, j :: 0 <= i < j < |Rntis(rows)| ==> Rntis(rows)[i] != Rntis(rows)[j]
    ensures forall i :: 0 <= i < |rows| && rows[i].rnti.Some? ==> rows[i].rnti.value in Rntis(rows)
  {
    if rows != [] {
      RntisAreDistinct(rows[..|rows| - 1]);
    }
  }

  function GroupTotals(rows: seq<Row>, rntis: seq<int>, lo: int, hi: int): real {
    if rntis == [] then 0.0
    else
      var n := |rntis| - 1;
      GroupTotals(rows, rntis[..n], lo, hi) + Total(Group(rows, Some(rntis[n])), lo, hi)
  }

  lemma GroupOneMore(front: seq<Row>, r: Row, rnti: Option<int>, lo: int, hi: int)
    ensures Total(Group(front + [r], rnti), lo, hi)
         == Total(Group(front, rnti), lo, hi) + if r.rnti == rnti && Within(r, lo, hi) then Amount(r) else 0.0
  {
    assert (front + [r])[..|front|] == front;
    if r.rnti == rnti {
      assert (Group(front, rnti) + [r])[..|Group(front, rnti)|] == Group(front, rnti);
    } else {
      assert Group(front + [r], rnti) == Group(front, rnti);
    }
  }

  lemma {:induction false} GroupsOneMore(front: seq<Row>, r: Row, rntis: seq<int>, lo: int, hi: int)
    requires forall i, j :: 0 <= i < j < |rntis| ==> rntis[i] != rntis[j]
    ensures GroupTotals(front + [r], rntis, lo, hi)
         == GroupTotals(front, rntis, lo, hi)
          + if r.rnti.Some? && r.rnti.value in rntis && Within(r, lo, hi) then Amount(r) else 0.0
  {
    if rntis != [] {
      var n := |rntis| - 1;
      GroupsOneMore(front, r, rntis[..n], lo, hi);
      GroupOneMore(front, r, Some(rntis[n]), lo, hi);
      assert rntis == rntis[..n] + [rntis[n]];
    }
  }

  lemma {:induction false} UnseenGroupIsEmpty(rows: seq<Row>, rnti: int, lo: int, hi: int)
    requires rnti !in Rntis(rows)
    ensures Total(Group(rows, Some(rnti)), lo, hi) == 0.0
  {
    if rows != [] {
      var front := rows[..|rows| - 1];
      UnseenGroupIsEmpty(front, rnti, lo, hi);
      assert rows == front + [rows[|rows| - 1]];
      GroupOneMore(front, rows[|rows| - 1], Some(rnti), lo, hi);
    }
  }

  // One row more, and the RNTIs it may add.
  lemma RntisOneMore(front: seq<Row>, r: Row, lo: int, hi: int)
    ensures var known := r.rnti.Some? && Within(r, lo, hi);
            GroupTotals(front + [r], Rntis(front + [r]), lo, hi)
            == GroupTotals(front, Rntis(front), lo, hi) + if known then Amount(r) else 0.0
  {
    var all := front + [r];
    assert all[..|front|] == front;
    RntisAreDistinct(all);
    GroupsOneMore(front, r, Rntis(all), lo, hi);
    if Rntis(all) != Rntis(front) {
      assert Rntis(all)[..|Rntis(front)|] == Rntis(front);
      UnseenGroupIsEmpty(front, r.rnti.value, lo, hi);
    }
    assert r.rnti.Some? ==> all[|front|].rnti.value in Rntis(all);
  }

  /** In every stretch of time the total of the cell is the sum of the totals of its RNTIs and of the rows
      without one; so the two agree when every row has an RNTI. */
  lemma {:induction false} CellTotalIsSumOfRntis(rows: seq<Row>, lo: int, hi: int)
    ensures Total(rows, lo, hi) == GroupTotals(rows, Rntis(rows), lo, hi) + Total(Group(rows, None), lo, hi)
  {
    if rows != [] {
      var front, r := rows[..|rows| - 1], rows[|rows| - 1];
      assert rows == front + [r];
      CellTotalIsSumOfRntis(front, lo, hi);
      RntisOneMore(front, r, lo, hi);
      GroupOneMore(front, r, None, lo, hi);
    }
  }

  // ---------- the windows of a cell and of its RNTIs ----------

  /** The loop over the RNTIs of a trace, each aggregated on its own rows. */
  method AggregatePerRnti(rows: seq<Row>, p: Plan) returns (r: Result<map<int, seq<Window>>, FillError>)
    requires p.window > 0
    ensures !BadFill(p) ==> r.Ok? && PerRnti(rows, p, r.value)
    ensures BadFill(p) ==> (r.Err? <==> exists u :: u in Rntis(rows) && AnyTime(Group(rows, Some(u))))
  {
    var perRnti: map<int, seq<Window>> := map[];
    var rntis := Rntis(rows);
    for i := 0 to |rntis|
      invariant forall u :: u in perRnti <==> u in rntis[..i]
      invariant !BadFill(p) ==> forall u :: u in perRnti ==> Aggregated(Group(rows, Some(u)), p, perRnti[u])
      invariant BadFill(p) ==> forall u :: u in rntis[..i] ==> !AnyTime(Group(rows, Some(u)))
    {
      var u := rntis[i];
      assert u in Rntis(rows);
      var windows := AggregateTimeWindows(Group(rows, Some(u)), p);
      if windows.Err? {
        return Err(windows.error);
      }
      perRnti := perRnti[u := windows.value];
    }
    assert rntis[..|rntis|] == rntis;
    return Ok(perRnti);
  }

  ghost predicate PerRnti(rows: seq<Row>, p: Plan, perRnti: map<int, seq<Window>>)
    requires p.window > 0 && !BadFill(p)
  {
    && (forall u :: u in perRnti <==> u in Rntis(rows))
    && forall u :: u in perRnti ==> Aggregated(Group(rows, Some(u)), p, perRnti[u])
  }

  // What an RNTI adds to window k; one without a time in the trace has no windows.
  function Share(windows: seq<Window>, k: nat): real {
    if k < |windows| && windows[k].value.Some? then windows[k].value.value else 0.0
  }

  function Shares(perRnti: map<int, seq<Window>>, rntis: seq<int>, k: nat): real {
    if rntis == [] then 0.0
    else
      var u := rntis[|rntis| - 1];
      Shares(perRnti, rntis[..|rntis| - 1], k) + if u in perRnti then Share(perRnti[u], k) else 0.0
  }

  lemma ShareIsTotal(rows: seq<Row>, window: int, end: int, windows: seq<Window>, k: nat, at: int)
    requires window > 0 && Sums(rows, window, end, windows) && k < WindowCount(window, 0, end) && at == StartOf(window, k)
    ensures Share(windows, k) == Total(rows, at, at + window)
  {
    if !AnyTime(rows) {
      NothingIn(rows, at, at + window);
    }
  }

  /** The windows of some RNTIs for a summed column. */
  ghost predicate RntiSums(rows: seq<Row>, window: int, end: int, perRnti: map<int, seq<Window>>, rntis: seq<int>)
    requires window > 0
    decreases |rntis|
  {
    rntis == [] ||
      var n := |rntis| - 1;
      && RntiSums(rows, window, end, perRnti, rntis[..n])
      && rntis[n] in perRnti && Sums(Group(rows, Some(rntis[n])), window, end, perRnti[rntis[n]])
  }

  lemma {:induction false} PerRntiSums(rows: seq<Row>, window: int, end: int, perRnti: map<int, seq<Window>>, rntis: seq<int>)
    requires window > 0 && PerRnti(rows, SumPlan(window, end), perRnti)
    requires forall i :: 0 <= i < |rntis| ==> rntis[i] in perRnti
    ensures RntiSums(rows, window, end, perRnti, rntis)
    decreases |rntis|
  {
    if rntis != [] {
      var u := rntis[|rntis| - 1];
      PerRntiSums(rows, window, end, perRnti, rntis[..|rntis| - 1]);
      AggregatedSums(Group(rows, Some(u)), window, end, perRnti[u]);
    }
  }

  lemma {:induction false} SharesAreGroupTotals(rows: seq<Row>, window: int, end: int, perRnti: map<int, seq<Window>>,
                                                rntis: seq<int>, k: nat, at: int)
    requires window > 0 && RntiSums(rows, window, end, perRnti, rntis) && k < WindowCount(window, 0, end) && at == StartOf(window, k)
    ensures Shares(perRnti, rntis, k) == GroupTotals(rows, rntis, at, at + window)
    decreases |rntis|
  {
    if rntis != [] {
      var u := rntis[|rntis| - 1];
      SharesAreGroupTotals(rows, window, end, perRnti, rntis[..|rntis| - 1], k, at);
      ShareIsTotal(Group(rows, Some(u)), window, end, perRnti[u], k, at);
    }
  }

  // The value of a cell in window k is made up of its RNTIs and of the rows without one.
  ghost predicate MadeUp(rows: seq<Row>, rntis: seq<int>, window: int, value: Option<real>, perRnti: map<int, seq<Window>>, k: nat) {
    value == Some(Shares(perRnti, rntis, k) + TotalIn(Group(rows, None), window, k))
  }

  lemma SharesMakeUp(rows: seq<Row>, rntis: seq<int>, window: int, value: Option<real>, perRnti: map<int, seq<Window>>, k: nat, at: int)
    requires value == Some(TotalIn(rows, window, k)) && at == StartOf(window, k)
    requires Shares(perRnti, rntis, k) == GroupTotals(rows, rntis, at, at + window)
    requires Total(rows, at, at + window) == GroupTotals(rows, rntis, at, at + window) + Total(Group(rows, None), at, at + window)
    ensures MadeUp(rows, rntis, window, value, perRnti, k)
  {
  }

  lemma WindowMadeUp(rows: seq<Row>, rntis: seq<int>, window: int, end: int, value: Option<real>, perRnti: map<int, seq<Window>>, k: nat)
    requires window > 0 && RntiSums(rows, window, end, perRnti, rntis) && k < WindowCount(window, 0, end)
    requires rntis == Rntis(rows) && value == Some(TotalIn(rows, window, k))
    ensures MadeUp(rows, rntis, window, value, perRnti, k)
  {
    var at := StartOf(window, k);
    SharesAreGroupTotals(rows, window, end, perRnti, rntis, k, at);
    CellTotalIsSumOfRntis(rows, at, at + window);
    SharesMakeUp(rows, rntis, window, value, perRnti, k, at);
  }

  // The windows of a summed column of a cell.
  method SumWindows(rows: seq<Row>, window: int, end: int) returns (windows: seq<Window>)
    requires window > 0
    ensures Sums(rows, window, end, windows)
  {
    var r := AggregateTimeWindows(rows, SumPlan(window, end));
    windows := r.value;
    AggregatedSums(rows, window, end, windows);
  }

  // The windows of a summed column of each RNTI.
  method SumPerRnti(rows: seq<Row>, window: int, end: int) returns (perRnti: map<int, seq<Window>>)
    requires window > 0
    ensures (forall u :: u in perRnti <==> u in Rntis(rows)) && RntiSums(rows, window, end, perRnti, Rntis(rows))
  {
    var r := AggregatePerRnti(rows, SumPlan(window, end));
    perRnti := r.value;
    ghost var rntis := Rntis(rows);
    forall i | 0 <= i < |rntis|
      ensures rntis[i] in perRnti
    {
      var u := rntis[i];
      assert u in Rntis(rows);
    }
    PerRntiSums(rows, window, end, perRnti, rntis);
  }

  /** A summed column of one trace, for the cell and for each RNTI. In every window the value of the cell is the sum
      of the values of its RNTIs, those without windows adding nothing, plus the samples of the rows without an RNTI. */
  method SumTrace(rows: seq<Row>, window: int, end: int) returns (overall: seq<Window>, perRnti: map<int, seq<Window>>)
    requires window > 0
    ensures Sums(rows, window, end, overall)
    ensures (forall u :: u in perRnti <==> u in Rntis(rows)) && RntiSums(rows, window, end, perRnti, Rntis(rows))
    ensures forall k :: 0 <= k < |overall| ==> MadeUp(rows, Rntis(rows), window, overall[k].value, perRnti, k)
  {
    overall := SumWindows(rows, window, end);
    perRnti := SumPerRnti(rows, window, end);
    forall k | 0 <= k < |overall|
      ensures MadeUp(rows, Rntis(rows), window, overall[k].value, perRnti, k)
    {
      WindowMadeUp(rows, Rntis(rows), window, end, overall[k].value, perRnti, k);
    }
  }
}
