/** The delay statistics of a table: the metric series drawn from it whole or in chunks, and the dominant
    packet size by a counter or by the mode of the column. */
module DelayStatistics {
  import opened Wrappers
  import opened ExpecaCleaning

  datatype Dataset = Sim | Expeca

  datatype Metric = RanDelay | FrameAlignment | SchedulingDelay | QueueingDelay | TxRetxDelay | SegmentationDelay

  const METRICS := [RanDelay, FrameAlignment, SchedulingDelay, QueueingDelay, TxRetxDelay, SegmentationDelay]

  // The simulation's tables hold transmission and retransmission delay as one column, here `tx`.
  function MetricCell(d: Dataset, m: Metric, r: Row): Cell {
    match m
    case RanDelay => r.ran
    case FrameAlignment => r.alignment
    case SchedulingDelay => r.scheduling
    case QueueingDelay => r.queueing
    case TxRetxDelay =>
      if d.Sim? then r.tx
      else if r.tx.Some? && r.retx.Some? then Some(r.tx.value + r.retx.value) else None
    case SegmentationDelay => r.segmentation
  }

  function ValidRows(rows: seq<Row>): seq<Row> {
    if rows == [] then []
    else
      var r := rows[|rows| - 1];
      ValidRows(rows[..|rows| - 1]) + if r.ran.Some? && r.ran.value >= 0.0 then [r] else []
  }

  function Usable(d: Dataset, rows: seq<Row>): seq<Row> {
    ValidRows(if d.Expeca? then Cleaned(rows) else rows)
  }

  // The present values of a column, in table order.
  function Series(cell: Row -> Cell, rows: seq<Row>): seq<real> {
    if rows == [] then []
    else Series(cell, rows[..|rows| - 1]) + if cell(rows[|rows| - 1]).Some? then [cell(rows[|rows| - 1]).value] else []
  }

  function CellOf(d: Dataset, m: Metric): Row -> Cell { r => MetricCell(d, m, r) }

  function MetricSeries(d: Dataset, m: Metric, rows: seq<Row>): seq<real> { Series(CellOf(d, m), Usable(d, rows)) }

  function SegmentSeries(d: Dataset, rows: seq<Row>): seq<real> { Series((r: Row) => r.rlc, Usable(d, rows)) }

  function SizeSeries(d: Dataset, rows: seq<Row>): seq<real> { Series((r: Row) => r.length, Usable(d, rows)) }

  /** Of the rows kept with a delay, the segment counts are the RLC attempts and the sizes the packet lengths. */
  lemma OneRowCounts(d: Dataset, r: Row, x: real)
    ensures SegmentSeries(d, [r]) == [x] <==> KeptWith(d, r) && CleanedOf(d, r).rlc == Some(x)
    ensures SizeSeries(d, [r]) == [x] <==> KeptWith(d, r) && CleanedOf(d, r).length == Some(x)
  {
    UsableOne(d, r);
    OneCell((r: Row) => r.rlc, CleanedOf(d, r));
    OneCell((r: Row) => r.length, CleanedOf(d, r));
  }

  function Concat(chunks: seq<seq<Row>>): seq<Row> {
    if chunks == [] then [] else Concat(chunks[..|chunks| - 1]) + chunks[|chunks| - 1]
  }

  lemma RowByRowLast(f: Row -> Option<Row>, front: seq<Row>, r: Row)
    ensures RowByRow(f, front + [r]) == RowByRow(f, front) + Kept(f(r))
  {
    assert (front + [r])[..|front|] == front;
  }

  lemma {:induction false} RowByRowSplits(f: Row -> Option<Row>, a: seq<Row>, b: seq<Row>)
    ensures RowByRow(f, a + b) == RowByRow(f, a) + RowByRow(f, b)
  {
    if b == [] {
      assert a + b == a;
    } else {
      var front, r := b[..|b| - 1], b[|b| - 1];
      assert b == front + [r] && a + b == (a + front) + [r];
      RowByRowSplits(f, a, front);
      RowByRowLast(f, front, r);
      RowByRowLast(f, a + front, r);
    }
  }

  lemma {:induction false} ValidRowsSplit(a: seq<Row>, b: seq<Row>)
    ensures ValidRows(a + b) == ValidRows(a) + ValidRows(b)
  {
    if b == [] {
      assert a + b == a;
    } else {
      ValidRowsSplit(a, b[..|b| - 1]);
      assert (a + b)[..|a + b| - 1] == a + b[..|b| - 1];
    }
  }

  lemma {:induction false} SeriesSplits(cell: Row -> Cell, a: seq<Row>, b: seq<Row>)
    ensures Series(cell, a + b) == Series(cell, a) + Series(cell, b)
  {
    if b == [] {
      assert a + b == a;
    } else {
      SeriesSplits(cell, a, b[..|b| - 1]);
      assert (a + b)[..|a + b| - 1] == a + b[..|b| - 1];
    }
  }

  /** Reading a table in two parts draws the same series of any column as reading it whole. */
  lemma UsableSeriesSplit(d: Dataset, cell: Row -> Cell, a: seq<Row>, b: seq<Row>)
    ensures Series(cell, Usable(d, a + b)) == Series(cell, Usable(d, a)) + Series(cell, Usable(d, b))
  {
    RowByRowSplits(CleanRow, a, b);
    ValidRowsSplit(if d.Expeca? then Cleaned(a) else a, if d.Expeca? then Cleaned(b) else b);
    SeriesSplits(cell, Usable(d, a), Usable(d, b));
  }

  ghost predicate KeptWith(d: Dataset, r: Row) {
    (d.Expeca? ==> CleanRow(r).Some?) && CleanedOf(d, r).ran.Some? && CleanedOf(d, r).ran.value >= 0.0
  }

  // The row as cleaned, where its table is cleaned and keeps it.
  ghost function CleanedOf(d: Dataset, r: Row): Row { if d.Expeca? && CleanRow(r).Some? then CleanRow(r).value else r }

  lemma OneCell(cell: Row -> Cell, r: Row)
    ensures Series(cell, [r]) == if cell(r).Some? then [cell(r).value] else []
  {
    assert [r][..0] == [];
  }

  lemma OneValid(r: Row)
    ensures ValidRows([r]) == if r.ran.Some? && r.ran.value >= 0.0 then [r] else []
  {
    assert [r][..0] == [];
  }

  lemma CleanedOne(r: Row)
    ensures Cleaned([r]) == Kept(CleanRow(r))
  {
    RowByRowLast(CleanRow, [], r);
    assert [] + [r] == [r];
  }

  lemma UsableOne(d: Dataset, r: Row)
    ensures Usable(d, [r]) == if KeptWith(d, r) then [CleanedOf(d, r)] else []
  {
    CleanedOne(r);
    OneValid(CleanedOf(d, r));
  }

  /** A row of the table as read measures x: it is kept and repaired by the cleaning, where there is one, its delay is
      not negative, and the metric's own column holds x. */
  ghost predicate Measures(d: Dataset, m: Metric, r: Row, x: real) {
    KeptWith(d, r) && InColumn(d, m, CleanedOf(d, r), x)
  }

  ghost predicate InColumn(d: Dataset, m: Metric, r: Row, x: real) {
    && (m == RanDelay ==> r.ran == Some(x))
    && (m == FrameAlignment ==> r.alignment == Some(x))
    && (m == SchedulingDelay ==> r.scheduling == Some(x))
    && (m == QueueingDelay ==> r.queueing == Some(x))
    && (m == TxRetxDelay && d == Sim ==> r.tx == Some(x))
    && (m == TxRetxDelay && d == Expeca ==> r.tx.Some? && r.retx.Some? && r.tx.value + r.retx.value == x)
    && (m == SegmentationDelay ==> r.segmentation == Some(x))
  }

  ghost predicate MeasuresNothing(d: Dataset, m: Metric, r: Row) { forall x :: !Measures(d, m, r, x) }

  /** The series of one row is its measured value, if it has one; with `UsableSeriesSplit` this decides every series. */
  lemma OneRowSeries(d: Dataset, m: Metric, r: Row)
    ensures forall x :: MetricSeries(d, m, [r]) == [x] <==> Measures(d, m, r, x)
    ensures MeasuresNothing(d, m, r) <==> MetricSeries(d, m, [r]) == []
  {
    UsableOne(d, r);
    OneCell(CellOf(d, m), CleanedOf(d, r));
    var cell := MetricCell(d, m, CleanedOf(d, r));
    assert forall x :: cell == Some(x) <==> InColumn(d, m, CleanedOf(d, r), x);
    assert cell.Some? ==> InColumn(d, m, CleanedOf(d, r), cell.value);
  }

  ghost predicate Holds(d: Dataset, m: Metric, rows: seq<Row>, series: map<Metric, seq<real>>) {
    m in series && series[m] == MetricSeries(d, m, rows)
  }

  // One metric of one chunk.
  method AppendMetric(d: Dataset, m: Metric, ghost before: seq<Row>, chunk: seq<Row>, series: map<Metric, seq<real>>)
    returns (next: map<Metric, seq<real>>)
    requires Holds(d, m, before, series)
    ensures Holds(d, m, before + chunk, next)
    ensures next.Keys == series.Keys && forall o :: o in series && o != m ==> next[o] == series[o]
  {
    UsableSeriesSplit(d, CellOf(d, m), before, chunk);
    next := series[m := series[m] + MetricSeries(d, m, chunk)];
  }

  method AppendMetrics(d: Dataset, metrics: seq<Metric>, ghost before: seq<Row>, chunk: seq<Row>, series: map<Metric, seq<real>>)
    returns (next: map<Metric, seq<real>>)
    requires forall i, k :: 0 <= i < k < |metrics| ==> metrics[i] != metrics[k]
    requires forall k :: 0 <= k < |metrics| ==> Holds(d, metrics[k], before, series)
    ensures forall k :: 0 <= k < |metrics| ==> Holds(d, metrics[k], before + chunk, next)
  {
    next := series;
    ghost var all := before + chunk;
    for i := 0 to |metrics|
      invariant forall k :: i <= k < |metrics| ==> Holds(d, metrics[k], before, next)
      invariant forall k :: 0 <= k < i ==> Holds(d, metrics[k], all, next)
    {
      next := AppendMetric(d, metrics[i], before, chunk, next);
    }
  }

  // ---------- counting packet sizes ----------

  /** Values with their counts, in order of first appearance. */
  type Counter = seq<(real, nat)>

  function Bump(c: Counter, v: real): Counter {
    if c == [] then [(v, 1)]
    else if c[0].0 == v then [(v, c[0].1 + 1)] + c[1..]
    else [c[0]] + Bump(c[1..], v)
  }

  function Updated(c: Counter, xs: seq<real>): Counter {
    if xs == [] then c else Bump(Updated(c, xs[..|xs| - 1]), xs[|xs| - 1])
  }

  function Tally(xs: seq<real>): Counter { Updated([], xs) }

  lemma {:induction false} TallyGoesOn(a: seq<real>, b: seq<real>)
    ensures Updated(Tally(a), b) == Tally(a + b)
  {
    if b == [] {
      assert a + b == a;
    } else {
      var front := b[..|b| - 1];
      TallyGoesOn(a, front);
      assert (a + b)[..|a + b| - 1] == a + front;
    }
  }

  // The first entry with the greatest count.
  function MostCommon(c: Counter): (real, nat)
    requires c != []
  {
    var last := c[|c| - 1];
    if |c| == 1 then last
    else
      var m := MostCommon(c[..|c| - 1]);
      if last.1 > m.1 then last else m
  }

  // The entry of the smallest value among those with the greatest count.
  function SmallestMode(c: Counter): (real, nat)
    requires c != []
  {
    var last := c[|c| - 1];
    if |c| == 1 then last
    else
      var m := SmallestMode(c[..|c| - 1]);
      if last.1 > m.1 || (last.1 == m.1 && last.0 < m.0) then last else m
  }

  // ---------- what a counter holds ----------

  function First(xs: seq<real>, v: real): (i: nat)
    requires v in xs
    ensures i < |xs| && xs[i] == v && v !in xs[..i]
    decreases |xs|
  {
    if v in xs[..|xs| - 1] then First(xs[..|xs| - 1], v) else |xs| - 1
  }

  function Times(xs: seq<real>, v: real): nat {
    if xs == [] then 0 else Times(xs[..|xs| - 1], v) + if xs[|xs| - 1] == v then 1 else 0
  }

  // Entry a of a tally: a value of the list with the number of its occurrences.
  ghost predicate EntryOf(xs: seq<real>, e: (real, nat)) { e.0 in xs && e.1 == Times(xs, e.0) }

  // The entries in order of first appearance.
  ghost predicate Tallies(c: Counter, xs: seq<real>) {
    && (forall a :: 0 <= a < |c| ==> EntryOf(xs, c[a]))
    && (forall a, b :: 0 <= a < b < |c| ==> c[a].0 in xs && c[b].0 in xs && First(xs, c[a].0) < First(xs, c[b].0))
    && (forall v :: v in xs ==> exists a :: 0 <= a < |c| && c[a].0 == v)
  }

  // Bump changes the count of the entry of v, or appends one.
  lemma {:induction false} BumpIs(c: Counter, v: real)
    requires forall a, b :: 0 <= a < b < |c| ==> c[a].0 != c[b].0
    ensures |Bump(c, v)| == |c| + if exists a :: 0 <= a < |c| && c[a].0 == v then 0 else 1
    ensures forall a :: 0 <= a < |c| ==> Bump(c, v)[a] == if c[a].0 == v then (v, c[a].1 + 1) else c[a]
    ensures |Bump(c, v)| > |c| ==> Bump(c, v)[|c|] == (v, 1)
  {
    if c != [] && c[0].0 != v {
      BumpIs(c[1..], v);
      assert forall a :: 0 <= a < |c| - 1 ==> c[1..][a] == c[a + 1];
    }
  }

  lemma OneMore(xs: seq<real>, x: real, v: real)
    ensures Times(xs + [x], v) == Times(xs, v) + if v == x then 1 else 0
    ensures v in xs ==> First(xs + [x], v) == First(xs, v)
    ensures v !in xs && v == x ==> First(xs + [x], v) == |xs|
  {
    assert (xs + [x])[..|xs|] == xs;
  }

  lemma {:induction false} NeverTimes(xs: seq<real>, v: real)
    requires v !in xs
    ensures Times(xs, v) == 0
  {
    if xs != [] {
      NeverTimes(xs[..|xs| - 1], v);
    }
  }

  lemma EntriesDiffer(c: Counter, xs: seq<real>)
    requires Tallies(c, xs)
    ensures forall a, b :: 0 <= a < b < |c| ==> c[a].0 != c[b].0
  {
    forall a, b | 0 <= a < b < |c|
      ensures c[a].0 != c[b].0
    {
      assert First(xs, c[a].0) < First(xs, c[b].0);
    }
  }

  lemma BumpEntry(c: Counter, xs: seq<real>, x: real, a: nat)
    requires Tallies(c, xs) && a < |Bump(c, x)|
    ensures EntryOf(xs + [x], Bump(c, x)[a])
    ensures a < |c| ==> Bump(c, x)[a].0 == c[a].0 && c[a].0 in xs
    ensures a >= |c| ==> a == |c| && Bump(c, x)[a].0 == x && x !in xs
  {
    EntriesDiffer(c, xs);
    BumpIs(c, x);
    OneMore(xs, x, Bump(c, x)[a].0);
    if a < |c| {
      assert EntryOf(xs, c[a]);
    } else {
      NeverTimes(xs, x);
    }
  }

  lemma BumpOrder(c: Counter, xs: seq<real>, x: real, a: nat, b: nat)
    requires Tallies(c, xs) && a < b < |Bump(c, x)|
    ensures var d, all := Bump(c, x), xs + [x];
            d[a].0 in all && d[b].0 in all && First(all, d[a].0) < First(all, d[b].0)
  {
    BumpEntry(c, xs, x, a);
    BumpEntry(c, xs, x, b);
    OneMore(xs, x, Bump(c, x)[a].0);
    OneMore(xs, x, Bump(c, x)[b].0);
  }

  lemma BumpHas(c: Counter, xs: seq<real>, x: real, v: real)
    requires Tallies(c, xs) && v in xs + [x]
    ensures exists a :: 0 <= a < |Bump(c, x)| && Bump(c, x)[a].0 == v
  {
    EntriesDiffer(c, xs);
    BumpIs(c, x);
    if v in xs {
      var a :| 0 <= a < |c| && c[a].0 == v;
      assert Bump(c, x)[a].0 == v;
    }
  }

  lemma BumpTallies(c: Counter, xs: seq<real>, x: real)
    requires Tallies(c, xs)
    ensures Tallies(Bump(c, x), xs + [x])
  {
    var d, all := Bump(c, x), xs + [x];
    forall a | 0 <= a < |d|
      ensures EntryOf(all, d[a])
    {
      BumpEntry(c, xs, x, a);
    }
    forall a, b | 0 <= a < b < |d|
      ensures d[a].0 in all && d[b].0 in all && First(all, d[a].0) < First(all, d[b].0)
    {
      BumpOrder(c, xs, x, a, b);
    }
    forall v | v in all
      ensures exists a :: 0 <= a < |d| && d[a].0 == v
    {
      BumpHas(c, xs, x, v);
    }
  }

  lemma TallyLast(front: seq<real>, x: real)
    ensures Tally(front + [x]) == Bump(Tally(front), x) != []
  {
    assert (front + [x])[..|front|] == front;
  }

  lemma {:induction false} TallyTallies(xs: seq<real>)
    ensures Tallies(Tally(xs), xs) && (Tally(xs) == [] <==> xs == [])
  {
    if xs != [] {
      var front, x := xs[..|xs| - 1], xs[|xs| - 1];
      TallyTallies(front);
      assert xs == front + [x];
      TallyLast(front, x);
      BumpTallies(Tally(front), front, x);
    }
  }

  lemma {:induction false} MostCommonIs(c: Counter) returns (a: nat)
    requires c != []
    ensures a < |c| && c[a] == MostCommon(c)
    ensures forall b :: 0 <= b < |c| ==> c[b].1 <= c[a].1 && (b < a ==> c[b].1 < c[a].1)
  {
    if |c| == 1 {
      a := 0;
    } else {
      a := MostCommonIs(c[..|c| - 1]);
      if c[|c| - 1].1 > c[a].1 {
        a := |c| - 1;
      }
    }
  }

  lemma {:induction false} SmallestModeIs(c: Counter) returns (a: nat)
    requires c != []
    ensures a < |c| && c[a] == SmallestMode(c)
    ensures forall b :: 0 <= b < |c| ==> c[b].1 <= c[a].1 && (c[b].1 == c[a].1 ==> c[a].0 <= c[b].0)
  {
    if |c| == 1 {
      a := 0;
    } else {
      a := SmallestModeIs(c[..|c| - 1]);
      var last := c[|c| - 1];
      if last.1 > c[a].1 || (last.1 == c[a].1 && last.0 < c[a].0) {
        a := |c| - 1;
      }
    }
  }

  // ---------- the dominant packet size ----------

  /** v is one of the most frequent values. */
  ghost predicate Modal(xs: seq<real>, v: real) {
    v in xs && forall u :: u in xs ==> Times(xs, u) <= Times(xs, v)
  }

  /** The counter's most common value: of the most frequent ones the first to appear. */
  function CounterSize(xs: seq<real>): Option<real> {
    var c := Tally(xs);
    if c == [] then None else Some(MostCommon(c).0)
  }

  /** The mode of a column: of the most frequent values the smallest. */
  function ModeSize(xs: seq<real>): Option<real> {
    var c := Tally(xs);
    if c == [] then None else Some(SmallestMode(c).0)
  }

  lemma CounterSizeIsFirst(xs: seq<real>)
    ensures CounterSize(xs).None? <==> xs == []
    ensures xs != [] ==> var v := CounterSize(xs).value;
                         Modal(xs, v) && forall u :: Modal(xs, u) ==> First(xs, v) <= First(xs, u)
  {
    var c := Tally(xs);
    TallyTallies(xs);
    if xs != [] {
      assert xs[0] in xs;
      var a := MostCommonIs(c);
      forall u | u in xs
        ensures Times(xs, u) <= Times(xs, c[a].0) && (Times(xs, u) == Times(xs, c[a].0) ==> First(xs, c[a].0) <= First(xs, u))
      {
        var b :| 0 <= b < |c| && c[b].0 == u;
        assert EntryOf(xs, c[a]) && EntryOf(xs, c[b]);
      }
      assert EntryOf(xs, c[a]);
    }
  }

  lemma ModeSizeIsSmallest(xs: seq<real>)
    ensures ModeSize(xs).None? <==> xs == []
    ensures xs != [] ==> var v := ModeSize(xs).value;
                         Modal(xs, v) && forall u :: Modal(xs, u) ==> v <= u
  {
    var c := Tally(xs);
    TallyTallies(xs);
    if xs != [] {
      assert xs[0] in xs;
      var a := SmallestModeIs(c);
      forall u | u in xs
        ensures Times(xs, u) <= Times(xs, c[a].0) && (Times(xs, u) == Times(xs, c[a].0) ==> c[a].0 <= u)
      {
        var b :| 0 <= b < |c| && c[b].0 == u;
        assert EntryOf(xs, c[a]) && EntryOf(xs, c[b]);
      }
      assert EntryOf(xs, c[a]);
    }
  }

  /** One value is both the first to appear and the smallest of the most frequent ones. */
  ghost predicate OneLeads(xs: seq<real>) {
    exists v :: Modal(xs, v) && forall u :: Modal(xs, u) ==> v <= u && First(xs, v) <= First(xs, u)
  }

  lemma FirstDecides(xs: seq<real>, u: real, v: real)
    requires u in xs && v in xs && First(xs, u) == First(xs, v)
    ensures u == v
  {
  }

  /** The two calculations name the same packet size exactly when there is no size or one of the most frequent sizes is
      both the first to appear and the smallest; in particular when there is only one. */
  lemma PacketSizesAgree(xs: seq<real>)
    ensures CounterSize(xs) == ModeSize(xs) <==> xs == [] || OneLeads(xs)
    ensures (forall u, v :: Modal(xs, u) && Modal(xs, v) ==> u == v) ==> CounterSize(xs) == ModeSize(xs)
  {
    CounterSizeIsFirst(xs);
    ModeSizeIsSmallest(xs);
    if xs != [] && OneLeads(xs) {
      var v :| Modal(xs, v) && forall u :: Modal(xs, u) ==> v <= u && First(xs, v) <= First(xs, u);
      FirstDecides(xs, v, CounterSize(xs).value);
    }
  }

  /** On a tie they can differ. */
  lemma TiedPacketSizesDiffer()
    ensures CounterSize([2.0, 1.0]) == Some(2.0) && ModeSize([2.0, 1.0]) == Some(1.0)
  {
    assert [2.0, 1.0][..1] == [2.0] && [2.0][..0] == [];
    assert Tally([2.0, 1.0]) == Bump(Bump([], 2.0), 1.0) == [(2.0, 1), (1.0, 1)];
    assert [(2.0, 1), (1.0, 1)][..1] == [(2.0, 1)];
  }

  // ---------- the two calculations ----------

  /** Quantiles and extrema of a series are computed by a library from the series alone, as is the median. */
  datatype Report<!S> = Report(statistics: map<Metric, Option<S>>, packetSize: Option<real>, median: Option<real>)

  function IfAny<S>(describe: seq<real> -> S, xs: seq<real>): Option<S> {
    if xs == [] then None else Some(describe(xs))
  }

  function Statistics<S>(d: Dataset, rows: seq<Row>, describe: seq<real> -> S): map<Metric, Option<S>> {
    map m | m in METRICS :: IfAny(describe, MetricSeries(d, m, rows))
  }

  /** The calculation on a whole table. */
  function InMemory<S>(d: Dataset, rows: seq<Row>, describe: seq<real> -> S, median: seq<real> -> real): Report<S> {
    Report(Statistics(d, rows, describe), ModeSize(SizeSeries(d, rows)), IfAny(median, SegmentSeries(d, rows)))
  }

  lemma NothingMore(d: Dataset, m: Metric, front: seq<Row>, r: Row)
    ensures MetricSeries(d, m, front + [r]) == [] <==> MetricSeries(d, m, front) == [] && MeasuresNothing(d, m, r)
  {
    OneRowSeries(d, m, r);
    UsableSeriesSplit(d, CellOf(d, m), front, [r]);
  }

  lemma {:induction false} NothingMeasured(d: Dataset, m: Metric, rows: seq<Row>)
    ensures MetricSeries(d, m, rows) == [] <==> forall i :: 0 <= i < |rows| ==> MeasuresNothing(d, m, rows[i])
  {
    if rows == [] {
      assert Cleaned(rows) == [];
    } else {
      var front, r := rows[..|rows| - 1], rows[|rows| - 1];
      NothingMeasured(d, m, front);
      NothingMore(d, m, front, r);
      assert front + [r] == rows;
      assert forall i :: 0 <= i < |front| ==> front[i] == rows[i];
    }
  }

  /** The report has every metric, without statistics exactly when no row measures it. */
  lemma ReportHasMetrics<S>(d: Dataset, rows: seq<Row>, describe: seq<real> -> S, median: seq<real> -> real, m: Metric)
    ensures var statistics := InMemory(d, rows, describe, median).statistics;
            && m in statistics
            && (statistics[m] == None <==> forall i :: 0 <= i < |rows| ==> MeasuresNothing(d, m, rows[i]))
            && (statistics[m] != None ==> statistics[m] == Some(describe(MetricSeries(d, m, rows))))
  {
    assert m == METRICS[0] || m == METRICS[1] || m == METRICS[2] || m == METRICS[3] || m == METRICS[4] || m == METRICS[5];
    NothingMeasured(d, m, rows);
  }

  function Described<S>(series: map<Metric, seq<real>>, describe: seq<real> -> S): map<Metric, Option<S>> {
    map m | m in METRICS && m in series :: IfAny(describe, series[m])
  }

  lemma SameStatistics<S>(d: Dataset, rows: seq<Row>, describe: seq<real> -> S, series: map<Metric, seq<real>>)
    requires forall m :: m in METRICS ==> Holds(d, m, rows, series)
    ensures Described(series, describe) == Statistics(d, rows, describe)
  {
    assert forall m :: m in METRICS ==> m in series by {
      assert forall m :: m in METRICS ==> Holds(d, m, rows, series);
    }
  }

  // What the loop over the chunks has collected from some rows.
  ghost predicate Collected(d: Dataset, rows: seq<Row>, series: map<Metric, seq<real>>, segments: seq<real>, sizes: Counter) {
    && (forall m :: m in METRICS ==> Holds(d, m, rows, series))
    && segments == SegmentSeries(d, rows) && sizes == Tally(SizeSeries(d, rows))
  }

  method CollectChunk(d: Dataset, ghost before: seq<Row>, chunk: seq<Row>, series: map<Metric, seq<real>>, segments: seq<real>, sizes: Counter)
    returns (nextSeries: map<Metric, seq<real>>, nextSegments: seq<real>, nextSizes: Counter)
    requires Collected(d, before, series, segments, sizes)
    ensures Collected(d, before + chunk, nextSeries, nextSegments, nextSizes)
  {
    nextSeries := AppendMetrics(d, METRICS, before, chunk, series);
    nextSegments := segments + SegmentSeries(d, chunk);
    nextSizes := Updated(sizes, SizeSeries(d, chunk));
    UsableSeriesSplit(d, (r: Row) => r.rlc, before, chunk);
    UsableSeriesSplit(d, (r: Row) => r.length, before, chunk);
    TallyGoesOn(SizeSeries(d, before), SizeSeries(d, chunk));
  }

  /** The loop over the chunks, each cleaned and filtered on its own: what it collects is what the whole table holds. */
  method CollectChunked(d: Dataset, chunks: seq<seq<Row>>)
    returns (series: map<Metric, seq<real>>, segments: seq<real>, sizes: Counter)
    ensures Collected(d, Concat(chunks), series, segments, sizes)
  {
    series, segments, sizes := map m | m in METRICS :: [], [], [];
    for i := 0 to |chunks|
      invariant Collected(d, Concat(chunks[..i]), series, segments, sizes)
    {
      assert chunks[..i + 1][..i] == chunks[..i];
      series, segments, sizes := CollectChunk(d, Concat(chunks[..i]), chunks[i], series, segments, sizes);
    }
    assert chunks[..|chunks|] == chunks;
  }

  /** For every way to cut a table into chunks the chunked calculation gives the report of the whole table, with
      the counter's packet size in place of the mode. */
  method CalculateChunked<S>(d: Dataset, chunks: seq<seq<Row>>, describe: seq<real> -> S, median: seq<real> -> real)
    returns (r: Report<S>)
    ensures r == InMemory(d, Concat(chunks), describe, median).(packetSize := CounterSize(SizeSeries(d, Concat(chunks))))
  {
    var series, segments, sizes := CollectChunked(d, chunks);
    SameStatistics(d, Concat(chunks), describe, series);
    r := Report(Described(series, describe),
                if sizes == [] then None else Some(MostCommon(sizes).0),
                IfAny(median, segments));
  }
}
