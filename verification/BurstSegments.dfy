/** Bursts of consecutive packet ids: which of them are complete, how many RLC PDUs carried each, and the
    agreement of the script that writes these counts with the one that reads them. */
module BurstSegments {
  import opened Wrappers
  import RealSeries
  import SlotArithmetic

  // A delay row: its packet id, its RAN delay, and whether the other plotted columns are present and finite.
  datatype DelayRow = DelayRow(pkt: Option<int>, ranDelay: Option<real>, plottable: bool)

  // A component of the RLC trace with all its columns present.
  datatype TraceRow = TraceRow(rnti: int, lcid: int, sn: int, pkt: int)

  datatype Pdu = Pdu(rnti: int, lcid: int, sn: int)

  datatype OutputRow = OutputRow(run: string, burst: int, segments: int)

  type RowFilter = DelayRow -> bool

  predicate CreationKeeps(r: DelayRow) {
    r.pkt.Some? && r.pkt.value > 0 && r.pkt.value != 1 && r.ranDelay.Some? && r.ranDelay.value >= 0.0
  }

  predicate PlotKeeps(r: DelayRow) {
    r.pkt.Some? && r.pkt.value > 0 && r.pkt.value != 1 && r.ranDelay.Some? && r.ranDelay.value >= 0.0 && r.plottable
  }

  // Python's floor division; ids are at least 1 here.
  function BurstOf(pkt: int, size: nat): int
    requires size > 0
  {
    (pkt - 1) / size
  }

  /** The distinct packet ids of one burst among the rows kept. */
  function IdsOf(rows: seq<DelayRow>, keeps: RowFilter, b: int, size: nat): (ids: set<int>)
    requires size > 0
  {
    if rows == [] then {}
    else
      var r, ids := rows[0], IdsOf(rows[1..], keeps, b, size);
      if keeps(r) && r.pkt.Some? && BurstOf(r.pkt.value, size) == b then ids + {r.pkt.value} else ids
  }

  /** What both scripts call a complete burst: not the first, and with as many distinct ids as a burst has. */
  predicate Complete(rows: seq<DelayRow>, keeps: RowFilter, b: int, size: nat)
    requires size > 0
  {
    b > 0 && |IdsOf(rows, keeps, b, size)| == size
  }

  function Interval(first: int, n: nat): (ids: set<int>)
    ensures |ids| == n && forall p :: p in ids <==> first <= p < first + n
  {
    if n == 0 then {} else Interval(first, n - 1) + {first + n - 1}
  }

  lemma BurstInterval(pkt: int, b: int, size: nat)
    requires size > 0
    ensures BurstOf(pkt, size) == b <==> b * size + 1 <= pkt < b * size + 1 + size
  {
    var q := (pkt - 1) / size;
    assert pkt - 1 == q * size + (pkt - 1) % size;
    assert (q - b) * size == q * size - b * size;
    SlotArithmetic.ProductBound(q - b, size);
  }

  lemma {:induction false} IdsInBurst(rows: seq<DelayRow>, keeps: RowFilter, b: int, size: nat)
    requires size > 0
    ensures IdsOf(rows, keeps, b, size) <= Interval(b * size + 1, size)
    ensures forall p :: p in IdsOf(rows, keeps, b, size) <==>
      (BurstOf(p, size) == b && exists i :: 0 <= i < |rows| && keeps(rows[i]) && rows[i].pkt == Some(p))
  {
    if rows != [] {
      var rest := rows[1..];
      IdsInBurst(rest, keeps, b, size);
      if rows[0].pkt.Some? {
        BurstInterval(rows[0].pkt.value, b, size);
      }
      assert forall i :: 0 <= i < |rest| ==> rest[i] == rows[i + 1];
      assert forall i :: 0 < i < |rows| ==> rows[i] == rest[i - 1];
    }
  }

  predicate Present(rows: seq<DelayRow>, keeps: RowFilter, p: int) {
    exists i :: 0 <= i < |rows| && keeps(rows[i]) && rows[i].pkt == Some(p)
  }

  /** A burst counts as complete exactly when a kept row is present for every packet id of its interval. */
  lemma CompleteMeansEveryId(rows: seq<DelayRow>, keeps: RowFilter, b: int, size: nat)
    requires size > 0
    ensures Complete(rows, keeps, b, size) <==>
      b > 0 && forall p :: b * size + 1 <= p < b * size + 1 + size ==> Present(rows, keeps, p)
  {
    var ids, all := IdsOf(rows, keeps, b, size), Interval(b * size + 1, size);
    IdsInBurst(rows, keeps, b, size);
    RealSeries.SubsetSize(ids, all);
    forall p | b * size + 1 <= p < b * size + 1 + size
      ensures p in ids <==> Present(rows, keeps, p)
    {
      BurstInterval(p, b, size);
    }
    if forall p :: b * size + 1 <= p < b * size + 1 + size ==> Present(rows, keeps, p) {
      assert ids == all;
    }
  }

  /** On the same delay rows every burst that is complete for the plots is complete for the creation script. */
  lemma PlotCompleteIsCreationComplete(rows: seq<DelayRow>, b: int, size: nat)
    requires size > 0 && Complete(rows, PlotKeeps, b, size)
    ensures Complete(rows, CreationKeeps, b, size)
  {
    CompleteMeansEveryId(rows, PlotKeeps, b, size);
    forall p | b * size + 1 <= p < b * size + 1 + size
      ensures Present(rows, CreationKeeps, p)
    {
      assert Present(rows, PlotKeeps, p);
    }
    CompleteMeansEveryId(rows, CreationKeeps, b, size);
  }

  // A row with this id whose delay is there and not negative.
  predicate Delivered(rows: seq<DelayRow>, p: int) {
    exists i :: 0 <= i < |rows| && rows[i].pkt == Some(p) && rows[i].ranDelay.Some? && rows[i].ranDelay.value >= 0.0
  }

  predicate Plotted(rows: seq<DelayRow>, p: int) {
    exists i :: 0 <= i < |rows| && rows[i].pkt == Some(p) && rows[i].ranDelay.Some? && rows[i].ranDelay.value >= 0.0 && rows[i].plottable
  }

  /** In terms of the table: a burst is complete for the creation script when each of its ids was delivered, and for
      the plots when each was delivered in a row with all plotted columns. */
  lemma CompleteMeansDelivered(rows: seq<DelayRow>, b: int, size: nat)
    requires size > 0
    ensures Complete(rows, CreationKeeps, b, size) <==> b > 0 && forall p :: b * size + 1 <= p < b * size + 1 + size ==> Delivered(rows, p)
    ensures Complete(rows, PlotKeeps, b, size) <==> b > 0 && forall p :: b * size + 1 <= p < b * size + 1 + size ==> Plotted(rows, p)
  {
    CompleteMeansEveryId(rows, CreationKeeps, b, size);
    CompleteMeansEveryId(rows, PlotKeeps, b, size);
    if b > 0 {
      SlotArithmetic.ProductBound(b, size);
      forall p | b * size + 1 <= p < b * size + 1 + size
        ensures Delivered(rows, p) <==> Present(rows, CreationKeeps, p)
        ensures Plotted(rows, p) <==> Present(rows, PlotKeeps, p)
      {
      }
    }
  }

  // ---------- writing the counts ----------

  datatype BurstError = NoTraceForBurst

  /** The distinct RLC PDUs of a burst: a PDU that carries several of its packets counts once. */
  function PdusOf(trace: seq<TraceRow>, b: int, size: nat): set<Pdu>
    requires size > 0
  {
    if trace == [] then {}
    else
      var t, pdus := trace[0], PdusOf(trace[1..], b, size);
      if t.pkt > 0 && BurstOf(t.pkt, size) == b then pdus + {Pdu(t.rnti, t.lcid, t.sn)} else pdus
  }

  ghost predicate Carries(t: TraceRow, pdu: Pdu, b: int, size: nat) {
    && t.pkt > 0 && b * size + 1 <= t.pkt < b * size + 1 + size
    && t.rnti == pdu.rnti && t.lcid == pdu.lcid && t.sn == pdu.sn
  }

  /** They are the PDUs that carry some packet with an id of the burst. */
  lemma {:induction false} PdusHas(trace: seq<TraceRow>, b: int, size: nat, pdu: Pdu)
    requires size > 0
    ensures pdu in PdusOf(trace, b, size) <==> exists i :: 0 <= i < |trace| && Carries(trace[i], pdu, b, size)
  {
    if trace != [] {
      PdusHas(trace[1..], b, size, pdu);
      BurstInterval(trace[0].pkt, b, size);
      assert forall i :: 1 <= i < |trace| ==> trace[i] == trace[1..][i - 1];
      if i :| 0 <= i < |trace[1..]| && Carries(trace[1..][i], pdu, b, size) {
        assert Carries(trace[i + 1], pdu, b, size);
      }
    }
  }

  /** All packets of a burst in one PDU make one component. */
  lemma OnePduCountsOnce(trace: seq<TraceRow>, b: int, size: nat, pdu: Pdu)
    requires size > 0 && trace != [] && forall i :: 0 <= i < |trace| ==> Carries(trace[i], pdu, b, size)
    ensures |PdusOf(trace, b, size)| == 1
  {
    forall other: Pdu
      ensures other in PdusOf(trace, b, size) <==> other == pdu
    {
      PdusHas(trace, b, size, other);
      assert Carries(trace[0], pdu, b, size);
    }
    assert PdusOf(trace, b, size) == {pdu};
  }

  // One run: its name, its burst size, the ids of its complete bursts in order, and its trace.
  datatype RunInput = RunInput(run: string, size: nat, complete: seq<int>, trace: seq<TraceRow>)

  function OutputOf(r: RunInput, b: int): OutputRow
    requires r.size > 0
  {
    OutputRow(r.run, b, |PdusOf(r.trace, b, r.size)|)
  }

  /** One row for each complete burst with its number of distinct PDUs, or an error exactly when some
      complete burst has none. */
  method BurstSegmentCounts(r: RunInput) returns (out: Result<seq<OutputRow>, BurstError>)
    requires r.size > 0
    ensures out.Err? <==> exists b :: b in r.complete && PdusOf(r.trace, b, r.size) == {}
    ensures out.Ok? ==> |out.value| == |r.complete|
                        && forall i :: 0 <= i < |r.complete| ==> out.value[i] == OutputOf(r, r.complete[i])
  {
    var rows: seq<OutputRow> := [];
    for i := 0 to |r.complete|
      invariant |rows| == i && forall k :: 0 <= k < i ==> rows[k] == OutputOf(r, r.complete[k])
      invariant forall k :: 0 <= k < i ==> PdusOf(r.trace, r.complete[k], r.size) != {}
    {
      var b := r.complete[i];
      var pdus := PdusOf(r.trace, b, r.size);
      if pdus == {} {
        assert b in r.complete;
        return Err(NoTraceForBurst);
      }
      rows := rows + [OutputOf(r, b)];
    }
    return Ok(rows);
  }

  // The burst ids from 1 to n that are complete, in order.
  function CompleteUpTo(rows: seq<DelayRow>, size: nat, n: nat): (ids: seq<int>)
    requires size > 0
    ensures forall i :: 0 <= i < |ids| ==> 0 < ids[i] <= n && Complete(rows, CreationKeeps, ids[i], size)
    ensures forall i, j :: 0 <= i < j < |ids| ==> ids[i] < ids[j]
    ensures forall b :: 0 < b <= n && Complete(rows, CreationKeeps, b, size) ==> b in ids
  {
    if n == 0 then []
    else CompleteUpTo(rows, size, n - 1) + if Complete(rows, CreationKeeps, n, size) then [n] else []
  }

  function GreatestId(rows: seq<DelayRow>): (m: nat)
    ensures forall i :: 0 <= i < |rows| && rows[i].pkt.Some? ==> rows[i].pkt.value <= m
  {
    if rows == [] then 0
    else
      var m := GreatestId(rows[..|rows| - 1]);
      var last := rows[|rows| - 1].pkt;
      if last.Some? && last.value > m then last.value else m
  }

  lemma CompleteWithin(rows: seq<DelayRow>, b: int, size: nat)
    requires size > 0 && Complete(rows, CreationKeeps, b, size)
    ensures 0 < b <= GreatestId(rows)
  {
    CompleteMeansEveryId(rows, CreationKeeps, b, size);
    var p := b * size + 1;
    assert Present(rows, CreationKeeps, p);
    SlotArithmetic.ProductBound(size, b);
  }

  /** complete_burst_ids. */
  function CompleteIds(rows: seq<DelayRow>, size: nat): seq<int>
    requires size > 0
  {
    CompleteUpTo(rows, size, GreatestId(rows))
  }

  lemma CompleteIdsAre(rows: seq<DelayRow>, size: nat, b: int)
    requires size > 0
    ensures b in CompleteIds(rows, size) <==> Complete(rows, CreationKeeps, b, size)
  {
    if Complete(rows, CreationKeeps, b, size) {
      CompleteWithin(rows, b, size);
    }
  }

  /** The files of one run: its name, its burst size, its delay rows and its trace. */
  datatype RunFiles = RunFiles(run: string, size: nat, rows: seq<DelayRow>, trace: seq<TraceRow>)

  function InputOf(f: RunFiles): RunInput
    requires f.size > 0
  {
    RunInput(f.run, f.size, CompleteIds(f.rows, f.size), f.trace)
  }

  // Run directories have different names, and a run's name gives a burst size of at least 1.
  ghost predicate RunsFine(files: seq<RunFiles>) {
    && (forall i :: 0 <= i < |files| ==> files[i].size > 0)
    && (forall i, j :: 0 <= i < j < |files| ==> files[i].run != files[j].run)
  }

  predicate NoTrace(f: RunFiles)
    requires f.size > 0
  {
    exists b :: b in CompleteIds(f.rows, f.size) && PdusOf(f.trace, b, f.size) == {}
  }

  /** The loop over the runs: the rows of each run, or an error exactly when some run has a complete burst
      without a component. */
  method CreateAll(files: seq<RunFiles>) returns (out: Result<seq<seq<OutputRow>>, BurstError>)
    requires RunsFine(files)
    ensures out.Err? <==> exists n :: 0 <= n < |files| && NoTrace(files[n])
    ensures out.Ok? ==> Created(files, out.value)
  {
    var outs: seq<seq<OutputRow>> := [];
    for n := 0 to |files|
      invariant Created(files[..n], outs)
      invariant forall m :: 0 <= m < n ==> !NoTrace(files[m])
    {
      var one := BurstSegmentCounts(InputOf(files[n]));
      if one.Err? {
        assert NoTrace(files[n]);
        return Err(one.error);
      }
      CountsWritten(files[n], one.value);
      outs := outs + [one.value];
    }
    assert files[..|files|] == files;
    return Ok(outs);
  }

  // What creation has written for a run.
  ghost predicate RunWritten(r: RunInput, out: seq<OutputRow>) {
    && r.size > 0 && |out| == |r.complete|
    && (forall i, j :: 0 <= i < j < |r.complete| ==> r.complete[i] < r.complete[j])
    && forall i :: 0 <= i < |out| ==> out[i] == OutputOf(r, r.complete[i]) && out[i].segments > 0
  }

  lemma CountsWritten(f: RunFiles, out: seq<OutputRow>)
    requires f.size > 0 && !NoTrace(f) && |out| == |InputOf(f).complete|
    requires forall i :: 0 <= i < |out| ==> out[i] == OutputOf(InputOf(f), InputOf(f).complete[i])
    ensures RunWritten(InputOf(f), out)
  {
    var ids := CompleteIds(f.rows, f.size);
    forall i | 0 <= i < |ids|
      ensures PdusOf(f.trace, ids[i], f.size) != {}
    {
      assert ids[i] in ids;
    }
  }

  /** What a successful creation has written for all runs. */
  ghost predicate Created(files: seq<RunFiles>, outs: seq<seq<OutputRow>>) {
    && |outs| == |files| && RunsFine(files)
    && forall n :: 0 <= n < |files| ==> RunWritten(InputOf(files[n]), outs[n])
  }

  // ---------- reading the counts back ----------

  datatype LoadError = DuplicateBurst | NonPositiveCount

  predicate NoDuplicates(rows: seq<OutputRow>) {
    forall i, j :: 0 <= i < j < |rows| ==> rows[i].run != rows[j].run || rows[i].burst != rows[j].burst
  }

  function Load(rows: seq<OutputRow>): (r: Result<map<(string, int), int>, LoadError>)
  {
    if !NoDuplicates(rows) then Err(DuplicateBurst)
    else if exists i :: 0 <= i < |rows| && rows[i].segments <= 0 then Err(NonPositiveCount)
    else Ok(Counts(rows))
  }

  /** Reading succeeds exactly when no run and burst has two rows and every count is positive. */
  lemma LoadMeans(rows: seq<OutputRow>)
    ensures Load(rows).Ok? <==>
            && (forall i, j :: 0 <= i < j < |rows| ==> (rows[i].run, rows[i].burst) != (rows[j].run, rows[j].burst))
            && (forall i :: 0 <= i < |rows| ==> rows[i].segments > 0)
    ensures Load(rows) == Err(NonPositiveCount) ==> NoDuplicates(rows)
  {
  }

  function Counts(rows: seq<OutputRow>): map<(string, int), int> {
    if rows == [] then map[]
    else
      var last := rows[|rows| - 1];
      Counts(rows[..|rows| - 1])[(last.run, last.burst) := last.segments]
  }

  lemma {:induction false} CountsHas(rows: seq<OutputRow>, run: string, b: int)
    requires NoDuplicates(rows)
    ensures (run, b) in Counts(rows) <==> exists i :: 0 <= i < |rows| && rows[i].run == run && rows[i].burst == b
    ensures forall i :: 0 <= i < |rows| && rows[i].run == run && rows[i].burst == b ==> Counts(rows)[(run, b)] == rows[i].segments
  {
    if rows != [] {
      var front := rows[..|rows| - 1];
      CountsHas(front, run, b);
      assert forall i :: 0 <= i < |front| ==> front[i] == rows[i];
    }
  }

  // All runs together: the output rows of each, one after the other.
  function Concatenated(outs: seq<seq<OutputRow>>): seq<OutputRow> {
    if outs == [] then [] else Concatenated(outs[..|outs| - 1]) + outs[|outs| - 1]
  }

  // Rows with positive counts, of runs among the files.
  ghost predicate Sound(files: seq<RunFiles>, rows: seq<OutputRow>) {
    forall i :: 0 <= i < |rows| ==> rows[i].segments > 0 && IsRun(files, rows[i].run)
  }

  predicate IsRun(files: seq<RunFiles>, run: string) { exists n :: 0 <= n < |files| && files[n].run == run }

  lemma RunsOfMore(files: seq<RunFiles>, k: nat, run: string)
    requires k < |files| && IsRun(files[..k], run)
    ensures IsRun(files, run) && (RunsFine(files) ==> run != files[k].run)
  {
    var n :| 0 <= n < k && files[..k][n].run == run;
    assert files[n].run == run;
  }

  lemma SoundMore(files: seq<RunFiles>, k: nat, front: seq<OutputRow>, last: seq<OutputRow>)
    requires RunsFine(files) && k < |files| && Sound(files[..k], front) && NoDuplicates(front)
    requires RunWritten(InputOf(files[k]), last)
    ensures Sound(files, front + last) && NoDuplicates(front + last)
  {
    var rows := front + last;
    forall i | 0 <= i < |front|
      ensures IsRun(files, rows[i].run) && rows[i].run != files[k].run
    {
      RunsOfMore(files, k, front[i].run);
    }
    assert forall i :: 0 <= i < |last| ==> last[i].run == files[k].run;
  }

  lemma {:induction false} ConcatenatedRows(files: seq<RunFiles>, outs: seq<seq<OutputRow>>)
    requires Created(files, outs)
    ensures NoDuplicates(Concatenated(outs)) && Sound(files, Concatenated(outs))
  {
    if files != [] {
      var k := |files| - 1;
      ConcatenatedRows(files[..k], outs[..k]);
      assert files[..k + 1] == files;
      SoundMore(files, k, Concatenated(outs[..k]), outs[k]);
    }
  }

  lemma {:induction false} ConcatenatedHas(outs: seq<seq<OutputRow>>, n: nat, row: OutputRow)
    requires n < |outs| && row in outs[n]
    ensures row in Concatenated(outs)
  {
    if n < |outs| - 1 {
      ConcatenatedHas(outs[..|outs| - 1], n, row);
    }
  }

  lemma CreatedLoads(files: seq<RunFiles>, outs: seq<seq<OutputRow>>)
    requires Created(files, outs)
    ensures NoDuplicates(Concatenated(outs)) && Load(Concatenated(outs)) == Ok(Counts(Concatenated(outs)))
  {
    ConcatenatedRows(files, outs);
  }

  lemma RowCreated(files: seq<RunFiles>, outs: seq<seq<OutputRow>>, n: nat, b: int)
    requires Created(files, outs) && n < |files| && files[n].size > 0 && Complete(files[n].rows, CreationKeeps, b, files[n].size)
    ensures OutputOf(InputOf(files[n]), b) in Concatenated(outs)
  {
    var f := files[n];
    var ids := CompleteIds(f.rows, f.size);
    CompleteIdsAre(f.rows, f.size, b);
    var i :| 0 <= i < |ids| && ids[i] == b;
    assert RunWritten(InputOf(f), outs[n]);
    assert outs[n][i] == OutputOf(InputOf(f), b);
    ConcatenatedHas(outs, n, outs[n][i]);
  }

  /** When creation has succeeded, reading its output back raises neither error, and every burst that the plots
      find complete in the same delay rows has its count there. */
  lemma ReadBackNeverFails(files: seq<RunFiles>, outs: seq<seq<OutputRow>>, n: nat, b: int)
    requires Created(files, outs) && n < |files| && Complete(files[n].rows, PlotKeeps, b, files[n].size)
    ensures var loaded := Load(Concatenated(outs));
            && loaded.Ok? && (files[n].run, b) in loaded.value
            && loaded.value[(files[n].run, b)] == |PdusOf(files[n].trace, b, files[n].size)|
  {
    var f, all := files[n], Concatenated(outs);
    CreatedLoads(files, outs);
    PlotCompleteIsCreationComplete(f.rows, b, f.size);
    RowCreated(files, outs, n, b);
    var m :| 0 <= m < |all| && all[m] == OutputOf(InputOf(f), b);
    CountsHas(all, f.run, b);
  }
}
