/** The per-packet delay components of a simulation run, built from its traces by joins and group
    minima and maxima. A missing cell is None; times are in microseconds. */
module DelayDecomposition {
  import RealSeries
  import opened Wrappers

  const GRANT_TOLERANCE_US := 100.0
  const DEQUEUE_LEAD_US := 1_000.0

  datatype Key = Key(rnti: int, lcid: int, pkt: int)

  datatype PdcpTx = PdcpTx(key: Key, time: Option<real>)
  datatype PdcpRx = PdcpRx(key: Key, time: Option<real>, delay: Option<real>)
  datatype RlcTx = RlcTx(key: Key, sn: Option<int>, time: real)
  datatype RlcRx = RlcRx(key: Key, sn: Option<int>, time: Option<real>, delay: Option<real>)
  datatype Grant = Grant(rnti: int, time: real, startDelta: Option<real>)

  // An initial SR that has been matched to its trigger.
  datatype InitialSr = InitialSr(rnti: int, time: real, opportunity: real, trigger: real)

  datatype Traces = Traces(
    pdcpTx: seq<PdcpTx>,
    pdcpRx: seq<PdcpRx>,
    rlcTx: seq<RlcTx>,
    rlcRx: seq<RlcRx>,
    grants: seq<Grant>,
    srs: seq<InitialSr>)

  // ---------- column operations ----------

  // The present values of a column that may be restricted to some rows.
  function Column<T>(rows: seq<T>, f: T -> Option<real>): seq<real> {
    if rows == [] then []
    else Column(rows[..|rows| - 1], f) + (match f(rows[|rows| - 1]) case None => [] case Some(x) => [x])
  }

  // The extremes of a column, missing for an empty one.
  function LeastOf(xs: seq<real>): Option<real> { if xs == [] then None else Some(RealSeries.Least(xs)) }

  function GreatestOf(xs: seq<real>): Option<real> { if xs == [] then None else Some(RealSeries.Greatest(xs)) }

  function Minus(a: Option<real>, b: Option<real>): Option<real> {
    if a.Some? && b.Some? then Some(a.value - b.value) else None
  }

  // Rows with a negative value are filtered away.
  function NonNegative(a: Option<real>): Option<real> {
    if a.Some? && a.value >= 0.0 then a else None
  }

  lemma {:induction false} ColumnHas<T>(rows: seq<T>, f: T -> Option<real>, x: real)
    ensures x in Column(rows, f) <==> exists i :: 0 <= i < |rows| && f(rows[i]) == Some(x)
  {
    if rows != [] {
      var front := rows[..|rows| - 1];
      ColumnHas(front, f, x);
      if i :| 0 <= i < |rows| && f(rows[i]) == Some(x) && i < |rows| - 1 {
        assert f(front[i]) == Some(x);
      }
    }
  }

  lemma LeastIs(xs: seq<real>)
    ensures LeastOf(xs).Some? <==> xs != []
    ensures LeastOf(xs).Some? ==> LeastOf(xs).value in xs && forall x :: x in xs ==> LeastOf(xs).value <= x
  {
    if xs != [] {
      RealSeries.LeastIsLeast(xs);
    }
  }

  lemma GreatestIs(xs: seq<real>)
    ensures GreatestOf(xs).Some? <==> xs != []
    ensures GreatestOf(xs).Some? ==> GreatestOf(xs).value in xs && forall x :: x in xs ==> x <= GreatestOf(xs).value
  {
    if xs != [] {
      RealSeries.GreatestIsGreatest(xs);
    }
  }

  // A column over fewer rows has a greatest value no greater, and a least value no less.
  lemma Narrower<T>(rows: seq<T>, f: T -> Option<real>, g: T -> Option<real>)
    requires forall i :: 0 <= i < |rows| && f(rows[i]).Some? ==> g(rows[i]) == f(rows[i])
    ensures GreatestOf(Column(rows, f)).Some? ==>
              GreatestOf(Column(rows, g)).Some? && GreatestOf(Column(rows, f)).value <= GreatestOf(Column(rows, g)).value
    ensures LeastOf(Column(rows, f)).Some? ==>
              LeastOf(Column(rows, g)).Some? && LeastOf(Column(rows, g)).value <= LeastOf(Column(rows, f)).value
  {
    var xs, ys := Column(rows, f), Column(rows, g);
    LeastIs(xs);
    LeastIs(ys);
    GreatestIs(xs);
    GreatestIs(ys);
    forall x | x in xs
      ensures x in ys
    {
      ColumnHas(rows, f, x);
      ColumnHas(rows, g, x);
      var i :| 0 <= i < |rows| && f(rows[i]) == Some(x);
      assert g(rows[i]) == Some(x);
    }
  }

  // ---------- components and their grants ----------

  /** Backward as-of match: the latest grant of the UE at or before the time, if it is within tolerance.
      Grants are sorted by time. */
  function GrantFor(grants: seq<Grant>, rnti: int, time: real): Option<Grant> {
    if grants == [] then None
    else
      var last := grants[|grants| - 1];
      if last.rnti == rnti && last.time <= time then
        if time - last.time <= GRANT_TOLERANCE_US then Some(last) else None
      else GrantFor(grants[..|grants| - 1], rnti, time)
  }

  ghost predicate GrantsSorted(grants: seq<Grant>) {
    forall i, j :: 0 <= i < j < |grants| ==> grants[i].time <= grants[j].time
  }

  /** A component has a grant exactly when its UE has one within the tolerance before it; it is the latest. */
  lemma {:induction false} GrantForIsLatest(grants: seq<Grant>, rnti: int, time: real)
    requires GrantsSorted(grants)
    ensures var r := GrantFor(grants, rnti, time);
            && (r.Some? <==> exists i :: 0 <= i < |grants| && grants[i].rnti == rnti && 0.0 <= time - grants[i].time <= GRANT_TOLERANCE_US)
            && (r.Some? ==> r.value in grants && r.value.rnti == rnti && r.value.time <= time)
            && (r.Some? ==> forall i :: 0 <= i < |grants| && grants[i].rnti == rnti && grants[i].time <= time
                              ==> grants[i].time <= r.value.time)
  {
    if grants != [] {
      var front, last := grants[..|grants| - 1], grants[|grants| - 1];
      assert forall i :: 0 <= i < |front| ==> front[i] == grants[i];
      if last.rnti == rnti && last.time <= time {
        assert grants[|grants| - 1] == last;
      } else {
        GrantForIsLatest(front, rnti, time);
        if i :| 0 <= i < |grants| && grants[i].rnti == rnti && 0.0 <= time - grants[i].time <= GRANT_TOLERANCE_US {
          assert front[i] == grants[i];
        }
      }
    }
  }

  function PuschTime(t: Traces, tx: RlcTx): Option<real> {
    match GrantFor(t.grants, tx.key.rnti, tx.time)
    case None => None
    case Some(g) => if g.startDelta.Some? then Some(g.time + g.startDelta.value) else None
  }

  /** One lead before the PUSCH, but no earlier than the RLC transmission; a component without a PUSCH
      time falls back to its RLC transmission. */
  function VirtualDequeue(t: Traces, tx: RlcTx): (v: real)
    ensures v >= tx.time
  {
    var pusch := PuschTime(t, tx);
    if pusch.Some? && pusch.value - DEQUEUE_LEAD_US >= tx.time then pusch.value - DEQUEUE_LEAD_US else tx.time
  }

  // The rows of the per-packet RLC table: those with a sequence number and a PUSCH time.
  predicate Usable(t: Traces, tx: RlcTx) { tx.sn.Some? && PuschTime(t, tx).Some? }

  function RlcTxTime(t: Traces, k: Key): RlcTx -> Option<real> {
    (tx: RlcTx) => if tx.key == k && Usable(t, tx) then Some(tx.time) else None
  }

  function DequeueTime(t: Traces, k: Key): RlcTx -> Option<real> {
    (tx: RlcTx) => if tx.key == k && Usable(t, tx) then Some(VirtualDequeue(t, tx)) else None
  }

  function FirstRlcTx(t: Traces, k: Key): Option<real> { LeastOf(Column(t.rlcTx, RlcTxTime(t, k))) }

  function FirstDequeue(t: Traces, k: Key): Option<real> { LeastOf(Column(t.rlcTx, DequeueTime(t, k))) }

  function PdcpTxTime(k: Key): PdcpTx -> Option<real> { (r: PdcpTx) => if r.key == k then r.time else None }

  function FirstPdcpTx(t: Traces, k: Key): Option<real> { LeastOf(Column(t.pdcpTx, PdcpTxTime(k))) }

  /** build_queueing_delay. */
  function Queueing(t: Traces, k: Key): Option<real> {
    NonNegative(Minus(FirstDequeue(t, k), FirstPdcpTx(t, k)))
  }

  // The first virtual dequeue of a packet is no earlier than its first RLC transmission.
  lemma DequeueAfterTx(t: Traces, k: Key)
    ensures FirstRlcTx(t, k).Some? <==> FirstDequeue(t, k).Some?
    ensures FirstRlcTx(t, k).Some? ==> FirstRlcTx(t, k).value <= FirstDequeue(t, k).value
  {
    var xs, vs := Column(t.rlcTx, RlcTxTime(t, k)), Column(t.rlcTx, DequeueTime(t, k));
    LeastIs(xs);
    LeastIs(vs);
    if vs != [] {
      var v := FirstDequeue(t, k).value;
      ColumnHas(t.rlcTx, DequeueTime(t, k), v);
      var i :| 0 <= i < |t.rlcTx| && DequeueTime(t, k)(t.rlcTx[i]) == Some(v);
      ColumnHas(t.rlcTx, RlcTxTime(t, k), t.rlcTx[i].time);
      assert RlcTxTime(t, k)(t.rlcTx[i]) == Some(t.rlcTx[i].time);
    }
    if xs != [] {
      ColumnHas(t.rlcTx, RlcTxTime(t, k), xs[0]);
      var i :| 0 <= i < |t.rlcTx| && RlcTxTime(t, k)(t.rlcTx[i]) == Some(xs[0]);
      ColumnHas(t.rlcTx, DequeueTime(t, k), VirtualDequeue(t, t.rlcTx[i]));
      assert DequeueTime(t, k)(t.rlcTx[i]).Some?;
    }
  }

  // ---------- SR components ----------

  datatype SrDelay = SrDelay(key: Key, frameAlignment: real, scheduling: real)

  /** Backward as-of match of a trigger to the packet of the UE that reached PDCP last. `first` holds one row
      for each packet, sorted by time. */
  function LatestPacket(first: seq<(Key, real)>, rnti: int, time: real): Option<(Key, real)> {
    if first == [] then None
    else
      var last := first[|first| - 1];
      if last.0.rnti == rnti && last.1 <= time then Some(last) else LatestPacket(first[..|first| - 1], rnti, time)
  }

  // The delays that one SR gives its packet, if the packet has RLC components and the times are in order.
  function SrRow(t: Traces, first: seq<(Key, real)>, sr: InitialSr): Option<SrDelay> {
    match LatestPacket(first, sr.rnti, sr.trigger)
    case None => None
    case Some((k, pdcp)) =>
      var rlc := FirstRlcTx(t, k);
      if rlc.Some? && pdcp <= sr.trigger <= sr.opportunity <= sr.time <= rlc.value then
        Some(SrDelay(k, sr.opportunity - pdcp, rlc.value - pdcp))
      else None
  }

  /** build_sr_delay_components: the first usable SR of each packet, over SRs sorted by time. */
  function SrRows(t: Traces, first: seq<(Key, real)>, srs: seq<InitialSr>): seq<SrDelay> {
    if srs == [] then []
    else
      var earlier := SrRows(t, first, srs[..|srs| - 1]);
      match SrRow(t, first, srs[|srs| - 1])
      case None => earlier
      case Some(row) => KeepFirst(earlier, row)
  }

  // drop_duplicates on the packet key, keeping the first.
  function KeepFirst(rows: seq<SrDelay>, row: SrDelay): seq<SrDelay> {
    if HasRow(rows, row.key) then rows else rows + [row]
  }

  predicate HasRow(rows: seq<SrDelay>, k: Key) { exists i :: 0 <= i < |rows| && rows[i].key == k }

  // One row for each packet with its first PDCP transmission.
  ghost predicate FirstPerPacket(t: Traces, first: seq<(Key, real)>) {
    forall i :: 0 <= i < |first| ==> FirstPdcpTx(t, first[i].0) == Some(first[i].1)
  }

  /** The packet is the one of the UE that reached PDCP last before the trigger, if there is one. */
  lemma {:induction false} LatestPacketIsLatest(first: seq<(Key, real)>, rnti: int, time: real)
    requires forall i, j :: 0 <= i < j < |first| ==> first[i].1 <= first[j].1
    ensures var r := LatestPacket(first, rnti, time);
            && (r.Some? <==> exists i :: 0 <= i < |first| && first[i].0.rnti == rnti && first[i].1 <= time)
            && (r.Some? ==> r.value.0.rnti == rnti && r.value.1 <= time)
            && (r.Some? ==> forall i :: 0 <= i < |first| && first[i].0.rnti == rnti && first[i].1 <= time ==> first[i].1 <= r.value.1)
  {
    if first != [] {
      var front, last := first[..|first| - 1], first[|first| - 1];
      assert forall i :: 0 <= i < |front| ==> front[i] == first[i];
      if last.0.rnti == rnti && last.1 <= time {
        assert first[|first| - 1] == last;
      } else {
        LatestPacketIsLatest(front, rnti, time);
        if i :| 0 <= i < |first| && first[i].0.rnti == rnti && first[i].1 <= time {
          assert front[i] == first[i];
        }
      }
    }
  }

  lemma {:induction false} LatestPacketIsRow(first: seq<(Key, real)>, rnti: int, time: real)
    ensures var r := LatestPacket(first, rnti, time);
            r.Some? ==> exists i :: 0 <= i < |first| && first[i] == r.value
  {
    if first != [] {
      var front := first[..|first| - 1];
      LatestPacketIsRow(front, rnti, time);
      if LatestPacket(front, rnti, time).Some? {
        var i :| 0 <= i < |front| && front[i] == LatestPacket(front, rnti, time).value;
        assert first[i] == front[i];
      }
    }
  }

  ghost predicate Contained(t: Traces, row: SrDelay) {
    Queueing(t, row.key).Some? && 0.0 <= row.frameAlignment <= row.scheduling <= Queueing(t, row.key).value
  }

  lemma SrRowContained(t: Traces, first: seq<(Key, real)>, sr: InitialSr)
    requires FirstPerPacket(t, first) && SrRow(t, first, sr).Some?
    ensures Contained(t, SrRow(t, first, sr).value)
  {
    LatestPacketIsRow(first, sr.rnti, sr.trigger);
    DequeueAfterTx(t, SrRow(t, first, sr).value.key);
  }

  /** At most one row for each packet, and each contained in its packet's queueing delay. */
  ghost predicate SrTableFine(t: Traces, rows: seq<SrDelay>) {
    && (forall i, j :: 0 <= i < j < |rows| ==> rows[i].key != rows[j].key)
    && (forall i :: 0 <= i < |rows| ==> Contained(t, rows[i]))
  }

  /** Every packet given SR components appears once, has a queueing delay too, and
      0 <= frame alignment <= scheduling <= queueing. */
  lemma {:induction false} SrContained(t: Traces, first: seq<(Key, real)>, srs: seq<InitialSr>)
    requires FirstPerPacket(t, first)
    ensures SrTableFine(t, SrRows(t, first, srs))
  {
    if srs != [] {
      var sr := srs[|srs| - 1];
      SrContained(t, first, srs[..|srs| - 1]);
      if SrRow(t, first, sr).Some? {
        SrRowContained(t, first, sr);
        KeepFirstFine(t, SrRows(t, first, srs[..|srs| - 1]), SrRow(t, first, sr).value);
      }
    }
  }

  lemma KeepFirstFine(t: Traces, rows: seq<SrDelay>, row: SrDelay)
    requires SrTableFine(t, rows) && Contained(t, row)
    ensures SrTableFine(t, KeepFirst(rows, row))
  {
  }

  /** A packet has SR components exactly when some initial SR is usable for it. */
  lemma {:induction false} SrRowsCover(t: Traces, first: seq<(Key, real)>, srs: seq<InitialSr>, k: Key)
    ensures HasRow(SrRows(t, first, srs), k) <==>
            (exists j :: 0 <= j < |srs| && SrRow(t, first, srs[j]).Some? && SrRow(t, first, srs[j]).value.key == k)
  {
    if srs != [] {
      var front, sr := srs[..|srs| - 1], srs[|srs| - 1];
      SrRowsCover(t, first, front, k);
      var earlier, rows := SrRows(t, first, front), SrRows(t, first, srs);
      assert forall j :: 0 <= j < |front| ==> front[j] == srs[j];
      match SrRow(t, first, sr) {
        case None => assert rows == earlier;
        case Some(row) =>
          assert rows == KeepFirst(earlier, row);
          assert forall i :: 0 <= i < |earlier| ==> rows[i] == earlier[i];
          assert |rows| > |earlier| ==> rows[|earlier|] == row;
      }
    }
  }

  /** Packet k is the last of the UE in the list that reached PDCP by the trigger of the SR. */
  ghost predicate LatestBefore(first: seq<(Key, real)>, sr: InitialSr, k: Key) {
    exists i :: 0 <= i < |first| && first[i].0 == k && IsLatest(first, i, sr.rnti, sr.trigger)
  }

  ghost predicate IsLatest(first: seq<(Key, real)>, i: nat, rnti: int, time: real)
    requires i < |first|
  {
    && first[i].0.rnti == rnti && first[i].1 <= time
    && forall j :: i < j < |first| && first[j].0.rnti == rnti ==> first[j].1 > time
  }

  lemma {:induction false} LatestPacketIsLast(first: seq<(Key, real)>, rnti: int, time: real)
    ensures var r := LatestPacket(first, rnti, time);
            && (r.Some? ==> exists i :: 0 <= i < |first| && first[i] == r.value && IsLatest(first, i, rnti, time))
            && (r.None? ==> forall i :: 0 <= i < |first| ==> !IsLatest(first, i, rnti, time))
  {
    if first != [] {
      var front, last := first[..|first| - 1], first[|first| - 1];
      LatestPacketIsLast(front, rnti, time);
      assert forall i :: 0 <= i < |front| ==> front[i] == first[i];
      if last.0.rnti == rnti && last.1 <= time {
        assert IsLatest(first, |first| - 1, rnti, time);
      } else {
        assert forall i :: 0 <= i < |front| ==> (IsLatest(first, i, rnti, time) <==> IsLatest(front, i, rnti, time));
      }
    }
  }

  /** The SR counts for packet k: k is the latest packet before its trigger, and PDCP transmission, trigger,
      opportunity, SR and first RLC transmission come in this order. */
  ghost predicate CountsFor(t: Traces, first: seq<(Key, real)>, sr: InitialSr, k: Key) {
    && LatestBefore(first, sr, k) && FirstPdcpTx(t, k).Some? && FirstRlcTx(t, k).Some?
    && FirstPdcpTx(t, k).value <= sr.trigger <= sr.opportunity <= sr.time <= FirstRlcTx(t, k).value
  }

  lemma LatestDecides(first: seq<(Key, real)>, sr: InitialSr, k: Key)
    ensures LatestBefore(first, sr, k) <==>
            LatestPacket(first, sr.rnti, sr.trigger).Some? && LatestPacket(first, sr.rnti, sr.trigger).value.0 == k
  {
    LatestPacketIsLast(first, sr.rnti, sr.trigger);
    assert forall i, j :: 0 <= i < j < |first| && first[j].0.rnti == sr.rnti && first[j].1 <= sr.trigger
             ==> !IsLatest(first, i, sr.rnti, sr.trigger);
  }

  lemma SrRowMeans(t: Traces, first: seq<(Key, real)>, sr: InitialSr, k: Key)
    requires FirstPerPacket(t, first)
    ensures CountsFor(t, first, sr, k) <==> SrRow(t, first, sr).Some? && SrRow(t, first, sr).value.key == k
    ensures CountsFor(t, first, sr, k) ==>
              SrRow(t, first, sr).value == SrDelay(k, sr.opportunity - FirstPdcpTx(t, k).value, FirstRlcTx(t, k).value - FirstPdcpTx(t, k).value)
  {
    LatestDecides(first, sr, k);
    LatestPacketIsRow(first, sr.rnti, sr.trigger);
  }

  /** The delays in the row are measured from the packet's first PDCP transmission: the scheduling delay to its first
      RLC transmission, the frame alignment to the opportunity of the first SR that counts for it. */
  ghost predicate RowMeans(t: Traces, first: seq<(Key, real)>, srs: seq<InitialSr>, row: SrDelay) {
    exists j :: 0 <= j < |srs| && CountsFor(t, first, srs[j], row.key)
      && (forall i :: 0 <= i < j ==> !CountsFor(t, first, srs[i], row.key))
      && row.frameAlignment == srs[j].opportunity - FirstPdcpTx(t, row.key).value
      && row.scheduling == FirstRlcTx(t, row.key).value - FirstPdcpTx(t, row.key).value
  }

  // A packet has a row exactly when some SR counts for it.
  lemma SrRowsCount(t: Traces, first: seq<(Key, real)>, srs: seq<InitialSr>, k: Key)
    requires FirstPerPacket(t, first)
    ensures HasRow(SrRows(t, first, srs), k) <==>
            (exists j :: 0 <= j < |srs| && CountsFor(t, first, srs[j], k))
  {
    SrRowsCover(t, first, srs, k);
    forall j | 0 <= j < |srs|
      ensures CountsFor(t, first, srs[j], k) <==> SrRow(t, first, srs[j]).Some? && SrRow(t, first, srs[j]).value.key == k
    {
      SrRowMeans(t, first, srs[j], k);
    }
  }

  lemma {:induction false} SrRowsMean(t: Traces, first: seq<(Key, real)>, srs: seq<InitialSr>)
    requires FirstPerPacket(t, first)
    ensures forall i :: 0 <= i < |SrRows(t, first, srs)| ==> RowMeans(t, first, srs, SrRows(t, first, srs)[i])
  {
    if srs != [] {
      var front, sr := srs[..|srs| - 1], srs[|srs| - 1];
      var earlier, rows := SrRows(t, first, front), SrRows(t, first, srs);
      SrRowsMean(t, first, front);
      forall i | 0 <= i < |rows|
        ensures RowMeans(t, first, srs, rows[i])
      {
        if i < |earlier| {
          MeansStill(t, first, front, sr, rows[i]);
          assert front + [sr] == srs;
        } else {
          NewRowMeans(t, first, srs, rows[i]);
        }
      }
    }
  }

  lemma MeansStill(t: Traces, first: seq<(Key, real)>, front: seq<InitialSr>, sr: InitialSr, row: SrDelay)
    requires RowMeans(t, first, front, row)
    ensures RowMeans(t, first, front + [sr], row)
  {
    var srs := front + [sr];
    assert forall j :: 0 <= j < |front| ==> srs[j] == front[j];
  }

  lemma NewRowMeans(t: Traces, first: seq<(Key, real)>, srs: seq<InitialSr>, row: SrDelay)
    requires FirstPerPacket(t, first) && srs != [] && SrRow(t, first, srs[|srs| - 1]) == Some(row)
    requires !HasRow(SrRows(t, first, srs[..|srs| - 1]), row.key)
    ensures RowMeans(t, first, srs, row)
  {
    var front, last := srs[..|srs| - 1], |srs| - 1;
    SrRowMeans(t, first, srs[last], row.key);
    SrRowsCount(t, first, front, row.key);
    forall i | 0 <= i < last
      ensures !CountsFor(t, first, srs[i], row.key)
    {
      assert front[i] == srs[i];
    }
  }

  // ---------- link, transmission, segmentation and reordering ----------

  predicate Complete(r: RlcRx) { r.sn.Some? && r.time.Some? && r.delay.Some? }

  function CompleteRxTime(k: Key): RlcRx -> Option<real> { (r: RlcRx) => if r.key == k && Complete(r) then r.time else None }

  function AnyRxTime(k: Key): RlcRx -> Option<real> { (r: RlcRx) => if r.key == k then r.time else None }

  function LastRx(t: Traces, k: Key): Option<real> { GreatestOf(Column(t.rlcRx, CompleteRxTime(k))) }

  function LastAnyRx(t: Traces, k: Key): Option<real> { GreatestOf(Column(t.rlcRx, AnyRxTime(k))) }

  function Link(t: Traces, k: Key): Option<real> { Minus(LastRx(t, k), FirstDequeue(t, k)) }

  // A column of the inner join of received components with transmissions.
  function JoinColumn(rxs: seq<RlcRx>, txs: seq<RlcTx>, f: RlcRx -> RlcTx -> Option<real>): seq<real> {
    if rxs == [] then []
    else JoinColumn(rxs[..|rxs| - 1], txs, f) + Column(txs, f(rxs[|rxs| - 1]))
  }

  ghost predicate HasValue(txs: seq<RlcTx>, f: RlcTx -> Option<real>, x: real) {
    exists j :: 0 <= j < |txs| && f(txs[j]) == Some(x)
  }

  lemma {:induction false} JoinColumnHas(rxs: seq<RlcRx>, txs: seq<RlcTx>, f: RlcRx -> RlcTx -> Option<real>, x: real)
    ensures x in JoinColumn(rxs, txs, f) <==> exists i :: 0 <= i < |rxs| && HasValue(txs, f(rxs[i]), x)
  {
    if rxs != [] {
      var front, last := rxs[..|rxs| - 1], rxs[|rxs| - 1];
      JoinColumnHas(front, txs, f, x);
      ColumnHas(txs, f(last), x);
      assert forall i :: 0 <= i < |front| ==> front[i] == rxs[i];
    }
  }

  predicate Joined(k: Key, rx: RlcRx, tx: RlcTx) {
    rx.key == k && tx.key == k && Complete(rx) && tx.sn.Some? && rx.sn == tx.sn
  }

  // The traced component delay, moved to start at the virtual dequeue.
  function CorrectedDelay(t: Traces, k: Key): RlcRx -> RlcTx -> Option<real> {
    (rx: RlcRx) => (tx: RlcTx) =>
      if Joined(k, rx, tx) then Some(rx.delay.value - (VirtualDequeue(t, tx) - tx.time)) else None
  }

  function TxRetx(t: Traces, k: Key): Option<real> { GreatestOf(JoinColumn(t.rlcRx, t.rlcTx, CorrectedDelay(t, k))) }

  function Segmentation(t: Traces, k: Key): Option<real> { Minus(Link(t, k), TxRetx(t, k)) }

  // How long a transmission waits for its virtual dequeue.
  function Wait(t: Traces, tx: RlcTx): (w: real)
    ensures w >= 0.0
  {
    VirtualDequeue(t, tx) - tx.time
  }

  // When the component was sent, as its traced delay has it.
  function Sent(rx: RlcRx): real
    requires Complete(rx)
  {
    rx.time.value - rx.delay.value
  }

  /** A joined pair that may spoil the segmentation delay: the transmission has no PUSCH time, or is not the one the
      traced delay was measured from, as another transmission of the same sequence number is not. */
  predicate Suspect(t: Traces, k: Key, rx: RlcRx, tx: RlcTx) {
    Joined(k, rx, tx) && (PuschTime(t, tx).None? || tx.time != Sent(rx))
  }

  // By as much as the component would have been dequeued before the first dequeue, had it waited as long as this
  // transmission did, it is received before the last reception.
  predicate EarlyEnough(t: Traces, k: Key, rx: RlcRx, tx: RlcTx)
    requires FirstDequeue(t, k).Some? && LastRx(t, k).Some? && Complete(rx)
  {
    FirstDequeue(t, k).value - (Sent(rx) + Wait(t, tx)) <= LastRx(t, k).value - rx.time.value
  }

  ghost predicate SuspectsEarlyEnough(t: Traces, k: Key)
    requires FirstDequeue(t, k).Some? && LastRx(t, k).Some?
  {
    forall i, j :: 0 <= i < |t.rlcRx| && 0 <= j < |t.rlcTx| && Suspect(t, k, t.rlcRx[i], t.rlcTx[j]) ==>
      EarlyEnough(t, k, t.rlcRx[i], t.rlcTx[j])
  }

  // A received component with a PUSCH time is dequeued no earlier than the first and received no later than the last.
  lemma MatchedInside(t: Traces, k: Key, rx: RlcRx, tx: RlcTx)
    requires rx in t.rlcRx && tx in t.rlcTx && Joined(k, rx, tx) && PuschTime(t, tx).Some?
    ensures FirstDequeue(t, k).Some? && FirstDequeue(t, k).value <= VirtualDequeue(t, tx)
  {
    var j :| 0 <= j < |t.rlcTx| && t.rlcTx[j] == tx;
    assert DequeueTime(t, k)(t.rlcTx[j]) == Some(VirtualDequeue(t, tx));
    ColumnHas(t.rlcTx, DequeueTime(t, k), VirtualDequeue(t, tx));
    LeastIs(Column(t.rlcTx, DequeueTime(t, k)));
  }

  lemma ReceivedByLast(t: Traces, k: Key, rx: RlcRx)
    requires rx in t.rlcRx && rx.key == k && Complete(rx)
    ensures LastRx(t, k).Some? && rx.time.value <= LastRx(t, k).value
  {
    var i :| 0 <= i < |t.rlcRx| && t.rlcRx[i] == rx;
    assert CompleteRxTime(k)(t.rlcRx[i]) == Some(rx.time.value);
    ColumnHas(t.rlcRx, CompleteRxTime(k), rx.time.value);
    GreatestIs(Column(t.rlcRx, CompleteRxTime(k)));
  }

  // What a pair contributes stays within the link delay when it is not suspect, or early enough.
  lemma JoinedInside(t: Traces, k: Key, rx: RlcRx, tx: RlcTx)
    requires Segmentation(t, k).Some? && rx in t.rlcRx && tx in t.rlcTx && Joined(k, rx, tx)
    ensures CorrectedDelay(t, k)(rx)(tx).value <= LastRx(t, k).value - FirstDequeue(t, k).value <==>
            (Suspect(t, k, rx, tx) ==> EarlyEnough(t, k, rx, tx))
  {
    ReceivedByLast(t, k, rx);
    if PuschTime(t, tx).Some? {
      MatchedInside(t, k, rx, tx);
    }
  }

  /** For all traces, retransmissions and unmatched components included: the segmentation delay is not negative
      exactly when every suspect pair is early enough. */
  lemma SegmentationSign(t: Traces, k: Key)
    requires Segmentation(t, k).Some?
    ensures Segmentation(t, k).value >= 0.0 <==> SuspectsEarlyEnough(t, k)
  {
    var xs, f, m := JoinColumn(t.rlcRx, t.rlcTx, CorrectedDelay(t, k)), CorrectedDelay(t, k), TxRetx(t, k).value;
    GreatestIs(xs);
    if SuspectsEarlyEnough(t, k) {
      JoinColumnHas(t.rlcRx, t.rlcTx, f, m);
      var i :| 0 <= i < |t.rlcRx| && HasValue(t.rlcTx, f(t.rlcRx[i]), m);
      var j :| 0 <= j < |t.rlcTx| && f(t.rlcRx[i])(t.rlcTx[j]) == Some(m);
      JoinedInside(t, k, t.rlcRx[i], t.rlcTx[j]);
    } else {
      var i, j :| 0 <= i < |t.rlcRx| && 0 <= j < |t.rlcTx| && Suspect(t, k, t.rlcRx[i], t.rlcTx[j])
                  && !EarlyEnough(t, k, t.rlcRx[i], t.rlcTx[j]);
      JoinedInside(t, k, t.rlcRx[i], t.rlcTx[j]);
      assert HasValue(t.rlcTx, f(t.rlcRx[i]), f(t.rlcRx[i])(t.rlcTx[j]).value);
      JoinColumnHas(t.rlcRx, t.rlcTx, f, f(t.rlcRx[i])(t.rlcTx[j]).value);
    }
  }

  predicate SameSn(k: Key, a: RlcTx, b: RlcTx) { a.key == k && b.key == k && a.sn.Some? && a.sn == b.sn }

  // Every sequence number of the packet was transmitted once.
  ghost predicate SentOnce(t: Traces, k: Key) {
    forall i, j :: 0 <= i < |t.rlcTx| && 0 <= j < |t.rlcTx| && SameSn(k, t.rlcTx[i], t.rlcTx[j]) ==> i == j
  }

  // The traced delay of every received component was measured from a transmission of its sequence number.
  ghost predicate DelaysTraced(t: Traces, k: Key) {
    forall i, j :: 0 <= i < |t.rlcRx| && 0 <= j < |t.rlcTx| && Joined(k, t.rlcRx[i], t.rlcTx[j]) ==>
      MeasuredFromOne(t, k, t.rlcRx[i])
  }

  ghost predicate MeasuredFromOne(t: Traces, k: Key, rx: RlcRx)
    requires Complete(rx)
  {
    exists j :: 0 <= j < |t.rlcTx| && Joined(k, rx, t.rlcTx[j]) && t.rlcTx[j].time == Sent(rx)
  }

  lemma SentOnceMeasured(t: Traces, k: Key, i: nat, j: nat)
    requires SentOnce(t, k) && DelaysTraced(t, k) && i < |t.rlcRx| && j < |t.rlcTx| && Joined(k, t.rlcRx[i], t.rlcTx[j])
    ensures t.rlcTx[j].time == Sent(t.rlcRx[i])
  {
    var h :| 0 <= h < |t.rlcTx| && Joined(k, t.rlcRx[i], t.rlcTx[h]) && t.rlcTx[h].time == Sent(t.rlcRx[i]);
    assert SameSn(k, t.rlcTx[h], t.rlcTx[j]);
  }

  /** In particular it is not negative for a packet whose sequence numbers were each transmitted once and whose
      components all matched a grant. */
  lemma MatchedSegmentationNotNegative(t: Traces, k: Key)
    requires SentOnce(t, k) && DelaysTraced(t, k) && Segmentation(t, k).Some?
    requires forall j :: 0 <= j < |t.rlcTx| && t.rlcTx[j].key == k && t.rlcTx[j].sn.Some? ==> Usable(t, t.rlcTx[j])
    ensures Segmentation(t, k).value >= 0.0
  {
    forall i, j | 0 <= i < |t.rlcRx| && 0 <= j < |t.rlcTx| && Joined(k, t.rlcRx[i], t.rlcTx[j])
      ensures !Suspect(t, k, t.rlcRx[i], t.rlcTx[j])
    {
      SentOnceMeasured(t, k, i, j);
    }
    SegmentationSign(t, k);
  }

  // When every present value of a column is x, and there is one, both extremes are x.
  lemma ColumnOnly<T>(rows: seq<T>, f: T -> Option<real>, x: real)
    requires exists i :: 0 <= i < |rows| && f(rows[i]) == Some(x)
    requires forall i :: 0 <= i < |rows| && f(rows[i]).Some? ==> f(rows[i]).value == x
    ensures LeastOf(Column(rows, f)) == Some(x) && GreatestOf(Column(rows, f)) == Some(x)
  {
    ColumnHas(rows, f, x);
    forall y | y in Column(rows, f)
      ensures y == x
    {
      ColumnHas(rows, f, y);
    }
    OnlyValue(Column(rows, f), x);
  }

  lemma JoinColumnOnly(rxs: seq<RlcRx>, txs: seq<RlcTx>, f: RlcRx -> RlcTx -> Option<real>, x: real)
    requires exists i :: 0 <= i < |rxs| && HasValue(txs, f(rxs[i]), x)
    requires forall i, y :: 0 <= i < |rxs| && HasValue(txs, f(rxs[i]), y) ==> y == x
    ensures GreatestOf(JoinColumn(rxs, txs, f)) == Some(x)
  {
    JoinColumnHas(rxs, txs, f, x);
    forall y | y in JoinColumn(rxs, txs, f)
      ensures y == x
    {
      JoinColumnHas(rxs, txs, f, y);
    }
    OnlyValue(JoinColumn(rxs, txs, f), x);
  }

  /** A packet sent as one component that matched a grant and was received once has no segmentation delay. */
  lemma OneComponentNoSegmentation(t: Traces, k: Key, rx: RlcRx, tx: RlcTx)
    requires Joined(k, rx, tx) && Sent(rx) == tx.time && Usable(t, tx) && rx in t.rlcRx && tx in t.rlcTx
    requires forall r :: r in t.rlcRx && r.key == k && Complete(r) ==> r == rx
    requires forall s :: s in t.rlcTx && s.key == k ==> s == tx
    ensures Segmentation(t, k) == Some(0.0)
  {
    var i :| 0 <= i < |t.rlcRx| && t.rlcRx[i] == rx;
    var j :| 0 <= j < |t.rlcTx| && t.rlcTx[j] == tx;
    var v := VirtualDequeue(t, tx);
    assert LastRx(t, k) == Some(rx.time.value) by {
      assert CompleteRxTime(k)(t.rlcRx[i]) == Some(rx.time.value);
      ColumnOnly(t.rlcRx, CompleteRxTime(k), rx.time.value);
    }
    assert FirstDequeue(t, k) == Some(v) by {
      assert DequeueTime(t, k)(t.rlcTx[j]) == Some(v);
      ColumnOnly(t.rlcTx, DequeueTime(t, k), v);
    }
    assert TxRetx(t, k) == Some(rx.time.value - v) by {
      assert CorrectedDelay(t, k)(t.rlcRx[i])(t.rlcTx[j]) == Some(rx.time.value - v);
      assert HasValue(t.rlcTx, CorrectedDelay(t, k)(t.rlcRx[i]), rx.time.value - v);
      JoinColumnOnly(t.rlcRx, t.rlcTx, CorrectedDelay(t, k), rx.time.value - v);
    }
  }

  lemma GreatestValue(xs: seq<real>, x: real)
    requires x in xs && forall y :: y in xs ==> y <= x
    ensures GreatestOf(xs) == Some(x)
  {
    GreatestIs(xs);
  }

  lemma LeastValue(xs: seq<real>, x: real)
    requires x in xs && forall y :: y in xs ==> x <= y
    ensures LeastOf(xs) == Some(x)
  {
    LeastIs(xs);
  }

  lemma OnlyValue(xs: seq<real>, x: real)
    requires x in xs && forall y :: y in xs ==> y == x
    ensures LeastOf(xs) == Some(x) && GreatestOf(xs) == Some(x)
  {
    LeastIs(xs);
    GreatestIs(xs);
  }

  // ---------- the times of a packet ----------

  // The values with a property: the least of them, or the greatest, or none.
  ghost predicate LeastWith(x: Option<real>, has: real -> bool) {
    match x
    case None => forall y :: !has(y)
    case Some(v) => has(v) && forall y :: has(y) ==> v <= y
  }

  ghost predicate GreatestWith(x: Option<real>, has: real -> bool) {
    match x
    case None => forall y :: !has(y)
    case Some(v) => has(v) && forall y :: has(y) ==> y <= v
  }

  ghost predicate PdcpSentAt(t: Traces, k: Key, y: real) {
    exists i :: 0 <= i < |t.pdcpTx| && t.pdcpTx[i].key == k && t.pdcpTx[i].time == Some(y)
  }

  ghost predicate PdcpReceivedAt(t: Traces, k: Key, y: real) {
    exists i :: 0 <= i < |t.pdcpRx| && t.pdcpRx[i].key == k && t.pdcpRx[i].time == Some(y)
  }

  // A component of the packet with a sequence number and a PUSCH time, sent at y or dequeued at y.
  ghost predicate ComponentSentAt(t: Traces, k: Key, y: real) {
    exists i :: 0 <= i < |t.rlcTx| && t.rlcTx[i].key == k && t.rlcTx[i].sn.Some? && PuschTime(t, t.rlcTx[i]).Some?
             && t.rlcTx[i].time == y
  }

  ghost predicate ComponentDequeuedAt(t: Traces, k: Key, y: real) {
    exists i :: 0 <= i < |t.rlcTx| && t.rlcTx[i].key == k && t.rlcTx[i].sn.Some? && PuschTime(t, t.rlcTx[i]).Some?
             && VirtualDequeue(t, t.rlcTx[i]) == y
  }

  ghost predicate ReceivedAt(t: Traces, k: Key, y: real) {
    exists i :: 0 <= i < |t.rlcRx| && t.rlcRx[i].key == k && t.rlcRx[i].time == Some(y)
  }

  // The same in a row without a missing cell.
  ghost predicate CompleteAt(t: Traces, k: Key, y: real) {
    exists i :: 0 <= i < |t.rlcRx| && t.rlcRx[i].key == k && t.rlcRx[i].time == Some(y) && t.rlcRx[i].sn.Some? && t.rlcRx[i].delay.Some?
  }

  lemma LeastOfColumn<T>(rows: seq<T>, f: T -> Option<real>, has: real -> bool)
    requires forall y :: has(y) <==> exists i :: 0 <= i < |rows| && f(rows[i]) == Some(y)
    ensures LeastWith(LeastOf(Column(rows, f)), has) && GreatestWith(GreatestOf(Column(rows, f)), has)
  {
    var xs := Column(rows, f);
    forall y
      ensures y in xs <==> has(y)
    {
      ColumnHas(rows, f, y);
    }
    LeastIs(xs);
    GreatestIs(xs);
    assert xs != [] ==> xs[0] in xs;
  }

  /** The times that the delays are measured between, by the rows of the traces: first a packet's components. */
  lemma ComponentTimes(t: Traces, k: Key)
    ensures LeastWith(FirstRlcTx(t, k), y => ComponentSentAt(t, k, y))
    ensures LeastWith(FirstDequeue(t, k), y => ComponentDequeuedAt(t, k, y))
  {
    LeastOfColumn(t.rlcTx, RlcTxTime(t, k), y => ComponentSentAt(t, k, y));
    LeastOfColumn(t.rlcTx, DequeueTime(t, k), y => ComponentDequeuedAt(t, k, y));
  }

  /** The last reception, and the last one in a row without a missing cell. */
  lemma ReceptionTimes(t: Traces, k: Key)
    ensures GreatestWith(LastRx(t, k), y => CompleteAt(t, k, y))
    ensures GreatestWith(LastAnyRx(t, k), y => ReceivedAt(t, k, y))
  {
    LeastOfColumn(t.rlcRx, CompleteRxTime(k), y => CompleteAt(t, k, y));
    LeastOfColumn(t.rlcRx, AnyRxTime(k), y => ReceivedAt(t, k, y));
  }

  /** The first times at PDCP. */
  lemma PdcpTimes(t: Traces, k: Key)
    ensures LeastWith(FirstPdcpTx(t, k), y => PdcpSentAt(t, k, y))
    ensures LeastWith(FirstPdcpRx(t, k), y => PdcpReceivedAt(t, k, y))
  {
    LeastOfColumn(t.pdcpTx, PdcpTxTime(k), y => PdcpSentAt(t, k, y));
    LeastOfColumn(t.pdcpRx, AnyPdcpRxTime(k), y => PdcpReceivedAt(t, k, y));
  }

  // A delay between two times that must come in order.
  ghost predicate Between(delay: Option<real>, from: Option<real>, to: Option<real>) {
    if from.Some? && to.Some? && from.value <= to.value then delay == Some(to.value - from.value) else delay.None?
  }

  /** Queueing ends at the first virtual dequeue and reordering at the first PDCP reception; a packet on which the two
      times are out of order has no such delay. */
  lemma DelaysBetween(t: Traces, k: Key)
    ensures Between(Queueing(t, k), FirstPdcpTx(t, k), FirstDequeue(t, k))
    ensures Between(Reordering(t, k), LastAnyRx(t, k), FirstPdcpRx(t, k))
  {
  }

  /** A component is dequeued a millisecond before its PUSCH, or when it was sent if that is later or it has no PUSCH. */
  lemma DequeueMeans(t: Traces, tx: RlcTx)
    ensures var v, pusch := VirtualDequeue(t, tx), PuschTime(t, tx);
            if pusch.None? then v == tx.time
            else v >= tx.time && v >= pusch.value - 1000.0 && (v == tx.time || v == pusch.value - 1000.0)
  {
  }

  // ---------- the table row and its residual ----------

  function AnyPdcpRxTime(k: Key): PdcpRx -> Option<real> { (r: PdcpRx) => if r.key == k then r.time else None }

  function FirstPdcpRx(t: Traces, k: Key): Option<real> { LeastOf(Column(t.pdcpRx, AnyPdcpRxTime(k))) }

  function Reordering(t: Traces, k: Key): Option<real> { NonNegative(Minus(FirstPdcpRx(t, k), LastAnyRx(t, k))) }

  // The row of the packet table: the earliest receiver PDCP row with a time and a delay.
  function TableRow(rows: seq<PdcpRx>, k: Key): Option<PdcpRx> {
    if rows == [] then None
    else
      var r, earlier := rows[|rows| - 1], TableRow(rows[..|rows| - 1], k);
      if r.key != k || r.time.None? || r.delay.None? then earlier
      else if earlier.Some? && earlier.value.time.Some? && earlier.value.time.value <= r.time.value then earlier
      else Some(r)
  }

  lemma {:induction false} TableRowIsRow(rows: seq<PdcpRx>, k: Key)
    requires TableRow(rows, k).Some?
    ensures var r := TableRow(rows, k).value; r in rows && r.key == k && r.time.Some? && r.delay.Some?
  {
    var front := rows[..|rows| - 1];
    if TableRow(front, k).Some? {
      TableRowIsRow(front, k);
      assert forall r :: r in front ==> r in rows;
    }
  }

  // A row of the packet that has both time and delay.
  predicate Eligible(r: PdcpRx, k: Key) { r.key == k && r.time.Some? && r.delay.Some? }

  ghost predicate IsEarliest(rows: seq<PdcpRx>, k: Key, i: nat)
    requires i < |rows|
  {
    && Eligible(rows[i], k)
    && (forall j :: 0 <= j < |rows| && Eligible(rows[j], k) ==> rows[i].time.value <= rows[j].time.value)
    && (forall j :: 0 <= j < i && Eligible(rows[j], k) ==> rows[i].time.value < rows[j].time.value)
  }

  /** It is the first of the earliest among them. */
  lemma {:induction false} TableRowIsEarliest(rows: seq<PdcpRx>, k: Key)
    ensures TableRow(rows, k).None? ==> forall j :: 0 <= j < |rows| ==> !Eligible(rows[j], k)
    ensures TableRow(rows, k).Some? ==> exists i :: 0 <= i < |rows| && rows[i] == TableRow(rows, k).value && IsEarliest(rows, k, i)
  {
    if rows != [] {
      var front, last := rows[..|rows| - 1], rows[|rows| - 1];
      TableRowIsEarliest(front, k);
      assert rows == front + [last];
      if TableRow(front, k).Some? {
        var i :| 0 <= i < |front| && front[i] == TableRow(front, k).value && IsEarliest(front, k, i);
        OneRowMore(front, k, i, last);
      } else if Eligible(last, k) {
        assert rows[|front|] == last && IsEarliest(rows, k, |front|);
      }
    }
  }

  lemma OneRowMore(front: seq<PdcpRx>, k: Key, i: nat, last: PdcpRx)
    requires i < |front| && IsEarliest(front, k, i)
    ensures var rows := front + [last];
            if Eligible(last, k) && last.time.value < front[i].time.value then rows[|front|] == last && IsEarliest(rows, k, |front|)
            else rows[i] == front[i] && IsEarliest(rows, k, i)
  {
    var rows := front + [last];
    assert forall j :: 0 <= j < |front| ==> rows[j] == front[j];
  }

  function RanDelay(t: Traces, k: Key): Option<real> {
    match TableRow(t.pdcpRx, k) case None => None case Some(r) => r.delay
  }

  function Residual(t: Traces, k: Key): Option<real> {
    Minus(Minus(Minus(RanDelay(t, k), Queueing(t, k)), Link(t, k)), Reordering(t, k))
  }

  lemma TableRowNotFirst(t: Traces, k: Key)
    requires TableRow(t.pdcpRx, k).Some?
    ensures var r := TableRow(t.pdcpRx, k).value;
            r.time.Some? && r.delay.Some? && FirstPdcpRx(t, k).Some? && r.time.value >= FirstPdcpRx(t, k).value
  {
    var r := TableRow(t.pdcpRx, k).value;
    TableRowIsRow(t.pdcpRx, k);
    var i :| 0 <= i < |t.pdcpRx| && t.pdcpRx[i] == r;
    LeastIs(Column(t.pdcpRx, AnyPdcpRxTime(k)));
    ColumnHas(t.pdcpRx, AnyPdcpRxTime(k), r.time.value);
    assert AnyPdcpRxTime(k)(t.pdcpRx[i]) == Some(r.time.value);
  }

  /** The components telescope: the RAN delay is queueing + transmission + segmentation + reordering plus a residual of
      three lags: of the table row behind the first PDCP reception of the packet, of the last RLC reception behind
      the last complete one, and of the first PDCP transmission behind the one the RAN delay was measured from. */
  lemma ResidualIs(t: Traces, k: Key)
    requires Residual(t, k).Some? && TxRetx(t, k).Some?
    ensures RanDelay(t, k).value == Queueing(t, k).value + TxRetx(t, k).value + Segmentation(t, k).value
                                    + Reordering(t, k).value + Residual(t, k).value
    ensures var r := TableRow(t.pdcpRx, k).value;
            && r.time.Some? && r.delay.Some?
            && LastAnyRx(t, k).value >= LastRx(t, k).value && r.time.value >= FirstPdcpRx(t, k).value
            && Residual(t, k).value == (r.time.value - FirstPdcpRx(t, k).value) + (LastAnyRx(t, k).value - LastRx(t, k).value)
                                     + (FirstPdcpTx(t, k).value - (r.time.value - r.delay.value))
  {
    TableRowNotFirst(t, k);
    Narrower(t.rlcRx, CompleteRxTime(k), AnyRxTime(k));
  }

  /** So when the RAN delay of the table row was measured from the packet's first PDCP transmission, the residual is
      never negative, and it is zero exactly when the table row is a first reception and the last RLC reception is
      complete. */
  lemma Telescopes(t: Traces, k: Key)
    requires Residual(t, k).Some? && TxRetx(t, k).Some?
    requires var r := TableRow(t.pdcpRx, k).value; r.time.Some? && r.delay == Minus(r.time, FirstPdcpTx(t, k))
    ensures Residual(t, k).value >= 0.0
    ensures Residual(t, k).value == 0.0 <==>
            TableRow(t.pdcpRx, k).value.time == FirstPdcpRx(t, k) && LastAnyRx(t, k) == LastRx(t, k)
  {
    ResidualIs(t, k);
  }
}
