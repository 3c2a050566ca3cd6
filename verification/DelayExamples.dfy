/** Traces on which the delay decomposition does not come out as its formulas suggest. */
module DelayExamples {
  import opened Wrappers
  import opened DelayDecomposition

  const PACKET := Key(1, 4, 2)

  // The last complete reception, the first dequeue and the greatest corrected delay give the segmentation delay.
  lemma SegmentationFrom(t: Traces, last: real, first: real, txRetx: real)
    requires LastRx(t, PACKET) == Some(last) && FirstDequeue(t, PACKET) == Some(first) && TxRetx(t, PACKET) == Some(txRetx)
    ensures Segmentation(t, PACKET) == Some(last - first - txRetx)
  {
  }

  // An extreme of a column: it is there, and nothing is beyond it.
  lemma GreatestHere<T>(rows: seq<T>, f: T -> Option<real>, i: nat, x: real)
    requires i < |rows| && f(rows[i]) == Some(x)
    requires forall k :: 0 <= k < |rows| && f(rows[k]).Some? ==> f(rows[k]).value <= x
    ensures GreatestOf(Column(rows, f)) == Some(x)
  {
    ColumnHas(rows, f, x);
    forall y | y in Column(rows, f)
      ensures y <= x
    {
      ColumnHas(rows, f, y);
    }
    GreatestValue(Column(rows, f), x);
  }

  lemma LeastHere<T>(rows: seq<T>, f: T -> Option<real>, i: nat, x: real)
    requires i < |rows| && f(rows[i]) == Some(x)
    requires forall k :: 0 <= k < |rows| && f(rows[k]).Some? ==> x <= f(rows[k]).value
    ensures LeastOf(Column(rows, f)) == Some(x)
  {
    ColumnHas(rows, f, x);
    forall y | y in Column(rows, f)
      ensures x <= y
    {
      ColumnHas(rows, f, y);
    }
    LeastValue(Column(rows, f), x);
  }

  lemma GreatestPair(rxs: seq<RlcRx>, txs: seq<RlcTx>, f: RlcRx -> RlcTx -> Option<real>, i: nat, j: nat, x: real)
    requires i < |rxs| && j < |txs| && f(rxs[i])(txs[j]) == Some(x)
    requires forall k, y :: 0 <= k < |rxs| && HasValue(txs, f(rxs[k]), y) ==> y <= x
    ensures GreatestOf(JoinColumn(rxs, txs, f)) == Some(x)
  {
    assert HasValue(txs, f(rxs[i]), x);
    JoinColumnHas(rxs, txs, f, x);
    forall y | y in JoinColumn(rxs, txs, f)
      ensures y <= x
    {
      JoinColumnHas(rxs, txs, f, y);
    }
    GreatestValue(JoinColumn(rxs, txs, f), x);
  }

  // ---------- a component without a grant ----------

  const UNMATCHED := Traces([], [],
    [RlcTx(PACKET, Some(0), 0.0), RlcTx(PACKET, Some(1), 5.0)],
    [RlcRx(PACKET, Some(0), Some(5_000.0), Some(5_000.0)), RlcRx(PACKET, Some(1), Some(2_000.0), Some(1_995.0))],
    [Grant(1, 5.0, Some(1_003.0))], [])

  lemma UnmatchedDequeues()
    ensures !Usable(UNMATCHED, UNMATCHED.rlcTx[0]) && VirtualDequeue(UNMATCHED, UNMATCHED.rlcTx[0]) == 0.0
    ensures Usable(UNMATCHED, UNMATCHED.rlcTx[1]) && VirtualDequeue(UNMATCHED, UNMATCHED.rlcTx[1]) == 8.0
  {
    var grants := UNMATCHED.grants;
    assert grants[..0] == [];
    assert GrantFor(grants, 1, 0.0) == None && GrantFor(grants, 1, 5.0) == Some(grants[0]);
  }

  lemma UnmatchedCorrected()
    ensures var f := CorrectedDelay(UNMATCHED, PACKET);
            && f(UNMATCHED.rlcRx[0])(UNMATCHED.rlcTx[0]) == Some(5_000.0)
            && forall k, y :: 0 <= k < 2 && HasValue(UNMATCHED.rlcTx, f(UNMATCHED.rlcRx[k]), y) ==> y <= 5_000.0
  {
    var f := CorrectedDelay(UNMATCHED, PACKET);
    UnmatchedDequeues();
    assert f(UNMATCHED.rlcRx[0])(UNMATCHED.rlcTx[1]) == None && f(UNMATCHED.rlcRx[1])(UNMATCHED.rlcTx[0]) == None;
    assert f(UNMATCHED.rlcRx[1])(UNMATCHED.rlcTx[1]) == Some(1_992.0);
  }

  /** Every sequence number sent once, but one without a grant: it counts from its RLC transmission in the
      transmission delay and not at all in the first dequeue, and the segmentation delay is negative. */
  lemma UnmatchedComponentGoesNegative()
    ensures SentOnce(UNMATCHED, PACKET) && DelaysTraced(UNMATCHED, PACKET) && Segmentation(UNMATCHED, PACKET) == Some(-8.0)
  {
    UnmatchedDequeues();
    UnmatchedCorrected();
    UnmatchedTraced();
    GreatestHere(UNMATCHED.rlcRx, CompleteRxTime(PACKET), 0, 5_000.0);
    LeastHere(UNMATCHED.rlcTx, DequeueTime(UNMATCHED, PACKET), 1, 8.0);
    GreatestPair(UNMATCHED.rlcRx, UNMATCHED.rlcTx, CorrectedDelay(UNMATCHED, PACKET), 0, 0, 5_000.0);
    SegmentationFrom(UNMATCHED, 5_000.0, 8.0, 5_000.0);
  }

  lemma UnmatchedTraced()
    ensures SentOnce(UNMATCHED, PACKET) && DelaysTraced(UNMATCHED, PACKET)
  {
    forall i | 0 <= i < 2
      ensures MeasuredFromOne(UNMATCHED, PACKET, UNMATCHED.rlcRx[i])
    {
      assert Joined(PACKET, UNMATCHED.rlcRx[i], UNMATCHED.rlcTx[i]) && UNMATCHED.rlcTx[i].time == Sent(UNMATCHED.rlcRx[i]);
    }
  }

  // ---------- a sequence number transmitted twice ----------

  const RETRANSMITTED := Traces([], [],
    [RlcTx(PACKET, Some(0), 0.0), RlcTx(PACKET, Some(0), 2_000.0)],
    [RlcRx(PACKET, Some(0), Some(4_000.0), Some(4_000.0))],
    [Grant(1, 0.0, Some(1_008.0)), Grant(1, 2_000.0, Some(500.0))], [])

  lemma RetransmittedDequeues()
    ensures Usable(RETRANSMITTED, RETRANSMITTED.rlcTx[0]) && VirtualDequeue(RETRANSMITTED, RETRANSMITTED.rlcTx[0]) == 8.0
    ensures Usable(RETRANSMITTED, RETRANSMITTED.rlcTx[1]) && VirtualDequeue(RETRANSMITTED, RETRANSMITTED.rlcTx[1]) == 2_000.0
  {
    var grants := RETRANSMITTED.grants;
    assert grants[..1] == [grants[0]] && [grants[0]][..0] == [];
    assert GrantFor(grants[..1], 1, 0.0) == Some(grants[0]);
    assert GrantFor(grants, 1, 0.0) == Some(grants[0]) && GrantFor(grants, 1, 2_000.0) == Some(grants[1]);
  }

  /** Every component matched a grant, but a sequence number was transmitted twice: its reception is joined with the
      retransmission too, which waited less for its dequeue, and the segmentation delay is negative. */
  lemma RetransmissionGoesNegative()
    ensures forall j :: 0 <= j < |RETRANSMITTED.rlcTx| ==> Usable(RETRANSMITTED, RETRANSMITTED.rlcTx[j])
    ensures DelaysTraced(RETRANSMITTED, PACKET) && !SentOnce(RETRANSMITTED, PACKET)
    ensures Segmentation(RETRANSMITTED, PACKET) == Some(-8.0)
  {
    RetransmittedDequeues();
    assert RETRANSMITTED.rlcTx[0].sn == RETRANSMITTED.rlcTx[1].sn;
    assert Joined(PACKET, RETRANSMITTED.rlcRx[0], RETRANSMITTED.rlcTx[0]) && RETRANSMITTED.rlcTx[0].time == Sent(RETRANSMITTED.rlcRx[0]);
    assert MeasuredFromOne(RETRANSMITTED, PACKET, RETRANSMITTED.rlcRx[0]);
    RetransmittedCorrected();
    GreatestHere(RETRANSMITTED.rlcRx, CompleteRxTime(PACKET), 0, 4_000.0);
    LeastHere(RETRANSMITTED.rlcTx, DequeueTime(RETRANSMITTED, PACKET), 0, 8.0);
    GreatestPair(RETRANSMITTED.rlcRx, RETRANSMITTED.rlcTx, CorrectedDelay(RETRANSMITTED, PACKET), 0, 1, 4_000.0);
    SegmentationFrom(RETRANSMITTED, 4_000.0, 8.0, 4_000.0);
  }

  lemma RetransmittedCorrected()
    ensures var f := CorrectedDelay(RETRANSMITTED, PACKET);
            && f(RETRANSMITTED.rlcRx[0])(RETRANSMITTED.rlcTx[1]) == Some(4_000.0)
            && forall k, y :: 0 <= k < 1 && HasValue(RETRANSMITTED.rlcTx, f(RETRANSMITTED.rlcRx[k]), y) ==> y <= 4_000.0
  {
    var f := CorrectedDelay(RETRANSMITTED, PACKET);
    RetransmittedDequeues();
    assert f(RETRANSMITTED.rlcRx[0])(RETRANSMITTED.rlcTx[0]) == Some(3_992.0);
  }

  // ---------- a received row without a sequence number ----------

  const INCOMPLETE := Traces(
    [PdcpTx(PACKET, Some(0.0))],
    [PdcpRx(PACKET, Some(3_000.0), Some(3_000.0))],
    [RlcTx(PACKET, Some(0), 0.0)],
    [RlcRx(PACKET, Some(0), Some(1_500.0), Some(1_500.0)), RlcRx(PACKET, None, Some(2_500.0), Some(2_500.0))],
    [Grant(1, 0.0, Some(1_008.0))], [])

  /** A received row without a readable sequence number is left out of the link delay and kept in the reordering
      delay: the RAN delay is then 1000 microseconds more than the sum of its components. */
  lemma IncompleteRowLeavesResidual()
    ensures Residual(INCOMPLETE, PACKET) == Some(1_000.0) && TxRetx(INCOMPLETE, PACKET).Some?
    ensures var r := TableRow(INCOMPLETE.pdcpRx, PACKET).value; r.delay == Minus(r.time, FirstPdcpTx(INCOMPLETE, PACKET))
  {
    IncompleteDequeues();
    assert INCOMPLETE.pdcpRx[..0] == [];
    assert TableRow(INCOMPLETE.pdcpRx, PACKET) == Some(INCOMPLETE.pdcpRx[0]);
    LeastHere(INCOMPLETE.pdcpTx, PdcpTxTime(PACKET), 0, 0.0);
    LeastHere(INCOMPLETE.pdcpRx, AnyPdcpRxTime(PACKET), 0, 3_000.0);
    LeastHere(INCOMPLETE.rlcTx, DequeueTime(INCOMPLETE, PACKET), 0, 8.0);
    GreatestHere(INCOMPLETE.rlcRx, CompleteRxTime(PACKET), 0, 1_500.0);
    GreatestHere(INCOMPLETE.rlcRx, AnyRxTime(PACKET), 1, 2_500.0);
    IncompleteCorrected();
  }

  lemma IncompleteDequeues()
    ensures Usable(INCOMPLETE, INCOMPLETE.rlcTx[0]) && VirtualDequeue(INCOMPLETE, INCOMPLETE.rlcTx[0]) == 8.0
  {
    var grants := INCOMPLETE.grants;
    assert grants[..0] == [];
    assert GrantFor(grants, 1, 0.0) == Some(grants[0]);
  }

  lemma IncompleteCorrected()
    ensures TxRetx(INCOMPLETE, PACKET).Some?
  {
    var f := CorrectedDelay(INCOMPLETE, PACKET);
    var x := f(INCOMPLETE.rlcRx[0])(INCOMPLETE.rlcTx[0]);
    assert x.Some? && HasValue(INCOMPLETE.rlcTx, f(INCOMPLETE.rlcRx[0]), x.value);
    JoinColumnHas(INCOMPLETE.rlcRx, INCOMPLETE.rlcTx, f, x.value);
    GreatestIs(JoinColumn(INCOMPLETE.rlcRx, INCOMPLETE.rlcTx, f));
  }
}
