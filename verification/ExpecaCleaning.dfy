/** Cleaning an ExPeCA delay table: passes over whole columns that together treat each row on its own. */
module ExpecaCleaning {
  import opened Wrappers

  // A numeric cell; None is a missing or unreadable number.
  type Cell = Option<real>

  datatype Row = Row(mac: Cell, rlc: Cell, ran: Cell, alignment: Cell, scheduling: Cell, queueing: Cell,
                     tx: Cell, retx: Cell, segmentation: Cell, length: Cell)

  // Comparisons with a missing cell are false.
  predicate Less(a: Cell, b: Cell) { a.Some? && b.Some? && a.value < b.value }

  predicate Negative(a: Cell) { a.Some? && a.value < 0.0 }

  datatype Column = Queueing | Transmission | Retransmission | Segmentation

  const PRIMARY_DELAY_COLUMNS := [Queueing, Transmission, Retransmission, Segmentation]

  function Get(r: Row, c: Column): Cell {
    match c
    case Queueing => r.queueing
    case Transmission => r.tx
    case Retransmission => r.retx
    case Segmentation => r.segmentation
  }

  function Blanked(r: Row, c: Column): Row {
    match c
    case Queueing => r.(queueing := None)
    case Transmission => r.(tx := None)
    case Retransmission => r.(retx := None)
    case Segmentation => r.(segmentation := None)
  }

  predicate OneSegmentRow(r: Row) { r.rlc == Some(1.0) }

  // ---------- the operations on whole columns, each with its count ----------

  datatype Step =
    | MissingMac
    | MissingRlc
    | MacBelowRlc
    | NegativeRan
    | SchedulingAboveQueueing
    | NegativeDelay(column: Column)
    | OneSegment

  const STEPS := [MissingMac, MissingRlc, MacBelowRlc, NegativeRan, SchedulingAboveQueueing, NegativeDelay(Queueing),
                  NegativeDelay(Transmission), NegativeDelay(Retransmission), NegativeDelay(Segmentation), OneSegment]

  /** The rows a step counts. */
  predicate Hit(s: Step, r: Row) {
    match s
    case MissingMac => r.mac.None?
    case MissingRlc => r.rlc.None?
    case MacBelowRlc => Less(r.mac, r.rlc)
    case NegativeRan => Negative(r.ran)
    case SchedulingAboveQueueing => Less(r.queueing, r.scheduling)
    case NegativeDelay(c) => Negative(Get(r, c)) && (c == Segmentation ==> !OneSegmentRow(r))
    case OneSegment => OneSegmentRow(r) && r.segmentation != Some(0.0)
  }

  predicate Drops(s: Step) { s.MissingMac? || s.MissingRlc? || s.MacBelowRlc? || s.NegativeRan? }

  /** What a step leaves of a row. */
  function Treat(s: Step, r: Row): Option<Row> {
    if s.OneSegment? then Some(if OneSegmentRow(r) then r.(segmentation := Some(0.0)) else r)
    else if !Hit(s, r) then Some(r)
    else if Drops(s) then None
    else if s.SchedulingAboveQueueing? then Some(r.(scheduling := None))
    else Some(Blanked(r, s.column))
  }

  function Kept(o: Option<Row>): seq<Row> { if o.Some? then [o.value] else [] }

  function Sweep(s: Step, rows: seq<Row>): seq<Row> {
    if rows == [] then [] else Sweep(s, rows[..|rows| - 1]) + Kept(Treat(s, rows[|rows| - 1]))
  }

  function HitCount(s: Step, rows: seq<Row>): nat {
    if rows == [] then 0 else HitCount(s, rows[..|rows| - 1]) + if Hit(s, rows[|rows| - 1]) then 1 else 0
  }

  // ---------- the meaning, row by row ----------

  predicate Dropped(r: Row) {
    r.mac.None? || r.rlc.None? || r.mac.value < r.rlc.value || Negative(r.ran)
  }

  function NotNegative(a: Cell): Cell { if Negative(a) then None else a }

  function Repaired(r: Row): Row {
    r.(scheduling := if Less(r.queueing, r.scheduling) then None else r.scheduling,
       queueing := NotNegative(r.queueing),
       tx := NotNegative(r.tx),
       retx := NotNegative(r.retx),
       segmentation := if OneSegmentRow(r) then Some(0.0) else NotNegative(r.segmentation))
  }

  function CleanRow(r: Row): Option<Row> { if Dropped(r) then None else Some(Repaired(r)) }

  // A delay after cleaning: a negative one is blanked.
  predicate Cleared(before: Cell, after: Cell) {
    if before.Some? && before.value < 0.0 then after == None else after == before
  }

  /** A row is kept exactly when both attempt counts are there, the MAC one is not the smaller and the RAN delay is not
      negative. A scheduling delay above the queueing delay is blanked, negative delays are, and with one RLC attempt
      the segmentation delay is zero; all else stays. */
  lemma CleanRowMeans(r: Row)
    ensures CleanRow(r).Some? <==> r.mac.Some? && r.rlc.Some? && r.mac.value >= r.rlc.value && !(r.ran.Some? && r.ran.value < 0.0)
    ensures CleanRow(r).Some? ==>
              var c := CleanRow(r).value;
              && c.mac == r.mac && c.rlc == r.rlc && c.ran == r.ran && c.alignment == r.alignment && c.length == r.length
              && c.scheduling == (if r.scheduling.Some? && r.queueing.Some? && r.scheduling.value > r.queueing.value then None else r.scheduling)
              && Cleared(r.queueing, c.queueing) && Cleared(r.tx, c.tx) && Cleared(r.retx, c.retx)
              && (if r.rlc.value == 1.0 then c.segmentation == Some(0.0) else Cleared(r.segmentation, c.segmentation))
  {
  }

  function RowByRow(f: Row -> Option<Row>, rows: seq<Row>): seq<Row> {
    if rows == [] then [] else RowByRow(f, rows[..|rows| - 1]) + Kept(f(rows[|rows| - 1]))
  }

  function Cleaned(rows: seq<Row>): seq<Row> { RowByRow(CleanRow, rows) }

  /** Whether a row of the original table is counted under a step: a row counts as dropped only under the
      first reason, and as repaired only if it is not dropped. */
  predicate Counted(s: Step, r: Row) {
    match s
    case MissingMac => r.mac.None?
    case MissingRlc => r.mac.Some? && r.rlc.None?
    case MacBelowRlc => Less(r.mac, r.rlc)
    case NegativeRan => r.mac.Some? && r.rlc.Some? && r.mac.value >= r.rlc.value && Negative(r.ran)
    case SchedulingAboveQueueing => !Dropped(r) && Less(r.queueing, r.scheduling)
    case NegativeDelay(c) => !Dropped(r) && Negative(Get(r, c)) && (c == Segmentation ==> !OneSegmentRow(r))
    case OneSegment => !Dropped(r) && OneSegmentRow(r) && r.segmentation != Some(0.0)
  }

  function Count(s: Step, rows: seq<Row>): nat {
    if rows == [] then 0 else Count(s, rows[..|rows| - 1]) + if Counted(s, rows[|rows| - 1]) then 1 else 0
  }

  // ---------- the steps compute the meaning ----------

  ghost function Through(r: Row, n: nat): Option<Row>
    requires n <= |STEPS|
  {
    if n == 0 then Some(r)
    else match Through(r, n - 1)
      case None => None
      case Some(q) => Treat(STEPS[n - 1], q)
  }

  ghost function After(rows: seq<Row>, n: nat): seq<Row>
    requires n <= |STEPS|
  {
    if rows == [] then [] else After(rows[..|rows| - 1], n) + Kept(Through(rows[|rows| - 1], n))
  }

  lemma FirstSteps(r: Row)
    ensures Through(r, 4) == if Dropped(r) then None else Some(r)
    ensures forall n :: 0 <= n < 4 ==> (Counted(STEPS[n], r) <==> Through(r, n).Some? && Hit(STEPS[n], Through(r, n).value))
  {
    assert Through(r, 0) == Some(r);
    assert Through(r, 1) == if r.mac.None? then None else Some(r);
    assert Through(r, 2) == if r.mac.None? || r.rlc.None? then None else Some(r);
    assert Through(r, 3) == if r.mac.None? || r.rlc.None? || Less(r.mac, r.rlc) then None else Some(r);
  }

  lemma LaterSteps(r: Row)
    requires !Dropped(r)
    ensures Through(r, |STEPS|) == Some(Repaired(r))
    ensures forall n :: 4 <= n < |STEPS| ==> Through(r, n).Some? && (Counted(STEPS[n], r) <==> Hit(STEPS[n], Through(r, n).value))
  {
    FirstSteps(r);
    var a := r.(scheduling := if Less(r.queueing, r.scheduling) then None else r.scheduling);
    var b := a.(queueing := NotNegative(r.queueing));
    var c := b.(tx := NotNegative(r.tx));
    var d := c.(retx := NotNegative(r.retx));
    var e := d.(segmentation := if OneSegmentRow(r) then r.segmentation else NotNegative(r.segmentation));
    assert Through(r, 5) == Some(a);
    assert Through(r, 6) == Some(b);
    assert Through(r, 7) == Some(c);
    assert Through(r, 8) == Some(d);
    assert Through(r, 9) == Some(e);
  }

  lemma {:induction false} DroppedStays(r: Row, n: nat)
    requires Dropped(r) && 4 <= n <= |STEPS|
    ensures Through(r, n).None?
  {
    if n == 4 {
      FirstSteps(r);
    } else {
      DroppedStays(r, n - 1);
    }
  }

  lemma StepsCleanRow(r: Row)
    ensures Through(r, |STEPS|) == CleanRow(r)
    ensures forall n :: 0 <= n < |STEPS| ==> (Counted(STEPS[n], r) <==> Through(r, n).Some? && Hit(STEPS[n], Through(r, n).value))
  {
    FirstSteps(r);
    if Dropped(r) {
      forall n | 4 <= n <= |STEPS|
        ensures Through(r, n).None?
      {
        DroppedStays(r, n);
      }
    } else {
      LaterSteps(r);
    }
  }

  lemma {:induction false} SweepIsStep(rows: seq<Row>, n: nat)
    requires n < |STEPS|
    ensures Sweep(STEPS[n], After(rows, n)) == After(rows, n + 1)
    ensures HitCount(STEPS[n], After(rows, n)) == Count(STEPS[n], rows)
  {
    if rows != [] {
      var front, r := rows[..|rows| - 1], rows[|rows| - 1];
      SweepIsStep(front, n);
      StepsCleanRow(r);
      var before := Through(r, n);
      if before.Some? {
        assert (After(front, n) + [before.value])[..|After(front, n)|] == After(front, n);
      } else {
        assert After(rows, n) == After(front, n);
      }
    }
  }

  lemma {:induction false} NoSteps(rows: seq<Row>)
    ensures After(rows, 0) == rows
  {
    if rows != [] {
      NoSteps(rows[..|rows| - 1]);
    }
  }

  lemma {:induction false} AllSteps(rows: seq<Row>)
    ensures After(rows, |STEPS|) == Cleaned(rows)
  {
    if rows != [] {
      AllSteps(rows[..|rows| - 1]);
      StepsCleanRow(rows[|rows| - 1]);
    }
  }

  /** Every row of the table is kept or counted under exactly one of the four reasons for dropping it. */
  lemma {:induction false} RowsConserved(rows: seq<Row>)
    ensures |rows| == |Cleaned(rows)| + Count(MissingMac, rows) + Count(MissingRlc, rows) + Count(MacBelowRlc, rows)
                    + Count(NegativeRan, rows)
  {
    if rows != [] {
      RowsConserved(rows[..|rows| - 1]);
    }
  }

  // The counts of the first n steps.
  ghost function CountsAfter(frame: seq<Row>, n: nat): map<Step, nat>
    requires n <= |STEPS|
  {
    if n == 0 then map[] else CountsAfter(frame, n - 1)[STEPS[n - 1] := Count(STEPS[n - 1], frame)]
  }

  // What the first n steps have left of a table, with their counts.
  ghost predicate Swept(frame: seq<Row>, n: nat, rows: seq<Row>, counts: map<Step, nat>) {
    n <= |STEPS| && rows == After(frame, n) && counts == CountsAfter(frame, n)
  }

  method SweepStep(s: Step, ghost n: nat, ghost frame: seq<Row>, rows: seq<Row>, counts: map<Step, nat>)
    returns (next: seq<Row>, nextCounts: map<Step, nat>)
    requires n < |STEPS| && s == STEPS[n] && Swept(frame, n, rows, counts)
    ensures Swept(frame, n + 1, next, nextCounts)
  {
    SweepIsStep(frame, n);
    nextCounts := counts[s := HitCount(s, rows)];
    next := Sweep(s, rows);
  }

  lemma {:induction false} CountsAfterHas(frame: seq<Row>, n: nat, i: nat)
    requires i < n <= |STEPS|
    ensures STEPS[i] in CountsAfter(frame, n) && CountsAfter(frame, n)[STEPS[i]] == Count(STEPS[i], frame)
  {
    if i < n - 1 {
      CountsAfterHas(frame, n - 1, i);
    }
  }

  lemma AllSwept(frame: seq<Row>, rows: seq<Row>, counts: map<Step, nat>)
    requires Swept(frame, |STEPS|, rows, counts)
    ensures rows == Cleaned(frame)
    ensures forall s :: s in STEPS ==> s in counts && counts[s] == Count(s, frame)
  {
    AllSteps(frame);
    forall s | s in STEPS
      ensures s in counts && counts[s] == Count(s, frame)
    {
      var i :| 0 <= i < |STEPS| && STEPS[i] == s;
      CountsAfterHas(frame, |STEPS|, i);
    }
  }

  // The two steps that drop rows without attempts, and the two that drop rows with impossible values.
  method DropMissing(frame: seq<Row>) returns (cleaned: seq<Row>, counts: map<Step, nat>)
    ensures Swept(frame, 2, cleaned, counts)
  {
    NoSteps(frame);
    cleaned, counts := SweepStep(MissingMac, 0, frame, frame, map[]);
    cleaned, counts := SweepStep(MissingRlc, 1, frame, cleaned, counts);
  }

  method DropImpossible(ghost frame: seq<Row>, rows: seq<Row>, before: map<Step, nat>) returns (cleaned: seq<Row>, counts: map<Step, nat>)
    requires Swept(frame, 2, rows, before)
    ensures Swept(frame, 4, cleaned, counts)
  {
    cleaned, counts := SweepStep(MacBelowRlc, 2, frame, rows, before);
    cleaned, counts := SweepStep(NegativeRan, 3, frame, cleaned, counts);
  }

  /** The cleaning: one pass over the table for each step, which together treat each row on its own. */
  method CleanExpecaData(frame: seq<Row>) returns (cleaned: seq<Row>, counts: map<Step, nat>)
    ensures cleaned == Cleaned(frame)
    ensures forall s :: s in STEPS ==> s in counts && counts[s] == Count(s, frame)
  {
    cleaned, counts := DropMissing(frame);
    cleaned, counts := DropImpossible(frame, cleaned, counts);
    cleaned, counts := SweepStep(SchedulingAboveQueueing, 4, frame, cleaned, counts);
    for k := 0 to |PRIMARY_DELAY_COLUMNS|
      invariant Swept(frame, 5 + k, cleaned, counts)
    {
      cleaned, counts := SweepStep(NegativeDelay(PRIMARY_DELAY_COLUMNS[k]), 5 + k, frame, cleaned, counts);
    }
    cleaned, counts := SweepStep(OneSegment, 9, frame, cleaned, counts);
    AllSwept(frame, cleaned, counts);
  }

  lemma CleanRowIsFixed(r: Row, s: Step)
    requires CleanRow(r).Some?
    ensures var q := CleanRow(r).value; CleanRow(q) == Some(q) && !Counted(s, q)
  {
    if s.NegativeDelay? {
      assert !Negative(Get(Repaired(r), s.column)) || OneSegmentRow(r);
    }
  }

  /** Cleaning a cleaned table changes nothing and counts nothing. */
  lemma {:induction false} CleaningIsIdempotent(rows: seq<Row>, s: Step)
    ensures Cleaned(Cleaned(rows)) == Cleaned(rows) && Count(s, Cleaned(rows)) == 0
  {
    if rows != [] {
      var front, r := rows[..|rows| - 1], rows[|rows| - 1];
      CleaningIsIdempotent(front, s);
      if CleanRow(r).Some? {
        CleanRowIsFixed(r, s);
        assert (Cleaned(front) + [CleanRow(r).value])[..|Cleaned(front)|] == Cleaned(front);
      } else {
        assert Cleaned(rows) == Cleaned(front);
      }
    }
  }
}
