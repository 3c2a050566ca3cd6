/** Which uplink slots can be scheduled: the DCI of a target slot, and the search for the
    first `count` targets under a scan limit. */
module UplinkTargets {
  import opened Wrappers
  import opened FirstSlots
  import opened TddPattern

  /** The two scheduler parameters, in slots. */
  datatype Timing = Timing(k2: int, lookahead: int)

  ghost function DlOffset(p: Pattern): (i: nat)
    ensures i < |p| && CarriesDlControl(p[i])
  {
    var i: nat :| i < |p| && CarriesDlControl(p[i]);
    i
  }

  ghost function UlOffset(p: Pattern): (i: nat)
    ensures i < |p| && CarriesUlData(p[i])
  {
    var i: nat :| i < |p| && CarriesUlData(p[i]);
    i
  }

  // Slots still to step back from x before the DL-control slot DlOffset(p) comes round.
  ghost function Back(p: Pattern, x: int): (d: nat)
    ensures d < |p|
  {
    var w, i := Wrap(x, |p|), DlOffset(p);
    if w >= i then w - i else w - i + |p|
  }

  // Slots still to step forward from x before the UL-data slot UlOffset(p) comes round.
  ghost function Ahead(p: Pattern, x: int): (d: nat)
    ensures d < |p|
  {
    var w, i := Wrap(x, |p|), UlOffset(p);
    if i >= w then i - w else i - w + |p|
  }

  lemma BackStep(p: Pattern, x: int)
    ensures !CarriesDlControl(At(p, x)) ==> Back(p, x) > 0 && Back(p, x - 1) == Back(p, x) - 1
  {
    WrapStep(x - 1, |p|);
  }

  lemma AheadStep(p: Pattern, x: int)
    ensures !CarriesUlData(At(p, x)) ==> Ahead(p, x) > 0 && Ahead(p, x + 1) == Ahead(p, x) - 1
  {
    WrapStep(x, |p|);
  }

  /** The last slot at or before x that can carry a DCI. */
  ghost function LastDci(p: Pattern, x: int): int
    decreases Back(p, x)
  {
    BackStep(p, x);
    if CarriesDlControl(At(p, x)) then x else LastDci(p, x - 1)
  }

  ghost predicate IsLastDci(p: Pattern, x: int, d: int) {
    d <= x && CarriesDlControl(At(p, d)) && forall y :: d < y <= x ==> !CarriesDlControl(At(p, y))
  }

  lemma {:induction false} LastDciIsLast(p: Pattern, x: int)
    ensures IsLastDci(p, x, LastDci(p, x)) && x - Back(p, x) <= LastDci(p, x)
    decreases Back(p, x)
  {
    BackStep(p, x);
    if !CarriesDlControl(At(p, x)) {
      LastDciIsLast(p, x - 1);
    }
  }

  lemma LastDciMonotone(p: Pattern, x: int, y: int)
    requires x <= y
    ensures LastDci(p, x) <= LastDci(p, y)
  {
    LastDciIsLast(p, x);
    LastDciIsLast(p, y);
  }

  lemma LastDciPeriodic(p: Pattern, x: int)
    ensures LastDci(p, x + |p|) == LastDci(p, x) + |p|
  {
    LastDciIsLast(p, x);
    LastDciIsLast(p, x + |p|);
    AtPeriodic(p, LastDci(p, x));
    AtPeriodic(p, LastDci(p, x + |p|) - |p|);
  }

  // The DCI for `target` sent K slots ahead falls in a slot with DL control.
  predicate DciFits(p: Pattern, target: int, k: int) {
    CarriesDlControl(At(p, target - k))
  }

  /** The loop that raises K2 until its DCI falls in a slot with DL control. It picks the least
      K at or above the configured K2 whose DCI slot can carry a DCI, after fewer steps than the
      pattern has slots. */
  method DciAndGenerationSlots(target: int, p: Pattern, t: Timing)
    returns (dci: int, generation: int, effectiveK2: int)
    ensures t.k2 <= effectiveK2 < t.k2 + |p|
    ensures DciFits(p, target, effectiveK2)
    ensures forall k :: t.k2 <= k < effectiveK2 ==> !DciFits(p, target, k)
    ensures dci == target - effectiveK2 && generation == dci - t.lookahead
    ensures dci == LastDci(p, target - t.k2)
  {
    LastDciIsLast(p, target - t.k2);
    effectiveK2 := t.k2;
    dci := target - effectiveK2;
    while !CarriesDlControl(At(p, dci))
      invariant t.k2 <= effectiveK2 && dci == target - effectiveK2
      invariant LastDci(p, target - t.k2) <= dci
      invariant forall k :: t.k2 <= k < effectiveK2 ==> !DciFits(p, target, k)
      decreases dci - LastDci(p, target - t.k2)
    {
      effectiveK2 := effectiveK2 + 1;
      dci := target - effectiveK2;
    }
    generation := dci - t.lookahead;
  }

  /** A UL-data slot whose scheduling instant is not before `ready`. */
  ghost predicate Eligible(p: Pattern, t: Timing, ready: int, slot: int) {
    CarriesUlData(At(p, slot)) && LastDci(p, slot - t.k2) - t.lookahead >= ready
  }

  /** Eligibility without the search: some K at or above K2 puts the DCI in a slot with DL control,
      generated no earlier than `ready`. */
  lemma EligibleMeans(p: Pattern, t: Timing, ready: int, slot: int)
    ensures Eligible(p, t, ready, slot) <==>
      CarriesUlData(At(p, slot)) &&
      exists k :: k >= t.k2 && DciFits(p, slot, k) && slot - k - t.lookahead >= ready
  {
    var d := LastDci(p, slot - t.k2);
    LastDciIsLast(p, slot - t.k2);
    assert slot - (slot - d) == d && (DciFits(p, slot, slot - d) <==> CarriesDlControl(At(p, d)));
  }

  /** Once the search has found a target, every later UL-data slot is one. Less of K2, lookahead or
      ready only adds targets. */
  lemma EligibleMonotone(p: Pattern, t: Timing, t': Timing, ready: int, ready': int, slot: int, slot': int)
    requires t.k2 <= t'.k2 && t.lookahead <= t'.lookahead && ready <= ready' && slot <= slot'
    requires Eligible(p, t', ready', slot) && CarriesUlData(At(p, slot'))
    ensures Eligible(p, t, ready, slot')
  {
    LastDciMonotone(p, slot - t'.k2, slot' - t.k2);
  }

  lemma EligiblePeriodic(p: Pattern, t: Timing, ready: int, slot: int)
    ensures Eligible(p, t, ready + |p|, slot + |p|) == Eligible(p, t, ready, slot)
  {
    AtPeriodic(p, slot);
    LastDciPeriodic(p, slot - t.k2);
  }

  /** The condition on a slot that the search tests. */
  ghost function Schedulable(p: Pattern, t: Timing, ready: int): Condition {
    slot => Eligible(p, t, ready, slot)
  }

  // From this slot on, every UL-data slot is eligible.
  ghost function Horizon(p: Pattern, t: Timing, ready: int): int {
    ready + t.lookahead + t.k2 + |p| - 1
  }

  lemma SchedulableRecurs(p: Pattern, t: Timing, ready: int)
    ensures Recurs(Schedulable(p, t, ready))
    ensures RecursWithin(Schedulable(p, t, ready), Horizon(p, t, ready), |p|)
  {
    var e, h := Schedulable(p, t, ready), Horizon(p, t, ready);
    forall x | x >= h
      ensures SomeIn(e, x, |p|)
    {
      var s := NextUlData(p, x);
      LastDciIsLast(p, s - t.k2);
      assert e(s);
    }
    forall x
      ensures SomeFrom(e, x)
    {
      var y := if x >= h then x else h;
      assert SomeIn(e, y, |p|);
      var s :| y <= s < y + |p| && e(s);
    }
  }

  lemma {:induction false} NextUlData(p: Pattern, x: int) returns (s: int)
    ensures x <= s <= x + Ahead(p, x) && CarriesUlData(At(p, s))
    decreases Ahead(p, x)
  {
    AheadStep(p, x);
    if CarriesUlData(At(p, x)) {
      s := x;
    } else {
      s := NextUlData(p, x + 1);
    }
  }

  /** The first `count` slots at or after `from` that can be scheduled once the scheduler is ready. */
  ghost function Targets(p: Pattern, t: Timing, ready: int, from: int, count: nat): (ts: seq<int>)
    ensures |ts| == count
  {
    SchedulableRecurs(p, t, ready);
    Firsts(Schedulable(p, t, ready), from, count)
  }

  /** Targets increase, each is a UL-data slot for which some K >= K2 gives a DCI generated no earlier
      than `ready`, no such slot is left out up to the last one, and after the first target they run
      through consecutive UL-data slots. */
  lemma TargetsAreFirst(p: Pattern, t: Timing, ready: int, from: int, count: nat)
    ensures var ts := Targets(p, t, ready, from, count);
            && ListsFirst(Schedulable(p, t, ready), from, ts)
            && forall s :: count > 0 && ts[0] <= s <= ts[count - 1] && CarriesUlData(At(p, s)) ==> s in ts
  {
    var e, ts := Schedulable(p, t, ready), Targets(p, t, ready, from, count);
    SchedulableRecurs(p, t, ready);
    FirstsListFirst(e, from, count);
    forall s | count > 0 && ts[0] <= s <= ts[count - 1] && CarriesUlData(At(p, s))
      ensures s in ts
    {
      assert e(ts[0]);
      EligibleMonotone(p, t, t, ready, ready, ts[0], s);
      assert e(s);
    }
  }

  lemma TargetsAreOnlyFirst(p: Pattern, t: Timing, ready: int, from: int, ts: seq<int>)
    requires ListsFirst(Schedulable(p, t, ready), from, ts)
    ensures ts == Targets(p, t, ready, from, |ts|)
  {
    SchedulableRecurs(p, t, ready);
    ListsFirstUnique(Schedulable(p, t, ready), from, ts);
  }

  /** Moving the ready slot and the first candidate by one pattern moves every target by one pattern. */
  lemma TargetsPeriodic(p: Pattern, t: Timing, ready: int, from: int, count: nat, i: nat)
    requires i < count
    ensures Targets(p, t, ready + |p|, from + |p|, count)[i] == Targets(p, t, ready, from, count)[i] + |p|
  {
    var e, e' := Schedulable(p, t, ready), Schedulable(p, t, ready + |p|);
    SchedulableRecurs(p, t, ready);
    SchedulableRecurs(p, t, ready + |p|);
    forall s
      ensures e(s) == e'(s + |p|)
    {
      EligiblePeriodic(p, t, ready, s);
    }
    FirstsShift(e, e', from, |p|, count, i);
  }

  /** A larger K2, a larger lookahead, a later ready slot or a later start never makes any target earlier. */
  lemma TargetsMonotone(p: Pattern, t: Timing, t': Timing, ready: int, ready': int, from: int, from': int, count: nat, i: nat)
    requires t.k2 <= t'.k2 && t.lookahead <= t'.lookahead && ready <= ready' && from <= from' && i < count
    ensures Targets(p, t, ready, from, count)[i] <= Targets(p, t', ready', from', count)[i]
  {
    var e, e' := Schedulable(p, t, ready), Schedulable(p, t', ready');
    SchedulableRecurs(p, t, ready);
    SchedulableRecurs(p, t', ready');
    forall s | e'(s)
      ensures e(s)
    {
      EligibleMonotone(p, t, t', ready, ready', s, s);
    }
    FirstsMonotone(e, e', from, from', count, i);
  }

  /** No target is later than the horizon plus one pattern per target. */
  lemma TargetsBound(p: Pattern, t: Timing, ready: int, from: int, count: nat, i: nat)
    requires i < count
    ensures var h := Horizon(p, t, ready);
            from <= Targets(p, t, ready, from, count)[i] <= (if from <= h then h else from) + (i + 1) * |p| - 1
  {
    var h := Horizon(p, t, ready);
    SchedulableRecurs(p, t, ready);
    FirstsBound(Schedulable(p, t, ready), from, count, i, if from <= h then h else from, |p|);
  }

  // ---------- the targets in terms of the pattern ----------

  ghost function UlData(p: Pattern): Condition { slot => CarriesUlData(At(p, slot)) }

  ghost function DlControl(p: Pattern): Condition { slot => CarriesDlControl(At(p, slot)) }

  lemma SlotsRecur(p: Pattern)
    ensures Recurs(UlData(p)) && Recurs(DlControl(p))
  {
    forall x
      ensures SomeFrom(UlData(p), x) && SomeFrom(DlControl(p), x)
    {
      var s := NextUlData(p, x);
      assert UlData(p)(s);
      LastDciIsLast(p, x + |p|);
      assert DlControl(p)(LastDci(p, x + |p|));
    }
  }

  /** The first slot at or after x that can carry a DCI. */
  ghost function FirstDl(p: Pattern, x: int): (d: int)
    ensures IsNext(DlControl(p), x, d)
  {
    SlotsRecur(p);
    Next(DlControl(p), x)
  }

  /** The UL-data slot number `count` at or after x. */
  ghost function NthUlData(p: Pattern, x: int, count: nat): int
    requires count > 0
  {
    SlotsRecur(p);
    Firsts(UlData(p), x, count)[count - 1]
  }

  /** From this slot on, and from no earlier one, UL-data slots are accepted. */
  ghost function Opening(p: Pattern, t: Timing, ready: int): int { t.k2 + FirstDl(p, ready + t.lookahead) }

  /** A slot is accepted exactly when it carries UL data and comes K2 slots or more after the first DL-control slot
      whose DCI the scheduler can still generate. */
  lemma EligibleFromOpening(p: Pattern, t: Timing, ready: int, slot: int)
    ensures Eligible(p, t, ready, slot) <==> CarriesUlData(At(p, slot)) && slot >= Opening(p, t, ready)
  {
    var d := FirstDl(p, ready + t.lookahead);
    LastDciIsLast(p, slot - t.k2);
    assert DlControl(p)(d) && (DlControl(p)(LastDci(p, slot - t.k2)) <==> CarriesDlControl(At(p, LastDci(p, slot - t.k2))));
  }

  // Where the wanted slots begin.
  ghost function Start(p: Pattern, t: Timing, ready: int, from: int): int {
    if from >= Opening(p, t, ready) then from else Opening(p, t, ready)
  }

  /** The targets are the first UL-data slots from the opening on. */
  lemma TargetsFromOpening(p: Pattern, t: Timing, ready: int, from: int, count: nat)
    ensures Recurs(UlData(p)) && Targets(p, t, ready, from, count) == Firsts(UlData(p), Start(p, t, ready, from), count)
  {
    var e, u := Schedulable(p, t, ready), UlData(p);
    SchedulableRecurs(p, t, ready);
    SlotsRecur(p);
    forall s
      ensures e(s) <==> u(s) && s >= Opening(p, t, ready)
    {
      EligibleFromOpening(p, t, ready, s);
    }
    FirstsFrom(e, u, Opening(p, t, ready), from, count);
  }

  // ---------- the bounded search ----------

  function ScanLimit(p: Pattern, count: int): int {
    if 10_000 >= count * |p| * 100 then 10_000 else count * |p| * 100
  }

  datatype SearchError = CouldNotFind

  // The number of slots from `from` up to and including the last wanted target.
  ghost function ScansNeeded(p: Pattern, t: Timing, ready: int, from: int, count: nat): int {
    if count == 0 then 0 else Targets(p, t, ready, from, count)[count - 1] - from + 1
  }

  /** The last wanted UL-data slot, counted from the opening, is as many slots from the first candidate as the
      limit allows or more. */
  ghost predicate BeyondLimit(p: Pattern, t: Timing, ready: int, from: int, count: nat)
    requires count > 0
  {
    var distance := NthUlData(p, Start(p, t, ready, from), count) - from;
    distance >= 10_000 && distance >= count * |p| * 100
  }

  /** When the limit hides a schedulable slot, for every pattern, timing and count. */
  lemma FailsExactlyWhen(p: Pattern, t: Timing, ready: int, from: int, count: nat)
    requires count > 0
    ensures ScansNeeded(p, t, ready, from, count) > ScanLimit(p, count) <==> BeyondLimit(p, t, ready, from, count)
  {
    TargetsFromOpening(p, t, ready, from, count);
  }

  // The test of one candidate.
  method Accepts(p: Pattern, ready: int, candidate: int, t: Timing) returns (accepted: bool)
    ensures accepted == Schedulable(p, t, ready)(candidate)
  {
    accepted := false;
    if CarriesUlData(At(p, candidate)) {
      var _, generation, _ := DciAndGenerationSlots(candidate, p, t);
      accepted := generation >= ready;
    }
  }

  /** The search gives up exactly when the last wanted target lies beyond the scan limit, and
      otherwise finds the first `count` eligible slots. */
  method EligibleUlTargets(p: Pattern, ready: int, from: int, count: nat, t: Timing)
    returns (r: Result<seq<int>, SearchError>)
    ensures r.Ok? <==> ScansNeeded(p, t, ready, from, count) <= ScanLimit(p, count)
    ensures r.Ok? ==> r.value == Targets(p, t, ready, from, count)
    ensures count > 0 ==> (r.Err? <==> BeyondLimit(p, t, ready, from, count))
  {
    if count > 0 {
      FailsExactlyWhen(p, t, ready, from, count);
    }
    var targets: seq<int> := [];
    var candidate := from;
    var scanned := 0;
    var scanLimit := ScanLimit(p, count);
    ghost var e, all := Schedulable(p, t, ready), Targets(p, t, ready, from, count);
    SchedulableRecurs(p, t, ready);
    while |targets| < count
      invariant |targets| <= count && scanned == candidate - from <= scanLimit
      invariant Rest(e, targets, candidate, all)
      invariant |targets| == count && count > 0 ==> candidate == all[count - 1] + 1
      decreases scanLimit - scanned
    {
      SearchStep(e, targets, candidate, all);
      var accepted := Accepts(p, ready, candidate, t);
      if accepted {
        targets := targets + [candidate];
      }
      candidate := candidate + 1;
      scanned := scanned + 1;
      if scanned > scanLimit {
        return Err(CouldNotFind);
      }
    }
    return Ok(targets);
  }

  /** When the search starts at the ready slot, K2 plus lookahead of at most 9800 slots never
      exhausts the scan limit, whatever the pattern and the number of targets. */
  lemma SearchSucceeds(p: Pattern, t: Timing, ready: int, count: nat)
    requires t.k2 >= 0 && t.lookahead >= 0
    ensures t.k2 + t.lookahead + (count + 1) * |p| - 1 <= ScanLimit(p, count)
            ==> ScansNeeded(p, t, ready, ready, count) <= ScanLimit(p, count)
    ensures t.k2 + t.lookahead <= 9_800 ==> ScansNeeded(p, t, ready, ready, count) <= ScanLimit(p, count)
  {
    if count > 0 {
      TargetsBound(p, t, ready, ready, count, count - 1);
      var slots := count * |p|;
      assert (count + 1) * |p| == slots + |p|;
      assert |p| <= slots by { assert slots - |p| == (count - 1) * |p|; }
    }
  }

  /** The limit is on scanned slots, not on slots that could still be scheduled: with an all-flexible
      pattern the first target exists for every K2, but K2 of 10000 slots and more is reported as
      unschedulable. */
  lemma LimitHidesTarget(k2: nat)
    ensures Eligible(Flexible(), Timing(k2, 0), 0, k2)
    ensures ScansNeeded(Flexible(), Timing(k2, 0), 0, 0, 1) <= ScanLimit(Flexible(), 1) <==> k2 < 10_000
  {
    var p, t := Flexible(), Timing(k2, 0);
    var e := Schedulable(p, t, 0);
    assert forall x :: At(p, x) == F;
    assert forall x :: e(x) <==> x >= k2;
    SchedulableRecurs(p, t, 0);
    assert ListsFirst(e, 0, [k2]);
    TargetsAreOnlyFirst(p, t, 0, 0, [k2]);
  }
}
