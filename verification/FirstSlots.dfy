/** The first slots of a timeline that satisfy a condition, for any condition that keeps recurring. */
module FirstSlots {
  type Condition = int -> bool

  ghost predicate SomeFrom(e: Condition, x: int) {
    exists s :: s >= x && e(s)
  }

  ghost predicate Recurs(e: Condition) {
    forall x :: SomeFrom(e, x)
  }

  ghost predicate IsNext(e: Condition, from: int, slot: int) {
    slot >= from && e(slot) && forall s :: from <= s < slot ==> !e(s)
  }

  lemma {:induction false} NextExists(e: Condition, from: int, later: int)
    requires later >= from && e(later)
    ensures exists slot :: IsNext(e, from, slot)
    decreases later - from
  {
    if s :| from <= s < later && e(s) {
      NextExists(e, from, s);
    } else {
      assert IsNext(e, from, later);
    }
  }

  lemma SomeNext(e: Condition, from: int)
    requires Recurs(e)
    ensures exists slot :: IsNext(e, from, slot)
  {
    assert SomeFrom(e, from);
    var later :| later >= from && e(later);
    NextExists(e, from, later);
  }

  /** The first slot at or after `from` that satisfies the condition. */
  ghost function Next(e: Condition, from: int): (slot: int)
    requires Recurs(e)
    ensures IsNext(e, from, slot)
  {
    SomeNext(e, from);
    var slot :| IsNext(e, from, slot);
    slot
  }

  /** The first `count` slots at or after `from` that satisfy the condition. */
  ghost function Firsts(e: Condition, from: int, count: nat): (ts: seq<int>)
    requires Recurs(e)
    ensures |ts| == count
    decreases count
  {
    if count == 0 then []
    else
      var slot := Next(e, from);
      [slot] + Firsts(e, slot + 1, count - 1)
  }

  /** `ts` lists, in increasing order, slots from `from` on that satisfy the condition, and up to its
      last slot leaves none out. */
  ghost predicate ListsFirst(e: Condition, from: int, ts: seq<int>) {
    && (forall i :: 0 <= i < |ts| ==> ts[i] >= from && e(ts[i]))
    && (forall i, j :: 0 <= i < j < |ts| ==> ts[i] < ts[j])
    && (forall s :: from <= s && |ts| > 0 && s <= ts[|ts| - 1] && e(s) ==> s in ts)
  }

  // The same, slot by slot: each is the next one after the slot before it.
  ghost predicate Successive(e: Condition, from: int, ts: seq<int>)
    decreases |ts|
  {
    ts == [] || (IsNext(e, from, ts[0]) && Successive(e, ts[0] + 1, ts[1..]))
  }

  lemma ListsFirstCons(e: Condition, from: int, slot: int, rest: seq<int>)
    requires IsNext(e, from, slot) && ListsFirst(e, slot + 1, rest)
    ensures ListsFirst(e, from, [slot] + rest)
  {
    var ts := [slot] + rest;
    forall s | from <= s && s <= ts[|ts| - 1] && e(s)
      ensures s in ts
    {
      if s > slot {
        assert s in rest;
      }
    }
  }

  lemma {:induction false} SuccessiveListsFirst(e: Condition, from: int, ts: seq<int>)
    requires Successive(e, from, ts)
    ensures ListsFirst(e, from, ts)
    decreases |ts|
  {
    if ts != [] {
      SuccessiveListsFirst(e, ts[0] + 1, ts[1..]);
      ListsFirstCons(e, from, ts[0], ts[1..]);
      assert ts == [ts[0]] + ts[1..];
    }
  }

  lemma ListsFirstTail(e: Condition, from: int, ts: seq<int>)
    requires ListsFirst(e, from, ts) && ts != []
    ensures IsNext(e, from, ts[0]) && ListsFirst(e, ts[0] + 1, ts[1..])
  {
    var rest := ts[1..];
    NoGap(e, from, ts, 0);
    forall s | ts[0] + 1 <= s && |rest| > 0 && s <= rest[|rest| - 1] && e(s)
      ensures s in rest
    {
      assert s in ts && s != ts[0];
    }
  }

  lemma {:induction false} ListsFirstSuccessive(e: Condition, from: int, ts: seq<int>)
    requires ListsFirst(e, from, ts)
    ensures Successive(e, from, ts)
    decreases |ts|
  {
    if ts != [] {
      ListsFirstTail(e, from, ts);
      ListsFirstSuccessive(e, ts[0] + 1, ts[1..]);
    }
  }

  lemma {:induction false} FirstsSuccessive(e: Condition, from: int, count: nat)
    requires Recurs(e)
    ensures Successive(e, from, Firsts(e, from, count))
    decreases count
  {
    if count > 0 {
      var slot := Next(e, from);
      FirstsSuccessive(e, slot + 1, count - 1);
      assert Firsts(e, from, count)[1..] == Firsts(e, slot + 1, count - 1);
    }
  }

  lemma FirstsListFirst(e: Condition, from: int, count: nat)
    requires Recurs(e)
    ensures ListsFirst(e, from, Firsts(e, from, count))
  {
    FirstsSuccessive(e, from, count);
    SuccessiveListsFirst(e, from, Firsts(e, from, count));
  }

  lemma NoGap(e: Condition, from: int, ts: seq<int>, i: nat)
    requires ListsFirst(e, from, ts) && i < |ts|
    ensures e(ts[i]) && ts[i] > (if i == 0 then from - 1 else ts[i - 1])
    ensures forall s :: (if i == 0 then from - 1 else ts[i - 1]) < s < ts[i] ==> !e(s)
  {
    var previous := if i == 0 then from - 1 else ts[i - 1];
    assert forall j :: 0 <= j < |ts| ==> (j < i ==> ts[j] <= previous) && (j >= i ==> ts[j] >= ts[i]);
    assert ts[i] <= ts[|ts| - 1];
  }

  lemma {:induction false} SuccessiveUnique(e: Condition, from: int, ts: seq<int>)
    requires Recurs(e) && Successive(e, from, ts)
    ensures ts == Firsts(e, from, |ts|)
    decreases |ts|
  {
    if ts != [] {
      SuccessiveUnique(e, ts[0] + 1, ts[1..]);
      assert ts == [ts[0]] + ts[1..];
    }
  }

  /** Only one list of a given length lists the first slots. */
  lemma ListsFirstUnique(e: Condition, from: int, ts: seq<int>)
    requires Recurs(e) && ListsFirst(e, from, ts)
    ensures ts == Firsts(e, from, |ts|)
  {
    ListsFirstSuccessive(e, from, ts);
    SuccessiveUnique(e, from, ts);
  }

  lemma NextShift(e: Condition, e': Condition, from: int, d: int)
    requires Recurs(e) && Recurs(e') && forall s :: e(s) == e'(s + d)
    ensures Next(e', from + d) == Next(e, from) + d
  {
    var slot, slot' := Next(e, from), Next(e', from + d);
    assert e(slot' - d) == e'(slot' - d + d);
  }

  lemma {:induction false} FirstsShift(e: Condition, e': Condition, from: int, d: int, count: nat, i: nat)
    requires Recurs(e) && Recurs(e') && (forall s :: e(s) == e'(s + d)) && i < count
    ensures Firsts(e', from + d, count)[i] == Firsts(e, from, count)[i] + d
    decreases count
  {
    NextShift(e, e', from, d);
    if i > 0 {
      var slot := Next(e, from);
      assert slot + d + 1 == slot + 1 + d;
      FirstsShift(e, e', slot + 1, d, count - 1, i - 1);
    }
  }

  lemma NextFrom(e: Condition, u: Condition, b: int, from: int)
    requires Recurs(e) && Recurs(u) && forall s :: e(s) <==> u(s) && s >= b
    ensures Next(e, from) == Next(u, if from >= b then from else b)
  {
    var slot, slot' := Next(e, from), Next(u, if from >= b then from else b);
    assert e(slot) && u(slot') && e(slot');
  }

  /** Where a condition is another one from some slot on, its first slots are the first slots of the other from there. */
  lemma {:induction false} FirstsFrom(e: Condition, u: Condition, b: int, from: int, count: nat)
    requires Recurs(e) && Recurs(u) && forall s :: e(s) <==> u(s) && s >= b
    ensures Firsts(e, from, count) == Firsts(u, if from >= b then from else b, count)
    decreases count
  {
    if count > 0 {
      NextFrom(e, u, b, from);
      FirstsFrom(e, u, b, Next(e, from) + 1, count - 1);
    }
  }

  lemma {:induction false} FirstsMonotone(e: Condition, e': Condition, from: int, from': int, count: nat, i: nat)
    requires Recurs(e) && Recurs(e') && (forall s :: e'(s) ==> e(s)) && from <= from' && i < count
    ensures Firsts(e, from, count)[i] <= Firsts(e', from', count)[i]
    decreases count
  {
    if i > 0 {
      FirstsMonotone(e, e', Next(e, from) + 1, Next(e', from') + 1, count - 1, i - 1);
    }
  }

  // Every window of n slots that starts at h or later holds a slot satisfying the condition.
  ghost predicate RecursWithin(e: Condition, h: int, n: int) {
    forall x :: x >= h ==> SomeIn(e, x, n)
  }

  ghost predicate SomeIn(e: Condition, x: int, n: int) {
    exists s :: x <= s < x + n && e(s)
  }

  lemma {:induction false} FirstsBound(e: Condition, from: int, count: nat, i: nat, h: int, n: int)
    requires Recurs(e) && RecursWithin(e, h, n) && i < count && from <= h
    ensures from <= Firsts(e, from, count)[i] <= h + (i + 1) * n - 1
    decreases count
  {
    var slot := Next(e, from);
    assert SomeIn(e, h, n);
    var s :| h <= s < h + n && e(s);
    assert slot <= s;
    if i > 0 {
      var h' := if slot + 1 <= h then h else slot + 1;
      FirstsBound(e, slot + 1, count - 1, i - 1, h', n);
      assert (i + 1) * n == i * n + n;
    }
  }

  lemma {:induction false} FirstsStart(e: Condition, from: int, count: nat)
    requires Recurs(e) && count > 0
    ensures Firsts(e, from, count)[count - 1] >= from + count - 1
    decreases count
  {
    if count > 1 {
      FirstsStart(e, Next(e, from) + 1, count - 1);
    }
  }

  lemma FirstsStep(e: Condition, slot: int, count: nat)
    requires Recurs(e) && count > 0
    ensures Firsts(e, slot, count) == if e(slot) then [slot] + Firsts(e, slot + 1, count - 1) else Firsts(e, slot + 1, count)
  {
    if e(slot) {
      assert Next(e, slot) == slot;
    } else {
      assert Next(e, slot) == Next(e, slot + 1);
    }
  }

  // What a search has left to find after its prefix.
  ghost predicate Rest(e: Condition, found: seq<int>, slot: int, all: seq<int>)
    requires Recurs(e)
  {
    |found| <= |all| && all[..|found|] == found && all[|found|..] == Firsts(e, slot, |all| - |found|)
  }

  /** One step of a search that has `found` the beginning of the list `all` and looks at `slot`. */
  lemma SearchStep(e: Condition, found: seq<int>, slot: int, all: seq<int>)
    requires Recurs(e) && Rest(e, found, slot, all) && |found| < |all|
    ensures all[|all| - 1] >= slot
    ensures Rest(e, if e(slot) then found + [slot] else found, slot + 1, all)
    ensures e(slot) && |found| + 1 == |all| ==> all[|all| - 1] == slot
  {
    var left := |all| - |found|;
    FirstsStart(e, slot, left);
    FirstsStep(e, slot, left);
    if e(slot) {
      assert all[|found|] == slot;
      assert all[|found| + 1..] == all[|found|..][1..];
    }
  }
}
