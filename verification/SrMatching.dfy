/** Scheduling requests (SRs) matched one-to-one to the MAC triggers that preceded them, by a
    greedy walk from the back of both lists. Times are in microseconds. */
module SrMatching {
  import opened Wrappers

  const TOLERANCE_US := 7_000.0

  datatype SrType = Initial | Recovery

  datatype Sr = Sr(time: real, opportunity: real)

  datatype Trigger = Trigger(time: real, kind: SrType)

  // The lists of one UE; triggers are sorted by time.
  datatype Group = Group(rnti: int, srs: seq<Sr>, triggers: seq<Trigger>)

  datatype MatchRow = MatchRow(time: real, opportunity: real, rnti: int, triggerTime: real, kind: SrType)

  // SR number `sr` answers trigger number `trigger`.
  datatype Pair = Pair(sr: nat, trigger: nat)

  predicate Sorted(triggers: seq<Trigger>) {
    forall i, j :: 0 <= i < j < |triggers| ==> triggers[i].time <= triggers[j].time
  }

  predicate InOrder(srs: seq<Sr>) {
    forall i, j :: 0 <= i < j < |srs| ==> srs[i].opportunity <= srs[j].opportunity
  }

  predicate Fits(sr: Sr, trigger: Trigger) {
    0.0 <= sr.opportunity - trigger.time <= TOLERANCE_US
  }

  /** What the walk finds in the first n SRs and the first m triggers. */
  function Greedy(g: Group, n: nat, m: nat): (ps: seq<Pair>)
    requires n <= |g.srs| && m <= |g.triggers|
    decreases n + m
  {
    if n == 0 || m == 0 then []
    else
      var sr, trigger := g.srs[n - 1], g.triggers[m - 1];
      if trigger.time > sr.opportunity then Greedy(g, n, m - 1)
      else if sr.opportunity - trigger.time <= TOLERANCE_US then [Pair(n - 1, m - 1)] + Greedy(g, n - 1, m - 1)
      else Greedy(g, n - 1, m)
  }

  function Found(g: Group): seq<Pair> { Greedy(g, |g.srs|, |g.triggers|) }

  function RowOf(g: Group, p: Pair): MatchRow
    requires p.sr < |g.srs| && p.trigger < |g.triggers|
  {
    var sr, trigger := g.srs[p.sr], g.triggers[p.trigger];
    MatchRow(sr.time, sr.opportunity, g.rnti, trigger.time, trigger.kind)
  }

  function Rows(g: Group, ps: seq<Pair>): (rows: seq<MatchRow>)
    requires forall p :: p in ps ==> p.sr < |g.srs| && p.trigger < |g.triggers|
  {
    seq(|ps|, i requires 0 <= i < |ps| => RowOf(g, ps[i]))
  }

  /** A one-to-one matching of the first n SRs with the first m triggers, from SR to trigger. */
  ghost predicate Matching(g: Group, n: nat, m: nat, pairing: map<nat, nat>)
    requires n <= |g.srs| && m <= |g.triggers|
  {
    && (forall i :: i in pairing ==> i < n && pairing[i] < m && Fits(g.srs[i], g.triggers[pairing[i]]))
    && (forall i, j :: i in pairing && j in pairing && i != j ==> pairing[i] != pairing[j])
  }

  /** Whatever the order of the opportunities, the pairs found go down strictly in both lists, so
      they are one-to-one and do not cross, and every one is within tolerance. */
  lemma {:induction false} GreedyIsMatching(g: Group, n: nat, m: nat)
    requires n <= |g.srs| && m <= |g.triggers|
    ensures var ps := Greedy(g, n, m);
            && (forall p :: p in ps ==> p.sr < n && p.trigger < m && Fits(g.srs[p.sr], g.triggers[p.trigger]))
            && (forall i, j :: 0 <= i < j < |ps| ==> ps[i].sr > ps[j].sr && ps[i].trigger > ps[j].trigger)
    decreases n + m
  {
    if n > 0 && m > 0 {
      GreedyIsMatching(g, n, m - 1);
      GreedyIsMatching(g, n - 1, m - 1);
      GreedyIsMatching(g, n - 1, m);
    }
  }

  // ---------- which trigger an SR gets ----------

  /** SR i can claim trigger t: it is within tolerance of it, and the trigger is not later than the opportunity of any
      SR from i on, which would have passed it over. */
  ghost predicate MayClaim(g: Group, n: nat, i: nat, t: nat) {
    && i < n <= |g.srs| && t < |g.triggers|
    && (forall j :: i <= j < n ==> g.triggers[t].time <= g.srs[j].opportunity)
    && g.srs[i].opportunity - g.triggers[t].time <= TOLERANCE_US
  }

  // Trigger t has gone to a later SR than i, or SR i has got it or a later trigger.
  ghost predicate Claimed(ps: set<Pair>, i: nat, t: nat) {
    exists p :: p in ps && ((p.trigger == t && p.sr > i) || (p.sr == i && p.trigger >= t))
  }

  /** A later SR claims the latest trigger it can: the pairs are one-to-one, each SR can claim its trigger, and no SR
      could claim a trigger later than its own that no later SR has. */
  ghost predicate Settled(g: Group, n: nat, m: nat, ps: set<Pair>) {
    && (forall p :: p in ps ==> p.trigger < m && MayClaim(g, n, p.sr, p.trigger))
    && (forall p, q :: p in ps && q in ps && (p.sr == q.sr || p.trigger == q.trigger) ==> p == q)
    && (forall i: nat, t: nat :: t < m && MayClaim(g, n, i, t) ==> Claimed(ps, i, t))
  }

  ghost function PairSet(ps: seq<Pair>): set<Pair> { set p | p in ps }

  lemma PairSetOneMore(p: Pair, ps: seq<Pair>)
    ensures PairSet([p] + ps) == PairSet(ps) + {p}
  {
    assert forall q :: q in [p] + ps <==> q == p || q in ps;
  }

  // When opportunities are in order, to be able to claim is to fit.
  lemma ClaimsAreFits(g: Group, i: nat, t: nat)
    requires InOrder(g.srs) && i < |g.srs| && t < |g.triggers|
    ensures MayClaim(g, |g.srs|, i, t) <==> Fits(g.srs[i], g.triggers[t])
  {
    assert forall j :: i < j < |g.srs| ==> g.srs[i].opportunity <= g.srs[j].opportunity;
  }

  // One SR more does not take claims away where the last SR has not passed over the last trigger.
  lemma ClaimStays(g: Group, n: nat, m: nat, i: nat, t: nat)
    requires 0 < n <= |g.srs| && 0 < m <= |g.triggers| && Sorted(g.triggers) && i < n - 1 && t < m
    requires g.triggers[m - 1].time <= g.srs[n - 1].opportunity
    ensures MayClaim(g, n - 1, i, t) <==> MayClaim(g, n, i, t)
  {
    assert t < m - 1 ==> g.triggers[t].time <= g.triggers[m - 1].time;
  }

  // No SR can claim a trigger that the last SR passes over.
  lemma PassedOver(g: Group, n: nat, m: nat, ps: set<Pair>)
    requires 0 < n <= |g.srs| && 0 < m <= |g.triggers| && g.triggers[m - 1].time > g.srs[n - 1].opportunity
    ensures Settled(g, n, m, ps) <==> Settled(g, n, m - 1, ps)
  {
    var last := m - 1;
    forall i: nat
      ensures !MayClaim(g, n, i, last)
    {
    }
  }

  // An SR too late for the last trigger can claim none.
  lemma TooLate(g: Group, n: nat, m: nat, ps: set<Pair>)
    requires 0 < n <= |g.srs| && 0 < m <= |g.triggers| && Sorted(g.triggers)
    requires g.triggers[m - 1].time <= g.srs[n - 1].opportunity && g.srs[n - 1].opportunity - g.triggers[m - 1].time > TOLERANCE_US
    ensures Settled(g, n, m, ps) <==> Settled(g, n - 1, m, ps)
  {
    forall i: nat, t: nat | t < m
      ensures MayClaim(g, n - 1, i, t) <==> MayClaim(g, n, i, t)
    {
      if i < n - 1 {
        ClaimStays(g, n, m, i, t);
      } else {
        assert t < m - 1 ==> g.triggers[t].time <= g.triggers[m - 1].time;
      }
    }
  }

  // The last SR and the last trigger settle on each other.
  lemma LastPairClaimed(g: Group, n: nat, m: nat, ps: set<Pair>)
    requires 0 < n <= |g.srs| && 0 < m <= |g.triggers| && Fits(g.srs[n - 1], g.triggers[m - 1])
    requires Settled(g, n, m, ps)
    ensures Pair(n - 1, m - 1) in ps
  {
    assert MayClaim(g, n, n - 1, m - 1);
    var p :| p in ps && ((p.trigger == m - 1 && p.sr > n - 1) || (p.sr == n - 1 && p.trigger >= m - 1));
    assert MayClaim(g, n, p.sr, p.trigger);
  }

  lemma WithoutLastPair(g: Group, n: nat, m: nat, ps: set<Pair>)
    requires 0 < n <= |g.srs| && 0 < m <= |g.triggers| && Sorted(g.triggers) && Fits(g.srs[n - 1], g.triggers[m - 1])
    requires Settled(g, n, m, ps)
    ensures Pair(n - 1, m - 1) in ps && Settled(g, n - 1, m - 1, ps - {Pair(n - 1, m - 1)})
  {
    var last := Pair(n - 1, m - 1);
    LastPairClaimed(g, n, m, ps);
    var qs := ps - {last};
    forall p | p in qs
      ensures p.trigger < m - 1 && MayClaim(g, n - 1, p.sr, p.trigger)
    {
      assert p in ps && MayClaim(g, n, p.sr, p.trigger) && p.sr != last.sr && p.trigger != last.trigger;
    }
    forall i: nat, t: nat | t < m - 1 && MayClaim(g, n - 1, i, t)
      ensures Claimed(qs, i, t)
    {
      ClaimStays(g, n, m, i, t);
      var p :| p in ps && ((p.trigger == t && p.sr > i) || (p.sr == i && p.trigger >= t));
      assert p in qs;
    }
  }

  lemma WithLastPair(g: Group, n: nat, m: nat, qs: set<Pair>)
    requires 0 < n <= |g.srs| && 0 < m <= |g.triggers| && Sorted(g.triggers) && Fits(g.srs[n - 1], g.triggers[m - 1])
    requires Settled(g, n - 1, m - 1, qs)
    ensures Settled(g, n, m, qs + {Pair(n - 1, m - 1)})
  {
    var last := Pair(n - 1, m - 1);
    var ps := qs + {last};
    assert MayClaim(g, n, n - 1, m - 1);
    forall p | p in ps
      ensures p.trigger < m && MayClaim(g, n, p.sr, p.trigger) && (p != last ==> p.sr < n - 1 && p.trigger < m - 1)
    {
      if p != last {
        assert MayClaim(g, n - 1, p.sr, p.trigger);
        ClaimStays(g, n, m, p.sr, p.trigger);
      }
    }
    forall i: nat, t: nat | t < m && MayClaim(g, n, i, t)
      ensures Claimed(ps, i, t)
    {
      if i == n - 1 || t == m - 1 {
        assert last in ps;
      } else {
        ClaimStays(g, n, m, i, t);
        var p :| p in qs && ((p.trigger == t && p.sr > i) || (p.sr == i && p.trigger >= t));
        assert p in ps;
      }
    }
  }

  lemma {:induction false} GreedyIsSettled(g: Group, n: nat, m: nat)
    requires n <= |g.srs| && m <= |g.triggers| && Sorted(g.triggers)
    ensures Settled(g, n, m, PairSet(Greedy(g, n, m)))
    decreases n + m
  {
    if n > 0 && m > 0 {
      if g.triggers[m - 1].time > g.srs[n - 1].opportunity {
        GreedyIsSettled(g, n, m - 1);
        PassedOver(g, n, m, PairSet(Greedy(g, n, m)));
      } else if Fits(g.srs[n - 1], g.triggers[m - 1]) {
        GreedyIsSettled(g, n - 1, m - 1);
        var rest := Greedy(g, n - 1, m - 1);
        WithLastPair(g, n, m, PairSet(rest));
        PairSetOneMore(Pair(n - 1, m - 1), rest);
      } else {
        GreedyIsSettled(g, n - 1, m);
        TooLate(g, n, m, PairSet(Greedy(g, n, m)));
      }
    }
  }

  lemma {:induction false} SettledIsGreedy(g: Group, n: nat, m: nat, ps: set<Pair>)
    requires n <= |g.srs| && m <= |g.triggers| && Sorted(g.triggers) && Settled(g, n, m, ps)
    ensures ps == PairSet(Greedy(g, n, m))
    decreases n + m
  {
    if n == 0 || m == 0 {
      assert forall p :: p in ps ==> p.trigger < m && MayClaim(g, n, p.sr, p.trigger);
      assert ps == {};
    } else if g.triggers[m - 1].time > g.srs[n - 1].opportunity {
      PassedOver(g, n, m, ps);
      SettledIsGreedy(g, n, m - 1, ps);
    } else if Fits(g.srs[n - 1], g.triggers[m - 1]) {
      WithoutLastPair(g, n, m, ps);
      var last, rest := Pair(n - 1, m - 1), Greedy(g, n - 1, m - 1);
      SettledIsGreedy(g, n - 1, m - 1, ps - {last});
      PairSetOneMore(last, rest);
      assert ps == (ps - {last}) + {last};
    } else {
      TooLate(g, n, m, ps);
      SettledIsGreedy(g, n - 1, m, ps);
    }
  }

  /** On triggers sorted by time, for opportunities in any order, there is only one settled set of pairs, the one that
      the walk finds. */
  lemma SettledIsFound(g: Group, ps: set<Pair>)
    requires Sorted(g.triggers)
    ensures Settled(g, |g.srs|, |g.triggers|, ps) <==> ps == PairSet(Found(g))
  {
    GreedyIsSettled(g, |g.srs|, |g.triggers|);
    if Settled(g, |g.srs|, |g.triggers|, ps) {
      SettledIsGreedy(g, |g.srs|, |g.triggers|, ps);
    }
  }

  /** When opportunities are in order too: an SR within tolerance of a trigger gets that trigger or a later one, unless
      the trigger went to a later SR. */
  lemma LaterSrClaimsLatest(g: Group, i: nat, t: nat)
    requires Sorted(g.triggers) && InOrder(g.srs) && i < |g.srs| && t < |g.triggers| && Fits(g.srs[i], g.triggers[t])
    ensures exists p :: p in Found(g) && ((p.trigger == t && p.sr > i) || (p.sr == i && p.trigger >= t))
  {
    ClaimsAreFits(g, i, t);
    GreedyIsSettled(g, |g.srs|, |g.triggers|);
    assert Claimed(PairSet(Found(g)), i, t);
  }

  /** The loop over the lists of one UE. Its pairs go down in both lists, and on triggers sorted by time they are the
      only settled ones. */
  method MatchGroup(g: Group) returns (ps: seq<Pair>)
    ensures ps == Found(g)
    ensures forall i, j :: 0 <= i < j < |ps| ==> ps[i].sr > ps[j].sr && ps[i].trigger > ps[j].trigger
    ensures Sorted(g.triggers) ==> Settled(g, |g.srs|, |g.triggers|, PairSet(ps))
  {
    ps := [];
    var srIdx, triggerIdx := |g.srs| - 1, |g.triggers| - 1;
    while srIdx >= 0 && triggerIdx >= 0
      invariant -1 <= srIdx < |g.srs| && -1 <= triggerIdx < |g.triggers|
      invariant ps + Greedy(g, srIdx + 1, triggerIdx + 1) == Found(g)
      decreases srIdx + triggerIdx
    {
      var opportunity, time := g.srs[srIdx].opportunity, g.triggers[triggerIdx].time;
      if time > opportunity {
        triggerIdx := triggerIdx - 1;
      } else if opportunity - time <= TOLERANCE_US {
        ps := ps + [Pair(srIdx, triggerIdx)];
        srIdx := srIdx - 1;
        triggerIdx := triggerIdx - 1;
      } else {
        srIdx := srIdx - 1;
      }
    }
    GreedyIsMatching(g, |g.srs|, |g.triggers|);
    if Sorted(g.triggers) {
      GreedyIsSettled(g, |g.srs|, |g.triggers|);
    }
  }

  // Crossing partners of the last SR and the last trigger fit each other too.
  lemma CrossFits(g: Group, n: nat, m: nat, i: nat, j: nat)
    requires i < n <= |g.srs| && j < m <= |g.triggers| && Sorted(g.triggers) && InOrder(g.srs)
    requires Fits(g.srs[i], g.triggers[m - 1]) && Fits(g.srs[n - 1], g.triggers[j])
    ensures Fits(g.srs[i], g.triggers[j])
  {
    assert i < n - 1 ==> g.srs[i].opportunity <= g.srs[n - 1].opportunity;
    assert j < m - 1 ==> g.triggers[j].time <= g.triggers[m - 1].time;
  }

  lemma WithoutLastSr(g: Group, n: nat, m: nat, pairing: map<nat, nat>) returns (others: map<nat, nat>)
    requires 0 < n <= |g.srs| && m <= |g.triggers| && Matching(g, n, m, pairing)
    ensures Matching(g, n - 1, m, others)
    ensures n - 1 !in pairing ==> |others| == |pairing|
    ensures n - 1 in pairing ==> |others| == |pairing| - 1 && forall i :: i in others ==> others[i] != pairing[n - 1]
  {
    others := pairing - {n - 1};
    assert others.Keys == pairing.Keys - {n - 1};
  }

  lemma WithoutLastTrigger(g: Group, n: nat, m: nat, pairing: map<nat, nat>) returns (others: map<nat, nat>)
    requires n <= |g.srs| && 0 < m <= |g.triggers| && Matching(g, n, m, pairing)
    ensures Matching(g, n, m - 1, others) && |pairing| <= |others| + 1
  {
    if a :| a in pairing && pairing[a] == m - 1 {
      others := pairing - {a};
      assert others.Keys == pairing.Keys - {a};
    } else {
      others := pairing;
    }
  }

  // Trigger b is free, so the SR that holds the last trigger can take it instead.
  lemma MoveOffLastTrigger(g: Group, n: nat, m: nat, pairing: map<nat, nat>, b: nat) returns (others: map<nat, nat>)
    requires n <= |g.srs| && 0 < m <= |g.triggers| && Matching(g, n, m, pairing)
    requires b < m && forall i :: i in pairing ==> pairing[i] != b
    requires forall i :: i in pairing && pairing[i] == m - 1 ==> Fits(g.srs[i], g.triggers[b])
    ensures Matching(g, n, m - 1, others) && |pairing| == |others|
  {
    if a :| a in pairing && pairing[a] == m - 1 {
      others := pairing[a := b];
      assert others.Keys == pairing.Keys;
    } else {
      others := pairing;
    }
  }

  // The exchange step: with SR n - 1 and trigger m - 1 taken by each other, at most one pair is lost.
  lemma Exchange(g: Group, n: nat, m: nat, pairing: map<nat, nat>) returns (rest: map<nat, nat>)
    requires 0 < n <= |g.srs| && 0 < m <= |g.triggers| && Sorted(g.triggers) && InOrder(g.srs)
    requires Matching(g, n, m, pairing)
    ensures Matching(g, n - 1, m - 1, rest) && |pairing| <= |rest| + 1
  {
    var others := WithoutLastSr(g, n, m, pairing);
    if n - 1 in pairing {
      var b := pairing[n - 1];
      forall i | i in others && others[i] == m - 1
        ensures Fits(g.srs[i], g.triggers[b])
      {
        CrossFits(g, n, m, i, b);
      }
      rest := MoveOffLastTrigger(g, n - 1, m, others, b);
    } else {
      rest := WithoutLastTrigger(g, n - 1, m, others);
    }
  }

  // A trigger later than the last opportunity is later than all of them.
  lemma LastTriggerUnused(g: Group, n: nat, m: nat, pairing: map<nat, nat>)
    requires 0 < n <= |g.srs| && 0 < m <= |g.triggers| && InOrder(g.srs) && Matching(g, n, m, pairing)
    requires g.triggers[m - 1].time > g.srs[n - 1].opportunity
    ensures Matching(g, n, m - 1, pairing)
  {
    forall i | i in pairing
      ensures pairing[i] < m - 1
    {
      assert i < n - 1 ==> g.srs[i].opportunity <= g.srs[n - 1].opportunity;
    }
  }

  // An SR too late for the last trigger is too late for all of them.
  lemma LastSrUnused(g: Group, n: nat, m: nat, pairing: map<nat, nat>)
    requires 0 < n <= |g.srs| && 0 < m <= |g.triggers| && Sorted(g.triggers) && Matching(g, n, m, pairing)
    requires g.srs[n - 1].opportunity - g.triggers[m - 1].time > TOLERANCE_US
    ensures Matching(g, n - 1, m, pairing)
  {
    if n - 1 in pairing {
      assert pairing[n - 1] < m - 1 ==> g.triggers[pairing[n - 1]].time <= g.triggers[m - 1].time;
    }
  }

  lemma NothingToMatch(g: Group, n: nat, m: nat, pairing: map<nat, nat>)
    requires n <= |g.srs| && m <= |g.triggers| && Matching(g, n, m, pairing) && (n == 0 || m == 0)
    ensures |pairing| == 0
  {
    assert pairing == map[];
  }

  lemma {:induction false} MaximumPastTrigger(g: Group, n: nat, m: nat, pairing: map<nat, nat>)
    requires 0 < n <= |g.srs| && 0 < m <= |g.triggers| && Sorted(g.triggers) && InOrder(g.srs) && Matching(g, n, m, pairing)
    requires g.triggers[m - 1].time > g.srs[n - 1].opportunity
    ensures |pairing| <= |Greedy(g, n, m)|
    decreases n + m, 0
  {
    LastTriggerUnused(g, n, m, pairing);
    GreedyIsMaximum(g, n, m - 1, pairing);
  }

  lemma PairFound(g: Group, n: nat, m: nat)
    requires 0 < n <= |g.srs| && 0 < m <= |g.triggers| && Fits(g.srs[n - 1], g.triggers[m - 1])
    ensures |Greedy(g, n, m)| == |Greedy(g, n - 1, m - 1)| + 1
  {
  }

  lemma {:induction false} MaximumPastPair(g: Group, n: nat, m: nat, pairing: map<nat, nat>)
    requires 0 < n <= |g.srs| && 0 < m <= |g.triggers| && Sorted(g.triggers) && InOrder(g.srs) && Matching(g, n, m, pairing)
    requires Fits(g.srs[n - 1], g.triggers[m - 1])
    ensures |pairing| <= |Greedy(g, n, m)|
    decreases n + m, 0
  {
    var rest := Exchange(g, n, m, pairing);
    GreedyIsMaximum(g, n - 1, m - 1, rest);
    PairFound(g, n, m);
  }

  lemma {:induction false} MaximumPastSr(g: Group, n: nat, m: nat, pairing: map<nat, nat>)
    requires 0 < n <= |g.srs| && 0 < m <= |g.triggers| && Sorted(g.triggers) && InOrder(g.srs) && Matching(g, n, m, pairing)
    requires g.srs[n - 1].opportunity - g.triggers[m - 1].time > TOLERANCE_US
    ensures |pairing| <= |Greedy(g, n, m)|
    decreases n + m, 0
  {
    LastSrUnused(g, n, m, pairing);
    GreedyIsMaximum(g, n - 1, m, pairing);
  }

  /** With triggers sorted by time and opportunities in order, no one-to-one matching within the
      tolerance has more pairs than the walk finds. */
  lemma {:induction false} GreedyIsMaximum(g: Group, n: nat, m: nat, pairing: map<nat, nat>)
    requires n <= |g.srs| && m <= |g.triggers| && Sorted(g.triggers) && InOrder(g.srs)
    requires Matching(g, n, m, pairing)
    ensures |pairing| <= |Greedy(g, n, m)|
    decreases n + m, 1
  {
    if n == 0 || m == 0 {
      NothingToMatch(g, n, m, pairing);
    } else if g.triggers[m - 1].time > g.srs[n - 1].opportunity {
      MaximumPastTrigger(g, n, m, pairing);
    } else if Fits(g.srs[n - 1], g.triggers[m - 1]) {
      MaximumPastPair(g, n, m, pairing);
    } else {
      MaximumPastSr(g, n, m, pairing);
    }
  }

  ghost predicate AlwaysMaximum(rnti: int, srs: seq<Sr>) {
    forall triggers, pairing ::
      Sorted(triggers) && Matching(Group(rnti, srs, triggers), |srs|, |triggers|, pairing)
      ==> |pairing| <= |Found(Group(rnti, srs, triggers))|
  }

  ghost predicate InOrderFrom(srs: seq<Sr>, q: nat) {
    forall i, j :: q <= i < j < |srs| ==> srs[i].opportunity <= srs[j].opportunity
  }

  // The last SR whose opportunity is before that of the SR ahead of it.
  lemma {:induction false} LastDescent(srs: seq<Sr>, n: nat) returns (q: nat)
    requires n <= |srs| && !InOrder(srs) && InOrderFrom(srs, n)
    ensures 0 < q < |srs| && srs[q - 1].opportunity > srs[q].opportunity && InOrderFrom(srs, q)
    decreases n
  {
    if 0 < n < |srs| && srs[n - 1].opportunity > srs[n].opportunity {
      q := n;
    } else {
      q := LastDescent(srs, n - 1);
    }
  }

  // Triggers at the opportunities of the SRs from q on, and one more at the opportunity of SR q - 1,
  // which comes in place i among them.
  ghost predicate Spoiled(g: Group, q: nat, i: nat) {
    && 0 < q < |g.srs| && 0 < i <= |g.srs| - q && |g.triggers| == |g.srs| - q + 1
    && (forall r :: 0 <= r < i ==> g.triggers[r].time == g.srs[q + r].opportunity < g.srs[q - 1].opportunity)
    && g.triggers[i].time == g.srs[q - 1].opportunity
    && (forall r :: i < r < |g.triggers| ==> g.triggers[r].time == g.srs[q + r - 1].opportunity >= g.srs[q - 1].opportunity)
  }

  lemma {:induction false} MissesBelow(g: Group, q: nat, i: nat, r: nat)
    requires Spoiled(g, q, i) && r <= i
    ensures |Greedy(g, q + r, r)| == r
  {
    if r > 0 {
      MissesBelow(g, q, i, r - 1);
    }
  }

  lemma {:induction false} MissesOne(g: Group, q: nat, i: nat, r: nat)
    requires Spoiled(g, q, i) && i <= r <= |g.srs| - q
    ensures |Greedy(g, q + r, r + 1)| == r
    decreases r
  {
    if r == i {
      MissesBelow(g, q, i, i);
    } else {
      MissesOne(g, q, i, r - 1);
    }
  }

  lemma {:induction false} Place(srs: seq<Sr>, q: nat, i: nat) returns (place: nat)
    requires 0 < q < |srs| && 0 < i <= |srs| - q && InOrderFrom(srs, q)
    requires srs[q + i - 1].opportunity < srs[q - 1].opportunity
    ensures 0 < place <= |srs| - q
    ensures forall r :: q <= r < q + place ==> srs[r].opportunity < srs[q - 1].opportunity
    ensures forall r :: q + place <= r < |srs| ==> srs[r].opportunity >= srs[q - 1].opportunity
    decreases |srs| - i
  {
    if q + i < |srs| && srs[q + i].opportunity < srs[q - 1].opportunity {
      place := Place(srs, q, i + 1);
    } else {
      place := i;
    }
  }

  ghost function Range(lo: nat, hi: nat): (r: set<nat>)
    requires lo <= hi
    ensures forall k :: k in r <==> lo <= k < hi
    ensures |r| == hi - lo
    decreases hi
  {
    if lo == hi then {} else Range(lo, hi - 1) + {hi - 1}
  }

  // The trigger that SR k can take when SR q - 1 takes the extra one at place i.
  function Partner(q: nat, i: nat, k: nat): nat
    requires 0 < q && q - 1 <= k
  {
    if k == q - 1 then i else if k - q < i then k - q else k - q + 1
  }

  lemma PartnerFits(g: Group, q: nat, i: nat, k: nat)
    requires Spoiled(g, q, i) && q - 1 <= k < |g.srs|
    ensures Partner(q, i, k) < |g.triggers| && Fits(g.srs[k], g.triggers[Partner(q, i, k)])
  {
  }

  ghost function PartnerMap(q: nat, i: nat, n: nat): (pairing: map<nat, nat>)
    requires 0 < q <= n
    ensures forall k :: k in pairing <==> q - 1 <= k < n
    ensures forall k :: k in pairing ==> pairing[k] == Partner(q, i, k)
    ensures |pairing| == n - q + 1
  {
    var pairing := map k | k in Range(q - 1, n) :: Partner(q, i, k);
    assert pairing.Keys == Range(q - 1, n);
    pairing
  }

  lemma AllFit(g: Group, q: nat, i: nat)
    requires 0 < q <= |g.srs|
    requires forall k :: q - 1 <= k < |g.srs| ==>
      Partner(q, i, k) < |g.triggers| && Fits(g.srs[k], g.triggers[Partner(q, i, k)])
    ensures Matching(g, |g.srs|, |g.triggers|, PartnerMap(q, i, |g.srs|))
  {
  }

  function SpoilingTriggers(srs: seq<Sr>, q: nat, i: nat): (triggers: seq<Trigger>)
    requires 0 < q < |srs| && 0 < i <= |srs| - q
    ensures |triggers| == |srs| - q + 1
  {
    seq(|srs| - q + 1, r requires 0 <= r <= |srs| - q =>
      Trigger(srs[if r < i then q + r else if r == i then q - 1 else q + r - 1].opportunity, Initial))
  }

  lemma Spoiler(rnti: int, srs: seq<Sr>, q: nat) returns (g: Group, i: nat)
    requires 0 < q < |srs| && srs[q - 1].opportunity > srs[q].opportunity && InOrderFrom(srs, q)
    ensures g.rnti == rnti && g.srs == srs && Sorted(g.triggers) && Spoiled(g, q, i)
  {
    i := Place(srs, q, 1);
    g := Group(rnti, srs, SpoilingTriggers(srs, q, i));
  }

  lemma SpoilerMisses(g: Group, q: nat, i: nat)
    requires Spoiled(g, q, i)
    ensures |Found(g)| == |g.srs| - q
  {
    MissesOne(g, q, i, |g.srs| - q);
  }

  lemma Spoil(rnti: int, srs: seq<Sr>, q: nat)
    requires 0 < q < |srs| && srs[q - 1].opportunity > srs[q].opportunity && InOrderFrom(srs, q)
    ensures !AlwaysMaximum(rnti, srs)
  {
    var g, i := Spoiler(rnti, srs, q);
    SpoilerMisses(g, q, i);
    forall k | q - 1 <= k < |srs|
      ensures Partner(q, i, k) < |g.triggers| && Fits(g.srs[k], g.triggers[Partner(q, i, k)])
    {
      PartnerFits(g, q, i, k);
    }
    AllFit(g, q, i);
    assert g == Group(rnti, srs, g.triggers);
  }

  /** The walk is maximum on every sorted trigger list exactly when the SR list, which is sorted by
      transmission time, has its opportunities in order too. */
  lemma MaximumExactlyWhenInOrder(rnti: int, srs: seq<Sr>)
    ensures AlwaysMaximum(rnti, srs) <==> InOrder(srs)
  {
    if InOrder(srs) {
      forall triggers, pairing | Sorted(triggers) && Matching(Group(rnti, srs, triggers), |srs|, |triggers|, pairing)
        ensures |pairing| <= |Found(Group(rnti, srs, triggers))|
      {
        GreedyIsMaximum(Group(rnti, srs, triggers), |srs|, |triggers|, pairing);
      }
    } else {
      var q := LastDescent(srs, |srs|);
      Spoil(rnti, srs, q);
    }
  }

  // ---------- SR opportunities ----------

  const FRAME_US := 10_000
  const SUBFRAME_US := 1_000

  // An SR as traced by the PHY.
  datatype SrTrace = SrTrace(time: real, frame: int, subframe: int, slot: int)

  function SlotUs(slotsPerSubframe: int): real
    requires slotsPerSubframe > 0
  {
    SUBFRAME_US as real / slotsPerSubframe as real
  }

  // The start of the traced slot.
  function SlotStart(sr: SrTrace, slotsPerSubframe: int): real
    requires slotsPerSubframe > 0
  {
    (sr.frame * FRAME_US + sr.subframe * SUBFRAME_US) as real + sr.slot as real * SlotUs(slotsPerSubframe)
  }

  function Offset(sr: SrTrace, slotsPerSubframe: int): real
    requires slotsPerSubframe > 0
  {
    sr.time - SlotStart(sr, slotsPerSubframe)
  }

  predicate Explains(srs: seq<SrTrace>, slotsPerSubframe: int)
    requires slotsPerSubframe > 0
  {
    forall sr :: sr in srs ==>
      sr.slot < slotsPerSubframe && -1.0 <= Offset(sr, slotsPerSubframe) < SlotUs(slotsPerSubframe) + 1.0
  }

  const SLOTS_PER_SUBFRAME: seq<int> := [16, 8, 4, 2, 1]

  datatype TimingError = CannotInferSlotDuration

  function WithOpportunities(srs: seq<SrTrace>, slotsPerSubframe: int): (r: seq<Sr>)
    requires slotsPerSubframe > 0
    ensures |r| == |srs|
  {
    seq(|srs|, i requires 0 <= i < |srs| => Sr(srs[i].time, SlotStart(srs[i], slotsPerSubframe)))
  }

  predicate Candidate(n: int) { n == 16 || n == 8 || n == 4 || n == 2 || n == 1 }

  /** The shortest slot duration that explains every SR is taken; there is an error exactly when none does. */
  method AddOpportunities(srs: seq<SrTrace>) returns (r: Result<seq<Sr>, TimingError>, slotsPerSubframe: int)
    ensures r.Err? <==> forall n :: Candidate(n) ==> !Explains(srs, n)
    ensures r.Ok? ==> Candidate(slotsPerSubframe) && Explains(srs, slotsPerSubframe)
    ensures r.Ok? ==> r.value == WithOpportunities(srs, slotsPerSubframe)
    ensures r.Ok? ==> forall n :: Candidate(n) && n > slotsPerSubframe ==> !Explains(srs, n)
  {
    slotsPerSubframe := 32;
    for i := 0 to |SLOTS_PER_SUBFRAME|
      invariant slotsPerSubframe == if i == 0 then 32 else SLOTS_PER_SUBFRAME[i - 1]
      invariant forall n :: Candidate(n) && n >= slotsPerSubframe ==> !Explains(srs, n)
    {
      slotsPerSubframe := SLOTS_PER_SUBFRAME[i];
      if Explains(srs, slotsPerSubframe) {
        return Ok(WithOpportunities(srs, slotsPerSubframe)), slotsPerSubframe;
      }
    }
    return Err(CannotInferSlotDuration), 0;
  }

  // The number of slots before the traced one.
  function SlotNumber(sr: SrTrace, n: int): int { (sr.frame * 10 + sr.subframe) * n + sr.slot }

  // A traced slot starts a whole number of slots after time zero.
  lemma SlotStartIsMultiple(sr: SrTrace, n: int)
    requires Candidate(n)
    ensures SlotStart(sr, n) == SlotNumber(sr, n) as real * SlotUs(n)
  {
  }

  // The start of slot k, counted from time zero.
  function Start(k: int, n: int): real
    requires n > 0
  {
    k as real * SlotUs(n)
  }

  /** n slots a subframe explain the SRs when each was sent in its traced slot, give or take a microsecond at both ends;
      its opportunity is the start of the slot. */
  lemma ExplainsMeans(srs: seq<SrTrace>, n: int)
    requires Candidate(n)
    ensures Explains(srs, n) <==> forall i :: 0 <= i < |srs| ==>
              srs[i].slot < n && Start(SlotNumber(srs[i], n), n) - 1.0 <= srs[i].time < Start(SlotNumber(srs[i], n) + 1, n) + 1.0
    ensures forall i :: 0 <= i < |srs| ==> WithOpportunities(srs, n)[i] == Sr(srs[i].time, Start(SlotNumber(srs[i], n), n))
  {
    forall i | 0 <= i < |srs|
      ensures SlotStart(srs[i], n) == Start(SlotNumber(srs[i], n), n)
      ensures Start(SlotNumber(srs[i], n) + 1, n) == Start(SlotNumber(srs[i], n), n) + SlotUs(n)
    {
      SlotStartIsMultiple(srs[i], n);
    }
    assert forall i :: 0 <= i < |srs| ==> srs[i] in srs;
  }

  /** When every SR was sent inside its own slot, without the one microsecond of slack, SRs sorted by
      transmission time have their opportunities in order, so the matching is maximum. */
  lemma OpportunitiesInOrder(srs: seq<SrTrace>, n: int)
    requires Candidate(n)
    requires forall i, j :: 0 <= i < j < |srs| ==> srs[i].time <= srs[j].time
    requires forall i :: 0 <= i < |srs| ==> 0.0 <= Offset(srs[i], n) < SlotUs(n)
    ensures InOrder(WithOpportunities(srs, n))
  {
    forall i, j | 0 <= i < j < |srs|
      ensures SlotStart(srs[i], n) <= SlotStart(srs[j], n)
    {
      assert Offset(srs[i], n) >= 0.0 && Offset(srs[j], n) < SlotUs(n);
      StartsInOrder(srs[i], srs[j], n);
    }
  }

  lemma StartsInOrder(a: SrTrace, b: SrTrace, n: int)
    requires Candidate(n) && a.time <= b.time && Offset(a, n) >= 0.0 && Offset(b, n) < SlotUs(n)
    ensures SlotStart(a, n) <= SlotStart(b, n)
  {
    SlotStartIsMultiple(a, n);
    SlotStartIsMultiple(b, n);
    MultiplesOrdered(SlotNumber(a, n), SlotNumber(b, n), SlotUs(n), SlotStart(a, n), SlotStart(b, n));
  }

  lemma MultiplesOrdered(a: int, b: int, d: real, x: real, y: real)
    requires d > 0.0 && x == a as real * d && y == b as real * d && x < y + d
    ensures x <= y
  {
    var gap := (b - a) as real * d;
    assert gap == y - x;
    NoNegativeMultiple(b - a, d);
  }

  lemma NoNegativeMultiple(k: int, d: real)
    requires d > 0.0 && k as real * d > -d
    ensures k >= 0
  {
    assert (k as real + 1.0) * d > 0.0;
  }

  /** The slack does break the order: two SRs one microsecond apart at a slot edge are accepted with
      their opportunities swapped, and the walk then loses one of two possible matches. */
  lemma SlackLosesMatch()
    ensures var srs := [SrTrace(62.0, 0, 0, 1), SrTrace(63.0, 0, 0, 0)];
            var triggers := [Trigger(0.0, Initial), Trigger(30.0, Initial)];
            var g := Group(1, WithOpportunities(srs, 16), triggers);
            && Explains(srs, 16) && !InOrder(g.srs) && |Found(g)| == 1
            && Matching(g, 2, 2, map[0 := 1, 1 := 0])
  {
    var srs := [SrTrace(62.0, 0, 0, 1), SrTrace(63.0, 0, 0, 0)];
    var triggers := [Trigger(0.0, Initial), Trigger(30.0, Initial)];
    var g := Group(1, WithOpportunities(srs, 16), triggers);
    assert g.srs[0].opportunity == 62.5 && g.srs[1].opportunity == 0.0;
    assert Greedy(g, 1, 0) == [];
    assert Greedy(g, 2, 1) == [Pair(1, 0)] + Greedy(g, 1, 0);
    assert Found(g) == Greedy(g, 2, 1);
  }

  // ---------- all UEs ----------

  // The rows of one UE.
  ghost function GroupRows(g: Group): (rows: seq<MatchRow>)
    ensures forall i :: 0 <= i < |rows| ==> rows[i].rnti == g.rnti
  {
    GreedyIsMatching(g, |g.srs|, |g.triggers|);
    Rows(g, Found(g))
  }

  ghost function AllRows(groups: seq<Group>): seq<MatchRow> {
    if groups == [] then [] else AllRows(groups[..|groups| - 1]) + GroupRows(groups[|groups| - 1])
  }

  predicate RowBefore(a: MatchRow, b: MatchRow) { a.time < b.time || (a.time == b.time && a.rnti <= b.rnti) }

  predicate RowsSorted(rows: seq<MatchRow>) {
    forall i, j :: 0 <= i < j < |rows| ==> RowBefore(rows[i], rows[j])
  }

  function InsertRow(rows: seq<MatchRow>, r: MatchRow): seq<MatchRow> {
    if rows == [] || RowBefore(rows[|rows| - 1], r) then rows + [r]
    else InsertRow(rows[..|rows| - 1], r) + [rows[|rows| - 1]]
  }

  /** sort_values by time and UE. */
  function SortRows(rows: seq<MatchRow>): seq<MatchRow> {
    if rows == [] then [] else InsertRow(SortRows(rows[..|rows| - 1]), rows[|rows| - 1])
  }

  lemma {:induction false} InsertKeeps(rows: seq<MatchRow>, r: MatchRow)
    ensures multiset(InsertRow(rows, r)) == multiset(rows) + multiset{r}
  {
    if rows != [] && !RowBefore(rows[|rows| - 1], r) {
      var front, last := rows[..|rows| - 1], rows[|rows| - 1];
      assert rows == front + [last];
      InsertKeeps(front, r);
    }
  }

  lemma {:induction false} InsertBefore(rows: seq<MatchRow>, r: MatchRow, b: MatchRow)
    requires RowBefore(r, b) && forall i :: 0 <= i < |rows| ==> RowBefore(rows[i], b)
    ensures forall i :: 0 <= i < |InsertRow(rows, r)| ==> RowBefore(InsertRow(rows, r)[i], b)
  {
    if rows != [] && !RowBefore(rows[|rows| - 1], r) {
      InsertBefore(rows[..|rows| - 1], r, b);
    }
  }

  lemma {:induction false} InsertSorted(rows: seq<MatchRow>, r: MatchRow)
    requires RowsSorted(rows)
    ensures RowsSorted(InsertRow(rows, r))
  {
    if rows != [] && !RowBefore(rows[|rows| - 1], r) {
      var front, last := rows[..|rows| - 1], rows[|rows| - 1];
      InsertSorted(front, r);
      InsertBefore(front, r, last);
    }
  }

  lemma {:induction false} SortRowsSorts(rows: seq<MatchRow>)
    ensures RowsSorted(SortRows(rows)) && multiset(SortRows(rows)) == multiset(rows)
  {
    if rows != [] {
      var front, last := rows[..|rows| - 1], rows[|rows| - 1];
      assert rows == front + [last];
      SortRowsSorts(front);
      InsertKeeps(SortRows(front), last);
      InsertSorted(SortRows(front), last);
    }
  }

  /** The matches of all UEs, sorted by time; what they are for each UE is MatchesOfUe. */
  method MatchSrTriggers(groups: seq<Group>) returns (rows: seq<MatchRow>)
    ensures RowsSorted(rows) && multiset(rows) == multiset(AllRows(groups))
  {
    rows := [];
    for i := 0 to |groups|
      invariant rows == AllRows(groups[..i])
    {
      var g := groups[i];
      var ps := MatchGroup(g);
      GreedyIsMatching(g, |g.srs|, |g.triggers|);
      assert groups[..i + 1][..i] == groups[..i];
      rows := rows + Rows(g, ps);
    }
    assert groups[..|groups|] == groups;
    SortRowsSorts(rows);
    rows := SortRows(rows);
  }

  // The groups are those of a dictionary keyed by UE.
  ghost predicate DistinctUes(groups: seq<Group>) {
    forall i, j :: 0 <= i < j < |groups| ==> groups[i].rnti != groups[j].rnti
  }

  function RowsOf(rows: seq<MatchRow>, rnti: int): seq<MatchRow> {
    if rows == [] then []
    else RowsOf(rows[..|rows| - 1], rnti) + if rows[|rows| - 1].rnti == rnti then [rows[|rows| - 1]] else []
  }

  lemma {:induction false} RowsOfConcat(a: seq<MatchRow>, b: seq<MatchRow>, rnti: int)
    ensures RowsOf(a + b, rnti) == RowsOf(a, rnti) + RowsOf(b, rnti)
  {
    if b == [] {
      assert a + b == a;
    } else {
      RowsOfConcat(a, b[..|b| - 1], rnti);
      assert (a + b)[..|a + b| - 1] == a + b[..|b| - 1];
    }
  }

  lemma {:induction false} RowsOfOne(rows: seq<MatchRow>, u: int, rnti: int)
    requires forall i :: 0 <= i < |rows| ==> rows[i].rnti == u
    ensures RowsOf(rows, rnti) == if u == rnti then rows else []
  {
    if rows != [] {
      RowsOfOne(rows[..|rows| - 1], u, rnti);
    }
  }

  // The rows that the last group adds for a UE.
  lemma LastGroup(front: seq<Group>, g: Group, rnti: int)
    ensures RowsOf(AllRows(front + [g]), rnti) == RowsOf(AllRows(front), rnti) + if g.rnti == rnti then GroupRows(g) else []
  {
    assert (front + [g])[..|front|] == front;
    RowsOfConcat(AllRows(front), GroupRows(g), rnti);
    RowsOfOne(GroupRows(g), g.rnti, rnti);
  }

  // Rows of a UE that is not among the groups.
  lemma {:induction false} NoRowsOf(groups: seq<Group>, rnti: int)
    requires forall i :: 0 <= i < |groups| ==> groups[i].rnti != rnti
    ensures RowsOf(AllRows(groups), rnti) == []
  {
    if groups != [] {
      var front, g := groups[..|groups| - 1], groups[|groups| - 1];
      assert groups == front + [g];
      NoRowsOf(front, rnti);
      LastGroup(front, g, rnti);
    }
  }

  lemma {:induction false} RowsOfUe(groups: seq<Group>, n: nat)
    requires DistinctUes(groups) && n < |groups|
    ensures RowsOf(AllRows(groups), groups[n].rnti) == GroupRows(groups[n])
  {
    var front, g := groups[..|groups| - 1], groups[|groups| - 1];
    assert groups == front + [g];
    LastGroup(front, g, groups[n].rnti);
    if n < |front| {
      RowsOfUe(front, n);
    } else {
      NoRowsOf(front, groups[n].rnti);
    }
  }

  lemma {:induction false} RowsOfMultiset(rows: seq<MatchRow>, rnti: int, r: MatchRow)
    ensures multiset(RowsOf(rows, rnti))[r] == if r.rnti == rnti then multiset(rows)[r] else 0
  {
    if rows != [] {
      var front, last := rows[..|rows| - 1], rows[|rows| - 1];
      assert rows == front + [last];
      RowsOfMultiset(front, rnti, r);
    }
  }

  // The rows of a list of pairs that uses each SR and each trigger at most once, all within tolerance.
  ghost predicate OnceEach(g: Group, ps: seq<Pair>) {
    && (forall i :: 0 <= i < |ps| ==>
         ps[i].sr < |g.srs| && ps[i].trigger < |g.triggers| && Fits(g.srs[ps[i].sr], g.triggers[ps[i].trigger]))
    && (forall i, j :: 0 <= i < j < |ps| ==> ps[i].sr != ps[j].sr && ps[i].trigger != ps[j].trigger)
  }

  lemma FoundOnceEach(g: Group)
    ensures OnceEach(g, Found(g))
  {
    GreedyIsMatching(g, |g.srs|, |g.triggers|);
    FallingOnceEach(g, Found(g));
  }

  lemma FallingOnceEach(g: Group, ps: seq<Pair>)
    requires forall p :: p in ps ==> p.sr < |g.srs| && p.trigger < |g.triggers| && Fits(g.srs[p.sr], g.triggers[p.trigger])
    requires forall i, j :: 0 <= i < j < |ps| ==> ps[i].sr > ps[j].sr && ps[i].trigger > ps[j].trigger
    ensures OnceEach(g, ps)
  {
    assert forall i :: 0 <= i < |ps| ==> ps[i] in ps;
  }

  lemma SameRowsOf(a: seq<MatchRow>, b: seq<MatchRow>, rnti: int)
    requires multiset(a) == multiset(b)
    ensures multiset(RowsOf(a, rnti)) == multiset(RowsOf(b, rnti))
  {
    forall r
      ensures multiset(RowsOf(a, rnti))[r] == multiset(RowsOf(b, rnti))[r]
    {
      RowsOfMultiset(a, rnti, r);
      RowsOfMultiset(b, rnti, r);
    }
  }

  // A row holds the times of its SR, those of its trigger and the UE.
  predicate IsRowFor(g: Group, p: Pair, r: MatchRow)
    requires p.sr < |g.srs| && p.trigger < |g.triggers|
  {
    && r.time == g.srs[p.sr].time && r.opportunity == g.srs[p.sr].opportunity && r.rnti == g.rnti
    && r.triggerTime == g.triggers[p.trigger].time && r.kind == g.triggers[p.trigger].kind
  }

  /** Among the sorted matches the rows of a UE are, in some order, one for each pair that the walk finds in the
      UE's own lists, and these use each of its SRs and triggers at most once. */
  lemma MatchesOfUe(groups: seq<Group>, rows: seq<MatchRow>, n: nat)
    requires DistinctUes(groups) && n < |groups| && multiset(rows) == multiset(AllRows(groups))
    ensures var g := groups[n];
            && OnceEach(g, Found(g)) && (Sorted(g.triggers) ==> Settled(g, |g.srs|, |g.triggers|, PairSet(Found(g))))
            && multiset(RowsOf(rows, g.rnti)) == multiset(GroupRows(g)) && |GroupRows(g)| == |Found(g)|
            && forall k :: 0 <= k < |Found(g)| ==> IsRowFor(g, Found(g)[k], GroupRows(g)[k])
  {
    FoundOnceEach(groups[n]);
    if Sorted(groups[n].triggers) {
      GreedyIsSettled(groups[n], |groups[n].srs|, |groups[n].triggers|);
    }
    RowsOfUe(groups, n);
    SameRowsOf(rows, AllRows(groups), groups[n].rnti);
  }

  /** And every row belongs to one of the UEs. */
  lemma MatchesAreOfUes(groups: seq<Group>, rows: seq<MatchRow>, r: MatchRow)
    requires multiset(rows) == multiset(AllRows(groups)) && r in rows
    ensures exists n :: 0 <= n < |groups| && groups[n].rnti == r.rnti
  {
    assert r in multiset(rows);
    RowsOfMultiset(AllRows(groups), r.rnti, r);
    if forall n :: 0 <= n < |groups| ==> groups[n].rnti != r.rnti {
      NoRowsOf(groups, r.rnti);
    }
  }
}
