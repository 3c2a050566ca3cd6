/** Libraries sorted into steps so that each comes after everything it links to. */
module DependencyOrder {
  import RealSeries
  import opened Wrappers

  // A library, by its file name.
  datatype Lib = Lib(name: string)

  /** What each library links to, and the libraries in the order of the dictionary. */
  datatype Links = Links(keys: seq<Lib>, deps: map<Lib, seq<Lib>>)

  ghost predicate Distinct(s: seq<Lib>) {
    forall i, j :: 0 <= i < j < |s| ==> s[i] != s[j]
  }

  ghost predicate WellFormed(g: Links) {
    Distinct(g.keys) && forall l :: l in g.keys <==> l in g.deps
  }

  // All dependencies of l are in `loaded`.
  predicate CanBeLoaded(g: Links, l: Lib, loaded: seq<Lib>) {
    l in g.deps && forall d :: d in g.deps[l] ==> d in loaded
  }

  function Ready(g: Links, pending: seq<Lib>, loaded: seq<Lib>): seq<Lib> {
    if pending == [] then []
    else
      var front, last := pending[..|pending| - 1], pending[|pending| - 1];
      Ready(g, front, loaded) + if CanBeLoaded(g, last, loaded) then [last] else []
  }

  function Without(s: seq<Lib>, xs: seq<Lib>): seq<Lib> {
    if s == [] then []
    else if s[0] in xs then Without(s[1..], xs)
    else [s[0]] + Without(s[1..], xs)
  }

  lemma {:induction false} ReadyHas(g: Links, pending: seq<Lib>, loaded: seq<Lib>)
    ensures forall l :: l in Ready(g, pending, loaded) <==> l in pending && CanBeLoaded(g, l, loaded)
  {
    if pending != [] {
      ReadyHas(g, pending[..|pending| - 1], loaded);
    }
  }

  lemma {:induction false} WithoutHas(s: seq<Lib>, xs: seq<Lib>)
    ensures forall l :: l in Without(s, xs) <==> l in s && l !in xs
  {
    if s != [] {
      WithoutHas(s[1..], xs);
    }
  }

  // list.remove: the first occurrence goes.
  function RemoveFirst(s: seq<Lib>, x: Lib): seq<Lib>
    requires x in s
  {
    if s[0] == x then s[1..] else [s[0]] + RemoveFirst(s[1..], x)
  }

  datatype State = State(pending: seq<Lib>, loaded: seq<Lib>)

  function Round(g: Links, s: State): State {
    var layer := Ready(g, s.pending, s.loaded);
    State(Without(s.pending, layer), s.loaded + layer)
  }

  /** The state after k rounds. */
  function After(g: Links, k: nat): State {
    if k == 0 then State(g.keys, []) else Round(g, After(g, k - 1))
  }

  function Layer(g: Links, k: nat): seq<Lib> {
    Ready(g, After(g, k).pending, After(g, k).loaded)
  }

  // ---------- chains ----------

  /** A dependency chain: each library links to the next. */
  ghost predicate Chain(g: Links, c: seq<Lib>) {
    && |c| > 0 && (forall i :: 0 <= i < |c| ==> c[i] in g.deps)
    && forall i :: 0 <= i < |c| - 1 ==> c[i + 1] in g.deps[c[i]]
  }

  ghost predicate Cycle(g: Links, c: seq<Lib>) {
    Chain(g, c) && |c| > 1 && c[0] == c[|c| - 1]
  }

  ghost predicate Acyclic(g: Links) {
    forall c :: !Cycle(g, c)
  }

  /** Every library linked to is one of the libraries. */
  ghost predicate Closed(g: Links) {
    forall l, d :: l in g.deps && d in g.deps[l] ==> d in g.deps
  }

  /** l is loaded within k rounds: each of its dependencies within k - 1. */
  ghost predicate Loaded(g: Links, k: nat, l: Lib) {
    k > 0 && l in g.deps && forall d :: d in g.deps[l] ==> Loaded(g, k - 1, d)
  }

  lemma {:induction false} LoadedStays(g: Links, k: nat, l: Lib)
    requires Loaded(g, k, l)
    ensures Loaded(g, k + 1, l)
  {
    forall d | d in g.deps[l]
      ensures Loaded(g, k, d)
    {
      LoadedStays(g, k - 1, d);
    }
  }

  lemma {:induction false} LoadedBoundsChains(g: Links, k: nat, c: seq<Lib>)
    requires Chain(g, c) && Loaded(g, k, c[0])
    ensures |c| <= k
  {
    if |c| > 1 {
      assert c[0 + 1] in g.deps[c[0]];
      LoadedBoundsChains(g, k - 1, c[1..]);
    }
  }

  lemma {:induction false} UnloadedHasChain(g: Links, k: nat, l: Lib) returns (c: seq<Lib>)
    requires Closed(g) && l in g.deps && !Loaded(g, k, l)
    ensures Chain(g, c) && c[0] == l && |c| == k + 1
  {
    c := [l];
    if k > 0 {
      var d :| d in g.deps[l] && !Loaded(g, k - 1, d);
      var rest := UnloadedHasChain(g, k - 1, d);
      c := [l] + rest;
    }
  }

  ghost predicate LongestChain(g: Links, l: Lib, k: nat) {
    && (exists c :: Chain(g, c) && c[0] == l && |c| - 1 == k)
    && (forall c :: Chain(g, c) && c[0] == l ==> |c| - 1 <= k)
  }

  lemma LoadedAtLongestChain(g: Links, k: nat, l: Lib)
    requires Closed(g)
    ensures Loaded(g, k + 1, l) && !Loaded(g, k, l) <==> LongestChain(g, l, k)
  {
    if Loaded(g, k + 1, l) {
      forall c | Chain(g, c) && c[0] == l
        ensures |c| <= k + 1
      {
        LoadedBoundsChains(g, k + 1, c);
      }
    } else if l in g.deps {
      var c := UnloadedHasChain(g, k + 1, l);
    }
    if Loaded(g, k, l) {
      forall c | Chain(g, c) && c[0] == l
        ensures |c| <= k
      {
        LoadedBoundsChains(g, k, c);
      }
    } else if l in g.deps {
      var c := UnloadedHasChain(g, k, l);
    }
  }

  // What the rounds have loaded, and what they have not.
  lemma {:induction false} RoundsLoad(g: Links, k: nat)
    requires WellFormed(g)
    ensures forall l :: l in After(g, k).loaded <==> Loaded(g, k, l)
    ensures forall l :: l in After(g, k).pending <==> l in g.deps && !Loaded(g, k, l)
  {
    if k > 0 {
      RoundsLoad(g, k - 1);
      var s := After(g, k - 1);
      forall l
        ensures l in Layer(g, k - 1) <==> Loaded(g, k, l) && !Loaded(g, k - 1, l)
        ensures Loaded(g, k - 1, l) ==> Loaded(g, k, l)
      {
        LayerMeans(g, s, k - 1, l);
      }
      WithoutHas(s.pending, Layer(g, k - 1));
      assert After(g, k).loaded == s.loaded + Layer(g, k - 1);
    }
  }

  lemma LayerMeans(g: Links, s: State, k: nat, l: Lib)
    requires forall l :: l in s.loaded <==> Loaded(g, k, l)
    requires forall l :: l in s.pending <==> l in g.deps && !Loaded(g, k, l)
    ensures l in Ready(g, s.pending, s.loaded) <==> Loaded(g, k + 1, l) && !Loaded(g, k, l)
    ensures Loaded(g, k, l) ==> Loaded(g, k + 1, l)
  {
    ReadyHas(g, s.pending, s.loaded);
    if Loaded(g, k, l) {
      LoadedStays(g, k, l);
    }
  }

  /** The number of the step that loads a library is the length of its longest dependency chain. */
  lemma StepIsLongestChain(g: Links, k: nat, l: Lib)
    requires WellFormed(g) && Closed(g)
    ensures l in Layer(g, k) <==> LongestChain(g, l, k)
  {
    RoundsLoad(g, k);
    LayerMeans(g, After(g, k), k, l);
    LoadedAtLongestChain(g, k, l);
  }

  // ---------- the rounds end exactly on closed acyclic graphs ----------

  ghost function Elements(s: seq<Lib>): set<Lib> { set l | l in s }

  lemma {:induction false} DistinctSize(s: seq<Lib>)
    requires Distinct(s)
    ensures |Elements(s)| == |s|
  {
    if s != [] {
      var front := s[..|s| - 1];
      DistinctSize(front);
      assert Elements(s) == Elements(front) + {s[|s| - 1]};
    }
  }

  lemma LongChainRepeats(g: Links, c: seq<Lib>)
    requires WellFormed(g) && Chain(g, c) && |c| > |g.keys|
    ensures !Acyclic(g)
  {
    DistinctSize(g.keys);
    RealSeries.SubsetSize(Elements(c), Elements(g.keys));
    if Distinct(c) {
      DistinctSize(c);
    }
    var i, j :| 0 <= i < j < |c| && c[i] == c[j];
    assert Cycle(g, c[i..j + 1]);
  }

  lemma {:induction false} CycleNeverLoaded(g: Links, k: nat, c: seq<Lib>, i: nat)
    requires Cycle(g, c) && i < |c|
    ensures !Loaded(g, k, c[i])
    decreases k
  {
    if k > 0 {
      var next := if i + 1 < |c| then i + 1 else 1;
      assert c[next - 1 + 1] in g.deps[c[next - 1]];
      CycleNeverLoaded(g, k - 1, c, next);
    }
  }

  lemma AllLoadedInTime(g: Links)
    requires WellFormed(g) && Closed(g) && Acyclic(g)
    ensures After(g, |g.keys|).pending == []
  {
    var k := |g.keys|;
    RoundsLoad(g, k);
    if After(g, k).pending != [] {
      var l := After(g, k).pending[0];
      var c := UnloadedHasChain(g, k, l);
      LongChainRepeats(g, c);
    }
  }

  /** The recursion reaches an empty pending list exactly when every library linked to is there and no
      library depends on itself through others. */
  lemma EndsExactlyWhen(g: Links)
    requires WellFormed(g)
    ensures (exists k :: After(g, k).pending == []) <==> Closed(g) && Acyclic(g)
  {
    if Closed(g) && Acyclic(g) {
      AllLoadedInTime(g);
    } else if c :| Cycle(g, c) {
      forall k
        ensures After(g, k).pending != []
      {
        CycleNeverLoaded(g, k, c, 0);
        RoundsLoad(g, k);
      }
    } else {
      var l, d :| l in g.deps && d in g.deps[l] && d !in g.deps;
      forall k
        ensures After(g, k).pending != []
      {
        RoundsLoad(g, k);
        assert !Loaded(g, k, l);
      }
    }
  }

  const MUTUAL := Links([Lib("a"), Lib("b")], map[Lib("a") := [Lib("b")], Lib("b") := [Lib("a")]])

  /** Two libraries that link to each other: nothing is ever loaded. */
  lemma MutualLinksNeverEnd(k: nat)
    ensures WellFormed(MUTUAL) && Closed(MUTUAL) && !Acyclic(MUTUAL) && After(MUTUAL, k).pending != []
  {
    var a, b := Lib("a"), Lib("b");
    assert MUTUAL.keys[0] == a && MUTUAL.keys[1] == b && "a"[0] != "b"[0];
    assert Chain(MUTUAL, [a, b, a]) && Cycle(MUTUAL, [a, b, a]);
    CycleNeverLoaded(MUTUAL, k, [a, b, a], 0);
    RoundsLoad(MUTUAL, k);
  }

  const MISSING := Links([Lib("a")], map[Lib("a") := [Lib("b")]])

  /** A library that links to one that is not there. */
  lemma MissingLinkNeverEnds(k: nat)
    ensures WellFormed(MISSING) && !Closed(MISSING) && After(MISSING, k).pending != []
  {
    var a, b := Lib("a"), Lib("b");
    assert MISSING.keys[0] == a && "a"[0] != "b"[0];
    assert a in MISSING.deps && b in MISSING.deps[a] && b !in MISSING.deps;
    RoundsLoad(MISSING, k);
    assert !Loaded(MISSING, k, a);
  }

  // ---------- the result ----------

  /** Each library comes after everything it links to. */
  ghost predicate Ordered(g: Links, s: seq<Lib>) {
    forall i :: 0 <= i < |s| ==> CanBeLoaded(g, s[i], s[..i])
  }

  lemma {:induction false} ReadyDistinct(g: Links, pending: seq<Lib>, loaded: seq<Lib>)
    requires Distinct(pending)
    ensures Distinct(Ready(g, pending, loaded))
  {
    if pending != [] {
      var front := pending[..|pending| - 1];
      ReadyDistinct(g, front, loaded);
      ReadyHas(g, front, loaded);
      assert pending[|pending| - 1] !in front;
    }
  }

  lemma {:induction false} WithoutDistinct(s: seq<Lib>, xs: seq<Lib>)
    requires Distinct(s)
    ensures Distinct(Without(s, xs))
  {
    if s != [] {
      WithoutDistinct(s[1..], xs);
      WithoutHas(s[1..], xs);
      assert s[0] !in s[1..];
    }
  }

  lemma DistinctConcat(s: seq<Lib>, t: seq<Lib>)
    requires Distinct(s) && Distinct(t) && forall l :: l in t ==> l !in s
    ensures Distinct(s + t)
  {
    forall i, j | 0 <= i < j < |s + t|
      ensures (s + t)[i] != (s + t)[j]
    {
      if i < |s| <= j {
        assert t[j - |s|] in t;
      }
    }
  }

  /** What every round keeps. */
  ghost predicate Tidy(g: Links, s: State) {
    && Ordered(g, s.loaded) && Distinct(s.loaded) && Distinct(s.pending)
    && forall l :: l in s.pending ==> l !in s.loaded
  }

  lemma RoundTidy(g: Links, s: State)
    requires Tidy(g, s)
    ensures Tidy(g, Round(g, s))
  {
    var layer := Ready(g, s.pending, s.loaded);
    ReadyHas(g, s.pending, s.loaded);
    ReadyDistinct(g, s.pending, s.loaded);
    WithoutHas(s.pending, layer);
    WithoutDistinct(s.pending, layer);
    DistinctConcat(s.loaded, layer);
    var t := s.loaded + layer;
    forall i | 0 <= i < |t|
      ensures CanBeLoaded(g, t[i], t[..i])
    {
      if i < |s.loaded| {
        assert t[..i] == s.loaded[..i];
      } else {
        assert t[i] in layer;
        assert t[..i] == s.loaded + layer[..i - |s.loaded|];
      }
    }
  }

  lemma {:induction false} AfterTidy(g: Links, k: nat)
    requires WellFormed(g)
    ensures Tidy(g, After(g, k))
  {
    if k > 0 {
      AfterTidy(g, k - 1);
      RoundTidy(g, After(g, k - 1));
    }
  }

  ghost function Layers(g: Links, n: nat): seq<Lib> {
    if n == 0 then [] else Layers(g, n - 1) + Layer(g, n - 1)
  }

  lemma {:induction false} LayersAreLoaded(g: Links, n: nat)
    ensures Layers(g, n) == After(g, n).loaded
  {
    if n > 0 {
      LayersAreLoaded(g, n - 1);
    }
  }

  lemma {:induction false} SameElements(s: seq<Lib>, t: seq<Lib>)
    requires Distinct(s) && Distinct(t) && forall l :: l in s <==> l in t
    ensures multiset(s) == multiset(t)
  {
    forall l
      ensures multiset(s)[l] == multiset(t)[l]
    {
      CountOnce(s, l);
      CountOnce(t, l);
    }
  }

  lemma {:induction false} CountOnce(s: seq<Lib>, l: Lib)
    requires Distinct(s)
    ensures multiset(s)[l] == if l in s then 1 else 0
  {
    if s != [] {
      var front := s[..|s| - 1];
      CountOnce(front, l);
      assert s == front + [s[|s| - 1]];
    }
  }

  // ---------- the recursion itself ----------

  lemma {:induction false} RemoveStep(s: seq<Lib>, xs: seq<Lib>, x: Lib)
    requires Distinct(s) && x in s && x !in xs
    ensures x in Without(s, xs) && RemoveFirst(Without(s, xs), x) == Without(s, xs + [x])
  {
    WithoutHas(s, xs);
    if s[0] == x {
      WithoutAbsent(s[1..], xs, x);
    } else {
      RemoveStep(s[1..], xs, x);
    }
  }

  lemma {:induction false} WithoutAbsent(s: seq<Lib>, xs: seq<Lib>, x: Lib)
    requires x !in s
    ensures Without(s, xs) == Without(s, xs + [x])
  {
    if s != [] {
      WithoutAbsent(s[1..], xs, x);
    }
  }

  lemma {:induction false} WithoutNothing(s: seq<Lib>)
    ensures Without(s, []) == s
  {
    if s != [] {
      WithoutNothing(s[1..]);
    }
  }

  datatype OrderError = RecursionTooDeep

  // The libraries sorted, the steps dictionary, and its number of steps.
  datatype Sorting = Sorting(libraries: seq<Lib>, steps: map<nat, seq<Lib>>, last: nat)

  class Sorter {
    const g: Links
    var pending: seq<Lib>
    var current: seq<Lib>
    var steps: map<nat, seq<Lib>>

    constructor (g: Links)
      ensures this.g == g && pending == g.keys && current == [] && steps == map[]
    {
      this.g := g;
      pending, current, steps := g.keys, [], map[];
    }

    method ModulesThatCanBeLoaded() returns (modules: seq<Lib>)
      requires forall i :: 0 <= i < |pending| ==> pending[i] in g.deps
      ensures modules == Ready(g, pending, current)
    {
      modules := [];
      for i := 0 to |pending|
        invariant modules == Ready(g, pending[..i], current)
      {
        var canBeLoaded := true;
        var links := g.deps[pending[i]];
        for j := 0 to |links|
          invariant canBeLoaded <==> forall d :: d in links[..j] ==> d in current
        {
          if links[j] !in current {
            canBeLoaded := false;
            assert links[j] in links;
            break;
          }
        }
        assert canBeLoaded <==> CanBeLoaded(g, pending[i], current) by { assert links[..|links|] == links; }
        assert pending[..i + 1][..i] == pending[..i];
        if canBeLoaded {
          modules := modules + [pending[i]];
        }
      }
      assert pending[..|pending|] == pending;
    }

    function Now(): State
      reads this
    {
      State(pending, current)
    }

    // Where the move of `modules` from `was` to `now` stands after i of them.
    ghost predicate Moved(n: nat, modules: seq<Lib>, i: nat, was: seq<Lib>, now: seq<Lib>, filed: map<nat, seq<Lib>>)
      requires i <= |modules|
      reads this
    {
      pending == Without(was, modules[..i]) && current == now + modules[..i] && steps == filed[n := modules[..i]]
    }

    method TakeModule(n: nat, m: Lib, ghost modules: seq<Lib>, ghost i: nat, ghost was: seq<Lib>, ghost now: seq<Lib>,
                      ghost filed: map<nat, seq<Lib>>)
      requires i < |modules| && m == modules[i] && Distinct(was) && m in was && m !in modules[..i]
      requires Moved(n, modules, i, was, now, filed)
      modifies this
      ensures Moved(n, modules, i + 1, was, now, filed)
    {
      assert modules[..i + 1] == modules[..i] + [m];
      RemoveStep(was, modules[..i], m);
      steps := steps[n := steps[n] + [m]];
      pending := RemoveFirst(pending, m);
      current := current + [m];
    }

    // Moves the modules of one step from pending to current.
    method TakeModules(n: nat, modules: seq<Lib>)
      requires Distinct(pending) && Distinct(modules) && (forall l :: l in modules ==> l in pending)
      requires n in steps && steps[n] == []
      modifies this
      ensures pending == Without(old(pending), modules) && current == old(current) + modules
      ensures steps == old(steps)[n := modules]
    {
      WithoutNothing(pending);
      ghost var was, now, filed := pending, current, steps;
      for i := 0 to |modules|
        invariant Moved(n, modules, i, was, now, filed)
      {
        TakeModule(n, modules[i], modules, i, was, now, filed);
      }
      assert modules[..|modules|] == modules;
    }

    // One round: the ready modules become the next step.
    method LoadStep(n: nat)
      requires Distinct(pending) && n !in steps && forall i :: 0 <= i < |pending| ==> pending[i] in g.deps
      modifies this
      ensures Now() == Round(g, old(Now()))
      ensures steps == old(steps)[n := Ready(g, old(pending), old(current))]
    {
      steps := steps[n := []];
      var modules := ModulesThatCanBeLoaded();
      ReadyHas(g, pending, current);
      ReadyDistinct(g, pending, current);
      TakeModules(n, modules);
    }

    method NextRound(n: nat)
      requires AtRound(g, Now(), steps, n) && RoundToGo(g, Now(), steps, n)
      modifies this
      ensures AtRound(g, Now(), steps, n + 1)
    {
      ghost var before, s := steps, Now();
      LoadStep(n);
      NextStep(g, s, Now(), before, steps, n);
    }

    /** The recursion, with the number of calls that Python still allows it: it ends at the first round after
        which nothing is pending, and fails exactly when there is none within reach. */
    method DependencyOrder(n: nat, calls: nat) returns (r: Result<nat, OrderError>)
      requires WellFormed(g) && AtRound(g, Now(), steps, n)
      modifies this
      ensures r.Ok? ==> n <= r.value <= n + calls && AtRound(g, Now(), steps, r.value) && pending == []
      ensures r.Err? ==> forall k: nat :: n <= k <= n + calls ==> After(g, k).pending != []
      decreases calls
    {
      if |pending| == 0 {
        return Ok(n);
      }
      if calls == 0 {
        return Err(RecursionTooDeep);
      }
      RoundIsToGo(g, Now(), steps, n);
      NextRound(n);
      r := DependencyOrder(n + 1, calls - 1);
    }
  }

  /** The steps dictionary after n rounds. */
  ghost function StepMap(g: Links, n: nat): map<nat, seq<Lib>>
  {
    if n == 0 then map[] else StepMap(g, n - 1)[n - 1 := Layer(g, n - 1)]
  }

  lemma {:induction false} StepMapIs(g: Links, n: nat, k: nat)
    ensures k in StepMap(g, n) <==> k < n
    ensures k < n ==> StepMap(g, n)[k] == Layer(g, k)
  {
    if n > 0 {
      StepMapIs(g, n - 1, k);
    }
  }

  // The state and the steps after n rounds.
  ghost predicate AtRound(g: Links, s: State, steps: map<nat, seq<Lib>>, n: nat) {
    s == After(g, n) && steps == StepMap(g, n)
  }

  // What a round needs of the state.
  ghost predicate RoundToGo(g: Links, s: State, steps: map<nat, seq<Lib>>, n: nat) {
    Distinct(s.pending) && n !in steps && forall i :: 0 <= i < |s.pending| ==> s.pending[i] in g.deps
  }

  lemma RoundIsToGo(g: Links, s: State, steps: map<nat, seq<Lib>>, n: nat)
    requires WellFormed(g) && AtRound(g, s, steps, n)
    ensures RoundToGo(g, s, steps, n)
  {
    AfterTidy(g, n);
    RoundsLoad(g, n);
    StepMapIs(g, n, n);
  }

  lemma NextStep(g: Links, s: State, s': State, steps: map<nat, seq<Lib>>, steps': map<nat, seq<Lib>>, n: nat)
    requires AtRound(g, s, steps, n) && s' == Round(g, s)
    requires steps' == steps[n := Ready(g, s.pending, s.loaded)]
    ensures AtRound(g, s', steps', n + 1)
  {
  }

  /** The sort, with the number of calls that Python allows the recursion. It succeeds exactly when some round
      within reach leaves nothing pending; that takes a closed graph without cycles, and as many calls as there
      are libraries are enough for one. The sorted libraries are then a permutation of the libraries in which
      each comes after everything it links to, and they are the steps in order. */
  method SortToDependencies(g: Links, calls: nat) returns (r: Result<Sorting, OrderError>)
    requires WellFormed(g)
    ensures r.Ok? <==> exists k: nat :: k <= calls && After(g, k).pending == []
    ensures r.Ok? ==> Closed(g) && Acyclic(g)
    ensures Closed(g) && Acyclic(g) && |g.keys| <= calls ==> r.Ok?
    ensures r.Ok? ==> multiset(r.value.libraries) == multiset(g.keys) && Ordered(g, r.value.libraries)
    ensures r.Ok? ==> r.value.steps == StepMap(g, r.value.last) && r.value.libraries == Layers(g, r.value.last)
  {
    var sorter := new Sorter(g);
    var ended := sorter.DependencyOrder(0, calls);
    EndsExactlyWhen(g);
    if ended.Err? {
      if Closed(g) && Acyclic(g) {
        AllLoadedInTime(g);
      }
      return Err(ended.error);
    }
    var last, steps, sorted := ended.value, sorter.steps, [];
    for k := 0 to last
      invariant sorted == Layers(g, k)
    {
      StepMapIs(g, last, k);
      sorted := sorted + steps[k];
    }
    LayersAreLoaded(g, last);
    AllLoadedAtEnd(g, last);
    return Ok(Sorting(sorted, steps, last));
  }

  lemma AllLoadedAtEnd(g: Links, n: nat)
    requires WellFormed(g) && After(g, n).pending == []
    ensures multiset(After(g, n).loaded) == multiset(g.keys) && Ordered(g, After(g, n).loaded)
  {
    var s := After(g, n);
    RoundsLoad(g, n);
    AfterTidy(g, n);
    forall l
      ensures l in s.loaded <==> l in g.keys
    {
      assert l in s.pending <==> l in g.deps && !Loaded(g, n, l);
    }
    SameElements(s.loaded, g.keys);
  }
}
