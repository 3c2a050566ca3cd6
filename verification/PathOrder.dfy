/** The order in which a gathering records paths, and exactly when its records come sorted. */
module PathOrder {
  import opened AttributePaths
  import opened PathRecords

  /** Lexicographic order on walks, a beginning before what it begins. */
  ghost predicate Before(v: Walk, w: Walk)
    decreases |v|
  {
    w != [] && (v == [] || v[0] < w[0] || (v[0] == w[0] && Before(v[1..], w[1..])))
  }

  lemma {:induction false} BeforeOneWay(v: Walk, w: Walk)
    requires Before(v, w)
    ensures !Before(w, v)
    decreases |v|
  {
    if v != [] && v[0] == w[0] {
      BeforeOneWay(v[1..], w[1..]);
    }
  }

  lemma {:induction false} BeforeAfterPrefix(x: Walk, v: Walk, w: Walk)
    requires Before(v, w)
    ensures Before(x + v, x + w)
    decreases |x|
  {
    if x == [] {
      assert x + v == v && x + w == w;
    } else {
      assert (x + v)[1..] == x[1..] + v && (x + w)[1..] == x[1..] + w;
      BeforeAfterPrefix(x[1..], v, w);
    }
  }

  // Where v and w part.
  lemma {:induction false} Parting(v: Walk, w: Walk) returns (p: nat)
    requires Before(v, w)
    ensures p <= |v| && p < |w| && v[..p] == w[..p] && (p < |v| ==> v[p] < w[p])
    decreases |v|
  {
    if v == [] || v[0] < w[0] {
      p := 0;
    } else {
      var q := Parting(v[1..], w[1..]);
      p := q + 1;
      assert v[..p] == [v[0]] + v[1..][..q] && w[..p] == [w[0]] + w[1..][..q];
    }
  }

  lemma {:induction false} WalksInOrder(g: Graph, stack: seq<TypeId>, t: TypeId, i: nat, j: nat)
    requires Closed(g) && t < |g| && i < j < |Walks(g, stack, t)|
    ensures Before(Walks(g, stack, t)[i], Walks(g, stack, t)[j])
    decreases Unvisited(g, stack), 1, 0
  {
    var n := |g[t]|;
    var over := WalksOver(g, stack, t, n);
    WalksOverAreSimple(g, stack, t, n, over[j - 1]);
    if i > 0 {
      WalksOverInOrder(g, stack, t, n, i - 1, j - 1);
    }
  }

  // The walks by the last of the edges.
  lemma WalksOverLast(g: Graph, stack: seq<TypeId>, t: TypeId, n: nat, i: nat)
    requires Closed(g) && t < |g| && t !in stack && 0 < n <= |g[t]| && g[t][n - 1].target < |g|
    requires |WalksOver(g, stack, t, n - 1)| <= i < |WalksOver(g, stack, t, n)|
    ensures var k, vs := i - |WalksOver(g, stack, t, n - 1)|, Walks(g, stack + [t], g[t][n - 1].target);
            k < |vs| && WalksOver(g, stack, t, n)[i] == [n - 1] + vs[k]
  {
  }

  lemma LastEdgeInOrder(g: Graph, stack: seq<TypeId>, t: TypeId, n: nat, i: nat, j: nat)
    requires Closed(g) && t < |g| && t !in stack && 0 < n <= |g[t]| && g[t][n - 1].target < |g|
    requires |WalksOver(g, stack, t, n - 1)| <= i < j < |WalksOver(g, stack, t, n)|
    requires var earlier, vs := |WalksOver(g, stack, t, n - 1)|, Walks(g, stack + [t], g[t][n - 1].target);
             j - earlier < |vs| && Before(vs[i - earlier], vs[j - earlier])
    ensures Before(WalksOver(g, stack, t, n)[i], WalksOver(g, stack, t, n)[j])
  {
    var earlier, vs := |WalksOver(g, stack, t, n - 1)|, Walks(g, stack + [t], g[t][n - 1].target);
    WalksOverLast(g, stack, t, n, i);
    WalksOverLast(g, stack, t, n, j);
    BeforeAfterPrefix([n - 1], vs[i - earlier], vs[j - earlier]);
  }

  lemma {:induction false} WalksOverInOrder(g: Graph, stack: seq<TypeId>, t: TypeId, n: nat, i: nat, j: nat)
    requires Closed(g) && t < |g| && t !in stack && n <= |g[t]| && i < j < |WalksOver(g, stack, t, n)|
    ensures Before(WalksOver(g, stack, t, n)[i], WalksOver(g, stack, t, n)[j])
    decreases Unvisited(g, stack), 0, n
  {
    VisitShrinks(g, stack, t);
    var earlier := WalksOver(g, stack, t, n - 1);
    if j < |earlier| {
      WalksOverInOrder(g, stack, t, n - 1, i, j);
    } else if i >= |earlier| {
      WalksInOrder(g, stack + [t], g[t][n - 1].target, i - |earlier|, j - |earlier|);
      LastEdgeInOrder(g, stack, t, n, i, j);
    } else {
      WalksOverAreSimple(g, stack, t, n - 1, earlier[i]);
      WalksOverLast(g, stack, t, n, j);
    }
  }

  /** A path whose edge positions come first is recorded first. */
  lemma RecordedInOrder(g: Graph, root: TypeId, v: Walk, w: Walk) returns (k: nat, h: nat)
    requires Closed(g) && root < |g| && Simple(g, root, v) && Simple(g, root, w) && Before(v, w)
    ensures var rs := Records(g, [], [], root);
            k < h < |rs| && rs[k] == RecordOf(g, [], root, v) && rs[h] == RecordOf(g, [], root, w)
  {
    k := Recorded(g, root, v);
    h := Recorded(g, root, w);
    BeforeOneWay(v, w);
    if h < k {
      WalksInOrder(g, [], root, h, k);
    }
  }

  // ---------- sorted output ----------

  predicate StringLE(a: string, b: string) {
    a == "" || (b != "" && (a[0] < b[0] || (a[0] == b[0] && StringLE(a[1..], b[1..]))))
  }

  /** The order of (type, path) pairs: by type, then by path. */
  predicate RecordLE(a: Record, b: Record) {
    a.tid < b.tid || (a.tid == b.tid && StringLE(a.path, b.path))
  }

  ghost predicate Sorted(rs: seq<Record>) {
    forall k, h :: 0 <= k < h < |rs| ==> RecordLE(rs[k], rs[h])
  }

  /** Every edge that a simple path takes leads to a later type. */
  ghost predicate Upward(g: Graph, root: TypeId)
    requires Closed(g) && root < |g|
  {
    forall w, i :: Simple(g, root, w) && Simple(g, root, w + [i]) ==> End(g, root, w) < End(g, root, w + [i])
  }

  /** The simple path x ends at a type from which simple paths go on by edge i and then v, and by edge j. */
  ghost predicate Forks(g: Graph, root: TypeId, x: Walk, i: nat, j: nat, v: Walk)
    requires Closed(g) && root < |g|
  {
    && Simple(g, root, x) && Simple(g, root, x + ([i] + v)) && Simple(g, root, x + [j])
    && var u := End(g, root, x); u < |g| && j < |g[u]| && IsWalk(g, u, [i] + v)
  }

  /** Of two edges of a type, what is reached by way of the first has an earlier type than the target of the second,
      or the same type and, from the fork on, names that are not later than the name of the second. */
  ghost predicate SiblingsInOrder(g: Graph, root: TypeId)
    requires Closed(g) && root < |g|
  {
    forall x, i, j, v :: i < j && Forks(g, root, x, i, j, v) ==> InOrderBy(g, root, x, i, j, v)
  }

  ghost predicate InOrderBy(g: Graph, root: TypeId, x: Walk, i: nat, j: nat, v: Walk)
    requires Closed(g) && root < |g| && Forks(g, root, x, i, j, v)
  {
    var u := End(g, root, x);
    var reached, e := End(g, u, [i] + v), g[u][j];
    reached < e.target || (reached == e.target && StringLE(PathString(Names(g, u, [i] + v)), "/" + e.name))
  }

  lemma {:induction false} PathStringConcat(a: seq<string>, b: seq<string>)
    ensures PathString(a + b) == PathString(a) + PathString(b)
  {
    if b == [] {
      assert a + b == a;
    } else {
      PathStringConcat(a, b[..|b| - 1]);
      assert (a + b)[..|a + b| - 1] == a + b[..|b| - 1];
    }
  }

  lemma {:induction false} CommonPrefix(p: string, a: string, b: string)
    ensures StringLE(p + a, p + b) <==> StringLE(a, b)
  {
    if p == "" {
      assert p + a == a && p + b == b;
    } else {
      assert (p + a)[1..] == p[1..] + a && (p + b)[1..] == p[1..] + b;
      CommonPrefix(p[1..], a, b);
    }
  }

  // The record of a simple path in terms of where it goes on from x.
  lemma RecordFrom(g: Graph, root: TypeId, x: Walk, r: Walk)
    requires Closed(g) && root < |g| && Simple(g, root, x + r)
    ensures Simple(g, root, x) && End(g, root, x) < |g| && IsWalk(g, End(g, root, x), r)
    ensures RecordOf(g, [], root, x + r)
         == Record(End(g, End(g, root, x), r), PathString(Names(g, root, x)) + PathString(Names(g, End(g, root, x), r)))
  {
    Beginning(g, root, x, r);
    var u := End(g, root, x);
    var ns, ms := Names(g, root, x), Names(g, u, r);
    assert [] + (ns + ms) == ns + ms;
    PathStringConcat(ns, ms);
    EndFrom(Types(g, root, x), Types(g, u, r));
  }

  lemma EndFrom(ts: seq<TypeId>, us: seq<TypeId>)
    requires ts != [] && us != [] && ts[|ts| - 1] == us[0]
    ensures (ts + us[1..])[|ts| + |us| - 2] == us[|us| - 1]
  {
  }

  // The records on the two sides of a fork compare as InOrderBy says.
  lemma ForkCompares(g: Graph, root: TypeId, x: Walk, i: nat, j: nat, v: Walk)
    requires Closed(g) && root < |g| && Forks(g, root, x, i, j, v)
    ensures RecordLE(RecordOf(g, [], root, x + ([i] + v)), RecordOf(g, [], root, x + [j])) <==> InOrderBy(g, root, x, i, j, v)
  {
    var u := End(g, root, x);
    RecordFrom(g, root, x, [i] + v);
    RecordFrom(g, root, x, [j]);
    OneEdgeWalk(g, u, j);
    OneName(g[u][j].name);
    CommonPrefix(PathString(Names(g, root, x)), PathString(Names(g, u, [i] + v)), "/" + g[u][j].name);
  }

  lemma OneName(name: string)
    ensures PathString([name]) == "/" + name
  {
    assert [name][..0] == [];
    assert "" + "/" == "/";
  }

  lemma ForksHere(g: Graph, root: TypeId, x: Walk, i: nat, j: nat, v: Walk)
    requires Closed(g) && root < |g| && Simple(g, root, x + ([i] + v)) && Simple(g, root, x + [j])
    ensures Forks(g, root, x, i, j, v)
  {
    RecordFrom(g, root, x, [i] + v);
    RecordFrom(g, root, x, [j]);
  }

  lemma {:induction false} UpAlong(g: Graph, root: TypeId, v: Walk, r: Walk)
    requires Closed(g) && root < |g| && Upward(g, root) && Simple(g, root, v + r) && Simple(g, root, v) && r != []
    ensures End(g, root, v) < End(g, root, v + r)
    decreases |r|
  {
    var front, last := r[..|r| - 1], r[|r| - 1];
    assert v + r == (v + front) + [last];
    Beginning(g, root, v + front, [last]);
    if front != [] {
      UpAlong(g, root, v, front);
    } else {
      assert v + front == v;
    }
  }

  lemma SortedGoesUp(g: Graph, root: TypeId, w: Walk, i: nat)
    requires Closed(g) && root < |g| && Sorted(Records(g, [], [], root))
    requires Simple(g, root, w) && Simple(g, root, w + [i])
    ensures End(g, root, w) < End(g, root, w + [i])
  {
    BeforeAfterPrefix(w, [], [i]);
    assert w + [] == w;
    var k, h := RecordedInOrder(g, root, w, w + [i]);
    OneEdge(g, root, w, i);
    assert Types(g, root, w)[|w|] in Types(g, root, w);
  }

  lemma SortedSiblings(g: Graph, root: TypeId, x: Walk, i: nat, j: nat, v: Walk)
    requires Closed(g) && root < |g| && Sorted(Records(g, [], [], root)) && i < j && Forks(g, root, x, i, j, v)
    ensures InOrderBy(g, root, x, i, j, v)
  {
    BeforeAfterPrefix(x, [i] + v, [j]);
    var k, h := RecordedInOrder(g, root, x + ([i] + v), x + [j]);
    ForkCompares(g, root, x, i, j, v);
  }

  // A path and one that parts from it by a later edge.
  lemma OrderedParting(g: Graph, root: TypeId, x: Walk, i: nat, j: nat, v: Walk, w: Walk)
    requires Closed(g) && root < |g| && Upward(g, root) && SiblingsInOrder(g, root) && i < j
    requires Simple(g, root, x + ([i] + v)) && Simple(g, root, x + [j] + w)
    ensures RecordLE(RecordOf(g, [], root, x + ([i] + v)), RecordOf(g, [], root, x + [j] + w))
  {
    Beginning(g, root, x + [j], w);
    ForksHere(g, root, x, i, j, v);
    ForkCompares(g, root, x, i, j, v);
    if w == [] {
      assert x + [j] + w == x + [j];
    } else {
      UpAlong(g, root, x + [j], w);
    }
  }

  // What two walks share, and how they go on.
  datatype Fork = Extends(rest: Walk) | Parts(x: Walk, i: nat, j: nat, v: Walk, w: Walk)

  lemma ForkOf(v: Walk, w: Walk) returns (f: Fork)
    requires Before(v, w)
    ensures f.Extends? ==> f.rest != [] && w == v + f.rest
    ensures f.Parts? ==> f.i < f.j && v == f.x + ([f.i] + f.v) && w == f.x + [f.j] + f.w
  {
    var p := Parting(v, w);
    if p == |v| {
      f := Extends(w[p..]);
    } else {
      f := Parts(v[..p], v[p], w[p], v[p + 1..], w[p + 1..]);
    }
  }

  lemma OrderedRecords(g: Graph, root: TypeId, v: Walk, w: Walk)
    requires Closed(g) && root < |g| && Upward(g, root) && SiblingsInOrder(g, root)
    requires Simple(g, root, v) && Simple(g, root, w) && Before(v, w)
    ensures RecordLE(RecordOf(g, [], root, v), RecordOf(g, [], root, w))
  {
    var f := ForkOf(v, w);
    match f {
      case Extends(rest) => UpAlong(g, root, v, rest);
      case Parts(x, i, j, v', w') => OrderedParting(g, root, x, i, j, v', w');
    }
  }

  /** The records of a gathering come sorted by type and path exactly when every edge it takes leads to a
      later type and, of two edges of a type, what is reached by way of the first has an earlier type than the
      second, or the same type and names that are not later. */
  lemma SortedExactlyWhen(g: Graph, root: TypeId)
    requires Closed(g) && root < |g|
    ensures Sorted(Records(g, [], [], root)) <==> Upward(g, root) && SiblingsInOrder(g, root)
  {
    var ws, rs := Walks(g, [], root), Records(g, [], [], root);
    if Sorted(rs) {
      forall w, i | Simple(g, root, w) && Simple(g, root, w + [i])
        ensures End(g, root, w) < End(g, root, w + [i])
      {
        SortedGoesUp(g, root, w, i);
      }
      forall x, i, j, v | i < j && Forks(g, root, x, i, j, v)
        ensures InOrderBy(g, root, x, i, j, v)
      {
        SortedSiblings(g, root, x, i, j, v);
      }
    }
    if Upward(g, root) && SiblingsInOrder(g, root) {
      GatherListsSimplePaths(g, root);
      forall k, h | 0 <= k < h < |rs|
        ensures RecordLE(rs[k], rs[h])
      {
        WalksInOrder(g, [], root, k, h);
        assert ws[k] in ws && ws[h] in ws;
        OrderedRecords(g, root, ws[k], ws[h]);
      }
    }
  }

  /** An edge to an earlier type is enough to spoil the order. */
  lemma DownEdgeUnsorted(g: Graph, root: TypeId, w: Walk, i: nat)
    requires Closed(g) && root < |g| && Simple(g, root, w) && Simple(g, root, w + [i])
    requires End(g, root, w) > End(g, root, w + [i])
    ensures !Sorted(Records(g, [], [], root))
  {
    SortedExactlyWhen(g, root);
  }

  function EarlyProtocolRegistry(): Registry {
    Registry([TypeInfo("ns3::Icmpv4L4Protocol", []), TypeInfo("ns3::Node", []), TypeInfo("ns3::Object", [])], {}, 2)
  }

  /** A protocol registered before the nodes it is aggregated to: the gathering from the nodes is not sorted. */
  lemma EarlyProtocolUnsorted()
    ensures var reg, aggs := EarlyProtocolRegistry(), [(1, 0)];
            Registered(reg, aggs) && Closed(GraphOf(reg, aggs)) && !Sorted(Records(GraphOf(reg, aggs), [], [], 1))
  {
    var reg, aggs := EarlyProtocolRegistry(), [(1, 0)];
    GraphClosed(reg, aggs);
    var g: Graph := GraphOf(reg, aggs);
    assert aggs[..0] == [];
    assert AggregateEdges(reg, 1, aggs) == [] + AggregateEdge(reg, 1, aggs[0]);
    assert ChildEdges(reg, 1, 1) == ChildEdges(reg, 1, 2) == ChildEdges(reg, 1, 3) == [];
    assert g[1][0].target == 0;
    assert Simple(g, 1, []);
    OneEdge(g, 1, [], 0);
    DownEdgeUnsorted(g, 1, [], 0);
  }
}
