/** Configuration paths of the registered types: a depth-first walk over attributes, derived types and
    aggregates that never re-enters a type on its own path. */
module AttributePaths {
  type TypeId = nat

  datatype Attribute =
    | Pointer(name: string, pointee: TypeId)
    | Container(name: string, item: TypeId)
    | Plain(name: string)

  datatype TypeInfo = TypeInfo(name: string, attributes: seq<Attribute>)

  /** The registered types, which of them derive from which, and the type of plain objects. */
  datatype Registry = Registry(types: seq<TypeInfo>, childOf: set<(TypeId, TypeId)>, objectType: TypeId)

  datatype Edge = Edge(name: string, target: TypeId)

  datatype Record = Record(tid: TypeId, path: string)

  // The edges that leave each type, in the order they are followed.
  type Graph = seq<seq<Edge>>

  ghost predicate Inside(g: Graph, es: seq<Edge>) {
    forall i :: 0 <= i < |es| ==> es[i].target < |g|
  }

  ghost predicate Closed(g: Graph) {
    forall t: TypeId :: t < |g| ==> Inside(g, g[t])
  }

  function PathString(labels: seq<string>): string {
    if labels == [] then "" else PathString(labels[..|labels| - 1]) + "/" + labels[|labels| - 1]
  }

  // ---------- the graph of a registry ----------

  function AttributeEdge(reg: Registry, a: Attribute): seq<Edge> {
    match a
    case Pointer(name, pointee) => if pointee == reg.objectType then [] else [Edge(name, pointee)]
    case Container(name, item) => [Edge(name + "/[i]", item)]
    case Plain(_) => []
  }

  function AttributeEdges(reg: Registry, attributes: seq<Attribute>): seq<Edge> {
    if attributes == [] then []
    else AttributeEdges(reg, attributes[..|attributes| - 1]) + AttributeEdge(reg, attributes[|attributes| - 1])
  }

  // Edges to the derived types among the first n.
  function ChildEdges(reg: Registry, t: TypeId, n: nat): seq<Edge>
    requires n <= |reg.types|
  {
    if n == 0 then []
    else ChildEdges(reg, t, n - 1) + if (n - 1, t) in reg.childOf then [Edge("$" + reg.types[n - 1].name, n - 1)] else []
  }

  // The other end of an aggregation, if t is an end of it; the second test overrides the first.
  function AggregateEdge(reg: Registry, t: TypeId, agg: (TypeId, TypeId)): seq<Edge>
    requires agg.0 < |reg.types| && agg.1 < |reg.types|
  {
    if agg.1 == t then [Edge("$" + reg.types[agg.0].name, agg.0)]
    else if agg.0 == t then [Edge("$" + reg.types[agg.1].name, agg.1)]
    else []
  }

  predicate Registered(reg: Registry, aggs: seq<(TypeId, TypeId)>) {
    && (forall i :: 0 <= i < |aggs| ==> aggs[i].0 < |reg.types| && aggs[i].1 < |reg.types|)
    && forall t, i :: 0 <= t < |reg.types| && 0 <= i < |reg.types[t].attributes| ==>
         PointsInside(reg, reg.types[t].attributes[i])
  }

  function AggregateEdges(reg: Registry, t: TypeId, aggs: seq<(TypeId, TypeId)>): seq<Edge>
    requires forall i :: 0 <= i < |aggs| ==> aggs[i].0 < |reg.types| && aggs[i].1 < |reg.types|
  {
    if aggs == [] then []
    else AggregateEdges(reg, t, aggs[..|aggs| - 1]) + AggregateEdge(reg, t, aggs[|aggs| - 1])
  }

  lemma NextAggregate(reg: Registry, t: TypeId, aggs: seq<(TypeId, TypeId)>, k: nat, es: seq<Edge>, fs: seq<Edge>)
    returns (next: seq<Edge>)
    requires k < |aggs| && forall i :: 0 <= i < |aggs| ==> aggs[i].0 < |reg.types| && aggs[i].1 < |reg.types|
    requires fs == es + AggregateEdges(reg, t, aggs[..k])
    ensures next == fs + AggregateEdge(reg, t, aggs[k]) == es + AggregateEdges(reg, t, aggs[..k + 1])
  {
    assert aggs[..k + 1][..k] == aggs[..k];
    next := fs + AggregateEdge(reg, t, aggs[k]);
  }

  function EdgesOf(reg: Registry, aggs: seq<(TypeId, TypeId)>, t: TypeId): seq<Edge>
    requires Registered(reg, aggs) && t < |reg.types|
  {
    AttributeEdges(reg, reg.types[t].attributes) + ChildEdges(reg, t, |reg.types|) + AggregateEdges(reg, t, aggs)
  }

  function GraphOf(reg: Registry, aggs: seq<(TypeId, TypeId)>): (g: Graph)
    requires Registered(reg, aggs)
    ensures |g| == |reg.types| && forall t :: 0 <= t < |g| ==> g[t] == EdgesOf(reg, aggs, t)
  {
    seq(|reg.types|, t requires 0 <= t < |reg.types| => EdgesOf(reg, aggs, t))
  }

  predicate PointsInside(reg: Registry, a: Attribute) {
    match a
    case Pointer(_, pointee) => pointee < |reg.types|
    case Container(_, item) => item < |reg.types|
    case Plain(_) => true
  }

  lemma {:induction false} AttributeEdgesInside(reg: Registry, g: Graph, attributes: seq<Attribute>)
    requires |g| == |reg.types| && forall i :: 0 <= i < |attributes| ==> PointsInside(reg, attributes[i])
    ensures Inside(g, AttributeEdges(reg, attributes))
  {
    if attributes != [] {
      AttributeEdgesInside(reg, g, attributes[..|attributes| - 1]);
    }
  }

  lemma {:induction false} ChildEdgesInside(reg: Registry, g: Graph, t: TypeId, n: nat)
    requires |g| == |reg.types| && n <= |reg.types|
    ensures Inside(g, ChildEdges(reg, t, n))
  {
    if n > 0 {
      ChildEdgesInside(reg, g, t, n - 1);
    }
  }

  lemma {:induction false} AggregateEdgesInside(reg: Registry, g: Graph, t: TypeId, aggs: seq<(TypeId, TypeId)>)
    requires |g| == |reg.types| && forall i :: 0 <= i < |aggs| ==> aggs[i].0 < |reg.types| && aggs[i].1 < |reg.types|
    ensures Inside(g, AggregateEdges(reg, t, aggs))
  {
    if aggs != [] {
      AggregateEdgesInside(reg, g, t, aggs[..|aggs| - 1]);
    }
  }

  lemma GraphClosed(reg: Registry, aggs: seq<(TypeId, TypeId)>)
    requires Registered(reg, aggs)
    ensures Closed(GraphOf(reg, aggs))
  {
    var g := GraphOf(reg, aggs);
    forall t: TypeId | t < |g|
      ensures Inside(g, g[t])
    {
      AttributeEdgesInside(reg, g, reg.types[t].attributes);
      ChildEdgesInside(reg, g, t, |reg.types|);
      AggregateEdgesInside(reg, g, t, aggs);
    }
  }

  // ---------- what the walk records ----------

  ghost function Unvisited(g: Graph, stack: seq<TypeId>): set<TypeId> {
    set t: TypeId | t < |g| && t !in stack
  }

  lemma VisitShrinks(g: Graph, stack: seq<TypeId>, t: TypeId)
    requires t < |g| && t !in stack
    ensures Unvisited(g, stack + [t]) < Unvisited(g, stack)
  {
    assert t in Unvisited(g, stack) && t !in Unvisited(g, stack + [t]);
  }

  /** The records of type t reached by `path`, with the types on `stack` already on the way. */
  ghost function Records(g: Graph, path: seq<string>, stack: seq<TypeId>, t: TypeId): seq<Record>
    requires Closed(g) && t < |g|
    decreases Unvisited(g, stack), 1, 0
  {
    if t in stack then [] else [Record(t, PathString(path))] + RecordsOver(g, path, stack, t, g[t])
  }

  // The records by way of some edges of t.
  ghost function RecordsOver(g: Graph, path: seq<string>, stack: seq<TypeId>, t: TypeId, es: seq<Edge>): seq<Record>
    requires Closed(g) && t < |g| && t !in stack && Inside(g, es)
    decreases Unvisited(g, stack), 0, |es|
  {
    if es == [] then []
    else
      VisitShrinks(g, stack, t);
      var e := es[|es| - 1];
      RecordsOver(g, path, stack, t, es[..|es| - 1]) + Records(g, path + [e.name], stack + [t], e.target)
  }

  lemma Regroup<T>(a: seq<T>, b: seq<T>, c: seq<T>)
    ensures (a + b) + c == a + (b + c)
  {
  }

  lemma PushedPops<T>(s: seq<T>, x: T)
    ensures (s + [x])[..|s + [x]| - 1] == s
  {
  }

  lemma RecordsOverLast(g: Graph, path: seq<string>, stack: seq<TypeId>, t: TypeId, es: seq<Edge>, e: Edge)
    requires Closed(g) && t < |g| && t !in stack && Inside(g, es) && e.target < |g|
    ensures Inside(g, es + [e])
    ensures RecordsOver(g, path, stack, t, es + [e])
         == RecordsOver(g, path, stack, t, es) + Records(g, path + [e.name], stack + [t], e.target)
  {
    assert (es + [e])[..|es|] == es;
  }

  class StaticInformation {
    const reg: Registry
    var output: seq<Record>
    var currentPath: seq<string>
    var alreadyProcessed: seq<TypeId>
    var aggregates: seq<(TypeId, TypeId)>

    constructor (reg: Registry)
      ensures this.reg == reg && output == [] && currentPath == [] && alreadyProcessed == [] && aggregates == []
    {
      this.reg := reg;
      output, currentPath, alreadyProcessed, aggregates := [], [], [], [];
    }

    ghost predicate Valid()
      reads this
    {
      Registered(reg, aggregates) && Closed(GraphOf(reg, aggregates))
    }

    method RecordOutput(tid: TypeId)
      modifies this`output
      ensures output == old(output) + [Record(tid, PathString(currentPath))]
    {
      output := output + [Record(tid, PathString(currentPath))];
    }

    method HasAlreadyBeenProcessed(tid: TypeId) returns (found: bool)
      ensures found <==> tid in alreadyProcessed
    {
      for i := 0 to |alreadyProcessed|
        invariant tid !in alreadyProcessed[..i]
      {
        if alreadyProcessed[i] == tid {
          return true;
        }
      }
      return false;
    }

    // What has been appended once the edges `es` of tid have been followed.
    ghost predicate Followed(tid: TypeId, g: Graph, before: seq<Record>, es: seq<Edge>)
      requires Closed(g) && tid < |g|
      reads this
    {
      && tid !in alreadyProcessed && Inside(g, es)
      && output == before + RecordsOver(g, currentPath, alreadyProcessed, tid, es)
    }

    // Push, gather, pop: the source writes this out at each of its four kinds of edge.
    method Enter(tid: TypeId, e: Edge, ghost g: Graph)
      requires Valid() && g == GraphOf(reg, aggregates) && tid < |g| && e.target < |g| && tid !in alreadyProcessed
      modifies this`output, this`currentPath, this`alreadyProcessed
      ensures currentPath == old(currentPath) && alreadyProcessed == old(alreadyProcessed)
      ensures output == old(output) + Records(g, currentPath + [e.name], alreadyProcessed + [tid], e.target)
      decreases Unvisited(g, alreadyProcessed), 0
    {
      VisitShrinks(g, alreadyProcessed, tid);
      ghost var path, stack := currentPath, alreadyProcessed;
      currentPath := currentPath + [e.name];
      alreadyProcessed := alreadyProcessed + [tid];
      DoGather(e.target, g);
      PushedPops(stack, tid);
      PushedPops(path, e.name);
      alreadyProcessed := alreadyProcessed[..|alreadyProcessed| - 1];
      currentPath := currentPath[..|currentPath| - 1];
    }

    // One edge more has been followed.
    method Follow(tid: TypeId, e: Edge, ghost before: seq<Record>, ghost es: seq<Edge>, ghost g: Graph)
      requires Valid() && g == GraphOf(reg, aggregates) && tid < |g| && e.target < |g| && Followed(tid, g, before, es)
      modifies this`output, this`currentPath, this`alreadyProcessed
      ensures currentPath == old(currentPath) && alreadyProcessed == old(alreadyProcessed)
      ensures Followed(tid, g, before, es + [e])
      decreases Unvisited(g, alreadyProcessed), 1
    {
      ghost var earlier := RecordsOver(g, currentPath, alreadyProcessed, tid, es);
      Enter(tid, e, g);
      RecordsOverLast(g, currentPath, alreadyProcessed, tid, es, e);
      Regroup(before, earlier, Records(g, currentPath + [e.name], alreadyProcessed + [tid], e.target));
    }

    // The first of the three loops of the walk: attributes that point to objects.
    method GatherAttributes(tid: TypeId, ghost before: seq<Record>, ghost g: Graph)
      requires Valid() && g == GraphOf(reg, aggregates) && tid < |g| && Followed(tid, g, before, [])
      modifies this`output, this`currentPath, this`alreadyProcessed
      ensures currentPath == old(currentPath) && alreadyProcessed == old(alreadyProcessed)
      ensures Followed(tid, g, before, AttributeEdges(reg, reg.types[tid].attributes))
      decreases Unvisited(g, alreadyProcessed), 2
    {
      var attributes := reg.types[tid].attributes;
      ghost var es: seq<Edge> := [];
      for i := 0 to |attributes|
        invariant es == AttributeEdges(reg, attributes[..i])
        invariant currentPath == old(currentPath) && alreadyProcessed == old(alreadyProcessed)
        invariant Followed(tid, g, before, es)
      {
        assert attributes[..i + 1][..i] == attributes[..i];
        match attributes[i] {
          case Pointer(name, pointee) =>
            if pointee != reg.objectType {
              Follow(tid, Edge(name, pointee), before, es, g);
              es := es + [Edge(name, pointee)];
            }
          case Container(name, item) =>
            Follow(tid, Edge(name + "/[i]", item), before, es, g);
            es := es + [Edge(name + "/[i]", item)];
          case Plain(_) =>
        }
      }
      assert attributes[..|attributes|] == attributes;
    }

    // The second loop: registered types that derive from this one.
    method GatherChildren(tid: TypeId, ghost before: seq<Record>, ghost es: seq<Edge>, ghost g: Graph)
      requires Valid() && g == GraphOf(reg, aggregates) && tid < |g| && Followed(tid, g, before, es)
      modifies this`output, this`currentPath, this`alreadyProcessed
      ensures currentPath == old(currentPath) && alreadyProcessed == old(alreadyProcessed)
      ensures Followed(tid, g, before, es + ChildEdges(reg, tid, |reg.types|))
      decreases Unvisited(g, alreadyProcessed), 2
    {
      ghost var fs := es;
      for j := 0 to |reg.types|
        invariant fs == es + ChildEdges(reg, tid, j)
        invariant currentPath == old(currentPath) && alreadyProcessed == old(alreadyProcessed)
        invariant Followed(tid, g, before, fs)
      {
        if (j, tid) in reg.childOf {
          var child := Edge("$" + reg.types[j].name, j);
          Follow(tid, child, before, fs, g);
          fs := fs + [child];
        }
      }
    }

    static method OtherEnd(tid: TypeId, item: (TypeId, TypeId)) returns (other: TypeId)
      requires item.0 == tid || item.1 == tid
      ensures other == if item.1 == tid then item.0 else item.1
    {
      if item.0 == tid {
        other := item.1;
      }
      if item.1 == tid {
        other := item.0;
      }
    }

    method FollowAggregate(tid: TypeId, item: (TypeId, TypeId), ghost before: seq<Record>, ghost es: seq<Edge>, ghost g: Graph)
      requires Valid() && g == GraphOf(reg, aggregates) && tid < |g| && Followed(tid, g, before, es)
      requires item.0 < |reg.types| && item.1 < |reg.types|
      modifies this`output, this`currentPath, this`alreadyProcessed
      ensures currentPath == old(currentPath) && alreadyProcessed == old(alreadyProcessed)
      ensures Followed(tid, g, before, es + AggregateEdge(reg, tid, item))
      decreases Unvisited(g, alreadyProcessed), 2
    {
      if item.0 == tid || item.1 == tid {
        var other := OtherEnd(tid, item);
        Follow(tid, Edge("$" + reg.types[other].name, other), before, es, g);
      } else {
        assert es + [] == es;
      }
    }

    // The third loop: recorded aggregations with this type at either end.
    method GatherAggregates(tid: TypeId, ghost before: seq<Record>, ghost es: seq<Edge>, ghost g: Graph)
      requires Valid() && g == GraphOf(reg, aggregates) && tid < |g| && Followed(tid, g, before, es)
      modifies this`output, this`currentPath, this`alreadyProcessed
      ensures currentPath == old(currentPath) && alreadyProcessed == old(alreadyProcessed)
      ensures Followed(tid, g, before, es + AggregateEdges(reg, tid, aggregates))
      decreases Unvisited(g, alreadyProcessed), 3
    {
      var aggs := aggregates;
      ghost var fs := es;
      assert es + [] == es;
      for k := 0 to |aggs|
        invariant fs == es + AggregateEdges(reg, tid, aggs[..k])
        invariant currentPath == old(currentPath) && alreadyProcessed == old(alreadyProcessed)
        invariant Followed(tid, g, before, fs)
      {
        FollowAggregate(tid, aggs[k], before, fs, g);
        fs := NextAggregate(reg, tid, aggs, k, es, fs);
      }
      assert aggs[..|aggs|] == aggs;
    }

    method GatherAll(tid: TypeId, ghost before: seq<Record>, ghost g: Graph)
      requires Valid() && g == GraphOf(reg, aggregates) && tid < |g| && Followed(tid, g, before, [])
      modifies this`output, this`currentPath, this`alreadyProcessed
      ensures currentPath == old(currentPath) && alreadyProcessed == old(alreadyProcessed)
      ensures Followed(tid, g, before, g[tid])
      decreases Unvisited(g, alreadyProcessed), 4
    {
      GatherAttributes(tid, before, g);
      ghost var es := AttributeEdges(reg, reg.types[tid].attributes);
      GatherChildren(tid, before, es, g);
      es := es + ChildEdges(reg, tid, |reg.types|);
      GatherAggregates(tid, before, es, g);
      assert g[tid] == es + AggregateEdges(reg, tid, aggregates);
    }

    /** The recursive walk. It ends because every edge followed adds a type to the ancestor stack; it
        restores both stacks and appends the records of the type it was called on. */
    method DoGather(tid: TypeId, ghost g: Graph)
      requires Valid() && g == GraphOf(reg, aggregates) && tid < |g|
      modifies this`output, this`currentPath, this`alreadyProcessed
      ensures currentPath == old(currentPath) && alreadyProcessed == old(alreadyProcessed)
      ensures output == old(output) + Records(g, currentPath, alreadyProcessed, tid)
      decreases Unvisited(g, alreadyProcessed), 5
    {
      var processed := HasAlreadyBeenProcessed(tid);
      if !processed {
        RecordOutput(tid);
        GatherAll(tid, output, g);
      }
    }

    /** Gather appends and leaves duplicates in place: its Uniquefy call sorts a copy of the output. */
    method Gather(tid: TypeId)
      requires Registered(reg, aggregates) && tid < |reg.types| && currentPath == [] && alreadyProcessed == []
      modifies this`output, this`currentPath, this`alreadyProcessed
      ensures Closed(GraphOf(reg, aggregates)) && currentPath == [] && alreadyProcessed == []
      ensures output == old(output) + Records(GraphOf(reg, aggregates), [], [], tid)
    {
      GraphClosed(reg, aggregates);
      DoGather(tid, GraphOf(reg, aggregates));
    }

    /** The recorded paths of one type, in the order recorded. */
    method Get(tid: TypeId) returns (paths: seq<string>)
      ensures paths == PathsOf(output, tid)
    {
      paths := [];
      for i := 0 to |output|
        invariant paths == PathsOf(output[..i], tid)
      {
        assert output[..i + 1][..i] == output[..i];
        if output[i].tid == tid {
          paths := paths + [output[i].path];
        }
      }
      assert output[..|output|] == output;
    }
  }

  function PathsOf(records: seq<Record>, tid: TypeId): seq<string> {
    if records == [] then []
    else
      var last := records[|records| - 1];
      PathsOf(records[..|records| - 1], tid) + if last.tid == tid then [last.path] else []
  }

  // ---------- simple labelled paths ----------

  // A path from a type, as the positions of the edges it takes.
  type Walk = seq<nat>

  ghost predicate IsWalk(g: Graph, t: TypeId, w: Walk)
    requires Closed(g) && t < |g|
    decreases |w|
  {
    w == [] || (w[0] < |g[t]| && IsWalk(g, g[t][w[0]].target, w[1..]))
  }

  // The types on the path, its start included.
  ghost function Types(g: Graph, t: TypeId, w: Walk): (ts: seq<TypeId>)
    requires Closed(g) && t < |g| && IsWalk(g, t, w)
    ensures |ts| == |w| + 1 && ts[0] == t
    decreases |w|
  {
    if w == [] then [t] else [t] + Types(g, g[t][w[0]].target, w[1..])
  }

  ghost function Names(g: Graph, t: TypeId, w: Walk): seq<string>
    requires Closed(g) && t < |g| && IsWalk(g, t, w)
    decreases |w|
  {
    if w == [] then [] else [g[t][w[0]].name] + Names(g, g[t][w[0]].target, w[1..])
  }

  ghost predicate NoRepeat(ts: seq<TypeId>) {
    forall i, j :: 0 <= i < j < |ts| ==> ts[i] != ts[j]
  }

  /** A path that visits no type twice and none of the types in `stack`. */
  ghost predicate IsSimple(g: Graph, stack: seq<TypeId>, t: TypeId, w: Walk)
    requires Closed(g) && t < |g|
  {
    IsWalk(g, t, w) && NoRepeat(Types(g, t, w)) && Avoids(Types(g, t, w), stack)
  }

  ghost function RecordOf(g: Graph, path: seq<string>, t: TypeId, w: Walk): Record
    requires Closed(g) && t < |g| && IsWalk(g, t, w)
  {
    Record(Types(g, t, w)[|w|], PathString(path + Names(g, t, w)))
  }

  // The walks behind Records, in the same order.
  ghost function Walks(g: Graph, stack: seq<TypeId>, t: TypeId): seq<Walk>
    requires Closed(g) && t < |g|
    decreases Unvisited(g, stack), 1, 0
  {
    if t in stack then [] else [[]] + WalksOver(g, stack, t, |g[t]|)
  }

  ghost function WalksOver(g: Graph, stack: seq<TypeId>, t: TypeId, n: nat): seq<Walk>
    requires Closed(g) && t < |g| && t !in stack && n <= |g[t]|
    decreases Unvisited(g, stack), 0, n
  {
    if n == 0 then []
    else
      VisitShrinks(g, stack, t);
      WalksOver(g, stack, t, n - 1) + Prefixed(n - 1, Walks(g, stack + [t], g[t][n - 1].target))
  }

  ghost function Prefixed(i: nat, ws: seq<Walk>): (r: seq<Walk>)
    ensures |r| == |ws| && forall k :: 0 <= k < |ws| ==> r[k] == [i] + ws[k]
  {
    seq(|ws|, k requires 0 <= k < |ws| => [i] + ws[k])
  }

  ghost predicate IsRecordOf(g: Graph, path: seq<string>, t: TypeId, r: Record, w: Walk)
    requires Closed(g) && t < |g|
  {
    IsWalk(g, t, w) && r == RecordOf(g, path, t, w)
  }

  // Records of walks from t, one for one.
  ghost predicate Follow(g: Graph, path: seq<string>, t: TypeId, rs: seq<Record>, ws: seq<Walk>)
    requires Closed(g) && t < |g|
  {
    |rs| == |ws| && forall k :: 0 <= k < |ws| ==> IsRecordOf(g, path, t, rs[k], ws[k])
  }

  lemma {:induction false} RecordsFollowWalks(g: Graph, path: seq<string>, stack: seq<TypeId>, t: TypeId)
    requires Closed(g) && t < |g|
    ensures Follow(g, path, t, Records(g, path, stack, t), Walks(g, stack, t))
    decreases Unvisited(g, stack), 1, 0
  {
    if t !in stack {
      assert g[t][..|g[t]|] == g[t];
      RecordsOverFollowWalks(g, path, stack, t, |g[t]|);
      assert path + [] == path;
      assert IsRecordOf(g, path, t, Record(t, PathString(path)), []);
    }
  }

  lemma {:induction false} RecordsOverFollowWalks(g: Graph, path: seq<string>, stack: seq<TypeId>, t: TypeId, n: nat)
    requires Closed(g) && t < |g| && t !in stack && n <= |g[t]|
    ensures Follow(g, path, t, RecordsOver(g, path, stack, t, g[t][..n]), WalksOver(g, stack, t, n))
    decreases Unvisited(g, stack), 0, n
  {
    if n > 0 {
      var e := g[t][n - 1];
      VisitShrinks(g, stack, t);
      RecordsOverFollowWalks(g, path, stack, t, n - 1);
      RecordsFollowWalks(g, path + [e.name], stack + [t], e.target);
      assert g[t][..n] == g[t][..n - 1] + [e];
      RecordsOverLast(g, path, stack, t, g[t][..n - 1], e);
      StepsFollow(g, path, t, n - 1, Records(g, path + [e.name], stack + [t], e.target), Walks(g, stack + [t], e.target));
    }
  }

  // Records of walks from the target of an edge are records of the walks by that edge.
  lemma StepsFollow(g: Graph, path: seq<string>, t: TypeId, i: nat, rs: seq<Record>, vs: seq<Walk>)
    requires Closed(g) && t < |g| && i < |g[t]| && g[t][i].target < |g|
    requires Follow(g, path + [g[t][i].name], g[t][i].target, rs, vs)
    ensures Follow(g, path, t, rs, Prefixed(i, vs))
  {
    forall k | 0 <= k < |vs|
      ensures IsRecordOf(g, path, t, rs[k], [i] + vs[k])
    {
      assert IsRecordOf(g, path + [g[t][i].name], g[t][i].target, rs[k], vs[k]);
      FirstStep(g, path, t, i, vs[k]);
    }
  }

  lemma FirstStep(g: Graph, path: seq<string>, t: TypeId, i: nat, v: Walk)
    requires Closed(g) && t < |g| && i < |g[t]| && IsWalk(g, g[t][i].target, v)
    ensures IsWalk(g, t, [i] + v)
    ensures Types(g, t, [i] + v) == [t] + Types(g, g[t][i].target, v)
    ensures Names(g, t, [i] + v) == [g[t][i].name] + Names(g, g[t][i].target, v)
    ensures RecordOf(g, path + [g[t][i].name], g[t][i].target, v) == RecordOf(g, path, t, [i] + v)
  {
    assert ([i] + v)[1..] == v;
    var names := Names(g, g[t][i].target, v);
    assert path + ([g[t][i].name] + names) == (path + [g[t][i].name]) + names;
  }

  lemma PrependNoRepeat(t: TypeId, us: seq<TypeId>)
    ensures NoRepeat([t] + us) <==> NoRepeat(us) && t !in us
  {
    var ts := [t] + us;
    if NoRepeat(ts) {
      forall i, j | 0 <= i < j < |us|
        ensures us[i] != us[j]
      {
        assert ts[i + 1] != ts[j + 1];
      }
      forall k | 0 <= k < |us|
        ensures us[k] != t
      {
        assert ts[0] != ts[k + 1];
      }
    }
  }

  // A path of the given types avoids the stack.
  ghost predicate Avoids(ts: seq<TypeId>, stack: seq<TypeId>) {
    forall i :: 0 <= i < |ts| ==> ts[i] !in stack
  }

  lemma PrependAvoids(t: TypeId, us: seq<TypeId>, stack: seq<TypeId>)
    requires t !in stack
    ensures Avoids(us, stack + [t]) <==> Avoids([t] + us, stack) && t !in us
  {
    var ts := [t] + us;
    assert forall k :: 0 <= k < |us| ==> us[k] == ts[k + 1];
    assert forall k :: 0 < k < |ts| ==> ts[k] == us[k - 1];
    assert forall u :: u in stack + [t] <==> u in stack || u == t;
  }

  // Going by edge i first is simple when the rest is simple with t on the way.
  lemma SimpleStep(g: Graph, stack: seq<TypeId>, t: TypeId, i: nat, v: Walk)
    requires Closed(g) && t < |g| && t !in stack
    ensures IsSimple(g, stack, t, [i] + v) <==> i < |g[t]| && IsSimple(g, stack + [t], g[t][i].target, v)
  {
    assert ([i] + v)[1..] == v;
    if i < |g[t]| && IsWalk(g, g[t][i].target, v) {
      FirstStep(g, [], t, i, v);
      var us := Types(g, g[t][i].target, v);
      PrependNoRepeat(t, us);
      PrependAvoids(t, us, stack);
    }
  }

  lemma {:induction false} WalksAreSimple(g: Graph, stack: seq<TypeId>, t: TypeId, w: Walk)
    requires Closed(g) && t < |g|
    ensures w in Walks(g, stack, t) <==> IsSimple(g, stack, t, w)
    decreases Unvisited(g, stack), 1, 0
  {
    if t !in stack {
      WalksOverAreSimple(g, stack, t, |g[t]|, w);
      if w == [] {
        assert Walks(g, stack, t)[0] == [];
      }
    } else if IsWalk(g, t, w) {
      assert Types(g, t, w)[0] in stack;
    }
  }

  lemma PrefixedHas(i: nat, ws: seq<Walk>, w: Walk)
    ensures w in Prefixed(i, ws) <==> w != [] && w[0] == i && w[1..] in ws
  {
    var ps := Prefixed(i, ws);
    forall k | 0 <= k < |ws|
      ensures ps[k] == [i] + ws[k] && ps[k][1..] == ws[k]
    {
    }
    if w != [] && w[0] == i && w[1..] in ws {
      var k :| 0 <= k < |ws| && ws[k] == w[1..];
      assert ps[k] == w;
    }
  }

  lemma WalksOverHas(g: Graph, stack: seq<TypeId>, t: TypeId, n: nat, w: Walk)
    requires Closed(g) && t < |g| && t !in stack && 0 < n <= |g[t]| && g[t][n - 1].target < |g|
    ensures w in WalksOver(g, stack, t, n) <==>
            w in WalksOver(g, stack, t, n - 1) || (w != [] && w[0] == n - 1 && w[1..] in Walks(g, stack + [t], g[t][n - 1].target))
  {
    PrefixedHas(n - 1, Walks(g, stack + [t], g[t][n - 1].target), w);
  }

  lemma LastEdgeSimple(g: Graph, stack: seq<TypeId>, t: TypeId, n: nat, w: Walk)
    requires Closed(g) && t < |g| && t !in stack && 0 < n <= |g[t]| && g[t][n - 1].target < |g| && w != [] && w[0] == n - 1
    ensures IsSimple(g, stack + [t], g[t][n - 1].target, w[1..]) <==> IsSimple(g, stack, t, w)
  {
    assert w == [n - 1] + w[1..];
    SimpleStep(g, stack, t, n - 1, w[1..]);
  }

  lemma {:induction false} WalksOverAreSimple(g: Graph, stack: seq<TypeId>, t: TypeId, n: nat, w: Walk)
    requires Closed(g) && t < |g| && t !in stack && n <= |g[t]|
    ensures w in WalksOver(g, stack, t, n) <==> w != [] && w[0] < n && IsSimple(g, stack, t, w)
    decreases Unvisited(g, stack), 0, n
  {
    if n > 0 {
      VisitShrinks(g, stack, t);
      WalksOverAreSimple(g, stack, t, n - 1, w);
      WalksOverHas(g, stack, t, n, w);
      if w != [] && w[0] == n - 1 {
        WalksAreSimple(g, stack + [t], g[t][n - 1].target, w[1..]);
        LastEdgeSimple(g, stack, t, n, w);
      }
    }
  }

  lemma {:induction false} WalksDistinct(g: Graph, stack: seq<TypeId>, t: TypeId, i: nat, j: nat)
    requires Closed(g) && t < |g| && i < j < |Walks(g, stack, t)|
    ensures Walks(g, stack, t)[i] != Walks(g, stack, t)[j]
    decreases Unvisited(g, stack), 1, 0
  {
    if i > 0 {
      WalksOverDistinct(g, stack, t, |g[t]|, i - 1, j - 1);
    } else {
      WalksOverAreSimple(g, stack, t, |g[t]|, []);
    }
  }

  lemma {:induction false} WalksOverDistinct(g: Graph, stack: seq<TypeId>, t: TypeId, n: nat, i: nat, j: nat)
    requires Closed(g) && t < |g| && t !in stack && n <= |g[t]| && i < j < |WalksOver(g, stack, t, n)|
    ensures WalksOver(g, stack, t, n)[i] != WalksOver(g, stack, t, n)[j]
    decreases Unvisited(g, stack), 0, n
  {
    VisitShrinks(g, stack, t);
    var earlier := WalksOver(g, stack, t, n - 1);
    if j < |earlier| {
      WalksOverDistinct(g, stack, t, n - 1, i, j);
    } else if i >= |earlier| {
      var vs := Walks(g, stack + [t], g[t][n - 1].target);
      var k, h := i - |earlier|, j - |earlier|;
      WalksDistinct(g, stack + [t], g[t][n - 1].target, k, h);
      assert ([n - 1] + vs[k])[1..] == vs[k] && ([n - 1] + vs[h])[1..] == vs[h];
    } else {
      WalksOverAreSimple(g, stack, t, n - 1, earlier[i]);
    }
  }

  /** What a gathering from `root` appends: one record for each simple path from the root, none missed and
      none twice, with the type the path ends in and the names along it. */
  lemma GatherListsSimplePaths(g: Graph, root: TypeId)
    requires Closed(g) && root < |g|
    ensures var ws, rs := Walks(g, [], root), Records(g, [], [], root);
            && |rs| == |ws|
            && (forall w :: w in ws <==> IsSimple(g, [], root, w))
            && (forall i, j :: 0 <= i < j < |ws| ==> ws[i] != ws[j])
            && forall k :: 0 <= k < |ws| ==> IsWalk(g, root, ws[k]) && rs[k] == RecordOf(g, [], root, ws[k])
  {
    RecordsFollowWalks(g, [], [], root);
    var walks, records := Walks(g, [], root), Records(g, [], [], root);
    assert forall k :: 0 <= k < |walks| ==> IsRecordOf(g, [], root, records[k], walks[k]);
    forall w
      ensures w in Walks(g, [], root) <==> IsSimple(g, [], root, w)
    {
      WalksAreSimple(g, [], root, w);
    }
    forall i: nat, j: nat | i < j < |Walks(g, [], root)|
      ensures Walks(g, [], root)[i] != Walks(g, [], root)[j]
    {
      WalksDistinct(g, [], root, i, j);
    }
  }

  lemma {:induction false} PathsOfRecords(records: seq<Record>, tid: TypeId, path: string)
    ensures path in PathsOf(records, tid) <==> Record(tid, path) in records
  {
    if records != [] {
      var front, last := records[..|records| - 1], records[|records| - 1];
      PathsOfRecords(front, tid, path);
      assert records == front + [last];
    }
  }

  /** Get finds, after one gathering from `root`, exactly the paths of the simple walks that end in the type. */
  lemma GetFindsSimplePaths(g: Graph, root: TypeId, tid: TypeId, path: string)
    requires Closed(g) && root < |g|
    ensures path in PathsOf(Records(g, [], [], root), tid) <==>
            exists w :: IsSimple(g, [], root, w) && RecordOf(g, [], root, w) == Record(tid, path)
  {
    var ws, rs := Walks(g, [], root), Records(g, [], [], root);
    GatherListsSimplePaths(g, root);
    PathsOfRecords(rs, tid, path);
    if Record(tid, path) in rs {
      var k :| 0 <= k < |rs| && rs[k] == Record(tid, path);
      assert ws[k] in ws;
    }
    if w :| IsSimple(g, [], root, w) && RecordOf(g, [], root, w) == Record(tid, path) {
      var k :| 0 <= k < |ws| && ws[k] == w;
      assert rs[k] == Record(tid, path);
    }
  }

  /** Where no type has two edges of the same name, different walks from a type have different names along
      them. */
  lemma {:induction false} NamesDecide(g: Graph, t: TypeId, v: Walk, w: Walk)
    requires Closed(g) && t < |g| && IsWalk(g, t, v) && IsWalk(g, t, w) && Names(g, t, v) == Names(g, t, w)
    requires forall u: TypeId, i, j :: u < |g| && 0 <= i < j < |g[u]| ==> g[u][i].name != g[u][j].name
    ensures v == w
    decreases |v|
  {
    NamesLength(g, t, v);
    NamesLength(g, t, w);
    if v != [] {
      assert Names(g, t, v)[0] == Names(g, t, w)[0];
      assert v[0] == w[0];
      assert Names(g, t, v)[1..] == Names(g, g[t][v[0]].target, v[1..]);
      assert Names(g, t, w)[1..] == Names(g, g[t][w[0]].target, w[1..]);
      NamesDecide(g, g[t][v[0]].target, v[1..], w[1..]);
      assert v == [v[0]] + v[1..] && w == [w[0]] + w[1..];
    }
  }

  lemma {:induction false} NamesLength(g: Graph, t: TypeId, w: Walk)
    requires Closed(g) && t < |g| && IsWalk(g, t, w)
    ensures |Names(g, t, w)| == |w|
    decreases |w|
  {
    if w != [] {
      NamesLength(g, g[t][w[0]].target, w[1..]);
    }
  }
}
