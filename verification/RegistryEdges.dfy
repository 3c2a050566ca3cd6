/** Which edges the graph of a registry has, read off the registry itself. */
module RegistryEdges {
  import opened AttributePaths

  // What an edge of a type comes from: one of its attributes, a registered type or a recorded aggregation.
  datatype Origin = AtAttribute(i: nat) | AtChild(child: TypeId) | AtAggregation(k: nat)

  predicate Before(o: Origin, p: Origin) {
    match o
    case AtAttribute(i) => p.AtAttribute? ==> i < p.i
    case AtChild(c) => p.AtAggregation? || (p.AtChild? && c < p.child)
    case AtAggregation(k) => p.AtAggregation? && k < p.k
  }

  predicate ToType(reg: Registry, e: Edge) {
    e.target < |reg.types| && e.name == "$" + reg.types[e.target].name
  }

  /** A pointer to anything but a plain object, a container of objects, a derived type, the other end of an
      aggregation. */
  predicate Gives(reg: Registry, aggs: seq<(TypeId, TypeId)>, t: TypeId, o: Origin, e: Edge)
    requires t < |reg.types|
  {
    match o
    case AtAttribute(i) =>
      var attributes := reg.types[t].attributes;
      i < |attributes| && AttributeGives(reg, attributes[i], e)
    case AtChild(child) => e.target == child && ToType(reg, e) && (child, t) in reg.childOf
    case AtAggregation(k) => k < |aggs| && (aggs[k] == (t, e.target) || aggs[k] == (e.target, t)) && ToType(reg, e)
  }

  predicate AttributeGives(reg: Registry, a: Attribute, e: Edge) {
    || (a == Pointer(e.name, e.target) && e.target != reg.objectType)
    || (a.Container? && e.name == a.name + "/[i]" && e.target == a.item)
  }

  // Edges es of t, the i-th from os[i], in the order of their origins.
  ghost predicate ComeFrom(reg: Registry, aggs: seq<(TypeId, TypeId)>, t: TypeId, os: seq<Origin>, es: seq<Edge>)
    requires t < |reg.types|
  {
    && |os| == |es|
    && (forall i :: 0 <= i < |os| ==> Gives(reg, aggs, t, os[i], es[i]))
    && Increasing(os)
  }

  ghost predicate Increasing(os: seq<Origin>) {
    forall i, j :: 0 <= i < j < |os| ==> Before(os[i], os[j])
  }

  lemma ComeFromBoth(reg: Registry, aggs: seq<(TypeId, TypeId)>, t: TypeId, os: seq<Origin>, es: seq<Edge>, ps: seq<Origin>, fs: seq<Edge>)
    requires t < |reg.types| && ComeFrom(reg, aggs, t, os, es) && ComeFrom(reg, aggs, t, ps, fs)
    requires forall i, j :: 0 <= i < |os| && 0 <= j < |ps| ==> Before(os[i], ps[j])
    ensures ComeFrom(reg, aggs, t, os + ps, es + fs)
  {
  }

  lemma {:induction false} AttributeOrigins(reg: Registry, aggs: seq<(TypeId, TypeId)>, t: TypeId, n: nat) returns (os: seq<Origin>)
    requires t < |reg.types| && n <= |reg.types[t].attributes|
    ensures ComeFrom(reg, aggs, t, os, AttributeEdges(reg, reg.types[t].attributes[..n]))
    ensures forall i :: 0 <= i < |os| ==> os[i].AtAttribute? && os[i].i < n
    ensures forall i: nat, e :: i < n && Gives(reg, aggs, t, AtAttribute(i), e) ==> AtAttribute(i) in os
  {
    os := [];
    if n > 0 {
      var attributes := reg.types[t].attributes;
      var a := attributes[n - 1];
      os := AttributeOrigins(reg, aggs, t, n - 1);
      var last := AttributeEdge(reg, a);
      assert attributes[..n][..n - 1] == attributes[..n - 1];
      var added := if last == [] then [] else [AtAttribute(n - 1)];
      ComeFromBoth(reg, aggs, t, os, AttributeEdges(reg, attributes[..n - 1]), added, last);
      os := os + added;
      assert last != [] ==> AtAttribute(n - 1) in added;
    }
  }

  lemma {:induction false} ChildOrigins(reg: Registry, aggs: seq<(TypeId, TypeId)>, t: TypeId, n: nat) returns (os: seq<Origin>)
    requires t < |reg.types| && n <= |reg.types|
    ensures ComeFrom(reg, aggs, t, os, ChildEdges(reg, t, n))
    ensures forall i :: 0 <= i < |os| ==> os[i].AtChild? && os[i].child < n
    ensures forall c: TypeId, e :: c < n && Gives(reg, aggs, t, AtChild(c), e) ==> AtChild(c) in os
  {
    os := [];
    if n > 0 {
      os := ChildOrigins(reg, aggs, t, n - 1);
      if (n - 1, t) in reg.childOf {
        var last := [Edge("$" + reg.types[n - 1].name, n - 1)];
        ComeFromBoth(reg, aggs, t, os, ChildEdges(reg, t, n - 1), [AtChild(n - 1)], last);
        assert AtChild(n - 1) in [AtChild(n - 1)];
        os := os + [AtChild(n - 1)];
      }
    }
  }

  lemma {:induction false} AggregationOrigins(reg: Registry, aggs: seq<(TypeId, TypeId)>, t: TypeId, n: nat) returns (os: seq<Origin>)
    requires t < |reg.types| && n <= |aggs|
    requires forall i :: 0 <= i < |aggs| ==> aggs[i].0 < |reg.types| && aggs[i].1 < |reg.types|
    ensures ComeFrom(reg, aggs, t, os, AggregateEdges(reg, t, aggs[..n]))
    ensures forall i :: 0 <= i < |os| ==> os[i].AtAggregation? && os[i].k < n
    ensures forall k: nat, e :: k < n && Gives(reg, aggs, t, AtAggregation(k), e) ==> AtAggregation(k) in os
  {
    os := [];
    if n > 0 {
      os := AggregationOrigins(reg, aggs, t, n - 1);
      var last := AggregateEdge(reg, t, aggs[n - 1]);
      assert aggs[..n][..n - 1] == aggs[..n - 1];
      var added := if last == [] then [] else [AtAggregation(n - 1)];
      ComeFromBoth(reg, aggs, t, os, AggregateEdges(reg, t, aggs[..n - 1]), added, last);
      os := os + added;
      assert last != [] ==> AtAggregation(n - 1) in added;
    }
  }

  /** The edges of a type in the graph of a registry are exactly those that its attributes, the registered types and the
      aggregations give, one from each that gives any: attributes first, then types, then aggregations, each kind in
      its own order. */
  lemma EdgesComeFrom(reg: Registry, aggs: seq<(TypeId, TypeId)>, t: TypeId) returns (os: seq<Origin>)
    requires Registered(reg, aggs) && t < |reg.types|
    ensures ComeFrom(reg, aggs, t, os, GraphOf(reg, aggs)[t])
    ensures forall o, e :: Gives(reg, aggs, t, o, e) ==> o in os
  {
    var attributes, n := reg.types[t].attributes, |reg.types|;
    assert attributes[..|attributes|] == attributes && aggs[..|aggs|] == aggs;
    var byAttribute := AttributeOrigins(reg, aggs, t, |attributes|);
    var byChild := ChildOrigins(reg, aggs, t, n);
    var byAggregation := AggregationOrigins(reg, aggs, t, |aggs|);
    var es := AttributeEdges(reg, attributes);
    ComeFromBoth(reg, aggs, t, byAttribute, es, byChild, ChildEdges(reg, t, n));
    ComeFromBoth(reg, aggs, t, byAttribute + byChild, es + ChildEdges(reg, t, n), byAggregation, AggregateEdges(reg, t, aggs));
    os := byAttribute + byChild + byAggregation;
  }

  // An origin gives one edge at most.
  lemma GivesOne(reg: Registry, aggs: seq<(TypeId, TypeId)>, t: TypeId, o: Origin, e: Edge, f: Edge)
    requires t < |reg.types| && Gives(reg, aggs, t, o, e) && Gives(reg, aggs, t, o, f)
    ensures e == f
  {
  }

  /** An edge is in the graph exactly when one of these gives it. */
  lemma EdgeMeans(reg: Registry, aggs: seq<(TypeId, TypeId)>, t: TypeId, e: Edge)
    requires Registered(reg, aggs) && t < |reg.types|
    ensures e in GraphOf(reg, aggs)[t] <==> exists o :: Gives(reg, aggs, t, o, e)
  {
    var os := EdgesComeFrom(reg, aggs, t);
    var es := GraphOf(reg, aggs)[t];
    if o :| Gives(reg, aggs, t, o, e) {
      var i :| 0 <= i < |os| && os[i] == o;
      GivesOne(reg, aggs, t, o, e, es[i]);
    }
  }

  /** The two facts above leave no choice: origins with these properties are the same ones, and so are their edges. */
  lemma OriginsDecide(reg: Registry, aggs: seq<(TypeId, TypeId)>, t: TypeId, os: seq<Origin>, es: seq<Edge>)
    requires Registered(reg, aggs) && t < |reg.types| && ComeFrom(reg, aggs, t, os, es)
    requires forall o, e :: Gives(reg, aggs, t, o, e) ==> o in os
    ensures es == GraphOf(reg, aggs)[t]
  {
    var ps := EdgesComeFrom(reg, aggs, t);
    SameOrigins(os, ps);
    forall i | 0 <= i < |es|
      ensures es[i] == GraphOf(reg, aggs)[t][i]
    {
      GivesOne(reg, aggs, t, os[i], es[i], GraphOf(reg, aggs)[t][i]);
    }
  }

  lemma {:induction false} SameOrigins(os: seq<Origin>, ps: seq<Origin>)
    requires Increasing(os) && Increasing(ps) && forall o :: o in os <==> o in ps
    ensures os == ps
  {
    FirstIn(os);
    FirstIn(ps);
    if os != [] {
      RestOf(os);
      RestOf(ps);
      SameOrigins(os[1..], ps[1..]);
    }
  }

  lemma FirstIn(os: seq<Origin>)
    ensures os != [] ==> os[0] in os
  {
  }

  lemma RestOf(os: seq<Origin>)
    requires Increasing(os) && os != []
    ensures forall o :: o in os[1..] <==> o in os && o != os[0]
    ensures forall o :: o in os && o != os[0] ==> Before(os[0], o)
  {
    assert os == [os[0]] + os[1..];
  }
}
