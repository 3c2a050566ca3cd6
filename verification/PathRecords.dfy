/** The records of one gathering: exactly when one of them appears twice, and exactly when they come sorted. */
module PathRecords {
  import opened AttributePaths
  import opened RegistryEdges

  ghost function End(g: Graph, t: TypeId, w: Walk): TypeId
    requires Closed(g) && t < |g| && IsWalk(g, t, w)
  {
    Types(g, t, w)[|w|]
  }

  // A simple path from the root of a gathering.
  ghost predicate Simple(g: Graph, root: TypeId, w: Walk)
    requires Closed(g) && root < |g|
  {
    IsSimple(g, [], root, w)
  }

  lemma {:induction false} EndInside(g: Graph, t: TypeId, w: Walk)
    requires Closed(g) && t < |g| && IsWalk(g, t, w)
    ensures End(g, t, w) < |g|
    decreases |w|
  {
    if w != [] {
      EndInside(g, g[t][w[0]].target, w[1..]);
    }
  }

  lemma {:induction false} PrefixIsWalk(g: Graph, t: TypeId, v: Walk, w: Walk)
    requires Closed(g) && t < |g| && IsWalk(g, t, v + w)
    ensures IsWalk(g, t, v)
    decreases |v|
  {
    if v != [] {
      assert (v + w)[1..] == v[1..] + w;
      PrefixIsWalk(g, g[t][v[0]].target, v[1..], w);
    }
  }

  lemma {:induction false} GoOnWalk(g: Graph, t: TypeId, v: Walk, w: Walk)
    requires Closed(g) && t < |g| && IsWalk(g, t, v) && End(g, t, v) < |g| && IsWalk(g, End(g, t, v), w)
    ensures IsWalk(g, t, v + w)
    decreases |v|
  {
    if v == [] {
      assert v + w == w;
    } else {
      assert (v + w)[1..] == v[1..] + w;
      GoOnWalk(g, g[t][v[0]].target, v[1..], w);
    }
  }

  lemma {:induction false} GoOnTypes(g: Graph, t: TypeId, v: Walk, w: Walk)
    requires Closed(g) && t < |g| && IsWalk(g, t, v) && End(g, t, v) < |g| && IsWalk(g, End(g, t, v), w) && IsWalk(g, t, v + w)
    ensures Types(g, t, v + w) == Types(g, t, v) + Types(g, End(g, t, v), w)[1..]
    decreases |v|
  {
    if v == [] {
      assert v + w == w;
      assert [t] + Types(g, t, w)[1..] == Types(g, t, w);
    } else {
      var u, x := g[t][v[0]].target, v[1..];
      assert (v + w)[1..] == x + w;
      GoOnTypes(g, u, x, w);
      var more := Types(g, End(g, u, x), w)[1..];
      assert Types(g, t, v) == [t] + Types(g, u, x);
      assert [t] + (Types(g, u, x) + more) == ([t] + Types(g, u, x)) + more;
    }
  }

  lemma {:induction false} GoOnNames(g: Graph, t: TypeId, v: Walk, w: Walk)
    requires Closed(g) && t < |g| && IsWalk(g, t, v) && End(g, t, v) < |g| && IsWalk(g, End(g, t, v), w) && IsWalk(g, t, v + w)
    ensures Names(g, t, v + w) == Names(g, t, v) + Names(g, End(g, t, v), w)
    decreases |v|
  {
    if v == [] {
      assert v + w == w;
    } else {
      assert (v + w)[1..] == v[1..] + w;
      GoOnNames(g, g[t][v[0]].target, v[1..], w);
    }
  }

  /** Going on by w after v. */
  lemma GoOn(g: Graph, t: TypeId, v: Walk, w: Walk)
    requires Closed(g) && t < |g| && IsWalk(g, t, v) && End(g, t, v) < |g| && IsWalk(g, End(g, t, v), w)
    ensures IsWalk(g, t, v + w)
    ensures Types(g, t, v + w) == Types(g, t, v) + Types(g, End(g, t, v), w)[1..]
    ensures Names(g, t, v + w) == Names(g, t, v) + Names(g, End(g, t, v), w)
  {
    GoOnWalk(g, t, v, w);
    GoOnTypes(g, t, v, w);
    GoOnNames(g, t, v, w);
  }

  lemma {:induction false} RestIsWalk(g: Graph, t: TypeId, v: Walk, w: Walk)
    requires Closed(g) && t < |g| && IsWalk(g, t, v) && IsWalk(g, t, v + w) && End(g, t, v) < |g|
    ensures IsWalk(g, End(g, t, v), w)
    decreases |v|
  {
    if v == [] {
      assert v + w == w;
    } else {
      assert (v + w)[1..] == v[1..] + w;
      RestIsWalk(g, g[t][v[0]].target, v[1..], w);
    }
  }

  lemma NoRepeatPrefix(ts: seq<TypeId>, us: seq<TypeId>)
    requires NoRepeat(ts + us)
    ensures NoRepeat(ts)
  {
    assert forall i :: 0 <= i < |ts| ==> (ts + us)[i] == ts[i];
  }

  lemma NoRepeatOneMore(ts: seq<TypeId>, u: TypeId)
    ensures NoRepeat(ts + [u]) <==> NoRepeat(ts) && u !in ts
  {
    var all := ts + [u];
    assert forall i :: 0 <= i < |ts| ==> all[i] == ts[i];
    assert all[|ts|] == u;
  }

  /** What a walk and its beginning have to do with each other. */
  lemma Beginning(g: Graph, root: TypeId, v: Walk, w: Walk)
    requires Closed(g) && root < |g| && Simple(g, root, v + w)
    ensures Simple(g, root, v) && End(g, root, v) < |g| && IsWalk(g, End(g, root, v), w)
    ensures Types(g, root, v + w) == Types(g, root, v) + Types(g, End(g, root, v), w)[1..]
    ensures Names(g, root, v + w) == Names(g, root, v) + Names(g, End(g, root, v), w)
  {
    PrefixIsWalk(g, root, v, w);
    EndInside(g, root, v);
    RestIsWalk(g, root, v, w);
    GoOn(g, root, v, w);
    NoRepeatPrefix(Types(g, root, v), Types(g, End(g, root, v), w)[1..]);
  }

  /** One edge further: simple exactly when it enters a type that is not on the path. */
  lemma OneEdge(g: Graph, root: TypeId, w: Walk, i: nat)
    requires Closed(g) && root < |g| && Simple(g, root, w)
    ensures End(g, root, w) < |g|
    ensures Simple(g, root, w + [i]) <==>
      i < |g[End(g, root, w)]| && g[End(g, root, w)][i].target !in Types(g, root, w)
    ensures Simple(g, root, w + [i]) ==>
      var e := g[End(g, root, w)][i];
      && Names(g, root, w + [i]) == Names(g, root, w) + [e.name]
      && End(g, root, w + [i]) == e.target
  {
    EndInside(g, root, w);
    var u := End(g, root, w);
    if i < |g[u]| {
      assert IsWalk(g, u, [i]) && Types(g, u, [i]) == [u, g[u][i].target] by { OneEdgeWalk(g, u, i); }
      OneEdgeWalk(g, u, i);
      GoOn(g, root, w, [i]);
      assert [u, g[u][i].target][1..] == [g[u][i].target];
      NoRepeatOneMore(Types(g, root, w), g[u][i].target);
    } else if Simple(g, root, w + [i]) {
      RestIsWalk(g, root, w, [i]);
    }
  }

  lemma OneEdgeWalk(g: Graph, u: TypeId, i: nat)
    requires Closed(g) && u < |g| && i < |g[u]|
    ensures IsWalk(g, u, [i]) && Types(g, u, [i]) == [u, g[u][i].target] && Names(g, u, [i]) == [g[u][i].name]
  {
    assert [i][1..] == [];
  }

  // ---------- repeats ----------

  ghost predicate Twice(rs: seq<Record>) {
    exists k, h :: 0 <= k < h < |rs| && rs[k] == rs[h]
  }

  /** The walk w ends at a type with two equal edges, i and j, to a type that is not on w. */
  ghost predicate Doubled(g: Graph, root: TypeId, w: Walk, i: nat, j: nat)
    requires Closed(g) && root < |g|
  {
    && Simple(g, root, w)
    && var u := End(g, root, w);
       u < |g| && i < j < |g[u]| && g[u][i] == g[u][j] && g[u][i].target !in Types(g, root, w)
  }

  // Where a simple path is recorded.
  lemma Recorded(g: Graph, root: TypeId, w: Walk) returns (k: nat)
    requires Closed(g) && root < |g| && Simple(g, root, w)
    ensures k < |Records(g, [], [], root)| == |Walks(g, [], root)| && Walks(g, [], root)[k] == w
    ensures Records(g, [], [], root)[k] == RecordOf(g, [], root, w)
  {
    GatherListsSimplePaths(g, root);
    k :| 0 <= k < |Walks(g, [], root)| && Walks(g, [], root)[k] == w;
  }

  lemma TwoPlaces(rs: seq<Record>, k: nat, h: nat)
    requires k < |rs| && h < |rs| && k != h && rs[k] == rs[h]
    ensures Twice(rs)
  {
    if h < k {
      assert rs[h] == rs[k];
    }
  }

  /** In any graph: two equal edges that a simple path can take repeat a record. */
  lemma DoubledRepeats(g: Graph, root: TypeId, w: Walk, i: nat, j: nat)
    requires Closed(g) && root < |g| && Doubled(g, root, w, i, j)
    ensures Twice(Records(g, [], [], root))
  {
    OneEdge(g, root, w, i);
    OneEdge(g, root, w, j);
    var k := Recorded(g, root, w + [i]);
    var h := Recorded(g, root, w + [j]);
    assert (w + [i])[|w|] != (w + [j])[|w|];
    TwoPlaces(Records(g, [], [], root), k, h);
  }

  /** Edges of one type with the same name are equal. */
  ghost predicate NamesMeanEdges(g: Graph) {
    forall u: TypeId, i, j :: u < |g| && 0 <= i < |g[u]| && 0 <= j < |g[u]| && g[u][i].name == g[u][j].name ==> g[u][i] == g[u][j]
  }

  // Names that a path string can be taken apart into.
  ghost predicate Labelled(g: Graph) {
    forall u: TypeId, i :: u < |g| && 0 <= i < |g[u]| ==> IsLabel(g[u][i].name)
  }

  lemma PartLater(v: Walk, w: Walk, n: nat)
    requires |v| == |w| && n <= |v| && v[..n] == w[..n] && v != w
    ensures n < |v|
  {
    assert v == v[..n] + v[n..] && w == w[..n] + w[n..];
  }

  // Where two walks of the same names part, they take two equal edges.
  lemma {:induction false} FirstParting(g: Graph, root: TypeId, v: Walk, w: Walk, n: nat) returns (p: nat)
    requires Closed(g) && root < |g| && Simple(g, root, v) && Simple(g, root, w)
    requires n <= |v| && n <= |w| && v[..n] == w[..n] && v != w && Names(g, root, v) == Names(g, root, w)
    ensures p < |v| && p < |w| && v[..p] == w[..p] && v[p] != w[p]
    decreases |v| - n
  {
    NamesLength(g, root, v);
    NamesLength(g, root, w);
    PartLater(v, w, n);
    if v[n] != w[n] {
      p := n;
    } else {
      assert v[..n + 1] == v[..n] + [v[n]] && w[..n + 1] == w[..n] + [w[n]];
      p := FirstParting(g, root, v, w, n + 1);
    }
  }

  lemma PartingIsDoubled(g: Graph, root: TypeId, v: Walk, w: Walk, p: nat)
    requires Closed(g) && root < |g| && NamesMeanEdges(g) && Simple(g, root, v) && Simple(g, root, w)
    requires p < |v| && p < |w| && v[..p] == w[..p] && v[p] != w[p] && Names(g, root, v) == Names(g, root, w)
    ensures exists x, i, j :: Doubled(g, root, x, i, j)
  {
    var x := v[..p];
    EdgeTaken(g, root, v, p);
    EdgeTaken(g, root, w, p);
    var u := End(g, root, x);
    assert g[u][v[p]] == g[u][w[p]];
    if v[p] < w[p] {
      assert Doubled(g, root, x, v[p], w[p]);
    } else {
      assert Doubled(g, root, x, w[p], v[p]);
    }
  }

  // Step p of a simple walk.
  lemma EdgeTaken(g: Graph, root: TypeId, v: Walk, p: nat)
    requires Closed(g) && root < |g| && Simple(g, root, v) && p < |v|
    ensures Simple(g, root, v[..p]) && Simple(g, root, v[..p] + [v[p]]) && End(g, root, v[..p]) < |g|
    ensures v[p] < |g[End(g, root, v[..p])]| && g[End(g, root, v[..p])][v[p]].target !in Types(g, root, v[..p])
    ensures p < |Names(g, root, v)| && Names(g, root, v)[p] == g[End(g, root, v[..p])][v[p]].name
  {
    var x, y := v[..p], v[p..];
    assert v == x + y && v == (x + [v[p]]) + v[p + 1..];
    Beginning(g, root, x + [v[p]], v[p + 1..]);
    Beginning(g, root, x, [v[p]]);
    OneEdge(g, root, x, v[p]);
    NamesLength(g, root, x);
  }

  /** Where names mean edges and path strings can be taken apart, a gathering records something twice exactly
      when some simple path reaches a type with two equal edges to a type that is not on it. */
  lemma RepeatsExactlyWhen(g: Graph, root: TypeId)
    requires Closed(g) && root < |g| && NamesMeanEdges(g) && Labelled(g)
    ensures Twice(Records(g, [], [], root)) <==> exists w, i, j :: Doubled(g, root, w, i, j)
  {
    var ws, rs := Walks(g, [], root), Records(g, [], [], root);
    if Twice(rs) {
      var k, h :| 0 <= k < h < |rs| && rs[k] == rs[h];
      GatherListsSimplePaths(g, root);
      var v, w := ws[k], ws[h];
      assert v in ws && w in ws;
      SamePathSameNames(g, root, v, w);
      var p := FirstParting(g, root, v, w, 0);
      PartingIsDoubled(g, root, v, w, p);
    } else if w, i, j :| Doubled(g, root, w, i, j) {
      DoubledRepeats(g, root, w, i, j);
    }
  }

  // ---------- path strings ----------

  const INDEX := "[i]"

  predicate IsPart(s: string) { '/' !in s && s != INDEX }

  /** An attribute or type name, or the label of a container attribute. */
  predicate IsLabel(s: string) {
    IsPart(s) || (|s| >= 4 && s[|s| - 4..] == "/" + INDEX && IsPart(s[..|s| - 4]))
  }

  lemma LastPart(p: string, l: string, q: string, m: string)
    requires '/' !in l && '/' !in m && p + "/" + l == q + "/" + m
    ensures p == q && l == m
  {
    var s := p + "/" + l;
    assert s == q + "/" + m;
    assert s[|p|] == '/' && s[|q|] == '/';
    assert forall i :: |p| < i < |s| ==> s[i] == l[i - |p| - 1];
    assert forall i :: |q| < i < |s| ==> s[i] == m[i - |q| - 1];
    assert |p| == |q|;
    assert p == s[..|p|] && q == s[..|q|] && l == s[|p| + 1..] && m == s[|q| + 1..];
  }

  lemma LastContainers(p: string, l: string, q: string, m: string)
    requires IsLabel(l) && IsLabel(m) && !IsPart(l) && !IsPart(m) && p + "/" + l == q + "/" + m
    ensures p == q && l == m
  {
    var a, b := l[..|l| - 4], m[..|m| - 4];
    assert l == a + "/" + INDEX && m == b + "/" + INDEX;
    assert p + "/" + l == (p + "/" + a) + "/" + INDEX && q + "/" + m == (q + "/" + b) + "/" + INDEX;
    LastPart(p + "/" + a, INDEX, q + "/" + b, INDEX);
    LastPart(p, a, q, b);
  }

  lemma LastLabel(p: string, l: string, q: string, m: string)
    requires IsLabel(l) && IsLabel(m) && p + "/" + l == q + "/" + m
    ensures p == q && l == m
  {
    if !IsPart(l) && !IsPart(m) {
      LastContainers(p, l, q, m);
    } else if !IsPart(l) {
      var a := l[..|l| - 4];
      assert p + "/" + l == (p + "/" + a) + "/" + INDEX by { assert l == a + "/" + INDEX; }
      LastPart(p + "/" + a, INDEX, q, m);
    } else if !IsPart(m) {
      var b := m[..|m| - 4];
      assert q + "/" + m == (q + "/" + b) + "/" + INDEX by { assert m == b + "/" + INDEX; }
      LastPart(p, l, q + "/" + b, INDEX);
    } else {
      LastPart(p, l, q, m);
    }
  }

  ghost predicate AllLabels(ls: seq<string>) { forall i :: 0 <= i < |ls| ==> IsLabel(ls[i]) }

  lemma {:induction false} PathStringDecides(ls: seq<string>, ms: seq<string>)
    requires AllLabels(ls) && AllLabels(ms) && PathString(ls) == PathString(ms)
    ensures ls == ms
  {
    if ls != [] && ms != [] {
      var a, b := ls[..|ls| - 1], ms[..|ms| - 1];
      LastLabel(PathString(a), ls[|ls| - 1], PathString(b), ms[|ms| - 1]);
      PathStringDecides(a, b);
    }
  }

  lemma {:induction false} NamesAreLabels(g: Graph, t: TypeId, w: Walk)
    requires Closed(g) && t < |g| && Labelled(g) && IsWalk(g, t, w)
    ensures AllLabels(Names(g, t, w))
    decreases |w|
  {
    if w != [] {
      NamesAreLabels(g, g[t][w[0]].target, w[1..]);
    }
  }

  lemma SamePathSameNames(g: Graph, root: TypeId, v: Walk, w: Walk)
    requires Closed(g) && root < |g| && Labelled(g) && IsWalk(g, root, v) && IsWalk(g, root, w)
    requires RecordOf(g, [], root, v) == RecordOf(g, [], root, w)
    ensures Names(g, root, v) == Names(g, root, w)
  {
    NamesAreLabels(g, root, v);
    NamesAreLabels(g, root, w);
    assert [] + Names(g, root, v) == Names(g, root, v) && [] + Names(g, root, w) == Names(g, root, w);
    PathStringDecides(Names(g, root, v), Names(g, root, w));
  }

  // ---------- the graph of a registry ----------

  /** A type name, or the name of an attribute: names have no slash, and only type labels begin with a dollar. */
  predicate IsName(s: string) { IsPart(s) && (s == "" || s[0] != '$') }

  function AttributeName(a: Attribute): string {
    match a
    case Pointer(name, _) => name
    case Container(name, _) => name
    case Plain(name) => name
  }

  /** No two types, and no two attributes of a type, have the same name. */
  ghost predicate WellNamed(reg: Registry) {
    && (forall t, u :: 0 <= t < u < |reg.types| ==> reg.types[t].name != reg.types[u].name)
    && (forall t :: 0 <= t < |reg.types| ==> '/' !in reg.types[t].name)
    && (forall t :: 0 <= t < |reg.types| ==> AttributesNamed(reg.types[t].attributes))
  }

  ghost predicate AttributesNamed(attributes: seq<Attribute>) {
    && (forall i :: 0 <= i < |attributes| ==> IsName(AttributeName(attributes[i])))
    && (forall i, j :: 0 <= i < j < |attributes| ==> AttributeName(attributes[i]) != AttributeName(attributes[j]))
  }

  // An edge by one of the attributes.
  ghost predicate ByAttribute(reg: Registry, attributes: seq<Attribute>, e: Edge) {
    exists i :: 0 <= i < |attributes| && AttributeGives(reg, attributes[i], e)
  }

  lemma EdgesAre(reg: Registry, aggs: seq<(TypeId, TypeId)>, t: TypeId, e: Edge)
    requires Registered(reg, aggs) && t < |reg.types| && e in EdgesOf(reg, aggs, t)
    ensures ByAttribute(reg, reg.types[t].attributes, e) || ToType(reg, e)
  {
    EdgeMeans(reg, aggs, t, e);
  }

  // An attribute's label tells its attribute.
  lemma AttributeLabels(reg: Registry, attributes: seq<Attribute>, i: nat, e: Edge)
    requires AttributesNamed(attributes) && i < |attributes| && AttributeGives(reg, attributes[i], e)
    ensures IsLabel(e.name) && (e.name == "" || e.name[0] != '$')
    ensures e.name == AttributeName(attributes[i]) || e.name == AttributeName(attributes[i]) + "/" + INDEX
    ensures e.name == AttributeName(attributes[i]) <==> attributes[i].Pointer?
  {
    var name := AttributeName(attributes[i]);
    assert IsName(name);
    if attributes[i].Container? {
      var label' := name + "/[i]";
      assert label'[..|label'| - 4] == name && label'[|label'| - 4..] == "/" + INDEX;
      assert label' == name + "/" + INDEX;
    }
  }

  lemma TypeLabel(reg: Registry, e: Edge)
    requires WellNamed(reg) && ToType(reg, e)
    ensures IsLabel(e.name) && e.name[0] == '$'
  {
    assert e.name[0] != INDEX[0];
  }

  lemma SameNameSameEdge(reg: Registry, attributes: seq<Attribute>, e: Edge, f: Edge)
    requires WellNamed(reg) && AttributesNamed(attributes) && e.name == f.name
    requires (ByAttribute(reg, attributes, e) || ToType(reg, e)) && (ByAttribute(reg, attributes, f) || ToType(reg, f))
    ensures e == f
  {
    if ToType(reg, e) && ToType(reg, f) {
      assert e.name[1..] == reg.types[e.target].name && f.name[1..] == reg.types[f.target].name;
      assert e.target == f.target;
    } else if ToType(reg, e) {
      TypeLabel(reg, e);
      var j :| 0 <= j < |attributes| && AttributeGives(reg, attributes[j], f);
      AttributeLabels(reg, attributes, j, f);
    } else if ToType(reg, f) {
      TypeLabel(reg, f);
      var i :| 0 <= i < |attributes| && AttributeGives(reg, attributes[i], e);
      AttributeLabels(reg, attributes, i, e);
    } else {
      var i :| 0 <= i < |attributes| && AttributeGives(reg, attributes[i], e);
      var j :| 0 <= j < |attributes| && AttributeGives(reg, attributes[j], f);
      SameAttribute(reg, attributes, i, j, e, f);
    }
  }

  lemma SameAttribute(reg: Registry, attributes: seq<Attribute>, i: nat, j: nat, e: Edge, f: Edge)
    requires AttributesNamed(attributes) && i < |attributes| && j < |attributes| && e.name == f.name
    requires AttributeGives(reg, attributes[i], e) && AttributeGives(reg, attributes[j], f)
    ensures e == f
  {
    AttributeLabels(reg, attributes, i, e);
    AttributeLabels(reg, attributes, j, f);
    var a, b := AttributeName(attributes[i]), AttributeName(attributes[j]);
    assert IsName(a) && IsName(b);
    assert (a + "/" + INDEX)[|a|] == '/' && (b + "/" + INDEX)[|b|] == '/';
    if attributes[i].Pointer? == attributes[j].Pointer? {
      assert a == b by {
        if !attributes[i].Pointer? {
          assert e.name[..|e.name| - 4] == a && f.name[..|f.name| - 4] == b;
        }
      }
      assert i == j;
    }
  }

  /** In the graph of a well-named registry names mean edges and path strings can be taken apart. */
  lemma RegistryIsNamed(reg: Registry, aggs: seq<(TypeId, TypeId)>)
    requires Registered(reg, aggs) && WellNamed(reg)
    ensures NamesMeanEdges(GraphOf(reg, aggs)) && Labelled(GraphOf(reg, aggs))
  {
    var g: Graph := GraphOf(reg, aggs);
    forall u: TypeId, i | u < |g| && 0 <= i < |g[u]|
      ensures IsLabel(g[u][i].name)
    {
      EdgesAre(reg, aggs, u, g[u][i]);
      if ToType(reg, g[u][i]) {
        TypeLabel(reg, g[u][i]);
      } else {
        var k :| 0 <= k < |reg.types[u].attributes| && AttributeGives(reg, reg.types[u].attributes[k], g[u][i]);
        AttributeLabels(reg, reg.types[u].attributes, k, g[u][i]);
      }
    }
    forall u: TypeId, i, j | u < |g| && 0 <= i < |g[u]| && 0 <= j < |g[u]| && g[u][i].name == g[u][j].name
      ensures g[u][i] == g[u][j]
    {
      EdgesAre(reg, aggs, u, g[u][i]);
      EdgesAre(reg, aggs, u, g[u][j]);
      SameNameSameEdge(reg, reg.types[u].attributes, g[u][i], g[u][j]);
    }
  }

  // ---------- an aggregation recorded twice ----------

  lemma {:induction false} AggregateEdgeAt(reg: Registry, t: TypeId, aggs: seq<(TypeId, TypeId)>, a: nat)
    requires a < |aggs| && forall i :: 0 <= i < |aggs| ==> aggs[i].0 < |reg.types| && aggs[i].1 < |reg.types|
    requires t == aggs[a].0 || t == aggs[a].1
    ensures var es, p := AggregateEdges(reg, t, aggs), |AggregateEdges(reg, t, aggs[..a])|;
            p < |es| && [es[p]] == AggregateEdge(reg, t, aggs[a])
  {
    if a < |aggs| - 1 {
      var front := aggs[..|aggs| - 1];
      assert front[..a] == aggs[..a];
      AggregateEdgeAt(reg, t, front, a);
    }
  }

  lemma {:induction false} FewerAggregates(reg: Registry, t: TypeId, aggs: seq<(TypeId, TypeId)>, a: nat, b: nat)
    requires a < b <= |aggs| && forall i :: 0 <= i < |aggs| ==> aggs[i].0 < |reg.types| && aggs[i].1 < |reg.types|
    requires t == aggs[a].0 || t == aggs[a].1
    ensures |AggregateEdges(reg, t, aggs[..a])| < |AggregateEdges(reg, t, aggs[..b])|
  {
    assert aggs[..b][..b - 1] == aggs[..b - 1];
    if a < b - 1 {
      FewerAggregates(reg, t, aggs, a, b - 1);
    }
  }

  lemma TwoAggregateEdges(reg: Registry, aggs: seq<(TypeId, TypeId)>, t: TypeId, a: nat, b: nat) returns (p: nat, q: nat)
    requires Registered(reg, aggs) && t < |reg.types| && a < b < |aggs| && aggs[a] == aggs[b]
    requires t == aggs[a].0 || t == aggs[a].1
    ensures var es := AggregateEdges(reg, t, aggs);
            p < q < |es| && es[p] == es[q] && es[p].target == if aggs[a].1 == t then aggs[a].0 else aggs[a].1
  {
    p, q := |AggregateEdges(reg, t, aggs[..a])|, |AggregateEdges(reg, t, aggs[..b])|;
    AggregateEdgeAt(reg, t, aggs, a);
    AggregateEdgeAt(reg, t, aggs, b);
    FewerAggregates(reg, t, aggs, a, b);
    var e, f := AggregateEdges(reg, t, aggs)[p], AggregateEdges(reg, t, aggs)[q];
    assert [e] == [f] && [e][0] == e && [f][0] == f;
  }

  /** An aggregation recorded twice gives each of its ends two equal edges to the other. */
  lemma RepeatedAggregationDoublesEdge(reg: Registry, aggs: seq<(TypeId, TypeId)>, t: TypeId, a: nat, b: nat)
    returns (i: nat, j: nat)
    requires Registered(reg, aggs) && t < |reg.types| && a < b < |aggs| && aggs[a] == aggs[b]
    requires t == aggs[a].0 || t == aggs[a].1
    ensures var es := EdgesOf(reg, aggs, t);
            i < j < |es| && es[i] == es[j] && es[i].target == if aggs[a].1 == t then aggs[a].0 else aggs[a].1
  {
    var before := AttributeEdges(reg, reg.types[t].attributes) + ChildEdges(reg, t, |reg.types|);
    var p, q := TwoAggregateEdges(reg, aggs, t, a, b);
    i, j := |before| + p, |before| + q;
    assert EdgesOf(reg, aggs, t) == before + AggregateEdges(reg, t, aggs);
  }

  /** So whenever a gathering reaches one end of it without passing the other, it records something twice. */
  lemma RepeatedAggregationRepeatsRecord(reg: Registry, aggs: seq<(TypeId, TypeId)>, root: TypeId, w: Walk, a: nat, b: nat)
    requires Registered(reg, aggs) && Closed(GraphOf(reg, aggs)) && root < |reg.types|
    requires a < b < |aggs| && aggs[a] == aggs[b]
    requires Simple(GraphOf(reg, aggs), root, w)
    requires var u := End(GraphOf(reg, aggs), root, w);
             && (u == aggs[a].0 || u == aggs[a].1)
             && (if aggs[a].1 == u then aggs[a].0 else aggs[a].1) !in Types(GraphOf(reg, aggs), root, w)
    ensures Twice(Records(GraphOf(reg, aggs), [], [], root))
  {
    var g: Graph := GraphOf(reg, aggs);
    EndInside(g, root, w);
    var i, j := RepeatedAggregationDoublesEdge(reg, aggs, End(g, root, w), a, b);
    DoubledRepeats(g, root, w, i, j);
  }

  function NodeListRegistry(): Registry {
    Registry([TypeInfo("ns3::NodeList", [Container("NodeList", 1)]), TypeInfo("ns3::Node", []),
              TypeInfo("ns3::Icmpv4L4Protocol", []), TypeInfo("ns3::Object", [])], {}, 3)
  }

  /** The aggregation that the source records twice: nodes are reached from the list of nodes by a container,
      and the gathering from there records their ICMP protocol twice. */
  lemma NodeListRecordsTwice()
    ensures var reg, aggs := NodeListRegistry(), [(1, 2), (1, 2)];
            && Registered(reg, aggs) && WellNamed(reg) && Closed(GraphOf(reg, aggs))
            && Twice(Records(GraphOf(reg, aggs), [], [], 0))
  {
    var reg, aggs := NodeListRegistry(), [(1, 2), (1, 2)];
    NodeListNamed();
    GraphClosed(reg, aggs);
    var g: Graph := GraphOf(reg, aggs);
    var container := reg.types[0].attributes[0];
    assert reg.types[0].attributes[..0] == [];
    assert AttributeEdges(reg, reg.types[0].attributes) == [] + AttributeEdge(reg, container);
    assert g[0][0] == Edge("NodeList/[i]", 1);
    OneEdgeWalk(g, 0, 0);
    assert Simple(g, 0, [0]) && Types(g, 0, [0]) == [0, 1];
    RepeatedAggregationRepeatsRecord(reg, aggs, 0, [0], 0, 1);
  }

  lemma NodeListNamed()
    ensures Registered(NodeListRegistry(), [(1, 2), (1, 2)]) && WellNamed(NodeListRegistry())
  {
    var reg := NodeListRegistry();
    forall t | 0 <= t < |reg.types|
      ensures '/' !in reg.types[t].name && AttributesNamed(reg.types[t].attributes)
      ensures |reg.types[t].name| == [13, 9, 21, 11][t]
    {
      NameAt(t);
    }
  }

  lemma NameAt(t: nat)
    requires t < 4
    ensures var info := NodeListRegistry().types[t];
            '/' !in info.name && AttributesNamed(info.attributes) && |info.name| == [13, 9, 21, 11][t]
  {
    NoSlashes();
    AttributeIsNamed();
  }

  lemma NoSlashes()
    ensures '/' !in "ns3::NodeList" && '/' !in "ns3::Node" && '/' !in "ns3::Icmpv4L4Protocol" && '/' !in "ns3::Object"
  {
  }

  lemma AttributeIsNamed()
    ensures AttributesNamed([Container("NodeList", 1)])
  {
    assert |"NodeList"| != |INDEX|;
  }
}
