/** Normalization of the working graph (index.js `normalize`): every edge
    that spans more than one layer is replaced by a chain of dummy vertices,
    one per intermediate layer, joined by dummy edges. */
module Normalize {
  import opened Options
  import opened Trees
  import opened WorkGraph

  /** The layer of working vertex `x`: its own `layer` attribute when it has
      one (dummies), else its entry in the layer table (original vertices). */
  function LayerOf(g: Graph, layers: seq<nat>, x: nat): int {
    if x < |g.vertices| && g.vertices[x].layer.Some? then g.vertices[x].layer.value
    else if x < |layers| then layers[x]
    else -1
  }

  /** How many layers the original edge `e` goes down. */
  function EdgeSpan(layers: seq<nat>, e: Edge): int
    requires e.src < |layers| && e.dst < |layers|
  {
    layers[e.dst] as int - layers[e.src] as int
  }

  /** Edge `e` goes down exactly one layer. */
  predicate UnitSpan(g: Graph, layers: seq<nat>, e: Edge) {
    LayerOf(g, layers, e.dst) == LayerOf(g, layers, e.src) + 1
  }

  /** The original vertices (the first `|layers|`) carry no layer attribute. */
  predicate OriginalsUnlayered(g: Graph, layers: seq<nat>) {
    forall x :: 0 <= x < |layers| && x < |g.vertices| ==> g.vertices[x].layer.None?
  }

  /** The `k` dummy vertices of one long edge, on layers `first`, `first+1`, ... */
  function Dummies(first: nat, k: nat, width: nat): seq<Vertex> {
    seq(k, j requires 0 <= j => Vertex(width, 0, Some(first + j), true))
  }

  /** The `k` dummy edges leading from `u` through the dummies `base`, ...,
      `base+k-1`; the last leg into the target is added separately. */
  function DummyLinks(u: nat, base: nat, k: nat, width: nat): (ls: seq<Edge>)
    ensures |ls| == k
    ensures forall j :: 0 <= j < k ==> ls[j] == Edge(if j == 0 then u else base + j - 1, base + j, Some(width), true)
    ensures forall e :: e in ls ==> base <= e.dst < base + k && e.src == (if e.dst == base then u else e.dst - 1)
  {
    var ls := seq(k, j requires 0 <= j => Edge(if j == 0 then u else base + j - 1, base + j, Some(width), true));
    assert forall e :: e in ls ==> exists j :: 0 <= j < k && e == ls[j];
    ls
  }

  /** The dummy vertices of a chain, walked upward from the last: `base+j-1`,
      ..., `base`. */
  function Descending(base: nat, j: nat): (r: seq<nat>)
    ensures |r| == j && forall x :: x in r ==> base <= x < base + j
  {
    if j == 0 then [] else [base + j - 1] + Descending(base, j - 1)
  }

  /** One step of `normalize` on edge `e` of the edge snapshot. */
  function NormalizeEdge(g: Graph, layers: seq<nat>, edgeMargin: nat, e: Edge): (r: Graph)
    requires e.src < |layers| && e.dst < |layers| && e.width.Some?
    ensures EdgeSpan(layers, e) <= 1 ==> r == g
    ensures EdgeSpan(layers, e) > 1 ==>
      && |r.vertices| == |g.vertices| + EdgeSpan(layers, e) - 1
      && r.vertices[..|g.vertices|] == g.vertices
    ensures EdgeSpan(layers, e) > 1 ==>
      forall j :: |g.vertices| <= j < |r.vertices| ==>
        r.vertices[j] == Vertex(e.width.value + edgeMargin, 0, Some(layers[e.src] + 1 + j - |g.vertices|), true)
    ensures EdgeSpan(layers, e) > 1 ==>
      forall e' :: e' in r.edges ==> !(e'.src == e.src && e'.dst == e.dst)
  {
    if EdgeSpan(layers, e) > 1 then
      var k := EdgeSpan(layers, e) - 1;
      var base := |g.vertices|;
      Graph(g.vertices + Dummies(layers[e.src] + 1, k, e.width.value + edgeMargin),
            RemoveEdge(g.edges + Chain(e, base, k), e.src, e.dst))
    else
      g
  }

  /** The dummy edges replacing long edge `e`: `k` legs through the dummies
      `base`, ..., `base+k-1`, each as wide as `e`, then a last leg, without a
      width, into the target. */
  function Chain(e: Edge, base: nat, k: nat): seq<Edge>
    requires k > 0 && e.width.Some?
  {
    DummyLinks(e.src, base, k, e.width.value) + [Edge(base + k - 1, e.dst, None, true)]
  }

  /** A long edge's chain joins only vertices of the grown graph. */
  lemma NormalizeEdgeWellFormed(g: Graph, layers: seq<nat>, edgeMargin: nat, e: Edge)
    requires e.src < |layers| && e.dst < |layers| && e.width.Some?
    requires WellFormed(g) && e.src < |g.vertices| && e.dst < |g.vertices|
    ensures WellFormed(NormalizeEdge(g, layers, edgeMargin, e))
  {
    if EdgeSpan(layers, e) > 1 {
      var k := EdgeSpan(layers, e) - 1;
      var base := |g.vertices|;
      var r := NormalizeEdge(g, layers, edgeMargin, e);
      var links := DummyLinks(e.src, base, k, e.width.value);
      forall e' | e' in r.edges
        ensures e'.src < |r.vertices| && e'.dst < |r.vertices|
      {
        assert e' in g.edges + Chain(e, base, k);
      }
    }
  }

  /** The edges a long edge leaves behind: every old edge other than `e`
      stays, and every new one is a dummy edge, as wide as `e` except the
      last leg into the target, which has no width. */
  lemma NormalizeEdgeChain(g: Graph, layers: seq<nat>, edgeMargin: nat, e: Edge)
    requires e.src < |layers| && e.dst < |layers| && e.width.Some?
    requires e.dst < |g.vertices| && EdgeSpan(layers, e) > 1
    ensures var r := NormalizeEdge(g, layers, edgeMargin, e);
      forall e' :: e' in g.edges && !(e'.src == e.src && e'.dst == e.dst) ==> e' in r.edges
    ensures var r := NormalizeEdge(g, layers, edgeMargin, e);
      forall e' :: e' in r.edges && e' !in g.edges ==>
        && e'.dummy
        && (e'.dst == e.dst ==> e'.width.None?)
        && (e'.dst != e.dst ==> e'.width == e.width)
  {
  }

  /** `normalize` as a fold over a snapshot `es` of the edge list: the
      vertices already present keep their place and attributes, and every
      vertex after them is an appended dummy of height 0. */
  function NormalizeAll(g: Graph, layers: seq<nat>, edgeMargin: nat, es: seq<Edge>): (r: Graph)
    requires forall e :: e in es ==> e.src < |layers| && e.dst < |layers| && e.width.Some?
    ensures |g.vertices| <= |r.vertices| && r.vertices[..|g.vertices|] == g.vertices
    ensures forall j :: |g.vertices| <= j < |r.vertices| ==> r.vertices[j].dummy && r.vertices[j].height == 0
    decreases |es|
  {
    if es == [] then g
    else
      var g1 := NormalizeEdge(g, layers, edgeMargin, es[0]);
      var r := NormalizeAll(g1, layers, edgeMargin, es[1..]);
      AppendedDummies(g.vertices, g1.vertices, r.vertices);
      r
  }

  /** Dummies appended in two rounds are dummies appended in one. */
  lemma AppendedDummies(vs: seq<Vertex>, vs1: seq<Vertex>, rs: seq<Vertex>)
    requires |vs| <= |vs1| <= |rs| && rs[..|vs1|] == vs1
    requires forall j :: |vs| <= j < |vs1| ==> vs1[j].dummy && vs1[j].height == 0
    requires forall j :: |vs1| <= j < |rs| ==> rs[j].dummy && rs[j].height == 0
    ensures forall j :: |vs| <= j < |rs| ==> rs[j].dummy && rs[j].height == 0
  {
    forall j | |vs| <= j < |vs1|
      ensures rs[j].dummy && rs[j].height == 0
    {
      assert rs[j] == rs[..|vs1|][j];
    }
  }

  /** `normalize(g, layers, edgeMargin)`: the vertices already present keep
      their place and attributes; dummies are only appended. */
  function Normalize(g: Graph, layers: seq<nat>, edgeMargin: nat): (r: Graph)
    requires forall e :: e in g.edges ==> e.src < |layers| && e.dst < |layers| && e.width.Some?
    ensures |g.vertices| <= |r.vertices| && r.vertices[..|g.vertices|] == g.vertices
    ensures forall j :: |g.vertices| <= j < |r.vertices| ==> r.vertices[j].dummy && r.vertices[j].height == 0
  {
    NormalizeAll(g, layers, edgeMargin, g.edges)
  }

  // ---------------------------------------------------------------------------
  // Every edge of the normalized graph spans exactly one layer.

  /** The edges `NormalizeEdge` produces are the old ones, less `e`, plus a
      chain each of whose legs goes down one layer. */
  lemma NormalizeEdgeSpans(g: Graph, layers: seq<nat>, edgeMargin: nat, e: Edge)
    requires e.src < |layers| && e.dst < |layers| && e.width.Some?
    requires e.src < |g.vertices| && e.dst < |g.vertices| && OriginalsUnlayered(g, layers)
    requires |layers| <= |g.vertices|
    ensures OriginalsUnlayered(NormalizeEdge(g, layers, edgeMargin, e), layers)
    ensures forall e' :: e' in NormalizeEdge(g, layers, edgeMargin, e).edges ==>
      (e' in g.edges && e' != e) || UnitSpan(NormalizeEdge(g, layers, edgeMargin, e), layers, e')
      || EdgeSpan(layers, e) <= 1
  {
    var r := NormalizeEdge(g, layers, edgeMargin, e);
    if EdgeSpan(layers, e) > 1 {
      var k := EdgeSpan(layers, e) - 1;
      var base := |g.vertices|;
      LongEdgeLayers(g, layers, edgeMargin, e);
      forall e' | e' in r.edges && !(e' in g.edges && e' != e)
        ensures UnitSpan(r, layers, e')
      {
        ChainUnitSpan(r, layers, e, base, k, e');
      }
    }
  }

  /** Normalizing a long edge keeps the originals unlayered and puts its
      dummies on the layers strictly between those of its endpoints. */
  lemma LongEdgeLayers(g: Graph, layers: seq<nat>, edgeMargin: nat, e: Edge)
    requires e.src < |layers| && e.dst < |layers| && e.width.Some?
    requires e.src < |g.vertices| && e.dst < |g.vertices| && OriginalsUnlayered(g, layers)
    requires |layers| <= |g.vertices| && EdgeSpan(layers, e) > 1
    ensures var r := NormalizeEdge(g, layers, edgeMargin, e);
      && OriginalsUnlayered(r, layers)
      && LayerOf(r, layers, e.src) == layers[e.src]
      && LayerOf(r, layers, e.dst) == layers[e.dst]
    ensures forall x :: |g.vertices| <= x < |g.vertices| + EdgeSpan(layers, e) - 1 ==>
      LayerOf(NormalizeEdge(g, layers, edgeMargin, e), layers, x) == layers[e.src] + 1 + (x - |g.vertices|)
  {
    var r := NormalizeEdge(g, layers, edgeMargin, e);
    var base := |g.vertices|;
    forall x | 0 <= x < |layers| && x < |r.vertices|
      ensures r.vertices[x].layer.None?
    {
      assert r.vertices[x] == r.vertices[..base][x];
    }
    assert r.vertices[e.src] == r.vertices[..base][e.src];
    assert r.vertices[e.dst] == r.vertices[..base][e.dst];
    forall x | base <= x < base + EdgeSpan(layers, e) - 1
      ensures LayerOf(r, layers, x) == layers[e.src] + 1 + (x - base)
    {
      assert r.vertices[x].layer == Some(layers[e.src] + 1 + (x - base));
    }
  }

  /** Every leg of the chain of `e` goes down one layer, once the dummies sit
      on the layers between those of `e`'s endpoints. */
  lemma ChainUnitSpan(r: Graph, layers: seq<nat>, e: Edge, base: nat, k: nat, e': Edge)
    requires k > 0 && e.width.Some? && e.src < |layers| && e.dst < |layers|
    requires LayerOf(r, layers, e.src) == layers[e.src]
    requires LayerOf(r, layers, e.dst) == layers[e.src] + k + 1
    requires forall x :: base <= x < base + k ==> LayerOf(r, layers, x) == layers[e.src] + 1 + (x - base)
    requires e' in Chain(e, base, k)
    ensures UnitSpan(r, layers, e')
  {
    var links := DummyLinks(e.src, base, k, e.width.value);
    if e' in links {
      var j :| 0 <= j < k && e' == links[j];
      assert LayerOf(r, layers, base + j) == layers[e.src] + 1 + j;
      if j > 0 {
        assert LayerOf(r, layers, base + j - 1) == layers[e.src] + j;
      }
    } else {
      assert LayerOf(r, layers, base + k - 1) == layers[e.src] + k;
    }
  }

  /** The layer of a vertex already present is not changed by later steps. */
  lemma LayerOfPrefix(g: Graph, r: Graph, layers: seq<nat>, x: nat)
    requires |g.vertices| <= |r.vertices| && r.vertices[..|g.vertices|] == g.vertices
    requires x < |g.vertices|
    ensures LayerOf(r, layers, x) == LayerOf(g, layers, x)
  {
    assert r.vertices[x] == g.vertices[x];
  }

  lemma {:induction false} NormalizeAllSpans(g: Graph, layers: seq<nat>, edgeMargin: nat, es: seq<Edge>)
    requires forall e :: e in es ==> e.src < |layers| && e.dst < |layers| && e.width.Some?
    requires forall e :: e in es ==> e.src < |g.vertices| && e.dst < |g.vertices| && layers[e.src] < layers[e.dst]
    requires OriginalsUnlayered(g, layers) && WellFormed(g) && |layers| <= |g.vertices|
    requires forall e :: e in g.edges ==> e in es || UnitSpan(g, layers, e)
    ensures forall e :: e in NormalizeAll(g, layers, edgeMargin, es).edges ==>
      UnitSpan(NormalizeAll(g, layers, edgeMargin, es), layers, e)
    decreases |es|
  {
    if es != [] {
      var e := es[0];
      var g' := NormalizeEdge(g, layers, edgeMargin, e);
      NormalizeEdgeSpans(g, layers, edgeMargin, e);
      forall e' | e' in g'.edges
        ensures e' in es[1..] || UnitSpan(g', layers, e')
      {
        if e' in g.edges && e' != e && e' !in es[1..] {
          assert e' !in es;
          LayerOfPrefix(g, g', layers, e'.src);
          LayerOfPrefix(g, g', layers, e'.dst);
        } else if e' == e && EdgeSpan(layers, e) <= 1 {
          assert LayerOf(g', layers, e.src) == layers[e.src];
          assert LayerOf(g', layers, e.dst) == layers[e.dst];
        }
      }
      forall e' | e' in es[1..]
        ensures e'.src < |g'.vertices| && e'.dst < |g'.vertices|
      {
        assert e' in es;
      }
      NormalizeAllSpans(g', layers, edgeMargin, es[1..]);
    }
  }

  /** After normalization every edge goes down exactly one layer, provided
      every edge went down at least one layer before. */
  lemma NormalizeUnitSpans(g: Graph, layers: seq<nat>, edgeMargin: nat)
    requires forall e :: e in g.edges ==> e.src < |layers| && e.dst < |layers| && e.width.Some?
    requires forall e :: e in g.edges ==> layers[e.src] < layers[e.dst]
    requires OriginalsUnlayered(g, layers) && WellFormed(g) && |layers| <= |g.vertices|
    ensures forall e :: e in Normalize(g, layers, edgeMargin).edges ==>
      UnitSpan(Normalize(g, layers, edgeMargin), layers, e)
  {
    NormalizeAllSpans(g, layers, edgeMargin, g.edges);
  }

  // ---------------------------------------------------------------------------
  // On the working copy of a tree, normalization leaves a walk of in-parents
  // from every vertex back to its parent, one step per layer.

  /** The working copy of the tree edge into `v`. */
  function TreeEdge(t: Tree, width: nat, v: nat): Edge
    requires t.Valid() && 0 < v < t.Size()
  {
    Edge(t.parent[v], v, Some(width), false)
  }

  /** The working copies of the tree edges into `from`, `from+1`, ..., in
      enumeration order of their targets. */
  function TreeEdgesFrom(t: Tree, width: nat, from: nat): (es: seq<Edge>)
    requires t.Valid() && 0 < from
    ensures forall e :: e in es ==> from <= e.dst < t.Size() && e == TreeEdge(t, width, e.dst)
    decreases t.Size() - from
  {
    if from >= t.Size() then []
    else [TreeEdge(t, width, from)] + TreeEdgesFrom(t, width, from + 1)
  }

  lemma {:induction false} TreeInEdges(t: Tree, width: nat, from: nat, x: nat)
    requires t.Valid() && 0 < from && x < t.Size()
    ensures InEdges(TreeEdgesFrom(t, width, from), x) == if from <= x then [TreeEdge(t, width, x)] else []
    decreases t.Size() - from
  {
    if from < t.Size() {
      TreeInEdges(t, width, from + 1, x);
    }
  }

  /** A walk of `k` steps from `v` back to `u` whose every vertex after `v`
      is numbered `n` or above (a dummy). */
  predicate ChainOk(g: Graph, n: nat, u: nat, v: nat, k: nat) {
    var p := PathUp(g, v, u, k);
    p.Some? && |p.value| == k && forall j :: 0 < j < |p.value| ==> n <= p.value[j]
  }

  lemma InEdgesNone(es: seq<Edge>, x: nat)
    requires forall e :: e in es ==> e.dst != x
    ensures InEdges(es, x) == []
  {
    if es != [] {
      InEdgesNone(es[1..], x);
    }
  }

  lemma InParentUnique(g: Graph, x: nat, e: Edge)
    requires e in g.edges && e.dst == x
    requires forall e' :: e' in g.edges && e'.dst == x ==> e'.src == e.src
    ensures InParent(g, x) == Some(e.src)
  {
    var r := InEdges(g.edges, x);
    assert e in r;
    assert r[0] in r;
  }

  /** `NormalizeEdge` leaves the in-edges of every old vertex but `e`'s
      target alone. */
  lemma NormalizeEdgeFrame(g: Graph, layers: seq<nat>, edgeMargin: nat, e: Edge, x: nat)
    requires e.src < |layers| && e.dst < |layers| && e.width.Some?
    requires WellFormed(g) && e.src < |g.vertices| && e.dst < |g.vertices|
    requires x < |g.vertices| && x != e.dst
    ensures InEdges(NormalizeEdge(g, layers, edgeMargin, e).edges, x) == InEdges(g.edges, x)
  {
    if EdgeSpan(layers, e) > 1 {
      var k := EdgeSpan(layers, e) - 1;
      var base := |g.vertices|;
      var chain := Chain(e, base, k);
      var links := DummyLinks(e.src, base, k, e.width.value);
      InEdgesRemoveOther(g.edges + chain, e.src, e.dst, x);
      InEdgesAppend(g.edges, chain, x);
      forall e' | e' in chain
        ensures e'.dst != x
      {
      }
      InEdgesNone(chain, x);
    }
  }

  /** Walking in-parents up a chain of dummies `base+j-1`, ..., `base` ends at `u`. */
  lemma {:induction false} DummyWalk(r: Graph, u: nat, base: nat, j: nat)
    requires 1 <= j && u < base && base + j <= |r.vertices|
    requires InParent(r, base) == Some(u)
    requires forall x :: base < x < base + j ==> InParent(r, x) == Some(x - 1)
    ensures PathUp(r, base + j - 1, u, j) == Some(Descending(base, j))
    decreases j
  {
    if j == 1 {
      assert PathUp(r, u, u, 0) == Some([]);
      PathUpCons(r, base, u, 1, u, []);
    } else {
      DummyWalk(r, u, base, j - 1);
      DummyStep(r, u, base, j);
    }
  }

  lemma DummyStep(r: Graph, u: nat, base: nat, j: nat)
    requires 1 < j && u < base && base + j <= |r.vertices|
    requires forall x :: base < x < base + j ==> InParent(r, x) == Some(x - 1)
    requires PathUp(r, base + (j - 1) - 1, u, j - 1) == Some(Descending(base, j - 1))
    ensures PathUp(r, base + j - 1, u, j) == Some(Descending(base, j))
  {
    assert InParent(r, base + j - 1) == Some(base + (j - 1) - 1);
    assert Descending(base, j) == [base + j - 1] + Descending(base, j - 1);
    PathUpCons(r, base + j - 1, u, j, base + (j - 1) - 1, Descending(base, j - 1));
  }

  /** After `NormalizeEdge`, the walk of in-parents from `e`'s target reaches
      its source in one step per layer, through fresh dummies only. */
  lemma {:induction false} NormalizeEdgeJoins(g: Graph, layers: seq<nat>, edgeMargin: nat, e: Edge)
    requires e.src < |layers| && e.dst < |layers| && e.width.Some?
    requires WellFormed(g) && e.src < |g.vertices| && e.dst < |g.vertices|
    requires InEdges(g.edges, e.dst) == [e] && EdgeSpan(layers, e) >= 1
    ensures ChainOk(NormalizeEdge(g, layers, edgeMargin, e), |g.vertices|, e.src, e.dst, EdgeSpan(layers, e))
  {
    if EdgeSpan(layers, e) == 1 {
      assert NormalizeEdge(g, layers, edgeMargin, e) == g;
      ShortEdgeWalk(g, e);
    } else {
      LongEdgeJoins(g, layers, edgeMargin, e);
    }
  }

  lemma {:induction false} LongEdgeJoins(g: Graph, layers: seq<nat>, edgeMargin: nat, e: Edge)
    requires e.src < |layers| && e.dst < |layers| && e.width.Some?
    requires WellFormed(g) && e.src < |g.vertices| && e.dst < |g.vertices|
    requires InEdges(g.edges, e.dst) == [e] && EdgeSpan(layers, e) > 1
    ensures ChainOk(NormalizeEdge(g, layers, edgeMargin, e), |g.vertices|, e.src, e.dst, EdgeSpan(layers, e))
  {
    var r := NormalizeEdge(g, layers, edgeMargin, e);
    var k := EdgeSpan(layers, e) - 1;
    var base := |g.vertices|;
    LongEdgeChainEdges(g, layers, edgeMargin, e);
    ChainInParents(g.edges, r, e, base, k);
    ChainWalk(r, e, base, k);
  }

  /** An edge that is the only one into its target is a one-step walk. */
  lemma ShortEdgeWalk(g: Graph, e: Edge)
    requires e.src != e.dst && e.dst < |g.vertices|
    requires InEdges(g.edges, e.dst) == [e]
    ensures ChainOk(g, |g.vertices|, e.src, e.dst, 1)
  {
    assert PathUp(g, e.src, e.src, 0) == Some([]);
  }

  /** Once the in-parents along a chain are in place, the walk from the
      target passes the dummies, last to first, and arrives at the source. */
  lemma ChainWalk(r: Graph, e: Edge, base: nat, k: nat)
    requires k > 0 && e.src < base && e.dst < base && base + k <= |r.vertices| && e.src != e.dst
    requires InParent(r, base) == Some(e.src)
    requires forall x :: base < x < base + k ==> InParent(r, x) == Some(x - 1)
    requires InParent(r, e.dst) == Some(base + k - 1)
    ensures ChainOk(r, base, e.src, e.dst, k + 1)
  {
    DummyWalk(r, e.src, base, k);
    var p := [e.dst] + Descending(base, k);
    assert PathUp(r, e.dst, e.src, k + 1) == Some(p);
    forall j | 0 < j < |p|
      ensures base <= p[j]
    {
      assert p[j] in Descending(base, k);
    }
  }

  /** The graph `NormalizeEdge` grows for a long edge has the old edges, less
      `e`, plus the chain of `e`. */
  lemma LongEdgeChainEdges(g: Graph, layers: seq<nat>, edgeMargin: nat, e: Edge)
    requires e.src < |layers| && e.dst < |layers| && e.width.Some?
    requires WellFormed(g) && e.src < |g.vertices| && e.dst < |g.vertices|
    requires InEdges(g.edges, e.dst) == [e] && EdgeSpan(layers, e) > 1
    ensures ChainEdges(g.edges, NormalizeEdge(g, layers, edgeMargin, e), e, |g.vertices|, EdgeSpan(layers, e) - 1)
  {
    assert e in InEdges(g.edges, e.dst);
    forall e' | e' in g.edges && e'.dst == e.dst
      ensures e' == e
    {
      assert e' in InEdges(g.edges, e.dst);
    }
  }

  /** The edges of the grown graph: the old ones less `e`, plus the chain. */
  predicate ChainEdges(prior: seq<Edge>, r: Graph, e: Edge, base: nat, k: nat)
    requires k > 0 && e.width.Some?
  {
    && e.src < base && e.dst < base
    && (forall e' :: e' in prior ==> e'.dst < base)
    && e in prior && (forall e' :: e' in prior && e'.dst == e.dst ==> e' == e)
    && r.edges == RemoveEdge(prior + Chain(e, base, k), e.src, e.dst)
  }

  /** The in-parents along a chain, stated of the edge list alone. */
  lemma ChainInParents(prior: seq<Edge>, r: Graph, e: Edge, base: nat, k: nat)
    requires k > 0 && e.width.Some? && ChainEdges(prior, r, e, base, k)
    ensures InParent(r, base) == Some(e.src)
    ensures forall x :: base < x < base + k ==> InParent(r, x) == Some(x - 1)
    ensures InParent(r, e.dst) == Some(base + k - 1)
  {
    forall x | base <= x < base + k
      ensures InParent(r, x) == Some(if x == base then e.src else x - 1)
    {
      ChainDummyParent(prior, r, e, base, k, x);
    }
    ChainTargetParent(prior, r, e, base, k);
  }

  lemma ChainDummyParent(prior: seq<Edge>, r: Graph, e: Edge, base: nat, k: nat, x: nat)
    requires k > 0 && e.width.Some? && ChainEdges(prior, r, e, base, k)
    requires base <= x < base + k
    ensures InParent(r, x) == Some(if x == base then e.src else x - 1)
  {
    var chain := Chain(e, base, k);
    var links := DummyLinks(e.src, base, k, e.width.value);
    assert chain == links + [chain[k]];
    assert chain[x - base] in prior + chain;
    forall e' | e' in r.edges && e'.dst == x
      ensures e'.src == chain[x - base].src
    {
      assert e' in prior + chain;
    }
    InParentUnique(r, x, chain[x - base]);
  }

  lemma ChainTargetParent(prior: seq<Edge>, r: Graph, e: Edge, base: nat, k: nat)
    requires k > 0 && e.width.Some? && ChainEdges(prior, r, e, base, k)
    ensures InParent(r, e.dst) == Some(base + k - 1)
  {
    var chain := Chain(e, base, k);
    var links := DummyLinks(e.src, base, k, e.width.value);
    assert chain == links + [chain[k]];
    assert chain[k] in prior + chain;
    forall e' | e' in r.edges && e'.dst == e.dst
      ensures e'.src == chain[k].src
    {
      assert e' in prior + chain;
    }
    InParentUnique(r, e.dst, chain[k]);
  }

  /** A chain of vertices at `m` and above is one of vertices at `n` and
      above, for any `n <= m`. */
  lemma ChainOkWeaken(g: Graph, n: nat, m: nat, u: nat, v: nat, k: nat)
    requires n <= m && ChainOk(g, m, u, v, k)
    ensures ChainOk(g, n, u, v, k)
  {
  }

  /** A chain into `v` made of dummies survives any change that leaves the
      in-parents of every vertex but the original vertex `avoid` alone. */
  lemma ChainOkFrame(g: Graph, g': Graph, n: nat, u: nat, v: nat, k: nat, avoid: nat)
    requires |g.vertices| <= |g'.vertices|
    requires forall x: nat :: x < |g.vertices| && x != avoid ==> InParent(g', x) == InParent(g, x)
    requires ChainOk(g, n, u, v, k) && v != avoid && avoid < n
    ensures ChainOk(g', n, u, v, k)
  {
    var p := PathUp(g, v, u, k).value;
    forall j | 0 <= j < |p|
      ensures p[j] != avoid
    {
      if j == 0 {
        assert v != u && p[0] == v;
      }
    }
    PathUpFrame(g, g', v, u, k, avoid);
  }

  /** Normalizing the tree edge into `from` extends the chains to the
      vertices below `from` by the chain into `from`, and leaves the in-edges
      of the vertices above it alone. */
  lemma FoldStep(t: Tree, layers: seq<nat>, edgeMargin: nat, width: nat, g: Graph, from: nat)
    requires t.Valid() && Layered(t, layers) && 0 < from < t.Size()
    requires WellFormed(g) && t.Size() <= |g.vertices|
    requires forall x :: from <= x < t.Size() ==> InEdges(g.edges, x) == [TreeEdge(t, width, x)]
    requires forall x :: 0 < x < from ==> ChainOk(g, t.Size(), t.parent[x], x, Span(t, layers, x))
    ensures var g' := NormalizeEdge(g, layers, edgeMargin, TreeEdge(t, width, from));
      && WellFormed(g') && t.Size() <= |g'.vertices|
      && (forall x :: from + 1 <= x < t.Size() ==> InEdges(g'.edges, x) == [TreeEdge(t, width, x)])
      && (forall x :: 0 < x < from + 1 ==> ChainOk(g', t.Size(), t.parent[x], x, Span(t, layers, x)))
  {
    var n := t.Size();
    var e := TreeEdge(t, width, from);
    var g' := NormalizeEdge(g, layers, edgeMargin, e);
    assert EdgeSpan(layers, e) == Span(t, layers, from);
    NormalizeEdgeWellFormed(g, layers, edgeMargin, e);
    NormalizeEdgeJoins(g, layers, edgeMargin, e);
    ChainOkWeaken(g', n, |g.vertices|, t.parent[from], from, Span(t, layers, from));
    forall x: nat | x < |g.vertices| && x != from
      ensures InEdges(g'.edges, x) == InEdges(g.edges, x) && InParent(g', x) == InParent(g, x)
    {
      NormalizeEdgeFrame(g, layers, edgeMargin, e, x);
    }
    forall x | 0 < x < from
      ensures ChainOk(g', n, t.parent[x], x, Span(t, layers, x))
    {
      ChainOkFrame(g, g', n, t.parent[x], x, Span(t, layers, x), from);
    }
  }

  lemma {:induction false} FoldJoins(t: Tree, layers: seq<nat>, edgeMargin: nat, width: nat, g: Graph, from: nat)
    requires t.Valid() && Layered(t, layers) && 0 < from <= t.Size()
    requires WellFormed(g) && t.Size() <= |g.vertices|
    requires forall x :: from <= x < t.Size() ==> InEdges(g.edges, x) == [TreeEdge(t, width, x)]
    requires forall x :: 0 < x < from ==> ChainOk(g, t.Size(), t.parent[x], x, Span(t, layers, x))
    ensures forall x :: 0 < x < t.Size() ==>
      ChainOk(NormalizeAll(g, layers, edgeMargin, TreeEdgesFrom(t, width, from)), t.Size(), t.parent[x], x, Span(t, layers, x))
    decreases t.Size() - from
  {
    if from < t.Size() {
      FoldStep(t, layers, edgeMargin, width, g, from);
      var g' := NormalizeEdge(g, layers, edgeMargin, TreeEdge(t, width, from));
      FoldJoins(t, layers, edgeMargin, width, g', from + 1);
      var es := TreeEdgesFrom(t, width, from);
      assert es[0] == TreeEdge(t, width, from) && es[1..] == TreeEdgesFrom(t, width, from + 1);
    }
  }

  /** Normalizing the working copy of a tree joins every vertex to its parent
      by a walk of in-parents that takes one step per layer. */
  lemma NormalizeJoinsTree(t: Tree, layers: seq<nat>, edgeMargin: nat, width: nat, g: Graph)
    requires t.Valid() && Layered(t, layers)
    requires |g.vertices| == t.Size() && g.edges == TreeEdgesFrom(t, width, 1)
    ensures forall v :: 0 < v < t.Size() ==>
      ChainOk(Normalize(g, layers, edgeMargin), t.Size(), t.parent[v], v, Span(t, layers, v))
  {
    forall x | 1 <= x < t.Size()
      ensures InEdges(g.edges, x) == [TreeEdge(t, width, x)]
    {
      TreeInEdges(t, width, 1, x);
    }
    FoldJoins(t, layers, edgeMargin, width, g, 1);
  }

  /** Every dummy normalization adds is as wide as the edge it replaces plus
      the edge margin. */
  lemma {:induction false} NormalizeAllWidths(g: Graph, layers: seq<nat>, edgeMargin: nat, es: seq<Edge>, width: nat, n: nat)
    requires forall e :: e in es ==> e.src < |layers| && e.dst < |layers| && e.width == Some(width)
    requires n <= |g.vertices| && forall j :: n <= j < |g.vertices| ==> g.vertices[j].width == width + edgeMargin
    ensures forall j :: n <= j < |NormalizeAll(g, layers, edgeMargin, es).vertices| ==>
      NormalizeAll(g, layers, edgeMargin, es).vertices[j].width == width + edgeMargin
    decreases |es|
  {
    if es != [] {
      assert es[0] in es;
      assert forall e :: e in es[1..] ==> e in es;
      var g' := NormalizeEdge(g, layers, edgeMargin, es[0]);
      forall j | n <= j < |g'.vertices|
        ensures g'.vertices[j].width == width + edgeMargin
      {
        if j < |g.vertices| && EdgeSpan(layers, es[0]) > 1 {
          assert g'.vertices[j] == g'.vertices[..|g.vertices|][j];
        }
      }
      NormalizeAllWidths(g', layers, edgeMargin, es[1..], width, n);
      assert NormalizeAll(g, layers, edgeMargin, es) == NormalizeAll(g', layers, edgeMargin, es[1..]);
    }
  }
}
