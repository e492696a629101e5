/** An optional value: a vertex attribute that may be absent, or the answer
    of a walk that may not arrive. */
module Options {
  datatype Option<T> = None | Some(value: T)
}

/** The working graph the layouter builds from the original one and then
    normalizes. Vertex identities are indices into `vertices`; the original
    vertices come first, the dummies of normalization are appended. */
module WorkGraph {
  import opened Options

  /** A vertex box. Original vertices carry no `layer` attribute (their layer
      is read from the layer table); dummy vertices carry one. */
  datatype Vertex = Vertex(width: nat, height: nat, layer: Option<nat>, dummy: bool)

  /** A directed edge. The last leg of a dummy chain carries no width. */
  datatype Edge = Edge(src: nat, dst: nat, width: Option<nat>, dummy: bool)

  datatype Graph = Graph(vertices: seq<Vertex>, edges: seq<Edge>)

  /** Every edge joins two vertices of the graph. */
  predicate WellFormed(g: Graph) {
    forall e :: e in g.edges ==> e.src < |g.vertices| && e.dst < |g.vertices|
  }

  /** The edges ending at `x`, in edge order. */
  function InEdges(es: seq<Edge>, x: nat): (r: seq<Edge>)
    ensures forall e :: e in r <==> e in es && e.dst == x
  {
    if es == [] then []
    else (if es[0].dst == x then [es[0]] else []) + InEdges(es[1..], x)
  }

  /** The first in-neighbour of `x` (`inVertices(x)[0]`), if any. */
  function InParent(g: Graph, x: nat): Option<nat> {
    var ins := InEdges(g.edges, x);
    if ins == [] then None else Some(ins[0].src)
  }

  /** `x` has an in-parent exactly when some edge ends at `x`, and the
      in-parent is the source of such an edge. */
  lemma InParentSpec(g: Graph, x: nat)
    ensures InParent(g, x).None? <==> forall e :: e in g.edges ==> e.dst != x
    ensures InParent(g, x).Some? ==> exists e :: e in g.edges && e.dst == x && e.src == InParent(g, x).value
  {
    var ins := InEdges(g.edges, x);
    if ins != [] {
      assert ins[0] in ins;
    }
  }

  /** The edge list without the edges from `u` to `v` (`removeEdge(u, v)`). */
  function RemoveEdge(es: seq<Edge>, u: nat, v: nat): (r: seq<Edge>)
    ensures forall e :: e in r <==> e in es && !(e.src == u && e.dst == v)
  {
    if es == [] then []
    else (if es[0].src == u && es[0].dst == v then [] else [es[0]]) + RemoveEdge(es[1..], u, v)
  }

  /** The vertices met walking in-parents from `v` back to `u`, `v` first and
      `u` excluded, taking at most `fuel` steps; `None` when the walk does not
      arrive. */
  function PathUp(g: Graph, v: nat, u: nat, fuel: nat): (r: Option<seq<nat>>)
    ensures r.Some? ==> |r.value| <= fuel
    ensures r.Some? ==> forall x :: x in r.value ==> x < |g.vertices| && x != u
    ensures r.Some? && v != u ==> |r.value| > 0 && r.value[0] == v
    decreases fuel
  {
    if v == u then Some([])
    else if fuel == 0 || v >= |g.vertices| then None
    else match InParent(g, v)
      case None => None
      case Some(p) =>
        match PathUp(g, p, u, fuel - 1)
        case None => None
        case Some(rest) => Some([v] + rest)
  }

  /** Walking in-parents from `v` reaches `u` after exactly `k` steps. */
  predicate Joins(g: Graph, u: nat, v: nat, k: nat) {
    var p := PathUp(g, v, u, k);
    p.Some? && |p.value| == k
  }

  /** Half the width of vertex `v`, the distance from its centre to its side. */
  function HalfWidth(g: Graph, v: nat): real
    requires v < |g.vertices|
  {
    g.vertices[v].width as real / 2.0
  }

  lemma {:induction false} InEdgesAppend(a: seq<Edge>, b: seq<Edge>, x: nat)
    ensures InEdges(a + b, x) == InEdges(a, x) + InEdges(b, x)
  {
    if a == [] {
      assert a + b == b;
    } else {
      assert (a + b)[1..] == a[1..] + b;
      InEdgesAppend(a[1..], b, x);
    }
  }

  /** Removing the edges into `v` leaves the in-edges of every other vertex alone. */
  lemma {:induction false} InEdgesRemoveOther(es: seq<Edge>, u: nat, v: nat, x: nat)
    requires x != v
    ensures InEdges(RemoveEdge(es, u, v), x) == InEdges(es, x)
  {
    if es != [] {
      InEdgesRemoveOther(es[1..], u, v, x);
      var head := if es[0].src == u && es[0].dst == v then [] else [es[0]];
      InEdgesAppend(head, RemoveEdge(es[1..], u, v), x);
    }
  }

  /** A walk that arrives after a first step goes on from the in-parent. */
  lemma PathUpStep(g: Graph, v: nat, u: nat, k: nat)
    requires PathUp(g, v, u, k).Some? && v != u
    ensures k > 0 && v < |g.vertices| && InParent(g, v).Some?
    ensures PathUp(g, InParent(g, v).value, u, k - 1).Some?
    ensures PathUp(g, v, u, k).value == [v] + PathUp(g, InParent(g, v).value, u, k - 1).value
  {
  }

  /** A first step to the in-parent followed by a walk from there is a walk. */
  lemma PathUpCons(g: Graph, v: nat, u: nat, k: nat, p: nat, rest: seq<nat>)
    requires v != u && 0 < k && v < |g.vertices|
    requires InParent(g, v) == Some(p) && PathUp(g, p, u, k - 1) == Some(rest)
    ensures PathUp(g, v, u, k) == Some([v] + rest)
  {
  }

  /** A walk only reads the in-parents of the vertices it passes, so a graph
      that agrees on those gives the same walk. */
  lemma {:induction false} PathUpFrame(g: Graph, g': Graph, v: nat, u: nat, k: nat, avoid: nat)
    requires |g.vertices| <= |g'.vertices|
    requires forall x: nat :: x < |g.vertices| && x != avoid ==> InParent(g', x) == InParent(g, x)
    requires PathUp(g, v, u, k).Some? && avoid !in PathUp(g, v, u, k).value
    ensures PathUp(g', v, u, k) == PathUp(g, v, u, k)
    decreases k
  {
    if v != u {
      PathUpStep(g, v, u, k);
      var p := InParent(g, v).value;
      var rest := PathUp(g, p, u, k - 1).value;
      assert v in [v] + rest && forall x :: x in rest ==> x in [v] + rest;
      PathUpFrame(g, g', p, u, k - 1, avoid);
      assert InParent(g', v) == Some(p);
    }
  }
}
