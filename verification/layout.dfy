/** ImaiTreeLayouter.layout: layers the tree, builds a working copy with
    margins added, normalizes it, places the vertices, and emits one box per
    vertex and one polyline per edge. */
module Layouter {
  import opened Options
  import opened Trees
  import opened WorkGraph
  import opened Normalize
  import opened Position
  import opened Drawings

  /** `layers[u] = index++`: every vertex gets its own layer, the one of its
      enumeration index, so every edge points downward. */
  function Layers(t: Tree): (layers: seq<nat>)
    requires t.Valid()
    ensures Layered(t, layers)
    ensures |layers| == t.Size() && forall v :: 0 <= v < |layers| ==> layers[v] == v
  {
    seq(t.Size(), i requires 0 <= i => i)
  }

  /** The working graph before normalization: every vertex grown by its
      margins and unlayered, every tree edge grown by the edge margin. */
  function WorkingCopy(t: Tree, cfg: Config): (g: Graph)
    requires t.Valid()
    ensures |g.vertices| == t.Size()
    ensures forall v :: 0 <= v < t.Size() ==>
      g.vertices[v] == Vertex(cfg.vertexWidth + cfg.vertexMargin, cfg.vertexHeight + cfg.layerMargin, None, false)
    ensures forall e :: e in g.edges <==> 0 < e.dst < t.Size() && e == TreeEdge(t, cfg.edgeWidth + cfg.edgeMargin, e.dst)
  {
    var w := cfg.edgeWidth + cfg.edgeMargin;
    var es := TreeEdgesFrom(t, w, 1);
    assert forall v :: 0 < v < t.Size() ==> TreeEdge(t, w, v) in es by {
      forall v | 0 < v < t.Size()
        ensures TreeEdge(t, w, v) in es
      {
        TreeInEdges(t, w, 1, v);
        assert TreeEdge(t, w, v) in InEdges(es, v);
      }
    }
    Graph(seq(t.Size(), _ => Vertex(cfg.vertexWidth + cfg.vertexMargin, cfg.vertexHeight + cfg.layerMargin, None, false)), es)
  }

  /** The working copy after `normalize`. */
  function Normalized(t: Tree, cfg: Config): (g: Graph)
    requires t.Valid()
    ensures Linked(t, g, Layers(t))
    ensures forall v {:trigger ChainOk(g, t.Size(), t.parent[v], v, Span(t, Layers(t), v))} :: 0 < v < t.Size() ==> ChainOk(g, t.Size(), t.parent[v], v, Span(t, Layers(t), v))
    ensures forall v :: 0 <= v < t.Size() ==> g.vertices[v].width == cfg.vertexWidth + cfg.vertexMargin
    ensures forall j :: t.Size() <= j < |g.vertices| ==> g.vertices[j].width == cfg.edgeWidth + 2 * cfg.edgeMargin
  {
    var layers := Layers(t);
    var g0 := WorkingCopy(t, cfg);
    var w := cfg.edgeWidth + cfg.edgeMargin;
    assert g0.edges == TreeEdgesFrom(t, w, 1);
    NormalizeJoinsTree(t, layers, cfg.edgeMargin, w, g0);
    NormalizeAllWidths(g0, layers, cfg.edgeMargin, g0.edges, w, t.Size());
    var g := Normalize.Normalize(g0, layers, cfg.edgeMargin);
    ChainsLink(t, g, layers);
    PrefixWidths(g0, g, t.Size());
    g
  }

  lemma ChainsLink(t: Tree, g: Graph, layers: seq<nat>)
    requires t.Valid() && Layered(t, layers) && t.Size() <= |g.vertices|
    requires forall v :: 0 < v < t.Size() ==> ChainOk(g, t.Size(), t.parent[v], v, Span(t, layers, v))
    ensures Linked(t, g, layers)
  {
    forall v | 0 < v < t.Size()
      ensures Joins(g, t.parent[v], v, Span(t, layers, v))
    {
      assert ChainOk(g, t.Size(), t.parent[v], v, Span(t, layers, v));
    }
  }

  lemma PrefixWidths(g0: Graph, g: Graph, n: nat)
    requires n == |g0.vertices| <= |g.vertices| && g.vertices[..n] == g0.vertices
    ensures forall v :: 0 <= v < n ==> g.vertices[v] == g0.vertices[v]
  {
    forall v | 0 <= v < n
      ensures g.vertices[v] == g0.vertices[v]
    {
      assert g.vertices[v] == g.vertices[..n][v];
    }
  }

  /** The positions `vertexPositions` gives the vertices of the normalized
      working copy. */
  function Positions(t: Tree, cfg: Config): (x: map<nat, real>)
    requires t.Valid()
    ensures forall u: nat :: u in x <==> u < t.Size()
  {
    VertexPositions(t, Normalized(t, cfg), Layers(t))
  }

  /** `layout(gOrig)`, with the sizes as a parameter: a box per vertex and
      a polyline per tree edge, as wide as `edgeWidth`. Each polyline starts
      at the bottom centre of the parent's box and ends at the top centre of
      the child's box (`RouteOk`); one for an edge spanning more than one
      layer bends once, straight above the child and one row spacing below
      the parent, on the centre line of the first row its dummies occupy.
      With a positive layer margin every polyline runs strictly downward. */
  function Layout(t: Tree, cfg: Config): (d: Drawing)
    requires t.Valid()
    ensures |d.vertices| == t.Size() && |d.edges| == t.Size()
    ensures forall u :: 0 <= u < t.Size() ==>
      d.vertices[u].width == cfg.vertexWidth && d.vertices[u].height == cfg.vertexHeight
    ensures forall u, v :: 0 <= u < t.Size() ==> (v in d.edges[u] <==> 0 < v < t.Size() && t.parent[v] == u)
    ensures forall u, v :: 0 <= u < t.Size() && v in d.edges[u] ==> d.edges[u][v].width == cfg.edgeWidth
    ensures forall u, v :: 0 < v < t.Size() && t.parent[v] == u ==> RouteOk(d, cfg, u, v)
    ensures cfg.layerMargin > 0 ==> forall u, v :: 0 < v < t.Size() && t.parent[v] == u ==> GoesDown(d, u, v)
  {
    var layers, x := Layers(t), Positions(t, cfg);
    DrawAllRoutes(t, cfg, layers, x);
    Draw(t, cfg, layers, x)
  }

  /** `layout` with the sizes it fixes: the root's box is the 10 by 10 box
      centred 5.5 from the left edge on the first row, at y = 20, and every
      polyline has its shape and runs strictly downward. */
  function ImaiLayout(t: Tree): (d: Drawing)
    requires t.Valid()
    ensures |d.vertices| == t.Size() && |d.edges| == t.Size()
    ensures d.vertices[0] == Box(5.5, 20.0, 10, 10)
    ensures forall u, v :: 0 < v < t.Size() && t.parent[v] == u ==> RouteOk(d, Defaults, u, v) && GoesDown(d, u, v)
  {
    LayoutBoxes(t, Defaults);
    PositionsPlaced(t, Defaults);
    Layout(t, Defaults)
  }

  /** Every box sits centred on its vertex's position, on the row of its
      enumeration index. */
  lemma LayoutBoxes(t: Tree, cfg: Config)
    requires t.Valid()
    ensures var d, x := Layout(t, cfg), Positions(t, cfg);
      forall u :: 0 <= u < t.Size() ==> d.vertices[u] == Box(x[u], LayerY(cfg, u), cfg.vertexWidth, cfg.vertexHeight)
  {
    var x := Positions(t, cfg);
    assert Layout(t, cfg) == Draw(t, cfg, Layers(t), x);
  }

  /** The root sits half its widened box from the left, no widened box
      reaches left of 0, and no vertex lies left of its parent. */
  lemma PositionsPlaced(t: Tree, cfg: Config)
    requires t.Valid()
    ensures Positions(t, cfg)[0] == (cfg.vertexWidth + cfg.vertexMargin) as real / 2.0
    ensures var x := Positions(t, cfg);
      forall u :: 0 <= u < t.Size() ==> x[u] - (cfg.vertexWidth + cfg.vertexMargin) as real / 2.0 >= 0.0
    ensures var x := Positions(t, cfg);
      forall v :: 0 < v < t.Size() ==> x[v] >= x[t.parent[v]]
  {
    NoOverlap(t, Normalized(t, cfg), Layers(t));
  }

  lemma HalfIsColumnHalf(t: Tree, cfg: Config, v: nat, i: nat)
    requires t.Valid() && 0 < v < t.Size() && t.parent[v] < i <= v
    ensures var g, layers := Normalized(t, cfg), Layers(t);
      Covers(t, layers, v, i) && Half(t, g, layers, v, i) == ColumnHalf(cfg, v, i)
  {
    var g, layers := Normalized(t, cfg), Layers(t);
    assert Covers(t, layers, v, i);
    if i != v {
      assert ChainOk(g, t.Size(), t.parent[v], v, Span(t, layers, v));
      DummyHalf(t, g, layers, v, i, cfg.edgeWidth + 2 * cfg.edgeMargin);
    }
  }

  /** Above its target's own layer, the column of an edge is one of the
      dummies, all of which have width `w`. */
  lemma DummyHalf(t: Tree, g: Graph, layers: seq<nat>, v: nat, i: nat, w: nat)
    requires Linked(t, g, layers) && 0 < v < t.Size() && Covers(t, layers, v, i) && i != layers[v]
    requires ChainOk(g, t.Size(), t.parent[v], v, Span(t, layers, v))
    requires forall j :: t.Size() <= j < |g.vertices| ==> g.vertices[j].width == w
    ensures Half(t, g, layers, v, i) == w as real / 2.0
  {
    var p := Column(t, g, layers, v);
    assert 0 < layers[v] - i < |p| && p[layers[v] - i] in p;
    assert t.Size() <= p[layers[v] - i];
  }

  /** The columns of the working graph never overlap: a column is a vertex's
      margined box on its own row and the dummies of its in-edge on the rows
      above, up to its parent. Wherever two different columns share a row,
      their centres are at least the sum of the two half widths apart. */
  lemma LayoutNoOverlap(t: Tree, cfg: Config, v: nat, w: nat, i: nat)
    requires t.Valid() && 0 < v < t.Size() && 0 < w < t.Size() && v != w
    requires t.parent[v] < i <= v && t.parent[w] < i <= w
    ensures var x := Positions(t, cfg);
      x[w] - x[v] >= ColumnHalf(cfg, v, i) + ColumnHalf(cfg, w, i) ||
      x[v] - x[w] >= ColumnHalf(cfg, v, i) + ColumnHalf(cfg, w, i)
  {
    var g, layers := Normalized(t, cfg), Layers(t);
    NoOverlap(t, g, layers);
    HalfIsColumnHalf(t, cfg, v, i);
    HalfIsColumnHalf(t, cfg, w, i);
  }

}
