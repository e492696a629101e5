/** The drawing `layout` emits: one box per vertex and one polyline per
    edge, computed from a layer table and the vertices' positions. */
module Drawings {
  import opened Trees

  /** The sizes `layout` works with. */
  datatype Config = Config(
    vertexWidth: nat,
    vertexHeight: nat,
    edgeWidth: nat,
    layerMargin: nat,
    vertexMargin: nat,
    edgeMargin: nat)

  /** The constants `layout` fixes. */
  const Defaults: Config := Config(10, 10, 1, 10, 1, 1)

  datatype Point = Point(x: real, y: real)

  /** A vertex box, by its centre. */
  datatype Box = Box(x: real, y: real, width: nat, height: nat)

  datatype Route = Route(points: seq<Point>, width: nat)

  /** `vertices[u]` is the box of `u`; `edges[u][v]` the polyline of the edge
      from `u` to its child `v`. */
  datatype Drawing = Drawing(vertices: seq<Box>, edges: seq<map<nat, Route>>)

  /** The y of the centre of layer `i`. */
  function LayerY(cfg: Config, i: nat): real {
    ((i + 1) * (cfg.vertexHeight + cfg.layerMargin)) as real
  }

  /** The polyline of an edge from box `bu` to box `bv`: from the bottom
      centre of `bu`, for an edge spanning more than one layer through a bend
      straight above `bv`, `height + layerMargin` below the centre of `bu`, to
      the top centre of `bv`. */
  function EdgePoints(cfg: Config, bu: Box, bv: Box, long: bool): (ps: seq<Point>)
    ensures |ps| == (if long then 3 else 2)
    ensures ps[0].x == bu.x && ps[0].y - bu.y == bu.height as real / 2.0
    ensures ps[|ps| - 1].x == bv.x && bv.y - ps[|ps| - 1].y == bv.height as real / 2.0
    ensures forall i :: 0 < i < |ps| ==> ps[i].x == bv.x
    ensures long ==> ps[1].y - (bu.y + bu.height as real / 2.0) == bu.height as real / 2.0 + cfg.layerMargin as real
  {
    var start := Point(bu.x, bu.y + bu.height as real / 2.0);
    var end := Point(bv.x, bv.y - bv.height as real / 2.0);
    if long then [start, Point(bv.x, bu.y + bu.height as real + cfg.layerMargin as real), end]
    else [start, end]
  }

  /** The boxes of `layout`: each vertex's box, as wide and high as a vertex
      without margins, centred on its position and on its layer's row. Boxes
      on adjacent rows are exactly `layerMargin` apart vertically. */
  function Boxes(t: Tree, cfg: Config, layers: seq<nat>, x: map<nat, real>): (bs: seq<Box>)
    requires |layers| == t.Size() && forall u: nat :: u < t.Size() ==> u in x
    ensures |bs| == t.Size()
    ensures forall u :: 0 <= u < t.Size() ==> bs[u] == Box(x[u], LayerY(cfg, layers[u]), cfg.vertexWidth, cfg.vertexHeight)
    ensures forall u, v :: 0 <= u < t.Size() && 0 <= v < t.Size() && layers[v] == layers[u] + 1 ==>
      (bs[v].y - bs[v].height as real / 2.0) - (bs[u].y + bs[u].height as real / 2.0) == cfg.layerMargin as real
  {
    seq(t.Size(), u requires 0 <= u < t.Size() => Box(x[u], LayerY(cfg, layers[u]), cfg.vertexWidth, cfg.vertexHeight))
  }

  /** The polylines of the edges out of `u`, keyed by child. */
  function RoutesFrom(t: Tree, cfg: Config, layers: seq<nat>, bs: seq<Box>, u: nat): (m: map<nat, Route>)
    requires t.Valid() && |layers| == t.Size() && |bs| == t.Size() && u < t.Size()
    ensures forall v :: v in m <==> 0 < v < t.Size() && t.parent[v] == u
    ensures forall v :: v in m ==>
      m[v] == Route(EdgePoints(cfg, bs[u], bs[v], layers[v] as int - layers[u] as int > 1), cfg.edgeWidth)
  {
    map v | v in Children(t, u) :: Route(EdgePoints(cfg, bs[u], bs[v], layers[v] as int - layers[u] as int > 1), cfg.edgeWidth)
  }

  /** The drawing `layout` returns, from the layers and the positions. */
  function Draw(t: Tree, cfg: Config, layers: seq<nat>, x: map<nat, real>): (d: Drawing)
    requires t.Valid() && |layers| == t.Size() && forall u: nat :: u < t.Size() ==> u in x
    ensures |d.vertices| == t.Size() && |d.edges| == t.Size()
    ensures forall u :: 0 <= u < t.Size() ==> d.vertices[u] == Box(x[u], LayerY(cfg, layers[u]), cfg.vertexWidth, cfg.vertexHeight)
    ensures forall u, v :: 0 <= u < t.Size() ==> (v in d.edges[u] <==> 0 < v < t.Size() && t.parent[v] == u)
    ensures forall u, v :: 0 <= u < t.Size() && v in d.edges[u] ==> d.edges[u][v].width == cfg.edgeWidth
    ensures forall u, v :: 0 <= u < t.Size() && 0 < v < t.Size() && t.parent[v] == u ==>
      && v in d.edges[u]
      && RouteShape(cfg, d.vertices[u], d.vertices[v], d.edges[u][v].points, layers[v] as int - layers[u] as int > 1)
  {
    var bs := Boxes(t, cfg, layers, x);
    Drawing(bs, seq(t.Size(), u requires 0 <= u < t.Size() => RoutesFrom(t, cfg, layers, bs, u)))
  }

  /** Rows are `vertexHeight + layerMargin` apart. */
  lemma LayerYStep(cfg: Config, i: nat, j: nat)
    requires i <= j
    ensures LayerY(cfg, i + 1) == LayerY(cfg, i) + (cfg.vertexHeight + cfg.layerMargin) as real
    ensures LayerY(cfg, i) <= LayerY(cfg, j)
  {
    var h := cfg.vertexHeight + cfg.layerMargin;
    assert (i + 2) * h == (i + 1) * h + h;
    assert (j + 1) * h == (i + 1) * h + (j - i) * h;
  }

  /** A polyline from the bottom centre of box `bu` to the top centre of box
      `bv`; a long one bends once, straight above `bv`, one row below `bu`. */
  predicate RouteShape(cfg: Config, bu: Box, bv: Box, ps: seq<Point>, long: bool) {
    && |ps| == (if long then 3 else 2)
    && ps[0] == Point(bu.x, bu.y + bu.height as real / 2.0)
    && ps[|ps| - 1] == Point(bv.x, bv.y - bv.height as real / 2.0)
    && (long ==> ps[1] == Point(bv.x, bu.y + (cfg.vertexHeight + cfg.layerMargin) as real))
  }

  /** The polyline of the edge from `u` to `v` in `d` has the shape `RouteShape` describes. */
  predicate RouteOk(d: Drawing, cfg: Config, u: nat, v: nat) {
    && u < |d.vertices| && v < |d.vertices| && u < |d.edges| && v in d.edges[u]
    && RouteShape(cfg, d.vertices[u], d.vertices[v], d.edges[u][v].points, v - u > 1)
  }

  /** A layer table that puts every vertex on the row of its own index, and
      a position for every vertex. */
  predicate Placed(t: Tree, layers: seq<nat>, x: map<nat, real>) {
    && t.Valid() && |layers| == t.Size()
    && (forall w :: 0 <= w < |layers| ==> layers[w] == w)
    && (forall u: nat :: u < t.Size() ==> u in x)
  }

  lemma DrawRoutes(t: Tree, cfg: Config, layers: seq<nat>, x: map<nat, real>, u: nat, v: nat)
    requires Placed(t, layers, x) && 0 < v < t.Size() && t.parent[v] == u
    ensures RouteOk(Draw(t, cfg, layers, x), cfg, u, v)
  {
    var d := Draw(t, cfg, layers, x);
    assert layers[u] == u && layers[v] == v;
  }

  lemma ShapeGoesDown(cfg: Config, bu: Box, bv: Box, ps: seq<Point>, long: bool)
    requires RouteShape(cfg, bu, bv, ps, long) && cfg.layerMargin > 0
    requires bu.height == cfg.vertexHeight && bv.height == cfg.vertexHeight
    requires var h := (cfg.vertexHeight + cfg.layerMargin) as real;
      bv.y >= bu.y + h + (if long then h else 0.0)
    ensures forall i :: 0 < i < |ps| ==> ps[i - 1].y < ps[i].y
  {
  }

  /** The polyline of the edge from `u` to `v` in `d` runs strictly downward. */
  predicate GoesDown(d: Drawing, u: nat, v: nat) {
    u < |d.edges| && v in d.edges[u] &&
    forall i :: 0 < i < |d.edges[u][v].points| ==> d.edges[u][v].points[i - 1].y < d.edges[u][v].points[i].y
  }

  lemma DrawGoesDown(t: Tree, cfg: Config, layers: seq<nat>, x: map<nat, real>, u: nat, v: nat)
    requires Placed(t, layers, x) && 0 < v < t.Size() && t.parent[v] == u
    requires cfg.layerMargin > 0
    ensures GoesDown(Draw(t, cfg, layers, x), u, v)
  {
    DrawRoutes(t, cfg, layers, x, u, v);
    var d := Draw(t, cfg, layers, x);
    assert u < v;
    assert d.vertices[u].y == LayerY(cfg, u) && d.vertices[v].y == LayerY(cfg, v);
    LayerYStep(cfg, u, v);
    LayerYStep(cfg, u + 1, v);
    if v - u > 1 {
      LayerYStep(cfg, u + 2, v);
    }
    ShapeGoesDown(cfg, d.vertices[u], d.vertices[v], d.edges[u][v].points, v - u > 1);
  }

  lemma DrawAllRoutes(t: Tree, cfg: Config, layers: seq<nat>, x: map<nat, real>)
    requires Placed(t, layers, x)
    ensures forall u, v :: 0 < v < t.Size() && t.parent[v] == u ==> RouteOk(Draw(t, cfg, layers, x), cfg, u, v)
    ensures cfg.layerMargin > 0 ==>
      forall u, v :: 0 < v < t.Size() && t.parent[v] == u ==> GoesDown(Draw(t, cfg, layers, x), u, v)
  {
    forall u, v | 0 < v < t.Size() && t.parent[v] == u
      ensures RouteOk(Draw(t, cfg, layers, x), cfg, u, v)
      ensures cfg.layerMargin > 0 ==> GoesDown(Draw(t, cfg, layers, x), u, v)
    {
      DrawRoutes(t, cfg, layers, x, u, v);
      if cfg.layerMargin > 0 {
        DrawGoesDown(t, cfg, layers, x, u, v);
      }
    }
  }

  /** Half the width the column of `v` takes on row `i`: the widened box of
      `v` on its own row, a widened dummy on the rows its edge passes. */
  function ColumnHalf(cfg: Config, v: nat, i: nat): real {
    if i == v then (cfg.vertexWidth + cfg.vertexMargin) as real / 2.0
    else (cfg.edgeWidth + 2 * cfg.edgeMargin) as real / 2.0
  }
}
