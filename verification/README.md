# imaitree layout, modelled in Dafny

This project models the tree layouter in `index.js` of *imaitree*. The
layouter draws a rooted tree top-down in four steps:

1. **Layering.** Every vertex gets a layer, and a working copy of the graph
   is built with margins added to every box and edge.
2. **Normalization (`normalize`).** An edge that goes down more than one
   layer is replaced by a chain of dummy vertices, one per layer it
   crosses.
3. **Positions (`vertexPositions`).**
   - A backward scan gives every vertex a *sink*: the largest enumeration
     index in its subtree.
   - A depth-first walk then visits children in decreasing sink order.
   - `assignX` places each child as far left as the per-layer `offset`
     table allows, never left of its parent, and then raises the offsets
     along its column.
4. **Drawing (`layout`).** Emits one box per vertex and a two- or
   three-point polyline per edge.

The model is purely functional. The files are:

- `trees.dfy`: the original tree, as a parent table over enumeration indices.
- `workgraph.dfy`: the working graph, as a vertex sequence and an edge list, and the in-parent walk `PathUp`.
- `normalize.dfy`: `normalize`.
- `sink.dfy`: the sink scan.
- `position.dfy`: the child order, `assignX`, `dfs`, `vertexPositions` and the no-overlap invariant.
- `drawing.dfy`: boxes and polylines.
- `layout.dfy`: `ImaiTreeLayouter.layout`.

Positions are exact `real`s. `offset` is a sequence with one slot per layer.
`x` is a map that holds only the vertices placed so far.

**Layering.** Layers are enumeration indices (`layers[u] = index++`), not
breadth-first depths: every original vertex sits on its own layer, which the
`n`-slot offset table matches.

**Inputs.** The source has no error paths. The model states the shape of
input it assumes as preconditions (`Tree.Valid`):

- the vertices are enumerated `0 .. n-1`, with the root at index 0;
- every parent is enumerated before its children;
- every non-root vertex has exactly one in-edge.

## Model

| member | source | states |
|---|---|---|
| Normalize.NormalizeEdge | index.js:12-32 | an edge spanning at most one layer leaves the graph unchanged; a longer edge appends exactly `span-1` dummies, dummy `j` on layer `layers[u]+1+j`, of width `d.width + edgeMargin` and height 0, keeps the old vertices as they were, and leaves no edge from `u` to `v` |
| Normalize.NormalizeEdgeChain | index.js:22-31 | after a long edge `(u, v)` is normalized, every other old edge is still there, and every new edge is marked dummy, carries the edge's width when it ends at a dummy, and carries no width when it ends at `v` |
| Normalize.NormalizeAll | index.js:11-33 | the loop over the edge snapshot keeps every vertex already present, in place and unchanged, and every vertex after them is a dummy of height 0 |
| Normalize.Normalize | index.js:9-34 | `normalize` keeps every vertex already present, in place and unchanged, and every vertex after them is a dummy of height 0 |
| Normalize.NormalizeEdgeJoins | index.js:14-31 | after an edge is normalized, walking in-parents from its target reaches its source in exactly `layers[v]-layers[u]` steps, passing only freshly added dummies |
| Normalize.NormalizeEdgeWellFormed | index.js:16-31 | every edge added joins two vertices of the graph |
| Normalize.NormalizeEdgeFrame | index.js:22-31 | normalizing an edge leaves the in-edges of every other pre-existing vertex unchanged |
| Normalize.NormalizeEdgeSpans | index.js:13-31 | every edge a step adds goes down exactly one layer, and the original vertices stay without a layer attribute |
| Normalize.NormalizeUnitSpans | index.js:9-34 | after `normalize` every edge of the working graph goes down exactly one layer (`layers[target] - layers[source] == 1`, dummies read from their `layer` attribute) |
| Normalize.NormalizeJoinsTree | index.js:9-34 | after `normalize` of the working copy of a tree, the in-parent walk from every non-root vertex reaches its parent in one step per layer of its edge, through dummies only |
| Normalize.NormalizeAllWidths | index.js:16-21 | every dummy `normalize` appends is `edgeWidth + 2*edgeMargin` wide when every edge carries `edgeWidth + edgeMargin` |
| Normalize.TreeInEdges | index.js:116-120 | in the working copy every non-root vertex has exactly one in-edge, from its parent |
| Sink.ClimbChain | index.js:48-52 | the ancestor climb never overwrites an existing sink, and every vertex it adds gets the value being propagated |
| Sink.ClimbChainSpec | index.js:47-52 | the climb from a vertex first met at index `i` assigns `i` to exactly its unassigned proper ancestors other than the root, which are those whose subtree's largest index is `i` |
| Sink.ScanAt | index.js:43-52 | one scan step never changes a sink already assigned |
| Sink.Scan | index.js:42-53 | the loop over the remaining indices never changes a sink already assigned |
| Sink.ScanStep | index.js:42-53 | after the scan step at index `i`, a vertex holds a sink exactly when its subtree's largest index is at least `i`, and then that sink is that largest index |
| Sink.ScanSpec | index.js:42-53 | the whole backward scan ends with every vertex's sink equal to the largest index in its subtree |
| Sink.Sinks | index.js:41-53 | every vertex gets exactly one sink, in `0..n-1`, and the root gets `n-1` |
| Sink.SinksAreSubtreeMax | index.js:41-53 | the scan agrees with the reference definition: `sink[v]` is the largest enumeration index in the subtree of `v` |
| Sink.OwnIndexSink | index.js:44-47 | a vertex keeps its own index as sink if and only if no later-enumerated vertex lies in its subtree |
| Sink.InheritedSink | index.js:48-52 | a child whose subtree holds its parent's sink shares that sink with the parent |
| Sink.SiblingSinksDiffer | index.js:41-53 | two different children of the same vertex always have different sinks |
| Sink.SubtreeMaxMonotone | index.js:48-52 | the largest index in an ancestor's subtree is at least the one in any descendant's, so a propagated sink never undercuts a later one |
| Position.SortBySink | index.js:84-85 | the children are reordered by non-increasing sink: the result is a permutation of the input |
| Position.InsertSorted | index.js:85 | inserting one child into a list sorted by non-increasing sink keeps it sorted |
| Position.SortedChildrenStrict | index.js:84-85 | `dfs` visits the children of every vertex in strictly decreasing sink order |
| Position.PermutationDistinct | index.js:84-85 | sorting a list of distinct children keeps them distinct, so no child is visited twice |
| Position.Column | index.js:66-69 | the path `assignX` walks from `w` up to, but excluding, its parent has one vertex per layer the edge spans, `w` first |
| Position.ReadMax | index.js:63-71 | the first loop of `assignX` yields a value at least `offset[i] + width(v)/2` for every layer `i` on the path, and equal to one of those values or to the starting value |
| Position.WriteOffsets | index.js:74-80 | the second loop of `assignX` sets `offset[i] = x[w] + width(v)/2` on exactly the layers of the path, and leaves every other slot unchanged |
| Position.AssignX | index.js:62-81 | `x[w]` is at least `x[u]`, at least 0 and at least every pre-call `offset[i] + width(v)/2` on the path, and equals one of these candidates; afterwards the offsets on the path hold `x[w] + width(v)/2`, no other offset or position changes, and no offset decreases |
| Position.AssignXGrows | index.js:62-81 | `assignX` adds exactly `w`, no further left than its parent, moves no other vertex, and lowers no offset |
| Position.AssignXSound | index.js:62-81 | `assignX` preserves the no-overlap invariant: every placed column is separated from every other on each shared layer by the sum of their half widths, the offsets have reserved every placed column, and every box lies right of 0 |
| Position.GrowsTrans | index.js:86-89 | two successive placements of disjoint subtrees compose into one placement of both |
| Position.Visit | index.js:86-89 | one turn of the loop of `dfs` places exactly the child and its subtree, each vertex no further left than its parent, moving nothing else |
| Position.DfsChildren | index.js:86-89 | the loop over the children places exactly their subtrees, each vertex no further left than its parent, moving nothing placed before and lowering no offset |
| Position.Dfs | index.js:83-90 | `dfs(u)` places exactly the proper descendants of `u`, each no further left than its parent, and changes nothing else |
| Position.DfsSound | index.js:83-90 | `dfs` preserves the no-overlap invariant |
| Position.Start | index.js:57-60 | before `dfs` every offset is 0 and only the root has a position, half its working width |
| Position.VertexPositions | index.js:55-94 | every vertex gets exactly one position; the root is at half its working width; no vertex lies left of its parent |
| Position.NoOverlap | index.js:55-94 | any two working-graph columns (a vertex's margined box and the dummies of its in-edge) that share a layer end up at least the sum of their half widths apart, and no margined box reaches left of 0 |
| Layouter.Layers | index.js:108-110 | `layers[u]` is the enumeration index of `u`, so every edge points strictly downward |
| Layouter.WorkingCopy | index.js:106-120 | the working copy has one box per vertex, grown by `vertexMargin` and `layerMargin`, and exactly one edge per tree edge, `edgeWidth + edgeMargin` wide |
| Layouter.Normalized | index.js:122 | after normalization each non-root vertex is joined to its parent by a walk of one dummy per crossed layer; originals keep their width; dummies are `edgeWidth + 2*edgeMargin` wide |
| Layouter.Positions | index.js:124 | the layout positions every vertex of the original tree |
| Layouter.Layout | index.js:98-156 | there is one box per vertex, of the unmargined vertex size, and an edge entry `edges[u][v]` exactly for the tree edges, each `edgeWidth` wide; each polyline starts at the bottom centre of `u`'s box, ends at the top centre of `v`'s, and has 2 points for a one-layer edge and 3 points otherwise, bending at `(x(v), y(u) + height + layerMargin)`; with a positive layer margin every polyline runs strictly downward |
| Layouter.ImaiLayout | index.js:98-156 | with the constants the code fixes, the root's box is the 10-by-10 box centred at `(5.5, 20)`, and every polyline has the shape above and runs strictly downward |
| Layouter.LayoutBoxes | index.js:127-134 | each vertex's box is centred on its position, at `y = (layers[u]+1)*(vertexHeight+layerMargin)` |
| Layouter.PositionsPlaced | index.js:60-92 | the root sits half its working width from the left edge, no working box reaches left of 0, and no vertex lies left of its parent |
| Layouter.HalfIsColumnHalf | index.js:111-119 | on a vertex's own layer its column is half the margined vertex width; on the layers above, up to its parent, it is half a dummy's width |
| Layouter.LayoutNoOverlap | index.js:98-156 | at the positions `layout` uses, two working-graph columns (margined boxes and dummy chains) that share a row are at least the sum of their half widths apart |
| Drawings.Boxes | index.js:127-134 | each box is `vertexWidth` by `vertexHeight`, centred on `(x[u], (layers[u]+1)*(vertexHeight+layerMargin))`, so boxes on adjacent rows are exactly `layerMargin` apart vertically |
| Drawings.EdgePoints | index.js:138-147 | a polyline has 3 points for a long edge and 2 otherwise; it starts at the bottom centre of the parent's box and ends at the top centre of the child's; every point after the first has the child's x; the bend of a long edge lies `height + layerMargin` below the centre of the parent's box (`height/2 + layerMargin` below its bottom edge), which is the next row's centre line |
| Drawings.Draw | index.js:125-155 | the drawing has one box and one edge map per vertex; each box sits on its vertex's position and row; `edges[u]` has a key exactly for each child of `u`; every polyline is `edgeWidth` wide, starts at the bottom centre of the parent's box, ends at the top centre of the child's, and for an edge spanning more than one layer bends once, straight above the child, one row spacing below the parent's centre |
| Drawings.RoutesFrom | index.js:135-153 | `edges[u]` holds exactly the children of `u`, each with the polyline built from the two boxes and the edge width |
| Drawings.LayerYStep | index.js:130 | consecutive rows are `vertexHeight + layerMargin` apart, and rows go down with the layer |
| Drawings.DrawRoutes | index.js:137-151 | the polyline of a tree edge starts at the bottom centre of the parent's box and ends at the top centre of the child's; a multi-layer edge bends once, straight above the child, one row below the parent |
| Drawings.DrawGoesDown | index.js:130-147 | with a positive layer margin the polyline of every tree edge goes strictly downward |
| Drawings.DrawAllRoutes | index.js:135-153 | every tree edge has a well-shaped polyline, and with a positive layer margin every one runs strictly downward |
| Trees.ChildrenCoverAll | index.js:83-90 | the subtrees of the children of `u` hold exactly the proper descendants of `u` |
| Trees.SiblingSubtreesApart | index.js:86-89 | the subtrees of two different children share no vertex |
| WorkGraph.InParentSpec | index.js:48 | `inVertices(x)[0]` exists exactly when some edge ends at `x`, and it is the source of such an edge |
| WorkGraph.RemoveEdge | index.js:31 | `removeEdge(u, v)` keeps exactly the edges that do not go from `u` to `v` |
| WorkGraph.PathUp | index.js:66-69 | the walk from `w` up to `u` takes at most its step bound, visits only vertices of the graph other than `u`, and starts at `w` |
| WorkGraph.PathUpFrame | index.js:66-69 | the walk from `w` to `u` depends only on the in-parents of the vertices it passes |

## Left out

- The demo: drawing with d3, SVG setup, zoom, window resize and the timer that grows the tree at random (index.js:193-246). These are user-interface and timer plumbing.
- `generateData` (index.js:159-191). It only builds sample input.
- The graph container, renderers and the unused `horizontalCompaction` import of the `eg-graph` library. These are foreign code. The model uses a plain vertex sequence and edge list instead.
- The sizes fixed at index.js:99-104. They are a `Config` parameter, so every result holds for any non-negative sizes. `Defaults` holds the code's values and `ImaiLayout` instantiates them.
- The order in which the library lists edges. `normalize` iterates over a snapshot of the edge list, and the model fixes that snapshot in order of target index. Every vertex has a single in-edge, so the result does not depend on the order beyond the numbering of dummies.
- The order of `outVertices`. The model lists children by increasing index. `dfs` sorts them by sink, and siblings never share a sink, so the visiting order is the same either way.
- The JavaScript sort. The model uses a stable insertion sort by non-increasing sink. The sorted order is unique (see `Sink.SiblingSinksDiffer`), so any correct sort gives the same result.
- Non-tree, cyclic or disconnected inputs. The code has no error paths for them. They are excluded by preconditions rather than given invented error results.
- The second argument of the root call `dfs(vertices[0], 0)`. `dfs` ignores it.
- Floating point. Only halving of integer widths and sums of halves occur, so `real` gives the exact values.
- LayoutNoOverlap: separates the working-graph columns, not the emitted polylines. The bent polyline of a long edge runs diagonally to its bend, so it can cut the corner of a box on an intermediate row: with parents `[0, 0, 0, 1]` and the default sizes, the positions are `x = {0: 5.5, 1: 5.5, 2: 12.5, 3: 5.5}` and the edge from 0 to 2 runs from `(5.5, 25)` to its bend at `(12.5, 40)`, entering the box of vertex 1, `[0.5, 10.5] × [35, 45]`, at `(10.17, 35)`.
- The vertex ids of the library. Ids are enumeration indices, and dummies take the next free indices.
