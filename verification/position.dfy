/** The horizontal placement of index.js `vertexPositions`: children are
    visited in decreasing sink order, and each child is pushed right of
    everything already placed on the layers its edge passes through. */
module Position {
  import opened Trees
  import opened WorkGraph
  import opened Sink

  // ---------------------------------------------------------------------------
  // Ordering the children

  /** `s` is ordered by non-increasing sink. */
  predicate SinkDescending(s: seq<nat>, sink: map<nat, nat>)
    requires forall y :: y in s ==> y in sink
  {
    forall i, j :: 0 <= i < j < |s| ==> sink[s[j]] <= sink[s[i]]
  }

  /** Inserts `c` in front of the first element whose sink is not larger. */
  function Insert(c: nat, sorted: seq<nat>, sink: map<nat, nat>): (r: seq<nat>)
    requires c in sink && forall y :: y in sorted ==> y in sink
    ensures multiset(r) == multiset(sorted) + multiset{c}
    ensures forall y :: y in r <==> y == c || y in sorted
  {
    if sorted == [] || sink[c] >= sink[sorted[0]] then [c] + sorted
    else
      assert sorted == [sorted[0]] + sorted[1..];
      [sorted[0]] + Insert(c, sorted[1..], sink)
  }

  /** In a sequence ordered by decreasing sink the head has the largest sink. */
  lemma HeadBound(s: seq<nat>, sink: map<nat, nat>, y: nat)
    requires forall z :: z in s ==> z in sink
    requires SinkDescending(s, sink) && y in s
    ensures sink[y] <= sink[s[0]]
  {
    var j :| 0 <= j < |s| && s[j] == y;
    if j > 0 {
      assert sink[s[j]] <= sink[s[0]];
    }
  }

  /** A head whose sink bounds a descending tail gives a descending sequence. */
  lemma ConsSorted(h: nat, rest: seq<nat>, sink: map<nat, nat>)
    requires h in sink && forall z :: z in rest ==> z in sink
    requires SinkDescending(rest, sink)
    requires forall z :: z in rest ==> sink[z] <= sink[h]
    ensures SinkDescending([h] + rest, sink)
  {
    var r := [h] + rest;
    forall i, j | 0 <= i < j < |r|
      ensures sink[r[j]] <= sink[r[i]]
    {
      assert r[j] == rest[j - 1];
      if i > 0 {
        assert r[i] == rest[i - 1];
      } else {
        assert r[j] in rest;
      }
    }
  }

  /** Insertion keeps the order by decreasing sink. */
  lemma {:induction false} InsertSorted(c: nat, sorted: seq<nat>, sink: map<nat, nat>)
    requires c in sink && forall y :: y in sorted ==> y in sink
    requires SinkDescending(sorted, sink)
    ensures SinkDescending(Insert(c, sorted, sink), sink)
  {
    if sorted == [] || sink[c] >= sink[sorted[0]] {
      forall y | y in sorted
        ensures sink[y] <= sink[c]
      {
        HeadBound(sorted, sink, y);
      }
      ConsSorted(c, sorted, sink);
    } else {
      var tail := sorted[1..];
      assert SinkDescending(tail, sink) by {
        forall i, j | 0 <= i < j < |tail|
          ensures sink[tail[j]] <= sink[tail[i]]
        {
          assert tail[i] == sorted[i + 1] && tail[j] == sorted[j + 1];
        }
      }
      InsertSorted(c, tail, sink);
      var rest := Insert(c, tail, sink);
      forall y | y in rest
        ensures sink[y] <= sink[sorted[0]]
      {
        if y != c {
          HeadBound(sorted, sink, y);
        }
      }
      ConsSorted(sorted[0], rest, sink);
    }
  }

  /** `vs.sort((v1, v2) => sink[v2] - sink[v1])`: a stable sort by
      decreasing sink. */
  function SortBySink(cs: seq<nat>, sink: map<nat, nat>): (r: seq<nat>)
    requires forall y :: y in cs ==> y in sink
    ensures multiset(r) == multiset(cs)
    ensures forall y :: y in r <==> y in cs
    ensures SinkDescending(r, sink)
  {
    if cs == [] then []
    else
      assert cs == [cs[0]] + cs[1..];
      InsertSorted(cs[0], SortBySink(cs[1..], sink), sink);
      Insert(cs[0], SortBySink(cs[1..], sink), sink)
  }

  predicate Distinct(s: seq<nat>) {
    forall i, j :: 0 <= i < j < |s| ==> s[i] != s[j]
  }

  /** Without its head a list of distinct elements stays distinct, and
      holds neither the head nor anything new. */
  lemma DistinctTail(s: seq<nat>)
    requires Distinct(s) && s != []
    ensures s[0] in s && Distinct(s[1..])
    ensures forall d :: d in s[1..] ==> d in s && d != s[0]
  {
    forall d | d in s[1..]
      ensures d != s[0]
    {
      var j :| 0 <= j < |s[1..]| && s[1..][j] == d;
      assert s[j + 1] == d;
    }
  }

  lemma {:induction false} DistinctCount(s: seq<nat>, x: nat)
    requires Distinct(s)
    ensures multiset(s)[x] <= 1
  {
    if s != [] {
      assert s == [s[0]] + s[1..];
      DistinctCount(s[1..], x);
    }
  }

  lemma TwiceCount(s: seq<nat>, i: nat, j: nat)
    requires i < j < |s| && s[i] == s[j]
    ensures multiset(s)[s[i]] >= 2
  {
    assert s == s[..j] + s[j..];
    assert s[i] in s[..j];
    assert s[j] in s[j..];
  }

  /** A reordering of distinct vertices holds distinct vertices. */
  lemma PermutationDistinct(s: seq<nat>, s': seq<nat>)
    requires Distinct(s) && multiset(s) == multiset(s')
    ensures Distinct(s')
  {
    forall i, j | 0 <= i < j < |s'|
      ensures s'[i] != s'[j]
    {
      if s'[i] == s'[j] {
        TwiceCount(s', i, j);
        DistinctCount(s, s'[i]);
      }
    }
  }

  /** Siblings never tie on their sinks, so the sorted children are in
      strictly decreasing sink order and the visiting order is unique. */
  lemma SortedChildrenStrict(t: Tree, u: nat)
    requires t.Valid() && u < t.Size()
    ensures var cs := SortBySink(Children(t, u), Sinks(t));
      forall i, j :: 0 <= i < j < |cs| ==> Sinks(t)[cs[j]] < Sinks(t)[cs[i]]
  {
    var sink := Sinks(t);
    var cs := SortBySink(Children(t, u), sink);
    PermutationDistinct(Children(t, u), cs);
    forall i, j | 0 <= i < j < |cs|
      ensures sink[cs[j]] < sink[cs[i]]
    {
      assert cs[i] in Children(t, u) && cs[j] in Children(t, u);
      SiblingSinksDiffer(t, cs[i], cs[j]);
    }
  }

  // ---------------------------------------------------------------------------
  // The columns of the normalized graph

  /** What the placement needs of the normalized graph: every tree edge
      `parent[v] -> v` has become a walk of in-parents spanning exactly its
      layers. */
  predicate Linked(t: Tree, g: Graph, layers: seq<nat>) {
    && t.Valid()
    && Layered(t, layers)
    && t.Size() <= |g.vertices|
    && forall v :: 0 < v < t.Size() ==> Joins(g, t.parent[v], v, Span(t, layers, v))
  }

  /** The column of `v`: the walk from `v` up to its parent, one vertex per
      layer; `v` first, then the dummies of its edge. */
  function Column(t: Tree, g: Graph, layers: seq<nat>, v: nat): (p: seq<nat>)
    requires Linked(t, g, layers) && 0 < v < t.Size()
    ensures |p| == Span(t, layers, v) && p[0] == v
    ensures forall x :: x in p ==> x < |g.vertices|
  {
    assert Joins(g, t.parent[v], v, Span(t, layers, v));
    PathUp(g, v, t.parent[v], Span(t, layers, v)).value
  }

  /** Layer `i` is one the edge into `v` occupies: below the parent's layer,
      down to and including `v`'s own. */
  predicate Covers(t: Tree, layers: seq<nat>, v: nat, i: int)
    requires t.Valid() && Layered(t, layers) && 0 < v < t.Size()
  {
    layers[t.parent[v]] < i <= layers[v]
  }

  /** Half the width of the column of `v` on layer `i`. */
  function Half(t: Tree, g: Graph, layers: seq<nat>, v: nat, i: int): (h: real)
    requires Linked(t, g, layers) && 0 < v < t.Size() && Covers(t, layers, v, i)
    ensures h >= 0.0
    ensures i == layers[v] ==> h == HalfWidth(g, v)
  {
    var p := Column(t, g, layers, v);
    assert p[layers[v] - i] in p;
    HalfWidth(g, p[layers[v] - i])
  }

  // ---------------------------------------------------------------------------
  // assignX

  /** The placement state: `offset[i]` is the first free position on layer
      `i`, `x` the positions assigned so far. */
  datatype Placement = Placement(offset: seq<real>, x: map<nat, real>)

  function Max(a: real, b: real): (m: real)
    ensures m >= a && m >= b && (m == a || m == b)
  {
    if a >= b then a else b
  }

  /** The first walk of assignX, from layer `i` up to the parent's layer:
      the largest `offset[k] + width/2` over the column, starting from `acc`. */
  function ReadMax(t: Tree, g: Graph, layers: seq<nat>, w: nat, offset: seq<real>, i: int, acc: real): (r: real)
    requires Linked(t, g, layers) && 0 < w < t.Size() && |offset| == t.Size()
    requires layers[t.parent[w]] <= i <= layers[w]
    ensures r >= acc
    ensures forall k :: layers[t.parent[w]] < k <= i ==> r >= offset[k] + Half(t, g, layers, w, k)
    ensures r == acc || exists k :: layers[t.parent[w]] < k <= i && r == offset[k] + Half(t, g, layers, w, k)
    decreases i
  {
    if i == layers[t.parent[w]] then acc
    else ReadMax(t, g, layers, w, offset, i - 1, Max(acc, offset[i] + Half(t, g, layers, w, i)))
  }

  /** The second walk of assignX: reserves every layer of the column, from
      `i` up to the parent's layer, up to `xMax` plus the column's half width. */
  function WriteOffsets(t: Tree, g: Graph, layers: seq<nat>, w: nat, offset: seq<real>, i: int, xMax: real): (r: seq<real>)
    requires Linked(t, g, layers) && 0 < w < t.Size() && |offset| == t.Size()
    requires layers[t.parent[w]] <= i <= layers[w]
    ensures |r| == |offset|
    ensures forall k :: 0 <= k < |r| && Covers(t, layers, w, k) && k <= i ==> r[k] == xMax + Half(t, g, layers, w, k)
    ensures forall k :: 0 <= k < |r| && !(layers[t.parent[w]] < k <= i) ==> r[k] == offset[k]
    decreases i
  {
    if i == layers[t.parent[w]] then offset
    else WriteOffsets(t, g, layers, w, offset[i := xMax + Half(t, g, layers, w, i)], i - 1, xMax)
  }

  /** assignX(parent[w], w): `w` goes to the larger of its parent's position
      and the first position that clears every layer of its column, and its
      column then reserves those layers up to its right side. */
  function AssignX(t: Tree, g: Graph, layers: seq<nat>, w: nat, st: Placement): (r: Placement)
    requires Linked(t, g, layers) && 0 < w < t.Size() && |st.offset| == t.Size()
    requires t.parent[w] in st.x
    ensures |r.offset| == t.Size()
    ensures forall v :: v in r.x <==> v in st.x || v == w
    ensures forall v :: v in st.x && v != w ==> r.x[v] == st.x[v]
    ensures r.x[w] >= st.x[t.parent[w]] && r.x[w] >= 0.0
    ensures forall k :: Covers(t, layers, w, k) ==> r.x[w] >= st.offset[k] + Half(t, g, layers, w, k)
    ensures r.x[w] == st.x[t.parent[w]] || r.x[w] == 0.0
         || exists k :: Covers(t, layers, w, k) && r.x[w] == st.offset[k] + Half(t, g, layers, w, k)
    ensures forall k :: 0 <= k < t.Size() && Covers(t, layers, w, k) ==> r.offset[k] == r.x[w] + Half(t, g, layers, w, k)
    ensures forall k :: 0 <= k < t.Size() && !Covers(t, layers, w, k) ==> r.offset[k] == st.offset[k]
    ensures forall k :: 0 <= k < t.Size() ==> r.offset[k] >= st.offset[k]
  {
    var u := t.parent[w];
    var xMax := Max(ReadMax(t, g, layers, w, st.offset, layers[w], 0.0), st.x[u]);
    Placement(WriteOffsets(t, g, layers, w, st.offset, layers[w], xMax), st.x[w := xMax])
  }

  // ---------------------------------------------------------------------------
  // dfs

  /** The proper descendants of `u`. */
  function Below(t: Tree, u: nat): set<nat>
    requires t.Valid()
  {
    set v: nat | v < t.Size() && v != u && InSubtree(t, u, v)
  }

  /** The vertices in the subtree of one of `cs`. */
  function BelowAny(t: Tree, cs: seq<nat>): set<nat>
    requires t.Valid()
  {
    set v: nat | v < t.Size() && InSubtreeOfAny(t, cs, v)
  }

  /** `r` is `st` with positions given to exactly the non-root vertices of
      `region`, each no further left than its parent, every other position
      kept, and no offset lowered. */
  ghost predicate Grows(t: Tree, st: Placement, r: Placement, region: set<nat>) {
    && |r.offset| == |st.offset|
    && (forall v :: v in r.x <==> v in st.x || v in region)
    && (forall v :: v in st.x && v !in region ==> r.x[v] == st.x[v])
    && (forall k :: 0 <= k < |st.offset| ==> r.offset[k] >= st.offset[k])
    && (forall v :: v in region ==> 0 < v < t.Size() && v in r.x && t.parent[v] in r.x && r.x[v] >= r.x[t.parent[v]])
  }

  /** Two growth steps over disjoint regions make one, provided the second
      step leaves the parents of the first region alone. */
  lemma GrowsTrans(t: Tree, st: Placement, m: Placement, r: Placement, a: set<nat>, b: set<nat>)
    requires Grows(t, st, m, a) && Grows(t, m, r, b)
    requires a !! b && forall v :: v in a ==> t.parent[v] !in b
    ensures Grows(t, st, r, a + b)
  {
  }

  /** Placing one vertex grows the placement by that vertex alone. */
  lemma AssignXGrows(t: Tree, g: Graph, layers: seq<nat>, w: nat, st: Placement)
    requires Linked(t, g, layers) && 0 < w < t.Size() && |st.offset| == t.Size()
    requires t.parent[w] in st.x
    ensures Grows(t, st, AssignX(t, g, layers, w, st), {w})
  {
    var r := AssignX(t, g, layers, w, st);
    assert t.parent[w] != w;
    assert r.x[t.parent[w]] == st.x[t.parent[w]];
  }

  /** One round of the loop of dfs(u): placing the subtree of child
      `cs[0]`, then the subtrees of the other children, grows the placement
      by the subtrees of all of `cs`. */
  lemma VisitGrows(t: Tree, u: nat, cs: seq<nat>, st: Placement, st': Placement, r: Placement)
    requires t.Valid() && u < t.Size() && cs != []
    requires forall c :: c in cs ==> c < t.Size() && 0 < c && t.parent[c] == u
    requires forall d :: d in cs[1..] ==> d != cs[0]
    requires Grows(t, st, st', {cs[0]} + Below(t, cs[0]))
    requires Grows(t, st', r, BelowAny(t, cs[1..]))
    ensures Grows(t, st, r, BelowAny(t, cs))
  {
    SubtreesApart(t, u, cs);
    SubtreesJoin(t, cs);
    GrowsTrans(t, st, st', r, {cs[0]} + Below(t, cs[0]), BelowAny(t, cs[1..]));
  }

  /** The subtree of the first child and those of the others share no
      vertex, and no parent of the first lies among the others. */
  lemma SubtreesApart(t: Tree, u: nat, cs: seq<nat>)
    requires t.Valid() && u < t.Size() && cs != []
    requires forall c :: c in cs ==> c < t.Size() && 0 < c && t.parent[c] == u
    requires forall d :: d in cs[1..] ==> d != cs[0]
    ensures ({cs[0]} + Below(t, cs[0])) !! BelowAny(t, cs[1..])
    ensures forall v :: v in {cs[0]} + Below(t, cs[0]) ==> v < t.Size() && t.parent[v] !in BelowAny(t, cs[1..])
  {
    var c, rest := cs[0], cs[1..];
    assert c in cs;
    assert forall d :: d in rest ==> d in cs;
    SiblingSubtreesApart(t, u, c, rest);
    ParentOutside(t, u, rest);
    forall v | v in {c} + Below(t, c)
      ensures v < t.Size() && t.parent[v] !in BelowAny(t, rest)
    {
      if v != c {
        assert InSubtree(t, c, t.parent[v]);
      }
    }
  }

  /** The subtree of the first child and those of the others make up the
      subtrees of all of them. */
  lemma SubtreesJoin(t: Tree, cs: seq<nat>)
    requires t.Valid() && cs != []
    requires forall c :: c in cs ==> c < t.Size()
    ensures {cs[0]} + Below(t, cs[0]) + BelowAny(t, cs[1..]) == BelowAny(t, cs)
  {
    assert cs[0] in cs;
  }

  /** No proper child of `u` has `u` in its subtree. */
  lemma {:induction false} ParentOutside(t: Tree, u: nat, cs: seq<nat>)
    requires t.Valid() && u < t.Size()
    requires forall c :: c in cs ==> c < t.Size() && 0 < c && t.parent[c] == u
    ensures !InSubtreeOfAny(t, cs, u)
    decreases |cs|
  {
    if cs != [] {
      assert cs[0] in cs;
      assert forall d :: d in cs[1..] ==> d in cs;
      ParentOutside(t, u, cs[1..]);
    }
  }

  /** dfs(u): visits the children of `u` in decreasing sink order, placing
      each one and then its subtree. Exactly the proper descendants of `u`
      get a position, each no further left than its parent; nothing placed
      outside the subtree moves and no offset is lowered. */
  function Dfs(t: Tree, g: Graph, layers: seq<nat>, u: nat, st: Placement): (r: Placement)
    requires Linked(t, g, layers) && u < t.Size() && |st.offset| == t.Size()
    requires u in st.x
    ensures Grows(t, st, r, Below(t, u))
    decreases t.Size() - u, 1
  {
    var cs := SortBySink(Children(t, u), Sinks(t));
    PermutationDistinct(Children(t, u), cs);
    ChildrenCoverAll(t, u, cs);
    assert Below(t, u) == BelowAny(t, cs);
    DfsChildren(t, g, layers, u, cs, st)
  }

  /** One child `c` of the loop: assignX(parent[c], c), then dfs(c); the
      whole subtree of `c` gets positions. */
  function Visit(t: Tree, g: Graph, layers: seq<nat>, c: nat, st: Placement): (r: Placement)
    requires Linked(t, g, layers) && 0 < c < t.Size() && |st.offset| == t.Size()
    requires t.parent[c] in st.x
    ensures Grows(t, st, r, {c} + Below(t, c))
    decreases t.Size() - c, 2
  {
    var st1 := AssignX(t, g, layers, c, st);
    AssignXGrows(t, g, layers, c, st);
    var r := Dfs(t, g, layers, c, st1);
    GrowsTrans(t, st, st1, r, {c}, Below(t, c));
    r
  }

  /** The loop of dfs(u) over the children `cs` still to visit. */
  function DfsChildren(t: Tree, g: Graph, layers: seq<nat>, u: nat, cs: seq<nat>, st: Placement): (r: Placement)
    requires Linked(t, g, layers) && u < t.Size() && |st.offset| == t.Size()
    requires u in st.x
    requires forall c :: c in cs ==> c < t.Size() && 0 < c && t.parent[c] == u
    requires Distinct(cs)
    ensures Grows(t, st, r, BelowAny(t, cs))
    decreases t.Size() - u, 0, |cs|
  {
    if cs == [] then st
    else
      DistinctTail(cs);
      var st' := Visit(t, g, layers, cs[0], st);
      var r := DfsChildren(t, g, layers, u, cs[1..], st');
      VisitGrows(t, u, cs, st, st', r);
      r
  }

  // ---------------------------------------------------------------------------
  // vertexPositions

  /** The state before dfs(root): all offsets 0, the root at half its width. */
  function Start(t: Tree, g: Graph): (st: Placement)
    requires t.Valid() && t.Size() <= |g.vertices|
    ensures |st.offset| == t.Size() && st.x.Keys == {0}
    ensures st.x[0] == HalfWidth(g, 0) && forall k :: 0 <= k < |st.offset| ==> st.offset[k] == 0.0
  {
    Placement(seq(t.Size(), _ => 0.0), map[0 := HalfWidth(g, 0)])
  }

  lemma AllBelowRoot(t: Tree)
    requires t.Valid()
    ensures forall v: nat :: 0 < v < t.Size() ==> v in Below(t, 0)
  {
    forall v: nat | 0 < v < t.Size()
      ensures v in Below(t, 0)
    {
      RootReachesAll(t, v);
    }
  }

  /** vertexPositions: every vertex gets a position, the root at half its
      width, and no vertex lies left of its parent. */
  function VertexPositions(t: Tree, g: Graph, layers: seq<nat>): (x: map<nat, real>)
    requires Linked(t, g, layers)
    ensures forall v: nat :: v in x <==> v < t.Size()
    ensures x[0] == HalfWidth(g, 0)
    ensures forall v :: 0 < v < t.Size() ==> x[v] >= x[t.parent[v]]
  {
    AllBelowRoot(t);
    Dfs(t, g, layers, 0, Start(t, g)).x
  }

  // ---------------------------------------------------------------------------
  // No overlap

  /** Every placed column has reserved the layers it occupies: each offset
      there is at least the column's right side. */
  ghost predicate Reserved(t: Tree, g: Graph, layers: seq<nat>, st: Placement)
    requires Linked(t, g, layers) && |st.offset| == t.Size()
  {
    forall v: nat, i: int :: v in st.x && 0 < v < t.Size() && Covers(t, layers, v, i) ==>
      st.offset[i] >= st.x[v] + Half(t, g, layers, v, i)
  }

  /** Any two placed columns that share a layer are at least the sum of
      their half widths apart there, so their boxes do not overlap. */
  ghost predicate Separated(t: Tree, g: Graph, layers: seq<nat>, x: map<nat, real>)
    requires Linked(t, g, layers)
  {
    forall v: nat, w: nat, i: int ::
      v in x && w in x && 0 < v < t.Size() && 0 < w < t.Size() && v != w &&
      Covers(t, layers, v, i) && Covers(t, layers, w, i) ==>
        x[w] - x[v] >= Half(t, g, layers, v, i) + Half(t, g, layers, w, i) ||
        x[v] - x[w] >= Half(t, g, layers, v, i) + Half(t, g, layers, w, i)
  }

  /** No offset is negative and every placed box lies right of position 0. */
  ghost predicate RightOfZero(t: Tree, g: Graph, st: Placement)
    requires t.Size() <= |g.vertices|
  {
    && (forall k :: 0 <= k < |st.offset| ==> st.offset[k] >= 0.0)
    && (forall v :: v in st.x && v < t.Size() ==> st.x[v] >= HalfWidth(g, v))
  }

  ghost predicate Sound(t: Tree, g: Graph, layers: seq<nat>, st: Placement)
    requires Linked(t, g, layers) && |st.offset| == t.Size()
  {
    Reserved(t, g, layers, st) && Separated(t, g, layers, st.x) && RightOfZero(t, g, st)
  }

  /** assignX keeps the placement sound: the new column clears every
      column already placed on its layers and reserves its own. */
  lemma AssignXSound(t: Tree, g: Graph, layers: seq<nat>, w: nat, st: Placement)
    requires Linked(t, g, layers) && 0 < w < t.Size() && |st.offset| == t.Size()
    requires t.parent[w] in st.x
    requires Sound(t, g, layers, st)
    ensures Sound(t, g, layers, AssignX(t, g, layers, w, st))
  {
    var r := AssignX(t, g, layers, w, st);
    forall v: nat, i: int | v in r.x && 0 < v < t.Size() && Covers(t, layers, v, i)
      ensures r.offset[i] >= r.x[v] + Half(t, g, layers, v, i)
    {
      if v != w {
        assert st.offset[i] >= st.x[v] + Half(t, g, layers, v, i);
      }
    }
    forall v: nat, i: int | v in r.x && w != v && 0 < v < t.Size() && Covers(t, layers, v, i) && Covers(t, layers, w, i)
      ensures r.x[w] - r.x[v] >= Half(t, g, layers, v, i) + Half(t, g, layers, w, i)
    {
      assert st.offset[i] >= st.x[v] + Half(t, g, layers, v, i);
    }
    assert r.x[w] >= st.offset[layers[w]] + Half(t, g, layers, w, layers[w]);
  }

  /** dfs keeps the placement sound. */
  lemma DfsSound(t: Tree, g: Graph, layers: seq<nat>, u: nat, st: Placement)
    requires Linked(t, g, layers) && u < t.Size() && |st.offset| == t.Size()
    requires u in st.x && Sound(t, g, layers, st)
    ensures Sound(t, g, layers, Dfs(t, g, layers, u, st))
    decreases t.Size() - u, 1
  {
    var cs := SortBySink(Children(t, u), Sinks(t));
    PermutationDistinct(Children(t, u), cs);
    DfsChildrenSound(t, g, layers, u, cs, st);
  }

  lemma VisitSound(t: Tree, g: Graph, layers: seq<nat>, c: nat, st: Placement)
    requires Linked(t, g, layers) && 0 < c < t.Size() && |st.offset| == t.Size()
    requires t.parent[c] in st.x && Sound(t, g, layers, st)
    ensures Sound(t, g, layers, Visit(t, g, layers, c, st))
    decreases t.Size() - c, 2
  {
    AssignXSound(t, g, layers, c, st);
    DfsSound(t, g, layers, c, AssignX(t, g, layers, c, st));
  }

  lemma DfsChildrenSound(t: Tree, g: Graph, layers: seq<nat>, u: nat, cs: seq<nat>, st: Placement)
    requires Linked(t, g, layers) && u < t.Size() && |st.offset| == t.Size()
    requires u in st.x
    requires forall c :: c in cs ==> c < t.Size() && 0 < c && t.parent[c] == u
    requires Distinct(cs)
    requires Sound(t, g, layers, st)
    ensures Sound(t, g, layers, DfsChildren(t, g, layers, u, cs, st))
    decreases t.Size() - u, 0, |cs|
  {
    if cs != [] {
      DistinctTail(cs);
      VisitSound(t, g, layers, cs[0], st);
      DfsChildrenSound(t, g, layers, u, cs[1..], Visit(t, g, layers, cs[0], st));
    }
  }

  /** The positions vertexPositions returns never make two columns overlap:
      wherever the edges into two different vertices pass the same layer
      (the vertices themselves included), their boxes are at least the sum
      of their half widths apart. Every box also lies right of position 0. */
  lemma NoOverlap(t: Tree, g: Graph, layers: seq<nat>)
    requires Linked(t, g, layers)
    ensures Separated(t, g, layers, VertexPositions(t, g, layers))
    ensures forall v: nat :: v < t.Size() ==> VertexPositions(t, g, layers)[v] - HalfWidth(g, v) >= 0.0
  {
    RootSound(t, g, layers);
    var r := Dfs(t, g, layers, 0, Start(t, g));
    assert VertexPositions(t, g, layers) == r.x;
    forall v: nat | v < t.Size()
      ensures r.x[v] - HalfWidth(g, v) >= 0.0
    {
      assert v in r.x;
    }
  }

  /** The placement from the root starts sound and so ends sound. */
  lemma RootSound(t: Tree, g: Graph, layers: seq<nat>)
    requires Linked(t, g, layers)
    ensures Sound(t, g, layers, Dfs(t, g, layers, 0, Start(t, g)))
  {
    var st := Start(t, g);
    assert Sound(t, g, layers, st);
    DfsSound(t, g, layers, 0, st);
  }
}
