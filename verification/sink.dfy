/** The sink scan of index.js `vertexPositions`: a backward scan over the
    vertex enumeration that gives every vertex a sink index, which later
    orders the children of each vertex for the depth-first placement. */
module Sink {
  import opened Trees

  /** The inner walk of the scan: starting at `u`, give sink `s` to every
      vertex met while the current vertex has an in-edge (is not the root)
      and holds no sink yet. */
  function ClimbChain(t: Tree, u: nat, s: nat, sink: map<nat, nat>): (r: map<nat, nat>)
    requires t.Valid() && u < t.Size()
    ensures sink.Keys <= r.Keys && forall v :: v in sink ==> r[v] == sink[v]
    ensures forall v :: v in r && v !in sink ==> r[v] == s
    decreases u
  {
    if u == 0 || u in sink then sink
    else ClimbChain(t, t.parent[u], s, sink[u := s])
  }

  /** One step of the scan, at index `v`: a vertex without a sink gets its
      own index and passes it up to its ancestors without one. */
  function ScanAt(t: Tree, v: nat, sink: map<nat, nat>): (r: map<nat, nat>)
    requires t.Valid() && v < t.Size() && 0 in sink
    ensures sink.Keys <= r.Keys && forall w :: w in sink ==> r[w] == sink[w]
  {
    if v in sink then sink
    else ClimbChain(t, t.parent[v], v, sink[v := v])
  }

  /** The scan over indices `i`, `i-1`, ..., `0`. */
  function Scan(t: Tree, i: int, sink: map<nat, nat>): (r: map<nat, nat>)
    requires t.Valid() && i < t.Size() && 0 in sink
    ensures sink.Keys <= r.Keys && forall v :: v in sink ==> r[v] == sink[v]
    decreases i + 1
  {
    if i < 0 then sink
    else Scan(t, i - 1, ScanAt(t, i, sink))
  }

  /** The sink map: the root is given `n-1` first, then the scan runs from
      index `n-1` down to `0`. */
  function Sinks(t: Tree): (r: map<nat, nat>)
    requires t.Valid()
    ensures forall v: nat :: v in r <==> v < t.Size()
    ensures forall v :: v in r ==> r[v] < t.Size()
    ensures r[0] == t.Size() - 1
  {
    RootReachesAll(t, t.Size() - 1);
    ScanSpec(t, t.Size() - 1, map[0 := t.Size() - 1]);
    Scan(t, t.Size() - 1, map[0 := t.Size() - 1])
  }

  // ---------------------------------------------------------------------------
  // Reference definition: the sink of `v` is the largest index in its subtree.

  /** The largest index among `v`, ..., `w` that lies in the subtree of `v`. */
  function LastInSubtree(t: Tree, v: nat, w: nat): (r: nat)
    requires t.Valid() && v <= w < t.Size()
    ensures v <= r <= w && InSubtree(t, v, r)
    ensures forall x :: r < x <= w ==> !InSubtree(t, v, x)
    decreases w
  {
    if InSubtree(t, v, w) then w else LastInSubtree(t, v, w - 1)
  }

  /** The largest index in the subtree of `v`. */
  function SubtreeMax(t: Tree, v: nat): nat
    requires t.Valid() && v < t.Size()
  {
    LastInSubtree(t, v, t.Size() - 1)
  }

  /** A subtree's largest index is at least that of any subtree inside it. */
  lemma SubtreeMaxMonotone(t: Tree, a: nat, b: nat)
    requires t.Valid() && a < t.Size() && b < t.Size()
    ensures InSubtree(t, a, b) ==> SubtreeMax(t, a) >= SubtreeMax(t, b)
  {
    if InSubtree(t, a, b) {
      SubtreeTransitive(t, a, b, SubtreeMax(t, b));
    }
  }

  /** What the scan has built once it has processed the indices above `i`:
      exactly the root and the vertices whose subtree reaches above `i` hold
      a sink, and that sink is their subtree's largest index. */
  ghost predicate ScannedAbove(t: Tree, i: int, sink: map<nat, nat>)
    requires t.Valid()
  {
    && (forall v: nat :: v in sink <==> v < t.Size() && (v == 0 || SubtreeMax(t, v) > i))
    && (forall v: nat :: v in sink && v < t.Size() ==> sink[v] == SubtreeMax(t, v))
  }

  /** The inner walk gives sink `i` exactly to the ancestors of `u`, other
      than the root, whose subtree's largest index is `i`. */
  lemma {:induction false} ClimbChainSpec(t: Tree, u: nat, i: nat, sink: map<nat, nat>)
    requires t.Valid() && u < t.Size() && i < t.Size()
    requires InSubtree(t, u, i) && SubtreeMax(t, u) >= i
    requires forall a: nat :: a < t.Size() && InSubtree(t, a, u) ==> (a in sink <==> a == 0 || SubtreeMax(t, a) > i)
    ensures forall v: nat :: v in ClimbChain(t, u, i, sink) <==>
      v in sink || (v < t.Size() && v != 0 && InSubtree(t, v, u) && SubtreeMax(t, v) == i)
    decreases u
  {
    if u == 0 {
    } else if u in sink {
      forall v: nat | v < t.Size()
        ensures InSubtree(t, v, u) ==> SubtreeMax(t, v) > i
      {
        SubtreeMaxMonotone(t, v, u);
      }
    } else {
      var p := t.parent[u];
      assert InSubtree(t, p, u);
      SubtreeTransitive(t, p, u, i);
      SubtreeMaxMonotone(t, p, u);
      forall a: nat | a < t.Size() && InSubtree(t, a, p)
        ensures InSubtree(t, a, u)
      {
        SubtreeTransitive(t, a, p, u);
      }
      ClimbChainSpec(t, p, i, sink[u := i]);
    }
  }

  /** One step of the scan keeps `ScannedAbove`, one index lower. */
  lemma {:induction false} ScanStep(t: Tree, i: nat, sink: map<nat, nat>)
    requires t.Valid() && i < t.Size() && 0 in sink && ScannedAbove(t, i, sink)
    ensures ScannedAbove(t, i - 1, ScanAt(t, i, sink))
  {
    forall v: nat | v < t.Size()
      ensures SubtreeMax(t, v) == i ==> InSubtree(t, v, i) && SubtreeMax(t, v) >= SubtreeMax(t, i)
    {
      SubtreeMaxMonotone(t, v, i);
    }
    if i !in sink {
      var p := t.parent[i];
      var s' := sink[i := i];
      assert SubtreeMax(t, i) == i;
      SubtreeMaxMonotone(t, p, i);
      forall a: nat | a < t.Size() && InSubtree(t, a, p)
        ensures a != i
      {
        SubtreeBelow(t, a, p);
      }
      ClimbChainSpec(t, p, i, s');
      var r := ClimbChain(t, p, i, s');
      forall v: nat | v < t.Size() && SubtreeMax(t, v) == i && v != i
        ensures InSubtree(t, v, p)
      {
      }
    }
  }

  lemma {:induction false} ScanSpec(t: Tree, i: int, sink: map<nat, nat>)
    requires t.Valid() && -1 <= i < t.Size() && 0 in sink && ScannedAbove(t, i, sink)
    ensures ScannedAbove(t, -1, Scan(t, i, sink))
    decreases i + 1
  {
    if i < 0 {
      assert Scan(t, i, sink) == sink;
    } else {
      var next := ScanAt(t, i, sink);
      ScanStep(t, i, sink);
      ScanSpec(t, i - 1, next);
      assert Scan(t, i, sink) == Scan(t, i - 1, next);
    }
  }

  /** The sink of every vertex is the largest index in its subtree. */
  lemma SinksAreSubtreeMax(t: Tree)
    requires t.Valid()
    ensures forall v: nat :: v < t.Size() ==> Sinks(t)[v] == SubtreeMax(t, v)
  {
    var n := t.Size();
    RootReachesAll(t, n - 1);
    ScanSpec(t, n - 1, map[0 := n - 1]);
  }

  /** A vertex keeps its own index exactly when nothing in its subtree is
      enumerated after it: the scan meets it before any descendant. */
  lemma OwnIndexSink(t: Tree, v: nat)
    requires t.Valid() && v < t.Size()
    ensures Sinks(t)[v] == v ==> forall w: nat :: v < w < t.Size() ==> !InSubtree(t, v, w)
    ensures (forall w: nat :: v < w < t.Size() ==> !InSubtree(t, v, w)) ==> Sinks(t)[v] == v
  {
    SinksAreSubtreeMax(t);
    var m := LastInSubtree(t, v, t.Size() - 1);
    assert Sinks(t)[v] == m;
    if m == v {
      forall w: nat | v < w < t.Size()
        ensures !InSubtree(t, v, w)
      {
      }
    } else {
      assert v < m < t.Size() && InSubtree(t, v, m);
    }
  }

  /** A vertex passes its sink up to its parent when its subtree holds the
      parent's largest index; such a chain of ancestors shares one sink. */
  lemma InheritedSink(t: Tree, v: nat)
    requires t.Valid() && 0 < v < t.Size()
    ensures InSubtree(t, v, Sinks(t)[t.parent[v]]) ==> Sinks(t)[t.parent[v]] == Sinks(t)[v]
  {
    SinksAreSubtreeMax(t);
    var p := t.parent[v];
    assert InSubtree(t, p, v);
    SubtreeMaxMonotone(t, p, v);
  }

  /** Two different children of one vertex never share a sink, so ordering
      children by sink leaves no ties. */
  lemma SiblingSinksDiffer(t: Tree, c1: nat, c2: nat)
    requires t.Valid() && c1 < t.Size() && c2 < t.Size()
    requires 0 < c1 && 0 < c2 && c1 != c2 && t.parent[c1] == t.parent[c2]
    ensures Sinks(t)[c1] != Sinks(t)[c2]
  {
    SinksAreSubtreeMax(t);
    SiblingsDisjoint(t, c1, c2, SubtreeMax(t, c1));
  }
}
