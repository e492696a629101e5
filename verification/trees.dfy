/** The original graph as the layouter sees it: a rooted tree whose vertices
    are the enumeration indices 0 .. n-1. Vertex 0 is the root, every parent
    is enumerated before its children, and every non-root vertex has exactly
    one in-edge, from `parent[v]`. */
module Trees {

  /** `parent[v]` is the source of the unique in-edge of `v`; `parent[0]`
      (the root's slot) is never read. */
  datatype Tree = Tree(parent: seq<nat>) {

    function Size(): nat {
      |parent|
    }

    /** The shape the layouter assumes of its input: non-empty, rooted at
        index 0, parents enumerated before their children. */
    predicate Valid() {
      |parent| >= 1 && forall v :: 0 < v < |parent| ==> parent[v] < v
    }
  }

  /** A layer table under which every edge goes strictly downward and every
      layer is one of the `n` slots of the offset table. */
  predicate Layered(t: Tree, layers: seq<nat>)
    requires t.Valid()
  {
    && |layers| == t.Size()
    && (forall v :: 0 <= v < |layers| ==> layers[v] < t.Size())
    && (forall v :: 0 < v < |layers| ==> layers[t.parent[v]] < layers[v])
  }

  /** The number of layers the edge into `v` spans. */
  function Span(t: Tree, layers: seq<nat>, v: nat): nat
    requires t.Valid() && Layered(t, layers) && 0 < v < t.Size()
  {
    layers[v] - layers[t.parent[v]]
  }

  /** `w` lies in the subtree rooted at `a` (`a` itself included). */
  predicate InSubtree(t: Tree, a: nat, w: nat)
    requires t.Valid() && w < t.Size()
    decreases w
  {
    w == a || (a < w && InSubtree(t, a, t.parent[w]))
  }

  /** `w` lies in the subtree of one of the vertices `cs`. */
  predicate InSubtreeOfAny(t: Tree, cs: seq<nat>, w: nat)
    requires t.Valid() && w < t.Size()
  {
    |cs| > 0 && (InSubtree(t, cs[0], w) || InSubtreeOfAny(t, cs[1..], w))
  }

  /** The out-neighbours of `u` at indices `from` and above, in enumeration order. */
  function ChildrenFrom(t: Tree, u: nat, from: nat): (cs: seq<nat>)
    requires t.Valid()
    ensures forall c :: c in cs <==> from <= c < t.Size() && 0 < c && t.parent[c] == u
    ensures forall i :: 0 <= i < |cs| ==> from <= cs[i]
    ensures forall i, j :: 0 <= i < j < |cs| ==> cs[i] < cs[j]
    decreases t.Size() - from
  {
    if from >= t.Size() then []
    else if 0 < from && t.parent[from] == u then [from] + ChildrenFrom(t, u, from + 1)
    else ChildrenFrom(t, u, from + 1)
  }

  /** The out-neighbours of `u` in the original graph. */
  function Children(t: Tree, u: nat): (cs: seq<nat>)
    requires t.Valid()
    ensures forall c :: c in cs <==> c < t.Size() && 0 < c && t.parent[c] == u
    ensures forall i, j :: 0 <= i < j < |cs| ==> cs[i] < cs[j]
  {
    ChildrenFrom(t, u, 0)
  }

  lemma SubtreeBelow(t: Tree, a: nat, w: nat)
    requires t.Valid() && w < t.Size()
    requires InSubtree(t, a, w)
    ensures a <= w
  {
  }

  lemma {:induction false} SubtreeTransitive(t: Tree, a: nat, b: nat, c: nat)
    requires t.Valid() && b < t.Size() && c < t.Size()
    requires InSubtree(t, a, b) && InSubtree(t, b, c)
    ensures InSubtree(t, a, c)
    decreases c
  {
    if c != b {
      SubtreeBelow(t, a, b);
      SubtreeTransitive(t, a, b, t.parent[c]);
    }
  }

  /** The vertices whose subtree holds `w` are exactly the ancestors of `w`,
      and those lie on one path: any two of them are nested. */
  lemma {:induction false} SubtreesNest(t: Tree, a: nat, b: nat, w: nat)
    requires t.Valid() && a < t.Size() && b < t.Size() && w < t.Size()
    ensures InSubtree(t, a, w) && InSubtree(t, b, w) ==> InSubtree(t, a, b) || InSubtree(t, b, a)
    decreases w
  {
    if w != a && w != b && 0 < w {
      SubtreesNest(t, a, b, t.parent[w]);
    }
  }

  /** Every vertex is reachable from the root. */
  lemma {:induction false} RootReachesAll(t: Tree, w: nat)
    requires t.Valid() && w < t.Size()
    ensures InSubtree(t, 0, w)
    decreases w
  {
    if w != 0 {
      RootReachesAll(t, t.parent[w]);
    }
  }

  /** The subtrees of two different children of one vertex share no vertex. */
  lemma SiblingsDisjoint(t: Tree, c1: nat, c2: nat, w: nat)
    requires t.Valid() && c1 < t.Size() && c2 < t.Size() && w < t.Size()
    requires 0 < c1 && 0 < c2 && c1 != c2 && t.parent[c1] == t.parent[c2]
    ensures !(InSubtree(t, c1, w) && InSubtree(t, c2, w))
  {
    SiblingsNotNested(t, c1, c2);
    SubtreesNest(t, c1, c2, w);
  }

  lemma SiblingsNotNested(t: Tree, c1: nat, c2: nat)
    requires t.Valid() && c1 < t.Size() && c2 < t.Size()
    requires 0 < c1 && 0 < c2 && c1 != c2 && t.parent[c1] == t.parent[c2]
    ensures !InSubtree(t, c1, c2)
  {
    if c1 < c2 {
      SubtreeAbove(t, c1, t.parent[c2]);
    }
  }

  lemma SubtreeAbove(t: Tree, a: nat, w: nat)
    requires t.Valid() && w < t.Size() && w < a
    ensures !InSubtree(t, a, w)
  {
  }

  /** A proper descendant `w` of `u` lies in the subtree of exactly the child
      of `u` on the path down to `w`. */
  lemma {:induction false} ChildOnPath(t: Tree, u: nat, w: nat) returns (c: nat)
    requires t.Valid() && w < t.Size()
    requires u != w && InSubtree(t, u, w)
    ensures 0 < c <= w && t.parent[c] == u && InSubtree(t, c, w)
    decreases w
  {
    if t.parent[w] == u {
      c := w;
    } else {
      c := ChildOnPath(t, u, t.parent[w]);
      SubtreeTransitive(t, c, t.parent[w], w);
    }
  }

  /** The subtrees of the children of `u` together hold exactly the proper
      descendants of `u`. */
  lemma ChildrenCoverDescendants(t: Tree, u: nat, cs: seq<nat>, w: nat)
    requires t.Valid() && u < t.Size() && w < t.Size()
    requires forall c :: c in cs <==> c < t.Size() && 0 < c && t.parent[c] == u
    ensures InSubtreeOfAny(t, cs, w) <==> u != w && InSubtree(t, u, w)
  {
    if u != w && InSubtree(t, u, w) {
      var c := ChildOnPath(t, u, w);
      AnyWitness(t, cs, c, w);
    }
    if InSubtreeOfAny(t, cs, w) {
      var c := AnyMember(t, cs, w);
      SubtreeBelow(t, c, w);
      assert InSubtree(t, u, c);
      SubtreeTransitive(t, u, c, w);
    }
  }

  lemma {:induction false} AnyWitness(t: Tree, cs: seq<nat>, c: nat, w: nat)
    requires t.Valid() && w < t.Size()
    requires c in cs && InSubtree(t, c, w)
    ensures InSubtreeOfAny(t, cs, w)
  {
    if cs[0] != c {
      AnyWitness(t, cs[1..], c, w);
    }
  }

  lemma {:induction false} AnyMember(t: Tree, cs: seq<nat>, w: nat) returns (c: nat)
    requires t.Valid() && w < t.Size()
    requires InSubtreeOfAny(t, cs, w)
    ensures c in cs && InSubtree(t, c, w)
  {
    if InSubtree(t, cs[0], w) {
      c := cs[0];
    } else {
      c := AnyMember(t, cs[1..], w);
    }
  }

  /** The subtree of one child of `u` shares no vertex with the subtrees of
      the other children `rest`. */
  lemma {:induction false} SiblingSubtreesApart(t: Tree, u: nat, c: nat, rest: seq<nat>)
    requires t.Valid() && c < t.Size() && 0 < c && t.parent[c] == u
    requires forall d :: d in rest ==> d < t.Size() && 0 < d && t.parent[d] == u && d != c
    decreases |rest|
    ensures forall w: nat :: w < t.Size() && InSubtree(t, c, w) ==> !InSubtreeOfAny(t, rest, w)
  {
    if rest != [] {
      assert rest[0] in rest;
      assert forall d :: d in rest[1..] ==> d in rest;
      SiblingSubtreesApart(t, u, c, rest[1..]);
      forall w: nat | w < t.Size() && InSubtree(t, c, w)
        ensures !InSubtree(t, rest[0], w)
      {
        SiblingsDisjoint(t, c, rest[0], w);
      }
    }
  }

  /** The children of `u`, in any order, cover exactly its proper descendants. */
  lemma ChildrenCoverAll(t: Tree, u: nat, cs: seq<nat>)
    requires t.Valid() && u < t.Size()
    requires forall c :: c in cs <==> c < t.Size() && 0 < c && t.parent[c] == u
    ensures forall w: nat :: w < t.Size() ==> (InSubtreeOfAny(t, cs, w) <==> u != w && InSubtree(t, u, w))
  {
    forall w: nat | w < t.Size()
      ensures InSubtreeOfAny(t, cs, w) <==> u != w && InSubtree(t, u, w)
    {
      ChildrenCoverDescendants(t, u, cs, w);
    }
  }
}
