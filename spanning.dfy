/** `Assigement4.py`: the connectivity test, Kruskal's minimum spanning tree
    over a forest of vertex sets, and the leaf search over a depth-first
    cursor. */
module SpanningTree {
  import opened Common
  import opened GraphModel
  import Domain
  import Traversal

  // ----------------------------------------------------------------------
  // is_connected

  /** A subset of a finite set with as many elements is the whole set. */
  lemma SubsetSameSize(A: set<Vertex>, B: set<Vertex>)
    requires A <= B && |A| == |B|
    ensures A == B
  {
    assert B == A + (B - A);
    assert |B - A| == 0;
  }

  /** The vertices of a queue prefix grow by the vertex of the entry added. */
  lemma VisitedStep(out: seq<(Vertex, nat)>, e: (Vertex, nat))
    ensures Elems(Firsts(out + [e])) == Elems(Firsts(out)) + {e.0}
  {
    FirstsAppend(out, [e]);
    assert Firsts([e]) == [e.0];
  }

  /** `is_connected`: a vertex is chosen (at random in the source), the
      breadth-first cursor from it is run to the end, and the answer is
      whether it visited as many vertices as the graph has. An empty graph
      is an error. */
  method IsConnected(g: Domain.Graph) returns (r: Result<bool>, ghost chosen: Vertex)
    requires g.Valid()
    ensures r.Failure? <==> g.adj == map[]
    ensures r.Failure? ==> r.error == EmptyGraph
    ensures r.Success? ==> chosen in g.adj
    ensures r.Success? ==> (r.value <==> forall v :: v in g.adj ==> Reachable(g.adj, chosen, v))
  {
    if g.adj == map[] {
      return Failure(EmptyGraph), "";
    }
    var s :| s in g.adj;
    chosen := s;
    var b := Traversal.BfsIter(g, s);
    var it := b.value;
    var visited: set<Vertex> := {};
    while true
      invariant fresh(it) && it.Valid() && it.adj == g.adj && it.start == s
      invariant visited == Elems(Firsts(it.Output()))
      decreases |g.adj| - it.queueFront
    {
      it.Bounded();
      ghost var before := it.Output();
      var e := it.Next();
      if e.None? {
        break;
      }
      VisitedStep(before, e.value);
      visited := visited + {e.value.0};
    }
    it.Exhausted();
    ConnectedCount(g.adj, s, it.queue, visited);
    r := Success(|visited| == |g.adj|);
  }

  /** The visited set of an exhausted cursor is the set of reachable
      vertices; it has the graph's size exactly when every vertex is reachable. */
  lemma ConnectedCount(adj: Adjacency, s: Vertex, q: seq<(Vertex, nat)>, visited: set<Vertex>)
    requires visited == Elems(Firsts(q))
    requires forall v :: v in Elems(Firsts(q)) <==> Reachable(adj, s, v)
    ensures |visited| == |adj| <==> forall v :: v in adj ==> Reachable(adj, s, v)
  {
    assert visited <= adj.Keys;
    assert |adj.Keys| == |adj|;
    if |visited| == |adj| {
      SubsetSameSize(visited, adj.Keys);
    }
    if forall v :: v in adj ==> Reachable(adj, s, v) {
      assert visited == adj.Keys;
    }
  }

  /** In undirected mode the chosen vertex does not matter: when every
      vertex is reachable from one vertex, every vertex is reachable from
      every other. */
  lemma ConnectedFromAny(adj: Adjacency, s: Vertex, u: Vertex, v: Vertex)
    requires Symmetric(adj) && u in adj && v in adj
    requires forall x :: x in adj ==> Reachable(adj, s, x)
    ensures Reachable(adj, u, v)
  {
    ReachSym(adj, s, u);
    ReachTrans(adj, u, s, v);
  }

  /** Every vertex reaches every vertex. */
  ghost predicate Connected(adj: Adjacency) {
    forall u, v :: u in adj && v in adj ==> Reachable(adj, u, v)
  }

  /** In undirected mode the answer of `is_connected` does not depend on the
      chosen vertex: every vertex reachable from it means connected. */
  lemma ConnectedIff(adj: Adjacency, s: Vertex)
    requires Symmetric(adj) && s in adj
    ensures Connected(adj) <==> forall v :: v in adj ==> Reachable(adj, s, v)
  {
    if forall v :: v in adj ==> Reachable(adj, s, v) {
      forall u, v | u in adj && v in adj ensures Reachable(adj, u, v) {
        ConnectedFromAny(adj, s, u, v);
      }
    }
  }
  // ----------------------------------------------------------------------
  // The edge list of min_spanning_tree

  /** An entry of the list `min_spanning_tree` sorts: `(v1, v2, weight)`. */
  datatype Edge = Edge(u: Vertex, v: Vertex, weight: int)

  /** The arcs leaving `u`, in list order. */
  function RowArcs(adj: Adjacency, u: Vertex): (r: seq<(Vertex, Vertex)>)
    requires u in adj
    ensures |r| == |adj[u]| && forall k :: 0 <= k < |r| ==> r[k] == (u, adj[u][k])
  {
    seq(|adj[u]|, k requires 0 <= k < |adj[u]| => (u, adj[u][k]))
  }

  /** The arcs leaving the vertices of `vs`, in the order the two nested
      loops over the vertex list and each neighbour list meet them. */
  function ArcList(adj: Adjacency, vs: seq<Vertex>): seq<(Vertex, Vertex)>
    requires forall v :: v in vs ==> v in adj
    decreases |vs|
  {
    if vs == [] then [] else ArcList(adj, vs[..|vs| - 1]) + RowArcs(adj, vs[|vs| - 1])
  }

  /** The pairs the loops keep: an arc is skipped when it, or its reverse,
      was kept before (the `seen` set). */
  function Select(ps: seq<(Vertex, Vertex)>): seq<(Vertex, Vertex)>
    decreases |ps|
  {
    if ps == [] then []
    else
      var kept := Select(ps[..|ps| - 1]);
      var p := ps[|ps| - 1];
      if p in kept || (p.1, p.0) in kept then kept else kept + [p]
  }

  /** The endpoint pairs of an edge list. */
  function Pairs(es: seq<Edge>): (r: seq<(Vertex, Vertex)>)
    ensures |r| == |es| && forall k :: 0 <= k < |es| ==> r[k] == (es[k].u, es[k].v)
  {
    seq(|es|, k requires 0 <= k < |es| => (es[k].u, es[k].v))
  }

  /** The weight table has an entry for the arc `p`. */
  ghost predicate Weighed(w: WeightTable, p: (Vertex, Vertex)) {
    p.0 in w && p.1 in w[p.0]
  }

  /** Every edge of the list carries the stored weight of its arc. */
  ghost predicate WeightsFrom(es: seq<Edge>, w: WeightTable) {
    forall k :: 0 <= k < |es| ==> Weighed(w, (es[k].u, es[k].v)) && es[k].weight == w[es[k].u][es[k].v]
  }

  /** No pair is kept twice, and no pair together with its reverse: every
      undirected edge is listed once. */
  ghost predicate OncePerEdge(s: seq<(Vertex, Vertex)>) {
    forall i, j :: 0 <= i < j < |s| ==> s[j] != s[i] && s[j] != (s[i].1, s[i].0)
  }

  /** The arc list holds exactly the arcs leaving the vertices of `vs`. */
  lemma {:induction false} ArcListMembers(adj: Adjacency, vs: seq<Vertex>, p: (Vertex, Vertex))
    requires forall v :: v in vs ==> v in adj
    ensures p in ArcList(adj, vs) <==> p.0 in vs && p.1 in adj[p.0]
    decreases |vs|
  {
    if vs != [] {
      var pre, last := vs[..|vs| - 1], vs[|vs| - 1];
      assert vs == pre + [last];
      ArcListMembers(adj, pre, p);
      assert p in RowArcs(adj, last) <==> p.0 == last && p.1 in adj[last] by {
        if p.0 == last && p.1 in adj[last] {
          var k :| 0 <= k < |adj[last]| && adj[last][k] == p.1;
          assert RowArcs(adj, last)[k] == p;
        }
      }
    }
  }

  /** Every kept pair is an arc of the input. */
  lemma {:induction false} SelectFrom(ps: seq<(Vertex, Vertex)>, p: (Vertex, Vertex))
    requires p in Select(ps)
    ensures p in ps
    decreases |ps|
  {
    var pre := ps[..|ps| - 1];
    assert ps == pre + [ps[|ps| - 1]];
    if p in Select(pre) {
      SelectFrom(pre, p);
    }
  }

  /** Every arc of the input is kept, itself or reversed. */
  lemma {:induction false} SelectCovers(ps: seq<(Vertex, Vertex)>, p: (Vertex, Vertex))
    requires p in ps
    ensures p in Select(ps) || (p.1, p.0) in Select(ps)
    decreases |ps|
  {
    var pre := ps[..|ps| - 1];
    assert ps == pre + [ps[|ps| - 1]];
    if p != ps[|ps| - 1] {
      SelectCovers(pre, p);
    }
  }

  /** Keeping is monotone: a pair kept from a prefix stays kept. */
  lemma {:induction false} SelectGrows(P: seq<(Vertex, Vertex)>, Q: seq<(Vertex, Vertex)>, p: (Vertex, Vertex))
    requires p in Select(P)
    ensures p in Select(P + Q)
    decreases |Q|
  {
    if Q == [] {
      assert P + Q == P;
    } else {
      var Q' := Q[..|Q| - 1];
      assert (P + Q)[..|P + Q| - 1] == P + Q';
      SelectGrows(P, Q', p);
    }
  }

  /** Each undirected edge is kept once. */
  lemma {:induction false} SelectOnce(ps: seq<(Vertex, Vertex)>)
    ensures OncePerEdge(Select(ps))
    decreases |ps|
  {
    if ps != [] {
      SelectOnce(ps[..|ps| - 1]);
    }
  }

  /** One more arc of a row. */
  lemma SelectRowStep(P: seq<(Vertex, Vertex)>, R: seq<(Vertex, Vertex)>, j: nat)
    requires j < |R|
    ensures var kept := Select(P + R[..j]);
      Select(P + R[..j + 1]) == if R[j] in kept || (R[j].1, R[j].0) in kept then kept else kept + [R[j]]
  {
    assert (P + R[..j + 1])[..|P + R[..j + 1]| - 1] == P + R[..j];
  }

  /** One more arc of a row, as the inner loop sees it through `seen`. */
  lemma KeepStep(P: seq<(Vertex, Vertex)>, R: seq<(Vertex, Vertex)>, j: nat, kept: seq<(Vertex, Vertex)>,
                 seen: set<(Vertex, Vertex)>, v1: Vertex, v2: Vertex)
    requires j < |R| && R[j] == (v1, v2)
    requires kept == Select(P + R[..j]) && seen == Elems(kept)
    ensures (v1, v2) in seen || (v2, v1) in seen ==> Select(P + R[..j + 1]) == kept
    ensures !((v1, v2) in seen || (v2, v1) in seen) ==> Select(P + R[..j + 1]) == kept + [(v1, v2)]
  {
    SelectRowStep(P, R, j);
  }

  lemma WeightsFromAppend(es: seq<Edge>, e: Edge, w: WeightTable)
    requires WeightsFrom(es, w) && Weighed(w, (e.u, e.v)) && e.weight == w[e.u][e.v]
    ensures WeightsFrom(es + [e], w)
  {
  }

  /** One more vertex of the list. */
  lemma ArcListStep(adj: Adjacency, vs: seq<Vertex>, i: nat)
    requires i < |vs| && forall v :: v in vs ==> v in adj
    ensures ArcList(adj, vs[..i + 1]) == ArcList(adj, vs[..i]) + RowArcs(adj, vs[i])
  {
    assert vs[..i + 1][..i] == vs[..i];
  }

  /** A pair kept from the arcs met so far is kept from all arcs. */
  lemma KeptForGood(adj: Adjacency, vs: seq<Vertex>, i: nat, j: nat, p: (Vertex, Vertex))
    requires i < |vs| && forall v :: v in vs ==> v in adj
    requires j < |adj[vs[i]]|
    requires p in Select(ArcList(adj, vs[..i]) + RowArcs(adj, vs[i])[..j + 1])
    ensures p in Select(ArcList(adj, vs))
  {
    var P, R, rest := ArcList(adj, vs[..i]), RowArcs(adj, vs[i]), ArcList(adj, vs[i + 1..]);
    assert vs == vs[..i + 1] + vs[i + 1..];
    ArcListAppend(adj, vs[..i + 1], vs[i + 1..]);
    ArcListStep(adj, vs, i);
    SplitRow(P, R, rest, j);
    SelectGrows(P + R[..j + 1], R[j + 1..] + rest, p);
  }

  lemma SplitRow<T>(P: seq<T>, R: seq<T>, rest: seq<T>, j: nat)
    requires j < |R|
    ensures (P + R) + rest == (P + R[..j + 1]) + (R[j + 1..] + rest)
  {
    assert R == R[..j + 1] + R[j + 1..];
  }

  lemma {:induction false} ArcListAppend(adj: Adjacency, a: seq<Vertex>, b: seq<Vertex>)
    requires forall v :: v in a + b ==> v in adj
    ensures ArcList(adj, a + b) == ArcList(adj, a) + ArcList(adj, b)
    decreases |b|
  {
    if b == [] {
      assert a + b == a;
    } else {
      var b', x := b[..|b| - 1], b[|b| - 1];
      assert (a + b)[..|a + b| - 1] == a + b';
      assert (a + b)[|a + b| - 1] == x;
      ArcListAppend(adj, a, b');
      assert ArcList(adj, a + b) == ArcList(adj, a + b') + RowArcs(adj, x);
      assert ArcList(adj, b) == ArcList(adj, b') + RowArcs(adj, x);
    }
  }

  /** One more edge in the list. */
  lemma PairsAppend(es: seq<Edge>, e: Edge)
    ensures Pairs(es + [e]) == Pairs(es) + [(e.u, e.v)]
    ensures Elems(Pairs(es + [e])) == Elems(Pairs(es)) + {(e.u, e.v)}
  {
    assert Pairs(es + [e]) == Pairs(es) + [(e.u, e.v)];
  }

  /** One pass of the inner loop: the arc v1 -> v2 is listed, with its
      weight, unless it or its reverse was listed before. */
  method KeepArc(g: Domain.Graph, v1: Vertex, v2: Vertex, es0: seq<Edge>, seen0: set<(Vertex, Vertex)>)
    returns (r: Outcome, es: seq<Edge>, seen: set<(Vertex, Vertex)>)
    requires !g.isDirected && g.isWeighted && v1 in g.adj && v2 in g.adj[v1] && v2 in g.adj && v1 in g.adj[v2]
    requires seen0 == Elems(Pairs(es0)) && WeightsFrom(es0, g.weights)
    ensures r.Fail? ==> r.error == MissingKey && !Weighed(g.weights, (v1, v2))
    ensures r.Fail? ==> (v1, v2) !in seen0 && (v2, v1) !in seen0
    ensures r.Pass? ==> seen == Elems(Pairs(es)) && WeightsFrom(es, g.weights)
    ensures r.Pass? && ((v1, v2) in seen0 || (v2, v1) in seen0) ==> es == es0
    ensures r.Pass? && !((v1, v2) in seen0 || (v2, v1) in seen0) ==> Pairs(es) == Pairs(es0) + [(v1, v2)]
  {
    es, seen := es0, seen0;
    if (v1, v2) !in seen && (v2, v1) !in seen {
      seen := seen + {(v1, v2)};
      var w := g.GetWeight(v1, v2);
      if w.Failure? {
        return Fail(MissingKey), es, seen;
      }
      PairsAppend(es, Edge(v1, v2, w.value));
      WeightsFromAppend(es, Edge(v1, v2, w.value), g.weights);
      es := es + [Edge(v1, v2, w.value)];
    }
    r := Pass;
  }

  /** The inner loop over the neighbours of `vs[i]`. */
  method CollectRow(g: Domain.Graph, vs: seq<Vertex>, i: nat, es0: seq<Edge>, seen0: set<(Vertex, Vertex)>)
    returns (r: Outcome, es: seq<Edge>, seen: set<(Vertex, Vertex)>)
    requires Closed(g.adj) && Symmetric(g.adj) && !g.isDirected && g.isWeighted
    requires i < |vs| && forall v :: v in vs ==> v in g.adj
    requires Pairs(es0) == Select(ArcList(g.adj, vs[..i])) && seen0 == Elems(Pairs(es0))
    requires WeightsFrom(es0, g.weights)
    ensures r.Pass? ==> Pairs(es) == Select(ArcList(g.adj, vs[..i + 1])) && seen == Elems(Pairs(es))
    ensures r.Pass? ==> WeightsFrom(es, g.weights)
    ensures r.Fail? ==> r.error == MissingKey
    ensures r.Fail? ==> exists p :: p in Select(ArcList(g.adj, vs)) && !Weighed(g.weights, p)
  {
    var v1 := vs[i];
    var ns := g.Neighbours(v1).value;
    ghost var P := ArcList(g.adj, vs[..i]);
    ghost var R := RowArcs(g.adj, v1);
    assert P + R[..0] == P;
    es, seen := es0, seen0;
    var j := 0;
    while j < |ns|
      invariant 0 <= j <= |ns|
      invariant Pairs(es) == Select(P + R[..j]) && seen == Elems(Pairs(es))
      invariant WeightsFrom(es, g.weights)
    {
      var v2 := ns[j];
      KeepStep(P, R, j, Pairs(es), seen, v1, v2);
      var o;
      o, es, seen := KeepArc(g, v1, v2, es, seen);
      if o.Fail? {
        KeptForGood(g.adj, vs, i, j, (v1, v2));
        return o, es, seen;
      }
      j := j + 1;
    }
    assert R[..j] == R;
    ArcListStep(g.adj, vs, i);
    r := Pass;
  }

  /** The two nested loops of `min_spanning_tree` that list every edge once
      with its weight (`get_weight` raises for a self-loop whose weight was
      dropped). */
  method CollectEdges(g: Domain.Graph) returns (r: Result<seq<Edge>>)
    requires g.Valid() && !g.isDirected && g.isWeighted
    ensures r.Success? <==> forall p :: p in Select(ArcList(g.adj, g.vertices)) ==> Weighed(g.weights, p)
    ensures r.Success? ==> Pairs(r.value) == Select(ArcList(g.adj, g.vertices)) && WeightsFrom(r.value, g.weights)
    ensures r.Failure? ==> r.error == MissingKey
  {
    var vs := g.ReturnVerticesList();
    var es: seq<Edge> := [];
    var seen: set<(Vertex, Vertex)> := {};
    assert vs[..0] == [];
    var i := 0;
    while i < |vs|
      invariant 0 <= i <= |vs|
      invariant Pairs(es) == Select(ArcList(g.adj, vs[..i])) && seen == Elems(Pairs(es))
      invariant WeightsFrom(es, g.weights)
    {
      var o;
      o, es, seen := CollectRow(g, vs, i, es, seen);
      if o.Fail? {
        return Failure(o.error);
      }
      i := i + 1;
    }
    assert vs[..i] == vs;
    r := Success(es);
  }

  // ----------------------------------------------------------------------
  // sorted_edges.sort(key = lambda x : x[2])

  /** `e` placed after every edge of `s` that is not heavier: the step of a
      stable insertion sort. */
  function Insert(s: seq<Edge>, e: Edge): seq<Edge>
    decreases |s|
  {
    if s == [] || s[|s| - 1].weight <= e.weight then s + [e]
    else Insert(s[..|s| - 1], e) + [s[|s| - 1]]
  }

  /** Python's `list.sort` with a key is stable: the list ordered by weight,
      edges of equal weight kept in their input order. */
  function SortByWeight(es: seq<Edge>): seq<Edge>
    decreases |es|
  {
    if es == [] then [] else Insert(SortByWeight(es[..|es| - 1]), es[|es| - 1])
  }

  /** Weights never decrease along the list. */
  ghost predicate WeightSorted(s: seq<Edge>) {
    forall i :: 0 < i < |s| ==> s[i - 1].weight <= s[i].weight
  }

  /** The edges of weight `x`, in list order. */
  function WithWeight(s: seq<Edge>, x: int): seq<Edge>
    decreases |s|
  {
    if s == [] then []
    else WithWeight(s[..|s| - 1], x) + (if s[|s| - 1].weight == x then [s[|s| - 1]] else [])
  }

  lemma {:induction false} WithWeightAppend(s: seq<Edge>, t: seq<Edge>, x: int)
    ensures WithWeight(s + t, x) == WithWeight(s, x) + WithWeight(t, x)
    decreases |t|
  {
    if t == [] {
      assert s + t == s;
    } else {
      var t' := t[..|t| - 1];
      assert (s + t)[..|s + t| - 1] == s + t';
      WithWeightAppend(s, t', x);
    }
  }

  /** Inserting adds exactly `e`; the last edge is `e` or the old last edge. */
  lemma {:induction false} InsertAdds(s: seq<Edge>, e: Edge)
    ensures var r := Insert(s, e);
      && |r| == |s| + 1 && multiset(r) == multiset(s) + multiset{e}
      && (r[|s|] == e || (s != [] && r[|s|] == s[|s| - 1]))
    decreases |s|
  {
    if s != [] && s[|s| - 1].weight > e.weight {
      var pre, last := s[..|s| - 1], s[|s| - 1];
      assert s == pre + [last];
      InsertAdds(pre, e);
    }
  }

  lemma SortedAppend(m: seq<Edge>, x: Edge)
    requires WeightSorted(m) && (m != [] ==> m[|m| - 1].weight <= x.weight)
    ensures WeightSorted(m + [x])
  {
  }

  /** Inserting keeps the list sorted. */
  lemma {:induction false} InsertSorted(s: seq<Edge>, e: Edge)
    requires WeightSorted(s)
    ensures WeightSorted(Insert(s, e))
    decreases |s|
  {
    if s == [] || s[|s| - 1].weight <= e.weight {
      SortedAppend(s, e);
    } else {
      var pre, last := s[..|s| - 1], s[|s| - 1];
      assert WeightSorted(pre);
      InsertSorted(pre, e);
      InsertAdds(pre, e);
      SortedAppend(Insert(pre, e), last);
    }
  }

  /** Inserting `e` appends it to the edges of its weight and leaves the
      other weights alone. */
  lemma {:induction false} InsertStable(s: seq<Edge>, e: Edge, x: int)
    ensures WithWeight(Insert(s, e), x) == WithWeight(s, x) + WithWeight([e], x)
    decreases |s|
  {
    if s == [] || s[|s| - 1].weight <= e.weight {
      WithWeightAppend(s, [e], x);
    } else {
      var pre, last := s[..|s| - 1], s[|s| - 1];
      InsertStable(pre, e, x);
      WithWeightAppend(Insert(pre, e), [last], x);
      assert [last][..0] == [] && [e][..0] == [];
      assert WithWeight(s, x) == WithWeight(pre, x) + WithWeight([last], x);
    }
  }

  /** The sorted list is ordered by weight and is a permutation of the input. */
  lemma {:induction false} SortByWeightSorts(es: seq<Edge>)
    ensures WeightSorted(SortByWeight(es)) && multiset(SortByWeight(es)) == multiset(es)
    decreases |es|
  {
    if es != [] {
      var pre := es[..|es| - 1];
      assert es == pre + [es[|es| - 1]];
      SortByWeightSorts(pre);
      InsertAdds(SortByWeight(pre), es[|es| - 1]);
      InsertSorted(SortByWeight(pre), es[|es| - 1]);
    }
  }

  /** The sort is stable: for every weight, the edges of that weight come
      out in their input order. */
  lemma {:induction false} SortByWeightStable(es: seq<Edge>, x: int)
    ensures WithWeight(SortByWeight(es), x) == WithWeight(es, x)
    decreases |es|
  {
    if es != [] {
      var pre, last := es[..|es| - 1], es[|es| - 1];
      SortByWeightStable(pre, x);
      InsertStable(SortByWeight(pre), last, x);
      assert [last][..0] == [];
    }
  }

  // ----------------------------------------------------------------------
  // The forest of min_spanning_tree

  /** The starting forest `[{v} for v in graph.return_vertices_list()]`. */
  function Singletons(vs: seq<Vertex>): (F: seq<set<Vertex>>)
    ensures |F| == |vs| && forall k :: 0 <= k < |vs| ==> F[k] == {vs[k]}
  {
    seq(|vs|, k requires 0 <= k < |vs| => {vs[k]})
  }

  /** The first tree of the forest holding `v`, which `find_tree` returns;
      `None` when no tree holds it. */
  function TreeOf(F: seq<set<Vertex>>, v: Vertex): (r: Option<set<Vertex>>)
    ensures r.Some? ==> r.value in F && v in r.value
    ensures r.None? ==> forall k :: 0 <= k < |F| ==> v !in F[k]
    decreases |F|
  {
    if F == [] then None else if v in F[0] then Some(F[0]) else TreeOf(F[1..], v)
  }

  /** `find_tree`: the loop over the forest that returns the first tree
      holding the vertex. */
  method FindTree(F: seq<set<Vertex>>, v: Vertex) returns (r: Option<set<Vertex>>)
    ensures r == TreeOf(F, v)
  {
    var k := 0;
    while k < |F|
      invariant 0 <= k <= |F| && TreeOf(F, v) == TreeOf(F[k..], v)
    {
      if v in F[k] {
        return Some(F[k]);
      }
      assert F[k..][1..] == F[k + 1..];
      k := k + 1;
    }
    r := None;
  }

  /** The trees are non-empty sets of vertices of `V`, pairwise disjoint,
      none listed twice, and every vertex of `V` is in one. */
  ghost predicate Partition(F: seq<set<Vertex>>, V: set<Vertex>) {
    && NoDup(F)
    && (forall B :: B in F ==> B != {} && B <= V)
    && (forall B, C :: B in F && C in F && B != C ==> B !! C)
    && (forall v :: v in V ==> TreeOf(F, v).Some?)
  }

  /** In a partition, `find_tree` finds the one tree holding the vertex. */
  lemma PartitionTree(F: seq<set<Vertex>>, V: set<Vertex>, B: set<Vertex>, v: Vertex)
    requires Partition(F, V) && B in F && v in B
    ensures TreeOf(F, v) == Some(B)
  {
    var k :| 0 <= k < |F| && F[k] == B;
    assert TreeOf(F, v).Some?;
  }

  /** `make_union`: both trees are removed from the forest and their union
      is appended. */
  function MakeUnion(F: seq<set<Vertex>>, B1: set<Vertex>, B2: set<Vertex>): seq<set<Vertex>>
    requires B1 in F && B2 in RemoveFirst(F, B1)
  {
    RemoveFirst(RemoveFirst(F, B1), B2) + [B1 + B2]
  }

  /** Two different trees of a partition can be merged: the second is
      still there once the first is removed. */
  lemma CanUnite(F: seq<set<Vertex>>, V: set<Vertex>, B1: set<Vertex>, B2: set<Vertex>)
    requires Partition(F, V) && B1 in F && B2 in F && B1 != B2
    ensures B2 in RemoveFirst(F, B1)
  {
    RemoveFirstElems(F, B1);
  }

  lemma NotUnion(C: set<Vertex>, B1: set<Vertex>, B2: set<Vertex>)
    requires C !! B1 && B1 != {}
    ensures C != B1 + B2
  {
    var y :| y in B1;
    assert y in B1 + B2 && y !in C;
  }

  /** The trees of the merged forest: the union, and the other trees. */
  lemma MakeUnionTrees(F: seq<set<Vertex>>, V: set<Vertex>, B1: set<Vertex>, B2: set<Vertex>)
    requires Partition(F, V) && B1 in F && B2 in F && B1 != B2
    ensures B2 in RemoveFirst(F, B1)
    ensures var F' := MakeUnion(F, B1, B2);
      && NoDup(F') && |F'| == |F| - 1
      && Elems(F') == Elems(F) - {B1, B2} + {B1 + B2}
  {
    CanUnite(F, V, B1, B2);
    var G1 := RemoveFirst(F, B1);
    RemoveFirstNoDup(F, B1);
    RemoveFirstElems(F, B1);
    var G2 := RemoveFirst(G1, B2);
    RemoveFirstNoDup(G1, B2);
    RemoveFirstElems(G1, B2);
    assert Elems(G2) == Elems(F) - {B1, B2};
    var U := B1 + B2;
    forall C | C in G2 ensures C != U {
      assert C in Elems(G2);
      NotUnion(C, B1, B2);
    }
    NoDupAppend(G2, U);
  }

  /** The trees of a forest obtained from a partition by replacing two
      trees with their union. */
  ghost predicate Merged(F: seq<set<Vertex>>, F': seq<set<Vertex>>, B1: set<Vertex>, B2: set<Vertex>) {
    forall B :: B in F' <==> (B in F && B != B1 && B != B2) || B == B1 + B2
  }

  lemma MergedDisjoint(F: seq<set<Vertex>>, F': seq<set<Vertex>>, V: set<Vertex>, B1: set<Vertex>, B2: set<Vertex>)
    requires Partition(F, V) && B1 in F && B2 in F && Merged(F, F', B1, B2)
    ensures forall B, C :: B in F' && C in F' && B != C ==> B !! C
  {
  }

  lemma MergedCovers(F: seq<set<Vertex>>, F': seq<set<Vertex>>, V: set<Vertex>, B1: set<Vertex>, B2: set<Vertex>)
    requires Partition(F, V) && B1 in F && B2 in F && Merged(F, F', B1, B2)
    ensures forall v :: v in V ==> TreeOf(F', v).Some?
  {
    forall v | v in V ensures TreeOf(F', v).Some? {
      var C := TreeOf(F, v).value;
      if C == B1 || C == B2 {
        assert v in B1 + B2 && B1 + B2 in F';
        var k :| 0 <= k < |F'| && F'[k] == B1 + B2;
      } else {
        var k :| 0 <= k < |F'| && F'[k] == C;
      }
    }
  }

  /** Merging two different trees keeps a partition and removes one tree. */
  lemma MakeUnionPartition(F: seq<set<Vertex>>, V: set<Vertex>, B1: set<Vertex>, B2: set<Vertex>)
    requires Partition(F, V) && B1 in F && B2 in F && B1 != B2
    ensures B2 in RemoveFirst(F, B1)
    ensures Partition(MakeUnion(F, B1, B2), V) && |MakeUnion(F, B1, B2)| == |F| - 1
    ensures B1 + B2 in MakeUnion(F, B1, B2)
  {
    MakeUnionTrees(F, V, B1, B2);
    var F' := MakeUnion(F, B1, B2);
    assert F'[|F'| - 1] == B1 + B2;
    assert Merged(F, F', B1, B2) by {
      forall B ensures B in F' <==> B in Elems(F') {
      }
    }
    MergedDisjoint(F, F', V, B1, B2);
    MergedCovers(F, F', V, B1, B2);
  }

  /** After the merge the vertices of the two trees are found in their
      union, and every other vertex where it was. */
  lemma MakeUnionTreeOf(F: seq<set<Vertex>>, V: set<Vertex>, B1: set<Vertex>, B2: set<Vertex>, x: Vertex)
    requires Partition(F, V) && B1 in F && B2 in F && B1 != B2
    ensures B2 in RemoveFirst(F, B1)
    ensures TreeOf(MakeUnion(F, B1, B2), x) == if x in B1 || x in B2 then Some(B1 + B2) else TreeOf(F, x)
  {
    MakeUnionPartition(F, V, B1, B2);
    MakeUnionTrees(F, V, B1, B2);
    var F' := MakeUnion(F, B1, B2);
    if x in B1 || x in B2 {
      PartitionTree(F', V, B1 + B2, x);
    } else if TreeOf(F, x).Some? {
      var C := TreeOf(F, x).value;
      assert C in Elems(F');
      PartitionTree(F', V, C, x);
    } else {
      forall k | 0 <= k < |F'| ensures x !in F'[k] {
        assert F'[k] in Elems(F');
      }
    }
  }

  // ----------------------------------------------------------------------
  // The loop of min_spanning_tree

  /** `x` is the input's weight of the edge u-v, read in either direction. */
  ghost predicate InputWeight(gw: WeightTable, u: Vertex, v: Vertex, x: int) {
    || (u in gw && v in gw[u] && gw[u][v] == x)
    || (v in gw && u in gw[v] && gw[v][u] == x)
  }

  /** Every arc of the tree is an arc of the input and carries its weight. */
  ghost predicate TreeFromInput(tadj: Adjacency, tw: WeightTable, gadj: Adjacency, gw: WeightTable) {
    forall u, v :: u in tadj && v in tadj[u] ==>
      u in gadj && v in gadj[u] && u in tw && v in tw[u] && InputWeight(gw, u, v, tw[u][v])
  }

  /** Every arc of the tree joins two vertices of one tree of the forest. */
  ghost predicate ArcsInTrees(tadj: Adjacency, F: seq<set<Vertex>>) {
    forall u, v :: u in tadj && v in tadj[u] ==> TreeOf(F, u) == TreeOf(F, v)
  }

  /** The vertices of each tree of the forest are connected in the tree graph. */
  ghost predicate TreesConnected(tadj: Adjacency, F: seq<set<Vertex>>, V: set<Vertex>) {
    forall a, b :: a in V && b in V && TreeOf(F, a) == TreeOf(F, b) ==> Reachable(tadj, a, b)
  }

  /** The first `i` sorted edges join vertices of one tree. */
  ghost predicate Processed(sorted: seq<Edge>, i: nat, F: seq<set<Vertex>>)
    requires i <= |sorted|
  {
    forall k :: 0 <= k < i ==> TreeOf(F, sorted[k].u) == TreeOf(F, sorted[k].v)
  }

  /** Every sorted edge is an arc of the input with its stored weight. */
  ghost predicate InputEdges(sorted: seq<Edge>, gadj: Adjacency, gw: WeightTable) {
    forall k :: 0 <= k < |sorted| ==>
      sorted[k].u in gadj && sorted[k].v in gadj[sorted[k].u] &&
      Weighed(gw, (sorted[k].u, sorted[k].v)) && sorted[k].weight == gw[sorted[k].u][sorted[k].v]
  }

  /** Every arc of the input is listed, in one direction or the other. */
  ghost predicate CoversArcs(sorted: seq<Edge>, gadj: Adjacency) {
    forall u, v :: u in gadj && v in gadj[u] ==> (u, v) in Pairs(sorted) || (v, u) in Pairs(sorted)
  }

  /** The invariant of Kruskal's loop over the state of the tree graph
      `t` (vertex list `tvs`, tables `tadj`, `tw`), the forest `F` and the
      position `i` in the sorted edges. */
  ghost predicate KruskalInv(V: set<Vertex>, gadj: Adjacency, gw: WeightTable, sorted: seq<Edge>, i: nat,
                             tvs: seq<Vertex>, tadj: Adjacency, tw: WeightTable, F: seq<set<Vertex>>) {
    && i <= |sorted|
    && Partition(F, V)
    && KeyOrder(tvs, tadj) && tadj.Keys == V
    && ArcsInTrees(tadj, F)
    && TreesConnected(tadj, F, V)
    && Processed(sorted, i, F)
    && TreeFromInput(tadj, tw, gadj, gw)
    && NoSelfLoops(tadj)
    && SumLengths(tadj, tvs) == 2 * (|V| - |F|)
  }

  /** A vertex is in one of the two trees exactly when `find_tree` returns one of them. */
  lemma InTrees(F: seq<set<Vertex>>, V: set<Vertex>, B1: set<Vertex>, B2: set<Vertex>, x: Vertex)
    requires Partition(F, V) && B1 in F && B2 in F
    ensures x in B1 <==> TreeOf(F, x) == Some(B1)
    ensures x in B2 <==> TreeOf(F, x) == Some(B2)
  {
    if x in B1 {
      PartitionTree(F, V, B1, x);
    }
    if x in B2 {
      PartitionTree(F, V, B2, x);
    }
  }

  /** Two vertices of one tree stay in one tree after a merge. */
  lemma StaySameTree(F: seq<set<Vertex>>, V: set<Vertex>, B1: set<Vertex>, B2: set<Vertex>, x: Vertex, y: Vertex)
    requires Partition(F, V) && B1 in F && B2 in F && B1 != B2
    requires TreeOf(F, x) == TreeOf(F, y)
    ensures B2 in RemoveFirst(F, B1)
    ensures TreeOf(MakeUnion(F, B1, B2), x) == TreeOf(MakeUnion(F, B1, B2), y)
  {
    InTrees(F, V, B1, B2, x);
    InTrees(F, V, B1, B2, y);
    MakeUnionTreeOf(F, V, B1, B2, x);
    MakeUnionTreeOf(F, V, B1, B2, y);
  }

  /** The arcs after `add_edge(a, b)` in undirected mode. */
  lemma NewArcs(adj: Adjacency, a: Vertex, b: Vertex, u: Vertex, v: Vertex)
    requires a in adj && b in adj
    ensures AddEdgeArcs(adj, a, b, false).Keys == adj.Keys
    ensures u in adj && v in AddEdgeArcs(adj, a, b, false)[u] <==>
      (u in adj && v in adj[u]) || (u == a && v == b) || (u == b && v == a)
  {
    var a1 := AddArc(adj, a, b);
    assert a1[a] == adj[a] + [b];
    var a2 := AddArc(a1, b, a);
    assert a2[b] == a1[b] + [a];
  }

  /** Adding an edge only adds arcs. */
  lemma AddEdgeGrows(adj: Adjacency, a: Vertex, b: Vertex)
    requires a in adj && b in adj
    ensures ArcsWithin(adj, AddEdgeArcs(adj, a, b, false))
  {
    forall u, v | u in adj && v in adj[u] ensures v in AddEdgeArcs(adj, a, b, false)[u] {
      NewArcs(adj, a, b, u, v);
    }
  }

  /** The facts Kruskal's loop needs to add the edge `sorted[i]` whose
      endpoints lie in two different trees: `add_edge` succeeds (both
      endpoints are vertices of `t`, there is no arc between them yet) and
      `make_union` finds both trees. */
  lemma JoinReady(V: set<Vertex>, gadj: Adjacency, gw: WeightTable, sorted: seq<Edge>, i: nat,
                  tvs: seq<Vertex>, tadj: Adjacency, tw: WeightTable, F: seq<set<Vertex>>)
    requires KruskalInv(V, gadj, gw, sorted, i, tvs, tadj, tw, F)
    requires InputEdges(sorted, gadj, gw) && gadj.Keys == V && Closed(gadj)
    requires i < |sorted| && TreeOf(F, sorted[i].u) != TreeOf(F, sorted[i].v)
    ensures var e := sorted[i];
      && e.u in tadj && e.v in tadj && e.v !in tadj[e.u] && e.u != e.v
      && TreeOf(F, e.u).Some? && TreeOf(F, e.v).Some?
      && TreeOf(F, e.u).value in F && TreeOf(F, e.v).value in F
      && TreeOf(F, e.u).value != TreeOf(F, e.v).value
      && TreeOf(F, e.v).value in RemoveFirst(F, TreeOf(F, e.u).value)
  {
    var e := sorted[i];
    assert e.u in V && e.v in V;
    CanUnite(F, V, TreeOf(F, e.u).value, TreeOf(F, e.v).value);
  }

  /** After the join every arc of `t` still lies within one tree. */
  lemma JoinArcs(F: seq<set<Vertex>>, V: set<Vertex>, B1: set<Vertex>, B2: set<Vertex>, F': seq<set<Vertex>>,
                 tadj: Adjacency, tadj': Adjacency, a: Vertex, b: Vertex)
    requires Partition(F, V) && B1 in F && B2 in F && B1 != B2 && B2 in RemoveFirst(F, B1)
    requires F' == MakeUnion(F, B1, B2)
    requires ArcsInTrees(tadj, F) && a in tadj && b in tadj && a in B1 && b in B2
    requires tadj' == AddEdgeArcs(tadj, a, b, false)
    ensures ArcsInTrees(tadj', F')
  {
    forall u, v | u in tadj' && v in tadj'[u] ensures TreeOf(F', u) == TreeOf(F', v) {
      NewArcs(tadj, a, b, u, v);
      if u in tadj && v in tadj[u] {
        StaySameTree(F, V, B1, B2, u, v);
      } else {
        MakeUnionTreeOf(F, V, B1, B2, u);
        MakeUnionTreeOf(F, V, B1, B2, v);
      }
    }
  }

  /** After the join two vertices of one tree are connected in `t`: inside
      an old tree through its old walks, across the two merged trees through
      the new edge. */
  lemma JoinConnectedPair(F: seq<set<Vertex>>, V: set<Vertex>, B1: set<Vertex>, B2: set<Vertex>, F': seq<set<Vertex>>,
                          tadj: Adjacency, tadj': Adjacency, a: Vertex, b: Vertex, x: Vertex, y: Vertex)
    requires Partition(F, V) && B1 in F && B2 in F && B1 != B2 && B2 in RemoveFirst(F, B1)
    requires F' == MakeUnion(F, B1, B2)
    requires TreesConnected(tadj, F, V) && tadj.Keys == V && a in B1 && b in B2
    requires tadj' == AddEdgeArcs(tadj, a, b, false)
    requires x in V && y in V && TreeOf(F', x) == TreeOf(F', y)
    ensures Reachable(tadj', x, y)
  {
    AddEdgeGrows(tadj, a, b);
    MakeUnionTreeOf(F, V, B1, B2, x);
    MakeUnionTreeOf(F, V, B1, B2, y);
    InTrees(F, V, B1, B2, x);
    InTrees(F, V, B1, B2, y);
    InTrees(F, V, B1, B2, a);
    InTrees(F, V, B1, B2, b);
    if x in B1 || x in B2 {
      assert y in B1 + B2;
      var sx := if x in B1 then a else b;
      var sy := if y in B1 then a else b;
      ReachGrow(tadj, tadj', x, sx);
      ReachGrow(tadj, tadj', sy, y);
      if sx == sy {
        ReachTrans(tadj', x, sx, y);
      } else {
        NewArcs(tadj, a, b, sx, sy);
        ReachArc(tadj', sx, sy);
        ReachTrans(tadj', x, sx, sy);
        ReachTrans(tadj', x, sy, y);
      }
    } else {
      ReachGrow(tadj, tadj', x, y);
    }
  }

  lemma JoinConnected(F: seq<set<Vertex>>, V: set<Vertex>, B1: set<Vertex>, B2: set<Vertex>, F': seq<set<Vertex>>,
                      tadj: Adjacency, tadj': Adjacency, a: Vertex, b: Vertex)
    requires Partition(F, V) && B1 in F && B2 in F && B1 != B2 && B2 in RemoveFirst(F, B1)
    requires F' == MakeUnion(F, B1, B2)
    requires TreesConnected(tadj, F, V) && tadj.Keys == V && a in B1 && b in B2
    requires tadj' == AddEdgeArcs(tadj, a, b, false)
    ensures TreesConnected(tadj', F', V)
  {
    forall x, y | x in V && y in V && TreeOf(F', x) == TreeOf(F', y) ensures Reachable(tadj', x, y) {
      JoinConnectedPair(F, V, B1, B2, F', tadj, tadj', a, b, x, y);
    }
  }

  /** After the join the processed edges, the new one included, lie within
      one tree. */
  lemma JoinProcessed(F: seq<set<Vertex>>, V: set<Vertex>, B1: set<Vertex>, B2: set<Vertex>, F': seq<set<Vertex>>,
                      sorted: seq<Edge>, i: nat)
    requires Partition(F, V) && B1 in F && B2 in F && B1 != B2 && B2 in RemoveFirst(F, B1)
    requires F' == MakeUnion(F, B1, B2)
    requires i < |sorted| && Processed(sorted, i, F) && sorted[i].u in B1 && sorted[i].v in B2
    ensures Processed(sorted, i + 1, F')
  {
    forall k | 0 <= k < i + 1 ensures TreeOf(F', sorted[k].u) == TreeOf(F', sorted[k].v) {
      if k < i {
        StaySameTree(F, V, B1, B2, sorted[k].u, sorted[k].v);
      } else {
        MakeUnionTreeOf(F, V, B1, B2, sorted[k].u);
        MakeUnionTreeOf(F, V, B1, B2, sorted[k].v);
      }
    }
  }

  /** After the join every arc of `t` is still an input arc with its input
      weight: the new edge brings the weight of `sorted[i]`, and no old arc
      is touched because the endpoints were in different trees. */
  lemma JoinFromInput(F: seq<set<Vertex>>, tadj: Adjacency, tw: WeightTable, gadj: Adjacency, gw: WeightTable,
                      e: Edge, tadj': Adjacency, tw': WeightTable)
    requires TreeFromInput(tadj, tw, gadj, gw) && ArcsInTrees(tadj, F)
    requires e.u in tadj && e.v in tadj && TreeOf(F, e.u) != TreeOf(F, e.v)
    requires e.u in gadj && e.v in gadj[e.u] && Weighed(gw, (e.u, e.v)) && e.weight == gw[e.u][e.v]
    requires Closed(gadj) && Symmetric(gadj)
    requires tadj' == AddEdgeArcs(tadj, e.u, e.v, false) && tw' == AddEdgeWeights(tw, e.u, e.v, e.weight, false)
    ensures TreeFromInput(tadj', tw', gadj, gw)
  {
    AddEdgeEffect(tadj, tw, e.u, e.v, e.weight, false);
    forall u, v | u in tadj' && v in tadj'[u]
      ensures u in gadj && v in gadj[u] && u in tw' && v in tw'[u] && InputWeight(gw, u, v, tw'[u][v])
    {
      NewArcs(tadj, e.u, e.v, u, v);
      if u in tadj && v in tadj[u] {
        assert (u, v) != (e.u, e.v) && (u, v) != (e.v, e.u);
        SetArcWeightElsewhere(tw, e.u, e.v, e.weight, u, v);
        SetArcWeightElsewhere(SetArcWeight(tw, e.u, e.v, e.weight), e.v, e.u, e.weight, u, v);
      } else if u == e.v {
        assert e.v in gadj;
      }
    }
  }

  /** Adding an edge between two different vertices adds two entries. */
  lemma JoinCount(tvs: seq<Vertex>, tadj: Adjacency, a: Vertex, b: Vertex)
    requires KeyOrder(tvs, tadj) && a in tadj && b in tadj && a != b
    ensures KeyOrder(tvs, AddEdgeArcs(tadj, a, b, false))
    ensures SumLengths(AddEdgeArcs(tadj, a, b, false), tvs) == SumLengths(tadj, tvs) + 2
  {
    var a1 := AddArc(tadj, a, b);
    SumLengthsUpdate(tadj, tvs, a, tadj[a] + [b]);
    SumLengthsUpdate(a1, tvs, b, a1[b] + [a]);
  }

  /** Adding an edge between two different vertices adds no self-loop. */
  lemma JoinNoLoops(tadj: Adjacency, a: Vertex, b: Vertex)
    requires NoSelfLoops(tadj) && a in tadj && b in tadj && a != b
    ensures NoSelfLoops(AddEdgeArcs(tadj, a, b, false))
  {
    forall u | u in AddEdgeArcs(tadj, a, b, false) ensures u !in AddEdgeArcs(tadj, a, b, false)[u] {
      NewArcs(tadj, a, b, u, u);
    }
  }

  /** The forest half of the invariant after a join. */
  lemma JoinForest(V: set<Vertex>, sorted: seq<Edge>, i: nat, tadj: Adjacency, F: seq<set<Vertex>>,
                   B1: set<Vertex>, B2: set<Vertex>, tadj': Adjacency, F': seq<set<Vertex>>)
    requires Partition(F, V) && ArcsInTrees(tadj, F) && TreesConnected(tadj, F, V) && tadj.Keys == V
    requires i < |sorted| && Processed(sorted, i, F)
    requires TreeOf(F, sorted[i].u) == Some(B1) && TreeOf(F, sorted[i].v) == Some(B2)
    requires B1 != B2 && B2 in RemoveFirst(F, B1) && F' == MakeUnion(F, B1, B2)
    requires sorted[i].u in tadj && sorted[i].v in tadj
    requires tadj' == AddEdgeArcs(tadj, sorted[i].u, sorted[i].v, false)
    ensures Partition(F', V) && |F'| == |F| - 1
    ensures ArcsInTrees(tadj', F') && TreesConnected(tadj', F', V) && Processed(sorted, i + 1, F')
  {
    var e := sorted[i];
    MakeUnionPartition(F, V, B1, B2);
    JoinArcs(F, V, B1, B2, F', tadj, tadj', e.u, e.v);
    JoinConnected(F, V, B1, B2, F', tadj, tadj', e.u, e.v);
    JoinProcessed(F, V, B1, B2, F', sorted, i);
  }

  /** The tables half of the invariant after a join. */
  lemma JoinTables(gadj: Adjacency, gw: WeightTable, e: Edge, tvs: seq<Vertex>, tadj: Adjacency, tw: WeightTable,
                   F: seq<set<Vertex>>, tadj': Adjacency, tw': WeightTable)
    requires KeyOrder(tvs, tadj) && TreeFromInput(tadj, tw, gadj, gw) && NoSelfLoops(tadj) && ArcsInTrees(tadj, F)
    requires e.u in tadj && e.v in tadj && TreeOf(F, e.u) != TreeOf(F, e.v) && e.u != e.v
    requires e.u in gadj && e.v in gadj[e.u] && Weighed(gw, (e.u, e.v)) && e.weight == gw[e.u][e.v]
    requires Closed(gadj) && Symmetric(gadj)
    requires tadj' == AddEdgeArcs(tadj, e.u, e.v, false) && tw' == AddEdgeWeights(tw, e.u, e.v, e.weight, false)
    ensures KeyOrder(tvs, tadj') && tadj'.Keys == tadj.Keys
    ensures TreeFromInput(tadj', tw', gadj, gw) && NoSelfLoops(tadj')
    ensures SumLengths(tadj', tvs) == SumLengths(tadj, tvs) + 2
  {
    JoinFromInput(F, tadj, tw, gadj, gw, e, tadj', tw');
    JoinNoLoops(tadj, e.u, e.v);
    JoinCount(tvs, tadj, e.u, e.v);
  }

  /** Joining the trees of the endpoints of `sorted[i]` with the edge keeps
      the invariant at `i + 1`. */
  lemma JoinKeeps(V: set<Vertex>, gadj: Adjacency, gw: WeightTable, sorted: seq<Edge>, i: nat,
                  tvs: seq<Vertex>, tadj: Adjacency, tw: WeightTable, F: seq<set<Vertex>>,
                  B1: set<Vertex>, B2: set<Vertex>, tadj': Adjacency, tw': WeightTable, F': seq<set<Vertex>>)
    requires KruskalInv(V, gadj, gw, sorted, i, tvs, tadj, tw, F)
    requires InputEdges(sorted, gadj, gw) && gadj.Keys == V && Closed(gadj) && Symmetric(gadj)
    requires i < |sorted| && TreeOf(F, sorted[i].u) == Some(B1) && TreeOf(F, sorted[i].v) == Some(B2)
    requires B1 != B2 && B2 in RemoveFirst(F, B1) && F' == MakeUnion(F, B1, B2)
    requires sorted[i].u in tadj && sorted[i].v in tadj
    requires tadj' == AddEdgeArcs(tadj, sorted[i].u, sorted[i].v, false)
    requires tw' == AddEdgeWeights(tw, sorted[i].u, sorted[i].v, sorted[i].weight, false)
    ensures KruskalInv(V, gadj, gw, sorted, i + 1, tvs, tadj', tw', F')
  {
    JoinReady(V, gadj, gw, sorted, i, tvs, tadj, tw, F);
    JoinForest(V, sorted, i, tadj, F, B1, B2, tadj', F');
    JoinTables(gadj, gw, sorted[i], tvs, tadj, tw, F, tadj', tw');
  }

  /** An edge inside one tree is skipped, and the invariant holds at `i + 1`. */
  lemma KruskalSkip(V: set<Vertex>, gadj: Adjacency, gw: WeightTable, sorted: seq<Edge>, i: nat,
                    tvs: seq<Vertex>, tadj: Adjacency, tw: WeightTable, F: seq<set<Vertex>>)
    requires KruskalInv(V, gadj, gw, sorted, i, tvs, tadj, tw, F)
    requires i < |sorted| && TreeOf(F, sorted[i].u) == TreeOf(F, sorted[i].v)
    ensures KruskalInv(V, gadj, gw, sorted, i + 1, tvs, tadj, tw, F)
  {
  }

  /** A graph whose lists are all empty has no entries. */
  lemma {:induction false} SumLengthsEmpty(adj: Adjacency, vs: seq<Vertex>)
    requires forall v :: v in vs ==> v in adj && adj[v] == []
    ensures SumLengths(adj, vs) == 0
    decreases |vs|
  {
    if vs != [] {
      SumLengthsEmpty(adj, vs[1..]);
    }
  }

  /** The forest of singletons partitions the vertices, and each singleton
      finds itself. */
  lemma SingletonsPartition(vs: seq<Vertex>, v: Vertex)
    requires NoDup(vs) && v in vs
    ensures Partition(Singletons(vs), Elems(vs))
    ensures TreeOf(Singletons(vs), v) == Some({v})
  {
    var F := Singletons(vs);
    forall x | x in Elems(vs) ensures TreeOf(F, x).Some? {
      var k :| 0 <= k < |vs| && vs[k] == x;
      assert x in F[k];
    }
    var k :| 0 <= k < |vs| && vs[k] == v;
    assert F[k] == {v};
    PartitionTree(F, Elems(vs), {v}, v);
  }

  /** Before the loop: every vertex is a tree of its own, `t` has every
      vertex and no edge, and nothing is processed. */
  lemma KruskalStart(gadj: Adjacency, gw: WeightTable, sorted: seq<Edge>, vs: seq<Vertex>, tadj: Adjacency, tw: WeightTable)
    requires KeyOrder(vs, tadj) && forall v :: v in tadj ==> tadj[v] == []
    ensures KruskalInv(Elems(vs), gadj, gw, sorted, 0, vs, tadj, tw, Singletons(vs))
  {
    var F, V := Singletons(vs), Elems(vs);
    if vs != [] {
      SingletonsPartition(vs, vs[0]);
    }
    forall a, b | a in V && b in V && TreeOf(F, a) == TreeOf(F, b) ensures Reachable(tadj, a, b) {
      SingletonsPartition(vs, a);
      SingletonsPartition(vs, b);
      assert a == b by { assert a in {b}; }
      ReachRefl(tadj, a);
    }
    SumLengthsEmpty(tadj, vs);
    CardElems(vs);
  }

  /** Once every edge is processed, no input arc leaves a tree. */
  lemma TreeClosed(V: set<Vertex>, gadj: Adjacency, sorted: seq<Edge>, F: seq<set<Vertex>>, B: set<Vertex>)
    requires Partition(F, V) && Processed(sorted, |sorted|, F) && CoversArcs(sorted, gadj)
    requires gadj.Keys == V && B in F
    ensures Traversal.Frontier(gadj, B, [])
  {
    forall u, y | u in B && y in gadj[u] ensures y in B {
      var P := Pairs(sorted);
      var k :| 0 <= k < |P| && (P[k] == (u, y) || P[k] == (y, u));
      PartitionTree(F, V, B, u);
      assert TreeOf(F, sorted[k].u) == TreeOf(F, sorted[k].v);
    }
  }

  /** A tree holding `s` that no input arc leaves, in a graph where every
      vertex is reachable from `s`, is the only tree. */
  lemma OnlyTree(V: set<Vertex>, gadj: Adjacency, F: seq<set<Vertex>>, B: set<Vertex>, s: Vertex)
    requires Partition(F, V) && B in F && s in B && Traversal.Frontier(gadj, B, [])
    requires forall v :: v in V ==> Reachable(gadj, s, v)
    ensures |F| <= 1
  {
    forall C | C in F ensures C == B {
      var c :| c in C;
      var p :| WalkBetween(gadj, p, s, c);
      Traversal.ClosedReach(gadj, B, s, p, c);
      PartitionTree(F, V, B, c);
      PartitionTree(F, V, C, c);
    }
    assert Elems(F) == {} || Elems(F) == {B};
    CardElems(F);
  }

  /** Kruskal's loop never runs out of edges: when every edge has been
      processed of a graph where every vertex is reachable from `s`, one
      tree is left. */
  lemma KruskalMustGo(V: set<Vertex>, gadj: Adjacency, sorted: seq<Edge>, i: nat, F: seq<set<Vertex>>, s: Vertex)
    requires Partition(F, V) && i <= |sorted| && Processed(sorted, i, F)
    requires CoversArcs(sorted, gadj) && gadj.Keys == V
    requires s in V && forall v :: v in V ==> Reachable(gadj, s, v)
    ensures i < |sorted| || |F| <= 1
  {
    if i == |sorted| {
      var B := TreeOf(F, s).value;
      TreeClosed(V, gadj, sorted, F, B);
      OnlyTree(V, gadj, F, B, s);
    }
  }

  /** With one tree left, every two vertices are connected in `t`. */
  lemma KruskalAllDone(V: set<Vertex>, tadj: Adjacency, F: seq<set<Vertex>>)
    requires Partition(F, V) && TreesConnected(tadj, F, V) && |F| == 1
    ensures forall a, b :: a in V && b in V ==> Reachable(tadj, a, b)
  {
    forall a, b | a in V && b in V ensures Reachable(tadj, a, b) {
      assert TreeOf(F, a).value == F[0] && TreeOf(F, b).value == F[0];
    }
  }

  /** Each sorted edge is an input arc with its weight. */
  lemma SortedEdgeInput(vs: seq<Vertex>, gadj: Adjacency, gw: WeightTable, es: seq<Edge>, k: nat)
    requires KeyOrder(vs, gadj)
    requires Pairs(es) == Select(ArcList(gadj, vs)) && WeightsFrom(es, gw)
    requires k < |SortByWeight(es)|
    ensures var e := SortByWeight(es)[k];
      e.u in gadj && e.v in gadj[e.u] && Weighed(gw, (e.u, e.v)) && e.weight == gw[e.u][e.v]
  {
    var sorted := SortByWeight(es);
    SortByWeightSorts(es);
    assert sorted[k] in multiset(sorted);
    var j :| 0 <= j < |es| && es[j] == sorted[k];
    var p := Pairs(es)[j];
    SelectFrom(ArcList(gadj, vs), p);
    ArcListMembers(gadj, vs, p);
  }

  /** Each input arc is listed in the sorted edges, in one direction. */
  lemma SortedCovers(vs: seq<Vertex>, gadj: Adjacency, es: seq<Edge>, u: Vertex, v: Vertex)
    requires KeyOrder(vs, gadj)
    requires Pairs(es) == Select(ArcList(gadj, vs))
    requires u in gadj && v in gadj[u]
    ensures (u, v) in Pairs(SortByWeight(es)) || (v, u) in Pairs(SortByWeight(es))
  {
    var sorted := SortByWeight(es);
    SortByWeightSorts(es);
    ArcListMembers(gadj, vs, (u, v));
    SelectCovers(ArcList(gadj, vs), (u, v));
    var q := if (u, v) in Select(ArcList(gadj, vs)) then (u, v) else (v, u);
    var j :| 0 <= j < |es| && Pairs(es)[j] == q;
    assert es[j] in multiset(es);
    var k :| 0 <= k < |sorted| && sorted[k] == es[j];
    assert Pairs(sorted)[k] == q;
  }

  /** The sorted list keeps the input's edges: each is an input arc with its
      weight, and every input arc is listed in one direction. */
  lemma SortedEdgesFacts(vs: seq<Vertex>, gadj: Adjacency, gw: WeightTable, es: seq<Edge>)
    requires KeyOrder(vs, gadj)
    requires Pairs(es) == Select(ArcList(gadj, vs)) && WeightsFrom(es, gw)
    ensures InputEdges(SortByWeight(es), gadj, gw)
    ensures CoversArcs(SortByWeight(es), gadj)
  {
    forall k | 0 <= k < |SortByWeight(es)|
      ensures var e := SortByWeight(es)[k];
        e.u in gadj && e.v in gadj[e.u] && Weighed(gw, (e.u, e.v)) && e.weight == gw[e.u][e.v]
    {
      SortedEdgeInput(vs, gadj, gw, es, k);
    }
    forall u, v | u in gadj && v in gadj[u]
      ensures (u, v) in Pairs(SortByWeight(es)) || (v, u) in Pairs(SortByWeight(es))
    {
      SortedCovers(vs, gadj, es, u, v);
    }
  }

  // ----------------------------------------------------------------------
  // min_spanning_tree

  /** `t`, before the loop: a new weighted store with every vertex of the
      list and no edge. */
  method NewTree(vs: seq<Vertex>) returns (t: Domain.Graph)
    requires NoDup(vs)
    ensures fresh(t) && t.Valid() && !t.isDirected && t.isWeighted
    ensures t.vertices == vs && forall v :: v in t.adj ==> t.adj[v] == []
  {
    t := new Domain.Graph();
    t.ChangeIfWeighted();
    var k := 0;
    while k < |vs|
      invariant 0 <= k <= |vs|
      invariant fresh(t) && t.Valid() && !t.isDirected && t.isWeighted
      invariant t.vertices == vs[..k] && forall v :: v in t.adj ==> t.adj[v] == []
    {
      assert vs[k] !in t.vertices;
      var o := t.AddVertex(vs[k]);
      assert vs[..k + 1] == vs[..k] + [vs[k]];
      k := k + 1;
    }
    assert vs[..k] == vs;
  }

  /** `t` is a spanning tree of the input: it has the input's vertices in
      the same order, it is connected, it has no self-loop and one edge
      fewer than vertices, and each of its arcs is an input arc with the
      input's weight. */
  ghost predicate SpanningTreeOf(t: Domain.Graph, g: Domain.Graph)
    reads t, g
  {
    && t.Valid() && !t.isDirected && t.isWeighted
    && t.vertices == g.vertices && t.adj.Keys == g.adj.Keys
    && Connected(t.adj) && NoSelfLoops(t.adj)
    && t.GetE() == |g.vertices| - 1
    && TreeFromInput(t.adj, t.weights, g.adj, g.weights)
  }

  /** `get_e` on the tree under construction counts the joins made: the
      vertex count less the number of trees. */
  lemma TreeEdges(V: set<Vertex>, gadj: Adjacency, gw: WeightTable, sorted: seq<Edge>, i: nat,
                  t: Domain.Graph, F: seq<set<Vertex>>)
    requires t.Valid() && !t.isDirected
    requires KruskalInv(V, gadj, gw, sorted, i, t.vertices, t.adj, t.weights, F)
    ensures |F| <= |V| == |t.vertices| && t.GetE() == |V| - |F|
  {
    CardElems(t.vertices);
    assert Elems(t.vertices) == V;
  }

  /** One pass of Kruskal's loop: the edge `sorted[i]` is added to `t`
      and its two trees merged when its endpoints lie in different trees. */
  method KruskalStep(t: Domain.Graph, forest: seq<set<Vertex>>, sorted: seq<Edge>, i: nat,
                     ghost V: set<Vertex>, ghost gadj: Adjacency, ghost gw: WeightTable)
    returns (forest': seq<set<Vertex>>)
    requires t.Valid() && !t.isDirected && t.isWeighted
    requires KruskalInv(V, gadj, gw, sorted, i, t.vertices, t.adj, t.weights, forest)
    requires InputEdges(sorted, gadj, gw) && gadj.Keys == V && Closed(gadj) && Symmetric(gadj)
    requires i < |sorted|
    modifies t
    ensures t.Valid() && !t.isDirected && t.isWeighted && t.vertices == old(t.vertices)
    ensures KruskalInv(V, gadj, gw, sorted, i + 1, t.vertices, t.adj, t.weights, forest')
  {
    var e := sorted[i];
    var tree1 := FindTree(forest, e.u);
    var tree2 := FindTree(forest, e.v);
    if tree1 != tree2 {
      JoinReady(V, gadj, gw, sorted, i, t.vertices, t.adj, t.weights, forest);
      ghost var tadj, tw := t.adj, t.weights;
      var o := t.AddEdge(e.u, e.v, e.weight);
      forest' := MakeUnion(forest, tree1.value, tree2.value);
      JoinKeeps(V, gadj, gw, sorted, i, t.vertices, tadj, tw, forest,
                tree1.value, tree2.value, t.adj, t.weights, forest');
    } else {
      KruskalSkip(V, gadj, gw, sorted, i, t.vertices, t.adj, t.weights, forest);
      forest' := forest;
    }
  }

  /** The loop of `min_spanning_tree` on a connected undirected weighted
      graph and its sorted edge list. */
  method Kruskal(g: Domain.Graph, sorted: seq<Edge>, ghost chosen: Vertex) returns (t: Domain.Graph)
    requires g.Valid() && !g.isDirected && g.isWeighted
    requires chosen in g.adj && forall v :: v in g.adj ==> Reachable(g.adj, chosen, v)
    requires InputEdges(sorted, g.adj, g.weights) && CoversArcs(sorted, g.adj)
    ensures SpanningTreeOf(t, g)
  {
    var vs := g.ReturnVerticesList();
    ghost var gadj, gw := g.adj, g.weights;
    ghost var V := Elems(vs);
    assert V == gadj.Keys;
    t := NewTree(vs);
    var forest := Singletons(vs);
    KruskalStart(gadj, gw, sorted, vs, t.adj, t.weights);
    var i := 0;
    while t.GetE() < |g.ReturnVerticesList()| - 1
      invariant fresh(t) && t.Valid() && !t.isDirected && t.isWeighted && t.vertices == vs
      invariant KruskalInv(V, gadj, gw, sorted, i, t.vertices, t.adj, t.weights, forest)
      decreases |sorted| - i
    {
      TreeEdges(V, gadj, gw, sorted, i, t, forest);
      KruskalMustGo(V, gadj, sorted, i, forest, chosen);
      forest := KruskalStep(t, forest, sorted, i, V, gadj, gw);
      i := i + 1;
    }
    TreeEdges(V, gadj, gw, sorted, i, t, forest);
    assert TreeOf(forest, chosen).Some?;
    KruskalAllDone(V, t.adj, forest);
  }

  /** `min_spanning_tree`: Kruskal's algorithm. The input must be undirected,
      weighted, non-empty and connected, in that order of checks; the edges
      are listed once per undirected edge with their weights, sorted stably
      by weight, and joined in that order whenever their endpoints lie in
      different trees of the forest, until the tree has one edge fewer than
      the graph has vertices. */
  method MinSpanningTree(g: Domain.Graph) returns (r: Result<Domain.Graph>)
    requires g.Valid()
    ensures r.Failure? <==>
      || g.isDirected || !g.isWeighted || g.adj == map[] || !Connected(g.adj)
      || !(forall p :: p in Select(ArcList(g.adj, g.vertices)) ==> Weighed(g.weights, p))
    ensures r.Failure? ==>
      r.error == (if g.isDirected then NotUndirected
                  else if !g.isWeighted then NotWeighted
                  else if g.adj == map[] then EmptyGraph
                  else if !Connected(g.adj) then NotConnected
                  else MissingKey)
    ensures r.Success? ==> SpanningTreeOf(r.value, g)
  {
    if g.isDirected {
      return Failure(NotUndirected);
    }
    if !g.isWeighted {
      return Failure(NotWeighted);
    }
    var c, chosen := IsConnected(g);
    if c.Failure? {
      return Failure(c.error);
    }
    ConnectedIff(g.adj, chosen);
    if !c.value {
      return Failure(NotConnected);
    }
    var collected := CollectEdges(g);
    if collected.Failure? {
      return Failure(collected.error);
    }
    var sorted := SortByWeight(collected.value);
    SortedEdgesFacts(g.vertices, g.adj, g.weights, collected.value);
    var t := Kruskal(g, sorted, chosen);
    r := Success(t);
  }
}
