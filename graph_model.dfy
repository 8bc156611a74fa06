/** The value-level model of the graph store of `domain.py`: the two
    dictionaries `graph_repo` and `graph_weight_repo` as Dafny maps, the
    invariants every operation of the store keeps, and counting facts about
    adjacency lists. The class in module Domain holds these values in its
    fields. */
module GraphModel {
  import opened Common

  /** `graph_repo`: each vertex mapped to its ordered neighbour list. */
  type Adjacency = map<Vertex, seq<Vertex>>

  /** `graph_weight_repo`: each vertex mapped to a row neighbour -> weight. */
  type WeightTable = map<Vertex, map<Vertex, int>>

  /** The vertex list is the key set of the adjacency table without repeats
      (Python dictionaries keep their keys in insertion order). */
  ghost predicate KeyOrder(vs: seq<Vertex>, adj: Adjacency) {
    NoDup(vs) && (forall v :: v in vs <==> v in adj)
  }

  /** Every neighbour is itself a vertex. */
  ghost predicate Closed(adj: Adjacency) {
    forall u, v :: u in adj && v in adj[u] ==> v in adj
  }

  /** The undirected-mode invariant: v is a neighbour of u iff u is one of v. */
  ghost predicate Symmetric(adj: Adjacency) {
    forall u, v :: u in adj && v in adj && v in adj[u] ==> u in adj[v]
  }

  /** The only entry an adjacency list can hold twice is its own vertex: an
      undirected self-loop u-u is stored as two copies of u in adj[u]. */
  ghost predicate OnlySelfRepeats(adj: Adjacency) {
    forall u :: u in adj ==> RepeatsOnly(adj[u], u)
  }

  ghost predicate NoSelfLoops(adj: Adjacency) {
    forall u :: u in adj ==> u !in adj[u]
  }

  /** In weighted mode: one weight row per vertex, a weight for every
      adjacency entry except possibly a self-loop, and no weight for a pair
      that is not an edge except possibly a self-loop. */
  ghost predicate WeightsCover(adj: Adjacency, w: WeightTable) {
    && (forall u :: u in w <==> u in adj)
    && (forall u, v :: u in adj && v in adj[u] && v != u ==> v in w[u])
    && (forall u, v :: u in w && v in w[u] ==> v in adj[u] || v == u)
  }

  /** The invariant of the graph store. */
  ghost predicate WellFormed(vs: seq<Vertex>, adj: Adjacency, w: WeightTable, directed: bool, weighted: bool) {
    && KeyOrder(vs, adj)
    && Closed(adj)
    && OnlySelfRepeats(adj)
    && (!directed ==> Symmetric(adj))
    && (if weighted then WeightsCover(adj, w) else w == map[])
  }

  /** The row of `u`, created empty when missing (the source's
      `if u not in graph_weight_repo: graph_weight_repo[u] = {}`). */
  function Row(w: WeightTable, u: Vertex): map<Vertex, int> {
    if u in w then w[u] else map[]
  }

  /** `s` without its first `x`, if it has one. */
  function Strip(s: seq<Vertex>, x: Vertex): seq<Vertex> {
    if x in s then RemoveFirst(s, x) else s
  }

  /** Append `v` to the list of `u`. */
  function AddArc(adj: Adjacency, u: Vertex, v: Vertex): Adjacency
    requires u in adj
  {
    adj[u := adj[u] + [v]]
  }

  /** Record weight `x` on the arc u -> v. */
  function SetArcWeight(w: WeightTable, u: Vertex, v: Vertex, x: int): WeightTable {
    w[u := Row(w, u)[v := x]]
  }

  /** Recording a weight on one arc leaves the entries of other arcs. */
  lemma SetArcWeightElsewhere(w: WeightTable, a: Vertex, b: Vertex, x: int, u: Vertex, v: Vertex)
    requires u in w && v in w[u] && (u, v) != (a, b)
    ensures u in SetArcWeight(w, a, b, x) && v in SetArcWeight(w, a, b, x)[u]
    ensures SetArcWeight(w, a, b, x)[u][v] == w[u][v]
  {
  }

  /** The adjacency table after `add_edge(u, v)`: the arc u -> v, and in
      undirected mode also v -> u. */
  function AddEdgeArcs(adj: Adjacency, u: Vertex, v: Vertex, directed: bool): Adjacency
    requires u in adj && v in adj
  {
    if directed then AddArc(adj, u, v) else AddArc(AddArc(adj, u, v), v, u)
  }

  /** The weight table after `add_edge(u, v, x)` in weighted mode. */
  function AddEdgeWeights(w: WeightTable, u: Vertex, v: Vertex, x: int, directed: bool): WeightTable {
    if directed then SetArcWeight(w, u, v, x) else SetArcWeight(SetArcWeight(w, u, v, x), v, u, x)
  }

  /** `graph_repo[u].remove(v)`. */
  function RemoveArc(adj: Adjacency, u: Vertex, v: Vertex): Adjacency
    requires u in adj && v in adj[u]
  {
    adj[u := RemoveFirst(adj[u], v)]
  }

  /** `graph_weight_repo[u].pop(v, None)`, guarded by `u in graph_weight_repo`. */
  function DropWeight(w: WeightTable, u: Vertex, v: Vertex): WeightTable {
    if u in w then w[u := w[u] - {v}] else w
  }

  /** The adjacency table after `remove_vertex(x)`: the key is gone and the
      (single) occurrence of `x` is removed from every other list. */
  function DeleteVertexArcs(adj: Adjacency, x: Vertex): Adjacency {
    map k | k in adj && k != x :: Strip(adj[k], x)
  }

  /** The weight table after `remove_vertex(x)` in weighted mode. */
  function DeleteVertexWeights(w: WeightTable, x: Vertex): WeightTable {
    map k | k in w && k != x :: w[k] - {x}
  }

  /** The adjacency table part-way through `remove_vertex(x)`: the lists
      of the keys in `seen` have lost `x`. */
  function StripRows(adj: Adjacency, x: Vertex, seen: set<Vertex>): Adjacency {
    map k | k in adj :: if k in seen then Strip(adj[k], x) else adj[k]
  }

  /** The weight table part-way through `remove_vertex(x)`: the rows of the
      keys in `seen` whose list held `x` have lost `x`. */
  function DropRows(w: WeightTable, adj: Adjacency, x: Vertex, seen: set<Vertex>): WeightTable {
    map k | k in w :: if k in seen && k in adj && x in adj[k] then w[k] - {x} else w[k]
  }

  /** One more key visited by the loop of `remove_vertex`. */
  lemma StripRowsStep(adj: Adjacency, w: WeightTable, x: Vertex, seen: set<Vertex>, k: Vertex)
    requires k in adj && k !in seen
    ensures StripRows(adj, x, seen)[k] == adj[k]
    ensures k in w ==> DropRows(w, adj, x, seen)[k] == w[k]
    ensures StripRows(adj, x, seen + {k}) == StripRows(adj, x, seen)[k := Strip(adj[k], x)]
    ensures x in adj[k] && k in w ==>
      DropRows(w, adj, x, seen + {k}) == DropRows(w, adj, x, seen)[k := w[k] - {x}]
    ensures x !in adj[k] || k !in w ==> DropRows(w, adj, x, seen + {k}) == DropRows(w, adj, x, seen)
  {
    var a, b := StripRows(adj, x, seen + {k}), StripRows(adj, x, seen)[k := Strip(adj[k], x)];
    assert a.Keys == b.Keys;
    if x in adj[k] && k in w {
      var c, d := DropRows(w, adj, x, seen + {k}), DropRows(w, adj, x, seen)[k := w[k] - {x}];
      assert c.Keys == d.Keys;
    } else {
      var c, d := DropRows(w, adj, x, seen + {k}), DropRows(w, adj, x, seen);
      assert c.Keys == d.Keys;
    }
  }

  /** Once every key is visited, dropping the key `x` gives the final
      adjacency table of `remove_vertex`. */
  lemma StripRowsDone(adj: Adjacency, x: Vertex)
    ensures StripRows(adj, x, adj.Keys) - {x} == DeleteVertexArcs(adj, x)
  {
    var a, b := StripRows(adj, x, adj.Keys) - {x}, DeleteVertexArcs(adj, x);
    assert a.Keys == b.Keys;
  }

  /** Likewise for the weight table: a row holds `x` only where the list
      does, so dropping `x` from the visited rows drops it everywhere. */
  lemma DropRowsDone(adj: Adjacency, w: WeightTable, x: Vertex)
    requires WeightsCover(adj, w)
    ensures DropRows(w, adj, x, adj.Keys) - {x} == DeleteVertexWeights(w, x)
  {
    var c, d := DropRows(w, adj, x, adj.Keys) - {x}, DeleteVertexWeights(w, x);
    assert c.Keys == d.Keys;
    forall k | k in c ensures c[k] == d[k] {
      assert x in adj[k] || x !in w[k];
    }
  }

  /** The weight table that `change_if_weighted` builds: weight 0 on every edge. */
  function ZeroWeights(adj: Adjacency): WeightTable {
    map u | u in adj :: map v | v in adj[u] :: 0
  }

  /** A table is the zero table of `adj` exactly when it has a row per
      vertex, an entry per neighbour and nothing but zeros. */
  lemma ZeroWeightsExactly(adj: Adjacency, t: WeightTable)
    ensures t == ZeroWeights(adj) <==>
      && t.Keys == adj.Keys
      && forall u :: u in t ==> t[u].Keys == Elems(adj[u]) && forall v :: v in t[u] ==> t[u][v] == 0
  {
    if t.Keys == adj.Keys && forall u :: u in t ==> t[u].Keys == Elems(adj[u]) && forall v :: v in t[u] ==> t[u][v] == 0 {
      var z := ZeroWeights(adj);
      forall u | u in t ensures t[u] == z[u] {
        assert t[u].Keys == z[u].Keys;
      }
    }
  }

  /** The vertices that have `u` as a neighbour. */
  ghost function Inbound(adj: Adjacency, u: Vertex): set<Vertex> {
    set w | w in adj && u in adj[w]
  }

  /** Weight coverage of the arcs of `adj` that are not self-loops. */
  ghost predicate ArcsWeighted(adj: Adjacency, w: WeightTable) {
    forall z, u :: z in adj && u in adj[z] && u != z ==> z in w && u in w[z]
  }

  /** `w` is the weight table `change_if_directed` leaves from `adj` and
      `weights`: the old entries are kept, and the only new entries are,
      for every arc z -> u whose reverse is missing, the entry u -> z
      carrying the weight of z -> u. */
  ghost predicate ReversedWeights(adj: Adjacency, weights: WeightTable, w: WeightTable) {
    && w.Keys == weights.Keys
    && (forall u, z :: u in weights && z in weights[u] ==> z in w[u] && w[u][z] == weights[u][z])
    && (forall u, z :: u in w && u in adj && z in w[u] && z !in weights[u] ==>
          z in adj && u in adj[z] && z in weights && u in weights[z] && z !in adj[u]
          && w[u][z] == weights[z][u])
    && (forall u, z :: u in w && u in adj && z in adj && u in adj[z] && z !in adj[u] ==> z in w[u])
  }

  /** The summed length of the adjacency lists of `vs`. */
  function SumLengths(adj: Adjacency, vs: seq<Vertex>): nat
    requires forall v :: v in vs ==> v in adj
  {
    if vs == [] then 0 else |adj[vs[0]]| + SumLengths(adj, vs[1..])
  }

  /** Replacing one list changes the sum by the difference in length. */
  lemma {:induction false} SumLengthsUpdate(adj: Adjacency, vs: seq<Vertex>, k: Vertex, s: seq<Vertex>)
    requires NoDup(vs) && (forall v :: v in vs ==> v in adj) && k in vs
    ensures SumLengths(adj[k := s], vs) == SumLengths(adj, vs) - |adj[k]| + |s|
  {
    if vs[0] == k {
      assert k !in vs[1..] by {
        forall i | 0 <= i < |vs[1..]| ensures vs[1..][i] != k { assert vs[1..][i] == vs[i + 1]; }
      }
      SumLengthsSame(adj, adj[k := s], vs[1..]);
    } else {
      SumLengthsUpdate(adj, vs[1..], k, s);
    }
  }

  /** Lists outside the summed vertices do not matter. */
  lemma {:induction false} SumLengthsSame(adj: Adjacency, adj': Adjacency, vs: seq<Vertex>)
    requires forall v :: v in vs ==> v in adj && v in adj' && |adj[v]| == |adj'[v]|
    ensures SumLengths(adj, vs) == SumLengths(adj', vs)
  {
    if vs != [] { SumLengthsSame(adj, adj', vs[1..]); }
  }

  /** The arcs u -> v leaving the vertices of `vs`, as ordered pairs. */
  ghost function Arcs(adj: Adjacency, vs: set<Vertex>): set<(Vertex, Vertex)> {
    set u, v | u in vs && u in adj && v in adj[u] :: (u, v)
  }

  /** A list without repeats has as many elements as its length. */
  lemma {:induction false} CardElems<T>(s: seq<T>)
    requires NoDup(s)
    ensures |Elems(s)| == |s|
  {
    if s != [] {
      assert Elems(s) == {s[0]} + Elems(s[1..]);
      assert s[0] !in Elems(s[1..]) by {
        forall i | 0 <= i < |s[1..]| ensures s[1..][i] != s[0] { assert s[1..][i] == s[i + 1]; }
      }
      CardElems(s[1..]);
    }
  }

  /** Pairing every element with a fixed first component keeps the count. */
  lemma {:induction false} CardPairing(u: Vertex, vs: set<Vertex>)
    ensures |set v | v in vs :: (u, v)| == |vs|
  {
    if vs != {} {
      var x :| x in vs;
      var rest := vs - {x};
      CardPairing(u, rest);
      assert (set v | v in vs :: (u, v)) == (set v | v in rest :: (u, v)) + {(u, x)};
    }
  }

  /** The summed length counts the arcs, when no list has a repeat. */
  lemma {:induction false} SumLengthsCountsArcs(adj: Adjacency, vs: seq<Vertex>)
    requires NoDup(vs) && (forall v :: v in vs ==> v in adj)
    requires forall v :: v in vs ==> NoDup(adj[v])
    ensures SumLengths(adj, vs) == |Arcs(adj, Elems(vs))|
  {
    if vs != [] {
      var u := vs[0];
      assert u !in vs[1..] by {
        forall i | 0 <= i < |vs[1..]| ensures vs[1..][i] != u { assert vs[1..][i] == vs[i + 1]; }
      }
      assert Elems(vs) == {u} + Elems(vs[1..]);
      var mine := set v | v in Elems(adj[u]) :: (u, v);
      assert Arcs(adj, Elems(vs)) == mine + Arcs(adj, Elems(vs[1..]));
      assert mine !! Arcs(adj, Elems(vs[1..]));
      CardPairing(u, Elems(adj[u]));
      CardElems(adj[u]);
      SumLengthsCountsArcs(adj, vs[1..]);
    }
  }

  /** A finite set of pairs closed under swapping, with no pair (x, x), has
      an even number of elements: the pairs come in couples. */
  lemma {:induction false} SwapClosedIsEven(p: set<(Vertex, Vertex)>)
    requires forall a :: a in p ==> (a.1, a.0) in p && a.0 != a.1
    ensures |p| % 2 == 0
    decreases |p|
  {
    if p != {} {
      var a :| a in p;
      var b := (a.1, a.0);
      var rest := p - {a, b};
      assert a != b;
      forall c | c in rest ensures (c.1, c.0) in rest && c.0 != c.1 {
        assert (c.1, c.0) != a && (c.1, c.0) != b;
      }
      SwapClosedIsEven(rest);
    }
  }

  /** In undirected mode without self-loops every edge is stored twice, so
      the summed length of all adjacency lists is even and `get_e`'s halving
      is exact. */
  lemma TotalDegreeEven(vs: seq<Vertex>, adj: Adjacency)
    requires KeyOrder(vs, adj) && Closed(adj) && OnlySelfRepeats(adj)
    requires Symmetric(adj) && NoSelfLoops(adj)
    ensures SumLengths(adj, vs) % 2 == 0
  {
    forall v | v in vs ensures NoDup(adj[v]) {
      assert v !in adj[v];
    }
    SumLengthsCountsArcs(adj, vs);
    var p := Arcs(adj, Elems(vs));
    forall a | a in p ensures (a.1, a.0) in p && a.0 != a.1 {
      assert a.0 in adj && a.1 in adj[a.0];
    }
    SwapClosedIsEven(p);
  }

  // ----------------------------------------------------------------------
  // Each mutation of the store keeps WellFormed

  lemma AddVertexKeeps(vs: seq<Vertex>, adj: Adjacency, w: WeightTable, directed: bool, weighted: bool, x: Vertex)
    requires WellFormed(vs, adj, w, directed, weighted) && x !in adj
    ensures WellFormed(vs + [x], adj[x := []], if weighted then w[x := map[]] else w, directed, weighted)
  {
  }

  lemma AddArcKeepsRepeats(adj: Adjacency, u: Vertex, v: Vertex)
    requires u in adj && OnlySelfRepeats(adj)
    requires v !in adj[u] || v == u
    ensures OnlySelfRepeats(AddArc(adj, u, v))
  {
    var a := AddArc(adj, u, v);
    forall k, i, j | k in a && 0 <= i < j < |a[k]| && a[k][i] == a[k][j] ensures a[k][i] == k {
      if k == u && j == |adj[u]| {
        assert a[u][i] == adj[u][i];
      }
    }
  }

  lemma AddEdgeKeepsShape(adj: Adjacency, u: Vertex, v: Vertex, directed: bool)
    requires Closed(adj) && (!directed ==> Symmetric(adj))
    requires u in adj && v in adj && v !in adj[u]
    ensures Closed(AddEdgeArcs(adj, u, v, directed))
    ensures !directed ==> Symmetric(AddEdgeArcs(adj, u, v, directed))
  {
  }

  lemma AddEdgeKeepsWeights(adj: Adjacency, w: WeightTable, u: Vertex, v: Vertex, x: int, directed: bool)
    requires Closed(adj) && (!directed ==> Symmetric(adj)) && WeightsCover(adj, w)
    requires u in adj && v in adj && v !in adj[u]
    ensures WeightsCover(AddEdgeArcs(adj, u, v, directed), AddEdgeWeights(w, u, v, x, directed))
  {
  }

  /** After `add_edge(u, v, x)` the edge is there, in both directions when
      undirected, and weighs `x`. */
  lemma AddEdgeEffect(adj: Adjacency, w: WeightTable, u: Vertex, v: Vertex, x: int, directed: bool)
    requires u in adj && v in adj
    ensures var a := AddEdgeArcs(adj, u, v, directed);
      u in a && v in a[u] && (!directed ==> v in a && u in a[v])
    ensures var t := AddEdgeWeights(w, u, v, x, directed);
      u in t && v in t[u] && t[u][v] == x && (!directed ==> v in t && u in t[v] && t[v][u] == x)
  {
    var a := AddArc(adj, u, v);
    assert a[u][|a[u]| - 1] == v;
    if !directed {
      var b := AddArc(a, v, u);
      assert b[v][|b[v]| - 1] == u;
      assert v in b[u] by {
        if u == v {
          assert b[u][|a[u]| - 1] == v;
        }
      }
    }
  }

  /** `remove_edge(u, v)` undoes `add_edge(u, v, x)` between two distinct
      vertices that had no edge: both tables come back as they were. */
  lemma AddThenRemoveEdge(adj: Adjacency, w: WeightTable, u: Vertex, v: Vertex, x: int, directed: bool)
    requires u in adj && v in adj && u != v && v !in adj[u] && (!directed ==> u !in adj[v])
    requires u in w && v !in w[u] && (!directed ==> v in w && u !in w[v])
    ensures directed ==>
      && RemoveArc(AddEdgeArcs(adj, u, v, true), u, v) == adj
      && DropWeight(AddEdgeWeights(w, u, v, x, true), u, v) == w
    ensures !directed ==>
      && RemoveArc(RemoveArc(AddEdgeArcs(adj, u, v, false), u, v), v, u) == adj
      && DropWeight(DropWeight(AddEdgeWeights(w, u, v, x, false), u, v), v, u) == w
  {
    RemoveFirstAppended(adj[u], v);
    assert AddArc(adj, u, v)[u] == adj[u] + [v];
    assert RemoveArc(AddArc(adj, u, v), u, v) == adj;
    var t := SetArcWeight(w, u, v, x);
    assert t[u] - {v} == w[u];
    assert DropWeight(t, u, v) == w;
    if !directed {
      RemoveFirstAppended(adj[v], u);
      var a := AddArc(AddArc(adj, u, v), v, u);
      assert a[v] == adj[v] + [u];
      assert RemoveArc(a, u, v) == AddArc(adj, v, u)[u := adj[u]];
      var t2 := SetArcWeight(t, v, u, x);
      assert t2[v] - {u} == w[v];
      assert DropWeight(t2, u, v) == SetArcWeight(w, v, u, x);
    }
  }

  lemma AddEdgeKeeps(vs: seq<Vertex>, adj: Adjacency, w: WeightTable, directed: bool, weighted: bool,
                     u: Vertex, v: Vertex, x: int)
    requires WellFormed(vs, adj, w, directed, weighted)
    requires u in adj && v in adj && v !in adj[u]
    ensures WellFormed(vs, AddEdgeArcs(adj, u, v, directed),
                       if weighted then AddEdgeWeights(w, u, v, x, directed) else w, directed, weighted)
  {
    AddArcKeepsRepeats(adj, u, v);
    if !directed {
      assert u != v ==> u !in adj[v];
      AddArcKeepsRepeats(AddArc(adj, u, v), v, u);
    }
    AddEdgeKeepsShape(adj, u, v, directed);
    if weighted {
      AddEdgeKeepsWeights(adj, w, u, v, x, directed);
    }
  }

  lemma RemoveArcKeepsRepeats(adj: Adjacency, u: Vertex, v: Vertex)
    requires u in adj && v in adj[u] && OnlySelfRepeats(adj)
    ensures var a := RemoveArc(adj, u, v);
      && OnlySelfRepeats(a)
      && Elems(a[u]) <= Elems(adj[u])
      && (forall y :: y != v && y in adj[u] ==> y in a[u])
      && (v != u ==> v !in a[u])
  {
    RemoveFirstElems(adj[u], v);
    RemoveFirstRepeats(adj[u], v, u);
  }

  lemma RemoveDirectedEdgeKeeps(vs: seq<Vertex>, adj: Adjacency, w: WeightTable, weighted: bool,
                                u: Vertex, v: Vertex)
    requires WellFormed(vs, adj, w, true, weighted)
    requires u in adj && v in adj[u]
    ensures WellFormed(vs, RemoveArc(adj, u, v), if weighted then DropWeight(w, u, v) else w, true, weighted)
  {
    RemoveArcKeepsRepeats(adj, u, v);
  }

  /** What one `list.remove` keeps and drops, table-wide. */
  lemma RemoveArcFacts(adj: Adjacency, u: Vertex, v: Vertex)
    requires u in adj && v in adj[u] && OnlySelfRepeats(adj)
    ensures var a := RemoveArc(adj, u, v);
      && a.Keys == adj.Keys
      && OnlySelfRepeats(a)
      && (forall k, y :: k in a && y in a[k] ==> y in adj[k])
      && (forall k, y :: k in adj && y in adj[k] && (k != u || y != v) ==> y in a[k])
      && (u != v ==> v !in a[u])
  {
    RemoveArcKeepsRepeats(adj, u, v);
  }

  lemma RemoveUndirectedKeepsShape(adj: Adjacency, u: Vertex, v: Vertex)
    requires Closed(adj) && Symmetric(adj) && OnlySelfRepeats(adj)
    requires u in adj && v in adj[u] && u in RemoveArc(adj, u, v)[v]
    ensures var a := RemoveArc(RemoveArc(adj, u, v), v, u);
      && Closed(a) && Symmetric(a) && OnlySelfRepeats(a)
      && (forall k, y :: k in a && y in a[k] ==> y in adj[k])
      && (forall k, y :: k in adj && y in adj[k] && y != k && (k, y) != (u, v) && (k, y) != (v, u) ==> y in a[k])
      && (u != v ==> v !in a[u] && u !in a[v])
  {
    var a1 := RemoveArc(adj, u, v);
    RemoveArcFacts(adj, u, v);
    RemoveArcFacts(a1, v, u);
    var a := RemoveArc(a1, v, u);
    forall k, y | k in a && y in a && y in a[k] ensures k in a[y] {
      assert y in adj[k];
    }
  }

  lemma RemoveUndirectedKeepsWeights(adj: Adjacency, w: WeightTable, u: Vertex, v: Vertex)
    requires Closed(adj) && Symmetric(adj) && OnlySelfRepeats(adj) && WeightsCover(adj, w)
    requires u in adj && v in adj[u] && u in RemoveArc(adj, u, v)[v]
    ensures WeightsCover(RemoveArc(RemoveArc(adj, u, v), v, u), DropWeight(DropWeight(w, u, v), v, u))
  {
    RemoveUndirectedKeepsShape(adj, u, v);
    var a := RemoveArc(RemoveArc(adj, u, v), v, u);
    var w' := DropWeight(DropWeight(w, u, v), v, u);
    assert u in w && v in w;
    assert w' == w[u := w[u] - {v}][v := w[u := w[u] - {v}][v] - {u}];
    DroppedWeightsCover(a, w, w', u, v);
    DroppedWeightsAreArcs(adj, a, w, w', u, v);
  }

  lemma DroppedWeightsCover(a: Adjacency, w: WeightTable, w': WeightTable, u: Vertex, v: Vertex)
    requires forall k :: k in w <==> k in a
    requires forall k, y :: k in a && y in a[k] && y != k ==> y in w[k]
    requires u in w && v in w && w' == w[u := w[u] - {v}][v := w[u := w[u] - {v}][v] - {u}]
    requires u != v ==> v !in a[u] && u !in a[v]
    ensures forall k :: k in w' <==> k in a
    ensures forall k, y :: k in a && y in a[k] && y != k ==> y in w'[k]
  {
  }

  lemma DroppedWeightsAreArcs(adj: Adjacency, a: Adjacency, w: WeightTable, w': WeightTable, u: Vertex, v: Vertex)
    requires a.Keys == adj.Keys && w.Keys == adj.Keys
    requires forall k, y :: k in w && y in w[k] ==> y in adj[k] || y == k
    requires forall k, y :: k in adj && y in adj[k] && y != k && (k, y) != (u, v) && (k, y) != (v, u) ==> y in a[k]
    requires u in w && v in w && w' == w[u := w[u] - {v}][v := w[u := w[u] - {v}][v] - {u}]
    ensures forall k, y :: k in w' && y in w'[k] ==> y in a[k] || y == k
  {
    forall k, y | k in w' && y in w'[k] ensures y in a[k] || y == k {
      assert y in w[k];
    }
  }

  lemma RemoveUndirectedEdgeKeeps(vs: seq<Vertex>, adj: Adjacency, w: WeightTable, weighted: bool,
                                  u: Vertex, v: Vertex)
    requires WellFormed(vs, adj, w, false, weighted)
    requires u in adj && v in adj[u] && u in RemoveArc(adj, u, v)[v]
    ensures WellFormed(vs, RemoveArc(RemoveArc(adj, u, v), v, u),
                       if weighted then DropWeight(DropWeight(w, u, v), v, u) else w, false, weighted)
  {
    RemoveUndirectedKeepsShape(adj, u, v);
    if weighted {
      RemoveUndirectedKeepsWeights(adj, w, u, v);
    }
  }

  /** The partial removal of an undirected self-loop stored once. */
  lemma RemoveLoneLoopKeeps(vs: seq<Vertex>, adj: Adjacency, w: WeightTable, weighted: bool, u: Vertex)
    requires WellFormed(vs, adj, w, false, weighted)
    requires u in adj && u in adj[u]
    ensures WellFormed(vs, RemoveArc(adj, u, u), w, false, weighted)
  {
    RemoveArcKeepsRepeats(adj, u, u);
  }

  lemma DeleteVertexKeepsOrder(vs: seq<Vertex>, adj: Adjacency, x: Vertex)
    requires KeyOrder(vs, adj) && x in adj
    ensures KeyOrder(RemoveFirst(vs, x), DeleteVertexArcs(adj, x))
  {
    var r := RemoveFirst(vs, x);
    RemoveFirstElems(vs, x);
    RemoveFirstRepeats(vs, x, x);
  }

  /** One list after `remove_vertex(x)`: `x` is gone, nothing else is, and
      only the owner can still repeat. */
  lemma StripRowKeeps(adj: Adjacency, x: Vertex, k: Vertex)
    requires OnlySelfRepeats(adj) && k in adj && k != x
    ensures var s := Strip(adj[k], x);
      && x !in s && Elems(s) == Elems(adj[k]) - {x}
      && forall i, j :: 0 <= i < j < |s| && s[i] == s[j] ==> s[i] == k
  {
    if x in adj[k] {
      RemoveFirstElems(adj[k], x);
      RemoveFirstRepeats(adj[k], x, k);
    }
  }

  lemma DeleteVertexKeepsShape(adj: Adjacency, x: Vertex, directed: bool)
    requires Closed(adj) && OnlySelfRepeats(adj) && (!directed ==> Symmetric(adj)) && x in adj
    ensures var a := DeleteVertexArcs(adj, x);
      && Closed(a) && OnlySelfRepeats(a) && (!directed ==> Symmetric(a))
      && (forall k :: k in a ==> x !in a[k] && Elems(a[k]) == Elems(adj[k]) - {x})
  {
    var a := DeleteVertexArcs(adj, x);
    forall k | k in a
      ensures x !in a[k]
      ensures Elems(a[k]) == Elems(adj[k]) - {x}
      ensures forall i, j :: 0 <= i < j < |a[k]| && a[k][i] == a[k][j] ==> a[k][i] == k
    {
      StripRowKeeps(adj, x, k);
    }
    forall k, y | k in a && y in a[k] ensures y in a && y in adj[k] {
      assert y in Elems(a[k]);
    }
  }

  lemma DeleteVertexKeepsWeights(adj: Adjacency, w: WeightTable, x: Vertex)
    requires WeightsCover(adj, w) && x in adj
    requires forall k :: k in adj && k != x ==> Elems(DeleteVertexArcs(adj, x)[k]) == Elems(adj[k]) - {x}
    ensures WeightsCover(DeleteVertexArcs(adj, x), DeleteVertexWeights(w, x))
  {
    var a := DeleteVertexArcs(adj, x);
    var w' := DeleteVertexWeights(w, x);
    forall k, y | k in a && y in a[k] && y != k ensures y in w'[k] {
      assert y in Elems(a[k]);
    }
    forall k, y | k in w' && y in w'[k] ensures y in a[k] || y == k {
      assert y in w[k];
      assert y in Elems(adj[k]) - {x} || y == k;
    }
  }

  lemma RemoveVertexKeeps(vs: seq<Vertex>, adj: Adjacency, w: WeightTable, directed: bool, weighted: bool,
                          x: Vertex)
    requires WellFormed(vs, adj, w, directed, weighted) && x in adj
    ensures WellFormed(RemoveFirst(vs, x), DeleteVertexArcs(adj, x),
                       if weighted then DeleteVertexWeights(w, x) else w, directed, weighted)
    ensures forall k :: k in DeleteVertexArcs(adj, x) ==> x !in DeleteVertexArcs(adj, x)[k]
  {
    DeleteVertexKeepsOrder(vs, adj, x);
    DeleteVertexKeepsShape(adj, x, directed);
    if weighted {
      DeleteVertexKeepsWeights(adj, w, x);
    }
  }

  lemma ZeroWeightsCover(adj: Adjacency)
    ensures WeightsCover(adj, ZeroWeights(adj))
  {
  }

  /** Reversing a symmetric table adds nothing. */
  lemma SymmetricReversalIsIdentity(adj: Adjacency, weights: WeightTable, w: WeightTable)
    requires Symmetric(adj) && ReversedWeights(adj, weights, w)
    requires forall u :: u in weights ==> u in adj
    ensures w == weights
  {
    forall u | u in w ensures w[u] == weights[u] {
      forall z | z in w[u] ensures z in weights[u] {
        if z in adj && u in adj && u in adj[z] {
          assert z in adj[u];
        }
      }
      assert w[u].Keys == weights[u].Keys;
    }
  }

  /** The lists `change_if_directed` leaves when it turns a graph
      undirected (every list holds its old neighbours and its old inbound
      neighbours, each once) form a symmetric table. */
  lemma ClosedUnderReverseShape(vs: seq<Vertex>, A: Adjacency, adj: Adjacency)
    requires KeyOrder(vs, A) && Closed(A)
    requires adj.Keys == A.Keys
    requires forall u :: u in adj ==> NoDup(adj[u])
    requires forall u :: u in adj ==> Elems(adj[u]) == Elems(A[u]) + Inbound(A, u)
    ensures KeyOrder(vs, adj) && Closed(adj) && OnlySelfRepeats(adj) && Symmetric(adj)
  {
    forall u, v | u in adj && v in adj[u] ensures v in adj && (u in adj[v]) {
      assert v in Elems(adj[u]);
      assert v in A;
      assert u in Elems(adj[v]);
    }
  }

  /** ... and the reversed weights cover that table. */
  lemma ClosedUnderReverseWeights(A: Adjacency, W: WeightTable, adj: Adjacency, w: WeightTable)
    requires Closed(A) && WeightsCover(A, W) && ReversedWeights(A, W, w)
    requires adj.Keys == A.Keys
    requires forall u :: u in adj ==> Elems(adj[u]) == Elems(A[u]) + Inbound(A, u)
    ensures WeightsCover(adj, w)
  {
    ReversedEntriesAreArcs(A, W, adj, w);
    ReversedArcsHaveEntries(A, W, adj, w);
  }

  lemma ReversedEntriesAreArcs(A: Adjacency, W: WeightTable, adj: Adjacency, w: WeightTable)
    requires WeightsCover(A, W) && ReversedWeights(A, W, w)
    requires adj.Keys == A.Keys
    requires forall u :: u in adj ==> Elems(adj[u]) == Elems(A[u]) + Inbound(A, u)
    ensures forall u, z :: u in w && z in w[u] ==> z in adj[u] || z == u
  {
    forall u, z | u in w && z in w[u] ensures z in adj[u] || z == u {
      assert u in A;
      ReversedEntryIsArc(A, W, w, u, z);
      assert u in adj;
      assert z in Elems(A[u]) + Inbound(A, u) || z == u;
    }
  }

  lemma ReversedEntryIsArc(A: Adjacency, W: WeightTable, w: WeightTable, u: Vertex, z: Vertex)
    requires WeightsCover(A, W) && ReversedWeights(A, W, w)
    requires u in w && u in A && z in w[u]
    ensures z in A[u] || z == u || z in Inbound(A, u)
  {
    if z in W[u] {
      assert z in A[u] || z == u;
    } else {
      AddedEntryIsReverseArc(A, W, w, u, z);
      assert z in Inbound(A, u);
    }
  }

  /** An entry the reversal added to the row of `u` is the reverse of an arc. */
  lemma AddedEntryIsReverseArc(A: Adjacency, W: WeightTable, w: WeightTable, u: Vertex, z: Vertex)
    requires ReversedWeights(A, W, w)
    requires u in w && u in A && z in w[u] && z !in W[u]
    ensures z in A && u in A[z]
  {
    assert u in W;
  }

  lemma ReversedArcsHaveEntries(A: Adjacency, W: WeightTable, adj: Adjacency, w: WeightTable)
    requires WeightsCover(A, W) && ReversedWeights(A, W, w)
    requires adj.Keys == A.Keys
    requires forall u :: u in adj ==> Elems(adj[u]) == Elems(A[u]) + Inbound(A, u)
    ensures forall u, z :: u in adj && z in adj[u] && z != u ==> z in w[u]
  {
    forall u, z | u in adj && z in adj[u] && z != u ensures z in w[u] {
      assert u in A && u in W && u in w;
      assert z in Elems(adj[u]);
      if z in A[u] {
        assert z in W[u];
      } else {
        assert z in Inbound(A, u);
      }
    }
  }

  // ----------------------------------------------------------------------
  // The reversal loop of `change_if_directed`, one step at a time

  /** What the reversal loop has done to the lists once the arcs in `done`
      have been visited: every list holds its old entries plus the sources
      of the visited arcs entering it. */
  ghost predicate ArcProgress(A: Adjacency, adj: Adjacency, done: set<(Vertex, Vertex)>) {
    && (forall p :: p in done ==> p.0 in A && p.1 in A[p.0])
    && adj.Keys == A.Keys
    && OnlySelfRepeats(adj)
    && (forall u, z :: u in adj ==> (z in adj[u] <==> z in A[u] || (z, u) in done))
  }

  /** What the reversal loop has done to the weights: the old entries are
      kept, and the new ones are the reverse entries of visited arcs whose
      reverse was missing, with the same weight. */
  ghost predicate WeightProgress(A: Adjacency, W: WeightTable, w: WeightTable, done: set<(Vertex, Vertex)>) {
    w.Keys == W.Keys && KeepsEntries(W, w) && AddedAreReversed(A, W, w, done) && VisitedAdded(A, w, done)
  }

  /** Every entry of `W` is still in `w`, with the same weight. */
  ghost predicate KeepsEntries(W: WeightTable, w: WeightTable) {
    forall u, z :: u in W && z in W[u] ==> u in w && z in w[u] && w[u][z] == W[u][z]
  }

  /** Every entry of `w` missing from `W` is the reverse of a visited arc
      whose own reverse was missing, and carries that arc's weight. */
  ghost predicate AddedAreReversed(A: Adjacency, W: WeightTable, w: WeightTable, done: set<(Vertex, Vertex)>)
    requires w.Keys == W.Keys
  {
    forall u, z :: u in w && u in A && z in w[u] && z !in W[u] ==>
      (z, u) in done && z in W && u in W[z] && z !in A[u] && w[u][z] == W[z][u]
  }

  /** Every visited arc whose reverse was missing has its reverse entry. */
  ghost predicate VisitedAdded(A: Adjacency, w: WeightTable, done: set<(Vertex, Vertex)>) {
    forall u, z :: u in w && u in A && (z, u) in done && z !in A[u] ==> z in w[u]
  }

  /** Once every arc has been visited, the progress is the whole reversal. */
  /** Once every arc has been visited, every list holds its old neighbours
      and its inbound neighbours. */
  lemma ArcProgressDone(A: Adjacency, adj: Adjacency, done: set<(Vertex, Vertex)>)
    requires ArcProgress(A, adj, done)
    requires forall z, u :: z in A && u in A[z] ==> (z, u) in done
    ensures forall u :: u in adj ==> Elems(adj[u]) == Elems(A[u]) + Inbound(A, u)
  {
    forall u | u in adj ensures Elems(adj[u]) == Elems(A[u]) + Inbound(A, u) {
      forall z ensures z in Elems(adj[u]) <==> z in Elems(A[u]) + Inbound(A, u) {
        assert z in Elems(adj[u]) <==> z in adj[u];
        if z in Inbound(A, u) { assert (z, u) in done; }
      }
    }
  }

  lemma WeightProgressDone(A: Adjacency, W: WeightTable, w: WeightTable, done: set<(Vertex, Vertex)>)
    requires WeightProgress(A, W, w, done)
    requires forall p :: p in done ==> p.0 in A && p.1 in A[p.0]
    requires forall z, u :: z in A && u in A[z] ==> (z, u) in done
    ensures ReversedWeights(A, W, w)
  {
    forall u, z | u in w && u in A && z in w[u] && z !in W[u]
      ensures z in A && u in A[z] && z in W && u in W[z] && z !in A[u] && w[u][z] == W[z][u]
    {
      assert (z, u) in done;
    }
    forall u, z | u in w && u in A && z in A && u in A[z] && z !in A[u] ensures z in w[u] {
      assert (z, u) in done;
    }
  }

  /** One iteration of the inner loop: `vertex` visits its neighbour `y`. */
  function ReverseStepArcs(adj: Adjacency, vertex: Vertex, y: Vertex): Adjacency
    requires y in adj
  {
    if vertex !in adj[y] then adj[y := adj[y] + [vertex]] else adj
  }

  function ReverseStepWeights(adj: Adjacency, w: WeightTable, vertex: Vertex, y: Vertex): WeightTable
    requires y in adj
  {
    if vertex !in adj[y] then
      var w1 := w[y := Row(w, y)];
      w1[y := w1[y][vertex := GetOr(GetOr(w1, vertex, map[]), y, 0)]]
    else w
  }

  /** The arcs visited after `vertex` visits `y`. */
  function VisitArc(A: Adjacency, done: set<(Vertex, Vertex)>, vertex: Vertex, y: Vertex): set<(Vertex, Vertex)>
    requires vertex in A
  {
    if y in A[vertex] then done + {(vertex, y)} else done
  }

  lemma ReverseStepKeepsArcs(A: Adjacency, adj: Adjacency, done: set<(Vertex, Vertex)>, vertex: Vertex, y: Vertex)
    requires Closed(A) && ArcProgress(A, adj, done)
    requires vertex in adj && y in adj[vertex]
    ensures y in adj && y in A && vertex in A
    ensures ArcProgress(A, ReverseStepArcs(adj, vertex, y), VisitArc(A, done, vertex, y))
    ensures vertex !in adj[y] ==> y in A[vertex] && vertex !in A[y] && (vertex, y) !in done
    ensures vertex in adj[y] && y in A[vertex] && vertex !in A[y] ==> (vertex, y) in done
    ensures forall u :: u in adj && NoDup(adj[u]) ==> NoDup(ReverseStepArcs(adj, vertex, y)[u])
    ensures adj[vertex] <= ReverseStepArcs(adj, vertex, y)[vertex]
  {
    assert y in A by { if y !in A[vertex] { assert (y, vertex) in done; } }
    var adj' := ReverseStepArcs(adj, vertex, y);
    var done' := VisitArc(A, done, vertex, y);
    if vertex !in adj[y] {
      AddArcKeepsRepeats(adj, y, vertex);
      forall u, z | u in adj' ensures z in adj'[u] <==> z in A[u] || (z, u) in done' {
        if u == y {
          assert z in adj'[u] <==> z in adj[u] || z == vertex;
        }
      }
      forall u | u in adj && NoDup(adj[u]) ensures NoDup(adj'[u]) {
        if u == y {
          forall i, j | 0 <= i < j < |adj'[u]| ensures adj'[u][i] != adj'[u][j] {
            if j == |adj[u]| { assert adj'[u][i] in adj[u]; }
          }
        }
      }
    } else {
      forall u, z | u in adj' ensures z in adj'[u] <==> z in A[u] || (z, u) in done' {
        if (z, u) in done' && (z, u) !in done {
          assert z == vertex && u == y;
        }
      }
    }
  }

  lemma WeightStepAppend(A: Adjacency, W: WeightTable, w: WeightTable,
                         done: set<(Vertex, Vertex)>, vertex: Vertex, y: Vertex)
    requires WeightsCover(A, W) && WeightProgress(A, W, w, done)
    requires vertex in A && y in A && y in A[vertex] && vertex !in A[y] && (vertex, y) !in done
    ensures vertex in w && y in w && y in w[vertex] && w[vertex][y] == W[vertex][y]
    ensures WeightProgress(A, W, w[y := w[y][vertex := w[vertex][y]]], done + {(vertex, y)})
  {
    assert vertex != y;
    assert y in W && vertex in W;
    assert y in W[vertex];
    assert vertex !in W[y];
    var x := w[vertex][y];
    AppendKeepsEntries(W, w, y, vertex, x);
    AppendAddsReversed(A, W, w, done, vertex, y, x);
    AppendCoversVisited(A, w, done, vertex, y, x);
  }

  lemma AppendKeepsEntries(W: WeightTable, w: WeightTable, y: Vertex, vertex: Vertex, x: int)
    requires KeepsEntries(W, w) && y in w && y in W && vertex !in W[y]
    ensures KeepsEntries(W, w[y := w[y][vertex := x]])
  {
  }

  lemma AppendAddsReversed(A: Adjacency, W: WeightTable, w: WeightTable, done: set<(Vertex, Vertex)>,
                           vertex: Vertex, y: Vertex, x: int)
    requires w.Keys == W.Keys && AddedAreReversed(A, W, w, done) && y in w
    requires vertex in W && y in W[vertex] && x == W[vertex][y] && y in A && vertex !in A[y] && vertex !in W[y]
    ensures AddedAreReversed(A, W, w[y := w[y][vertex := x]], done + {(vertex, y)})
  {
    var w' := w[y := w[y][vertex := x]];
    assert w'.Keys == W.Keys;
    forall u, z | u in w' && u in A && z in w'[u] && z !in W[u]
      ensures (z, u) in done + {(vertex, y)} && z in W && u in W[z] && z !in A[u] && w'[u][z] == W[z][u]
    {
      if u == y && z == vertex {
        assert w'[u][z] == x;
      } else {
        assert z in w[u] && w'[u][z] == w[u][z];
        assert (z, u) in done && z in W && u in W[z] && z !in A[u] && w[u][z] == W[z][u];
      }
    }
  }

  lemma AppendCoversVisited(A: Adjacency, w: WeightTable, done: set<(Vertex, Vertex)>,
                            vertex: Vertex, y: Vertex, x: int)
    requires VisitedAdded(A, w, done) && y in w
    ensures VisitedAdded(A, w[y := w[y][vertex := x]], done + {(vertex, y)})
  {
    var w' := w[y := w[y][vertex := x]];
    forall u, z | u in w' && u in A && (z, u) in done + {(vertex, y)} && z !in A[u] ensures z in w'[u] {
      if u != y || z != vertex {
        assert (z, u) in done;
      }
    }
  }

  lemma WeightStepNothing(A: Adjacency, W: WeightTable, w: WeightTable,
                          done: set<(Vertex, Vertex)>, vertex: Vertex, y: Vertex)
    requires WeightProgress(A, W, w, done)
    requires vertex in A && y in A
    requires y in A[vertex] && vertex !in A[y] ==> (vertex, y) in done
    ensures WeightProgress(A, W, w, VisitArc(A, done, vertex, y))
  {
    var done' := VisitArc(A, done, vertex, y);
    forall u, z | u in w && u in A && (z, u) in done' && z !in A[u] ensures z in w[u] {
      assert (z, u) in done;
    }
  }

  lemma SetWeightKeeps(vs: seq<Vertex>, adj: Adjacency, w: WeightTable, directed: bool,
                       u: Vertex, v: Vertex, x: int)
    requires WellFormed(vs, adj, w, directed, true)
    requires u in adj && v in adj[u] && (!directed ==> v in adj && u in adj[v])
    ensures WellFormed(vs, adj, AddEdgeWeights(w, u, v, x, directed), directed, true)
  {
  }

  /** Replacing a list by one with the same elements and no repeats keeps
      the progress of the reversal loop. */
  lemma DedupKeepsProgress(A: Adjacency, adj: Adjacency, done: set<(Vertex, Vertex)>, k: Vertex, s: seq<Vertex>)
    requires ArcProgress(A, adj, done) && k in adj
    requires NoDup(s) && Elems(s) == Elems(adj[k])
    ensures ArcProgress(A, adj[k := s], done)
  {
    var adj' := adj[k := s];
    forall u, z | u in adj' ensures z in adj'[u] <==> z in A[u] || (z, u) in done {
      if u == k {
        assert z in s <==> z in Elems(s);
        assert z in adj[k] <==> z in Elems(adj[k]);
      }
    }
  }

  // ----------------------------------------------------------------------
  // Walks

  /** A walk: a non-empty sequence of vertices of the graph, each a
      neighbour of the one before it. */
  ghost predicate IsWalk(adj: Adjacency, p: seq<Vertex>)
    decreases |p|
  {
    |p| >= 1 && p[0] in adj && (|p| == 1 || (p[1] in adj[p[0]] && IsWalk(adj, p[1..])))
  }

  /** A walk from `s` to `t`, a vertex of the graph; it has `|p| - 1` steps. */
  ghost predicate WalkBetween(adj: Adjacency, p: seq<Vertex>, s: Vertex, t: Vertex) {
    IsWalk(adj, p) && p[0] == s && p[|p| - 1] == t && t in adj
  }

  /** A walk to `x` followed by a step to a neighbour `y` of `x` is a walk to `y`. */
  lemma {:induction false} WalkExtend(adj: Adjacency, p: seq<Vertex>, s: Vertex, x: Vertex, y: Vertex)
    requires WalkBetween(adj, p, s, x) && y in adj && y in adj[x]
    ensures WalkBetween(adj, p + [y], s, y)
    decreases |p|
  {
    if |p| == 1 {
      assert p + [y] == [x, y];
      assert [x, y][1..] == [y];
    } else {
      assert (p + [y])[1..] == p[1..] + [y];
      WalkExtend(adj, p[1..], p[1], x, y);
    }
  }

  /** The walk without its last step, which is a step from a vertex of the
      graph. */
  lemma {:induction false} WalkPrefix(adj: Adjacency, p: seq<Vertex>, s: Vertex, t: Vertex)
    requires WalkBetween(adj, p, s, t) && |p| >= 2
    ensures WalkBetween(adj, p[..|p| - 1], s, p[|p| - 2])
    ensures p[|p| - 2] in adj && t in adj[p[|p| - 2]]
    decreases |p|
  {
    if |p| == 2 {
      assert p[..1] == [s];
    } else {
      WalkPrefix(adj, p[1..], p[1], t);
      assert p[..|p| - 1][1..] == p[1..][..|p| - 2];
    }
  }

  /** A walk to `m` followed by a walk from `m` is a walk. */
  lemma {:induction false} WalkConcat(adj: Adjacency, p: seq<Vertex>, q: seq<Vertex>, s: Vertex, m: Vertex, t: Vertex)
    requires WalkBetween(adj, p, s, m) && WalkBetween(adj, q, m, t)
    ensures WalkBetween(adj, p + q[1..], s, t)
    decreases |p|
  {
    if |p| == 1 {
      assert p + q[1..] == q;
    } else {
      assert (p + q[1..])[1..] == p[1..] + q[1..];
      WalkConcat(adj, p[1..], q, p[1], m, t);
    }
  }

  /** In a symmetric table a walk read backwards is a walk. */
  lemma {:induction false} WalkReverse(adj: Adjacency, p: seq<Vertex>, s: Vertex, t: Vertex)
    requires Symmetric(adj) && WalkBetween(adj, p, s, t)
    ensures WalkBetween(adj, Reverse(p), t, s)
    decreases |p|
  {
    if |p| == 1 {
      assert Reverse(p) == [s];
    } else {
      WalkReverse(adj, p[1..], p[1], t);
      assert p[1] in adj;
      WalkExtend(adj, Reverse(p[1..]), t, p[1], s);
    }
  }

  /** Every arc of `adj` is an arc of `adj'`. */
  ghost predicate ArcsWithin(adj: Adjacency, adj': Adjacency) {
    forall u :: u in adj ==> u in adj' && forall v :: v in adj[u] ==> v in adj'[u]
  }

  /** A walk stays a walk when arcs are added. */
  lemma {:induction false} WalkGrow(adj: Adjacency, adj': Adjacency, p: seq<Vertex>)
    requires ArcsWithin(adj, adj') && IsWalk(adj, p)
    ensures IsWalk(adj', p)
    decreases |p|
  {
    if |p| > 1 {
      WalkGrow(adj, adj', p[1..]);
    }
  }

  /** `t` can be reached from `s`. */
  ghost predicate Reachable(adj: Adjacency, s: Vertex, t: Vertex) {
    exists p :: WalkBetween(adj, p, s, t)
  }

  lemma ReachRefl(adj: Adjacency, s: Vertex)
    requires s in adj
    ensures Reachable(adj, s, s)
  {
    assert WalkBetween(adj, [s], s, s);
  }

  lemma ReachArc(adj: Adjacency, s: Vertex, t: Vertex)
    requires s in adj && t in adj && t in adj[s]
    ensures Reachable(adj, s, t)
  {
    assert WalkBetween(adj, [s], s, s);
    WalkExtend(adj, [s], s, s, t);
  }

  lemma ReachTrans(adj: Adjacency, s: Vertex, m: Vertex, t: Vertex)
    requires Reachable(adj, s, m) && Reachable(adj, m, t)
    ensures Reachable(adj, s, t)
  {
    var p :| WalkBetween(adj, p, s, m);
    var q :| WalkBetween(adj, q, m, t);
    WalkConcat(adj, p, q, s, m, t);
  }

  lemma ReachSym(adj: Adjacency, s: Vertex, t: Vertex)
    requires Symmetric(adj) && Reachable(adj, s, t)
    ensures Reachable(adj, t, s)
  {
    var p :| WalkBetween(adj, p, s, t);
    WalkReverse(adj, p, s, t);
  }

  lemma ReachGrow(adj: Adjacency, adj': Adjacency, s: Vertex, t: Vertex)
    requires ArcsWithin(adj, adj') && Reachable(adj, s, t)
    ensures Reachable(adj', s, t)
  {
    var p :| WalkBetween(adj, p, s, t);
    WalkGrow(adj, adj', p);
    assert WalkBetween(adj', p, s, t);
  }
}
