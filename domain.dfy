/** The graph store of `domain.py` (`SimpleDirectedGraph`): an object whose
    two tables and two mode flags are changed in place by its mutators. The
    queries are functions of the fields. */
module Domain {
  import opened Common
  import opened GraphModel

  /** `is_edge` on the tables: in undirected mode both directions are checked. */
  function EdgeIn(adj: Adjacency, directed: bool, u: Vertex, v: Vertex): bool {
    if directed then u in adj && v in adj[u]
    else u in adj && v in adj[u] && v in adj && u in adj[v]
  }

  /** `get_weight` on the tables. */
  function WeightIn(adj: Adjacency, weights: WeightTable, directed: bool, weighted: bool,
                    u: Vertex, v: Vertex): Result<int>
  {
    if EdgeIn(adj, directed, u, v) && weighted then
      if u in weights && v in weights[u] then Success(weights[u][v]) else Failure(MissingKey)
    else
      Failure(NoSuchEdge)
  }

  class Graph {
    /** The keys of `graph_repo` in insertion order. */
    var vertices: seq<Vertex>
    /** `graph_repo`. */
    var adj: Adjacency
    /** `graph_weight_repo`. */
    var weights: WeightTable
    var isDirected: bool
    var isWeighted: bool

    ghost predicate Valid()
      reads this
    {
      WellFormed(vertices, adj, weights, isDirected, isWeighted)
    }

    /** A new store is empty, undirected and unweighted. */
    constructor ()
      ensures Valid()
      ensures vertices == [] && adj == map[] && weights == map[]
      ensures !isDirected && !isWeighted
    {
      vertices, adj, weights := [], map[], map[];
      isDirected, isWeighted := false, false;
    }

    // ------------------------------------------------------------------
    // Queries

    /** `is_edge`: in undirected mode both directions are checked, which the
        symmetry invariant makes equivalent to checking one. */
    function IsEdge(u: Vertex, v: Vertex): (b: bool)
      reads this
      ensures Valid() ==> (b <==> u in adj && v in adj[u])
      ensures Valid() && !isDirected ==> (b <==> v in adj && u in adj[v])
    {
      EdgeIn(adj, isDirected, u, v)
    }

    /** `get_weight`: the stored weight of an existing edge of a weighted
        graph; one error covers both a missing edge and an unweighted graph.
        A self-loop whose weight was dropped raises a KeyError. */
    function GetWeight(u: Vertex, v: Vertex): (r: Result<int>)
      reads this
      ensures r.Success? ==> isWeighted && IsEdge(u, v) && u in weights && v in weights[u] && r.value == weights[u][v]
      ensures !(isWeighted && IsEdge(u, v)) ==> r == Failure(NoSuchEdge)
      ensures Valid() && isWeighted && IsEdge(u, v) && u != v ==> r.Success?
    {
      WeightIn(adj, weights, isDirected, isWeighted, u, v)
    }

    /** `get_v`. */
    function GetV(): (n: nat)
      reads this
      requires Valid()
      ensures n == |vertices|
    {
      CardElems(vertices);
      assert Elems(vertices) == adj.Keys;
      |adj|
    }

    /** The summed length of all adjacency lists. */
    function TotalDegree(): nat
      reads this
      requires Valid()
    {
      SumLengths(adj, vertices)
    }

    /** `get_e`: the summed list length, halved in undirected mode. */
    function GetE(): nat
      reads this
      requires Valid()
    {
      if isDirected then TotalDegree() else TotalDegree() / 2
    }

    /** Without self-loops `get_e` counts the edges: every arc once in
        directed mode, and in undirected mode every edge u-v, stored as the
        two arcs u -> v and v -> u, once (the halving is exact). */
    lemma {:induction false} GetECountsEdges()
      requires Valid() && NoSelfLoops(adj)
      ensures isDirected ==> GetE() == |Arcs(adj, adj.Keys)|
      ensures !isDirected ==> 2 * GetE() == |Arcs(adj, adj.Keys)|
    {
      assert Elems(vertices) == adj.Keys;
      forall v | v in vertices ensures NoDup(adj[v]) {
        assert v !in adj[v];
      }
      SumLengthsCountsArcs(adj, vertices);
      if !isDirected {
        TotalDegreeEven(vertices, adj);
      }
    }

    /** `neighbours`: a copy of the neighbour list (a sequence is a value, so
        the caller can never alias the store's list). */
    function Neighbours(x: Vertex): (r: Result<seq<Vertex>>)
      reads this
      ensures r.Success? <==> x in adj
      ensures r.Success? ==> r.value == adj[x]
    {
      if x in adj then Success(adj[x]) else Failure(UnknownVertex)
    }

    /** The vertices of `vs`, in order, whose lists contain `x`. */
    function InboundAmong(vs: seq<Vertex>, x: Vertex): seq<Vertex>
      reads this
      requires forall k :: k in vs ==> k in adj
    {
      if vs == [] then []
      else (if x in adj[vs[0]] then [vs[0]] else []) + InboundAmong(vs[1..], x)
    }

    /** `inbound_neighbours`: in directed mode the vertices, in key order,
        that have `x` as a neighbour; in undirected mode `neighbours(x)`,
        which by symmetry holds the same vertices. */
    function InboundNeighbours(x: Vertex): (r: Result<seq<Vertex>>)
      reads this
      requires Valid()
      ensures r.Success? <==> x in adj
      ensures r.Success? ==> Elems(r.value) == Inbound(adj, x)
      ensures r.Success? && isDirected ==> NoDup(r.value)
    {
      if isDirected then
        if x !in adj then Failure(UnknownVertex)
        else
          InboundAmongSpec(vertices, x);
          Success(InboundAmong(vertices, x))
      else
        Neighbours(x)
    }

    lemma {:induction false} InboundAmongSpec(vs: seq<Vertex>, x: Vertex)
      requires Valid() && NoDup(vs) && forall k :: k in vs ==> k in adj
      ensures NoDup(InboundAmong(vs, x))
      ensures forall k :: k in InboundAmong(vs, x) <==> k in vs && x in adj[k]
    {
      if vs != [] {
        InboundAmongSpec(vs[1..], x);
        assert vs[0] !in vs[1..] by {
          forall i | 0 <= i < |vs[1..]| ensures vs[1..][i] != vs[0] { assert vs[1..][i] == vs[i + 1]; }
        }
      }
    }

    /** `return_vertices_list`: the vertices in insertion order, each once. */
    function ReturnVerticesList(): (r: seq<Vertex>)
      reads this
      requires Valid()
      ensures NoDup(r) && forall v :: v in r <==> v in adj
    {
      vertices
    }

    // ------------------------------------------------------------------
    // Mutators

    /** `add_vertex`. */
    method AddVertex(x: Vertex) returns (r: Outcome)
      requires Valid()
      modifies this
      ensures Valid()
      ensures isDirected == old(isDirected) && isWeighted == old(isWeighted)
      ensures r == (if x in old(adj) then Fail(DuplicateVertex) else Pass)
      ensures r.Fail? ==> vertices == old(vertices) && adj == old(adj) && weights == old(weights)
      ensures r.Pass? ==>
        && vertices == old(vertices) + [x]
        && adj == old(adj)[x := []]
        && weights == (if isWeighted then old(weights)[x := map[]] else old(weights))
    {
      if x !in adj {
        AddVertexKeeps(vertices, adj, weights, isDirected, isWeighted, x);
        vertices := vertices + [x];
        adj := adj[x := []];
        if isWeighted {
          weights := weights[x := map[]];
        }
        r := Pass;
      } else {
        r := Fail(DuplicateVertex);
      }
    }

    /** `add_edge`: one arc in directed mode, both arcs in undirected mode,
        with the weight recorded on the same arcs when weighted. */
    method AddEdge(u: Vertex, v: Vertex, w: int) returns (r: Outcome)
      requires Valid()
      modifies this
      ensures Valid()
      ensures vertices == old(vertices)
      ensures isDirected == old(isDirected) && isWeighted == old(isWeighted)
      ensures r == (if u !in old(adj) || v !in old(adj) then Fail(UnknownVertex)
                    else if v in old(adj)[u] then Fail(DuplicateEdge)
                    else Pass)
      ensures r.Fail? ==> adj == old(adj) && weights == old(weights)
      ensures r.Pass? ==>
        && adj == AddEdgeArcs(old(adj), u, v, isDirected)
        && weights == (if isWeighted then AddEdgeWeights(old(weights), u, v, w, isDirected) else old(weights))
    {
      if u !in adj || v !in adj {
        return Fail(UnknownVertex);
      }
      if v in adj[u] {
        return Fail(DuplicateEdge);
      }
      AddEdgeKeeps(vertices, adj, weights, isDirected, isWeighted, u, v, w);
      var arcs, table := adj, weights;
      if isDirected {
        arcs := AddArc(arcs, u, v);
        if isWeighted {
          table := SetArcWeight(table, u, v, w);
        }
      } else {
        arcs := AddArc(arcs, u, v);
        arcs := AddArc(arcs, v, u);
        if isWeighted {
          table := SetArcWeight(table, u, v, w);
          table := SetArcWeight(table, v, u, w);
        }
      }
      adj, weights := arcs, table;
      r := Pass;
    }

    /** `remove_edge`. In undirected mode both arcs go; a self-loop stored
        only once (which a round trip through directed mode produces) makes
        the second `list.remove` raise after the first has happened. */
    method RemoveEdge(u: Vertex, v: Vertex) returns (r: Outcome)
      requires Valid()
      modifies this
      ensures Valid()
      ensures vertices == old(vertices)
      ensures isDirected == old(isDirected) && isWeighted == old(isWeighted)
      ensures r == (if u !in old(adj) || v !in old(adj) then Fail(UnknownVertex)
                    else if v !in old(adj)[u] then Fail(NoSuchEdge)
                    else if !isDirected && u !in RemoveArc(old(adj), u, v)[v] then Fail(NotInList)
                    else Pass)
      ensures r == Fail(UnknownVertex) || r == Fail(NoSuchEdge) ==> adj == old(adj) && weights == old(weights)
      ensures r.Pass? && isDirected ==>
        && adj == RemoveArc(old(adj), u, v)
        && weights == (if isWeighted then DropWeight(old(weights), u, v) else old(weights))
      ensures r.Pass? && !isDirected ==>
        && adj == RemoveArc(RemoveArc(old(adj), u, v), v, u)
        && weights == (if isWeighted then DropWeight(DropWeight(old(weights), u, v), v, u) else old(weights))
      ensures r == Fail(NotInList) ==>
        && u == v && adj == RemoveArc(old(adj), u, u) && weights == old(weights)
      ensures r.Pass? && u != v ==> !IsEdge(u, v) && (!isDirected ==> !IsEdge(v, u))
    {
      if u !in adj || v !in adj {
        return Fail(UnknownVertex);
      }
      var arcs, table := adj, weights;
      if isDirected {
        if v !in arcs[u] {
          return Fail(NoSuchEdge);
        }
        RemoveDirectedEdgeKeeps(vertices, arcs, table, isWeighted, u, v);
        RemoveArcFacts(arcs, u, v);
        arcs := arcs[u := RemoveFirst(arcs[u], v)];
        if isWeighted && u in table {
          table := table[u := table[u] - {v}];
        }
        r := Pass;
      } else {
        if v !in arcs[u] && u !in arcs[v] {
          return Fail(NoSuchEdge);
        }
        ghost var A := arcs;
        arcs := arcs[u := RemoveFirst(arcs[u], v)];
        if u !in arcs[v] {
          RemoveLoneLoopKeeps(vertices, A, table, isWeighted, u);
          adj := arcs;
          return Fail(NotInList);
        }
        RemoveUndirectedEdgeKeeps(vertices, A, table, isWeighted, u, v);
        RemoveUndirectedKeepsShape(A, u, v);
        arcs := arcs[v := RemoveFirst(arcs[v], u)];
        if isWeighted {
          if u in table {
            table := table[u := table[u] - {v}];
          }
          if v in table {
            table := table[v := table[v] - {u}];
          }
        }
        r := Pass;
      }
      adj, weights := arcs, table;
    }

    /** `remove_vertex`: the vertex leaves the key list, every adjacency list
        and every weight row. */
    method RemoveVertex(x: Vertex) returns (r: Outcome)
      requires Valid()
      modifies this
      ensures Valid()
      ensures isDirected == old(isDirected) && isWeighted == old(isWeighted)
      ensures r == (if x in old(adj) then Pass else Fail(UnknownVertex))
      ensures r.Fail? ==> vertices == old(vertices) && adj == old(adj) && weights == old(weights)
      ensures r.Pass? ==>
        && vertices == RemoveFirst(old(vertices), x)
        && adj == DeleteVertexArcs(old(adj), x)
        && weights == (if isWeighted then DeleteVertexWeights(old(weights), x) else old(weights))
      ensures r.Pass? ==> x !in adj && forall k :: k in adj ==> x !in adj[k]
    {
      if x !in adj {
        return Fail(UnknownVertex);
      }
      RemoveVertexKeeps(vertices, adj, weights, isDirected, isWeighted, x);
      assert Elems(vertices) == adj.Keys;
      var arcs, table := StripVertex(vertices, adj, weights, isWeighted, x);
      StripRowsDone(adj, x);
      if isWeighted {
        DropRowsDone(adj, weights, x);
      }
      arcs := arcs - {x};
      if isWeighted && x in table {
        table := table - {x};
      }
      vertices, adj, weights := RemoveFirst(vertices, x), arcs, table;
      r := Pass;
    }

    /** `set_weight`: overwrite the weight of an existing edge, in one
        direction (directed) or both (undirected). */
    method SetWeight(u: Vertex, v: Vertex, w: int) returns (r: Outcome)
      requires Valid()
      modifies this
      ensures Valid()
      ensures vertices == old(vertices) && adj == old(adj)
      ensures isDirected == old(isDirected) && isWeighted == old(isWeighted)
      ensures r == (if !isWeighted then Fail(NotWeighted)
                    else if u !in adj || v !in adj then Fail(UnknownVertex)
                    else if !IsEdge(u, v) then Fail(NoSuchEdge)
                    else Pass)
      ensures r.Fail? ==> weights == old(weights)
      ensures r.Pass? ==> weights == AddEdgeWeights(old(weights), u, v, w, isDirected)
      ensures r.Pass? ==> GetWeight(u, v) == Success(w)
      ensures r.Pass? && !isDirected ==> GetWeight(v, u) == Success(w)
    {
      if !isWeighted {
        return Fail(NotWeighted);
      }
      if u !in adj || v !in adj {
        return Fail(UnknownVertex);
      }
      if isDirected {
        if v !in adj[u] {
          return Fail(NoSuchEdge);
        }
        SetWeightKeeps(vertices, adj, weights, isDirected, u, v, w);
        weights := SetArcWeight(weights, u, v, w);
      } else {
        if v !in adj[u] || u !in adj[v] {
          return Fail(NoSuchEdge);
        }
        SetWeightKeeps(vertices, adj, weights, isDirected, u, v, w);
        weights := SetArcWeight(weights, u, v, w);
        weights := SetArcWeight(weights, v, u, w);
      }
      r := Pass;
    }

    /** `change_if_weighted`: turning weights on gives every edge weight 0;
        turning them off empties the table. Adjacency is never touched. */
    method ChangeIfWeighted()
      requires Valid()
      modifies this
      ensures Valid()
      ensures isWeighted == !old(isWeighted) && isDirected == old(isDirected)
      ensures vertices == old(vertices) && adj == old(adj)
      ensures weights == (if isWeighted then ZeroWeights(adj) else map[])
    {
      isWeighted := !isWeighted;
      if isWeighted {
        weights := ZeroTable(vertices, adj);
        ZeroWeightsExactly(adj, weights);
        ZeroWeightsCover(adj);
      } else {
        weights := map[];
      }
    }

    /** `change_if_directed`. Turning an undirected graph directed keeps
        both tables as they are (each undirected edge already is two
        arcs); turning a directed graph undirected closes every list under
        reversal, so it holds its old and its inbound neighbours, each
        once, with the weight of each added arc copied from its reverse. */
    method ChangeIfDirected()
      requires Valid()
      modifies this
      ensures Valid()
      ensures isDirected == !old(isDirected) && isWeighted == old(isWeighted) && vertices == old(vertices)
      ensures isDirected ==> adj == old(adj) && weights == old(weights)
      ensures !isDirected ==> adj.Keys == old(adj).Keys
      ensures !isDirected ==> forall u :: u in adj ==>
        NoDup(adj[u]) && Elems(adj[u]) == Elems(old(adj)[u]) + Inbound(old(adj), u)
      ensures !isDirected && isWeighted ==> ReversedWeights(old(adj), old(weights), weights)
    {
      isDirected := !isDirected;
      ghost var A, W := adj, weights;
      var arcs, table := CloseUnderReverse(vertices, adj, weights, isWeighted, !isDirected);
      adj, weights := arcs, table;
      if !isDirected {
        ClosedUnderReverseShape(vertices, A, adj);
        if isWeighted {
          ClosedUnderReverseWeights(A, W, adj, weights);
        }
      }
    }
  }

  /** The loop of `remove_vertex`: every list that holds `x` loses its first
      occurrence of it and, when weighted, the weight row of that list's
      owner loses its entry for `x`. */
  method StripVertex(keys: seq<Vertex>, A: Adjacency, W: WeightTable, weighted: bool, x: Vertex)
    returns (arcs: Adjacency, table: WeightTable)
    requires NoDup(keys) && Elems(keys) == A.Keys
    ensures arcs == StripRows(A, x, A.Keys)
    ensures table == if weighted then DropRows(W, A, x, A.Keys) else W
  {
    arcs, table := A, W;
    ghost var seen: set<Vertex> := {};
    var i := 0;
    while i < |keys|
      invariant 0 <= i <= |keys| && seen == Elems(keys[..i])
      invariant arcs == StripRows(A, x, seen)
      invariant table == if weighted then DropRows(W, A, x, seen) else W
    {
      PrefixStep(keys, i);
      arcs, table := StripKey(A, W, weighted, x, seen, keys[i], arcs, table);
      seen := seen + {keys[i]};
      i := i + 1;
    }
    assert keys[..i] == keys;
  }

  /** One iteration of the loop of `remove_vertex(x)`: the list of `key`
      loses its first `x`, and so does the weight row of `key`. */
  method StripKey(A: Adjacency, W: WeightTable, weighted: bool, x: Vertex, ghost seen: set<Vertex>, key: Vertex,
                  arcs0: Adjacency, table0: WeightTable)
    returns (arcs: Adjacency, table: WeightTable)
    requires key in A && key !in seen && arcs0 == StripRows(A, x, seen)
    requires table0 == if weighted then DropRows(W, A, x, seen) else W
    ensures arcs == StripRows(A, x, seen + {key})
    ensures table == if weighted then DropRows(W, A, x, seen + {key}) else W
  {
    arcs, table := arcs0, table0;
    StripRowsStep(A, W, x, seen, key);
    if x in arcs[key] {
      arcs := arcs[key := RemoveFirst(arcs[key], x)];
      if weighted && key in table {
        table := table[key := table[key] - {x}];
      }
    }
  }

  /** The loop of `change_if_weighted` when weights are switched on: a row
      per vertex, holding weight 0 for every neighbour. */
  method ZeroTable(keys: seq<Vertex>, adj: Adjacency) returns (table: WeightTable)
    requires forall k :: k in keys <==> k in adj
    ensures table.Keys == adj.Keys
    ensures forall u :: u in table ==> table[u].Keys == Elems(adj[u]) && forall v :: v in table[u] ==> table[u][v] == 0
  {
    table := map[];
    var i := 0;
    while i < |keys|
      invariant 0 <= i <= |keys|
      invariant table.Keys == Elems(keys[..i])
      invariant forall u :: u in table ==> table[u].Keys == Elems(adj[u]) && forall v :: v in table[u] ==> table[u][v] == 0
    {
      var vertex := keys[i];
      assert keys[..i + 1] == keys[..i] + [vertex];
      var row: map<Vertex, int> := map[];
      var edges := adj[vertex];
      var j := 0;
      while j < |edges|
        invariant 0 <= j <= |edges|
        invariant row.Keys == Elems(edges[..j]) && forall v :: v in row ==> row[v] == 0
      {
        assert edges[..j + 1] == edges[..j] + [edges[j]];
        row := row[edges[j] := 0];
        j := j + 1;
      }
      assert edges[..j] == edges;
      table := table[vertex := row];
      i := i + 1;
    }
    assert keys[..i] == keys;
  }

  /** The double loop shared by both branches of `change_if_directed`:
      every vertex visits its neighbours and adds itself to the list of
      each neighbour that lacks it, copying the weight when weighted; with
      `dedup`, each visited list then loses its repeats (`list(set(...))`,
      in an order the model leaves open). */
  method CloseUnderReverse(keys: seq<Vertex>, A: Adjacency, W: WeightTable, weighted: bool, dedup: bool)
    returns (adj: Adjacency, weights: WeightTable)
    requires KeyOrder(keys, A) && Closed(A) && OnlySelfRepeats(A)
    requires if weighted then WeightsCover(A, W) else W == map[]
    ensures adj.Keys == A.Keys
    ensures forall u :: u in adj ==> Elems(adj[u]) == Elems(A[u]) + Inbound(A, u)
    ensures dedup ==> forall u :: u in adj ==> NoDup(adj[u])
    ensures weighted ==> ReversedWeights(A, W, weights)
    ensures !weighted ==> weights == W
    ensures !dedup && Symmetric(A) ==> adj == A && weights == W
  {
    adj, weights := A, W;
    ghost var done: set<(Vertex, Vertex)> := {};
    ghost var seen: set<Vertex> := {};
    var i := 0;
    while i < |keys|
      invariant 0 <= i <= |keys| && seen == Elems(keys[..i])
      invariant ArcProgress(A, adj, done)
      invariant if weighted then WeightProgress(A, W, weights, done) else weights == W
      invariant forall p :: p in done ==> p.0 in seen
      invariant forall z, y :: z in seen && y in A[z] ==> (z, y) in done
      invariant dedup ==> forall u :: u in seen ==> NoDup(adj[u])
      invariant !dedup && Symmetric(A) ==> adj == A && weights == W
    {
      var vertex := keys[i];
      assert keys[..i + 1] == keys[..i] + [vertex];
      assert Elems(keys[..i + 1]) == seen + {vertex};
      adj, weights, done := VisitNeighbours(A, W, weighted, adj, weights, done, vertex);
      if dedup {
        assert NoDup(Distinct(adj[vertex])) && Elems(Distinct(adj[vertex])) == Elems(adj[vertex]);
        var distinct :| NoDup(distinct) && Elems(distinct) == Elems(adj[vertex]);
        DedupKeepsProgress(A, adj, done, vertex, distinct);
        adj := adj[vertex := distinct];
      }
      seen := seen + {vertex};
      i := i + 1;
    }
    assert keys[..i] == keys;
    assert seen == A.Keys;
    ArcProgressDone(A, adj, done);
    if weighted {
      WeightProgressDone(A, W, weights, done);
    }
  }

  /** One iteration of the inner loop of `change_if_directed`: when
      `neighbor` lacks `vertex` in its own list it gets it appended, with the
      weight of the arc `(vertex, neighbor)` copied onto the new one. */
  method ReverseArc(A: Adjacency, W: WeightTable, weighted: bool,
                    adj0: Adjacency, w0: WeightTable, ghost done0: set<(Vertex, Vertex)>,
                    vertex: Vertex, neighbor: Vertex)
    returns (adj: Adjacency, weights: WeightTable, ghost done: set<(Vertex, Vertex)>)
    requires Closed(A) && ArcProgress(A, adj0, done0) && vertex in adj0 && neighbor in adj0[vertex]
    requires if weighted then WeightsCover(A, W) && WeightProgress(A, W, w0, done0) else w0 == W
    ensures vertex in A && done0 <= done && forall p :: p in done ==> p in done0 || p == (vertex, neighbor)
    ensures neighbor in A[vertex] ==> (vertex, neighbor) in done
    ensures ArcProgress(A, adj, done)
    ensures if weighted then WeightProgress(A, W, weights, done) else weights == W
    ensures vertex in adj && adj0[vertex] <= adj[vertex]
    ensures forall u :: u in adj0 && NoDup(adj0[u]) ==> NoDup(adj[u])
    ensures Symmetric(A) && adj0 == A && w0 == W ==> adj == A && weights == W
  {
    adj, weights := adj0, w0;
    ReverseStepKeepsArcs(A, adj, done0, vertex, neighbor);
    if vertex !in adj[neighbor] {
      if weighted {
        WeightStepAppend(A, W, weights, done0, vertex, neighbor);
      }
      adj := adj[neighbor := adj[neighbor] + [vertex]];
      if weighted {
        if neighbor !in weights {
          weights := weights[neighbor := map[]];
        }
        var weight := GetOr(GetOr(weights, vertex, map[]), neighbor, 0);
        weights := weights[neighbor := weights[neighbor][vertex := weight]];
      }
    } else if weighted {
      WeightStepNothing(A, W, weights, done0, vertex, neighbor);
    }
    done := VisitArc(A, done0, vertex, neighbor);
  }

  /** The inner loop of `change_if_directed` for one vertex: each neighbour
      that lacks `vertex` in its own list gets it appended, with the weight
      of the visited arc copied onto the new one. */
  method VisitNeighbours(A: Adjacency, W: WeightTable, weighted: bool,
                         adj0: Adjacency, w0: WeightTable, ghost done0: set<(Vertex, Vertex)>, vertex: Vertex)
    returns (adj: Adjacency, weights: WeightTable, ghost done: set<(Vertex, Vertex)>)
    requires Closed(A) && ArcProgress(A, adj0, done0) && vertex in adj0
    requires if weighted then WeightsCover(A, W) && WeightProgress(A, W, w0, done0) else w0 == W
    ensures ArcProgress(A, adj, done)
    ensures if weighted then WeightProgress(A, W, weights, done) else weights == W
    ensures done0 <= done && forall p :: p in done ==> p in done0 || p.0 == vertex
    ensures forall y :: y in A[vertex] ==> (vertex, y) in done
    ensures forall u :: u in adj0 && NoDup(adj0[u]) ==> NoDup(adj[u])
    ensures Symmetric(A) && adj0 == A && w0 == W ==> adj == A && weights == W
  {
    adj, weights, done := adj0, w0, done0;
    var edges := adj[vertex];
    var j := 0;
    while j < |edges|
      invariant 0 <= j <= |edges|
      invariant vertex in adj && edges <= adj[vertex]
      invariant ArcProgress(A, adj, done)
      invariant if weighted then WeightProgress(A, W, weights, done) else weights == W
      invariant done0 <= done && forall p :: p in done ==> p in done0 || p.0 == vertex
      invariant forall k :: 0 <= k < j && edges[k] in A[vertex] ==> (vertex, edges[k]) in done
      invariant forall u :: u in adj0 && NoDup(adj0[u]) ==> NoDup(adj[u])
      invariant Symmetric(A) && adj0 == A && w0 == W ==> adj == A && weights == W
    {
      adj, weights, done := ReverseArc(A, W, weighted, adj, weights, done, vertex, edges[j]);
      j := j + 1;
    }
    forall y | y in A[vertex] ensures (vertex, y) in done {
      var k :| 0 <= k < |edges| && edges[k] == y;
    }
  }
}
