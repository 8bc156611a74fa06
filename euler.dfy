/** The Eulerian part of the graph engine: the degree test `check_if_eul`
    and the circuit builder `get_eul_circuit`, Hierholzer's stack algorithm
    run on working copies of the neighbour sets; the source starts it
    from the vertex "6". */
module Eulerian {
  import opened Common
  import opened GraphModel
  import Domain
  import SpanningTree

  /** The vertex `get_eul_circuit` starts its circuit from. */
  const Start: Vertex := "6"

  /** The working neighbour sets: one set per vertex, emptied as the walk
      uses edges. */
  type Sets = map<Vertex, set<Vertex>>

  // ----------------------------------------------------------------------
  // The degree test

  /** The degree condition at one vertex: as many list entries as vertices
      listing it in directed mode, an even number of entries in undirected
      mode. */
  ghost predicate DegreeOk(adj: Adjacency, directed: bool, v: Vertex)
    requires v in adj
  {
    if directed then |adj[v]| == |Inbound(adj, v)| else |adj[v]| % 2 == 0
  }

  ghost predicate Balanced(adj: Adjacency, directed: bool) {
    forall v :: v in adj ==> DegreeOk(adj, directed, v)
  }

  /** What `check_if_eul` answers: every vertex is reachable from the vertex
      the connectivity test happened to pick, and the degree condition holds
      everywhere. */
  ghost predicate EulerTest(adj: Adjacency, directed: bool, chosen: Vertex) {
    (forall v :: v in adj ==> Reachable(adj, chosen, v)) && Balanced(adj, directed)
  }

  /** `check_if_eul`: the connectivity test first (an empty graph raises
      there), then the degree condition over all vertices. */
  method CheckIfEul(g: Domain.Graph) returns (r: Result<bool>, ghost chosen: Vertex)
    requires g.Valid()
    ensures r.Failure? <==> g.adj == map[]
    ensures r.Failure? ==> r.error == EmptyGraph
    ensures r.Success? ==> chosen in g.adj && (r.value <==> EulerTest(g.adj, g.isDirected, chosen))
  {
    r, chosen := SpanningTree.IsConnected(g);
    if r.Failure? || !r.value {
      return;
    }
    var isEul;
    if g.isDirected {
      isEul := InOutScan(g);
    } else {
      isEul := ParityScan(g);
    }
    r := Success(isEul);
  }

  /** The directed pass of `check_if_eul`: one pass over the vertices that
      stops at the first whose neighbour list and inbound list differ in
      length. */
  method InOutScan(g: Domain.Graph) returns (isEul: bool)
    requires g.Valid() && g.isDirected
    ensures isEul <==> Balanced(g.adj, true)
  {
    var vs := g.ReturnVerticesList();
    isEul := true;
    var i := 0;
    while i < |vs|
      invariant 0 <= i <= |vs|
      invariant forall k :: 0 <= k < i ==> DegreeOk(g.adj, true, vs[k])
    {
      var out := g.Neighbours(vs[i]).value;
      var inbound := g.InboundNeighbours(vs[i]).value;
      CardElems(inbound);
      if |out| != |inbound| {
        isEul := false;
        break;
      }
      i := i + 1;
    }
  }

  /** The undirected pass of `check_if_eul`: one pass over the vertices
      that stops at the first with an odd number of list entries. */
  method ParityScan(g: Domain.Graph) returns (isEul: bool)
    requires g.Valid() && !g.isDirected
    ensures isEul <==> Balanced(g.adj, false)
  {
    var vs := g.ReturnVerticesList();
    isEul := true;
    var i := 0;
    while i < |vs|
      invariant 0 <= i <= |vs|
      invariant forall k :: 0 <= k < i ==> DegreeOk(g.adj, false, vs[k])
    {
      var out := g.Neighbours(vs[i]).value;
      if |out| % 2 != 0 {
        isEul := false;
        break;
      }
      i := i + 1;
    }
  }

  /** In undirected mode the vertex the connectivity test picks does not
      change the answer: reaching everything from one vertex means reaching
      everything from any vertex. */
  lemma ChoiceIrrelevant(adj: Adjacency, c: Vertex, d: Vertex)
    requires Symmetric(adj) && c in adj && d in adj
    requires forall v :: v in adj ==> Reachable(adj, c, v)
    ensures forall v :: v in adj ==> Reachable(adj, d, v)
  {
    ReachSym(adj, c, d);
    forall v | v in adj ensures Reachable(adj, d, v) {
      ReachTrans(adj, d, c, v);
    }
  }

  // ----------------------------------------------------------------------
  // The working neighbour sets

  /** The set `get_eul_circuit` builds for `x`, once the lists of the
      vertices in `P` have been read: the list of `x` as a set if it has been
      read and, in undirected mode, every vertex of `P` that lists `x`. */
  ghost function RowSet(adj: Adjacency, P: set<Vertex>, x: Vertex, directed: bool): set<Vertex>
    requires x in adj
  {
    (if x in P then Elems(adj[x]) else {}) + (if directed then {} else Listing(adj, P, x))
  }

  /** The vertices of `P` whose lists hold `x`. */
  ghost function Listing(adj: Adjacency, P: set<Vertex>, x: Vertex): set<Vertex> {
    set y | y in P && y in adj && x in adj[y]
  }

  lemma ListingAdd(adj: Adjacency, P: set<Vertex>, u: Vertex, x: Vertex)
    requires u in adj
    ensures Listing(adj, P + {u}, x) == Listing(adj, P, x) + (if x in adj[u] then {u} else {})
  {
  }

  ghost predicate Built(N: Sets, adj: Adjacency, P: set<Vertex>, directed: bool) {
    N.Keys == adj.Keys && forall x :: x in N ==> N[x] == RowSet(adj, P, x, directed)
  }

  /** The finished sets: the list of each vertex as a set together with, in
      undirected mode, every vertex that lists it. */
  ghost predicate Fresh(N: Sets, adj: Adjacency, directed: bool) {
    N.Keys == adj.Keys
    && forall x :: x in N ==> N[x] == Elems(adj[x]) + (if directed then {} else Inbound(adj, x))
  }

  /** The inner loop of the set construction: the entries of the list of
      `u` are added one by one, each also recorded in reverse in undirected
      mode, turning the sets for the vertices `P` into those for `P'`. */
  method ReadRow(N: Sets, adj: Adjacency, P: set<Vertex>, u: Vertex, directed: bool, P': set<Vertex>) returns (N': Sets)
    requires Closed(adj) && u in adj && Built(N, adj, P, directed) && P' == P + {u}
    ensures Built(N', adj, P', directed)
  {
    var row := adj[u];
    N' := N;
    for j := 0 to |row|
      invariant N'.Keys == N.Keys
      invariant forall x :: x in N' ==> N'[x] == Extended(N, u, Elems(row[..j]), directed, x)
    {
      ghost var before := N';
      N' := AddEntry(N', u, row[j], directed);
      PrefixStep(row, j);
      ExtendedStep(N, before, N', u, Elems(row[..j]), row[j], directed, Elems(row[..j + 1]));
    }
    assert row[..|row|] == row;
    ReadRowBuilds(N, N', adj, P, u, directed, P');
  }

  /** One entry `node` of the list of `u`: it joins the set of `u` and, in
      undirected mode, `u` joins the set of `node`, each only if missing. */
  method AddEntry(M: Sets, u: Vertex, node: Vertex, directed: bool) returns (M': Sets)
    requires u in M && node in M
    ensures M'.Keys == M.Keys
    ensures forall x :: x in M' ==>
      M'[x] == M[x] + (if x == u then {node} else {}) + (if !directed && x == node then {u} else {})
  {
    M' := M;
    if node !in M'[u] {
      M' := M'[u := M'[u] + {node}];
    }
    if !directed && u !in M'[node] {
      M' := M'[node := M'[node] + {u}];
    }
  }

  /** Reading one more entry extends the sets as `Extended` says. */
  lemma ExtendedStep(N: Sets, M: Sets, M': Sets, u: Vertex, ys: set<Vertex>, node: Vertex, directed: bool, ys': set<Vertex>)
    requires ys' == ys + {node} && M.Keys == N.Keys && M'.Keys == M.Keys
    requires forall x :: x in M ==> M[x] == Extended(N, u, ys, directed, x)
    requires forall x :: x in M' ==>
      M'[x] == M[x] + (if x == u then {node} else {}) + (if !directed && x == node then {u} else {})
    ensures forall x :: x in M' ==> M'[x] == Extended(N, u, ys', directed, x)
  {
  }

  /** The set of `x` once the entries `ys` of the list of `u` have been
      read: each y joins the set of `u` and, in undirected mode, `u` joins
      the set of y. */
  ghost function Extended(N: Sets, u: Vertex, ys: set<Vertex>, directed: bool, x: Vertex): set<Vertex>
    requires x in N
  {
    N[x] + (if x == u then ys else {}) + (if !directed && x in ys then {u} else {})
  }

  /** The first loop of the set construction: an empty set for every vertex. */
  method EmptySets(vs: seq<Vertex>) returns (N: Sets)
    ensures N.Keys == Elems(vs) && forall x :: x in N ==> N[x] == {}
  {
    N := map[];
    for i := 0 to |vs|
      invariant N.Keys == Elems(vs[..i])
      invariant forall x :: x in N ==> N[x] == {}
    {
      PrefixStep(vs, i);
      N := N[vs[i] := {}];
    }
    assert vs[..|vs|] == vs;
  }

  /** Reading the list of `u` turns the sets for `P` into the sets for `P'`,
      which is `P` with `u` added. */
  lemma ReadRowBuilds(N: Sets, N': Sets, adj: Adjacency, P: set<Vertex>, u: Vertex, directed: bool, P': set<Vertex>)
    requires Built(N, adj, P, directed) && u in adj && P' == P + {u}
    requires N'.Keys == N.Keys
    requires forall x :: x in N' ==> N'[x] == Extended(N, u, Elems(adj[u]), directed, x)
    ensures Built(N', adj, P', directed)
  {
    forall x | x in N' ensures N'[x] == RowSet(adj, P', x, directed) {
      ListingAdd(adj, P, u, x);
    }
  }

  /** The second loop of the set construction: every list read in vertex
      order. */
  method ReadLists(N0: Sets, adj: Adjacency, vs: seq<Vertex>, directed: bool) returns (N: Sets)
    requires Closed(adj) && KeyOrder(vs, adj)
    requires N0.Keys == adj.Keys && forall x :: x in N0 ==> N0[x] == {}
    ensures Fresh(N, adj, directed)
  {
    N := N0;
    BuiltNone(N, adj, directed);
    assert Elems(vs[..0]) == {};
    for i := 0 to |vs|
      invariant Built(N, adj, Elems(vs[..i]), directed)
    {
      PrefixStep(vs, i);
      N := ReadRow(N, adj, Elems(vs[..i]), vs[i], directed, Elems(vs[..i + 1]));
    }
    assert vs[..|vs|] == vs;
    BuiltAll(N, adj, directed);
  }

  /** Before any list is read every set is empty. */
  lemma BuiltNone(N: Sets, adj: Adjacency, directed: bool)
    requires N.Keys == adj.Keys && forall x :: x in N ==> N[x] == {}
    ensures Built(N, adj, {}, directed)
  {
    forall x | x in N ensures N[x] == RowSet(adj, {}, x, directed) {
      assert Listing(adj, {}, x) == {};
    }
  }

  /** Once every list is read the sets are the finished ones. */
  lemma BuiltAll(N: Sets, adj: Adjacency, directed: bool)
    requires Built(N, adj, adj.Keys, directed)
    ensures Fresh(N, adj, directed)
  {
    forall x | x in N ensures N[x] == Elems(adj[x]) + (if directed then {} else Inbound(adj, x)) {
      assert Listing(adj, adj.Keys, x) == Inbound(adj, x);
    }
  }

  /** The set construction of `get_eul_circuit`: an empty set for every
      vertex, then every list read in vertex order. The sets are fresh
      values, so the graph itself is never changed. */
  method FreshNeighbourSets(g: Domain.Graph) returns (N: Sets)
    requires g.Valid()
    ensures Fresh(N, g.adj, g.isDirected)
  {
    var vs := g.ReturnVerticesList();
    N := EmptySets(vs);
    N := ReadLists(N, g.adj, vs, g.isDirected);
  }

  // ----------------------------------------------------------------------
  // Remaining edges and degrees

  /** The arcs u -> v still present in the sets. */
  ghost function Pairs(N: Sets): set<(Vertex, Vertex)> {
    set u, v | u in N && v in N[u] :: (u, v)
  }

  lemma PairsMember(N: Sets, a: Vertex, b: Vertex)
    ensures (a, b) in Pairs(N) <==> a in N && b in N[a]
  {
  }

  /** Entries left in the set of `v`. */
  function Out(N: Sets, v: Vertex): nat {
    if v in N then |N[v]| else 0
  }

  /** The vertices whose sets still hold `v`. */
  ghost function Into(N: Sets, v: Vertex): set<Vertex> {
    set u | u in N && v in N[u]
  }

  /** One when the set of `v` still holds `v` itself: an unused self-loop,
      which counts twice towards the degree of an undirected vertex. */
  function Loop(N: Sets, v: Vertex): nat {
    if v in N && v in N[v] then 1 else 0
  }

  function Ind(b: bool): int {
    if b then 1 else 0
  }

  ghost predicate SetsClosed(N: Sets) {
    forall u, v :: u in N && v in N[u] ==> v in N
  }

  ghost predicate SetsSymmetric(N: Sets) {
    forall u, v :: u in N && v in N[u] ==> v in N && u in N[v]
  }

  /** The degree bookkeeping of the remaining edges while the walk is open
      from `anchor` to `top`: in directed mode every vertex has as many
      remaining arcs out as in, except that `top` has one more out and
      `anchor` one more in; in undirected mode every degree is even except
      at `top` and `anchor`. With `top == anchor` it says the remaining
      edges are balanced everywhere. */
  ghost predicate Balance(N: Sets, directed: bool, top: Vertex, anchor: Vertex) {
    if directed then
      forall v :: Out(N, v) - |Into(N, v)| == Ind(v == top) - Ind(v == anchor)
    else
      forall v :: (Out(N, v) + Loop(N, v)) % 2 == (Ind(v == top) + Ind(v == anchor)) % 2
  }

  /** Balanced everywhere does not depend on the vertex named. */
  lemma BalanceSame(N: Sets, directed: bool, x: Vertex, y: Vertex)
    requires Balance(N, directed, x, x)
    ensures Balance(N, directed, y, y)
  {
    if directed {
      forall v ensures Out(N, v) - |Into(N, v)| == Ind(v == y) - Ind(v == y) {
        assert Out(N, v) - |Into(N, v)| == Ind(v == x) - Ind(v == x);
      }
    } else {
      forall v ensures (Out(N, v) + Loop(N, v)) % 2 == (Ind(v == y) + Ind(v == y)) % 2 {
        assert (Out(N, v) + Loop(N, v)) % 2 == (Ind(v == x) + Ind(v == x)) % 2;
      }
    }
  }

  /** A vertex on top of the walk with nothing left in its set is the
      vertex the walk was resumed from. */
  lemma StuckAtAnchor(N: Sets, directed: bool, x: Vertex, anchor: Vertex)
    requires Balance(N, directed, x, anchor) && Out(N, x) == 0
    ensures x == anchor
  {
    if directed {
      assert Out(N, x) - |Into(N, x)| == Ind(x == x) - Ind(x == anchor);
    } else {
      assert (Out(N, x) + Loop(N, x)) % 2 == (Ind(x == x) + Ind(x == anchor)) % 2;
    }
  }

  // ----------------------------------------------------------------------
  // Using one edge

  /** The pairs an edge use removes: the arc itself, and in undirected
      mode its reverse as well. */
  function Link(a: (Vertex, Vertex), directed: bool): set<(Vertex, Vertex)> {
    if directed then {a} else {a, (a.1, a.0)}
  }

  /** `neighbours[current].remove(v)` followed, in undirected mode, by
      `neighbours[v].remove(current)`, which raises when `current` is not
      in the set of `v`. With `discard` the second removal is Python's
      `discard`, which does nothing then. */
  function Take(N: Sets, u: Vertex, v: Vertex, directed: bool, discard: bool): Result<Sets>
    requires u in N && v in N[u]
  {
    var N1 := N[u := N[u] - {v}];
    if directed then Success(N1)
    else if v in N1 && u in N1[v] then Success(N1[v := N1[v] - {u}])
    else if discard then Success(N1)
    else Failure(MissingKey)
  }

  /** On symmetric sets the second removal fails exactly on a self-loop,
      and otherwise the use keeps the sets' shape and only shrinks them. */
  lemma TakeShape(N: Sets, u: Vertex, v: Vertex, directed: bool, discard: bool)
    requires u in N && v in N[u] && SetsClosed(N) && (!directed ==> SetsSymmetric(N))
    ensures Take(N, u, v, directed, discard).Failure? <==> !directed && !discard && u == v
    ensures Take(N, u, v, directed, discard).Success? ==>
      var N' := Take(N, u, v, directed, discard).value;
      && N'.Keys == N.Keys && SetsClosed(N') && (!directed ==> SetsSymmetric(N'))
      && (forall x :: Out(N', x) <= Out(N, x))
  {
  }

  /** A successful use removes exactly the pairs of the edge. */
  lemma TakePairs(N: Sets, u: Vertex, v: Vertex, directed: bool, discard: bool)
    requires u in N && v in N[u] && SetsClosed(N) && (!directed ==> SetsSymmetric(N))
    requires Take(N, u, v, directed, discard).Success?
    ensures Link((u, v), directed) <= Pairs(N)
    ensures Pairs(Take(N, u, v, directed, discard).value) == Pairs(N) - Link((u, v), directed)
    ensures |Pairs(Take(N, u, v, directed, discard).value)| < |Pairs(N)|
  {
    var N' := Take(N, u, v, directed, discard).value;
    PairsMember(N, u, v);
    if !directed {
      PairsMember(N, v, u);
    }
    forall a | a in Pairs(N') ensures a in Pairs(N) - Link((u, v), directed) {
      PairsMember(N', a.0, a.1);
      PairsMember(N, a.0, a.1);
    }
    forall a | a in Pairs(N) - Link((u, v), directed) ensures a in Pairs(N') {
      PairsMember(N', a.0, a.1);
      PairsMember(N, a.0, a.1);
    }
    assert Pairs(N') < Pairs(N);
  }

  /** The degree bookkeeping follows the walk from `u` to `v`. */
  lemma TakeBalance(N: Sets, u: Vertex, v: Vertex, directed: bool, discard: bool, anchor: Vertex)
    requires u in N && v in N[u] && SetsClosed(N) && (!directed ==> SetsSymmetric(N))
    requires Take(N, u, v, directed, discard).Success?
    requires Balance(N, directed, u, anchor)
    ensures Balance(Take(N, u, v, directed, discard).value, directed, v, anchor)
  {
    var N' := Take(N, u, v, directed, discard).value;
    if directed {
      forall w ensures Out(N', w) - |Into(N', w)| == Ind(w == v) - Ind(w == anchor) {
        TakeInOut(N, u, v, anchor, w);
      }
    } else {
      forall w ensures (Out(N', w) + Loop(N', w)) % 2 == (Ind(w == v) + Ind(w == anchor)) % 2 {
        TakeParity(N, u, v, discard, anchor, w);
      }
    }
  }

  /** A directed step moves the surplus of outgoing arcs from `u` to `v`. */
  lemma TakeInOut(N: Sets, u: Vertex, v: Vertex, anchor: Vertex, w: Vertex)
    requires u in N && v in N[u]
    requires Out(N, w) - |Into(N, w)| == Ind(w == u) - Ind(w == anchor)
    ensures Out(N[u := N[u] - {v}], w) - |Into(N[u := N[u] - {v}], w)| == Ind(w == v) - Ind(w == anchor)
  {
    var N' := N[u := N[u] - {v}];
    assert Out(N', w) == Out(N, w) - Ind(w == u);
    if w == v {
      assert Into(N', w) == Into(N, w) - {u};
    } else {
      assert Into(N', w) == Into(N, w);
    }
  }

  /** An undirected step moves the odd degree from `u` to `v`. */
  lemma TakeParity(N: Sets, u: Vertex, v: Vertex, discard: bool, anchor: Vertex, w: Vertex)
    requires u in N && v in N[u] && SetsSymmetric(N)
    requires Take(N, u, v, false, discard).Success?
    requires (Out(N, w) + Loop(N, w)) % 2 == (Ind(w == u) + Ind(w == anchor)) % 2
    ensures var N' := Take(N, u, v, false, discard).value;
      (Out(N', w) + Loop(N', w)) % 2 == (Ind(w == v) + Ind(w == anchor)) % 2
  {
    var N' := Take(N, u, v, false, discard).value;
    assert Out(N', w) + Loop(N', w) == Out(N, w) + Loop(N, w) - Ind(w == u) - Ind(w == v);
  }


  // ----------------------------------------------------------------------
  // Walks as step sequences

  /** The consecutive pairs of a walk. */
  function Steps(p: seq<Vertex>): (r: seq<(Vertex, Vertex)>)
    ensures |r| == if p == [] then 0 else |p| - 1
    ensures forall i :: 0 <= i < |r| ==> r[i] == (p[i], p[i + 1])
  {
    if p == [] then [] else seq(|p| - 1, i requires 0 <= i < |p| - 1 => (p[i], p[i + 1]))
  }

  lemma StepsSnoc(p: seq<Vertex>, v: Vertex)
    requires p != []
    ensures Steps(p + [v]) == Steps(p) + [(p[|p| - 1], v)]
  {
    var a := Steps(p + [v]);
    var b := Steps(p) + [(p[|p| - 1], v)];
    assert |a| == |b|;
    forall i | 0 <= i < |a| ensures a[i] == b[i] {
      assert (p + [v])[i] == p[i];
    }
  }

  lemma StepsCons(x: Vertex, t: seq<Vertex>)
    requires t != []
    ensures Steps([x] + t) == [(x, t[0])] + Steps(t)
  {
    var a := Steps([x] + t);
    var b := [(x, t[0])] + Steps(t);
    assert |a| == |b|;
    forall i | 0 <= i < |a| ensures a[i] == b[i] {
      if i > 0 {
        assert b[i] == Steps(t)[i - 1];
      }
    }
  }

  lemma ReverseSnoc(r: seq<Vertex>, x: Vertex)
    ensures Reverse(r + [x]) == [x] + Reverse(r)
  {
    assert |Reverse(r + [x])| == |[x] + Reverse(r)|;
  }

  /** The pairs used by the steps of `L`. */
  function Covered(L: seq<(Vertex, Vertex)>, directed: bool): set<(Vertex, Vertex)> {
    if L == [] then {} else Link(L[0], directed) + Covered(L[1..], directed)
  }

  /** No two steps of `L` use the same edge. */
  predicate Disjoint(L: seq<(Vertex, Vertex)>, directed: bool) {
    L == [] || (Link(L[0], directed) !! Covered(L[1..], directed) && Disjoint(L[1..], directed))
  }

  lemma {:induction false} CoveredConcat(A: seq<(Vertex, Vertex)>, B: seq<(Vertex, Vertex)>, directed: bool)
    ensures Covered(A + B, directed) == Covered(A, directed) + Covered(B, directed)
    ensures Disjoint(A + B, directed) <==>
      Disjoint(A, directed) && Disjoint(B, directed) && Covered(A, directed) !! Covered(B, directed)
  {
    if A != [] {
      assert (A + B)[1..] == A[1..] + B;
      CoveredConcat(A[1..], B, directed);
    } else {
      assert A + B == B;
    }
  }

  /** The steps taken so far, in circuit order: the steps of the stack,
      the edge by which the most recently popped vertex was reached from
      the stack entry at `link`, and the steps of the popped vertices in the
      reverse of their popping order. Pops leave it unchanged. */
  ghost function Trail(S: seq<Vertex>, link: nat, R: seq<Vertex>): seq<(Vertex, Vertex)> {
    if link < |S| then Steps(S) + Tail(S, link, R) else Steps(Reverse(R))
  }


  /** What the loop keeps when the starting sets are balanced: the degree
      bookkeeping of an open walk from `S[link]` to the top, the first
      vertex popped is the start, and the trail uses every consumed pair
      exactly once. */
  ghost predicate Walking(start: Vertex, N0: Sets, N: Sets, directed: bool, S: seq<Vertex>, R: seq<Vertex>, link: nat) {
    && (S != [] ==> link < |S| && Balance(N, directed, S[|S| - 1], S[link]))
    && (S == [] ==> Balance(N, directed, start, start))
    && (R == [] ==> link == 0)
    && (R != [] ==> R[0] == start)
    && Pairs(N0) == Covered(Trail(S, link, R), directed) + Pairs(N)
    && Covered(Trail(S, link, R), directed) !! Pairs(N)
    && Disjoint(Trail(S, link, R), directed)
  }

  /** What the loop keeps in every case. */
  ghost predicate Shape(start: Vertex, N0: Sets, N: Sets, directed: bool, S: seq<Vertex>, R: seq<Vertex>) {
    && N.Keys == N0.Keys && SetsClosed(N) && (!directed ==> SetsSymmetric(N))
    && Pairs(N) <= Pairs(N0)
    && (S != [] ==> S[0] == start)
    && (S == [] ==> R != [] && R[|R| - 1] == start)
    && (forall i :: 0 <= i < |R| ==> Out(N, R[i]) == 0)
  }

  /** The part of the trail after the stack's own steps. */
  ghost function Tail(S: seq<Vertex>, link: nat, R: seq<Vertex>): seq<(Vertex, Vertex)> {
    var T := Reverse(R);
    if T == [] || link >= |S| then [] else [(S[link], T[0])] + Steps(T)
  }

  lemma TrailPush(S: seq<Vertex>, link: nat, R: seq<Vertex>, v: Vertex)
    requires S != [] && link < |S|
    ensures Trail(S, link, R) == Steps(S) + Tail(S, link, R)
    ensures Trail(S + [v], link, R) == Steps(S) + ([(S[|S| - 1], v)] + Tail(S, link, R))
  {
    StepsSnoc(S, v);
    assert Tail(S + [v], link, R) == Tail(S, link, R) by {
      assert (S + [v])[link] == S[link];
    }
    AppendAssoc(Steps(S), [(S[|S| - 1], v)], Tail(S, link, R));
  }


  /** The tail of the trail, read from the popped vertices once the top
      `x` has joined them. */
  lemma PopTail(S: seq<Vertex>, link: nat, R: seq<Vertex>)
    requires S != [] && link < |S| && S[link] == S[|S| - 1]
    ensures Tail(S, link, R) == Steps(Reverse(R + [S[|S| - 1]]))
  {
    var x := S[|S| - 1];
    var T := Reverse(R);
    ReverseSnoc(R, x);
    if T != [] {
      StepsCons(x, T);
    }
  }

  lemma TrailPop(S: seq<Vertex>, link: nat, R: seq<Vertex>)
    requires S != [] && link < |S| && S[link] == S[|S| - 1]
    requires R == [] ==> link == 0
    ensures Trail(S[..|S| - 1], if |S| > 1 then |S| - 2 else 0, R + [S[|S| - 1]]) == Trail(S, link, R)
  {
    var x := S[|S| - 1];
    var P := S[..|S| - 1];
    assert S == P + [x];
    if P != [] {
      TrailPopLinked(P, x, link, R);
    } else {
      TrailPopLast(x, R);
    }
  }

  /** Popping the last stack entry `x`: the trail is the popped vertices'. */
  lemma TrailPopLast(x: Vertex, R: seq<Vertex>)
    ensures Trail([], 0, R + [x]) == Trail([x], 0, R)
  {
    PopTail([x], 0, R);
    assert Steps([x]) == [];
  }

  /** Popping `x` from above a non-empty stack `P`: the stack's last step
      becomes the link to the popped vertices. */
  lemma TrailPopLinked(P: seq<Vertex>, x: Vertex, link: nat, R: seq<Vertex>)
    requires P != [] && link < |P| + 1 && (P + [x])[link] == x
    ensures Trail(P, |P| - 1, R + [x]) == Trail(P + [x], link, R)
  {
    var T' := Reverse(R + [x]);
    PopTail(P + [x], link, R);
    assert Trail(P + [x], link, R) == Steps(P + [x]) + Steps(T');
    StepsSnoc(P, x);
    ReverseSnoc(R, x);
    assert Tail(P, |P| - 1, R + [x]) == [(P[|P| - 1], x)] + Steps(T');
    AppendAssoc(Steps(P), [(P[|P| - 1], x)], Steps(T'));
  }


  /** Adding one step whose edge is new keeps the trail free of repeats. */
  lemma CoverInsert(A: seq<(Vertex, Vertex)>, a: (Vertex, Vertex), B: seq<(Vertex, Vertex)>, directed: bool)
    requires Disjoint(A + B, directed) && Link(a, directed) !! Covered(A + B, directed)
    ensures Covered(A + ([a] + B), directed) == Covered(A + B, directed) + Link(a, directed)
    ensures Disjoint(A + ([a] + B), directed)
  {
    CoveredConcat(A, B, directed);
    CoveredConcat([a], B, directed);
    CoveredConcat(A, [a] + B, directed);
    assert [a][1..] == [];
  }

  /** Pushing `v`, reached from the top `u` by the edge just used, extends
      the trail by that edge. */
  lemma PushWalking(start: Vertex, N0: Sets, N: Sets, N': Sets, directed: bool, S: seq<Vertex>, R: seq<Vertex>, link: nat, v: Vertex)
    requires S != [] && Walking(start, N0, N, directed, S, R, link)
    requires Link((S[|S| - 1], v), directed) <= Pairs(N)
    requires Pairs(N') == Pairs(N) - Link((S[|S| - 1], v), directed)
    requires Balance(N', directed, v, S[link])
    ensures Walking(start, N0, N', directed, S + [v], R, link)
  {
    TrailPush(S, link, R, v);
    CoverInsert(Steps(S), (S[|S| - 1], v), Tail(S, link, R), directed);
  }

  /** Popping the top `x`, which has nothing left, keeps the trail: `x` is
      the vertex the walk was resumed from, so the edge that linked the
      stack to the popped vertices now starts at `x`'s place in the popped
      sequence and the stack's last step becomes the new link. */
  lemma PopWalking(start: Vertex, N0: Sets, N: Sets, directed: bool, S: seq<Vertex>, R: seq<Vertex>, link: nat)
    requires S != [] && S[0] == start && Walking(start, N0, N, directed, S, R, link)
    requires Out(N, S[|S| - 1]) == 0
    ensures Walking(start, N0, N, directed, S[..|S| - 1], R + [S[|S| - 1]], if |S| > 1 then |S| - 2 else 0)
  {
    var x := S[|S| - 1];
    var S', link', R' := S[..|S| - 1], if |S| > 1 then |S| - 2 else 0, R + [x];
    StuckAtAnchor(N, directed, x, S[link]);
    TrailPop(S, link, R);
    assert Trail(S', link', R') == Trail(S, link, R);
    if S' != [] {
      assert S'[link'] == S'[|S'| - 1] == S[|S| - 2];
      BalanceSame(N, directed, x, S'[|S'| - 1]);
    } else {
      BalanceSame(N, directed, x, start);
    }
    assert R'[0] == start by {
      if R == [] {
        assert x == S[0];
      }
    }
  }

  // ----------------------------------------------------------------------
  // The circuit loop

  /** Some vertex's set holds the vertex itself. */
  ghost predicate SelfLoop(N: Sets) {
    exists u :: u in N && u in N[u]
  }

  /** What the loop leaves behind when the starting sets `N0` were
      balanced: a closed walk `T` from `start` back to `start` that uses no edge
      twice, whose edges together with those left in `Nf` are all the edges
      of `N0`, and no vertex of which has anything left. */
  ghost predicate Circuit(start: Vertex, N0: Sets, Nf: Sets, directed: bool, T: seq<Vertex>) {
    && T != [] && T[0] == start && T[|T| - 1] == start
    && Disjoint(Steps(T), directed)
    && Pairs(N0) == Covered(Steps(T), directed) + Pairs(Nf)
    && Covered(Steps(T), directed) !! Pairs(Nf)
    && Nf.Keys == N0.Keys && SetsClosed(Nf) && (!directed ==> SetsSymmetric(Nf))
    && Balance(Nf, directed, start, start)
    && (forall i :: 0 <= i < |T| ==> Out(Nf, T[i]) == 0)
  }

  /** The undirected graph has an edge from `start` to itself, and the
      reverse entry is removed with `remove`. */
  predicate Doomed(start: Vertex, N0: Sets, directed: bool, discard: bool) {
    !directed && !discard && start in N0 && start in N0[start]
  }

  /** Every self-loop of `N0` is still in `N`. With `remove` in undirected
      mode no self-loop is ever used: using one raises. */
  ghost predicate LoopsStay(N0: Sets, N: Sets) {
    forall u :: u in N0 && u in N0[u] ==> u in N && u in N[u]
  }

  /** The loop invariant: the shape of the state, the trail when the
      starting sets are balanced, the self-loops that stay in place until
      one raises, and the run from a vertex that is not in the graph. */
  ghost predicate Inv(start: Vertex, N0: Sets, N: Sets, directed: bool, discard: bool, S: seq<Vertex>, R: seq<Vertex>, link: nat) {
    && Shape(start, N0, N, directed, S, R)
    && (Balance(N0, directed, start, start) ==> Walking(start, N0, N, directed, S, R, link))
    && (Doomed(start, N0, directed, discard) ==> S != [] && start in N && start in N[start])
    && (!directed && !discard ==> LoopsStay(N0, N))
    && (start !in N0 ==> (S == [start] && R == []) || (S == [] && R == [start]))
  }

  lemma InvInit(start: Vertex, N0: Sets, directed: bool, discard: bool)
    requires SetsClosed(N0) && (!directed ==> SetsSymmetric(N0))
    ensures Inv(start, N0, N0, directed, discard, [start], [], 0)
  {
    assert Trail([start], 0, []) == [];
  }

  /** Using the edge from the top `S[|S| - 1]` to `v` keeps the invariant
      and shrinks what is left. */
  lemma PushInv(start: Vertex, N0: Sets, N: Sets, N': Sets, directed: bool, discard: bool, S: seq<Vertex>, R: seq<Vertex>, link: nat, v: Vertex)
    requires S != [] && Inv(start, N0, N, directed, discard, S, R, link)
    requires S[|S| - 1] in N && v in N[S[|S| - 1]]
    requires Take(N, S[|S| - 1], v, directed, discard) == Success(N')
    ensures Inv(start, N0, N', directed, discard, S + [v], R, link)
    ensures |Pairs(N')| < |Pairs(N)|
  {
    var u := S[|S| - 1];
    TakeShape(N, u, v, directed, discard);
    TakePairs(N, u, v, directed, discard);
    PushShape(start, N0, N, N', directed, S, R, v);
    if Balance(N0, directed, start, start) {
      TakeBalance(N, u, v, directed, discard, S[link]);
      PushWalking(start, N0, N, N', directed, S, R, link, v);
    }
    if Doomed(start, N0, directed, discard) {
      PairsMember(N, start, start);
      PairsMember(N', start, start);
    }
    if !directed && !discard {
      TakeKeepsLoops(N0, N, u, v);
    }
  }

  /** Using an edge between two vertices with `remove` in undirected mode
      leaves every self-loop in place. */
  lemma TakeKeepsLoops(N0: Sets, N: Sets, u: Vertex, v: Vertex)
    requires u in N && v in N[u] && LoopsStay(N0, N)
    requires Take(N, u, v, false, false).Success?
    ensures LoopsStay(N0, Take(N, u, v, false, false).value)
  {
    var N' := Take(N, u, v, false, false).value;
    assert u != v;
    forall w | w in N0 && w in N0[w]
      ensures w in N' && w in N'[w]
    {
      assert w in N[w];
    }
  }

  lemma PushShape(start: Vertex, N0: Sets, N: Sets, N': Sets, directed: bool, S: seq<Vertex>, R: seq<Vertex>, v: Vertex)
    requires S != [] && Shape(start, N0, N, directed, S, R)
    requires N'.Keys == N.Keys && SetsClosed(N') && (!directed ==> SetsSymmetric(N'))
    requires Pairs(N') <= Pairs(N)
    requires forall x :: Out(N', x) <= Out(N, x)
    ensures Shape(start, N0, N', directed, S + [v], R)
  {
    forall i | 0 <= i < |R|
      ensures Out(N', R[i]) == 0
    {
      assert Out(N', R[i]) <= Out(N, R[i]);
    }
  }

  /** A top with nothing left moves to the result. */
  lemma PopInv(start: Vertex, N0: Sets, N: Sets, directed: bool, discard: bool, S: seq<Vertex>, R: seq<Vertex>, link: nat)
    requires S != [] && Inv(start, N0, N, directed, discard, S, R, link)
    requires !(S[|S| - 1] in N && N[S[|S| - 1]] != {})
    ensures Inv(start, N0, N, directed, discard, S[..|S| - 1], R + [S[|S| - 1]], if |S| > 1 then |S| - 2 else 0)
  {
    assert Out(N, S[|S| - 1]) == 0;
    if Balance(N0, directed, start, start) {
      PopWalking(start, N0, N, directed, S, R, link);
    }
  }

  /** A push can fail only on an undirected edge from a vertex to itself. */
  lemma PushFails(start: Vertex, N0: Sets, N: Sets, directed: bool, discard: bool, S: seq<Vertex>, R: seq<Vertex>, link: nat, v: Vertex)
    requires S != [] && Inv(start, N0, N, directed, discard, S, R, link)
    requires S[|S| - 1] in N && v in N[S[|S| - 1]]
    requires Take(N, S[|S| - 1], v, directed, discard).Failure?
    ensures Take(N, S[|S| - 1], v, directed, discard).error == MissingKey
    ensures !directed && !discard && SelfLoop(N0)
  {
    var u := S[|S| - 1];
    TakeShape(N, u, v, directed, discard);
    PairsMember(N, u, u);
    PairsMember(N0, u, u);
  }

  /** With the stack empty, the reversed result is the circuit. */
  lemma InvDone(start: Vertex, N0: Sets, N: Sets, directed: bool, discard: bool, R: seq<Vertex>, link: nat)
    requires Inv(start, N0, N, directed, discard, [], R, link)
    ensures !Doomed(start, N0, directed, discard)
    ensures Reverse(R) != [] && Reverse(R)[0] == start
    ensures start !in N0 ==> Reverse(R) == [start]
    ensures Balance(N0, directed, start, start) ==> Circuit(start, N0, N, directed, Reverse(R))
  {
    var T := Reverse(R);
    assert T[0] == R[|R| - 1];
    if start !in N0 {
      assert R == [start];
      assert T == [start];
    }
    if Balance(N0, directed, start, start) {
      assert Trail([], link, R) == Steps(T);
      assert T[|T| - 1] == R[0];
      forall i | 0 <= i < |T|
        ensures Out(N, T[i]) == 0
      {
        assert T[i] == R[|R| - 1 - i];
      }
    }
  }

  /** The stack loop of `get_eul_circuit`, run from `start` over the working
      sets `N0`. While the top has something left in its set, an arbitrary
      entry is used and pushed; otherwise the top moves to the result, which
      is returned reversed. With `discard` the reverse entry of an
      undirected edge is removed without raising when it is already gone. */
  method Hierholzer(start: Vertex, N0: Sets, directed: bool, discard: bool) returns (r: Result<seq<Vertex>>, ghost Nf: Sets)
    requires SetsClosed(N0) && (!directed ==> SetsSymmetric(N0))
    ensures r.Failure? ==> r.error == MissingKey && !directed && !discard && SelfLoop(N0)
    ensures Doomed(start, N0, directed, discard) ==> r.Failure?
    ensures start !in N0 ==> r == Success([start])
    ensures r.Success? ==> r.value != [] && r.value[0] == start
    ensures r.Success? && Balance(N0, directed, start, start) ==> Circuit(start, N0, Nf, directed, r.value)
    ensures r.Success? && !directed && !discard ==> LoopsStay(N0, Nf)
  {
    var N := N0;
    var stack := [start];
    var result: seq<Vertex> := [];
    ghost var link: nat := 0;
    InvInit(start, N0, directed, discard);
    while stack != []
      invariant Inv(start, N0, N, directed, discard, stack, result, link)
      decreases |Pairs(N)|, |stack|
    {
      var current := stack[|stack| - 1];
      if current in N && N[current] != {} {
        var v :| v in N[current];
        var t := Take(N, current, v, directed, discard);
        if t.Failure? {
          PushFails(start, N0, N, directed, discard, stack, result, link, v);
          return Failure(t.error), N;
        }
        PushInv(start, N0, N, t.value, directed, discard, stack, result, link, v);
        N, stack := t.value, stack + [v];
      } else {
        PopInv(start, N0, N, directed, discard, stack, result, link);
        result, stack, link := result + [current], stack[..|stack| - 1], if |stack| > 1 then |stack| - 2 else 0;
      }
    }
    InvDone(start, N0, N, directed, discard, result, link);
    Nf := N;
    r := Success(Reverse(result));
  }

  // ----------------------------------------------------------------------
  // From the sets back to the graph

  /** Each vertex's own entry is stored once in directed mode and twice
      (one undirected self-loop) in undirected mode, and no other entry is
      repeated: a list's length is then the number of edges at the vertex
      that the degree test means to count. */
  ghost predicate StoredOnce(adj: Adjacency, directed: bool) {
    forall v :: v in adj ==> |adj[v]| == |Elems(adj[v])| + (if !directed && v in adj[v] then 1 else 0)
  }

  /** The fresh sets of a well-formed graph are closed (and symmetric in
      undirected mode), and their pairs are exactly the graph's arcs. */
  lemma FreshFacts(N0: Sets, adj: Adjacency, directed: bool)
    requires Fresh(N0, adj, directed) && Closed(adj) && (!directed ==> Symmetric(adj))
    ensures SetsClosed(N0) && (!directed ==> SetsSymmetric(N0))
    ensures forall x :: x in N0 ==> N0[x] == Elems(adj[x])
    ensures Pairs(N0) == Arcs(adj, adj.Keys)
  {
    forall x | x in N0
      ensures N0[x] == Elems(adj[x])
    {
      if !directed {
        forall w | w in Inbound(adj, x)
          ensures w in Elems(adj[x])
        {
        }
      }
    }
  }

  /** A graph that passes the degree test, with entries stored as the store
      keeps them, gives fresh sets balanced everywhere. */
  lemma FreshBalance(N0: Sets, adj: Adjacency, directed: bool, s: Vertex)
    requires Fresh(N0, adj, directed) && Closed(adj) && (!directed ==> Symmetric(adj))
    requires Balanced(adj, directed) && StoredOnce(adj, directed)
    ensures Balance(N0, directed, s, s)
  {
    FreshFacts(N0, adj, directed);
    if directed {
      forall v
        ensures Out(N0, v) - |Into(N0, v)| == Ind(v == s) - Ind(v == s)
      {
        FreshInOut(N0, adj, v);
      }
    } else {
      forall v
        ensures (Out(N0, v) + Loop(N0, v)) % 2 == (Ind(v == s) + Ind(v == s)) % 2
      {
        FreshParity(N0, adj, v);
      }
    }
  }

  lemma FreshInOut(N0: Sets, adj: Adjacency, v: Vertex)
    requires N0.Keys == adj.Keys && Closed(adj) && StoredOnce(adj, true) && Balanced(adj, true)
    requires forall x :: x in N0 ==> N0[x] == Elems(adj[x])
    ensures Out(N0, v) == |Into(N0, v)|
  {
    assert Into(N0, v) == Inbound(adj, v);
    if v in adj {
      assert DegreeOk(adj, true, v);
    } else {
      assert Inbound(adj, v) == {};
    }
  }

  lemma FreshParity(N0: Sets, adj: Adjacency, v: Vertex)
    requires N0.Keys == adj.Keys && StoredOnce(adj, false) && Balanced(adj, false)
    requires forall x :: x in N0 ==> N0[x] == Elems(adj[x])
    ensures (Out(N0, v) + Loop(N0, v)) % 2 == 0
  {
    if v in adj {
      assert DegreeOk(adj, false, v);
      assert Out(N0, v) + Loop(N0, v) == |adj[v]|;
    }
  }

  /** Both ends of every pair used by the steps `L` lie in `X` when every
      step has both ends there. */
  lemma {:induction false} CoveredWithin(L: seq<(Vertex, Vertex)>, directed: bool, X: set<Vertex>)
    requires forall i :: 0 <= i < |L| ==> L[i].0 in X && L[i].1 in X
    ensures forall a, b :: (a, b) in Covered(L, directed) ==> a in X && b in X
  {
    if L != [] {
      CoveredWithin(L[1..], directed, X);
    }
  }

  /** No arc of `adj` joins a vertex of `X` to one outside it, in either
      direction. */
  ghost predicate Sealed(adj: Adjacency, X: set<Vertex>) {
    forall a, b :: a in adj && b in adj[a] ==> (a in X <==> b in X)
  }

  /** A walk starts inside a sealed set exactly when it ends inside. */
  lemma {:induction false} WalkSealed(adj: Adjacency, X: set<Vertex>, p: seq<Vertex>)
    requires Sealed(adj, X) && IsWalk(adj, p)
    ensures p[0] in X <==> p[|p| - 1] in X
  {
    if |p| > 1 {
      WalkSealed(adj, X, p[1..]);
    }
  }

  /** Nothing left over touches a vertex of the circuit: nothing is left
      in its sets, and an entry naming it elsewhere would leave one there
      too (by the balance of the remainder in directed mode, by symmetry
      otherwise). */
  lemma NothingLeftOn(start: Vertex, N0: Sets, Nf: Sets, directed: bool, T: seq<Vertex>)
    requires Circuit(start, N0, Nf, directed, T)
    ensures forall a, b :: (a, b) in Pairs(Nf) ==> a !in Elems(T) && b !in Elems(T)
  {
    forall a, b | (a, b) in Pairs(Nf)
      ensures a !in Elems(T) && b !in Elems(T)
    {
      PairsMember(Nf, a, b);
      assert Out(Nf, a) > 0;
      if directed {
        assert a in Into(Nf, b);
        assert Out(Nf, b) - |Into(Nf, b)| == Ind(b == start) - Ind(b == start);
      } else {
        assert a in Nf[b];
      }
      assert Out(Nf, b) > 0;
      forall i | 0 <= i < |T|
        ensures T[i] != a && T[i] != b
      {
        assert Out(Nf, T[i]) == 0;
      }
    }
  }

  /** The vertices of the circuit the loop returns are sealed: an arc with
      an end on the circuit is not left over, so the circuit used it. */
  lemma CircuitSealed(start: Vertex, N0: Sets, Nf: Sets, adj: Adjacency, directed: bool, T: seq<Vertex>)
    requires Fresh(N0, adj, directed) && Closed(adj) && (!directed ==> Symmetric(adj))
    requires Circuit(start, N0, Nf, directed, T)
    ensures Sealed(adj, Elems(T))
  {
    FreshFacts(N0, adj, directed);
    NothingLeftOn(start, N0, Nf, directed, T);
    var X := Elems(T);
    forall i | 0 <= i < |Steps(T)|
      ensures Steps(T)[i].0 in X && Steps(T)[i].1 in X
    {
      assert T[i] in X && T[i + 1] in X;
    }
    CoveredWithin(Steps(T), directed, X);
    forall a, b | a in adj && b in adj[a]
      ensures a in X <==> b in X
    {
      assert (a, b) in Pairs(N0);
    }
  }

  /** When every vertex is reachable from `chosen` and the circuit starts at
      a vertex of the graph, nothing is left over: the circuit is sealed,
      `chosen` reaches its start and so lies on it, and then every vertex
      does. */
  lemma AllUsed(start: Vertex, N0: Sets, Nf: Sets, adj: Adjacency, directed: bool, T: seq<Vertex>, chosen: Vertex)
    requires Fresh(N0, adj, directed) && Closed(adj) && (!directed ==> Symmetric(adj))
    requires Circuit(start, N0, Nf, directed, T) && start in adj
    requires forall v :: v in adj ==> Reachable(adj, chosen, v)
    ensures Pairs(Nf) == {}
  {
    var X := Elems(T);
    CircuitSealed(start, N0, Nf, adj, directed, T);
    var p :| WalkBetween(adj, p, chosen, start);
    WalkSealed(adj, X, p);
    assert start in X;
    forall a | a in adj
      ensures a in X
    {
      var q :| WalkBetween(adj, q, chosen, a);
      WalkSealed(adj, X, q);
    }
    NothingLeftOn(start, N0, Nf, directed, T);
  }

  /** An Eulerian circuit of the graph: a closed walk from a vertex of the
      graph back to it that uses every edge exactly once (both directions
      of an undirected edge are one edge). */
  ghost predicate EulerCircuit(adj: Adjacency, directed: bool, T: seq<Vertex>) {
    && T != [] && T[0] in adj && T[0] == T[|T| - 1]
    && Disjoint(Steps(T), directed)
    && Covered(Steps(T), directed) == Arcs(adj, adj.Keys)
  }

  /** The loop's circuit over balanced fresh sets, from a vertex of a graph
      whose vertices are all reachable from `chosen`, is an Eulerian
      circuit of the graph. */
  lemma CircuitIsEulerian(start: Vertex, N0: Sets, Nf: Sets, adj: Adjacency, directed: bool, T: seq<Vertex>, chosen: Vertex)
    requires Fresh(N0, adj, directed) && Closed(adj) && (!directed ==> Symmetric(adj))
    requires Circuit(start, N0, Nf, directed, T) && start in adj
    requires forall v :: v in adj ==> Reachable(adj, chosen, v)
    ensures EulerCircuit(adj, directed, T)
  {
    FreshFacts(N0, adj, directed);
    AllUsed(start, N0, Nf, adj, directed, T, chosen);
    assert Covered(Steps(T), directed) == Pairs(N0) by {
      assert Pairs(N0) == Covered(Steps(T), directed) + {};
    }
  }

  /** Every step of `L` uses pairs that `Covered` collects. */
  lemma {:induction false} CoveredHas(L: seq<(Vertex, Vertex)>, directed: bool, i: nat)
    requires i < |L|
    ensures Link(L[i], directed) <= Covered(L, directed)
  {
    if i > 0 {
      CoveredHas(L[1..], directed, i - 1);
    }
  }

  /** Steps that share no arc are as many as the arcs they use, in directed
      mode. */
  lemma {:induction false} CoveredCount(L: seq<(Vertex, Vertex)>)
    requires Disjoint(L, true)
    ensures |Covered(L, true)| == |L|
  {
    if L != [] {
      CoveredCount(L[1..]);
    }
  }

  /** An Eulerian circuit walks along the graph's arcs, and in directed mode
      it has one step per arc. */
  lemma EulerCircuitWalks(adj: Adjacency, directed: bool, T: seq<Vertex>)
    requires EulerCircuit(adj, directed, T)
    ensures forall i :: 0 <= i < |T| - 1 ==> T[i] in adj && T[i + 1] in adj[T[i]]
    ensures directed ==> |T| - 1 == |Arcs(adj, adj.Keys)|
  {
    forall i | 0 <= i < |T| - 1
      ensures T[i] in adj && T[i + 1] in adj[T[i]]
    {
      CoveredHas(Steps(T), directed, i);
      assert (T[i], T[i + 1]) in Link(Steps(T)[i], directed);
    }
    if directed {
      CoveredCount(Steps(T));
    }
  }

  // ----------------------------------------------------------------------
  // Two graphs on which the procedure as written goes wrong

  /** The undirected graph with the one vertex "6" and a self-loop at it,
      stored as two copies of "6" in its own list. */
  function LoopAtSixGraph(): Adjacency {
    map["6" := ["6", "6"]]
  }

  /** The loop at "6" is a well-formed store that passes the degree test,
      so `get_eul_circuit` as written raises on it (`GetEulCircuit`), while
      it has the Eulerian circuit ["6", "6"], the kind of answer the
      corrected version gives. */
  lemma LoopAtSix(c: Vertex)
    requires c in LoopAtSixGraph()
    ensures WellFormed(["6"], LoopAtSixGraph(), map[], false, false)
    ensures EulerTest(LoopAtSixGraph(), false, c)
    ensures Start in LoopAtSixGraph() && Start in LoopAtSixGraph()[Start]
    ensures StoredOnce(LoopAtSixGraph(), false)
    ensures EulerCircuit(LoopAtSixGraph(), false, ["6", "6"])
  {
    var adj := LoopAtSixGraph();
    ReachRefl(adj, "6");
    assert Elems(adj["6"]) == {"6"};
    assert Steps(["6", "6"]) == [("6", "6")];
    assert Arcs(adj, adj.Keys) == {("6", "6")};
  }

  /** The directed two-cycle 1 -> 2 -> 1, which has no vertex "6". */
  function TwoCycleGraph(): Adjacency {
    map["1" := ["2"], "2" := ["1"]]
  }

  lemma TwoCycleNames()
    ensures "1" != "2" && "1" != Start && "2" != Start
  {
    assert "1"[0] != "2"[0] && "1"[0] != "6"[0] && "2"[0] != "6"[0];
  }

  /** The two-cycle is a well-formed store that passes the degree test, so
      `get_eul_circuit` as written answers ["6"] on it (`GetEulCircuit`). */
  lemma TwoCycle(c: Vertex)
    requires c in TwoCycleGraph()
    ensures WellFormed(["1", "2"], TwoCycleGraph(), map[], true, false)
    ensures EulerTest(TwoCycleGraph(), true, c)
    ensures Start !in TwoCycleGraph()
  {
    var adj := TwoCycleGraph();
    TwoCycleNames();
    ReachArc(adj, "1", "2");
    ReachArc(adj, "2", "1");
    ReachRefl(adj, "1");
    ReachRefl(adj, "2");
    assert Inbound(adj, "1") == {"2"} && Inbound(adj, "2") == {"1"};
    assert DegreeOk(adj, true, "1") && DegreeOk(adj, true, "2");
  }

  /** ["6"] is no circuit of the two-cycle, while ["1", "2", "1"] is one,
      the kind of answer the corrected version gives. */
  lemma TwoCycleCircuit()
    ensures !EulerCircuit(TwoCycleGraph(), true, [Start])
    ensures EulerCircuit(TwoCycleGraph(), true, ["1", "2", "1"])
  {
    var adj := TwoCycleGraph();
    TwoCycleNames();
    assert Arcs(adj, adj.Keys) == {("1", "2"), ("2", "1")};
    assert Steps(["1", "2", "1"]) == [("1", "2"), ("2", "1")];
  }

  // ----------------------------------------------------------------------
  // The procedure

  /** `get_eul_circuit` from the vertex `start`, with `discard` selecting
      how the reverse entry of an undirected edge is removed: the degree
      test first (an empty graph raises there, a failed test gives the
      empty list), then the fresh sets, then the stack loop. */
  method EulCircuitFrom(g: Domain.Graph, start: Vertex, discard: bool) returns (r: Result<seq<Vertex>>, ghost chosen: Vertex)
    requires g.Valid()
    ensures g.adj == map[] ==> r == Failure(EmptyGraph)
    ensures g.adj != map[] ==> chosen in g.adj
    ensures r == Success([]) <==> g.adj != map[] && !EulerTest(g.adj, g.isDirected, chosen)
    ensures r.Failure? && g.adj != map[] ==>
      && r.error == MissingKey && !g.isDirected && !discard && EulerTest(g.adj, g.isDirected, chosen)
      && exists u :: u in g.adj && u in g.adj[u]
    ensures g.adj != map[] && EulerTest(g.adj, g.isDirected, chosen) && !g.isDirected && !discard ==>
      start in g.adj && start in g.adj[start] ==> r.Failure?
    ensures
      && g.adj != map[] && EulerTest(g.adj, g.isDirected, chosen) && !g.isDirected && !discard
      && start in g.adj && StoredOnce(g.adj, g.isDirected) && (exists u :: u in g.adj && u in g.adj[u])
      ==> r.Failure?
    ensures g.adj != map[] && EulerTest(g.adj, g.isDirected, chosen) && start !in g.adj ==> r == Success([start])
    ensures r.Success? && r.value != [] ==> r.value[0] == start
    ensures r.Success? && r.value != [] && start in g.adj && StoredOnce(g.adj, g.isDirected) ==>
      EulerCircuit(g.adj, g.isDirected, r.value)
  {
    var test;
    test, chosen := CheckIfEul(g);
    if test.Failure? {
      return Failure(test.error), chosen;
    }
    if !test.value {
      return Success([]), chosen;
    }
    var N0 := FreshNeighbourSets(g);
    ghost var adj, directed := g.adj, g.isDirected;
    assert Closed(adj) && (!directed ==> Symmetric(adj));
    FreshFacts(N0, adj, directed);
    ghost var Nf;
    r, Nf := Hierholzer(start, N0, g.isDirected, discard);
    if r.Failure? {
      var u :| u in N0 && u in N0[u];
      assert u in adj && u in adj[u];
    }
    if start in adj && StoredOnce(adj, directed) && r.Success? {
      FreshBalance(N0, adj, directed, start);
      CircuitIsEulerian(start, N0, Nf, adj, directed, r.value, chosen);
      if !directed && !discard {
        // the circuit used every edge, yet with `remove` no self-loop is used
        AllUsed(start, N0, Nf, adj, directed, r.value, chosen);
        forall u | u in adj
          ensures u !in adj[u]
        {
          PairsMember(Nf, u, u);
        }
      }
    }
  }

  /** `get_eul_circuit` as written: the walk starts at "6" whatever the
      graph, and the reverse entry of an undirected edge is removed with
      `remove`, which raises when a self-loop has already removed it. A
      connected Eulerian graph without a vertex "6" gets the answer ["6"];
      an undirected one with a vertex "6" and a self-loop anywhere raises. */
  method GetEulCircuit(g: Domain.Graph) returns (r: Result<seq<Vertex>>, ghost chosen: Vertex)
    requires g.Valid()
    ensures g.adj == map[] ==> r == Failure(EmptyGraph)
    ensures g.adj != map[] ==> chosen in g.adj
    ensures r == Success([]) <==> g.adj != map[] && !EulerTest(g.adj, g.isDirected, chosen)
    ensures r.Failure? && g.adj != map[] ==>
      && r.error == MissingKey && !g.isDirected && EulerTest(g.adj, g.isDirected, chosen)
      && exists u :: u in g.adj && u in g.adj[u]
    ensures g.adj != map[] && EulerTest(g.adj, g.isDirected, chosen) && !g.isDirected ==>
      Start in g.adj && Start in g.adj[Start] ==> r.Failure?
    ensures
      && g.adj != map[] && EulerTest(g.adj, g.isDirected, chosen) && !g.isDirected
      && Start in g.adj && StoredOnce(g.adj, g.isDirected) && (exists u :: u in g.adj && u in g.adj[u])
      ==> r.Failure?
    ensures g.adj != map[] && EulerTest(g.adj, g.isDirected, chosen) && Start !in g.adj ==> r == Success([Start])
    ensures r.Success? && r.value != [] && Start in g.adj && StoredOnce(g.adj, g.isDirected) ==>
      EulerCircuit(g.adj, g.isDirected, r.value) && r.value[0] == Start
  {
    r, chosen := EulCircuitFrom(g, Start, false);
  }

  /** `get_eul_circuit` corrected: the walk starts at the first vertex of
      the graph, and the reverse entry is discarded rather than removed.
      An empty graph raises, a graph that fails the test gets the empty
      list, and every other graph whose lists are stored as the store keeps
      them gets an Eulerian circuit. */
  method GetEulCircuitFixed(g: Domain.Graph) returns (r: Result<seq<Vertex>>, ghost chosen: Vertex)
    requires g.Valid()
    ensures r.Failure? <==> g.adj == map[]
    ensures r.Failure? ==> r.error == EmptyGraph
    ensures r.Success? ==> chosen in g.adj && (r.value == [] <==> !EulerTest(g.adj, g.isDirected, chosen))
    ensures r.Success? && r.value != [] && StoredOnce(g.adj, g.isDirected) ==> EulerCircuit(g.adj, g.isDirected, r.value)
  {
    var vs := g.ReturnVerticesList();
    var start := if vs == [] then Start else vs[0];
    r, chosen := EulCircuitFrom(g, start, true);
  }
}
