/** Walk costs, distances with an infinite value, and the predecessor
    chains that `get_walk` of `Djkstra.py`, `UCS.py` and `UCS2.py` follows. */
module PathCost {
  import opened Common
  import opened GraphModel

  /** A distance: an integer or `float('inf')`. Weights are integers, so no
      other floating-point value can arise. */
  datatype Dist = Fin(n: int) | Inf

  /** `a < b` with `inf` above every integer and not below itself. */
  predicate Less(a: Dist, b: Dist) {
    a.Fin? && (b.Inf? || a.n < b.n)
  }

  /** `a <= b`. */
  predicate AtMost(a: Dist, b: Dist) {
    b.Inf? || (a.Fin? && a.n <= b.n)
  }

  lemma LessIff(a: Dist, b: Dist)
    ensures Less(a, b) <==> !AtMost(b, a)
  {
  }

  /** The stored weight of the arc u -> v; a missing entry counts as 0. */
  function EdgeW(wt: WeightTable, u: Vertex, v: Vertex): int {
    if u in wt && v in wt[u] then wt[u][v] else 0
  }

  ghost predicate NonNegative(wt: WeightTable) {
    forall u, v :: u in wt && v in wt[u] ==> wt[u][v] >= 0
  }

  /** The summed weight of the steps of a walk. */
  ghost function Cost(wt: WeightTable, p: seq<Vertex>): int
    decreases |p|
  {
    if |p| <= 1 then 0 else EdgeW(wt, p[0], p[1]) + Cost(wt, p[1..])
  }

  /** One more step adds its weight. */
  lemma {:induction false} CostAppend(wt: WeightTable, p: seq<Vertex>, y: Vertex)
    requires |p| >= 1
    ensures Cost(wt, p + [y]) == Cost(wt, p) + EdgeW(wt, p[|p| - 1], y)
    decreases |p|
  {
    if |p| > 1 {
      assert (p + [y])[1..] == p[1..] + [y];
      CostAppend(wt, p[1..], y);
    }
  }

  /** With non-negative weights no walk costs less than nothing. */
  lemma {:induction false} CostNonNegative(wt: WeightTable, p: seq<Vertex>)
    requires NonNegative(wt)
    ensures Cost(wt, p) >= 0
    decreases |p|
  {
    if |p| > 1 {
      CostNonNegative(wt, p[1..]);
    }
  }

  // ----------------------------------------------------------------------
  // Relaxed vertices

  /** No arc out of `u` can improve a distance: the state of a vertex whose
      neighbours have all been relaxed against its current distance. */
  ghost predicate Relaxed(adj: Adjacency, wt: WeightTable, dist: map<Vertex, Dist>, u: Vertex)
    requires u in adj && u in dist && dist[u].Fin?
  {
    forall v :: v in adj[u] ==> v in dist && AtMost(dist[v], Fin(dist[u].n + EdgeW(wt, u, v)))
  }

  ghost predicate AllRelaxed(adj: Adjacency, wt: WeightTable, dist: map<Vertex, Dist>) {
    forall u :: u in adj && u in dist && dist[u].Fin? ==> Relaxed(adj, wt, dist, u)
  }

  /** When every vertex with a finite distance is relaxed, a walk from a
      vertex with a finite distance ends at one whose distance exceeds it
      by at most the cost of the walk. */
  lemma {:induction false} WalkBound(adj: Adjacency, wt: WeightTable, dist: map<Vertex, Dist>, p: seq<Vertex>)
    requires IsWalk(adj, p) && p[0] in dist && dist[p[0]].Fin?
    requires AllRelaxed(adj, wt, dist)
    ensures p[|p| - 1] in dist && dist[p[|p| - 1]].Fin?
    ensures dist[p[|p| - 1]].n <= dist[p[0]].n + Cost(wt, p)
    decreases |p|
  {
    if |p| > 1 {
      assert Relaxed(adj, wt, dist, p[0]);
      assert p[1] in dist && AtMost(dist[p[1]], Fin(dist[p[0]].n + EdgeW(wt, p[0], p[1])));
      WalkBound(adj, wt, dist, p[1..]);
      assert p[1..][|p[1..]| - 1] == p[|p| - 1];
    }
  }

  // ----------------------------------------------------------------------
  // Predecessor chains

  /** Following `prev` from `v` stops within `n` lookups: at `None`, or at a
      vertex that is not a key (a `KeyError`). A chain that never stops is
      a cycle, on which `get_walk` does not return. */
  ghost predicate Ends(prev: map<Vertex, Option<Vertex>>, v: Vertex, n: nat)
    decreases n
  {
    n > 0 && (v !in prev || prev[v].None? || Ends(prev, prev[v].value, n - 1))
  }

  /** The predecessor chain that ends at `v`, first vertex first; a
    `KeyError` when it reaches a vertex that is not a key. */
  function Chain(prev: map<Vertex, Option<Vertex>>, v: Vertex, ghost n: nat): Result<seq<Vertex>>
    requires Ends(prev, v, n)
    decreases n
  {
    if v !in prev then Failure(MissingKey)
    else if prev[v].None? then Success([v])
    else
      match Chain(prev, prev[v].value, n - 1)
      case Failure(e) => Failure(e)
      case Success(c) => Success(c + [v])
  }

  /** Each vertex of `c` after the first has the one before it as its
      recorded predecessor. */
  ghost predicate Linked(prev: map<Vertex, Option<Vertex>>, c: seq<Vertex>) {
    forall i :: 1 <= i < |c| ==> c[i] in prev && prev[c[i]] == Some(c[i - 1])
  }

  /** A chain ends at `v`, starts at a vertex without predecessor, and each
      vertex in it is the recorded predecessor of the next. */
  lemma {:induction false} ChainLinks(prev: map<Vertex, Option<Vertex>>, v: Vertex, n: nat)
    requires Ends(prev, v, n)
    ensures var c := Chain(prev, v, n);
      c.Success? ==>
        && |c.value| >= 1 && c.value[|c.value| - 1] == v
        && c.value[0] in prev && prev[c.value[0]] == None
        && Linked(prev, c.value)
    ensures Chain(prev, v, n).Failure? ==> Chain(prev, v, n).error == MissingKey
    decreases n
  {
    if v in prev && prev[v].Some? {
      ChainLinks(prev, prev[v].value, n - 1);
    }
  }

  /** The chain does not depend on the bound it was computed with. */
  lemma {:induction false} ChainFuel(prev: map<Vertex, Option<Vertex>>, v: Vertex, n: nat, m: nat)
    requires Ends(prev, v, n) && Ends(prev, v, m)
    ensures Chain(prev, v, n) == Chain(prev, v, m)
    decreases n
  {
    if v in prev && prev[v].Some? {
      ChainFuel(prev, prev[v].value, n - 1, m - 1);
    }
  }

  /** `get_walk`: the chain ending at `end` when it starts at `start`, and
      the empty list otherwise. */
  function WalkFor(prev: map<Vertex, Option<Vertex>>, start: Vertex, end: Vertex, ghost n: nat): Result<seq<Vertex>>
    requires Ends(prev, end, n)
  {
    match Chain(prev, end, n)
    case Failure(e) => Failure(e)
    case Success(c) => Success(if c[0] == start then c else [])
  }

  /** A chain result with `tail` appended after it. */
  function Extend(r: Result<seq<Vertex>>, tail: seq<Vertex>): Result<seq<Vertex>> {
    match r
    case Failure(e) => Failure(e)
    case Success(c) => Success(c + tail)
  }

  lemma ExtendTwice(r: Result<seq<Vertex>>, a: seq<Vertex>, b: seq<Vertex>)
    ensures Extend(Extend(r, a), b) == Extend(r, a + b)
  {
    if r.Success? {
      assert r.value + a + b == r.value + (a + b);
    }
  }

  lemma ExtendNothing(r: Result<seq<Vertex>>)
    ensures Extend(r, []) == r
  {
    if r.Success? {
      assert r.value + [] == r.value;
    }
  }

  /** The loop of `get_walk`: put the current vertex in front and move to
      its predecessor, until the predecessor is `None`; then keep the path
      only when it starts at `start`. */
  method GetWalk(prev: map<Vertex, Option<Vertex>>, start: Vertex, end: Vertex, ghost n: nat)
    returns (r: Result<seq<Vertex>>)
    requires Ends(prev, end, n)
    ensures r == WalkFor(prev, start, end, n)
    ensures r.Success? && r.value != [] ==>
      && r.value[0] == start && r.value[|r.value| - 1] == end
      && start in prev && prev[start] == None && Linked(prev, r.value)
    ensures r.Failure? ==> r.error == MissingKey
  {
    ChainLinks(prev, end, n);
    var path: seq<Vertex> := [];
    var current: Option<Vertex> := Some(end);
    ghost var k := n;
    ExtendNothing(Chain(prev, end, n));
    while current.Some?
      invariant current.Some? ==> Ends(prev, current.value, k)
      invariant current.Some? ==> Chain(prev, end, n) == Extend(Chain(prev, current.value, k), path)
      invariant current.None? ==> Chain(prev, end, n) == Success(path) && path != []
      decreases k
    {
      var v := current.value;
      ghost var before := path;
      path := [v] + path;
      if v !in prev {
        return Failure(MissingKey);
      }
      current := prev[v];
      if current.Some? {
        assert Chain(prev, v, k) == Extend(Chain(prev, current.value, k - 1), [v]);
        ExtendTwice(Chain(prev, current.value, k - 1), [v], before);
      }
      k := k - 1;
    }
    if path[0] == start {
      r := Success(path);
    } else {
      r := Success([]);
    }
  }
}
