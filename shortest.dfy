/** The priority-queue searches of `Djkstra.py`, `UCS.py` and `UCS2.py`.

    The three functions share one loop: pop a smallest entry of the heap,
    count the pop, possibly skip or stop, then relax every neighbour of the
    popped vertex, recording an improvement's predecessor and pushing it.
    They differ in four places, which `Variant` names: whether a stale
    entry is skipped, whether a goal stops the loop, whether the seed push
    is counted, and whether the neighbours come from the adjacency list
    (through `get_weight`) or from the weight row. */
module ShortestPath {
  import opened Common
  import opened GraphModel
  import opened PathCost
  import Domain

  /** A heap entry: a tentative distance and a vertex. */
  type Entry = (int, Vertex)

  /** The state the relaxations change: distances, predecessors, what is
      left of the heap, and the push counter. */
  datatype State = State(
    dist: map<Vertex, Dist>,
    prev: map<Vertex, Option<Vertex>>,
    queue: multiset<Entry>,
    pushes: nat)

  /** How one of the three functions runs the shared loop. */
  datatype Variant = Variant(
    skipStale: bool,       // `if current_distance > distances[current_vertex]: continue`
    goal: Option<Vertex>,  // `if goal is not None and current_node == goal: break`
    seedCounted: bool,     // `heap_pushes = 1` counts the seed push
    fromRows: bool)        // neighbours are the keys of `graph_weight_repo[current]`

  /** `dijkstra` (and `uniform_cost_search` of `UCS2.py`, which ignores its goal). */
  const DijkstraWay := Variant(true, None, false, false)

  /** `uniform_cost_search` of `UCS.py`. */
  function UcsWay(goal: Option<Vertex>): Variant {
    Variant(false, goal, true, true)
  }

  /** Every vertex at `inf` with no predecessor, then the start at 0; the
      heap holds the seed entry `(0, start)`. */
  function Init(adj: Adjacency, start: Vertex, seedCounted: bool): State {
    State((map v | v in adj :: Inf)[start := Fin(0)],
          map v | v in adj :: None,
          multiset{(0, start)},
          if seedCounted then 1 else 0)
  }

  /** The entry `e` has the smallest distance in `q`; which of several
      smallest entries `heappop` returns is not modelled. */
  predicate IsMin(e: Entry, q: multiset<Entry>) {
    e in q && forall f :: f in q ==> e.0 <= f.0
  }

  lemma {:induction false} MinEntry(q: multiset<Entry>) returns (e: Entry)
    requires q != multiset{}
    ensures IsMin(e, q)
    decreases |q|
  {
    var x :| x in q;
    var rest := q - multiset{x};
    if rest == multiset{} {
      e := x;
      assert forall f :: f in q ==> f == x || f in rest;
    } else {
      var m := MinEntry(rest);
      e := if m.0 <= x.0 then m else x;
      assert forall f :: f in q ==> f == x || f in rest;
    }
  }

  /** `heapq.heappop`: some entry with the smallest distance. */
  method PopMin(q: multiset<Entry>) returns (e: Entry)
    requires q != multiset{}
    ensures IsMin(e, q)
  {
    ghost var least := MinEntry(q);
    e :| IsMin(e, q);
  }

  // ----------------------------------------------------------------------
  // The termination measure: vertices still at `inf`, then the sum of the
  // finite distances. Every improvement lowers it.

  function DistOf(dist: map<Vertex, Dist>, v: Vertex): Dist {
    if v in dist then dist[v] else Inf
  }

  function Infs(dist: map<Vertex, Dist>, vs: seq<Vertex>): nat {
    if vs == [] then 0
    else (if DistOf(dist, vs[0]).Inf? then 1 else 0) + Infs(dist, vs[1..])
  }

  function FinSum(dist: map<Vertex, Dist>, vs: seq<Vertex>): nat {
    if vs == [] then 0
    else
      var x := DistOf(dist, vs[0]);
      (if x.Fin? && x.n > 0 then x.n else 0) + FinSum(dist, vs[1..])
  }

  ghost predicate Below(d1: map<Vertex, Dist>, d0: map<Vertex, Dist>, vs: seq<Vertex>) {
    Infs(d1, vs) < Infs(d0, vs) || (Infs(d1, vs) == Infs(d0, vs) && FinSum(d1, vs) < FinSum(d0, vs))
  }

  lemma {:induction false} Untouched(dist: map<Vertex, Dist>, vs: seq<Vertex>, v: Vertex, x: Dist)
    requires v !in vs
    ensures Infs(dist[v := x], vs) == Infs(dist, vs) && FinSum(dist[v := x], vs) == FinSum(dist, vs)
  {
    if vs != [] {
      Untouched(dist, vs[1..], v, x);
    }
  }

  /** Lowering one distance of a listed vertex lowers the measure. */
  lemma {:induction false} LowerOne(dist: map<Vertex, Dist>, vs: seq<Vertex>, v: Vertex, nd: int)
    requires NoDup(vs) && v in vs && 0 <= nd && Less(Fin(nd), DistOf(dist, v))
    ensures DistOf(dist, v).Inf? ==> Infs(dist[v := Fin(nd)], vs) + 1 == Infs(dist, vs)
    ensures DistOf(dist, v).Fin? ==>
      Infs(dist[v := Fin(nd)], vs) == Infs(dist, vs) &&
      FinSum(dist[v := Fin(nd)], vs) + DistOf(dist, v).n - nd == FinSum(dist, vs)
    ensures Below(dist[v := Fin(nd)], dist, vs)
  {
    assert vs == [vs[0]] + vs[1..];
    if vs[0] == v {
      assert v !in vs[1..] by {
        forall i | 0 <= i < |vs[1..]| ensures vs[1..][i] != v {
          assert vs[1..][i] == vs[i + 1];
        }
      }
      Untouched(dist, vs[1..], v, Fin(nd));
    } else {
      assert NoDup(vs[1..]) by {
        forall i, j | 0 <= i < j < |vs[1..]| ensures vs[1..][i] != vs[1..][j] {
          assert vs[1..][i] == vs[i + 1] && vs[1..][j] == vs[j + 1];
        }
      }
      LowerOne(dist, vs[1..], v, nd);
    }
  }

  // ----------------------------------------------------------------------
  // The loop invariant, piece by piece

  /** Ghost bookkeeping for the acyclicity of `prev`: when each vertex got
      its current predecessor, on a clock that only runs forward. */
  datatype Ranks = Ranks(stamp: map<Vertex, nat>, clock: nat)

  /** Keys, the start, non-negative distances and stamps below the clock. */
  ghost predicate Shape(adj: Adjacency, start: Vertex, s: State, rk: Ranks) {
    && s.dist.Keys == adj.Keys && s.prev.Keys == adj.Keys && rk.stamp.Keys == adj.Keys
    && start in adj && s.dist[start] == Fin(0) && s.prev[start] == None
    && (forall v :: v in s.dist && s.dist[v].Fin? ==> s.dist[v].n >= 0)
    && (forall v :: v in rk.stamp ==> rk.stamp[v] < rk.clock)
  }

  /** Every heap entry names a vertex whose best distance is at most the
      entry's distance. */
  ghost predicate Queued(dist: map<Vertex, Dist>, q: multiset<Entry>) {
    forall e :: e in q ==> e.1 in dist && AtMost(dist[e.1], Fin(e.0))
  }

  /** The predecessor `u` of `v`: an arc `u -> v` whose weight added to
      `u`'s distance stays within `v`'s, and a smaller rank than `v`. */
  ghost predicate PrevArc(adj: Adjacency, wt: WeightTable, s: State, rk: Ranks, v: Vertex)
    requires s.dist.Keys == adj.Keys && s.prev.Keys == adj.Keys && rk.stamp.Keys == adj.Keys
    requires v in adj && s.prev[v].Some?
  {
    var u := s.prev[v].value;
    && u in adj && v in adj[u] && s.dist[u].Fin? && s.dist[v].Fin?
    && s.dist[u].n + EdgeW(wt, u, v) <= s.dist[v].n
    && (s.dist[u].n < s.dist[v].n || rk.stamp[u] < rk.stamp[v])
  }

  /** The predecessor map: every recorded predecessor is a `PrevArc`, and
      every vertex other than the start with a finite distance has one. */
  ghost predicate Tree(adj: Adjacency, wt: WeightTable, start: Vertex, s: State, rk: Ranks)
    requires s.dist.Keys == adj.Keys && s.prev.Keys == adj.Keys && rk.stamp.Keys == adj.Keys
  {
    forall v {:trigger s.prev[v]} :: v in adj ==>
      && (s.prev[v].Some? ==> PrevArc(adj, wt, s, rk, v))
      && (v != start && s.dist[v].Fin? ==> s.prev[v].Some?)
  }

  /** A vertex with a finite distance is still waiting in the heap with that
      distance, or all its arcs have been relaxed. */
  ghost predicate Pending(adj: Adjacency, wt: WeightTable, dist: map<Vertex, Dist>, q: multiset<Entry>, x: Vertex)
    requires x in adj && x in dist
  {
    dist[x].Fin? ==> (dist[x].n, x) in q || Relaxed(adj, wt, dist, x)
  }

  ghost predicate AllPending(adj: Adjacency, wt: WeightTable, dist: map<Vertex, Dist>, q: multiset<Entry>)
    requires adj.Keys <= dist.Keys
  {
    forall x :: x in adj ==> Pending(adj, wt, dist, q, x)
  }

  /** The invariant of the outer loop. */
  ghost predicate Inv(adj: Adjacency, wt: WeightTable, start: Vertex, s: State, rk: Ranks) {
    && Shape(adj, start, s, rk) && Queued(s.dist, s.queue) && Tree(adj, wt, start, s, rk)
    && AllPending(adj, wt, s.dist, s.queue)
  }

  /** The invariant of the inner loop, expanding `u` popped at distance `d`
      after the neighbours `done`: all but `u` pending, and `u` pending too
      unless the popped entry was its own. */
  ghost predicate Expanding(adj: Adjacency, wt: WeightTable, start: Vertex, s: State, rk: Ranks,
                            u: Vertex, d: int, done: seq<Vertex>)
  {
    && Shape(adj, start, s, rk) && Queued(s.dist, s.queue) && Tree(adj, wt, start, s, rk)
    && u in adj && s.dist[u].Fin? && s.dist[u].n <= d
    && (forall x :: x in adj && x != u ==> Pending(adj, wt, s.dist, s.queue, x))
    && (Pending(adj, wt, s.dist, s.queue, u) || d == s.dist[u].n)
    && (forall v :: v in done ==> v in s.dist && AtMost(s.dist[v], Fin(d + EdgeW(wt, u, v))))
  }

  // ----------------------------------------------------------------------
  // Steps

  /** Popping one entry: the outer invariant becomes the inner one. */
  lemma PopKeeps(adj: Adjacency, wt: WeightTable, start: Vertex, s: State, rk: Ranks, e: Entry)
    requires Inv(adj, wt, start, s, rk) && e in s.queue
    ensures Expanding(adj, wt, start, s.(queue := s.queue - multiset{e}), rk, e.1, e.0, [])
    ensures e.0 != s.dist[e.1].n ==> Inv(adj, wt, start, s.(queue := s.queue - multiset{e}), rk)
  {
    var q := s.queue - multiset{e};
    forall x | x in adj
      ensures Pending(adj, wt, s.dist, q, x) || (x == e.1 && e.0 == s.dist[x].n)
    {
      assert Pending(adj, wt, s.dist, s.queue, x);
      if s.dist[x].Fin? && (s.dist[x].n, x) in s.queue && (s.dist[x].n, x) != e {
        assert (s.dist[x].n, x) in q;
      }
    }
  }

  /** A strict improvement of `v` through `u`: new distance, predecessor,
      stamp and one pushed entry. */
  function Improve(s: State, u: Vertex, v: Vertex, nd: int): State {
    s.(dist := s.dist[v := Fin(nd)], prev := s.prev[v := Some(u)],
       queue := s.queue + multiset{(nd, v)}, pushes := s.pushes + 1)
  }

  function Restamp(rk: Ranks, v: Vertex): Ranks {
    Ranks(rk.stamp[v := rk.clock], rk.clock + 1)
  }

  /** The facts about the vertex being expanded that a relaxation uses. */
  ghost predicate Expander(adj: Adjacency, wt: WeightTable, s: State, u: Vertex, d: int) {
    NonNegative(wt) && u in adj && u in s.dist && s.dist[u].Fin? && s.dist[u].n <= d
  }

  lemma ImproveShape(adj: Adjacency, wt: WeightTable, start: Vertex, s: State, rk: Ranks,
                     u: Vertex, d: int, v: Vertex, nd: int)
    requires Shape(adj, start, s, rk) && Expander(adj, wt, s, u, d)
    requires v in adj && nd == d + EdgeW(wt, u, v) && Less(Fin(nd), s.dist[v])
    ensures v != start && v != u && nd >= 0
    ensures Shape(adj, start, Improve(s, u, v, nd), Restamp(rk, v))
  {
    assert EdgeW(wt, u, v) >= 0;
    var s' := Improve(s, u, v, nd);
    assert s'.dist.Keys == s.dist.Keys;
    assert s'.prev.Keys == s.prev.Keys;
    assert Restamp(rk, v).stamp.Keys == rk.stamp.Keys;
  }

  lemma ImproveQueued(dist: map<Vertex, Dist>, q: multiset<Entry>, v: Vertex, nd: int)
    requires Queued(dist, q) && v in dist && Less(Fin(nd), dist[v])
    ensures Queued(dist[v := Fin(nd)], q + multiset{(nd, v)})
  {
  }

  lemma ImproveTree(adj: Adjacency, wt: WeightTable, start: Vertex, s: State, rk: Ranks,
                    u: Vertex, d: int, v: Vertex, nd: int, s': State, rk': Ranks)
    requires Shape(adj, start, s, rk) && Tree(adj, wt, start, s, rk) && Expander(adj, wt, s, u, d)
    requires v in adj && v in adj[u] && nd == d + EdgeW(wt, u, v) && Less(Fin(nd), s.dist[v])
    requires s' == Improve(s, u, v, nd) && rk' == Restamp(rk, v)
    requires Shape(adj, start, s', rk') && v != u
    ensures Tree(adj, wt, start, s', rk')
  {
    assert EdgeW(wt, u, v) >= 0;
    forall x | x in adj
      ensures s'.prev[x].Some? ==> PrevArc(adj, wt, s', rk', x)
      ensures x != start && s'.dist[x].Fin? ==> s'.prev[x].Some?
    {
      if x != v && s'.prev[x].Some? {
        assert PrevArc(adj, wt, s, rk, x);
      }
    }
  }

  lemma ImprovePending(adj: Adjacency, wt: WeightTable, s: State, u: Vertex, d: int, v: Vertex, nd: int, s': State)
    requires adj.Keys == s.dist.Keys && Expander(adj, wt, s, u, d)
    requires v in adj && v != u && nd == d + EdgeW(wt, u, v) && Less(Fin(nd), s.dist[v])
    requires s' == Improve(s, u, v, nd)
    requires forall x :: x in adj && x != u ==> Pending(adj, wt, s.dist, s.queue, x)
    requires Pending(adj, wt, s.dist, s.queue, u) || d == s.dist[u].n
    ensures forall x :: x in adj && x != u ==> Pending(adj, wt, s'.dist, s'.queue, x)
    ensures Pending(adj, wt, s'.dist, s'.queue, u) || d == s'.dist[u].n
  {
    forall x | x in adj
      ensures Pending(adj, wt, s'.dist, s'.queue, x) || (x == u && d == s'.dist[u].n)
    {
      if x == v {
        assert (nd, v) in s'.queue;
      } else if s.dist[x].Fin? && !(x == u && d == s.dist[u].n) {
        assert Pending(adj, wt, s.dist, s.queue, x);
        if (s.dist[x].n, x) !in s.queue {
          RelaxedLower(adj, wt, s.dist, x, v, nd);
        }
      }
    }
  }

  /** Lowering another vertex's distance keeps a vertex relaxed. */
  lemma RelaxedLower(adj: Adjacency, wt: WeightTable, dist: map<Vertex, Dist>, x: Vertex, v: Vertex, nd: int)
    requires x in adj && x in dist && dist[x].Fin? && x != v && v in dist && Less(Fin(nd), dist[v])
    requires Relaxed(adj, wt, dist, x)
    ensures Relaxed(adj, wt, dist[v := Fin(nd)], x)
  {
  }

  /** One relaxation that improves `v` to `nd`. */
  lemma ImproveKeeps(adj: Adjacency, wt: WeightTable, start: Vertex, s: State, rk: Ranks,
                     u: Vertex, d: int, done: seq<Vertex>, v: Vertex, nd: int)
    requires NonNegative(wt) && Expanding(adj, wt, start, s, rk, u, d, done)
    requires v in adj && v in adj[u] && nd == d + EdgeW(wt, u, v) && Less(Fin(nd), s.dist[v])
    ensures v != start && v != u && nd >= 0
    ensures Expanding(adj, wt, start, Next(s, u, v, nd), Restamp(rk, v), u, d, done + [v])
  {
    ImproveShape(adj, wt, start, s, rk, u, d, v, nd);
    NextIs(s, u, v, nd, true);
    var s' := Next(s, u, v, nd);
    ImproveRest(adj, wt, start, s, rk, u, d, done, v, nd, s', Restamp(rk, v));
    ExpandingIntro(adj, wt, start, s', Restamp(rk, v), u, d, done + [v]);
  }

  lemma ImproveRest(adj: Adjacency, wt: WeightTable, start: Vertex, s: State, rk: Ranks,
                    u: Vertex, d: int, done: seq<Vertex>, v: Vertex, nd: int, s': State, rk': Ranks)
    requires Shape(adj, start, s, rk) && Queued(s.dist, s.queue) && Tree(adj, wt, start, s, rk)
    requires Expander(adj, wt, s, u, d)
    requires forall x :: x in adj && x != u ==> Pending(adj, wt, s.dist, s.queue, x)
    requires Pending(adj, wt, s.dist, s.queue, u) || d == s.dist[u].n
    requires forall x :: x in done ==> x in s.dist && AtMost(s.dist[x], Fin(d + EdgeW(wt, u, x)))
    requires v in adj && v in adj[u] && nd == d + EdgeW(wt, u, v) && Less(Fin(nd), s.dist[v]) && v != u
    requires s' == Improve(s, u, v, nd) && rk' == Restamp(rk, v)
    requires Shape(adj, start, s', rk')
    ensures Queued(s'.dist, s'.queue) && Tree(adj, wt, start, s', rk')
    ensures forall x :: x in adj && x != u ==> Pending(adj, wt, s'.dist, s'.queue, x)
    ensures Pending(adj, wt, s'.dist, s'.queue, u) || d == s'.dist[u].n
    ensures forall x :: x in done + [v] ==> x in s'.dist && AtMost(s'.dist[x], Fin(d + EdgeW(wt, u, x)))
  {
    ImproveQueued(s.dist, s.queue, v, nd);
    ImproveTree(adj, wt, start, s, rk, u, d, v, nd, s', rk');
    ImprovePending(adj, wt, s, u, d, v, nd, s');
    ImproveDone(wt, s.dist, u, d, done, v, nd);
  }

  lemma ImproveDone(wt: WeightTable, dist: map<Vertex, Dist>, u: Vertex, d: int, done: seq<Vertex>, v: Vertex, nd: int)
    requires forall x :: x in done ==> x in dist && AtMost(dist[x], Fin(d + EdgeW(wt, u, x)))
    requires v in dist && Less(Fin(nd), dist[v]) && nd == d + EdgeW(wt, u, v)
    ensures forall x :: x in done + [v] ==> x in dist[v := Fin(nd)] && AtMost(dist[v := Fin(nd)][x], Fin(d + EdgeW(wt, u, x)))
  {
    forall x | x in done + [v]
      ensures x in dist[v := Fin(nd)] && AtMost(dist[v := Fin(nd)][x], Fin(d + EdgeW(wt, u, x)))
    {
      if x != v {
        assert x in done;
      }
    }
  }

  lemma ExpandingIntro(adj: Adjacency, wt: WeightTable, start: Vertex, s: State, rk: Ranks,
                       u: Vertex, d: int, done: seq<Vertex>)
    requires Shape(adj, start, s, rk) && Queued(s.dist, s.queue) && Tree(adj, wt, start, s, rk)
    requires u in adj && s.dist[u].Fin? && s.dist[u].n <= d
    requires forall x :: x in adj && x != u ==> Pending(adj, wt, s.dist, s.queue, x)
    requires Pending(adj, wt, s.dist, s.queue, u) || d == s.dist[u].n
    requires forall v :: v in done ==> v in s.dist && AtMost(s.dist[v], Fin(d + EdgeW(wt, u, v)))
    ensures Expanding(adj, wt, start, s, rk, u, d, done)
  {
  }

  /** One relaxation that changes nothing. */
  lemma KeepKeeps(adj: Adjacency, wt: WeightTable, start: Vertex, s: State, rk: Ranks,
                  u: Vertex, d: int, done: seq<Vertex>, v: Vertex)
    requires Expanding(adj, wt, start, s, rk, u, d, done)
    requires v in adj && !Less(Fin(d + EdgeW(wt, u, v)), s.dist[v])
    ensures Expanding(adj, wt, start, Next(s, u, v, d + EdgeW(wt, u, v)), rk, u, d, done + [v])
  {
    LessIff(Fin(d + EdgeW(wt, u, v)), s.dist[v]);
    NextIs(s, u, v, d + EdgeW(wt, u, v), false);
  }

  /** Once every neighbour of `u` other than `u` itself is done, the outer
      invariant holds again. */
  lemma ExpandDone(adj: Adjacency, wt: WeightTable, start: Vertex, s: State, rk: Ranks,
                   u: Vertex, d: int, done: seq<Vertex>)
    requires NonNegative(wt) && Expanding(adj, wt, start, s, rk, u, d, done)
    requires forall v :: v in adj[u] && v != u ==> v in done
    requires Closed(adj)
    ensures Inv(adj, wt, start, s, rk)
  {
    if d == s.dist[u].n {
      forall v | v in adj[u]
        ensures v in s.dist && AtMost(s.dist[v], Fin(s.dist[u].n + EdgeW(wt, u, v)))
      {
        if v == u {
          assert EdgeW(wt, u, u) >= 0;
        }
      }
      assert Relaxed(adj, wt, s.dist, u);
    }
    assert AllPending(adj, wt, s.dist, s.queue);
  }

  // ----------------------------------------------------------------------
  // What the invariant gives

  /** Along any walk from a vertex with a finite distance: either the walk's
      end is within the walk's cost, or some heap entry is. */
  lemma {:induction false} PrefixBound(adj: Adjacency, wt: WeightTable, start: Vertex, s: State, rk: Ranks, p: seq<Vertex>)
    requires NonNegative(wt) && Inv(adj, wt, start, s, rk)
    requires IsWalk(adj, p) && s.dist[p[0]].Fin?
    ensures || (p[|p| - 1] in s.dist && s.dist[p[|p| - 1]].Fin? && s.dist[p[|p| - 1]].n <= s.dist[p[0]].n + Cost(wt, p))
            || (exists e :: e in s.queue && e.0 <= s.dist[p[0]].n + Cost(wt, p))
    decreases |p|
  {
    CostNonNegative(wt, p);
    if |p| > 1 {
      var x := p[0];
      assert Pending(adj, wt, s.dist, s.queue, x);
      if (s.dist[x].n, x) !in s.queue {
        assert Relaxed(adj, wt, s.dist, x);
        assert AtMost(s.dist[p[1]], Fin(s.dist[x].n + EdgeW(wt, x, p[1])));
        PrefixBound(adj, wt, start, s, rk, p[1..]);
        assert p[1..][|p[1..]| - 1] == p[|p| - 1];
      }
    }
  }

  /** `v`'s distance is at most the cost of every walk to it from the start. */
  ghost predicate Optimal(adj: Adjacency, wt: WeightTable, start: Vertex, dist: map<Vertex, Dist>, v: Vertex) {
    forall p :: WalkBetween(adj, p, start, v) ==> v in dist && dist[v].Fin? && dist[v].n <= Cost(wt, p)
  }

  /** When the heap is empty every distance is optimal. */
  lemma Exhausted(adj: Adjacency, wt: WeightTable, start: Vertex, s: State, rk: Ranks, v: Vertex)
    requires NonNegative(wt) && Inv(adj, wt, start, s, rk) && s.queue == multiset{}
    ensures Optimal(adj, wt, start, s.dist, v)
  {
    forall p | WalkBetween(adj, p, start, v)
      ensures v in s.dist && s.dist[v].Fin? && s.dist[v].n <= Cost(wt, p)
    {
      PrefixBound(adj, wt, start, s, rk, p);
    }
  }

  /** When a smallest entry is popped, its vertex's distance is optimal. */
  lemma PoppedOptimal(adj: Adjacency, wt: WeightTable, start: Vertex, s: State, rk: Ranks, e: Entry)
    requires NonNegative(wt) && Inv(adj, wt, start, s, rk) && IsMin(e, s.queue)
    ensures Optimal(adj, wt, start, s.dist, e.1)
  {
    forall p | WalkBetween(adj, p, start, e.1)
      ensures e.1 in s.dist && s.dist[e.1].Fin? && s.dist[e.1].n <= Cost(wt, p)
    {
      PrefixBound(adj, wt, start, s, rk, p);
    }
  }

  /** The predecessor chain from `v` is a walk from the start whose cost is
      within `v`'s distance. */
  ghost predicate TracedBy(adj: Adjacency, wt: WeightTable, start: Vertex,
                           dist: map<Vertex, Dist>, prev: map<Vertex, Option<Vertex>>, v: Vertex, n: nat)
    requires Ends(prev, v, n)
  {
    var c := Chain(prev, v, n);
    c.Success? && WalkBetween(adj, c.value, start, v) && v in dist && dist[v].Fin?
    && Cost(wt, c.value) <= dist[v].n
  }

  ghost predicate Traced(adj: Adjacency, wt: WeightTable, start: Vertex,
                         dist: map<Vertex, Dist>, prev: map<Vertex, Option<Vertex>>, v: Vertex) {
    exists n: nat :: Ends(prev, v, n) && TracedBy(adj, wt, start, dist, prev, v, n)
  }

  /** Every finite distance is traced back to the start through recorded
      predecessors, which therefore form no cycle. */
  lemma {:induction false} TraceBack(adj: Adjacency, wt: WeightTable, start: Vertex, s: State, rk: Ranks, v: Vertex)
    returns (n: nat)
    requires NonNegative(wt) && Shape(adj, start, s, rk) && Tree(adj, wt, start, s, rk)
    requires v in adj && s.dist[v].Fin?
    ensures Ends(s.prev, v, n) && TracedBy(adj, wt, start, s.dist, s.prev, v, n)
    decreases s.dist[v].n, rk.stamp[v]
  {
    if s.prev[v].None? {
      n := 1;
      assert v == start;
      assert WalkBetween(adj, [v], start, v);
    } else {
      var u := s.prev[v].value;
      assert PrevArc(adj, wt, s, rk, v);
      assert EdgeW(wt, u, v) >= 0;
      var m := TraceBack(adj, wt, start, s, rk, u);
      n := m + 1;
      var c := Chain(s.prev, u, m).value;
      assert Chain(s.prev, v, n) == Success(c + [v]);
      WalkExtend(adj, c, start, u, v);
      CostAppend(wt, c, v);
    }
  }

  // ----------------------------------------------------------------------
  // Initial state and final properties

  lemma InitInv(adj: Adjacency, wt: WeightTable, start: Vertex, seedCounted: bool)
    requires start in adj
    ensures Inv(adj, wt, start, Init(adj, start, seedCounted), Ranks(map v | v in adj :: 0, 1))
  {
    var s := Init(adj, start, seedCounted);
    var rk := Ranks(map v | v in adj :: 0, 1);
    assert s.dist.Keys == adj.Keys;
    forall x | x in adj ensures Pending(adj, wt, s.dist, s.queue, x) {
      if x != start {
        assert s.dist[x] == Inf;
      }
    }
  }

  /** What the returned dictionaries record about every vertex: a finite
      distance is traced back to the start through the predecessors, an
      infinite one has no predecessor. */
  ghost predicate Traces(adj: Adjacency, wt: WeightTable, start: Vertex,
                         dist: map<Vertex, Dist>, prev: map<Vertex, Option<Vertex>>) {
    && dist.Keys == adj.Keys && prev.Keys == adj.Keys
    && forall v :: v in adj ==>
         if dist[v].Fin? then Traced(adj, wt, start, dist, prev, v) else prev[v] == None
  }

  /** The invariant gives `Traces` at every step. */
  lemma AllTraced(adj: Adjacency, wt: WeightTable, start: Vertex, s: State, rk: Ranks)
    requires NonNegative(wt) && Shape(adj, start, s, rk) && Tree(adj, wt, start, s, rk)
    ensures Traces(adj, wt, start, s.dist, s.prev)
  {
    forall v | v in adj
      ensures if s.dist[v].Fin? then Traced(adj, wt, start, s.dist, s.prev, v) else s.prev[v] == None
    {
      if s.dist[v].Fin? {
        var n := TraceBack(adj, wt, start, s, rk, v);
      }
    }
  }

  /** When the heap is empty every distance is optimal. */
  lemma AllOptimal(adj: Adjacency, wt: WeightTable, start: Vertex, s: State, rk: Ranks)
    requires NonNegative(wt) && Inv(adj, wt, start, s, rk) && s.queue == multiset{}
    ensures forall v :: Optimal(adj, wt, start, s.dist, v)
  {
    forall v ensures Optimal(adj, wt, start, s.dist, v) {
      Exhausted(adj, wt, start, s, rk, v);
    }
  }

  /** Every self-loop has a stored weight, so `get_weight` never fails on a
      neighbour of a valid weighted graph. */
  ghost predicate SelfLoopsWeighted(adj: Adjacency, wt: WeightTable) {
    forall u :: u in adj && u in adj[u] ==> u in wt && u in wt[u]
  }

  /** The number of neighbours examined when expanding the vertices `xs`:
      adjacency lists, or weight rows in `UCS.py`. */
  function Examined(adj: Adjacency, wt: WeightTable, fromRows: bool, xs: seq<Vertex>): nat {
    if xs == [] then 0
    else
      var x := xs[|xs| - 1];
      Examined(adj, wt, fromRows, xs[..|xs| - 1])
      + if fromRows then (if x in wt then |wt[x]| else 0) else (if x in adj then |adj[x]| else 0)
  }

  // ----------------------------------------------------------------------
  // The loops

  /** The keys of a weight row, in an unspecified order (`.items()`
      follows insertion order, which the model does not keep). */
  method RowKeys(row: map<Vertex, int>) returns (ks: seq<Vertex>)
    ensures NoDup(ks) && Elems(ks) == row.Keys && |ks| == |row|
  {
    ks := [];
    var rest := row.Keys;
    while rest != {}
      invariant NoDup(ks) && Elems(ks) + rest == row.Keys && Elems(ks) !! rest
      decreases |rest|
    {
      var k :| k in rest;
      ks := ks + [k];
      rest := rest - {k};
    }
    CardElems(ks);
  }

  /** `v` is one of the neighbours the loop visits: a key of the weight row
      of `u`, or an entry of its adjacency list that `is_edge` accepts. */
  ghost predicate Neighbour(adj: Adjacency, wt: WeightTable, directed: bool, fromRows: bool, u: Vertex, v: Vertex)
    requires u in adj && u in wt
  {
    && v in adj
    && if fromRows then v in wt[u] else v in adj[u] && Domain.EdgeIn(adj, directed, u, v)
  }

  /** The distance to the neighbour `v` through `u`, popped at distance
      `d`: `d` plus `get_weight(u, v)` in `Djkstra.py` and `UCS2.py`, plus
      the value of the weight row in `UCS.py`. Only `get_weight` can fail,
      on an arc whose weight is not stored. */
  function Tentative(adj: Adjacency, wt: WeightTable, directed: bool, fromRows: bool,
                     u: Vertex, d: int, v: Vertex): (r: Result<int>)
    requires u in adj && u in wt && Neighbour(adj, wt, directed, fromRows, u, v)
    ensures r.Success? ==> r.value == d + EdgeW(wt, u, v)
    ensures r.Failure? <==> !fromRows && v !in wt[u]
    ensures r.Failure? ==> r.error == MissingKey
  {
    if fromRows then Success(d + wt[u][v])
    else
      match Domain.WeightIn(adj, wt, directed, true, u, v)
      case Failure(e) => Failure(e)
      case Success(w) => Success(d + w)
  }

  /** The update after the weight is known: `v` improves to `nd` through `u`
      only when `nd` is strictly below its best distance. */
  function Next(cur: State, u: Vertex, v: Vertex, nd: int): State {
    if Less(Fin(nd), DistOf(cur.dist, v)) then Improve(cur, u, v, nd) else cur
  }

  lemma NextIs(cur: State, u: Vertex, v: Vertex, nd: int, improves: bool)
    requires improves <==> Less(Fin(nd), DistOf(cur.dist, v))
    ensures improves ==> Next(cur, u, v, nd) == Improve(cur, u, v, nd)
    ensures !improves ==> Next(cur, u, v, nd) == cur
  {
  }

  /** One pass of the body of the `for neighbor in ...` loop: the weight of
      the step, then an update only on `distance < distances[neighbor]`. */
  function Relax(adj: Adjacency, wt: WeightTable, directed: bool, fromRows: bool,
                 u: Vertex, d: int, v: Vertex, cur: State): Result<State>
    requires u in adj && u in wt && Neighbour(adj, wt, directed, fromRows, u, v)
  {
    match Tentative(adj, wt, directed, fromRows, u, d, v)
    case Failure(e) => Failure(e)
    case Success(nd) => Success(Next(cur, u, v, nd))
  }

  /** The rest of the `for neighbor in ...` loop from the state `cur`: the
      neighbours `ns` relaxed in turn, stopping at the first failing
      `get_weight`. */
  function RelaxAll(adj: Adjacency, wt: WeightTable, directed: bool, fromRows: bool,
                    u: Vertex, d: int, ns: seq<Vertex>, cur: State): Result<State>
    requires u in adj && u in wt && forall v :: v in ns ==> Neighbour(adj, wt, directed, fromRows, u, v)
    decreases |ns|
  {
    if ns == [] then Success(cur)
    else
      match Relax(adj, wt, directed, fromRows, u, d, ns[0], cur)
      case Failure(e) => Failure(e)
      case Success(next) => RelaxAll(adj, wt, directed, fromRows, u, d, ns[1..], next)
  }

  /** The loop fails only in `get_weight` on a self-loop of `u` without a
      stored weight, with a `KeyError`. */
  lemma {:induction false} RelaxAllFailure(adj: Adjacency, wt: WeightTable, directed: bool, fromRows: bool,
                                           u: Vertex, d: int, ns: seq<Vertex>, cur: State)
    requires WeightsCover(adj, wt)
    requires u in adj && u in wt && forall v :: v in ns ==> Neighbour(adj, wt, directed, fromRows, u, v)
    ensures var r := RelaxAll(adj, wt, directed, fromRows, u, d, ns, cur);
      r.Failure? <==> !fromRows && u in ns && u !in wt[u]
    ensures var r := RelaxAll(adj, wt, directed, fromRows, u, d, ns, cur);
      r.Failure? ==> r.error == MissingKey
    decreases |ns|
  {
    if ns != [] {
      assert forall v :: v in ns[1..] ==> v in ns;
      assert ns == [ns[0]] + ns[1..];
      var r := Relax(adj, wt, directed, fromRows, u, d, ns[0], cur);
      if r.Success? {
        RelaxAllFailure(adj, wt, directed, fromRows, u, d, ns[1..], r.value);
      }
    }
  }

  /** In a consistent graph the only arc without a stored weight is a
      self-loop, and an improvement through a self-loop is impossible; any
      other improvement is along an arc of `u`. */
  lemma ImprovedArc(adj: Adjacency, wt: WeightTable, directed: bool, fromRows: bool,
                    u: Vertex, d: int, v: Vertex, dist: map<Vertex, Dist>)
    requires NonNegative(wt) && WeightsCover(adj, wt) && dist.Keys == adj.Keys
    requires u in adj && u in wt && dist[u].Fin? && dist[u].n <= d && Neighbour(adj, wt, directed, fromRows, u, v)
    ensures !fromRows && v !in wt[u] ==> v == u
    ensures Less(Fin(d + EdgeW(wt, u, v)), dist[v]) ==> v in adj[u] && v != u
  {
  }

  lemma AppendFirst(done: seq<Vertex>, ns: seq<Vertex>)
    requires ns != []
    ensures done + ns == (done + [ns[0]]) + ns[1..]
  {
    assert ns == [ns[0]] + ns[1..];
  }

  /** One neighbour relaxed to the distance `nd` keeps the invariant of the
      expansion, with the ranks `rk'`. */
  lemma ExpandStep(adj: Adjacency, wt: WeightTable, directed: bool, fromRows: bool, start: Vertex,
                   cur: State, rk: Ranks, u: Vertex, d: int, done: seq<Vertex>, v: Vertex, nd: int)
    returns (rk': Ranks)
    requires NonNegative(wt) && WeightsCover(adj, wt) && Expanding(adj, wt, start, cur, rk, u, d, done)
    requires u in wt && Neighbour(adj, wt, directed, fromRows, u, v) && nd == d + EdgeW(wt, u, v)
    ensures Expanding(adj, wt, start, Next(cur, u, v, nd), rk', u, d, done + [v])
  {
    ImprovedArc(adj, wt, directed, fromRows, u, d, v, cur.dist);
    if Less(Fin(nd), cur.dist[v]) {
      ImproveKeeps(adj, wt, start, cur, rk, u, d, done, v, nd);
      rk' := Restamp(rk, v);
    } else {
      KeepKeeps(adj, wt, start, cur, rk, u, d, done, v);
      rk' := rk;
    }
  }

  /** The invariant of the expansion holds at the end of the `for neighbor
      in ...` loop when it does not fail, with the ranks of the improvements
      made: `done` are the neighbours relaxed before `cur`, `ns` those
      after it. */
  lemma {:induction false} ExpandAll(adj: Adjacency, wt: WeightTable, directed: bool, fromRows: bool,
                                     start: Vertex, cur: State, rk: Ranks,
                                     u: Vertex, d: int, done: seq<Vertex>, ns: seq<Vertex>)
    returns (rk': Ranks)
    requires NonNegative(wt) && WeightsCover(adj, wt) && Expanding(adj, wt, start, cur, rk, u, d, done)
    requires u in wt && forall v :: v in ns ==> Neighbour(adj, wt, directed, fromRows, u, v)
    ensures var r := RelaxAll(adj, wt, directed, fromRows, u, d, ns, cur);
      r.Success? ==> Expanding(adj, wt, start, r.value, rk', u, d, done + ns)
    decreases |ns|
  {
    if ns == [] {
      assert done + ns == done;
      rk' := rk;
    } else {
      var v := ns[0];
      assert forall x :: x in ns[1..] ==> x in ns;
      AppendFirst(done, ns);
      var nd := Tentative(adj, wt, directed, fromRows, u, d, v);
      if nd.Success? {
        var rk1 := ExpandStep(adj, wt, directed, fromRows, start, cur, rk, u, d, done, v, nd.value);
        rk' := ExpandAll(adj, wt, directed, fromRows, start, Next(cur, u, v, nd.value), rk1, u, d, done + [v], ns[1..]);
      } else {
        rk' := rk;
      }
    }
  }

  /** Distances only go down, and a changed distance came with `u` as its
      predecessor and its own heap entry. */
  ghost predicate Lowered(adj: Adjacency, s0: State, s1: State, u: Vertex)
    requires adj.Keys <= s0.dist.Keys && adj.Keys <= s1.dist.Keys && adj.Keys <= s1.prev.Keys
  {
    forall v :: v in adj ==>
      && AtMost(s1.dist[v], s0.dist[v])
      && (s1.dist[v] != s0.dist[v] ==> s1.prev[v] == Some(u) && (s1.dist[v].n, v) in s1.queue)
  }

  /** The relaxation bookkeeping of the inner loop: without a push nothing
      changed; with one the measure went down. */
  ghost predicate Progress(s0: State, s1: State, vs: seq<Vertex>) {
    && |s1.queue| + s0.pushes == |s0.queue| + s1.pushes
    && (s1.pushes == s0.pushes ==> s1.dist == s0.dist && s1.prev == s0.prev && s1.queue == s0.queue)
    && (s1.pushes != s0.pushes ==> Below(s1.dist, s0.dist, vs))
  }

  /** What the `for neighbor in ...` loop started from `s` did so far:
      distances only lowered through `u`, one push per improvement, and a
      lower measure unless nothing changed. */
  ghost predicate Counted(adj: Adjacency, vs: seq<Vertex>, s: State, cur: State, u: Vertex) {
    && s.dist.Keys == adj.Keys && cur.dist.Keys == adj.Keys && cur.prev.Keys == adj.Keys
    && Progress(s, cur, vs) && cur.pushes >= s.pushes && Lowered(adj, s, cur, u)
  }

  lemma CountImprove(adj: Adjacency, vs: seq<Vertex>, s: State, cur: State, u: Vertex, v: Vertex, nd: int)
    requires Counted(adj, vs, s, cur, u) && NoDup(vs) && v in vs && v in adj
    requires 0 <= nd && Less(Fin(nd), cur.dist[v])
    ensures Counted(adj, vs, s, Improve(cur, u, v, nd), u)
  {
    var next := Improve(cur, u, v, nd);
    LowerOne(cur.dist, vs, v, nd);
    assert next.dist.Keys == adj.Keys && next.prev.Keys == adj.Keys;
    forall x | x in adj
      ensures AtMost(next.dist[x], s.dist[x])
      ensures next.dist[x] != s.dist[x] ==> next.prev[x] == Some(u) && (next.dist[x].n, x) in next.queue
    {
      if x != v && next.dist[x] != s.dist[x] {
        assert (cur.dist[x].n, x) in cur.queue;
      }
    }
  }

  /** One neighbour relaxed keeps the bookkeeping. */
  lemma CountStep(adj: Adjacency, vs: seq<Vertex>, s: State, cur: State, u: Vertex, v: Vertex, nd: int)
    requires Counted(adj, vs, s, cur, u) && NoDup(vs) && v in vs && v in adj && 0 <= nd
    ensures Counted(adj, vs, s, Next(cur, u, v, nd), u)
  {
    if Less(Fin(nd), cur.dist[v]) {
      CountImprove(adj, vs, s, cur, u, v, nd);
    }
  }

  /** The bookkeeping holds at the end of the `for neighbor in ...` loop
      when it does not fail. */
  lemma {:induction false} CountAll(adj: Adjacency, wt: WeightTable, directed: bool, fromRows: bool,
                                    vs: seq<Vertex>, s: State, cur: State, u: Vertex, d: int, ns: seq<Vertex>)
    requires NonNegative(wt) && NoDup(vs) && Counted(adj, vs, s, cur, u) && 0 <= d
    requires u in adj && u in wt && forall v :: v in ns ==> v in vs && Neighbour(adj, wt, directed, fromRows, u, v)
    ensures var r := RelaxAll(adj, wt, directed, fromRows, u, d, ns, cur);
      r.Success? ==> Counted(adj, vs, s, r.value, u)
    decreases |ns|
  {
    if ns != [] {
      var v := ns[0];
      assert forall x :: x in ns[1..] ==> x in ns;
      var nd := Tentative(adj, wt, directed, fromRows, u, d, v);
      if nd.Success? {
        CountStep(adj, vs, s, cur, u, v, nd.value);
        CountAll(adj, wt, directed, fromRows, vs, s, Next(cur, u, v, nd.value), u, d, ns[1..]);
      }
    }
  }

  /** The bookkeeping of a whole `for neighbor in ...` loop started from
      the state `s`. */
  lemma CountFrom(adj: Adjacency, wt: WeightTable, directed: bool, fromRows: bool,
                  vs: seq<Vertex>, s: State, u: Vertex, d: int, ns: seq<Vertex>)
    requires NonNegative(wt) && NoDup(vs) && (forall v :: v in adj ==> v in vs) && 0 <= d
    requires s.dist.Keys == adj.Keys && s.prev.Keys == adj.Keys
    requires u in adj && u in wt && forall v :: v in ns ==> Neighbour(adj, wt, directed, fromRows, u, v)
    ensures var r := RelaxAll(adj, wt, directed, fromRows, u, d, ns, s);
      r.Success? ==> Counted(adj, vs, s, r.value, u)
  {
    assert Counted(adj, vs, s, s, u);
    CountAll(adj, wt, directed, fromRows, vs, s, s, u, d, ns);
  }

  /** The `for neighbor in ...` loop: relax every neighbour of `u`, popped
      at distance `d`. An improvement lowers the distance, records `u` as
      predecessor and pushes one entry; a failing `get_weight` stops the
      search. */
  method Explore(adj: Adjacency, wt: WeightTable, directed: bool, fromRows: bool,
                 u: Vertex, d: int, ns: seq<Vertex>, s: State)
    returns (r: Result<State>)
    requires s.dist.Keys == adj.Keys
    requires u in adj && u in wt && forall v :: v in ns ==> Neighbour(adj, wt, directed, fromRows, u, v)
    ensures r == RelaxAll(adj, wt, directed, fromRows, u, d, ns, s)
  {
    var cur := s;
    for i := 0 to |ns|
      invariant cur.dist.Keys == adj.Keys
      invariant RelaxAll(adj, wt, directed, fromRows, u, d, ns[i..], cur) == RelaxAll(adj, wt, directed, fromRows, u, d, ns, s)
    {
      var v := ns[i];
      assert ns[i..][0] == v && ns[i..][1..] == ns[i + 1..];
      var distance := Tentative(adj, wt, directed, fromRows, u, d, v);
      if distance.Failure? {
        return Failure(distance.error);
      }
      if Less(Fin(distance.value), cur.dist[v]) {
        cur := Improve(cur, u, v, distance.value);
      }
    }
    r := Success(cur);
  }

  lemma ExaminedAppend(adj: Adjacency, wt: WeightTable, fromRows: bool, xs: seq<Vertex>, x: Vertex)
    ensures Examined(adj, wt, fromRows, xs + [x]) == Examined(adj, wt, fromRows, xs)
      + if fromRows then (if x in wt then |wt[x]| else 0) else (if x in adj then |adj[x]| else 0)
  {
    assert (xs + [x])[..|xs|] == xs;
  }

  /** The neighbours the `for` loop visits: `graph.neighbours(u)` in
      `Djkstra.py` and `UCS2.py`, the keys of `graph_weight_repo[u]` in
      `UCS.py`. Both lists hold every other vertex that `u` has an arc to. */
  method NeighbourList(adj: Adjacency, wt: WeightTable, directed: bool, fromRows: bool, u: Vertex)
    returns (ns: seq<Vertex>)
    requires Closed(adj) && (!directed ==> Symmetric(adj)) && WeightsCover(adj, wt) && u in adj
    ensures u in wt && forall v :: v in ns ==> Neighbour(adj, wt, directed, fromRows, u, v)
    ensures forall v :: v in adj[u] && v != u ==> v in ns
    ensures !fromRows ==> ns == adj[u]
    ensures fromRows ==> NoDup(ns) && Elems(ns) == wt[u].Keys
    ensures |ns| == if fromRows then |wt[u]| else |adj[u]|
  {
    if fromRows {
      ns := RowKeys(wt[u]);
    } else {
      ns := adj[u];
    }
  }

  // ----------------------------------------------------------------------
  // The search

  /** What the three functions return, without the timing: distances,
      predecessors, `cost_calls`, `heap_pushes` and `heap_pops`. */
  datatype Report = Report(
    dist: map<Vertex, Dist>,
    prev: map<Vertex, Option<Vertex>>,
    costCalls: nat,
    pushes: nat,
    pops: nat)

  /** A run that ends with the popped seed: it stops when the goal is the
      start, and otherwise fails with `err` on the first lookup of the
      start's neighbours. */
  function SeedStop(adj: Adjacency, start: Vertex, way: Variant, err: Error): Result<Report> {
    var s := Init(adj, start, way.seedCounted);
    if way.goal == Some(start) then Success(Report(s.dist, s.prev, 0, s.pushes, 1)) else Failure(err)
  }

  /** The entries ever pushed, the seed included. */
  function Pushed(rep: Report, way: Variant): nat {
    rep.pushes + if way.seedCounted then 0 else 1
  }

  /** A successful run from a vertex of the graph: the dictionaries trace
      every finite distance; without a goal every distance is the cost of
      a cheapest walk, with one the goal's is; every pop took a pushed
      entry, all of them unless the goal stopped the loop; `cost_calls`
      counts the neighbours of at most `heap_pops` expanded vertices. */
  ghost predicate Found(adj: Adjacency, wt: WeightTable, start: Vertex, way: Variant, rep: Report) {
    && Traces(adj, wt, start, rep.dist, rep.prev)
    && (way.goal.None? ==> forall v :: Optimal(adj, wt, start, rep.dist, v))
    && (way.goal.Some? ==> Optimal(adj, wt, start, rep.dist, way.goal.value))
    && rep.pops <= Pushed(rep, way)
    && (way.goal.None? ==> rep.pops == Pushed(rep, way))
    && exists xs: seq<Vertex> :: |xs| <= rep.pops && rep.costCalls == Examined(adj, wt, way.fromRows, xs)
  }

  /** The outcome of a search from `start`. A start without a neighbour
      list, or in `UCS.py` without a weight row, ends the run at the first
      pop. Otherwise the only failure is `get_weight` on a self-loop whose
      weight is not stored. */
  ghost predicate Answers(adj: Adjacency, wt: WeightTable, start: Vertex, way: Variant, r: Result<Report>) {
    if start !in adj || (way.fromRows && start !in wt) then
      r == SeedStop(adj, start, way, if way.fromRows then MissingKey else UnknownVertex)
    else
      Settled(adj, wt, start, way, r)
  }

  /** The outcome of a search whose seed could be expanded. */
  ghost predicate Settled(adj: Adjacency, wt: WeightTable, start: Vertex, way: Variant, r: Result<Report>) {
    && (r.Failure? ==> r.error == MissingKey && !way.fromRows && !SelfLoopsWeighted(adj, wt))
    && (r.Success? ==> Found(adj, wt, start, way, r.value))
  }

  /** Stopping at the goal: the popped entry is a smallest one, so the
      goal's distance is optimal. */
  lemma GoalFound(adj: Adjacency, wt: WeightTable, start: Vertex, way: Variant, s: State, rk: Ranks, e: Entry,
                  costCalls: nat, pops: nat, expanded: seq<Vertex>)
    requires NonNegative(wt) && Inv(adj, wt, start, s, rk) && IsMin(e, s.queue) && way.goal == Some(e.1)
    requires pops + |s.queue| == s.pushes + (if way.seedCounted then 0 else 1)
    requires |expanded| <= pops && costCalls == Examined(adj, wt, way.fromRows, expanded)
    ensures Found(adj, wt, start, way, Report(s.dist, s.prev, costCalls, s.pushes, pops + 1))
  {
    PoppedOptimal(adj, wt, start, s, rk, e);
    AllTraced(adj, wt, start, s, rk);
  }

  /** The heap ran empty: every distance is optimal and every entry was
      popped. */
  lemma DrainedFound(adj: Adjacency, wt: WeightTable, start: Vertex, way: Variant, s: State, rk: Ranks,
                     costCalls: nat, pops: nat, expanded: seq<Vertex>)
    requires NonNegative(wt) && Inv(adj, wt, start, s, rk) && s.queue == multiset{}
    requires pops + |s.queue| == s.pushes + (if way.seedCounted then 0 else 1)
    requires |expanded| <= pops && costCalls == Examined(adj, wt, way.fromRows, expanded)
    ensures Found(adj, wt, start, way, Report(s.dist, s.prev, costCalls, s.pushes, pops))
  {
    AllOptimal(adj, wt, start, s, rk);
    AllTraced(adj, wt, start, s, rk);
  }

  /** The body of the loop for a popped entry that is neither the goal nor
      skipped: relax every neighbour of `u`, popped at distance `d`.
      `examined` is what the loop adds to `cost_calls`. */
  method ExpandVertex(adj: Adjacency, wt: WeightTable, directed: bool, fromRows: bool, vs: seq<Vertex>,
                      start: Vertex, s: State, ghost rk: Ranks, u: Vertex, d: int)
    returns (r: Result<State>, examined: nat, ghost rk': Ranks)
    requires NoDup(vs) && (forall v :: v in adj ==> v in vs) && Closed(adj) && (!directed ==> Symmetric(adj))
    requires NonNegative(wt) && WeightsCover(adj, wt) && Expanding(adj, wt, start, s, rk, u, d, [])
    ensures examined == if fromRows then |wt[u]| else |adj[u]|
    ensures r.Failure? ==> r.error == MissingKey && !fromRows && !SelfLoopsWeighted(adj, wt)
    ensures r.Success? ==> Inv(adj, wt, start, r.value, rk') && Progress(s, r.value, vs)
  {
    var ns := NeighbourList(adj, wt, directed, fromRows, u);
    examined := |ns|;
    r := Explore(adj, wt, directed, fromRows, u, d, ns, s);
    RelaxAllFailure(adj, wt, directed, fromRows, u, d, ns, s);
    rk' := RelaxAllKeeps(adj, wt, directed, fromRows, start, s, rk, u, d, ns);
    CountFrom(adj, wt, directed, fromRows, vs, s, u, d, ns);
  }

  /** A whole `for neighbor in ...` loop that does not fail restores the
      invariant of the outer loop. */
  lemma RelaxAllKeeps(adj: Adjacency, wt: WeightTable, directed: bool, fromRows: bool,
                      start: Vertex, s: State, rk: Ranks, u: Vertex, d: int, ns: seq<Vertex>)
    returns (rk': Ranks)
    requires Closed(adj) && NonNegative(wt) && WeightsCover(adj, wt) && Expanding(adj, wt, start, s, rk, u, d, [])
    requires u in wt && forall v :: v in ns ==> Neighbour(adj, wt, directed, fromRows, u, v)
    requires forall v :: v in adj[u] && v != u ==> v in ns
    ensures var r := RelaxAll(adj, wt, directed, fromRows, u, d, ns, s);
      r.Success? ==> Inv(adj, wt, start, r.value, rk')
  {
    rk' := ExpandAll(adj, wt, directed, fromRows, start, s, rk, u, d, [], ns);
    var r := RelaxAll(adj, wt, directed, fromRows, u, d, ns, s);
    if r.Success? {
      assert forall v :: v in adj[u] && v != u ==> v in [] + ns;
      ExpandDone(adj, wt, start, r.value, rk', u, d, [] + ns);
    }
  }

  /** The invariant of the loop of the search: the heap invariant, every
      pop took a pushed entry, and `cost_calls` counts the neighbours of the
      vertices `expanded`, at most one per pop. */
  ghost predicate Running(adj: Adjacency, wt: WeightTable, start: Vertex, way: Variant, s: State, rk: Ranks,
                          costCalls: nat, pops: nat, expanded: seq<Vertex>)
  {
    && Inv(adj, wt, start, s, rk)
    && pops + |s.queue| == s.pushes + (if way.seedCounted then 0 else 1)
    && |expanded| <= pops && costCalls == Examined(adj, wt, way.fromRows, expanded)
  }

  /** The measure of the loop goes down: fewer infinite distances, or as
      many and a smaller sum of the finite ones, or the same distances and
      a shorter heap. */
  ghost predicate Decreased(s1: State, s0: State, vs: seq<Vertex>) {
    || Infs(s1.dist, vs) < Infs(s0.dist, vs)
    || (Infs(s1.dist, vs) == Infs(s0.dist, vs) && FinSum(s1.dist, vs) < FinSum(s0.dist, vs))
    || (Infs(s1.dist, vs) == Infs(s0.dist, vs) && FinSum(s1.dist, vs) == FinSum(s0.dist, vs)
        && |s1.queue| < |s0.queue|)
  }

  /** One round of the loop: pop a smallest entry, count it, stop at the
      goal or skip a stale entry where the variant does, and otherwise relax
      every neighbour. `stop` is the answer when the round ends the search. */
  method Round(adj: Adjacency, wt: WeightTable, directed: bool, vs: seq<Vertex>, start: Vertex, way: Variant,
               s: State, ghost rk: Ranks, costCalls: nat, pops: nat, ghost expanded: seq<Vertex>)
    returns (stop: Option<Result<Report>>, s': State, ghost rk': Ranks, costCalls': nat, pops': nat,
             ghost expanded': seq<Vertex>)
    requires NoDup(vs) && (forall v :: v in adj ==> v in vs) && Closed(adj) && (!directed ==> Symmetric(adj))
    requires NonNegative(wt) && WeightsCover(adj, wt)
    requires Running(adj, wt, start, way, s, rk, costCalls, pops, expanded) && s.queue != multiset{}
    ensures stop.Some? ==> Settled(adj, wt, start, way, stop.value)
    ensures stop.None? ==> Running(adj, wt, start, way, s', rk', costCalls', pops', expanded')
    ensures stop.None? ==> Decreased(s', s, vs)
  {
    var e := PopMin(s.queue);
    var d, u := e.0, e.1;
    if way.goal == Some(u) {
      GoalFound(adj, wt, start, way, s, rk, e, costCalls, pops, expanded);
      return Some(Success(Report(s.dist, s.prev, costCalls, s.pushes, pops + 1))), s, rk, costCalls, pops, expanded;
    }
    PopKeeps(adj, wt, start, s, rk, e);
    var popped := s.(queue := s.queue - multiset{e});
    if way.skipStale && d > popped.dist[u].n {
      return None, popped, rk, costCalls, pops + 1, expanded;
    }
    stop, s', rk', costCalls', pops', expanded' :=
      ExpandRound(adj, wt, directed, vs, start, way, s, popped, rk, costCalls, pops, expanded, u, d);
  }

  /** The rest of a round that expands `u`, popped at distance `d`, from
      the heap of `s`, leaving the state `popped`. */
  method ExpandRound(adj: Adjacency, wt: WeightTable, directed: bool, vs: seq<Vertex>, start: Vertex, way: Variant,
                     ghost s: State, popped: State, ghost rk: Ranks, costCalls: nat, pops: nat, ghost expanded: seq<Vertex>,
                     u: Vertex, d: int)
    returns (stop: Option<Result<Report>>, s': State, ghost rk': Ranks, costCalls': nat, pops': nat,
             ghost expanded': seq<Vertex>)
    requires NoDup(vs) && (forall v :: v in adj ==> v in vs) && Closed(adj) && (!directed ==> Symmetric(adj))
    requires NonNegative(wt) && WeightsCover(adj, wt) && Expanding(adj, wt, start, popped, rk, u, d, [])
    requires pops + 1 + |popped.queue| == popped.pushes + (if way.seedCounted then 0 else 1)
    requires |expanded| <= pops && costCalls == Examined(adj, wt, way.fromRows, expanded)
    requires popped.dist == s.dist && |popped.queue| < |s.queue|
    ensures stop.Some? ==> Settled(adj, wt, start, way, stop.value)
    ensures stop.None? ==> Running(adj, wt, start, way, s', rk', costCalls', pops', expanded')
    ensures stop.None? ==> Decreased(s', s, vs)
  {
    var next, examined, rk1 := ExpandVertex(adj, wt, directed, way.fromRows, vs, start, popped, rk, u, d);
    if next.Failure? {
      return Some(Failure(next.error)), popped, rk, costCalls, pops, expanded;
    }
    stop, s', rk', costCalls', pops', expanded' := None, next.value, rk1, costCalls + examined, pops + 1, expanded + [u];
    RoundDone(adj, wt, start, way, vs, s, popped, s', rk', costCalls, pops, expanded, u);
  }

  /** The bookkeeping after an expansion of `u` from the state `popped`:
      the loop invariant again, and a smaller measure. */
  lemma RoundDone(adj: Adjacency, wt: WeightTable, start: Vertex, way: Variant, vs: seq<Vertex>,
                  s: State, popped: State, next: State, rk: Ranks, costCalls: nat, pops: nat, expanded: seq<Vertex>,
                  u: Vertex)
    requires Inv(adj, wt, start, next, rk) && Progress(popped, next, vs)
    requires pops + 1 + |popped.queue| == popped.pushes + (if way.seedCounted then 0 else 1)
    requires |expanded| <= pops && costCalls == Examined(adj, wt, way.fromRows, expanded)
    requires popped.dist == s.dist && |popped.queue| < |s.queue|
    ensures Running(adj, wt, start, way, next, rk, costCalls + if way.fromRows then (if u in wt then |wt[u]| else 0)
      else (if u in adj then |adj[u]| else 0), pops + 1, expanded + [u])
    ensures Decreased(next, s, vs)
  {
    ExaminedAppend(adj, wt, way.fromRows, expanded, u);
  }

  /** The loop shared by `Djkstra.py`, `UCS.py` and `UCS2.py`. */
  method Search(adj: Adjacency, wt: WeightTable, directed: bool, vs: seq<Vertex>, start: Vertex, way: Variant)
    returns (r: Result<Report>)
    requires KeyOrder(vs, adj) && Closed(adj) && (!directed ==> Symmetric(adj)) && NonNegative(wt)
    requires WeightsCover(adj, wt) || (way.fromRows && wt == map[])
    ensures Answers(adj, wt, start, way, r)
  {
    var s := Init(adj, start, way.seedCounted);
    if start !in adj || (way.fromRows && start !in wt) {
      // the seed is popped and its neighbours cannot be looked up
      if way.goal == Some(start) {
        return Success(Report(s.dist, s.prev, 0, s.pushes, 1));
      }
      return Failure(if way.fromRows then MissingKey else UnknownVertex);
    }
    assert WeightsCover(adj, wt) && NoDup(vs) && forall v :: v in adj ==> v in vs;
    r := Drain(adj, wt, directed, vs, start, way);
  }

  /** The loop from the seed `(0, start)` until the heap is empty or a
      round stops the search. */
  method Drain(adj: Adjacency, wt: WeightTable, directed: bool, vs: seq<Vertex>, start: Vertex, way: Variant)
    returns (r: Result<Report>)
    requires NoDup(vs) && (forall v :: v in adj ==> v in vs) && Closed(adj) && (!directed ==> Symmetric(adj))
    requires NonNegative(wt) && WeightsCover(adj, wt) && start in adj
    ensures Settled(adj, wt, start, way, r)
  {
    var s := Init(adj, start, way.seedCounted);
    ghost var rk := Ranks(map v | v in adj :: 0, 1);
    InitInv(adj, wt, start, way.seedCounted);
    var costCalls := 0;
    var pops := 0;
    ghost var expanded: seq<Vertex> := [];
    while s.queue != multiset{}
      invariant Running(adj, wt, start, way, s, rk, costCalls, pops, expanded)
      decreases Infs(s.dist, vs), FinSum(s.dist, vs), |s.queue|
    {
      var stop;
      stop, s, rk, costCalls, pops, expanded := Round(adj, wt, directed, vs, start, way, s, rk, costCalls, pops, expanded);
      if stop.Some? {
        return stop.value;
      }
    }
    DrainedFound(adj, wt, start, way, s, rk, costCalls, pops, expanded);
    r := Success(Report(s.dist, s.prev, costCalls, s.pushes, pops));
  }

  // ----------------------------------------------------------------------
  // The three functions and `get_walk`

  /** `dijkstra(graph, start_vertex)`: an unweighted graph is refused;
      otherwise every distance is the cost of a cheapest walk. */
  method Dijkstra(g: Domain.Graph, start: Vertex) returns (r: Result<Report>)
    requires g.Valid() && NonNegative(g.weights)
    ensures !g.isWeighted ==> r == Failure(NotWeighted)
    ensures g.isWeighted ==> Answers(g.adj, g.weights, start, DijkstraWay, r)
  {
    if !g.isWeighted {
      return Failure(NotWeighted);
    }
    r := Search(g.adj, g.weights, g.isDirected, g.vertices, start, DijkstraWay);
  }

  /** `uniform_cost_search(graph, start, goal)` of `UCS.py`: no check of
      the kind of graph; the neighbours come from the weight rows, so an
      unweighted graph (with no rows) fails at the first expansion. */
  method UniformCostSearch(g: Domain.Graph, start: Vertex, goal: Option<Vertex>) returns (r: Result<Report>)
    requires g.Valid() && NonNegative(g.weights)
    ensures Answers(g.adj, g.weights, start, UcsWay(goal), r)
    ensures !g.isWeighted ==> r == SeedStop(g.adj, start, UcsWay(goal), MissingKey)
  {
    r := Search(g.adj, g.weights, g.isDirected, g.vertices, start, UcsWay(goal));
  }

  /** `uniform_cost_search(graph, start_vertex, goal_vertex)` of `UCS2.py`:
      the goal is never consulted, so it runs exactly as `dijkstra`. */
  method UniformCostSearch2(g: Domain.Graph, start: Vertex, goal: Vertex) returns (r: Result<Report>)
    requires g.Valid() && NonNegative(g.weights)
    ensures !g.isWeighted ==> r == Failure(NotWeighted)
    ensures g.isWeighted ==> Answers(g.adj, g.weights, start, DijkstraWay, r)
  {
    r := Dijkstra(g, start);
  }

  /** `get_walk` on the dictionaries of a search, for a vertex whose
      distance is optimal: the predecessor chain ends, and the walk is
      empty exactly when the vertex cannot be reached; otherwise it is a
      walk from the start whose cost is the distance, and no walk is
      cheaper. */
  lemma ShortestWalk(adj: Adjacency, wt: WeightTable, start: Vertex,
                     dist: map<Vertex, Dist>, prev: map<Vertex, Option<Vertex>>, v: Vertex)
    returns (n: nat)
    requires v in adj && Traces(adj, wt, start, dist, prev) && Optimal(adj, wt, start, dist, v)
    ensures Ends(prev, v, n) && WalkFor(prev, start, v, n).Success?
    ensures dist[v].Fin? <==> Reachable(adj, start, v)
    ensures var p := WalkFor(prev, start, v, n).value;
      && (p != [] <==> Reachable(adj, start, v))
      && (p != [] ==> WalkBetween(adj, p, start, v) && Cost(wt, p) == dist[v].n)
      && (p != [] ==> forall q :: WalkBetween(adj, q, start, v) ==> Cost(wt, p) <= Cost(wt, q))
  {
    if dist[v].Fin? {
      assert Traced(adj, wt, start, dist, prev, v);
      var k: nat :| Ends(prev, v, k) && TracedBy(adj, wt, start, dist, prev, v, k);
      n := k;
      var c := Chain(prev, v, n).value;
      assert WalkBetween(adj, c, start, v);
      assert WalkFor(prev, start, v, n) == Success(c);
    } else {
      if v == start {
        // the one-vertex walk would make the distance finite
        assert WalkBetween(adj, [v], start, v);
      }
      n := 1;
      assert prev[v] == None;
      assert Chain(prev, v, n) == Success([v]);
      assert !Reachable(adj, start, v);
    }
  }
}
