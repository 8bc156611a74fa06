/** The traversal cursors of `iterator.py` (`BFSIterator`, `DFSIterator`)
    and the factories `bfs_iter`/`dfs_iter` of the graph store. Each cursor
    keeps the adjacency table it was created on and never changes it. */
module Traversal {
  import opened Common
  import opened GraphModel
  import Domain

  /** `d` is the hop distance from `s` to `t`: some walk has `d` steps and
      none has fewer. */
  ghost predicate HopDistance(adj: Adjacency, s: Vertex, t: Vertex, d: nat) {
    && (exists p :: WalkBetween(adj, p, s, t) && |p| == d + 1)
    && (forall p :: WalkBetween(adj, p, s, t) ==> d <= |p| - 1)
  }

  // ----------------------------------------------------------------------
  // Breadth-first cursor

  /** The entries one BFS step appends for the neighbour list `ns` at level
      `d`: every neighbour not yet visited, once, in list order (the visited
      set grows as the loop goes). */
  function Enqueue(ns: seq<Vertex>, visited: set<Vertex>, d: nat): seq<(Vertex, nat)> {
    if ns == [] then []
    else if ns[0] in visited then Enqueue(ns[1..], visited, d)
    else [(ns[0], d)] + Enqueue(ns[1..], visited + {ns[0]}, d)
  }

  /** How `Enqueue` and the visited set treat the first neighbour. */
  lemma EnqueueCons(ns: seq<Vertex>, vis: set<Vertex>, d: nat)
    requires ns != []
    ensures ns[0] in vis ==>
      Enqueue(ns, vis, d) == Enqueue(ns[1..], vis, d) && vis + Elems(ns) == vis + Elems(ns[1..])
    ensures ns[0] !in vis ==>
      && Enqueue(ns, vis, d) == [(ns[0], d)] + Enqueue(ns[1..], vis + {ns[0]}, d)
      && vis + Elems(ns) == (vis + {ns[0]}) + Elems(ns[1..])
  {
    assert Elems(ns) == {ns[0]} + Elems(ns[1..]);
  }

  /** One BFS step enqueues exactly the new neighbours, each once, all at
      level `d`. */
  lemma {:induction false} EnqueueSpec(ns: seq<Vertex>, visited: set<Vertex>, d: nat)
    ensures var e := Enqueue(ns, visited, d);
      && NoDup(Firsts(e)) && Elems(Firsts(e)) == Elems(ns) - visited
      && forall k :: 0 <= k < |e| ==> e[k].1 == d
  {
    if ns != [] {
      var rest := if ns[0] in visited then visited else visited + {ns[0]};
      EnqueueSpec(ns[1..], rest, d);
      assert Elems(ns) == {ns[0]} + Elems(ns[1..]);
      if ns[0] !in visited {
        var tail := Enqueue(ns[1..], rest, d);
        FirstsAppend([(ns[0], d)], tail);
        assert Firsts([(ns[0], d)]) == [ns[0]];
        NoDupCons(ns[0], Firsts(tail));
      }
    }
  }

  /** `pos` gives the one position of every visited vertex in the queue, so
      no vertex is queued twice. */
  ghost predicate Positions(q: seq<(Vertex, nat)>, visited: set<Vertex>, pos: map<Vertex, nat>) {
    && pos.Keys == visited
    && (forall i :: 0 <= i < |q| ==> q[i].0 in pos && pos[q[i].0] == i)
    && (forall v :: v in pos ==> pos[v] < |q| && q[pos[v]].0 == v)
  }

  /** The levels along the queue never decrease. */
  ghost predicate LevelsSorted(q: seq<(Vertex, nat)>)
    decreases |q|
  {
    |q| <= 1 || (q[0].1 <= q[1].1 && LevelsSorted(q[1..]))
  }

  /** Neighbouring entries of a sorted queue are in order. */
  lemma {:induction false} SortedStep(q: seq<(Vertex, nat)>, i: nat)
    requires LevelsSorted(q) && i + 1 < |q|
    ensures q[i].1 <= q[i + 1].1
    decreases i
  {
    if i > 0 {
      SortedStep(q[1..], i - 1);
    }
  }

  /** Every visited vertex has a walk from the start as long as its level. */
  ghost predicate PathsWitness(adj: Adjacency, start: Vertex, q: seq<(Vertex, nat)>,
                               pos: map<Vertex, nat>, paths: map<Vertex, seq<Vertex>>) {
    && paths.Keys == pos.Keys
    && forall v :: v in paths ==>
         v in pos && pos[v] < |q| && WalkBetween(adj, paths[v], start, v) && |paths[v]| == q[pos[v]].1 + 1
  }

  /** The queue part of the BFS invariant: the queue starts with the start
      vertex at level 0, holds every visited vertex once, its levels never
      decrease, and every level is witnessed by a walk. */
  ghost predicate BfsQueue(adj: Adjacency, start: Vertex, q: seq<(Vertex, nat)>, visited: set<Vertex>,
                           pos: map<Vertex, nat>, paths: map<Vertex, seq<Vertex>>) {
    && 1 <= |q| && q[0] == (start, 0)
    && Positions(q, visited, pos)
    && LevelsSorted(q)
    && PathsWitness(adj, start, q, pos, paths)
  }

  /** Every neighbour of the vertex of entry `e` is visited, at most one
      level deeper than `e`. */
  ghost predicate Expanded(adj: Adjacency, q: seq<(Vertex, nat)>, pos: map<Vertex, nat>, e: (Vertex, nat)) {
    e.0 in adj ==> forall y :: y in adj[e.0] ==> y in pos && pos[y] < |q| && q[pos[y]].1 <= e.1 + 1
  }

  /** The first `n` queue entries are expanded. */
  ghost predicate ExpandedUpTo(adj: Adjacency, q: seq<(Vertex, nat)>, pos: map<Vertex, nat>, n: nat)
    decreases n
  {
    n <= |q| && (n == 0 || (ExpandedUpTo(adj, q, pos, n - 1) && Expanded(adj, q, pos, q[n - 1])))
  }

  lemma {:induction false} ExpandedAt(adj: Adjacency, q: seq<(Vertex, nat)>, pos: map<Vertex, nat>, n: nat, i: nat)
    requires ExpandedUpTo(adj, q, pos, n) && i < n
    ensures Expanded(adj, q, pos, q[i])
    decreases n
  {
    if i < n - 1 {
      ExpandedAt(adj, q, pos, n - 1, i);
    }
  }

  /** Growing the queue at its end, without moving any vertex already in it,
      keeps every expanded entry expanded. */
  lemma {:induction false} ExpandedGrow(adj: Adjacency, q: seq<(Vertex, nat)>, pos: map<Vertex, nat>,
                                        q': seq<(Vertex, nat)>, pos': map<Vertex, nat>, n: nat)
    requires ExpandedUpTo(adj, q, pos, n) && |q| <= |q'| && q'[..|q|] == q
    requires forall v :: v in pos ==> v in pos' && pos'[v] == pos[v]
    requires forall v :: v in pos ==> pos[v] < |q|
    ensures ExpandedUpTo(adj, q', pos', n)
    decreases n
  {
    if n > 0 {
      ExpandedGrow(adj, q, pos, q', pos', n - 1);
      var e := q[n - 1];
      assert q'[n - 1] == e;
      if e.0 in adj {
        forall y | y in adj[e.0] ensures y in pos' && pos'[y] < |q'| && q'[pos'[y]].1 <= e.1 + 1 {
          assert q'[pos[y]] == q[pos[y]];
        }
      }
    }
  }

  /** The entries not yet yielded are at most one level deeper than the
      next one to be yielded. */
  ghost predicate Layered(q: seq<(Vertex, nat)>, front: nat) {
    && front <= |q|
    && (front < |q| ==> forall j :: 0 <= j < |q| ==> q[j].1 <= q[front].1 + 1)
  }

  ghost predicate BfsInv(adj: Adjacency, start: Vertex, q: seq<(Vertex, nat)>, visited: set<Vertex>, front: nat,
                         pos: map<Vertex, nat>, paths: map<Vertex, seq<Vertex>>) {
    && Closed(adj) && start in adj
    && BfsQueue(adj, start, q, visited, pos, paths)
    && Layered(q, front)
    && ExpandedUpTo(adj, q, pos, front)
  }

  lemma PositionsAppend(q: seq<(Vertex, nat)>, visited: set<Vertex>, pos: map<Vertex, nat>, y: Vertex, d: nat)
    requires Positions(q, visited, pos) && y !in visited
    ensures Positions(q + [(y, d)], visited + {y}, pos[y := |q|])
  {
    var q' := q + [(y, d)];
    forall i | 0 <= i < |q'| ensures q'[i].0 in pos[y := |q|] && pos[y := |q|][q'[i].0] == i {
      if i < |q| {
        assert q'[i] == q[i];
      }
    }
  }

  lemma {:induction false} SortedAppend(q: seq<(Vertex, nat)>, y: Vertex, d: nat)
    requires LevelsSorted(q) && forall k :: 0 <= k < |q| ==> q[k].1 <= d
    ensures LevelsSorted(q + [(y, d)])
    decreases |q|
  {
    if |q| >= 1 {
      assert (q + [(y, d)])[1..] == q[1..] + [(y, d)];
      SortedAppend(q[1..], y, d);
    }
  }

  lemma PathsAppend(adj: Adjacency, start: Vertex, q: seq<(Vertex, nat)>, pos: map<Vertex, nat>,
                    paths: map<Vertex, seq<Vertex>>, x: Vertex, y: Vertex, d: nat)
    requires PathsWitness(adj, start, q, pos, paths)
    requires x in pos && pos[x] < |q| && q[pos[x]].1 + 1 == d && y in adj && y in adj[x] && y !in pos
    ensures PathsWitness(adj, start, q + [(y, d)], pos[y := |q|], paths[y := paths[x] + [y]])
  {
    WalkExtend(adj, paths[x], start, x, y);
    var q' := q + [(y, d)];
    forall v | v in paths ensures q'[pos[v]] == q[pos[v]] { }
  }

  /** Enqueueing a new neighbour `y` of `x` keeps the queue invariant. */
  lemma BfsAppendKeeps(adj: Adjacency, start: Vertex, q: seq<(Vertex, nat)>, visited: set<Vertex>,
                       pos: map<Vertex, nat>, paths: map<Vertex, seq<Vertex>>,
                       x: Vertex, d: nat, y: Vertex)
    requires BfsQueue(adj, start, q, visited, pos, paths)
    requires x in visited && q[pos[x]].1 + 1 == d && y in adj && y in adj[x] && y !in visited
    requires forall k :: 0 <= k < |q| ==> q[k].1 <= d
    ensures BfsQueue(adj, start, q + [(y, d)], visited + {y}, pos[y := |q|], paths[y := paths[x] + [y]])
  {
    PositionsAppend(q, visited, pos, y, d);
    SortedAppend(q, y, d);
    PathsAppend(adj, start, q, pos, paths, x, y, d);
  }

  /** A walk from the start ends at a visited vertex whose level is at most
      the walk's length, once every queue entry has been expanded. */
  lemma {:induction false} WalksLand(adj: Adjacency, start: Vertex, q: seq<(Vertex, nat)>, visited: set<Vertex>,
                                     pos: map<Vertex, nat>, paths: map<Vertex, seq<Vertex>>,
                                     p: seq<Vertex>, t: Vertex)
    requires BfsQueue(adj, start, q, visited, pos, paths) && ExpandedUpTo(adj, q, pos, |q|)
    requires WalkBetween(adj, p, start, t)
    ensures t in pos && q[pos[t]].1 <= |p| - 1
    decreases |p|
  {
    if |p| == 1 {
      assert q[0].0 == start;
    } else {
      var z := p[|p| - 2];
      WalkPrefix(adj, p, start, t);
      WalksLand(adj, start, q, visited, pos, paths, p[..|p| - 1], z);
      ExpandedAt(adj, q, pos, |q|, pos[z]);
      assert q[pos[z]].0 == z && z in adj;
    }
  }

  /** A queue with a position for every entry names each vertex once. */
  lemma QueueNoDup(q: seq<(Vertex, nat)>, visited: set<Vertex>, pos: map<Vertex, nat>)
    requires Positions(q, visited, pos)
    ensures NoDup(Firsts(q))
  {
    var vs := Firsts(q);
    forall i, j | 0 <= i < j < |vs| ensures vs[i] != vs[j] {
      assert pos[q[i].0] == i && pos[q[j].0] == j;
    }
  }

  /** Once every entry is expanded, the queue holds exactly the vertices
      reachable from the start. */
  lemma QueueReach(adj: Adjacency, start: Vertex, q: seq<(Vertex, nat)>, visited: set<Vertex>,
                   pos: map<Vertex, nat>, paths: map<Vertex, seq<Vertex>>)
    requires BfsQueue(adj, start, q, visited, pos, paths) && ExpandedUpTo(adj, q, pos, |q|)
    ensures forall v :: v in Elems(Firsts(q)) <==> Reachable(adj, start, v)
  {
    var vs := Firsts(q);
    forall v | Reachable(adj, start, v) ensures v in Elems(vs) {
      var p :| WalkBetween(adj, p, start, v);
      WalksLand(adj, start, q, visited, pos, paths, p, v);
      assert vs[pos[v]] == v;
    }
    forall v | v in Elems(vs) ensures Reachable(adj, start, v) {
      var i :| 0 <= i < |vs| && vs[i] == v;
      assert q[i].0 == v;
      assert WalkBetween(adj, paths[v], start, v);
    }
  }

  /** Once every entry is expanded, each entry's level is the hop distance
      of its vertex from the start. */
  lemma QueueDistance(adj: Adjacency, start: Vertex, q: seq<(Vertex, nat)>, visited: set<Vertex>,
                      pos: map<Vertex, nat>, paths: map<Vertex, seq<Vertex>>)
    requires BfsQueue(adj, start, q, visited, pos, paths) && ExpandedUpTo(adj, q, pos, |q|)
    ensures forall i :: 0 <= i < |q| ==> HopDistance(adj, start, q[i].0, q[i].1)
  {
    forall i | 0 <= i < |q| ensures HopDistance(adj, start, q[i].0, q[i].1) {
      var v := q[i].0;
      assert pos[v] == i;
      assert WalkBetween(adj, paths[v], start, v);
      forall p | WalkBetween(adj, p, start, v) ensures q[i].1 <= |p| - 1 {
        WalksLand(adj, start, q, visited, pos, paths, p, v);
      }
    }
  }

  /** What enqueueing the neighbours `ns` of `x` at level `d` leads to: the
      queue invariant holds with the new positions and walks, no level
      exceeds `d`, each of `ns` is queued at a level at most `d`, and every
      vertex already queued keeps its position. */
  ghost predicate EnqueueOutcome(adj: Adjacency, start: Vertex, q: seq<(Vertex, nat)>, vis: set<Vertex>,
                                 pos: map<Vertex, nat>, d: nat, ns: seq<Vertex>,
                                 pos': map<Vertex, nat>, ps': map<Vertex, seq<Vertex>>) {
    var q' := q + Enqueue(ns, vis, d);
    && BfsQueue(adj, start, q', vis + Elems(ns), pos', ps')
    && (forall k :: 0 <= k < |q'| ==> q'[k].1 <= d)
    && (forall y :: y in ns ==> y in pos' && pos'[y] < |q'| && q'[pos'[y]].1 <= d)
    && (forall v :: v in pos ==> v in pos' && pos'[v] == pos[v])
  }

  /** The preconditions shared by the enqueueing lemmas. */
  ghost predicate EnqueueReady(adj: Adjacency, start: Vertex, q: seq<(Vertex, nat)>, vis: set<Vertex>,
                               pos: map<Vertex, nat>, ps: map<Vertex, seq<Vertex>>,
                               x: Vertex, d: nat, ns: seq<Vertex>) {
    && BfsQueue(adj, start, q, vis, pos, ps)
    && x in vis && q[pos[x]].1 + 1 == d
    && (forall y :: y in ns ==> y in adj && y in adj[x])
    && (forall k :: 0 <= k < |q| ==> q[k].1 <= d)
  }

  /** Enqueueing the new neighbours of `x` among `ns` at level `d` keeps the
      queue invariant. */
  lemma {:induction false} EnqueueKeeps(adj: Adjacency, start: Vertex, q: seq<(Vertex, nat)>, vis: set<Vertex>,
                                        pos: map<Vertex, nat>, ps: map<Vertex, seq<Vertex>>,
                                        x: Vertex, d: nat, ns: seq<Vertex>)
    returns (pos': map<Vertex, nat>, ps': map<Vertex, seq<Vertex>>)
    requires EnqueueReady(adj, start, q, vis, pos, ps, x, d, ns)
    ensures EnqueueOutcome(adj, start, q, vis, pos, d, ns, pos', ps')
    decreases |ns|, 1
  {
    if ns == [] {
      assert q + Enqueue(ns, vis, d) == q;
      assert vis + Elems(ns) == vis;
      return pos, ps;
    } else if ns[0] in vis {
      pos', ps' := EnqueueSkip(adj, start, q, vis, pos, ps, x, d, ns);
    } else {
      pos', ps' := EnqueueNew(adj, start, q, vis, pos, ps, x, d, ns);
    }
  }

  /** The first neighbour was visited already: nothing is enqueued for it. */
  lemma {:induction false} EnqueueSkip(adj: Adjacency, start: Vertex, q: seq<(Vertex, nat)>, vis: set<Vertex>,
                                       pos: map<Vertex, nat>, ps: map<Vertex, seq<Vertex>>,
                                       x: Vertex, d: nat, ns: seq<Vertex>)
    returns (pos': map<Vertex, nat>, ps': map<Vertex, seq<Vertex>>)
    requires EnqueueReady(adj, start, q, vis, pos, ps, x, d, ns) && ns != [] && ns[0] in vis
    ensures EnqueueOutcome(adj, start, q, vis, pos, d, ns, pos', ps')
    decreases |ns|, 0
  {
    var y := ns[0];
    pos', ps' := EnqueueKeeps(adj, start, q, vis, pos, ps, x, d, ns[1..]);
    EnqueueCons(ns, vis, d);
    assert (q + Enqueue(ns, vis, d))[pos[y]] == q[pos[y]];
  }

  /** The first neighbour is new: it is enqueued at level `d` before the
      rest. */
  lemma {:induction false} EnqueueNew(adj: Adjacency, start: Vertex, q: seq<(Vertex, nat)>, vis: set<Vertex>,
                                      pos: map<Vertex, nat>, ps: map<Vertex, seq<Vertex>>,
                                      x: Vertex, d: nat, ns: seq<Vertex>)
    returns (pos': map<Vertex, nat>, ps': map<Vertex, seq<Vertex>>)
    requires EnqueueReady(adj, start, q, vis, pos, ps, x, d, ns) && ns != [] && ns[0] !in vis
    ensures EnqueueOutcome(adj, start, q, vis, pos, d, ns, pos', ps')
    decreases |ns|, 0
  {
    var y := ns[0];
    BfsAppendKeeps(adj, start, q, vis, pos, ps, x, d, y);
    var q1 := q + [(y, d)];
    assert q1[pos[x]] == q[pos[x]];
    pos', ps' := EnqueueKeeps(adj, start, q1, vis + {y}, pos[y := |q|], ps[y := ps[x] + [y]], x, d, ns[1..]);
    EnqueueCons(ns, vis, d);
    AppendAssoc(q, [(y, d)], Enqueue(ns[1..], vis + {y}, d));
    assert (q1 + Enqueue(ns[1..], vis + {y}, d))[|q|] == q1[|q|];
  }

  /** `Enqueue` on the suffix of `ns` from position `j`. */
  lemma EnqueueAt(ns: seq<Vertex>, j: nat, vis: set<Vertex>, d: nat)
    requires j < |ns|
    ensures ns[j] in vis ==> Enqueue(ns[j..], vis, d) == Enqueue(ns[j + 1..], vis, d)
    ensures ns[j] !in vis ==> Enqueue(ns[j..], vis, d) == [(ns[j], d)] + Enqueue(ns[j + 1..], vis + {ns[j]}, d)
  {
    assert ns[j..][0] == ns[j] && ns[j..][1..] == ns[j + 1..];
  }

  /** The loop of BFS `__next__` for the entry `(x, d)`: every neighbour of
      `x` not yet visited is marked and enqueued at level `d + 1`, in list
      order. */
  method BfsExpand(Q0: seq<(Vertex, nat)>, V0: set<Vertex>, ns: seq<Vertex>, d: nat)
    returns (q: seq<(Vertex, nat)>, vis: set<Vertex>)
    ensures q == Q0 + Enqueue(ns, V0, d) && vis == V0 + Elems(ns)
  {
    q, vis := Q0, V0;
    ghost var added: seq<(Vertex, nat)> := [];
    var j := 0;
    while j < |ns|
      invariant 0 <= j <= |ns|
      invariant q == Q0 + added && vis == V0 + Elems(ns[..j])
      invariant Enqueue(ns, V0, d) == added + Enqueue(ns[j..], vis, d)
    {
      var y := ns[j];
      PrefixStep(ns, j);
      EnqueueAt(ns, j, vis, d);
      if y !in vis {
        AppendAssoc(added, [(y, d)], Enqueue(ns[j + 1..], vis + {y}, d));
        AppendAssoc(Q0, added, [(y, d)]);
        vis := vis + {y};
        q := q + [(y, d)];
        added := added + [(y, d)];
      }
      j := j + 1;
    }
    assert ns[..j] == ns && ns[j..] == [];
  }

  /** The state of a BFS cursor: the queue of `(vertex, level)` entries
      ever enqueued, the visited set and the index of the next entry to
      yield (the source pops from the front; the model keeps the popped
      prefix so that it can speak about the output). */
  datatype BfsState = BfsState(queue: seq<(Vertex, nat)>, visited: set<Vertex>, front: nat)

  /** One `__next__`: yield the entry at the front and enqueue the unvisited
      neighbours of its vertex one level deeper; an exhausted state stays. */
  function BfsStep(adj: Adjacency, st: BfsState): BfsState {
    if st.front < |st.queue| then
      var e := st.queue[st.front];
      var ns := if e.0 in adj then adj[e.0] else [];
      BfsState(st.queue + Enqueue(ns, st.visited, e.1 + 1), st.visited + Elems(ns), st.front + 1)
    else st
  }

  /** A step from an entry whose vertex is in the graph expands exactly
      that vertex's neighbour list. */
  lemma StepUnfold(adj: Adjacency, st: BfsState, x: Vertex, d: nat)
    requires st.front < |st.queue| && st.queue[st.front] == (x, d) && x in adj
    ensures BfsStep(adj, st) == BfsState(st.queue + Enqueue(adj[x], st.visited, d + 1), st.visited + Elems(adj[x]), st.front + 1)
  {
  }

  /** An exhausted cursor stays as it is. */
  lemma StepIdle(adj: Adjacency, st: BfsState)
    requires |st.queue| <= st.front
    ensures BfsStep(adj, st) == st
  {
  }

  /** Moving the front past an entry whose neighbours are all queued no
      more than one level deeper keeps the unyielded entries layered. */
  lemma LayeredStep(Q0: seq<(Vertex, nat)>, f: nat, q: seq<(Vertex, nat)>)
    requires Layered(Q0, f) && f < |Q0| && |Q0| <= |q| && q[..|Q0|] == Q0 && LevelsSorted(q)
    requires forall k :: 0 <= k < |q| ==> q[k].1 <= Q0[f].1 + 1
    ensures Layered(q, f + 1)
  {
    assert q[f] == Q0[f];
    if f + 1 < |q| {
      SortedStep(q, f);
    }
  }

  /** Expanding the entry `(x, d)` at the front, on explicit values: the new
      neighbours go to the back at level `d + 1`. */
  lemma ExpandFront(adj: Adjacency, start: Vertex, Q0: seq<(Vertex, nat)>, V0: set<Vertex>, f: nat,
                    P0: map<Vertex, nat>, W0: map<Vertex, seq<Vertex>>, x: Vertex, d: nat,
                    q: seq<(Vertex, nat)>, vis: set<Vertex>, f': nat)
    returns (pos: map<Vertex, nat>, ps: map<Vertex, seq<Vertex>>)
    requires BfsInv(adj, start, Q0, V0, f, P0, W0) && x in adj
    requires f < |Q0| && Q0[f] == (x, d)
    requires q == Q0 + Enqueue(adj[x], V0, d + 1) && vis == V0 + Elems(adj[x]) && f' == f + 1
    ensures BfsInv(adj, start, q, vis, f', pos, ps)
  {
    assert x in P0 && P0[x] == f;
    pos, ps := EnqueueKeeps(adj, start, Q0, V0, P0, W0, x, d + 1, adj[x]);
    assert q[..|Q0|] == Q0;
    ExpandedGrow(adj, Q0, P0, q, pos, f);
    assert q[f] == (x, d);
    LayeredStep(Q0, f, q);
  }

  /** The vertex at the front of the queue is a vertex of the graph. */
  lemma FrontInAdj(adj: Adjacency, start: Vertex, Q0: seq<(Vertex, nat)>, V0: set<Vertex>, f: nat,
                   P0: map<Vertex, nat>, W0: map<Vertex, seq<Vertex>>, x: Vertex, d: nat)
    requires BfsInv(adj, start, Q0, V0, f, P0, W0)
    requires f < |Q0| && Q0[f] == (x, d)
    ensures x in adj
  {
    assert x in P0 && W0[x][|W0[x]| - 1] == x;
  }

  /** Expanding the entry at the front keeps the whole BFS invariant with the
      front moved one step. */
  lemma ExpandKeeps(adj: Adjacency, start: Vertex, st: BfsState, P0: map<Vertex, nat>, W0: map<Vertex, seq<Vertex>>,
                    x: Vertex, d: nat)
    returns (pos: map<Vertex, nat>, ps: map<Vertex, seq<Vertex>>)
    requires BfsInv(adj, start, st.queue, st.visited, st.front, P0, W0)
    requires st.front < |st.queue| && st.queue[st.front] == (x, d)
    ensures var st' := BfsStep(adj, st); BfsInv(adj, start, st'.queue, st'.visited, st'.front, pos, ps)
  {
    FrontInAdj(adj, start, st.queue, st.visited, st.front, P0, W0, x, d);
    StepUnfold(adj, st, x, d);
    var st' := BfsStep(adj, st);
    pos, ps := ExpandFront(adj, start, st.queue, st.visited, st.front, P0, W0, x, d, st'.queue, st'.visited, st'.front);
  }

  /** The state of a cursor from `start` after `k` calls of `__next__`. */
  function BfsRun(adj: Adjacency, start: Vertex, k: nat): BfsState
    decreases k
  {
    if k == 0 then BfsState([(start, 0)], {start}, 0) else BfsStep(adj, BfsRun(adj, start, k - 1))
  }

  /** One step keeps the BFS invariant. */
  lemma StepInv(adj: Adjacency, start: Vertex, st: BfsState, pos: map<Vertex, nat>, paths: map<Vertex, seq<Vertex>>)
    returns (pos': map<Vertex, nat>, paths': map<Vertex, seq<Vertex>>)
    requires BfsInv(adj, start, st.queue, st.visited, st.front, pos, paths)
    ensures var st' := BfsStep(adj, st); BfsInv(adj, start, st'.queue, st'.visited, st'.front, pos', paths')
  {
    if st.front < |st.queue| {
      var (x, d) := st.queue[st.front];
      pos', paths' := ExpandKeeps(adj, start, st, pos, paths, x, d);
    } else {
      StepIdle(adj, st);
      pos', paths' := pos, paths;
    }
  }

  /** Every state of a run satisfies the BFS invariant. */
  lemma {:induction false} RunInv(adj: Adjacency, start: Vertex, k: nat)
    returns (pos: map<Vertex, nat>, paths: map<Vertex, seq<Vertex>>)
    requires Closed(adj) && start in adj
    ensures var st := BfsRun(adj, start, k); BfsInv(adj, start, st.queue, st.visited, st.front, pos, paths)
    decreases k
  {
    if k == 0 {
      pos, paths := SeedInv(adj, start);
    } else {
      var st := BfsRun(adj, start, k - 1);
      assert BfsRun(adj, start, k) == BfsStep(adj, st);
      pos, paths := RunInv(adj, start, k - 1);
      pos, paths := StepInv(adj, start, st, pos, paths);
    }
  }

  /** The queue holding only the start at depth 0 meets the BFS invariant. */
  lemma SeedInv(adj: Adjacency, start: Vertex) returns (pos: map<Vertex, nat>, paths: map<Vertex, seq<Vertex>>)
    requires Closed(adj) && start in adj
    ensures BfsInv(adj, start, [(start, 0)], {start}, 0, pos, paths)
  {
    pos, paths := map[start := 0], map[start := [start]];
    assert WalkBetween(adj, [start], start, start);
  }

  /** Every queued vertex is a vertex of the graph. */
  lemma RunQueuesVertices(adj: Adjacency, start: Vertex, k: nat, i: nat)
    requires Closed(adj) && start in adj && i < |BfsRun(adj, start, k).queue|
    ensures BfsRun(adj, start, k).queue[i].0 in adj
  {
    var st := BfsRun(adj, start, k);
    var pos, paths := RunInv(adj, start, k);
    var v := st.queue[i].0;
    assert WalkBetween(adj, paths[v], start, v);
  }

  /** A queue naming each vertex of the graph at most once is no longer
      than the graph has vertices. */
  lemma QueueBound(adj: Adjacency, q: seq<(Vertex, nat)>)
    requires NoDup(Firsts(q)) && forall i :: 0 <= i < |q| ==> q[i].0 in adj
    ensures |q| <= |adj|
  {
    CardElems(Firsts(q));
    var E := Elems(Firsts(q));
    assert E <= adj.Keys;
    assert adj.Keys == E + (adj.Keys - E);
    assert |adj.Keys| == |E| + |adj.Keys - E|;
    assert |adj.Keys| == |adj|;
  }

  /** No vertex is queued twice, so the queue is never longer than the
      graph has vertices. */
  lemma RunQueueBound(adj: Adjacency, start: Vertex, k: nat)
    requires Closed(adj) && start in adj
    ensures |BfsRun(adj, start, k).queue| <= |adj|
  {
    var st := BfsRun(adj, start, k);
    var pos, paths := RunInv(adj, start, k);
    assert Positions(st.queue, st.visited, pos);
    QueueNoDup(st.queue, st.visited, pos);
    forall i | 0 <= i < |st.queue| ensures st.queue[i].0 in adj {
      RunQueuesVertices(adj, start, k, i);
    }
    QueueBound(adj, st.queue);
  }

  /** A run whose every queued entry has been expanded has queued exactly
      the vertices reachable from the start, each once, each at its hop
      distance. */
  lemma RunExhausted(adj: Adjacency, start: Vertex, k: nat)
    requires Closed(adj) && start in adj
    requires BfsRun(adj, start, k).front == |BfsRun(adj, start, k).queue|
    ensures var q := BfsRun(adj, start, k).queue;
      && NoDup(Firsts(q))
      && (forall v :: v in Elems(Firsts(q)) <==> Reachable(adj, start, v))
      && (forall i :: 0 <= i < |q| ==> HopDistance(adj, start, q[i].0, q[i].1))
  {
    var st := BfsRun(adj, start, k);
    var pos, paths := RunInv(adj, start, k);
    QueueNoDup(st.queue, st.visited, pos);
    QueueReach(adj, start, st.queue, st.visited, pos, paths);
    QueueDistance(adj, start, st.queue, st.visited, pos, paths);
  }

  /** Appending to a queue leaves its prefixes alone. */
  lemma GrowOutput(q: seq<(Vertex, nat)>, ext: seq<(Vertex, nat)>, f: nat)
    requires f < |q|
    ensures (q + ext)[..f + 1] == q[..f] + [q[f]]
  {
    assert (q + ext)[..f + 1] == q[..f + 1];
  }

  /** The step after `k` steps that has an entry at the front expands a
      vertex of the graph. */
  lemma RunAdvance(adj: Adjacency, start: Vertex, k: nat)
    requires Closed(adj) && start in adj && BfsRun(adj, start, k).front < |BfsRun(adj, start, k).queue|
    ensures var st := BfsRun(adj, start, k); var e := st.queue[st.front];
      && e.0 in adj
      && BfsRun(adj, start, k + 1)
         == BfsState(st.queue + Enqueue(adj[e.0], st.visited, e.1 + 1), st.visited + Elems(adj[e.0]), st.front + 1)
  {
    var st := BfsRun(adj, start, k);
    var e := st.queue[st.front];
    RunQueuesVertices(adj, start, k, st.front);
    StepUnfold(adj, st, e.0, e.1);
  }

  class BfsIterator {
    /** The adjacency table of the graph the cursor walks. */
    const adj: Adjacency
    const start: Vertex
    var queue: seq<(Vertex, nat)>
    var visited: set<Vertex>
    var queueFront: nat
    /** How many entries have been yielded. */
    ghost var steps: nat

    ghost predicate Valid()
      reads this
    {
      && Closed(adj) && start in adj && queueFront <= |queue|
      && BfsState(queue, visited, queueFront) == BfsRun(adj, start, steps)
    }

    /** The entries yielded so far. */
    ghost function Output(): seq<(Vertex, nat)>
      reads this
      requires Valid()
    {
      queue[..queueFront]
    }

    /** `BFSIterator(graph, start)`; the missing-start error is raised by
        `Traversal.BfsIter`. */
    constructor (g: Domain.Graph, s: Vertex)
      requires g.Valid() && s in g.adj
      ensures Valid() && adj == g.adj && start == s
      ensures queue == [(s, 0)] && visited == {s} && queueFront == 0
    {
      adj, start := g.adj, s;
      queue, visited, queueFront := [(s, 0)], {s}, 0;
      steps := 0;
    }

    /** `__next__`: `None` is `StopIteration`. Otherwise the entry at the
        front is yielded and the neighbours of its vertex that were never
        enqueued are appended one level deeper. */
    method Next() returns (r: Option<(Vertex, nat)>)
      requires Valid()
      modifies this
      ensures Valid()
      ensures r.None? <==> old(queueFront) == |old(queue)|
      ensures r.None? ==> queue == old(queue) && visited == old(visited) && queueFront == old(queueFront)
      ensures r.Some? ==>
        && r.value == old(queue)[old(queueFront)]
        && r.value.0 in adj
        && queueFront == old(queueFront) + 1
        && queue == old(queue) + Enqueue(adj[r.value.0], old(visited), r.value.1 + 1)
        && visited == old(visited) + Elems(adj[r.value.0])
        && Output() == old(Output()) + [r.value]
    {
      if queueFront >= |queue| {
        return None;
      }
      var (x, d) := queue[queueFront];
      RunAdvance(adj, start, steps);
      var q, vis := BfsExpand(queue, visited, adj[x], d + 1);
      GrowOutput(queue, Enqueue(adj[x], visited, d + 1), queueFront);
      queue, visited, queueFront, steps := q, vis, queueFront + 1, steps + 1;
      assert BfsState(queue, visited, queueFront) == BfsRun(adj, start, steps);
      r := Some((x, d));
    }

    /** No vertex is queued twice. */
    lemma Bounded()
      requires Valid()
      ensures queueFront <= |queue| <= |adj|
    {
      RunQueueBound(adj, start, steps);
    }

    /** When the cursor is exhausted it has yielded exactly the vertices
        reachable from the start, each once, each with its hop distance. */
    lemma Exhausted()
      requires Valid() && queueFront == |queue|
      ensures Output() == queue && NoDup(Firsts(Output()))
      ensures forall v :: v in Elems(Firsts(Output())) <==> Reachable(adj, start, v)
      ensures forall i :: 0 <= i < |queue| ==> HopDistance(adj, start, queue[i].0, queue[i].1)
    {
      RunExhausted(adj, start, steps);
    }
  }

  /** `bfs_iter`: a cursor from a vertex of the graph. */
  method BfsIter(g: Domain.Graph, s: Vertex) returns (r: Result<BfsIterator>)
    requires g.Valid()
    ensures r.Success? <==> s in g.adj
    ensures r.Success? ==> fresh(r.value) && r.value.Valid() && r.value.adj == g.adj && r.value.start == s
    ensures r.Success? ==> r.value.queue == [(s, 0)] && r.value.queueFront == 0
    ensures r.Failure? ==> r.error == UnknownVertex
  {
    if s !in g.adj {
      return Failure(UnknownVertex);
    }
    var it := new BfsIterator(g, s);
    r := Success(it);
  }

  // ----------------------------------------------------------------------
  // Depth-first cursor

  /** Some walk from `s` to `t` has exactly `d` steps. */
  ghost predicate WalkOfLength(adj: Adjacency, s: Vertex, t: Vertex, d: nat) {
    exists p :: WalkBetween(adj, p, s, t) && |p| == d + 1
  }

  /** The loop of DFS `__next__` before it finds a new vertex: entries are
      popped from the top (the end of the sequence) while their vertex is
      already visited. */
  function Settle(stack: seq<(Vertex, nat)>, visited: set<Vertex>): seq<(Vertex, nat)>
    decreases |stack|
  {
    if stack != [] && stack[|stack| - 1].0 in visited then Settle(stack[..|stack| - 1], visited) else stack
  }

  /** Popping the visited entries leaves a prefix of the stack that is empty
      or has an unvisited top, and that still holds every unvisited vertex of
      the stack. */
  lemma {:induction false} SettleSpec(stack: seq<(Vertex, nat)>, visited: set<Vertex>)
    ensures var s := Settle(stack, visited);
      && |s| <= |stack| && s == stack[..|s|]
      && (s != [] ==> s[|s| - 1].0 !in visited)
      && forall y :: y in Firsts(stack) && y !in visited ==> y in Firsts(s)
    decreases |stack|
  {
    if stack != [] && stack[|stack| - 1].0 in visited {
      var t := stack[..|stack| - 1];
      SettleSpec(t, visited);
      var s := Settle(t, visited);
      assert stack[..|s|] == t[..|s|];
      forall y | y in Firsts(stack) && y !in visited ensures y in Firsts(s) {
        var i :| 0 <= i < |stack| && Firsts(stack)[i] == y;
        assert Firsts(t)[i] == y;
      }
    }
  }

  /** The entries the pushing loop appends while it walks `rs` in order:
      each vertex not in `visited`, at depth `d`. */
  function Fresh(rs: seq<Vertex>, visited: set<Vertex>, d: nat): seq<(Vertex, nat)>
    decreases |rs|
  {
    if rs == [] then []
    else
      var y := rs[|rs| - 1];
      Fresh(rs[..|rs| - 1], visited, d) + if y in visited then [] else [(y, d)]
  }

  /** The entries DFS `__next__` pushes for the neighbour list `ns`: it walks
      `reversed(ns)`, so that the first neighbour ends on top. */
  function Pushes(ns: seq<Vertex>, visited: set<Vertex>, d: nat): seq<(Vertex, nat)> {
    Fresh(Reverse(ns), visited, d)
  }

  /** `Fresh` keeps exactly the unvisited vertices of `rs`, at depth `d`. */
  lemma {:induction false} FreshSpec(rs: seq<Vertex>, visited: set<Vertex>, d: nat)
    ensures var p := Fresh(rs, visited, d);
      && (forall k :: 0 <= k < |p| ==> p[k].0 in rs && p[k].0 !in visited && p[k].1 == d)
      && (forall y :: y in rs && y !in visited ==> y in Firsts(p))
    decreases |rs|
  {
    if rs != [] {
      var t, y := rs[..|rs| - 1], rs[|rs| - 1];
      FreshSpec(t, visited, d);
      var r := Fresh(t, visited, d);
      var c: seq<(Vertex, nat)> := if y in visited then [] else [(y, d)];
      var p := r + c;
      assert rs == t + [y];
      FirstsAppend(r, c);
      forall k | 0 <= k < |p| ensures p[k].0 in rs && p[k].0 !in visited && p[k].1 == d {
        if k < |r| {
          assert p[k] == r[k];
        } else {
          assert p[k] == c[k - |r|];
        }
      }
      forall z | z in rs && z !in visited ensures z in Firsts(p) {
        if z == y {
          assert Firsts(p)[|r|] == z;
        } else {
          assert z in t;
          var i :| 0 <= i < |r| && Firsts(r)[i] == z;
          assert Firsts(p)[i] == z;
        }
      }
    }
  }

  /** The pushed entries are the unvisited neighbours, each at depth `d`,
      and every unvisited neighbour is pushed. */
  lemma PushesSpec(ns: seq<Vertex>, visited: set<Vertex>, d: nat)
    ensures var p := Pushes(ns, visited, d);
      && (forall k :: 0 <= k < |p| ==> p[k].0 in ns && p[k].0 !in visited && p[k].1 == d)
      && (forall y :: y in ns && y !in visited ==> y in Firsts(p))
  {
    var rs := Reverse(ns);
    FreshSpec(rs, visited, d);
    forall y | y in rs ensures y in ns {
      var i :| 0 <= i < |rs| && rs[i] == y;
      assert ns[|ns| - 1 - i] == y;
    }
    forall y | y in ns ensures y in rs {
      var i :| 0 <= i < |ns| && ns[i] == y;
      assert rs[|ns| - 1 - i] == y;
    }
  }

  /** The pushing loop of DFS `__next__`: `for neighbor in reversed(ns)`,
      each unvisited neighbour is pushed at depth `d`. */
  method DfsPush(S0: seq<(Vertex, nat)>, ns: seq<Vertex>, visited: set<Vertex>, d: nat)
    returns (stack: seq<(Vertex, nat)>)
    ensures stack == S0 + Pushes(ns, visited, d)
  {
    stack := S0;
    var rs := Reverse(ns);
    for j := 0 to |rs|
      invariant stack == S0 + Fresh(rs[..j], visited, d)
    {
      assert rs[..j + 1][..j] == rs[..j];
      if rs[j] !in visited {
        AppendAssoc(S0, Fresh(rs[..j], visited, d), [(rs[j], d)]);
        stack := stack + [(rs[j], d)];
      }
    }
    assert rs[..|rs|] == rs;
  }

  /** The state of a DFS cursor: the stack of `(vertex, depth)` entries, the
      visited vertices and the entries yielded so far. */
  datatype DfsState = DfsState(stack: seq<(Vertex, nat)>, visited: set<Vertex>, out: seq<(Vertex, nat)>)

  /** One call of DFS `__next__`: pop the visited entries; when an entry is
      left, its vertex is marked, yielded, and its unvisited neighbours are
      pushed one level deeper. */
  function DfsStep(adj: Adjacency, st: DfsState): DfsState {
    var s := Settle(st.stack, st.visited);
    if s == [] then DfsState([], st.visited, st.out)
    else
      var e := s[|s| - 1];
      var vis := st.visited + {e.0};
      var ns := if e.0 in adj then adj[e.0] else [];
      DfsState(s[..|s| - 1] + Pushes(ns, vis, e.1 + 1), vis, st.out + [e])
  }

  /** What one call of DFS `__next__` yields: the settled top, or nothing
      (`StopIteration`). */
  function DfsYield(st: DfsState): Option<(Vertex, nat)> {
    var s := Settle(st.stack, st.visited);
    if s == [] then None else Some(s[|s| - 1])
  }

  /** One DFS step: it stops exactly when every stack entry is visited, and
      then empties the stack; otherwise it yields an unvisited vertex from
      the stack, marks it, records it as yielded, and pushes its unvisited
      neighbours on what is left below it. */
  lemma DfsStepSpec(adj: Adjacency, st: DfsState)
    ensures DfsYield(st).None? <==> forall i :: 0 <= i < |st.stack| ==> st.stack[i].0 in st.visited
    ensures DfsYield(st).None? ==> DfsStep(adj, st) == DfsState([], st.visited, st.out)
    ensures DfsYield(st).Some? ==>
      var e := DfsYield(st).value; var st' := DfsStep(adj, st);
      && e in st.stack && e.0 !in st.visited
      && st'.visited == st.visited + {e.0} && st'.out == st.out + [e]
      && (e.0 in adj ==> exists rest :: rest + [e] <= st.stack && st'.stack == rest + Pushes(adj[e.0], st'.visited, e.1 + 1))
  {
    var s := Settle(st.stack, st.visited);
    SettleSpec(st.stack, st.visited);
    if s == [] {
      forall i | 0 <= i < |st.stack| ensures st.stack[i].0 in st.visited {
        assert Firsts(st.stack)[i] == st.stack[i].0;
      }
    } else {
      var n := |s| - 1;
      assert s[n] == st.stack[n];
      assert st.stack[n].0 !in st.visited;
      var rest := s[..n];
      assert rest + [s[n]] == s;
      if s[n].0 in adj {
        assert DfsStep(adj, st).stack == rest + Pushes(adj[s[n].0], st.visited + {s[n].0}, s[n].1 + 1);
      }
    }
  }

  /** The state of a DFS cursor from `start` after `k` calls of `__next__`. */
  function DfsRun(adj: Adjacency, start: Vertex, k: nat): DfsState
    decreases k
  {
    if k == 0 then DfsState([(start, 0)], {}, []) else DfsStep(adj, DfsRun(adj, start, k - 1))
  }

  /** `walks[i]` is a walk from `start` to the vertex of `entries[i]` with as
      many steps as that entry's depth. */
  ghost predicate Witnessed(adj: Adjacency, start: Vertex, entries: seq<(Vertex, nat)>, walks: seq<seq<Vertex>>) {
    && |walks| == |entries|
    && forall i :: 0 <= i < |entries| ==>
         WalkBetween(adj, walks[i], start, entries[i].0) && |walks[i]| == entries[i].1 + 1
  }

  /** Every neighbour of a visited vertex is visited or still on the stack. */
  ghost predicate Frontier(adj: Adjacency, visited: set<Vertex>, stack: seq<(Vertex, nat)>) {
    forall u :: u in visited ==> u in adj && forall y :: y in adj[u] ==> y in visited || y in Firsts(stack)
  }

  /** Either the start is visited, or nothing happened yet. */
  ghost predicate Started(start: Vertex, visited: set<Vertex>, stack: seq<(Vertex, nat)>) {
    start in visited || (visited == {} && stack == [(start, 0)])
  }

  /** The yielded entries name the visited vertices, each once. */
  ghost predicate OutMatches(out: seq<(Vertex, nat)>, visited: set<Vertex>) {
    NoDup(Firsts(out)) && Elems(Firsts(out)) == visited
  }

  ghost predicate DfsInv(adj: Adjacency, start: Vertex, st: DfsState, walks: seq<seq<Vertex>>, owalks: seq<seq<Vertex>>) {
    && Closed(adj) && start in adj
    && Witnessed(adj, start, st.stack, walks)
    && Witnessed(adj, start, st.out, owalks)
    && OutMatches(st.out, st.visited)
    && Frontier(adj, st.visited, st.stack)
    && Started(start, st.visited, st.stack)
  }

  lemma WitnessedAppend(adj: Adjacency, start: Vertex, a: seq<(Vertex, nat)>, wa: seq<seq<Vertex>>,
                        b: seq<(Vertex, nat)>, wb: seq<seq<Vertex>>)
    requires Witnessed(adj, start, a, wa) && Witnessed(adj, start, b, wb)
    ensures Witnessed(adj, start, a + b, wa + wb)
  {
    forall i | 0 <= i < |a + b|
      ensures WalkBetween(adj, (wa + wb)[i], start, (a + b)[i].0) && |(wa + wb)[i]| == (a + b)[i].1 + 1
    {
      if i < |a| {
        assert (a + b)[i] == a[i] && (wa + wb)[i] == wa[i];
      } else {
        assert (a + b)[i] == b[i - |a|] && (wa + wb)[i] == wb[i - |a|];
      }
    }
  }

  lemma WitnessedPrefix(adj: Adjacency, start: Vertex, a: seq<(Vertex, nat)>, wa: seq<seq<Vertex>>, n: nat)
    requires Witnessed(adj, start, a, wa) && n <= |a|
    ensures Witnessed(adj, start, a[..n], wa[..n])
  {
    forall i | 0 <= i < n
      ensures WalkBetween(adj, wa[..n][i], start, a[..n][i].0) && |wa[..n][i]| == a[..n][i].1 + 1
    {
      assert a[..n][i] == a[i] && wa[..n][i] == wa[i];
    }
  }

  /** The pushed neighbours of `x` are reached by extending the walk to `x`
      by one step. */
  lemma PushWalks(adj: Adjacency, start: Vertex, x: Vertex, w: seq<Vertex>, vis: set<Vertex>, d: nat)
    returns (pw: seq<seq<Vertex>>)
    requires Closed(adj) && WalkBetween(adj, w, start, x) && |w| == d + 1
    ensures Witnessed(adj, start, Pushes(adj[x], vis, d + 1), pw)
  {
    var p := Pushes(adj[x], vis, d + 1);
    PushesSpec(adj[x], vis, d + 1);
    pw := seq(|p|, k requires 0 <= k < |p| => w + [p[k].0]);
    forall k | 0 <= k < |p| ensures WalkBetween(adj, pw[k], start, p[k].0) && |pw[k]| == p[k].1 + 1 {
      WalkExtend(adj, w, start, x, p[k].0);
    }
  }

  /** Yielding a new vertex keeps the yielded entries free of repeats and
      equal to the visited set. */
  lemma OutExpand(out: seq<(Vertex, nat)>, visited: set<Vertex>, e: (Vertex, nat))
    requires OutMatches(out, visited) && e.0 !in visited
    ensures OutMatches(out + [e], visited + {e.0})
  {
    FirstsAppend(out, [e]);
    assert Firsts([e]) == [e.0];
    NoDupAppend(Firsts(out), e.0);
  }

  /** Marking the settled top `x` and pushing its unvisited neighbours keeps
      every neighbour of a visited vertex visited or on the stack. */
  lemma FrontierExpand(adj: Adjacency, visited: set<Vertex>, stack: seq<(Vertex, nat)>, s: seq<(Vertex, nat)>,
                       x: Vertex, P: seq<(Vertex, nat)>)
    requires Frontier(adj, visited, stack) && x in adj
    requires s != [] && s[|s| - 1].0 == x
    requires forall y :: y in Firsts(stack) && y !in visited ==> y in Firsts(s)
    requires forall y :: y in adj[x] && y !in visited + {x} ==> y in Firsts(P)
    ensures Frontier(adj, visited + {x}, s[..|s| - 1] + P)
  {
    var rest := s[..|s| - 1];
    FirstsAppend(rest, P);
    forall u, y | u in visited + {x} && y in adj[u] && y !in visited + {x}
      ensures y in Firsts(rest + P)
    {
      if u != x {
        var i :| 0 <= i < |s| && Firsts(s)[i] == y;
        assert i < |rest| && Firsts(rest)[i] == y;
      }
    }
  }

  /** What one step from a state with a settled top leads to, on explicit
      values. */
  lemma DfsStepUnfold(adj: Adjacency, st: DfsState, rest: seq<(Vertex, nat)>, x: Vertex, d: nat)
    requires Settle(st.stack, st.visited) == rest + [(x, d)] && x in adj
    ensures DfsStep(adj, st) == DfsState(rest + Pushes(adj[x], st.visited + {x}, d + 1), st.visited + {x}, st.out + [(x, d)])
  {
    assert (rest + [(x, d)])[..|rest|] == rest;
  }

  /** The stack after expanding the settled top `(x, d)` is witnessed: the
      entries below the top keep their walks and each pushed neighbour
      extends the walk to `x`. */
  lemma StackWalksExpand(adj: Adjacency, start: Vertex, st: DfsState, walks: seq<seq<Vertex>>,
                         s: seq<(Vertex, nat)>, x: Vertex, d: nat)
    returns (walks': seq<seq<Vertex>>)
    requires Closed(adj) && Witnessed(adj, start, st.stack, walks) && x in adj
    requires s == Settle(st.stack, st.visited) && s != [] && s[|s| - 1] == (x, d)
    ensures Witnessed(adj, start, s[..|s| - 1] + Pushes(adj[x], st.visited + {x}, d + 1), walks')
  {
    SettleSpec(st.stack, st.visited);
    var n := |s| - 1;
    var vis := st.visited + {x};
    assert s[n] == st.stack[n];
    var pw := PushWalks(adj, start, x, walks[n], vis, d);
    WitnessedPrefix(adj, start, st.stack, walks, n);
    assert st.stack[..n] == s[..n];
    WitnessedAppend(adj, start, s[..n], walks[..n], Pushes(adj[x], vis, d + 1), pw);
    walks' := walks[..n] + pw;
  }

  /** The yielded entries stay witnessed when the settled top is yielded. */
  lemma OutWalksExpand(adj: Adjacency, start: Vertex, st: DfsState, walks: seq<seq<Vertex>>,
                       owalks: seq<seq<Vertex>>, s: seq<(Vertex, nat)>, x: Vertex, d: nat)
    returns (owalks': seq<seq<Vertex>>)
    requires Witnessed(adj, start, st.stack, walks) && Witnessed(adj, start, st.out, owalks)
    requires s == Settle(st.stack, st.visited) && s != [] && s[|s| - 1] == (x, d)
    ensures Witnessed(adj, start, st.out + [(x, d)], owalks')
  {
    SettleSpec(st.stack, st.visited);
    var w := walks[|s| - 1];
    assert st.stack[|s| - 1] == (x, d);
    assert Witnessed(adj, start, [(x, d)], [w]);
    WitnessedAppend(adj, start, st.out, owalks, [(x, d)], [w]);
    owalks' := owalks + [w];
  }

  /** Expanding the settled top keeps every neighbour of a visited vertex
      visited or on the stack. */
  lemma FrontierStep(adj: Adjacency, st: DfsState, s: seq<(Vertex, nat)>, x: Vertex, d: nat)
    requires Frontier(adj, st.visited, st.stack) && x in adj
    requires s == Settle(st.stack, st.visited) && s != [] && s[|s| - 1] == (x, d)
    ensures Frontier(adj, st.visited + {x}, s[..|s| - 1] + Pushes(adj[x], st.visited + {x}, d + 1))
  {
    SettleSpec(st.stack, st.visited);
    PushesSpec(adj[x], st.visited + {x}, d + 1);
    FrontierExpand(adj, st.visited, st.stack, s, x, Pushes(adj[x], st.visited + {x}, d + 1));
  }

  /** The settled top is not visited yet. */
  lemma DfsSettledFresh(st: DfsState, s: seq<(Vertex, nat)>, x: Vertex, d: nat)
    requires s == Settle(st.stack, st.visited) && s != [] && s[|s| - 1] == (x, d)
    ensures x !in st.visited
  {
    SettleSpec(st.stack, st.visited);
  }

  /** After the first expansion the start vertex is visited. */
  lemma StartedStep(start: Vertex, st: DfsState, s: seq<(Vertex, nat)>, x: Vertex, d: nat)
    requires Started(start, st.visited, st.stack)
    requires s == Settle(st.stack, st.visited) && s != [] && s[|s| - 1] == (x, d)
    ensures start in st.visited + {x}
  {
    SettleSpec(st.stack, st.visited);
    if start !in st.visited {
      assert |s| == 1;
    }
  }

  /** A step from a state whose stack holds only visited entries empties the
      stack. */
  lemma DfsStepIdle(adj: Adjacency, st: DfsState)
    requires Settle(st.stack, st.visited) == []
    ensures DfsStep(adj, st) == DfsState([], st.visited, st.out)
  {
  }

  /** Expanding the settled top `(x, d)` on explicit values: the stack
      below the top, then the pushed neighbours. */
  lemma DfsExpandFront(adj: Adjacency, start: Vertex, st: DfsState, walks: seq<seq<Vertex>>, owalks: seq<seq<Vertex>>,
                       s: seq<(Vertex, nat)>, x: Vertex, d: nat, st': DfsState)
    returns (walks': seq<seq<Vertex>>, owalks': seq<seq<Vertex>>)
    requires DfsInv(adj, start, st, walks, owalks) && x in adj
    requires s == Settle(st.stack, st.visited) && s != [] && s[|s| - 1] == (x, d)
    requires st' == DfsState(s[..|s| - 1] + Pushes(adj[x], st.visited + {x}, d + 1), st.visited + {x}, st.out + [(x, d)])
    ensures DfsInv(adj, start, st', walks', owalks')
  {
    walks' := StackWalksExpand(adj, start, st, walks, s, x, d);
    owalks' := OutWalksExpand(adj, start, st, walks, owalks, s, x, d);
    DfsSettledFresh(st, s, x, d);
    OutExpand(st.out, st.visited, (x, d));
    FrontierStep(adj, st, s, x, d);
    StartedStep(start, st, s, x, d);
  }

  /** The settled top of a witnessed stack is a vertex of the graph. */
  lemma SettledTopInAdj(adj: Adjacency, start: Vertex, st: DfsState, walks: seq<seq<Vertex>>)
    requires Witnessed(adj, start, st.stack, walks) && Settle(st.stack, st.visited) != []
    ensures var s := Settle(st.stack, st.visited); s[|s| - 1].0 in adj
  {
    var s := Settle(st.stack, st.visited);
    SettleSpec(st.stack, st.visited);
    var n := |s| - 1;
    assert s[n] == st.stack[n] && WalkBetween(adj, walks[n], start, s[n].0);
  }

  /** Expanding the settled top keeps the DFS invariant. */
  lemma DfsExpandInv(adj: Adjacency, start: Vertex, st: DfsState, walks: seq<seq<Vertex>>, owalks: seq<seq<Vertex>>)
    returns (walks': seq<seq<Vertex>>, owalks': seq<seq<Vertex>>)
    requires DfsInv(adj, start, st, walks, owalks) && Settle(st.stack, st.visited) != []
    ensures DfsInv(adj, start, DfsStep(adj, st), walks', owalks')
  {
    var s := Settle(st.stack, st.visited);
    var n := |s| - 1;
    var x, d := s[n].0, s[n].1;
    SettledTopInAdj(adj, start, st, walks);
    assert s == s[..n] + [(x, d)];
    DfsStepUnfold(adj, st, s[..n], x, d);
    walks', owalks' := DfsExpandFront(adj, start, st, walks, owalks, s, x, d, DfsStep(adj, st));
  }

  /** A cursor whose stack holds only visited entries empties it and keeps
      the DFS invariant. */
  lemma DfsIdleInv(adj: Adjacency, start: Vertex, st: DfsState, walks: seq<seq<Vertex>>, owalks: seq<seq<Vertex>>)
    requires DfsInv(adj, start, st, walks, owalks) && Settle(st.stack, st.visited) == []
    ensures DfsInv(adj, start, DfsStep(adj, st), [], owalks)
  {
    SettleSpec(st.stack, st.visited);
    DfsStepIdle(adj, st);
  }

  /** Every state a DFS cursor reaches satisfies the DFS invariant. */
  lemma {:induction false} DfsRunInv(adj: Adjacency, start: Vertex, k: nat)
    returns (walks: seq<seq<Vertex>>, owalks: seq<seq<Vertex>>)
    requires Closed(adj) && start in adj
    ensures DfsInv(adj, start, DfsRun(adj, start, k), walks, owalks)
    decreases k
  {
    if k == 0 {
      walks, owalks := [[start]], [];
      assert WalkBetween(adj, [start], start, start);
    } else {
      var st := DfsRun(adj, start, k - 1);
      var w0, o0 := DfsRunInv(adj, start, k - 1);
      if Settle(st.stack, st.visited) == [] {
        DfsIdleInv(adj, start, st, w0, o0);
        walks, owalks := [], o0;
      } else {
        walks, owalks := DfsExpandInv(adj, start, st, w0, o0);
      }
    }
  }

  /** The settled top of a reachable state is a vertex of the graph. */
  lemma DfsSettledVertex(adj: Adjacency, start: Vertex, k: nat)
    requires Closed(adj) && start in adj
    ensures var st := DfsRun(adj, start, k); var s := Settle(st.stack, st.visited);
      s != [] ==> s[|s| - 1].0 in adj
  {
    var st := DfsRun(adj, start, k);
    var walks, owalks := DfsRunInv(adj, start, k);
    var s := Settle(st.stack, st.visited);
    SettleSpec(st.stack, st.visited);
    if s != [] {
      assert s[|s| - 1] == st.stack[|s| - 1];
      assert WalkBetween(adj, walks[|s| - 1], start, s[|s| - 1].0);
    }
  }

  /** A set that holds `start` and every neighbour of its members holds
      every vertex reachable from `start`. */
  lemma {:induction false} ClosedReach(adj: Adjacency, S: set<Vertex>, start: Vertex, p: seq<Vertex>, t: Vertex)
    requires Frontier(adj, S, []) && start in S && WalkBetween(adj, p, start, t)
    ensures t in S
    decreases |p|
  {
    if |p| > 1 {
      var z := p[|p| - 2];
      WalkPrefix(adj, p, start, t);
      ClosedReach(adj, S, start, p[..|p| - 1], z);
      assert t in adj[z];
    }
  }

  /** Every DFS state: the yielded entries name the visited vertices, each
      once, and each entry's depth is the length of a walk from the start. */
  lemma DfsRunSound(adj: Adjacency, start: Vertex, k: nat)
    requires Closed(adj) && start in adj
    ensures var st := DfsRun(adj, start, k);
      && NoDup(Firsts(st.out)) && Elems(Firsts(st.out)) == st.visited
      && forall i :: 0 <= i < |st.out| ==> WalkOfLength(adj, start, st.out[i].0, st.out[i].1)
  {
    var st := DfsRun(adj, start, k);
    var walks, owalks := DfsRunInv(adj, start, k);
    forall i | 0 <= i < |st.out| ensures WalkOfLength(adj, start, st.out[i].0, st.out[i].1) {
      assert WalkBetween(adj, owalks[i], start, st.out[i].0);
    }
  }

  /** A DFS state with an empty stack has visited exactly the vertices
      reachable from the start. */
  lemma DfsRunExhausted(adj: Adjacency, start: Vertex, k: nat)
    requires Closed(adj) && start in adj && DfsRun(adj, start, k).stack == []
    ensures forall v :: v in DfsRun(adj, start, k).visited <==> Reachable(adj, start, v)
  {
    var st := DfsRun(adj, start, k);
    var walks, owalks := DfsRunInv(adj, start, k);
    forall v | Reachable(adj, start, v) ensures v in st.visited {
      var p :| WalkBetween(adj, p, start, v);
      ClosedReach(adj, st.visited, start, p, v);
    }
    forall v | v in st.visited ensures Reachable(adj, start, v) {
      var i :| 0 <= i < |Firsts(st.out)| && Firsts(st.out)[i] == v;
      assert WalkBetween(adj, owalks[i], start, v);
    }
  }

  /** The popping loop of DFS `__next__`: entries are popped until one holds
      an unvisited vertex, which is returned with the stack below it; `None`
      when the stack runs out. */
  method PopSettled(stack: seq<(Vertex, nat)>, visited: set<Vertex>)
    returns (rest: seq<(Vertex, nat)>, top: Option<(Vertex, nat)>)
    ensures top.None? <==> Settle(stack, visited) == []
    ensures top.None? ==> rest == []
    ensures top.Some? ==> Settle(stack, visited) == rest + [top.value] && top.value.0 !in visited
  {
    rest := stack;
    while rest != []
      invariant Settle(rest, visited) == Settle(stack, visited)
      decreases |rest|
    {
      var e := rest[|rest| - 1];
      ghost var before := rest;
      rest := rest[..|rest| - 1];
      if e.0 !in visited {
        assert before == rest + [e];
        return rest, Some(e);
      }
    }
    top := None;
  }

  /** One more call of `__next__` is one more step. */
  lemma DfsRunSucc(adj: Adjacency, start: Vertex, k: nat)
    ensures DfsRun(adj, start, k + 1) == DfsStep(adj, DfsRun(adj, start, k))
  {
  }

  /** What the popping loop returns determines the step and what it
      yields. */
  lemma DfsPopFacts(adj: Adjacency, st: DfsState, rest: seq<(Vertex, nat)>, top: Option<(Vertex, nat)>)
    requires top.None? <==> Settle(st.stack, st.visited) == []
    requires top.Some? ==> Settle(st.stack, st.visited) == rest + [top.value]
    requires top.Some? ==> top.value.0 in adj
    ensures DfsYield(st) == top
    ensures top.None? ==> DfsStep(adj, st) == DfsState([], st.visited, st.out)
    ensures top.Some? ==>
      DfsStep(adj, st) == DfsState(rest + Pushes(adj[top.value.0], st.visited + {top.value.0}, top.value.1 + 1),
                                   st.visited + {top.value.0}, st.out + [top.value])
  {
    if top.None? {
      DfsStepIdle(adj, st);
    } else {
      DfsStepUnfold(adj, st, rest, top.value.0, top.value.1);
    }
  }

  /** `v` is a neighbour of one of the first `j` vertices of `order`. */
  ghost predicate FoundBy(adj: Adjacency, order: seq<Vertex>, j: nat, v: Vertex) {
    exists m :: 0 <= m < j && m < |order| && order[m] in adj && v in adj[order[m]]
  }

  /** The order grows along edges: the first vertex is the start and every
      later one is a neighbour of a vertex before it. */
  ghost predicate Discovered(adj: Adjacency, start: Vertex, order: seq<Vertex>) {
    && (order != [] ==> order[0] == start)
    && forall j :: 0 < j < |order| ==> FoundBy(adj, order, j, order[j])
  }

  /** Before the first step the stack holds the start alone; after it, every
      stack entry is a neighbour of a yielded vertex. */
  ghost predicate StackFound(adj: Adjacency, start: Vertex, st: DfsState) {
    && (st.out == [] ==> st.stack == [(start, 0)] && st.visited == {})
    && (st.out != [] ==> forall i :: 0 <= i < |st.stack| ==> FoundBy(adj, Firsts(st.out), |st.out|, st.stack[i].0))
  }

  lemma FoundGrow(adj: Adjacency, order: seq<Vertex>, x: Vertex, j: nat, v: Vertex)
    requires FoundBy(adj, order, j, v)
    ensures FoundBy(adj, order + [x], j, v)
  {
    var m :| 0 <= m < j && m < |order| && order[m] in adj && v in adj[order[m]];
    assert (order + [x])[m] == order[m];
  }

  /** Appending `x`, a neighbour of a vertex of the order (or the start,
      first), keeps the order growing along edges. */
  lemma OutFound(adj: Adjacency, start: Vertex, order: seq<Vertex>, x: Vertex)
    requires Discovered(adj, start, order)
    requires order == [] ==> x == start
    requires order != [] ==> FoundBy(adj, order, |order|, x)
    ensures Discovered(adj, start, order + [x])
  {
    var order' := order + [x];
    forall j | 0 < j < |order'| ensures FoundBy(adj, order', j, order'[j]) {
      if j < |order| {
        FoundGrow(adj, order, x, j, order[j]);
      } else {
        FoundGrow(adj, order, x, j, x);
      }
    }
  }

  /** The entries left below the yielded top, then its pushed neighbours,
      are all neighbours of yielded vertices. */
  lemma PushedFound(adj: Adjacency, order: seq<Vertex>, rest: seq<(Vertex, nat)>, x: Vertex, P: seq<(Vertex, nat)>)
    requires x in adj && forall k :: 0 <= k < |P| ==> P[k].0 in adj[x]
    requires forall i :: 0 <= i < |rest| ==> order == [] || FoundBy(adj, order, |order|, rest[i].0)
    requires order == [] ==> rest == []
    ensures forall i :: 0 <= i < |rest + P| ==> FoundBy(adj, order + [x], |order| + 1, (rest + P)[i].0)
  {
    var order' := order + [x];
    forall i | 0 <= i < |rest + P| ensures FoundBy(adj, order', |order'|, (rest + P)[i].0) {
      if i < |rest| {
        FoundGrow(adj, order, x, |order|, rest[i].0);
      } else {
        assert (rest + P)[i] == P[i - |rest|];
        assert order'[|order|] == x;
      }
    }
  }

  /** Expanding the settled top `(x, d)` keeps the order growing along
      edges, on explicit values. */
  lemma ExpandFound(adj: Adjacency, start: Vertex, st: DfsState, rest: seq<(Vertex, nat)>, x: Vertex, d: nat,
                    st': DfsState)
    requires Discovered(adj, start, Firsts(st.out)) && StackFound(adj, start, st)
    requires x in adj && |rest| < |st.stack| && st.stack[|rest|] == (x, d)
    requires forall i :: 0 <= i < |rest| ==> rest[i] == st.stack[i]
    requires st' == DfsState(rest + Pushes(adj[x], st.visited + {x}, d + 1), st.visited + {x}, st.out + [(x, d)])
    ensures Discovered(adj, start, Firsts(st'.out)) && StackFound(adj, start, st')
  {
    PushesSpec(adj[x], st.visited + {x}, d + 1);
    if st.out != [] {
      assert FoundBy(adj, Firsts(st.out), |st.out|, x);
    }
    FirstsAppend(st.out, [(x, d)]);
    assert Firsts(st'.out) == Firsts(st.out) + [x];
    OutFound(adj, start, Firsts(st.out), x);
    PushedFound(adj, Firsts(st.out), rest, x, Pushes(adj[x], st.visited + {x}, d + 1));
  }

  /** One DFS step keeps the yielded order growing along edges. */
  lemma DfsStepFound(adj: Adjacency, start: Vertex, st: DfsState)
    requires Closed(adj) && start in adj
    requires Discovered(adj, start, Firsts(st.out)) && StackFound(adj, start, st)
    ensures Discovered(adj, start, Firsts(DfsStep(adj, st).out)) && StackFound(adj, start, DfsStep(adj, st))
  {
    var s := Settle(st.stack, st.visited);
    SettleSpec(st.stack, st.visited);
    if s == [] {
      DfsStepIdle(adj, st);
    } else {
      var n := |s| - 1;
      var x, d := s[n].0, s[n].1;
      assert s[n] == st.stack[n];
      assert x in adj by {
        if st.out != [] {
          assert FoundBy(adj, Firsts(st.out), |st.out|, st.stack[n].0);
        }
      }
      assert s == s[..n] + [(x, d)];
      DfsStepUnfold(adj, st, s[..n], x, d);
      ExpandFound(adj, start, st, s[..n], x, d, DfsStep(adj, st));
    }
  }

  /** Every DFS state yields its vertices along edges from the start. */
  lemma {:induction false} DfsRunFound(adj: Adjacency, start: Vertex, k: nat)
    requires Closed(adj) && start in adj
    ensures Discovered(adj, start, Firsts(DfsRun(adj, start, k).out)) && StackFound(adj, start, DfsRun(adj, start, k))
    decreases k
  {
    if k > 0 {
      DfsRunFound(adj, start, k - 1);
      DfsStepFound(adj, start, DfsRun(adj, start, k - 1));
    }
  }

  /** The work of one DFS `__next__` on the fields of the cursor after
      `steps` calls: pop to the settled top, mark it and push its unvisited
      neighbours. */
  method DfsAdvance(adj: Adjacency, ghost start: Vertex, ghost steps: nat,
                    stack: seq<(Vertex, nat)>, visited: set<Vertex>, ghost yielded: seq<(Vertex, nat)>)
    returns (r: Option<(Vertex, nat)>, stack': seq<(Vertex, nat)>, visited': set<Vertex>,
             ghost yielded': seq<(Vertex, nat)>)
    requires Closed(adj) && start in adj && DfsState(stack, visited, yielded) == DfsRun(adj, start, steps)
    ensures r == DfsYield(DfsState(stack, visited, yielded))
    ensures yielded' == if r.Some? then yielded + [r.value] else yielded
    ensures DfsState(stack', visited', yielded') == DfsStep(adj, DfsState(stack, visited, yielded))
    ensures DfsState(stack', visited', yielded') == DfsRun(adj, start, steps + 1)
  {
    DfsRunSucc(adj, start, steps);
    ghost var st := DfsState(stack, visited, yielded);
    var rest, top := PopSettled(stack, visited);
    DfsSettledVertex(adj, start, steps);
    DfsPopFacts(adj, st, rest, top);
    if top.None? {
      return None, [], visited, yielded;
    }
    var (x, d) := top.value;
    var vis := visited + {x};
    var pushed := DfsPush(rest, adj[x], vis, d + 1);
    r, stack', visited', yielded' := Some((x, d)), pushed, vis, yielded + [(x, d)];
  }

  class DfsIterator {
    /** The adjacency table of the graph the cursor walks. */
    const adj: Adjacency
    const start: Vertex
    var stack: seq<(Vertex, nat)>
    var visited: set<Vertex>
    /** The entries yielded so far. */
    ghost var yielded: seq<(Vertex, nat)>
    /** How many calls of `__next__` were made. */
    ghost var steps: nat

    ghost predicate Valid()
      reads this
    {
      && Closed(adj) && start in adj
      && DfsState(stack, visited, yielded) == DfsRun(adj, start, steps)
    }

    /** `DFSIterator(graph, start)`; the missing-start error is raised by
        `Traversal.DfsIter`. */
    constructor (g: Domain.Graph, s: Vertex)
      requires g.Valid() && s in g.adj
      ensures Valid() && adj == g.adj && start == s
      ensures stack == [(s, 0)] && visited == {} && yielded == []
    {
      adj, start := g.adj, s;
      stack, visited := [(s, 0)], {};
      yielded, steps := [], 0;
    }

    /** `__next__`: `None` is `StopIteration`. Entries are popped until one
        holds an unvisited vertex; that vertex is marked and yielded, and its
        unvisited neighbours are pushed in reverse order one level deeper. */
    method Next() returns (r: Option<(Vertex, nat)>)
      requires Valid()
      modifies this
      ensures Valid()
      ensures r == DfsYield(old(DfsState(stack, visited, yielded)))
      ensures DfsState(stack, visited, yielded) == DfsStep(adj, old(DfsState(stack, visited, yielded)))
    {
      ghost var st := DfsState(stack, visited, yielded);
      var stack', visited';
      ghost var yielded';
      r, stack', visited', yielded' := DfsAdvance(adj, start, steps, stack, visited, yielded);
      stack, visited, yielded, steps := stack', visited', yielded', steps + 1;
      assert DfsState(stack, visited, yielded) == DfsStep(adj, st) == DfsRun(adj, start, steps);
    }

    /** The yielded entries name the visited vertices, each once, and each
        depth is the length of a walk from the start. */
    lemma Sound()
      requires Valid()
      ensures NoDup(Firsts(yielded)) && Elems(Firsts(yielded)) == visited
      ensures forall i :: 0 <= i < |yielded| ==> WalkOfLength(adj, start, yielded[i].0, yielded[i].1)
    {
      DfsRunSound(adj, start, steps);
    }

    /** The vertices are yielded along edges: the start first, then each a
        neighbour of a vertex yielded before it. */
    lemma Discovers()
      requires Valid()
      ensures Discovered(adj, start, Firsts(yielded))
    {
      DfsRunFound(adj, start, steps);
    }

    /** The visited vertices are vertices of the graph. */
    lemma VisitedInGraph()
      requires Valid()
      ensures visited <= adj.Keys
    {
      Sound();
      forall v | v in visited ensures v in adj {
        var i :| 0 <= i < |yielded| && Firsts(yielded)[i] == v;
        assert WalkOfLength(adj, start, yielded[i].0, yielded[i].1);
      }
    }

    /** Once the stack is empty the cursor has visited exactly the vertices
        reachable from the start. */
    lemma Exhausted()
      requires Valid() && stack == []
      ensures forall v :: v in visited <==> Reachable(adj, start, v)
    {
      DfsRunExhausted(adj, start, steps);
    }
  }

  /** `dfs_iter`: a cursor from a vertex of the graph. */
  method DfsIter(g: Domain.Graph, s: Vertex) returns (r: Result<DfsIterator>)
    requires g.Valid()
    ensures r.Success? <==> s in g.adj
    ensures r.Success? ==> fresh(r.value) && r.value.Valid() && r.value.adj == g.adj && r.value.start == s
    ensures r.Success? ==> r.value.stack == [(s, 0)] && r.value.visited == {}
    ensures r.Failure? ==> r.error == UnknownVertex
  {
    if s !in g.adj {
      return Failure(UnknownVertex);
    }
    var it := new DfsIterator(g, s);
    r := Success(it);
  }
}
