/** The maximum-clique search `find_maximum_cliques_backtracking`: every
    index-increasing subsequence of the vertex list is visited once, depth
    first, and the largest cliques met are kept in the order they are met. */
module Cliques {
  import opened Common
  import opened GraphModel
  import Domain

  // ----------------------------------------------------------------------
  // Cliques

  /** `is_clique`: every later entry of the candidate is a neighbour of every
      earlier one. */
  ghost predicate IsClique(adj: Adjacency, c: seq<Vertex>) {
    forall i, j :: 0 <= i < j < |c| ==> c[i] in adj && c[j] in adj[c[i]]
  }

  // ----------------------------------------------------------------------
  // The order of the visits

  /** The candidates `backtrack(k, cur)` examines, in order: `cur` itself,
      then, for each index `i` from `k` on, everything examined after
      appending `vs[i]`. */
  function Visits(vs: seq<Vertex>, k: nat, cur: seq<Vertex>): seq<seq<Vertex>>
    requires k <= |vs|
    decreases |vs| - k, 1
  {
    [cur] + VisitsFrom(vs, k, cur)
  }

  /** The candidates examined by the loop of `backtrack` from index `i` on. */
  function VisitsFrom(vs: seq<Vertex>, i: nat, cur: seq<Vertex>): seq<seq<Vertex>>
    requires i <= |vs|
    decreases |vs| - i, 0
  {
    if i == |vs| then [] else Visits(vs, i + 1, cur + [vs[i]]) + VisitsFrom(vs, i + 1, cur)
  }

  /** `t` is an index-increasing subsequence of `vs[k..]`: its entries are
      vertices of the list at index `k` or later, in list order. */
  ghost predicate Ordered(vs: seq<Vertex>, k: nat, t: seq<Vertex>) {
    && (forall i :: 0 <= i < |t| ==> t[i] in vs && k <= IndexOf(vs, t[i]))
    && (forall i :: 0 < i < |t| ==> IndexOf(vs, t[i - 1]) < IndexOf(vs, t[i]))
  }

  lemma IndexOfAt(vs: seq<Vertex>, i: nat)
    requires NoDup(vs) && i < |vs|
    ensures IndexOf(vs, vs[i]) == i
  {
    var j := IndexOf(vs, vs[i]);
    assert vs[j] == vs[i];
  }

  lemma OrderedCons(vs: seq<Vertex>, i: nat, t: seq<Vertex>)
    requires NoDup(vs) && i < |vs| && Ordered(vs, i + 1, t)
    ensures Ordered(vs, i, [vs[i]] + t)
  {
    IndexOfAt(vs, i);
    var u := [vs[i]] + t;
    forall j | 0 < j < |u|
      ensures IndexOf(vs, u[j - 1]) < IndexOf(vs, u[j])
    {
      assert u[j] == t[j - 1];
      if j > 1 {
        assert u[j - 1] == t[j - 2];
      }
    }
  }

  lemma OrderedUncons(vs: seq<Vertex>, k: nat, t: seq<Vertex>)
    requires Ordered(vs, k, t) && t != []
    ensures k <= IndexOf(vs, t[0]) < |vs|
    ensures Ordered(vs, IndexOf(vs, t[0]) + 1, t[1..])
  {
    var r := t[1..];
    forall i | 0 <= i < |r|
      ensures IndexOf(vs, t[0]) < IndexOf(vs, r[i])
    {
      OrderedChain(vs, k, t, i + 1);
    }
    forall i | 0 < i < |r|
      ensures IndexOf(vs, r[i - 1]) < IndexOf(vs, r[i])
    {
      assert r[i - 1] == t[i] && r[i] == t[i + 1];
    }
  }

  /** Positions only grow along an ordered sequence. */
  lemma {:induction false} OrderedChain(vs: seq<Vertex>, k: nat, t: seq<Vertex>, j: nat)
    requires Ordered(vs, k, t) && 0 < j < |t|
    ensures IndexOf(vs, t[0]) < IndexOf(vs, t[j])
  {
    if j > 1 {
      OrderedChain(vs, k, t, j - 1);
    }
  }

  /** Every candidate `backtrack(k, cur)` examines is `cur` followed by an
      index-increasing subsequence of `vs[k..]`. */
  lemma {:induction false} VisitsSound(vs: seq<Vertex>, k: nat, cur: seq<Vertex>)
    requires NoDup(vs) && k <= |vs|
    ensures forall w :: w in Visits(vs, k, cur) ==> |cur| <= |w| && w[..|cur|] == cur && Ordered(vs, k, w[|cur|..])
    decreases |vs| - k, 1
  {
    VisitsFromSound(vs, k, cur);
    assert cur[..|cur|] == cur && cur[|cur|..] == [];
  }

  /** The loop from `i` on examines only extensions of `cur` by a non-empty
      index-increasing subsequence of `vs[i..]`. */
  lemma {:induction false} VisitsFromSound(vs: seq<Vertex>, i: nat, cur: seq<Vertex>)
    requires NoDup(vs) && i <= |vs|
    ensures forall w :: w in VisitsFrom(vs, i, cur) ==>
      |cur| < |w| && w[..|cur|] == cur && Ordered(vs, i, w[|cur|..])
    decreases |vs| - i, 0
  {
    if i < |vs| {
      var c := cur + [vs[i]];
      VisitsSound(vs, i + 1, c);
      VisitsFromSound(vs, i + 1, cur);
      forall w | w in Visits(vs, i + 1, c)
        ensures |cur| < |w| && w[..|cur|] == cur && Ordered(vs, i, w[|cur|..])
      {
        assert w[..|c|] == c;
        assert w[..|cur|] == c[..|cur|];
        assert w[|cur|..] == [vs[i]] + w[|c|..] by {
          assert w[|cur|] == c[|cur|];
        }
        OrderedCons(vs, i, w[|c|..]);
      }
    }
  }

  /** The loop from `k` reaches the call that appends `vs[j]`, for every
      `j` from `k` on. */
  lemma {:induction false} VisitsFromHas(vs: seq<Vertex>, k: nat, j: nat, cur: seq<Vertex>, w: seq<Vertex>)
    requires k <= j < |vs| && w in Visits(vs, j + 1, cur + [vs[j]])
    ensures w in VisitsFrom(vs, k, cur)
    decreases j - k
  {
    if k < j {
      VisitsFromHas(vs, k + 1, j, cur, w);
    }
  }

  /** Every index-increasing subsequence of `vs[k..]`, appended to `cur`, is
      examined by `backtrack(k, cur)`. */
  lemma {:induction false} VisitsComplete(vs: seq<Vertex>, k: nat, cur: seq<Vertex>, t: seq<Vertex>)
    requires NoDup(vs) && k <= |vs| && Ordered(vs, k, t)
    ensures cur + t in Visits(vs, k, cur)
    decreases |t|
  {
    if t == [] {
      assert cur + t == cur;
    } else {
      var j := IndexOf(vs, t[0]);
      OrderedUncons(vs, k, t);
      VisitsComplete(vs, j + 1, cur + [t[0]], t[1..]);
      assert (cur + [t[0]]) + t[1..] == cur + t;
      VisitsFromHas(vs, k, j, cur, cur + t);
    }
  }

  /** No candidate is examined twice. */
  lemma {:induction false} VisitsOnce(vs: seq<Vertex>, k: nat, cur: seq<Vertex>)
    requires NoDup(vs) && k <= |vs|
    ensures NoDup(Visits(vs, k, cur))
    decreases |vs| - k, 1
  {
    VisitsFromOnce(vs, k, cur);
    VisitsFromSound(vs, k, cur);
    var B := VisitsFrom(vs, k, cur);
    forall q | 0 <= q < |B|
      ensures [cur][0] != B[q]
    {
      assert B[q] in B;
    }
    DisjointJoin([cur], B);
  }

  lemma {:induction false} VisitsFromOnce(vs: seq<Vertex>, i: nat, cur: seq<Vertex>)
    requires NoDup(vs) && i <= |vs|
    ensures NoDup(VisitsFrom(vs, i, cur))
    decreases |vs| - i, 0
  {
    if i < |vs| {
      var c := cur + [vs[i]];
      VisitsOnce(vs, i + 1, c);
      VisitsFromOnce(vs, i + 1, cur);
      VisitsSound(vs, i + 1, c);
      VisitsFromSound(vs, i + 1, cur);
      IndexOfAt(vs, i);
      var A, B := Visits(vs, i + 1, c), VisitsFrom(vs, i + 1, cur);
      forall p, q | 0 <= p < |A| && 0 <= q < |B|
        ensures A[p] != B[q]
      {
        assert A[p] in A && B[q] in B;
        assert A[p][..|c|] == c;
        assert A[p][|cur|] == vs[i];
        assert B[q][|cur|..][0] == B[q][|cur|];
      }
      DisjointJoin(A, B);
    }
  }

  /** Two sequences without repeats and without common entries join into one
      without repeats. */
  lemma DisjointJoin<T>(a: seq<T>, b: seq<T>)
    requires NoDup(a) && NoDup(b)
    requires forall p, q :: 0 <= p < |a| && 0 <= q < |b| ==> a[p] != b[q]
    ensures NoDup(a + b)
  {
    var r := a + b;
    forall i, j | 0 <= i < j < |r|
      ensures r[i] != r[j]
    {
      if j < |a| {
        assert r[i] == a[i] && r[j] == a[j];
      } else if i >= |a| {
        assert r[i] == b[i - |a|] && r[j] == b[j - |a|];
      } else {
        assert r[i] == a[i] && r[j] == b[j - |a|];
      }
    }
  }

  // ----------------------------------------------------------------------
  // Tracking the largest cliques

  /** The nonlocal state of the search: `max_cliques` and `max_size`. */
  datatype Best = Best(cliques: seq<seq<Vertex>>, size: nat)

  /** The tracking rule for one examined candidate `c`: a strictly larger
      clique replaces the list, a clique of the current size is appended,
      anything else changes nothing. */
  ghost function Track(adj: Adjacency, b: Best, c: seq<Vertex>): Best {
    if !IsClique(adj, c) then b
    else if |c| > b.size then Best([c], |c|)
    else if |c| == b.size then Best(b.cliques + [c], b.size)
    else b
  }

  /** The tracking rule applied to the candidates `V` in order. */
  ghost function Run(adj: Adjacency, b: Best, V: seq<seq<Vertex>>): Best
    decreases |V|
  {
    if V == [] then b else Run(adj, Track(adj, b, V[0]), V[1..])
  }

  lemma {:induction false} RunConcat(adj: Adjacency, b: Best, A: seq<seq<Vertex>>, B: seq<seq<Vertex>>)
    ensures Run(adj, b, A + B) == Run(adj, Run(adj, b, A), B)
    decreases |A|
  {
    if A == [] {
      assert A + B == B;
    } else {
      assert (A + B)[1..] == A[1..] + B;
      RunConcat(adj, Track(adj, b, A[0]), A[1..], B);
    }
  }

  /** The length of the largest clique among `V`, zero when there is none. */
  ghost function MaxLen(adj: Adjacency, V: seq<seq<Vertex>>): nat
    decreases |V|
  {
    if V == [] then 0
    else
      var m := MaxLen(adj, V[..|V| - 1]);
      var c := V[|V| - 1];
      if IsClique(adj, c) && |c| > m then |c| else m
  }

  /** The cliques of length `m` among `V`, in order. */
  ghost function Keep(adj: Adjacency, V: seq<seq<Vertex>>, m: nat): seq<seq<Vertex>>
    decreases |V|
  {
    if V == [] then []
    else
      var c := V[|V| - 1];
      Keep(adj, V[..|V| - 1], m) + (if IsClique(adj, c) && |c| == m then [c] else [])
  }

  /** No clique of `V` is longer than `MaxLen`. */
  lemma {:induction false} MaxLenBound(adj: Adjacency, V: seq<seq<Vertex>>)
    ensures forall c :: c in V && IsClique(adj, c) ==> |c| <= MaxLen(adj, V)
    decreases |V|
  {
    if V != [] {
      var P := V[..|V| - 1];
      MaxLenBound(adj, P);
      assert V == P + [V[|V| - 1]];
    }
  }

  /** `Keep` holds exactly the cliques of `V` of length `m`. */
  lemma {:induction false} KeepMembers(adj: Adjacency, V: seq<seq<Vertex>>, m: nat)
    ensures forall c :: c in Keep(adj, V, m) <==> c in V && IsClique(adj, c) && |c| == m
    decreases |V|
  {
    if V != [] {
      var P := V[..|V| - 1];
      KeepMembers(adj, P, m);
      assert V == P + [V[|V| - 1]];
    }
  }

  /** `Keep` repeats nothing when `V` repeats nothing. */
  lemma {:induction false} KeepOnce(adj: Adjacency, V: seq<seq<Vertex>>, m: nat)
    requires NoDup(V)
    ensures NoDup(Keep(adj, V, m))
    decreases |V|
  {
    if V != [] {
      var P := V[..|V| - 1];
      var c := V[|V| - 1];
      assert V == P + [c];
      assert NoDup(P) by {
        forall i, j | 0 <= i < j < |P| ensures P[i] != P[j] {
          assert P[i] == V[i] && P[j] == V[j];
        }
      }
      KeepOnce(adj, P, m);
      if IsClique(adj, c) && |c| == m {
        KeepMembers(adj, P, m);
        assert c !in P by {
          forall i | 0 <= i < |P| ensures P[i] != c {
            assert P[i] == V[i];
          }
        }
        NoDupAppend(Keep(adj, P, m), c);
      }
    }
  }

  /** A clique longer than every clique of `V` keeps nothing. */
  lemma {:induction false} KeepAbove(adj: Adjacency, V: seq<seq<Vertex>>, n: nat)
    requires MaxLen(adj, V) < n
    ensures Keep(adj, V, n) == []
    decreases |V|
  {
    if V != [] {
      KeepAbove(adj, V[..|V| - 1], n);
    }
  }

  /** The largest length is met by some clique unless it is zero. */
  lemma {:induction false} MaxLenMet(adj: Adjacency, V: seq<seq<Vertex>>)
    ensures MaxLen(adj, V) > 0 ==> Keep(adj, V, MaxLen(adj, V)) != []
    decreases |V|
  {
    if V != [] {
      var P := V[..|V| - 1];
      var c := V[|V| - 1];
      MaxLenMet(adj, P);
      if !(IsClique(adj, c) && |c| > MaxLen(adj, P)) && MaxLen(adj, P) > 0 {
        assert Keep(adj, P, MaxLen(adj, P)) != [];
      }
    }
  }

  /** Tracking from the empty state ends with the largest clique length and
      the cliques of that length, in the order they were examined. */
  lemma {:induction false} RunKeeps(adj: Adjacency, V: seq<seq<Vertex>>)
    ensures Run(adj, Best([], 0), V) == Best(Keep(adj, V, MaxLen(adj, V)), MaxLen(adj, V))
    decreases |V|
  {
    if V != [] {
      var P := V[..|V| - 1];
      var c := V[|V| - 1];
      assert V == P + [c];
      RunKeeps(adj, P);
      RunConcat(adj, Best([], 0), P, [c]);
      assert Run(adj, Run(adj, Best([], 0), P), [c]) == Track(adj, Run(adj, Best([], 0), P), c);
      var m := MaxLen(adj, P);
      if IsClique(adj, c) && |c| > m {
        KeepAbove(adj, P, |c|);
      }
    }
  }

  /** What `find_maximum_cliques_backtracking` returns on an undirected
      graph with vertex list `vs`: every entry is a clique, listed in vertex
      order, of the largest length any such clique has, every clique of that
      length is listed, none twice, and the list is never empty (the empty
      candidate is a clique). */
  lemma MaximumCliques(adj: Adjacency, vs: seq<Vertex>)
    requires NoDup(vs)
    ensures var b := Run(adj, Best([], 0), Visits(vs, 0, []));
      && (forall c :: c in b.cliques <==> Ordered(vs, 0, c) && IsClique(adj, c) && |c| == b.size)
      && (forall t :: Ordered(vs, 0, t) && IsClique(adj, t) ==> |t| <= b.size)
      && NoDup(b.cliques)
      && b.cliques != []
  {
    var V := Visits(vs, 0, []);
    var m := MaxLen(adj, V);
    RunKeeps(adj, V);
    KeepMembers(adj, V, m);
    VisitsSound(vs, 0, []);
    forall w | w in V
      ensures Ordered(vs, 0, w)
    {
      assert w[0..] == w;
    }
    forall t | Ordered(vs, 0, t)
      ensures t in V
    {
      VisitsComplete(vs, 0, [], t);
      assert [] + t == t;
    }
    MaxLenBound(adj, V);
    VisitsOnce(vs, 0, []);
    KeepOnce(adj, V, m);
    MaxLenMet(adj, V);
    assert V[0] == [] && IsClique(adj, []);
  }

  /** With no vertices the only candidate is the empty one, so the answer
      is the one empty clique. */
  lemma NoVertices(adj: Adjacency)
    ensures Run(adj, Best([], 0), Visits([], 0, [])) == Best([[]], 0)
  {
    assert Visits([], 0, []) == [[]];
    assert IsClique(adj, []);
  }

  // ----------------------------------------------------------------------
  // The search

  /** The closure of `find_maximum_cliques_backtracking`: the graph, the
      copied vertex list, the nonlocal `max_cliques` and `max_size`, and the
      list `current` that every call of `backtrack` appends to and pops. */
  class CliqueSearch {
    const g: Domain.Graph
    const vertices: seq<Vertex>
    var maxCliques: seq<seq<Vertex>>
    var maxSize: nat
    var current: seq<Vertex>

    /** The copied list names each vertex once, and `current` holds only
        vertices. */
    ghost predicate Valid()
      reads this, g
    {
      && NoDup(vertices) && (forall v :: v in vertices <==> v in g.adj)
      && (forall x :: x in current ==> x in g.adj)
    }

    constructor (g: Domain.Graph)
      requires g.Valid()
      ensures Valid() && this.g == g && vertices == g.vertices
      ensures maxCliques == [] && maxSize == 0 && current == []
    {
      this.g := g;
      vertices := g.ReturnVerticesList();
      maxCliques, maxSize, current := [], 0, [];
    }

    /** `is_clique`, with its two nested loops: false at the first later
        entry missing from an earlier entry's neighbour list. */
    method IsCliqueOf(candidate: seq<Vertex>) returns (b: bool)
      requires forall x :: x in candidate ==> x in g.adj
      ensures b <==> IsClique(g.adj, candidate)
    {
      var i := 0;
      while i < |candidate|
        invariant 0 <= i <= |candidate|
        invariant forall p, q :: 0 <= p < i && p < q < |candidate| ==> candidate[q] in g.adj[candidate[p]]
      {
        var j := i + 1;
        while j < |candidate|
          invariant i + 1 <= j <= |candidate|
          invariant forall q :: i < q < j ==> candidate[q] in g.adj[candidate[i]]
        {
          var nb := g.Neighbours(candidate[i]);
          if candidate[j] !in nb.value {
            return false;
          }
          j := j + 1;
        }
        i := i + 1;
      }
      return true;
    }

    /** The first step of `backtrack`: the tracking rule on `current`. */
    method TrackCurrent()
      requires Valid()
      modifies this
      ensures Valid() && current == old(current)
      ensures Best(maxCliques, maxSize) == Track(g.adj, old(Best(maxCliques, maxSize)), current)
    {
      var isClique := IsCliqueOf(current);
      if isClique {
        if |current| > maxSize {
          maxCliques, maxSize := [current], |current|;
        } else if |current| == maxSize {
          maxCliques := maxCliques + [current];
        }
      }
    }

    /** `backtrack(startIndex, current)`: the tracking rule on `current`,
        then one recursive call per later index with that vertex appended
        and popped again. It visits exactly `Visits(vertices, startIndex,
        current)` and leaves `current` as it found it. */
    method Backtrack(startIndex: nat)
      requires Valid() && startIndex <= |vertices|
      modifies this
      ensures Valid() && current == old(current)
      ensures Best(maxCliques, maxSize) == Run(g.adj, old(Best(maxCliques, maxSize)), Visits(vertices, startIndex, old(current)))
      decreases |vertices| - startIndex
    {
      ghost var cur := current;
      TrackCurrent();
      ghost var goal := Run(g.adj, Best(maxCliques, maxSize), VisitsFrom(vertices, startIndex, cur));
      var i := startIndex;
      while i < |vertices|
        invariant startIndex <= i <= |vertices|
        invariant Valid() && current == cur
        invariant Run(g.adj, Best(maxCliques, maxSize), VisitsFrom(vertices, i, cur)) == goal
      {
        ghost var before := Best(maxCliques, maxSize);
        current := current + [vertices[i]];
        Backtrack(i + 1);
        current := current[..|current| - 1];
        RunConcat(g.adj, before, Visits(vertices, i + 1, cur + [vertices[i]]), VisitsFrom(vertices, i + 1, cur));
        i := i + 1;
      }
    }
  }

  /** `find_maximum_cliques_backtracking`: a directed graph raises; otherwise
      the search runs from index 0 with the empty candidate, and its list of
      largest cliques is returned. */
  method FindMaximumCliques(g: Domain.Graph) returns (r: Result<seq<seq<Vertex>>>)
    requires g.Valid()
    ensures r.Failure? <==> g.isDirected
    ensures r.Failure? ==> r.error == NotUndirected
    ensures r.Success? ==> r.value == Run(g.adj, Best([], 0), Visits(g.vertices, 0, [])).cliques
    ensures r.Success? ==> NoDup(r.value) && r.value != []
    ensures r.Success? ==> forall c :: c in r.value ==> IsClique(g.adj, c) && Ordered(g.vertices, 0, c)
    ensures r.Success? ==> forall c, t :: c in r.value && Ordered(g.vertices, 0, t) && IsClique(g.adj, t) ==>
      |t| <= |c| && (|t| == |c| ==> t in r.value)
  {
    if g.isDirected {
      return Failure(NotUndirected);
    }
    var search := new CliqueSearch(g);
    search.Backtrack(0);
    r := Success(search.maxCliques);
    MaximumCliques(g.adj, g.vertices);
  }
}
