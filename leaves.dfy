/** `find_all_leaf_nodes` of `Assigement4.py`: a depth-first walk from the
    vertex '1' in which every visited vertex claims as its children the
    neighbours that have no parent yet; the visited vertices that claim
    none are reported as leaves. */
module LeafNodes {
  import opened Common
  import opened GraphModel
  import Domain
  import Traversal

  /** The vertex the walk starts from. */
  const Root: Vertex := "1"

  /** `parent_map` and `child_count`. A parent is `None` only for an entry
      present before the walk starts. */
  datatype Scan = Scan(parent: map<Vertex, Option<Vertex>>, children: map<Vertex, nat>)

  /** The parent map after `x` walks `ns` in order and takes as its child
      every neighbour that has no parent yet. */
  function Claim(pm: map<Vertex, Option<Vertex>>, ns: seq<Vertex>, x: Vertex): map<Vertex, Option<Vertex>>
    decreases |ns|
  {
    if ns == [] then pm
    else
      var p := Claim(pm, ns[..|ns| - 1], x);
      var n := ns[|ns| - 1];
      if n in p then p else p[n := Some(x)]
  }

  /** Visiting `x` with neighbour list `ns`: it claims its unclaimed
      neighbours and its child count is how many it claimed. */
  function VisitScan(s: Scan, x: Vertex, ns: seq<Vertex>): Scan {
    Scan(Claim(s.parent, ns, x), s.children[x := |Elems(ns) - s.parent.Keys|])
  }

  /** The two tables after visiting the vertices of `order` in turn,
      starting from the parent map `pm0`. */
  function ScanOrder(adj: Adjacency, order: seq<Vertex>, pm0: map<Vertex, Option<Vertex>>): Scan
    requires forall v :: v in order ==> v in adj
    decreases |order|
  {
    if order == [] then Scan(pm0, map[])
    else
      var x := order[|order| - 1];
      VisitScan(ScanOrder(adj, order[..|order| - 1], pm0), x, adj[x])
  }

  /** The closing list comprehension: the visited vertices whose child
      count is zero (or missing). */
  function Leaves(s: Scan, visited: set<Vertex>): set<Vertex> {
    set v | v in visited && GetOr(s.children, v, 0) == 0
  }

  /** `order` is everything a depth-first cursor from `start` yields before
      it stops. */
  ghost predicate DfsOrder(adj: Adjacency, start: Vertex, order: seq<Vertex>) {
    exists k: nat :: DfsRunEnds(adj, start, k, order)
  }

  ghost predicate DfsRunEnds(adj: Adjacency, start: Vertex, k: nat, order: seq<Vertex>) {
    Traversal.DfsRun(adj, start, k).stack == [] && Firsts(Traversal.DfsRun(adj, start, k).out) == order
  }

  // ----------------------------------------------------------------------
  // Claiming

  /** A claim keeps every existing parent, gives `x` to exactly the
      neighbours without one, and adds no other key. */
  lemma {:induction false} ClaimSpec(pm: map<Vertex, Option<Vertex>>, ns: seq<Vertex>, x: Vertex)
    ensures Claim(pm, ns, x).Keys == pm.Keys + Elems(ns)
    ensures forall n :: n in pm ==> Claim(pm, ns, x)[n] == pm[n]
    ensures forall n :: n in ns && n !in pm ==> Claim(pm, ns, x)[n] == Some(x)
    decreases |ns|
  {
    if ns != [] {
      var t := ns[..|ns| - 1];
      ClaimSpec(pm, t, x);
      assert ns == t + [ns[|ns| - 1]];
      assert Elems(ns) == Elems(t) + {ns[|ns| - 1]};
    }
  }

  /** Counting the neighbours claimed so far: one more neighbour adds one
      exactly when neither the initial map nor an earlier neighbour has it. */
  lemma CountStep(K: set<Vertex>, ns: seq<Vertex>, j: nat)
    requires j < |ns|
    ensures ns[j] !in K + Elems(ns[..j]) ==> |Elems(ns[..j + 1]) - K| == |Elems(ns[..j]) - K| + 1
    ensures ns[j] in K + Elems(ns[..j]) ==> Elems(ns[..j + 1]) - K == Elems(ns[..j]) - K
  {
    assert ns[..j + 1] == ns[..j] + [ns[j]];
    assert Elems(ns[..j + 1]) == Elems(ns[..j]) + {ns[j]};
    if ns[j] !in K + Elems(ns[..j]) {
      assert Elems(ns[..j + 1]) - K == (Elems(ns[..j]) - K) + {ns[j]};
    }
  }

  /** How many neighbours `x` claims while it walks `ns`. */
  function Claimed(pm: map<Vertex, Option<Vertex>>, ns: seq<Vertex>, x: Vertex): nat
    decreases |ns|
  {
    if ns == [] then 0
    else
      var t := ns[..|ns| - 1];
      Claimed(pm, t, x) + if ns[|ns| - 1] in Claim(pm, t, x) then 0 else 1
  }

  /** What one more neighbour does to the parent map and the count of a
      visit. */
  lemma ClaimNext(pm0: map<Vertex, Option<Vertex>>, ns: seq<Vertex>, x: Vertex, j: nat)
    requires j < |ns|
    ensures var pm := Claim(pm0, ns[..j], x);
      Claim(pm0, ns[..j + 1], x) == if ns[j] in pm then pm else pm[ns[j] := Some(x)]
    ensures var pm := Claim(pm0, ns[..j], x);
      Claimed(pm0, ns[..j + 1], x) == Claimed(pm0, ns[..j], x) + if ns[j] in pm then 0 else 1
  {
    assert ns[..j + 1][..j] == ns[..j];
  }

  /** The count of a visit is the number of distinct neighbours that had no
      parent before it. */
  lemma {:induction false} ClaimedCount(pm0: map<Vertex, Option<Vertex>>, ns: seq<Vertex>, x: Vertex)
    ensures Claimed(pm0, ns, x) == |Elems(ns) - pm0.Keys|
    decreases |ns|
  {
    if ns != [] {
      var j := |ns| - 1;
      assert ns[..j + 1] == ns;
      ClaimedCount(pm0, ns[..j], x);
      ClaimNext(pm0, ns, x, j);
      ClaimSpec(pm0, ns[..j], x);
      CountStep(pm0.Keys, ns, j);
    }
  }

  /** The loop body of `find_all_leaf_nodes`: the child count of `current`
      starts at zero, and every neighbour without a parent gets `current`
      as parent and adds one to the count. */
  method Visit(current: Vertex, ns: seq<Vertex>, s0: Scan) returns (s: Scan)
    ensures s.parent == Claim(s0.parent, ns, current)
    ensures s.children == s0.children[current := |Elems(ns) - s0.parent.Keys|]
  {
    var pm := s0.parent;
    var count := 0;
    assert ns[..0] == [];
    for j := 0 to |ns|
      invariant pm == Claim(s0.parent, ns[..j], current)
      invariant count == Claimed(s0.parent, ns[..j], current)
    {
      var neighbour := ns[j];
      ClaimNext(s0.parent, ns, current, j);
      if neighbour !in pm {
        pm := pm[neighbour := Some(current)];
        count := count + 1;
      }
    }
    assert ns[..|ns|] == ns;
    ClaimedCount(s0.parent, ns, current);
    s := Scan(pm, s0.children[current := count]);
  }

  // ----------------------------------------------------------------------
  // The scan over the visiting order

  lemma ScanStep(adj: Adjacency, order: seq<Vertex>, x: Vertex, pm0: map<Vertex, Option<Vertex>>)
    requires forall v :: v in order + [x] ==> v in adj
    ensures ScanOrder(adj, order + [x], pm0) == VisitScan(ScanOrder(adj, order, pm0), x, adj[x])
  {
    assert (order + [x])[..|order|] == order;
  }

  /** After the first `i` visits a vertex has a parent exactly when it had
      one at the start or is a neighbour of one of the visited vertices. */
  lemma {:induction false} ScanKeys(adj: Adjacency, order: seq<Vertex>, pm0: map<Vertex, Option<Vertex>>, i: nat, n: Vertex)
    requires i <= |order| && forall v :: v in order ==> v in adj
    ensures n in ScanOrder(adj, order[..i], pm0).parent <==> n in pm0 || Traversal.FoundBy(adj, order, i, n)
    decreases i
  {
    if i > 0 {
      var pre := order[..i - 1];
      var x := order[i - 1];
      assert order[..i] == pre + [x];
      ScanStep(adj, pre, x, pm0);
      ScanKeys(adj, order, pm0, i - 1, n);
      ClaimSpec(ScanOrder(adj, pre, pm0).parent, adj[x], x);
      if Traversal.FoundBy(adj, order, i, n) && !Traversal.FoundBy(adj, order, i - 1, n) {
        var m :| 0 <= m < i && m < |order| && order[m] in adj && n in adj[order[m]];
        assert m == i - 1;
      }
    }
  }

  /** The child count of the vertex visited at step `i` is fixed at that
      step: the number of its neighbours that had no parent yet. Every
      visited vertex has a count. */
  lemma {:induction false} ScanChildren(adj: Adjacency, order: seq<Vertex>, pm0: map<Vertex, Option<Vertex>>, i: nat)
    requires NoDup(order) && i < |order| && forall v :: v in order ==> v in adj
    ensures var c := ScanOrder(adj, order, pm0).children;
      order[i] in c && c[order[i]] == |Elems(adj[order[i]]) - ScanOrder(adj, order[..i], pm0).parent.Keys|
    decreases |order|
  {
    var pre := order[..|order| - 1];
    assert order == pre + [order[|order| - 1]];
    if i < |order| - 1 {
      assert NoDup(pre) by {
        forall a, b | 0 <= a < b < |pre| ensures pre[a] != pre[b] { assert pre[a] == order[a] && pre[b] == order[b]; }
      }
      ScanChildren(adj, pre, pm0, i);
      assert pre[..i] == order[..i] && pre[i] == order[i];
      assert order[i] != order[|order| - 1];
    }
  }

  /** A visited vertex is reported exactly when all its neighbours already
      had a parent when it was visited, i.e. it claimed no child. */
  lemma LeafIff(adj: Adjacency, order: seq<Vertex>, pm0: map<Vertex, Option<Vertex>>, v: Vertex)
    requires NoDup(order) && forall u :: u in order ==> u in adj
    ensures v in Leaves(ScanOrder(adj, order, pm0), Elems(order)) <==>
      v in order && Elems(adj[v]) <= ScanOrder(adj, order[..IndexOf(order, v)], pm0).parent.Keys
  {
    if v in order {
      var i := IndexOf(order, v);
      ScanChildren(adj, order, pm0, i);
      NothingLeft(Elems(adj[v]), ScanOrder(adj, order[..i], pm0).parent.Keys);
    }
  }

  lemma NothingLeft(A: set<Vertex>, K: set<Vertex>)
    ensures |A - K| == 0 <==> A <= K
  {
    if !(A <= K) {
      var a :| a in A && a !in K;
      assert a in A - K;
    }
  }

  /** A vertex all of whose neighbours were visited before it is reported
      as a leaf, provided the start counts as claimed when it is one of
      them. The source's empty initial `parent_map` leaves the start
      unclaimed, so a vertex next to the start can claim it. */
  lemma LeafWhenSeen(adj: Adjacency, order: seq<Vertex>, pm0: map<Vertex, Option<Vertex>>, i: nat)
    requires NoDup(order) && i < |order| && forall u :: u in order ==> u in adj
    requires Traversal.Discovered(adj, Root, order)
    requires Elems(adj[order[i]]) <= Elems(order[..i])
    requires Root in adj[order[i]] ==> Root in pm0
    ensures order[i] in Leaves(ScanOrder(adj, order, pm0), Elems(order))
  {
    var v := order[i];
    assert IndexOf(order, v) == i;
    forall n | n in adj[v] ensures n in ScanOrder(adj, order[..i], pm0).parent {
      assert n in Elems(order[..i]);
      var j :| 0 <= j < i && order[..i][j] == n;
      assert order[j] == n;
      if j > 0 {
        var m :| 0 <= m < j && m < |order| && order[m] in adj && n in adj[order[m]];
        assert Traversal.FoundBy(adj, order, i, n);
      }
      ScanKeys(adj, order, pm0, i, n);
    }
    LeafIff(adj, order, pm0, v);
  }

  /** With the start entered in `parent_map` before the walk (as
      `{root: None}`), every vertex whose neighbours were all visited
      before it is reported as a leaf. */
  lemma FixedLeafWhenSeen(adj: Adjacency, order: seq<Vertex>, i: nat)
    requires NoDup(order) && i < |order| && forall u :: u in order ==> u in adj
    requires Traversal.Discovered(adj, Root, order)
    requires Elems(adj[order[i]]) <= Elems(order[..i])
    ensures order[i] in Leaves(ScanOrder(adj, order, map[Root := None]), Elems(order))
  {
    LeafWhenSeen(adj, order, map[Root := None], i);
  }

  // ----------------------------------------------------------------------
  // A cursor run to its end

  /** Once the stack is empty the cursor stays where it is. */
  lemma {:induction false} RunStays(adj: Adjacency, start: Vertex, k: nat, j: nat)
    requires Traversal.DfsRun(adj, start, k).stack == []
    ensures Traversal.DfsRun(adj, start, k + j) == Traversal.DfsRun(adj, start, k)
    decreases j
  {
    if j > 0 {
      RunStays(adj, start, k, j - 1);
    }
  }

  /** A cursor run to its end yields one order only. */
  lemma DfsOrderUnique(adj: Adjacency, start: Vertex, o1: seq<Vertex>, o2: seq<Vertex>)
    requires DfsOrder(adj, start, o1) && DfsOrder(adj, start, o2)
    ensures o1 == o2
  {
    var k1: nat :| DfsRunEnds(adj, start, k1, o1);
    var k2: nat :| DfsRunEnds(adj, start, k2, o2);
    if k1 <= k2 {
      RunStays(adj, start, k1, k2 - k1);
    } else {
      RunStays(adj, start, k2, k1 - k2);
    }
  }

  // ----------------------------------------------------------------------
  // The star 1 - 2, 1 - 3

  /** The undirected star with centre `a` and leaves `b` and `c`. */
  function StarOf(a: Vertex, b: Vertex, c: Vertex): Adjacency {
    map[a := [b, c], b := [a], c := [a]]
  }

  /** The star the finding is shown on: centre '1', leaves '2' and '3'. */
  function Star(): Adjacency {
    StarOf("1", "2", "3")
  }

  lemma StarPush1(a: Vertex, b: Vertex, c: Vertex)
    requires a != b && a != c
    ensures Traversal.Pushes([b, c], {a}, 1) == [(c, 1), (b, 1)]
  {
    assert Reverse([b, c]) == [c, b];
    assert [c, b][..1] == [c];
    assert [c][..0] == [];
    assert Traversal.Fresh([c], {a}, 1) == [(c, 1)];
  }

  lemma StarPush2(a: Vertex, vis: set<Vertex>)
    requires a in vis
    ensures Traversal.Pushes([a], vis, 2) == []
  {
    assert Reverse([a]) == [a];
    assert [a][..0] == [];
    assert Traversal.Fresh([a], vis, 2) == Traversal.Fresh([], vis, 2) + [];
  }

  lemma StarStep1(a: Vertex, b: Vertex, c: Vertex)
    requires a != b && a != c && b != c
    ensures Traversal.DfsRun(StarOf(a, b, c), a, 1) == Traversal.DfsState([(c, 1), (b, 1)], {a}, [(a, 0)])
  {
    var adj, none := StarOf(a, b, c), {};
    assert adj[a] == [b, c];
    assert Traversal.DfsRun(adj, a, 1) == Traversal.DfsStep(adj, Traversal.DfsState([(a, 0)], none, []));
    assert Traversal.Settle([(a, 0)], none) == [] + [(a, 0)];
    Traversal.DfsStepUnfold(adj, Traversal.DfsState([(a, 0)], none, []), [], a, 0);
    assert none + {a} == {a};
    StarPush1(a, b, c);
  }

  /** The second call: the first leaf is yielded and pushes nothing. */
  lemma StarMove2(a: Vertex, b: Vertex, c: Vertex)
    requires a != b && a != c && b != c
    ensures Traversal.DfsStep(StarOf(a, b, c), Traversal.DfsState([(c, 1), (b, 1)], {a}, [(a, 0)]))
         == Traversal.DfsState([(c, 1)], {a, b}, [(a, 0), (b, 1)])
  {
    var adj := StarOf(a, b, c);
    var s1 := Traversal.DfsState([(c, 1), (b, 1)], {a}, [(a, 0)]);
    assert adj[b] == [a];
    assert Traversal.Settle(s1.stack, s1.visited) == [(c, 1)] + [(b, 1)];
    Traversal.DfsStepUnfold(adj, s1, [(c, 1)], b, 1);
    assert {a} + {b} == {a, b};
    StarPush2(a, {a, b});
  }

  /** The third call: the second leaf is yielded and the stack runs out. */
  lemma StarMove3(a: Vertex, b: Vertex, c: Vertex)
    requires a != b && a != c && b != c
    ensures Traversal.DfsStep(StarOf(a, b, c), Traversal.DfsState([(c, 1)], {a, b}, [(a, 0), (b, 1)]))
         == Traversal.DfsState([], {a, b, c}, [(a, 0), (b, 1), (c, 1)])
  {
    var adj := StarOf(a, b, c);
    var s2 := Traversal.DfsState([(c, 1)], {a, b}, [(a, 0), (b, 1)]);
    var none: seq<(Vertex, nat)> := [];
    assert adj[c] == [a];
    assert Traversal.Settle(s2.stack, s2.visited) == none + [(c, 1)];
    Traversal.DfsStepUnfold(adj, s2, none, c, 1);
    StarPush2(a, {a, b} + {c});
    assert {a, b} + {c} == {a, b, c};
    assert none + [] == [];
  }

  lemma StarStep3(a: Vertex, b: Vertex, c: Vertex, k: nat)
    requires a != b && a != c && b != c && k == 3
    ensures Traversal.DfsRun(StarOf(a, b, c), a, k) == Traversal.DfsState([], {a, b, c}, [(a, 0), (b, 1), (c, 1)])
  {
    StarStep1(a, b, c);
    StarMove2(a, b, c);
    StarMove3(a, b, c);
  }

  lemma FirstsStar(a: Vertex, b: Vertex, c: Vertex)
    ensures Firsts([(a, 0), (b, 1), (c, 1)]) == [a, b, c]
  {
  }

  /** Three calls exhaust the cursor from the centre. */
  lemma StarEnds(a: Vertex, b: Vertex, c: Vertex)
    requires a != b && a != c && b != c
    ensures DfsOrder(StarOf(a, b, c), a, [a, b, c])
  {
    var k: nat :| k == 3;
    StarStep3(a, b, c, k);
    assert DfsRunEnds(StarOf(a, b, c), a, k, [a, b, c]) by {
      FirstsStar(a, b, c);
    }
  }

  /** The depth-first cursor from the centre yields the centre, then the
      first leaf, then the second, and nothing else. */
  lemma StarOrderOf(a: Vertex, b: Vertex, c: Vertex, order: seq<Vertex>)
    requires a != b && a != c && b != c
    ensures DfsOrder(StarOf(a, b, c), a, order) <==> order == [a, b, c]
  {
    StarEnds(a, b, c);
    if DfsOrder(StarOf(a, b, c), a, order) {
      DfsOrderUnique(StarOf(a, b, c), a, order, [a, b, c]);
    }
  }

  /** After the centre's visit its leaves have a parent, and the centre
      has one only if it had one before. */
  lemma StarAfterCentre(adj: Adjacency, a: Vertex, b: Vertex, c: Vertex, pre: seq<Vertex>, pm0: map<Vertex, Option<Vertex>>)
    requires a in adj && adj[a] == [b, c] && pre == [a]
    ensures ScanOrder(adj, pre, pm0).parent.Keys == pm0.Keys + {b, c}
  {
    var none: seq<Vertex> := [];
    assert pre == none + [a];
    ScanStep(adj, none, a, pm0);
    ClaimSpec(pm0, [b, c], a);
    assert Elems([b, c]) == {b, c};
  }

  /** The child count of the first leaf: the centre when it had no parent
      before the walk, nothing else. */
  lemma StarSecond(a: Vertex, b: Vertex, c: Vertex, order: seq<Vertex>, pm0: map<Vertex, Option<Vertex>>)
    requires a != b && a != c && b != c && order == [a, b, c]
    ensures var ch := ScanOrder(StarOf(a, b, c), order, pm0).children;
      b in ch && ch[b] == |{a} - pm0.Keys|
  {
    var adj := StarOf(a, b, c);
    assert adj[a] == [b, c] && adj[b] == [a];
    var pre := order[..1];
    assert pre == [a] && order[1] == b;
    assert NoDup(order);
    assert Elems(adj[b]) == {a};
    StarAfterCentre(adj, a, b, c, pre, pm0);
    ScanChildren(adj, order, pm0, 1);
    OnlyCentre(Elems(adj[b]), ScanOrder(adj, pre, pm0).parent.Keys, pm0.Keys, a, b, c);
  }

  lemma OnlyCentre(A: set<Vertex>, K: set<Vertex>, P: set<Vertex>, a: Vertex, b: Vertex, c: Vertex)
    requires A == {a} && K == P + {b, c} && a != b && a != c
    ensures |A - K| == |{a} - P|
  {
    assert A - K == {a} - P;
  }

  lemma SingletonLeft(a: Vertex, P: set<Vertex>)
    ensures |{a} - P| == if a in P then 0 else 1
  {
    if a in P {
      assert {a} - P == {};
    } else {
      assert {a} - P == {a};
    }
  }

  /** On a star with centre `a`, the first leaf `b` is visited after its
      only neighbour, yet it is reported only when the centre had a parent
      before the walk. */
  lemma StarMissesLeafOf(a: Vertex, b: Vertex, c: Vertex, order: seq<Vertex>)
    requires a != b && a != c && b != c
    requires DfsOrder(StarOf(a, b, c), a, order)
    ensures order == [a, b, c]
    ensures Elems(StarOf(a, b, c)[b]) <= Elems(order[..1])
    ensures b !in Leaves(ScanOrder(StarOf(a, b, c), order, map[]), Elems(order))
    ensures b in Leaves(ScanOrder(StarOf(a, b, c), order, map[a := None]), Elems(order))
  {
    StarOrderOf(a, b, c, order);
    assert order[..1] == [a] && StarOf(a, b, c)[b] == [a];
    assert b in Elems(order);
    var written: map<Vertex, Option<Vertex>> := map[];
    var fixed: map<Vertex, Option<Vertex>> := map[a := None];
    StarSecond(a, b, c, order, written);
    SingletonLeft(a, written.Keys);
    StarSecond(a, b, c, order, fixed);
    SingletonLeft(a, fixed.Keys);
  }

  /** On the star 1 - 2, 1 - 3, '2' is visited after its only neighbour
      '1', yet `find_all_leaf_nodes` as written does not report it; with
      the start entered in `parent_map` first it does. */
  lemma StarMissesLeaf(order: seq<Vertex>)
    requires DfsOrder(Star(), Root, order)
    ensures order == ["1", "2", "3"]
    ensures Elems(Star()["2"]) <= Elems(order[..1])
    ensures "2" !in Leaves(ScanOrder(Star(), order, map[]), Elems(order))
    ensures "2" in Leaves(ScanOrder(Star(), order, map[Root := None]), Elems(order))
  {
    assert "1" != "2" && "1" != "3" && "2" != "3" by {
      assert "1"[0] != "2"[0] && "1"[0] != "3"[0] && "2"[0] != "3"[0];
    }
    StarMissesLeafOf("1", "2", "3", order);
  }

  // ----------------------------------------------------------------------
  // The procedure

  /** The walk of `find_all_leaf_nodes` with `parent_map` starting as `pm0`:
      the depth-first cursor from '1' (an error when '1' is not a vertex)
      is run to the end, each yielded vertex is visited, and the visited
      vertices with no child are returned as a set. */
  method ScanLeaves(g: Domain.Graph, pm0: map<Vertex, Option<Vertex>>)
    returns (r: Result<set<Vertex>>, ghost order: seq<Vertex>)
    requires g.Valid()
    ensures r.Failure? <==> Root !in g.adj
    ensures r.Failure? ==> r.error == UnknownVertex
    ensures r.Success? ==> DfsOrder(g.adj, Root, order) && NoDup(order) && Traversal.Discovered(g.adj, Root, order)
    ensures r.Success? ==> forall v :: v in order <==> Reachable(g.adj, Root, v)
    ensures r.Success? ==> (forall v :: v in order ==> v in g.adj) && r.value == Leaves(ScanOrder(g.adj, order, pm0), Elems(order))
  {
    var visited: set<Vertex> := {};
    var s := Scan(pm0, map[]);
    var d := Traversal.DfsIter(g, Root);
    if d.Failure? {
      return Failure(d.error), [];
    }
    var it := d.value;
    Yielded(it);
    while true
      invariant fresh(it) && it.Valid() && it.adj == g.adj && it.start == Root
      invariant visited == it.visited
      invariant forall v :: v in Firsts(it.yielded) ==> v in g.adj
      invariant s == ScanOrder(g.adj, Firsts(it.yielded), pm0)
      decreases |g.adj.Keys - it.visited|
    {
      ghost var st := Traversal.DfsState(it.stack, it.visited, it.yielded);
      Traversal.DfsStepSpec(g.adj, st);
      var e := it.Next();
      if e.None? {
        break;
      }
      var current := e.value.0;
      Yielded(it);
      YieldOne(st.out, e.value, it.yielded);
      ScanStep(g.adj, Firsts(st.out), current, pm0);
      Shrinks(g.adj.Keys, st.visited, current);
      visited := visited + {current};
      var ns := g.Neighbours(current);
      s := Visit(current, ns.value, s);
    }
    it.Sound();
    it.Exhausted();
    it.Discovers();
    order := Firsts(it.yielded);
    assert DfsRunEnds(g.adj, Root, it.steps, order);
    r := Success(Leaves(s, visited));
  }

  /** What a valid cursor has yielded: its visited set, within the graph. */
  lemma Yielded(it: Traversal.DfsIterator)
    requires it.Valid()
    ensures Elems(Firsts(it.yielded)) == it.visited && it.visited <= it.adj.Keys
    ensures forall v :: v in Firsts(it.yielded) ==> v in it.adj
  {
    it.Sound();
    it.VisitedInGraph();
  }

  lemma YieldOne(out: seq<(Vertex, nat)>, e: (Vertex, nat), out': seq<(Vertex, nat)>)
    requires out' == out + [e]
    ensures Firsts(out') == Firsts(out) + [e.0]
  {
    FirstsAppend(out, [e]);
  }

  lemma Shrinks(K: set<Vertex>, V: set<Vertex>, x: Vertex)
    requires x in K && x !in V
    ensures |K - (V + {x})| < |K - V|
  {
    assert K - V == (K - (V + {x})) + {x};
  }

  /** `find_all_leaf_nodes` as written: `parent_map` starts empty. */
  method FindAllLeafNodes(g: Domain.Graph) returns (r: Result<set<Vertex>>, ghost order: seq<Vertex>)
    requires g.Valid()
    ensures r.Failure? <==> Root !in g.adj
    ensures r.Failure? ==> r.error == UnknownVertex
    ensures r.Success? ==> DfsOrder(g.adj, Root, order) && NoDup(order) && Traversal.Discovered(g.adj, Root, order)
    ensures r.Success? ==> forall v :: v in order <==> Reachable(g.adj, Root, v)
    ensures r.Success? ==> (forall v :: v in order ==> v in g.adj) && r.value == Leaves(ScanOrder(g.adj, order, map[]), Elems(order))
  {
    r, order := ScanLeaves(g, map[]);
  }

  /** `find_all_leaf_nodes` with the start entered in `parent_map` before
      the walk, so that no vertex can claim it. */
  method FindAllLeafNodesFixed(g: Domain.Graph) returns (r: Result<set<Vertex>>, ghost order: seq<Vertex>)
    requires g.Valid()
    ensures r.Failure? <==> Root !in g.adj
    ensures r.Failure? ==> r.error == UnknownVertex
    ensures r.Success? ==> DfsOrder(g.adj, Root, order) && NoDup(order) && Traversal.Discovered(g.adj, Root, order)
    ensures r.Success? ==> forall v :: v in order <==> Reachable(g.adj, Root, v)
    ensures r.Success? ==> (forall v :: v in order ==> v in g.adj)
    ensures r.Success? ==> r.value == Leaves(ScanOrder(g.adj, order, map[Root := None]), Elems(order))
    ensures r.Success? ==> forall i :: 0 <= i < |order| && Elems(g.adj[order[i]]) <= Elems(order[..i]) ==> order[i] in r.value
  {
    r, order := ScanLeaves(g, map[Root := None]);
    if r.Success? {
      forall i | 0 <= i < |order| && Elems(g.adj[order[i]]) <= Elems(order[..i]) ensures order[i] in r.value {
        FixedLeafWhenSeen(g.adj, order, i);
      }
    }
  }
}
