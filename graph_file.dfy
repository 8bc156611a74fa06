/** The line parser of `create_from_file` in `domain.py`, over a description
    already split into lines and tokens. The first line names the graph
    kind; every further line declares a vertex (one token), an unweighted
    edge (two tokens) or a weighted edge (two endpoints and a weight). The
    graph is built by the store's own mutators; `ParseGraph` is the value the
    building loop is proved to produce. */
module GraphFile {
  import opened Common
  import opened GraphModel
  import Domain

  /** One line of a graph description, split on white space. `weight` is the
      integer value of the third token when the line has one. */
  datatype Line = Line(parts: seq<string>, weight: int)

  /** The fields of a graph store, as one value. */
  datatype Store = Store(vertices: seq<Vertex>, adj: Adjacency, weights: WeightTable, directed: bool, weighted: bool)

  ghost predicate StoreValid(st: Store) {
    WellFormed(st.vertices, st.adj, st.weights, st.directed, st.weighted)
  }

  /** The fields of a store object. */
  function Snapshot(g: Domain.Graph): Store
    reads g
  {
    Store(g.vertices, g.adj, g.weights, g.isDirected, g.isWeighted)
  }

  // ----------------------------------------------------------------------
  // The header line

  /** The header that describes a graph of the given kind. */
  function HeaderTokens(directed: bool, weighted: bool): seq<string> {
    [if directed then "directed" else "undirected", if weighted then "weighted" else "unweighted"]
  }

  /** The header line: exactly two tokens, the first `directed` or
      `undirected`, the second `weighted` or `unweighted`. It is accepted
      exactly when it is the header of some graph kind, and then it names
      that kind. */
  function Header(tokens: seq<string>): (r: Result<(bool, bool)>)
    ensures r.Success? ==> tokens == HeaderTokens(r.value.0, r.value.1)
    ensures r.Failure? ==> r.error == FormatError && forall d: bool, w: bool :: tokens != HeaderTokens(d, w)
  {
    if |tokens| == 2 && tokens[0] in {"directed", "undirected"} && tokens[1] in {"weighted", "unweighted"} then
      Success((tokens[0] == "directed", tokens[1] == "weighted"))
    else
      Failure(FormatError)
  }

  /** Reading the header of a graph kind gives that kind back. */
  lemma HeaderRoundTrip(directed: bool, weighted: bool)
    ensures Header(HeaderTokens(directed, weighted)) == Success((directed, weighted))
  {
    var t := HeaderTokens(directed, weighted);
    assert t[0] in {"directed", "undirected"} && t[1] in {"weighted", "unweighted"};
    assert (t[0] == "directed") == directed by {
      if !directed { assert |t[0]| != |"directed"|; }
    }
    assert (t[1] == "weighted") == weighted by {
      if !weighted { assert |t[1]| != |"weighted"|; }
    }
  }

  // ----------------------------------------------------------------------
  // The body lines

  /** The store a new graph is after the header was applied: no vertices,
      the two flags set. */
  function EmptyStore(directed: bool, weighted: bool): Store {
    Store([], map[], map[], directed, weighted)
  }

  /** `if vertex not in graph.graph_repo.keys(): graph.add_vertex(vertex)`:
      the vertex exists afterwards and nothing that existed changes. */
  function Declare(st: Store, v: Vertex): (r: Store)
    ensures forall u :: u in r.adj <==> u in st.adj || u == v
    ensures forall u :: u in st.adj ==> r.adj[u] == st.adj[u]
    ensures v !in st.adj ==> r.adj[v] == []
    ensures forall u :: u in st.weights && u in st.adj ==> u in r.weights && r.weights[u] == st.weights[u]
    ensures r.directed == st.directed && r.weighted == st.weighted
  {
    if v in st.adj then st
    else
      st.(vertices := st.vertices + [v], adj := st.adj[v := []],
          weights := if st.weighted then st.weights[v := map[]] else st.weights)
  }

  /** `graph.add_edge(u, v, x)` on declared endpoints. */
  function Connect(st: Store, u: Vertex, v: Vertex, x: int): Result<Store>
    requires u in st.adj && v in st.adj
  {
    if v in st.adj[u] then Failure(DuplicateEdge)
    else
      Success(st.(adj := AddEdgeArcs(st.adj, u, v, st.directed),
                  weights := if st.weighted then AddEdgeWeights(st.weights, u, v, x, st.directed) else st.weights))
  }

  /** A body line of an acceptable length: one token, two in an unweighted
      graph, three in a weighted one. */
  predicate Legal(l: Line, weighted: bool) {
    |l.parts| == 1 || (|l.parts| == 2 && !weighted) || (|l.parts| == 3 && weighted)
  }

  /** The vertex names a line mentions. */
  function Endpoints(l: Line): seq<Vertex> {
    if |l.parts| <= 2 then l.parts else l.parts[..2]
  }

  /** `u -> v` is an arc that the edge line `l` asks for. */
  predicate LineArc(l: Line, directed: bool, u: Vertex, v: Vertex) {
    && (|l.parts| == 2 || |l.parts| == 3)
    && ((u == l.parts[0] && v == l.parts[1]) || (!directed && u == l.parts[1] && v == l.parts[0]))
  }

  /** The weight an edge line carries: the third token, or the default 0. */
  function LineWeight(l: Line): int {
    if |l.parts| == 3 then l.weight else 0
  }

  /** One body line. Both endpoints of an edge line are declared before the
      length check, as in the source (the partial graph is dropped with the
      error). */
  function LineStep(st: Store, l: Line): (r: Result<Store>)
    ensures r.Success? ==> r.value.directed == st.directed && r.value.weighted == st.weighted
  {
    if |l.parts| == 1 then
      Success(Declare(st, l.parts[0]))
    else if |l.parts| == 2 || |l.parts| == 3 then
      var st1 := Declare(Declare(st, l.parts[0]), l.parts[1]);
      if Legal(l, st.weighted) then Connect(st1, l.parts[0], l.parts[1], LineWeight(l))
      else Failure(FormatError)
    else
      Failure(FormatError)
  }

  /** The body lines in order; the first error ends the reading. */
  function ReadLines(st: Store, ls: seq<Line>): (r: Result<Store>)
    ensures r.Success? ==> r.value.directed == st.directed && r.value.weighted == st.weighted
    decreases |ls|
  {
    if ls == [] then Success(st)
    else
      match ReadLines(st, ls[..|ls| - 1])
      case Failure(e) => Failure(e)
      case Success(s) => LineStep(s, ls[|ls| - 1])
  }

  /** `create_from_file` on the lines of a description; a description with
      no line at all fails (the source's `lines[0]` raises). */
  function ParseGraph(lines: seq<Line>): Result<Store> {
    if lines == [] then Failure(FormatError)
    else
      match Header(lines[0].parts)
      case Failure(e) => Failure(e)
      case Success(h) => ReadLines(EmptyStore(h.0, h.1), lines[1..])
  }

  // ----------------------------------------------------------------------
  // One line

  /** A line is read without error exactly when its length is acceptable and,
      for an edge line, the arc is not there yet. A bad length is a format
      error, a repeated edge a duplicate-edge error. */
  lemma LineStepOutcome(st: Store, l: Line)
    ensures LineStep(st, l).Success? <==>
      && Legal(l, st.weighted)
      && (|l.parts| >= 2 ==> !(l.parts[0] in st.adj && l.parts[1] in st.adj[l.parts[0]]))
    ensures !Legal(l, st.weighted) ==> LineStep(st, l) == Failure(FormatError)
    ensures Legal(l, st.weighted) && LineStep(st, l).Failure? ==> LineStep(st, l) == Failure(DuplicateEdge)
  {
    if |l.parts| == 2 || |l.parts| == 3 {
      var u, v := l.parts[0], l.parts[1];
      var st1 := Declare(Declare(st, u), v);
      assert st1.adj[u] == if u in st.adj then st.adj[u] else [];
    }
  }

  /** After a line the store holds its old vertices and the ones the line
      names. */
  lemma LineStepVertices(st: Store, l: Line)
    requires LineStep(st, l).Success?
    ensures forall v :: v in LineStep(st, l).value.adj <==> v in st.adj || v in Endpoints(l)
  {
    if |l.parts| == 2 || |l.parts| == 3 {
      assert Endpoints(l) == [l.parts[0], l.parts[1]];
    }
  }

  /** After a line the store holds its old arcs and the ones the line asks
      for. */
  lemma LineStepArcs(st: Store, l: Line, u: Vertex, v: Vertex)
    requires LineStep(st, l).Success?
    ensures var r := LineStep(st, l).value;
      u in r.adj && v in r.adj[u] <==> (u in st.adj && v in st.adj[u]) || LineArc(l, st.directed, u, v)
  {
    if |l.parts| == 2 || |l.parts| == 3 {
      var a, b := l.parts[0], l.parts[1];
      var st1 := Declare(Declare(st, a), b);
      var r := LineStep(st, l).value;
      assert r.adj == AddEdgeArcs(st1.adj, a, b, st.directed);
      if u in st1.adj {
        if st.directed || u != b {
          assert r.adj[u] == if u == a then st1.adj[u] + [b] else st1.adj[u];
        } else if u == a {
          assert r.adj[u] == st1.adj[u] + [b] + [a];
        } else {
          assert r.adj[u] == st1.adj[u] + [a];
        }
        if u !in st.adj {
          assert st1.adj[u] == [];
        }
      }
    }
  }

  /** A line keeps the store well formed. */
  lemma LineStepValid(st: Store, l: Line)
    requires StoreValid(st) && LineStep(st, l).Success?
    ensures StoreValid(LineStep(st, l).value)
  {
    if |l.parts| == 1 {
      DeclareValid(st, l.parts[0]);
    } else {
      var a, b := l.parts[0], l.parts[1];
      DeclareValid(st, a);
      var st0 := Declare(st, a);
      DeclareValid(st0, b);
      var st1 := Declare(st0, b);
      AddEdgeKeeps(st1.vertices, st1.adj, st1.weights, st1.directed, st1.weighted, a, b, LineWeight(l));
    }
  }

  lemma DeclareValid(st: Store, v: Vertex)
    requires StoreValid(st)
    ensures StoreValid(Declare(st, v))
  {
    if v !in st.adj {
      AddVertexKeeps(st.vertices, st.adj, st.weights, st.directed, st.weighted, v);
    }
  }

  /** `u -> v` is an arc of `st` whose weight `x` is recorded. */
  ghost predicate Carries(st: Store, u: Vertex, v: Vertex, x: int) {
    u in st.adj && v in st.adj[u] && u in st.weights && v in st.weights[u] && st.weights[u][v] == x
  }

  /** A line never changes the weight of an arc that exists: a repeated edge
      is refused, and in undirected mode so is its reverse. */
  lemma LineStepKeepsWeight(st: Store, l: Line, u: Vertex, v: Vertex, x: int)
    requires StoreValid(st) && LineStep(st, l).Success? && Carries(st, u, v, x)
    ensures Carries(LineStep(st, l).value, u, v, x)
  {
    LineStepArcs(st, l, u, v);
    LineStepOutcome(st, l);
    if |l.parts| == 2 || |l.parts| == 3 {
      var a, b := l.parts[0], l.parts[1];
      var st1 := Declare(Declare(st, a), b);
      assert (u, v) != (a, b);
      assert !st.directed ==> (u, v) != (b, a);
      if st.weighted {
        assert st1.weights[u] == st.weights[u];
        SetArcWeightElsewhere(st1.weights, a, b, LineWeight(l), u, v);
        if !st.directed {
          SetArcWeightElsewhere(SetArcWeight(st1.weights, a, b, LineWeight(l)), b, a, LineWeight(l), u, v);
        }
      }
    }
  }

  /** A weighted edge line records its weight on the arc, and on the reverse
      arc in undirected mode. */
  lemma LineStepRecordsWeight(st: Store, l: Line)
    requires LineStep(st, l).Success? && st.weighted && |l.parts| >= 2
    ensures Carries(LineStep(st, l).value, l.parts[0], l.parts[1], l.weight)
    ensures !st.directed ==> Carries(LineStep(st, l).value, l.parts[1], l.parts[0], l.weight)
  {
    LineStepArcs(st, l, l.parts[0], l.parts[1]);
    LineStepArcs(st, l, l.parts[1], l.parts[0]);
  }

  // ----------------------------------------------------------------------
  // All lines

  /** Once a line fails, reading more lines keeps that error. */
  lemma {:induction false} FailureSticks(st: Store, ls: seq<Line>, n: nat)
    requires n <= |ls| && ReadLines(st, ls[..n]).Failure?
    ensures ReadLines(st, ls) == ReadLines(st, ls[..n])
    decreases |ls| - n
  {
    if n < |ls| {
      var pre := ls[..|ls| - 1];
      assert pre[..n] == ls[..n];
      FailureSticks(st, pre, n);
    } else {
      assert ls[..n] == ls;
    }
  }

  /** Reading one more line of a prefix is one more step. */
  lemma ReadPrefixStep(st: Store, ls: seq<Line>, i: nat)
    requires i < |ls| && ReadLines(st, ls[..i]).Success?
    ensures ReadLines(st, ls[..i + 1]) == LineStep(ReadLines(st, ls[..i]).value, ls[i])
  {
    assert ls[..i + 1][..i] == ls[..i];
  }

  /** A line that fails after a good prefix is the outcome of the whole
      reading. */
  lemma FailedLine(st: Store, ls: seq<Line>, i: nat, cur: Store)
    requires i < |ls| && ReadLines(st, ls[..i]) == Success(cur) && LineStep(cur, ls[i]).Failure?
    ensures ReadLines(st, ls) == LineStep(cur, ls[i])
  {
    ReadPrefixStep(st, ls, i);
    FailureSticks(st, ls, i + 1);
  }

  /** A description with a good header is read as its body lines. */
  lemma ParseGraphBody(lines: seq<Line>)
    requires lines != [] && Header(lines[0].parts).Success?
    ensures var h := Header(lines[0].parts).value;
      ParseGraph(lines) == ReadLines(EmptyStore(h.0, h.1), lines[1..])
  {
  }

  /** Reading keeps the store well formed. */
  lemma {:induction false} ReadLinesValid(st: Store, ls: seq<Line>)
    requires StoreValid(st) && ReadLines(st, ls).Success?
    ensures StoreValid(ReadLines(st, ls).value)
    decreases |ls|
  {
    if ls != [] {
      var pre := ls[..|ls| - 1];
      ReadLinesValid(st, pre);
      LineStepValid(ReadLines(st, pre).value, ls[|ls| - 1]);
    }
  }

  /** Every line read was of an acceptable length. */
  lemma {:induction false} ReadLinesLegal(st: Store, ls: seq<Line>)
    requires ReadLines(st, ls).Success?
    ensures forall l :: l in ls ==> Legal(l, st.weighted)
    decreases |ls|
  {
    if ls != [] {
      var pre := ls[..|ls| - 1];
      ReadLinesLegal(st, pre);
      LineStepOutcome(ReadLines(st, pre).value, ls[|ls| - 1]);
      assert ls == pre + [ls[|ls| - 1]];
    }
  }

  /** The vertices after reading are the old ones and every name a line
      mentions, declared or not. */
  lemma {:induction false} ReadLinesVertices(st: Store, ls: seq<Line>)
    requires ReadLines(st, ls).Success?
    ensures forall v :: v in ReadLines(st, ls).value.adj <==> v in st.adj || exists l :: l in ls && v in Endpoints(l)
    decreases |ls|
  {
    if ls != [] {
      var pre := ls[..|ls| - 1];
      var last := ls[|ls| - 1];
      ReadLinesVertices(st, pre);
      LineStepVertices(ReadLines(st, pre).value, last);
      assert ls == pre + [last];
      forall v ensures (exists l :: l in ls && v in Endpoints(l)) <==> (exists l :: l in pre && v in Endpoints(l)) || v in Endpoints(last) {
        if exists l :: l in ls && v in Endpoints(l) {
          var l :| l in ls && v in Endpoints(l);
          assert l in pre || l == last;
        }
      }
    }
  }

  /** The arcs after reading are the old ones and the ones the edge lines ask
      for. */
  lemma {:induction false} ReadLinesArcs(st: Store, ls: seq<Line>, u: Vertex, v: Vertex)
    requires ReadLines(st, ls).Success?
    ensures var r := ReadLines(st, ls).value;
      u in r.adj && v in r.adj[u] <==>
        (u in st.adj && v in st.adj[u]) || exists l :: l in ls && LineArc(l, st.directed, u, v)
    decreases |ls|
  {
    if ls != [] {
      var pre := ls[..|ls| - 1];
      var last := ls[|ls| - 1];
      ReadLinesArcs(st, pre, u, v);
      var s := ReadLines(st, pre).value;
      LineStepArcs(s, last, u, v);
      assert ls == pre + [last];
      if LineArc(last, st.directed, u, v) {
        assert last in ls;
      }
      if exists l :: l in pre && LineArc(l, st.directed, u, v) {
        var l :| l in pre && LineArc(l, st.directed, u, v);
        assert l in ls;
      }
      if exists l :: l in ls && LineArc(l, st.directed, u, v) {
        var l :| l in ls && LineArc(l, st.directed, u, v);
        assert l in pre || l == last;
      }
    }
  }

  /** An arc whose weight is recorded keeps it through any further lines. */
  lemma {:induction false} ReadLinesKeepWeight(st: Store, ls: seq<Line>, u: Vertex, v: Vertex, x: int)
    requires StoreValid(st) && ReadLines(st, ls).Success? && Carries(st, u, v, x)
    ensures Carries(ReadLines(st, ls).value, u, v, x)
    decreases |ls|
  {
    if ls != [] {
      var pre := ls[..|ls| - 1];
      ReadLinesKeepWeight(st, pre, u, v, x);
      ReadLinesValid(st, pre);
      LineStepKeepsWeight(ReadLines(st, pre).value, ls[|ls| - 1], u, v, x);
    }
  }

  /** In a weighted graph every three-token line leaves its weight on its
      arc, and on the reverse arc in undirected mode; arcs that existed keep
      their weights. */
  lemma {:induction false} ReadLinesWeights(st: Store, ls: seq<Line>, i: nat)
    requires StoreValid(st) && st.weighted && ReadLines(st, ls).Success?
    requires i < |ls| && |ls[i].parts| == 3
    ensures var r := ReadLines(st, ls).value; var l := ls[i];
      && Carries(r, l.parts[0], l.parts[1], l.weight)
      && (!st.directed ==> Carries(r, l.parts[1], l.parts[0], l.weight))
    decreases |ls|
  {
    var pre := ls[..|ls| - 1];
    var last := ls[|ls| - 1];
    ReadLinesValid(st, pre);
    var s := ReadLines(st, pre).value;
    var l := ls[i];
    if i == |ls| - 1 {
      LineStepRecordsWeight(s, last);
    } else {
      ReadLinesWeights(st, pre, i);
      assert pre[i] == l;
      LineStepKeepsWeight(s, last, l.parts[0], l.parts[1], l.weight);
      if !st.directed {
        LineStepKeepsWeight(s, last, l.parts[1], l.parts[0], l.weight);
      }
    }
  }

  // ----------------------------------------------------------------------
  // Whole descriptions

  /** A description is read only when every body line has an acceptable
      length for the kind its header names. */
  lemma ParsedLinesLegal(lines: seq<Line>)
    requires ParseGraph(lines).Success?
    ensures forall l :: l in lines[1..] ==> Legal(l, ParseGraph(lines).value.weighted)
  {
    var h := Header(lines[0].parts).value;
    ReadLinesLegal(EmptyStore(h.0, h.1), lines[1..]);
  }

  /** The graph read from a description is well formed, of the kind its
      header names, and its vertices are exactly the names the body lines
      mention. */
  lemma ParsedVertices(lines: seq<Line>)
    requires ParseGraph(lines).Success?
    ensures var g := ParseGraph(lines).value;
      && StoreValid(g)
      && lines[0].parts == HeaderTokens(g.directed, g.weighted)
      && forall v :: v in g.adj <==> exists l :: l in lines[1..] && v in Endpoints(l)
  {
    var h := Header(lines[0].parts).value;
    ReadLinesVertices(EmptyStore(h.0, h.1), lines[1..]);
    ReadLinesValid(EmptyStore(h.0, h.1), lines[1..]);
  }

  /** The arcs of the graph read from a description are exactly the ones its
      edge lines ask for: `u -> v` for a line `u v`, and `v -> u` too in an
      undirected graph. */
  lemma ParsedArcs(lines: seq<Line>, u: Vertex, v: Vertex)
    requires ParseGraph(lines).Success?
    ensures var g := ParseGraph(lines).value;
      u in g.adj && v in g.adj[u] <==> exists l :: l in lines[1..] && LineArc(l, g.directed, u, v)
  {
    var h := Header(lines[0].parts).value;
    var st := EmptyStore(h.0, h.1);
    assert ParseGraph(lines) == ReadLines(st, lines[1..]);
    ReadLinesArcs(st, lines[1..], u, v);
  }

  /** In a weighted graph read from a description, each edge carries the
      weight its line gives, in both directions when undirected. */
  lemma ParsedWeights(lines: seq<Line>)
    requires ParseGraph(lines).Success? && ParseGraph(lines).value.weighted
    ensures var g := ParseGraph(lines).value;
      forall l :: l in lines[1..] && |l.parts| == 3 ==>
        && Carries(g, l.parts[0], l.parts[1], l.weight)
        && (!g.directed ==> Carries(g, l.parts[1], l.parts[0], l.weight))
  {
    var h := Header(lines[0].parts).value;
    var st := EmptyStore(h.0, h.1);
    var body := lines[1..];
    ParseGraphBody(lines);
    var g := ReadLines(st, body).value;
    assert StoreValid(st);
    forall i | 0 <= i < |body| && |body[i].parts| == 3
      ensures Carries(g, body[i].parts[0], body[i].parts[1], body[i].weight)
      ensures !h.0 ==> Carries(g, body[i].parts[1], body[i].parts[0], body[i].weight)
    {
      ReadLinesWeights(st, body, i);
    }
  }

  // ----------------------------------------------------------------------
  // The building loop

  /** Declare a vertex on the store object. */
  method DeclareVertex(g: Domain.Graph, v: Vertex)
    requires g.Valid()
    modifies g
    ensures g.Valid() && Snapshot(g) == Declare(old(Snapshot(g)), v)
  {
    if v !in g.adj {
      var added := g.AddVertex(v);
    }
  }

  /** `add_edge` on the store object, as `Connect` says. */
  method ConnectVertices(g: Domain.Graph, u: Vertex, v: Vertex, x: int) returns (r: Outcome)
    requires g.Valid() && u in g.adj && v in g.adj
    modifies g
    ensures g.Valid()
    ensures r.Pass? <==> Connect(old(Snapshot(g)), u, v, x).Success?
    ensures r.Pass? ==> Snapshot(g) == Connect(old(Snapshot(g)), u, v, x).value
    ensures r.Fail? ==> r.error == Connect(old(Snapshot(g)), u, v, x).error
  {
    r := g.AddEdge(u, v, x);
  }

  /** An edge line: both endpoints declared, then the length check, then
      the edge. */
  lemma EdgeLineStep(st: Store, l: Line)
    requires |l.parts| == 2 || |l.parts| == 3
    ensures var st1 := Declare(Declare(st, l.parts[0]), l.parts[1]);
      LineStep(st, l) == if Legal(l, st1.weighted) then Connect(st1, l.parts[0], l.parts[1], LineWeight(l)) else Failure(FormatError)
  {
  }

  /** One pass of the loop of `create_from_file` on the store object. */
  method ReadLine(g: Domain.Graph, l: Line) returns (r: Outcome)
    requires g.Valid()
    modifies g
    ensures g.Valid()
    ensures r.Pass? <==> LineStep(old(Snapshot(g)), l).Success?
    ensures r.Pass? ==> Snapshot(g) == LineStep(old(Snapshot(g)), l).value
    ensures r.Fail? ==> r.error == LineStep(old(Snapshot(g)), l).error
  {
    var parts := l.parts;
    if |parts| == 1 {
      DeclareVertex(g, parts[0]);
      r := Pass;
    } else if |parts| == 2 || |parts| == 3 {
      EdgeLineStep(Snapshot(g), l);
      DeclareVertex(g, parts[0]);
      DeclareVertex(g, parts[1]);
      if (|parts| == 2 && g.isWeighted) || (|parts| == 3 && !g.isWeighted) {
        return Fail(FormatError);
      }
      r := ConnectVertices(g, parts[0], parts[1], LineWeight(l));
    } else {
      r := Fail(FormatError);
    }
  }

  /** A new store switched to the kind a header names. */
  method NewStore(directed: bool, weighted: bool) returns (g: Domain.Graph)
    ensures fresh(g) && g.Valid() && Snapshot(g) == EmptyStore(directed, weighted)
  {
    g := new Domain.Graph();
    if directed {
      g.ChangeIfDirected();
    }
    if weighted {
      g.ChangeIfWeighted();
      assert ZeroWeights(map[]) == map[];
    }
  }

  /** The loop of `create_from_file`: the body lines applied in order to
      the store object, stopping at the first error. */
  method ReadBody(g: Domain.Graph, body: seq<Line>) returns (r: Outcome)
    requires g.Valid()
    modifies g
    ensures g.Valid()
    ensures r.Pass? <==> ReadLines(old(Snapshot(g)), body).Success?
    ensures r.Pass? ==> Snapshot(g) == ReadLines(old(Snapshot(g)), body).value
    ensures r.Fail? ==> r.error == ReadLines(old(Snapshot(g)), body).error
  {
    ghost var st0 := Snapshot(g);
    assert body[..0] == [];
    var i := 0;
    while i < |body|
      invariant 0 <= i <= |body|
      invariant g.Valid() && ReadLines(st0, body[..i]) == Success(Snapshot(g))
    {
      ReadPrefixStep(st0, body, i);
      ghost var before := Snapshot(g);
      var o := ReadLine(g, body[i]);
      if o.Fail? {
        FailedLine(st0, body, i, before);
        return o;
      }
      i := i + 1;
    }
    assert body[..i] == body;
    r := Pass;
  }

  /** `create_from_file` over the lines of a description: the header sets the
      kind of a new store, then each line is applied in order; the first
      error is returned instead of a graph. */
  method CreateFromLines(lines: seq<Line>) returns (r: Result<Domain.Graph>)
    ensures r.Success? <==> ParseGraph(lines).Success?
    ensures r.Success? ==> fresh(r.value) && r.value.Valid() && Snapshot(r.value) == ParseGraph(lines).value
    ensures r.Failure? ==> r.error == ParseGraph(lines).error
  {
    if |lines| == 0 {
      return Failure(FormatError);
    }
    var header := Header(lines[0].parts);
    if header.Failure? {
      return Failure(header.error);
    }
    var (directed, weighted) := header.value;
    var g := NewStore(directed, weighted);
    ParseGraphBody(lines);
    var o := ReadBody(g, lines[1..]);
    if o.Fail? {
      return Failure(o.error);
    }
    r := Success(g);
  }
}
