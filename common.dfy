/** Shared vocabulary of the graph engine: vertex identifiers, the error
    taxonomy that stands for the source's exceptions, result wrappers and a
    few facts about sequences used by every other module. */
module Common {

  /** Vertex identifiers are the tokens read from a graph description;
      only equality on them is used. */
  type Vertex = string

  datatype Option<+T> = None | Some(value: T)

  /** One constructor per way an operation of the graph engine can fail. */
  datatype Error =
    | UnknownVertex     // a vertex argument is not in the graph
    | DuplicateVertex   // add_vertex on an existing vertex
    | DuplicateEdge     // add_edge on an existing edge
    | NoSuchEdge        // remove/set_weight/get_weight on a missing edge
    | NotInList         // Python's list.remove on an absent element
    | MissingKey        // Python's KeyError on a dictionary lookup
    | NotWeighted
    | NotUndirected
    | NotConnected
    | EmptyGraph
    | FormatError       // malformed graph description

  /** The outcome of an operation that returns nothing but may raise. */
  datatype Outcome = Pass | Fail(error: Error)

  /** The outcome of an operation that returns a value or raises. */
  datatype Result<+T> = Success(value: T) | Failure(error: Error)

  /** The set of elements of a sequence. */
  function Elems<T>(s: seq<T>): set<T> {
    set x | x in s
  }

  /** No element occurs twice. */
  predicate NoDup<T(==)>(s: seq<T>) {
    forall i, j :: 0 <= i < j < |s| ==> s[i] != s[j]
  }

  /** Index of the first occurrence of `x` in `s`. */
  function IndexOf<T(==)>(s: seq<T>, x: T): (i: nat)
    requires x in s
    ensures i < |s| && s[i] == x && x !in s[..i]
  {
    if s[0] == x then 0 else 1 + IndexOf(s[1..], x)
  }

  /** Python's `list.remove(x)`: drop the first occurrence of `x`. */
  function RemoveFirst<T(==)>(s: seq<T>, x: T): seq<T>
    requires x in s
  {
    var i := IndexOf(s, x);
    s[..i] + s[i + 1..]
  }

  /** Removing one occurrence keeps every other element and can only drop `x`;
      when `x` occurred once it is gone afterwards. */
  lemma RemoveFirstElems<T>(s: seq<T>, x: T)
    requires x in s
    ensures |RemoveFirst(s, x)| == |s| - 1
    ensures Elems(RemoveFirst(s, x)) <= Elems(s)
    ensures forall y :: y != x && y in s ==> y in RemoveFirst(s, x)
    ensures (forall i, j :: 0 <= i < j < |s| && s[i] == x ==> s[j] != x) ==> x !in RemoveFirst(s, x)
  {
    var r := RemoveFirst(s, x);
    var i := IndexOf(s, x);
    forall y | y in r ensures y in s {
      var k :| 0 <= k < |r| && r[k] == y;
      if k < i { assert s[k] == y; } else { assert s[k + 1] == y; }
    }
    forall y | y != x && y in s ensures y in r {
      var k :| 0 <= k < |s| && s[k] == y;
      if k < i { assert r[k] == y; } else { assert k != i; assert r[k - 1] == y; }
    }
  }

  /** Removing from a list without repeats leaves a list without repeats
      that holds every other element. */
  lemma RemoveFirstNoDup<T>(s: seq<T>, x: T)
    requires NoDup(s) && x in s
    ensures NoDup(RemoveFirst(s, x)) && Elems(RemoveFirst(s, x)) == Elems(s) - {x}
  {
    var r := RemoveFirst(s, x);
    var i := IndexOf(s, x);
    forall p, q | 0 <= p < q < |r| ensures r[p] != r[q] {
      var p' := if p < i then p else p + 1;
      var q' := if q < i then q else q + 1;
      assert r[p] == s[p'] && r[q] == s[q'];
    }
    RemoveFirstElems(s, x);
  }

  /** The only element `s` may hold twice is `u`. */
  predicate RepeatsOnly<T(==)>(s: seq<T>, u: T) {
    forall i, j :: 0 <= i < j < |s| && s[i] == s[j] ==> s[i] == u
  }

  /** Removing an element cannot create a repeated element. */
  lemma RemoveFirstRepeats<T>(s: seq<T>, x: T, u: T)
    requires x in s && RepeatsOnly(s, u)
    ensures RepeatsOnly(RemoveFirst(s, x), u)
  {
    var r := RemoveFirst(s, x);
    var k := IndexOf(s, x);
    forall i, j | 0 <= i < j < |r| && r[i] == r[j] ensures r[i] == u {
      var i' := if i < k then i else i + 1;
      var j' := if j < k then j else j + 1;
      assert s[i'] == r[i] && s[j'] == r[j] && i' < j';
    }
  }

  /** Removing an element just appended to a sequence that lacked it gives
      the sequence back. */
  lemma RemoveFirstAppended<T>(s: seq<T>, x: T)
    requires x !in s
    ensures RemoveFirst(s + [x], x) == s
  {
    assert (s + [x])[..|s|] == s;
  }

  /** The elements of `s`, each once: a witness that `list(set(s))` has a
      value. */
  function Distinct<T(==)>(s: seq<T>): (r: seq<T>)
    ensures NoDup(r) && Elems(r) == Elems(s)
  {
    if s == [] then []
    else
      var rest := Distinct(s[1..]);
      assert Elems(s) == {s[0]} + Elems(s[1..]);
      if s[0] in s[1..] then rest
      else
        assert s[0] !in Elems(rest);
        [s[0]] + rest
  }

  /** Walking a sequence one element further: the prefix gains that element,
      which is new when the sequence has no repeats. */
  lemma PrefixStep<T>(s: seq<T>, i: nat)
    requires i < |s|
    ensures s[..i + 1] == s[..i] + [s[i]]
    ensures Elems(s[..i + 1]) == Elems(s[..i]) + {s[i]}
    ensures NoDup(s) ==> s[i] !in Elems(s[..i])
  {
    assert s[..i + 1] == s[..i] + [s[i]];
    if NoDup(s) {
      forall j | 0 <= j < i ensures s[..i][j] != s[i] {
        assert s[..i][j] == s[j];
      }
    }
  }

  /** `reversed(s)`. */
  function Reverse<T>(s: seq<T>): (r: seq<T>)
    ensures |r| == |s| && forall i :: 0 <= i < |s| ==> r[i] == s[|s| - 1 - i]
  {
    if s == [] then [] else Reverse(s[1..]) + [s[0]]
  }

  /** The first components of a sequence of pairs. */
  function Firsts<A, B>(q: seq<(A, B)>): (r: seq<A>)
    ensures |r| == |q| && forall i :: 0 <= i < |q| ==> r[i] == q[i].0
  {
    seq(|q|, i requires 0 <= i < |q| => q[i].0)
  }

  /** The first components of a concatenation. */
  lemma FirstsAppend<A, B>(p: seq<(A, B)>, q: seq<(A, B)>)
    ensures Firsts(p + q) == Firsts(p) + Firsts(q)
  {
    assert |Firsts(p + q)| == |Firsts(p) + Firsts(q)|;
    forall i | 0 <= i < |p + q| ensures Firsts(p + q)[i] == (Firsts(p) + Firsts(q))[i] {
      if i < |p| {
        assert (p + q)[i] == p[i];
      } else {
        assert (p + q)[i] == q[i - |p|];
      }
    }
  }

  /** Appending an element that is absent keeps a sequence free of repeats,
      and adds exactly that element. */
  lemma NoDupAppend<T>(s: seq<T>, x: T)
    requires NoDup(s) && x !in s
    ensures NoDup(s + [x]) && Elems(s + [x]) == Elems(s) + {x}
  {
    var r := s + [x];
    forall i, j | 0 <= i < j < |r| ensures r[i] != r[j] {
      assert r[i] == s[i];
      if j < |s| { assert r[j] == s[j]; }
    }
  }

  /** Putting an absent element in front keeps a sequence free of repeats. */
  lemma NoDupCons<T>(x: T, s: seq<T>)
    requires NoDup(s) && x !in s
    ensures NoDup([x] + s) && Elems([x] + s) == {x} + Elems(s)
  {
    var r := [x] + s;
    forall i, j | 0 <= i < j < |r| ensures r[i] != r[j] {
      assert r[j] == s[j - 1];
      if 0 < i { assert r[i] == s[i - 1]; }
    }
  }

  /** Concatenation is associative. */
  lemma AppendAssoc<T>(a: seq<T>, b: seq<T>, c: seq<T>)
    ensures (a + b) + c == a + (b + c)
  {
  }

  /** Python's `d.get(k, default)` on a dictionary of integers. */
  function GetOr<K, V>(m: map<K, V>, k: K, default: V): V {
    if k in m then m[k] else default
  }
}
