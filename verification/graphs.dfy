/** Directed multigraphs over integer node ids, kept as an edge list in
    insertion order. A node's `out` list (successors, in order) and `in` list
    (predecessors, in order) are the projections `Outs` and `Ins` of that list;
    duplicates and self-loops are ordinary entries. */
module Graphs {
  import opened Base

  /** (source, destination) */
  type Edge = (nat, nat)

  predicate ValidEdges(E: seq<Edge>, n: nat)
  {
    forall e :: e in E ==> e.0 < n && e.1 < n
  }

  /** Node a's `out` list: the destinations of a's edges, in insertion order. */
  function Outs(E: seq<Edge>, a: nat): (r: seq<nat>)
    ensures forall b :: b in r <==> (a, b) in E
    ensures |r| <= |E|
  {
    OutsScan(E, a)
  }

  /** The scan of the edge list behind Outs, from the last edge back. */
  function OutsScan(E: seq<Edge>, a: nat): (r: seq<nat>)
    ensures forall b :: b in r <==> (a, b) in E
    ensures |r| <= |E|
  {
    if |E| == 0 then []
    else
      var E0 := E[..|E| - 1];
      assert E == E0 + [E[|E| - 1]];
      OutsScan(E0, a) + (if E[|E| - 1].0 == a then [E[|E| - 1].1] else [])
  }

  /** Node b's `in` list: the sources of b's edges, in insertion order. */
  function Ins(E: seq<Edge>, b: nat): (r: seq<nat>)
    ensures forall a :: a in r <==> (a, b) in E
    ensures |r| <= |E|
  {
    InsScan(E, b)
  }

  /** The scan of the edge list behind Ins, from the last edge back. */
  function InsScan(E: seq<Edge>, b: nat): (r: seq<nat>)
    ensures forall a :: a in r <==> (a, b) in E
    ensures |r| <= |E|
  {
    if |E| == 0 then []
    else
      var E0 := E[..|E| - 1];
      assert E == E0 + [E[|E| - 1]];
      InsScan(E0, b) + (if E[|E| - 1].1 == b then [E[|E| - 1].0] else [])
  }

  lemma {:induction false} OutsConcat(A: seq<Edge>, B: seq<Edge>, a: nat)
    ensures Outs(A + B, a) == Outs(A, a) + Outs(B, a)
    decreases |B|
  {
    if |B| == 0 {
      assert A + B == A;
    } else {
      var B0 := B[..|B| - 1];
      assert (A + B)[..|A + B| - 1] == A + B0;
      OutsConcat(A, B0, a);
    }
  }

  lemma {:induction false} InsConcat(A: seq<Edge>, B: seq<Edge>, b: nat)
    ensures Ins(A + B, b) == Ins(A, b) + Ins(B, b)
    decreases |B|
  {
    if |B| == 0 {
      assert A + B == A;
    } else {
      var B0 := B[..|B| - 1];
      assert (A + B)[..|A + B| - 1] == A + B0;
      InsConcat(A, B0, b);
    }
  }

  /** Appending one edge appends exactly one `out` entry at its source and one
      `in` entry at its destination; every other list is unchanged. */
  lemma AddEdgeAppends(E: seq<Edge>, e: Edge, x: nat)
    ensures Outs(E + [e], x) == Outs(E, x) + (if e.0 == x then [e.1] else [])
    ensures Ins(E + [e], x) == Ins(E, x) + (if e.1 == x then [e.0] else [])
  {
    assert (E + [e])[..|E + [e]| - 1] == E;
  }

  lemma RemoveFirstSplit<T>(X: seq<T>, u: T, Y: seq<T>)
    requires u !in X
    ensures RemoveFirst(X + [u] + Y, u) == X + Y
  {
    var s := X + [u] + Y;
    assert s[|X|] == u;
    assert forall j :: 0 <= j < |X| ==> s[j] == X[j];
    assert IndexOf(s, u) == |X|;
    assert s[..|X|] == X;
    assert s[|X| + 1..] == Y;
  }

  /** The adjacency lists of A + [e] + B, split at e. */
  lemma SplitAdjacency(A: seq<Edge>, e: Edge, B: seq<Edge>, x: nat)
    ensures Outs(A + [e] + B, x) == Outs(A, x) + (if e.0 == x then [e.1] else []) + Outs(B, x)
    ensures Ins(A + [e] + B, x) == Ins(A, x) + (if e.1 == x then [e.0] else []) + Ins(B, x)
    ensures Outs(A + B, x) == Outs(A, x) + Outs(B, x)
    ensures Ins(A + B, x) == Ins(A, x) + Ins(B, x)
  {
    OutsConcat(A, B, x);
    InsConcat(A, B, x);
    OutsConcat(A + [e], B, x);
    InsConcat(A + [e], B, x);
    AddEdgeAppends(A, e, x);
  }

  /** Deleting the first occurrence of v->u from the edge list is what the two
      calls `src.out.remove(dst)` and `dst.in.remove(src)` do to the
      adjacency lists, and it leaves every other list alone. */
  lemma RemoveEdgeAdjacency(E: seq<Edge>, v: nat, u: nat)
    requires (v, u) in E
    ensures Outs(RemoveFirst(E, (v, u)), v) == RemoveFirst(Outs(E, v), u)
    ensures Ins(RemoveFirst(E, (v, u)), u) == RemoveFirst(Ins(E, u), v)
    ensures forall a :: a != v ==> Outs(RemoveFirst(E, (v, u)), a) == Outs(E, a)
    ensures forall b :: b != u ==> Ins(RemoveFirst(E, (v, u)), b) == Ins(E, b)
  {
    var A, B := SplitAtFirst(E, (v, u));
    RemoveSplitAdjacency(A, v, u, B);
  }

  lemma SplitAtFirst<T>(s: seq<T>, x: T) returns (A: seq<T>, B: seq<T>)
    requires x in s
    ensures s == A + [x] + B && x !in A && RemoveFirst(s, x) == A + B
  {
    var i := IndexOf(s, x);
    A, B := s[..i], s[i + 1..];
    assert s == A + [x] + B;
    assert forall k :: 0 <= k < |A| ==> A[k] == s[k];
  }

  lemma RemoveSplitAdjacency(A: seq<Edge>, v: nat, u: nat, B: seq<Edge>)
    requires (v, u) !in A
    ensures Outs(A + B, v) == RemoveFirst(Outs(A + [(v, u)] + B, v), u)
    ensures Ins(A + B, u) == RemoveFirst(Ins(A + [(v, u)] + B, u), v)
    ensures forall a :: a != v ==> Outs(A + B, a) == Outs(A + [(v, u)] + B, a)
    ensures forall b :: b != u ==> Ins(A + B, b) == Ins(A + [(v, u)] + B, b)
  {
    assert Outs(A + B, v) == RemoveFirst(Outs(A + [(v, u)] + B, v), u) by {
      SplitAdjacency(A, (v, u), B, v);
      RemoveFirstSplit(Outs(A, v), u, Outs(B, v));
    }
    assert Ins(A + B, u) == RemoveFirst(Ins(A + [(v, u)] + B, u), v) by {
      SplitAdjacency(A, (v, u), B, u);
      RemoveFirstSplit(Ins(A, u), v, Ins(B, u));
    }
    forall a | a != v
      ensures Outs(A + B, a) == Outs(A + [(v, u)] + B, a)
    {
      SplitAdjacency(A, (v, u), B, a);
    }
    forall b | b != u
      ensures Ins(A + B, b) == Ins(A + [(v, u)] + B, b)
    {
      SplitAdjacency(A, (v, u), B, b);
    }
  }

  // ---------------------------------------------------------------------
  // Paths and reachability

  /** A non-empty walk along edges of E (length |p| - 1). */
  ghost predicate IsPath(E: seq<Edge>, p: seq<nat>)
  {
    |p| >= 1 && forall i :: 0 <= i < |p| - 1 ==> (p[i], p[i + 1]) in E
  }

  ghost predicate PathFrom(E: seq<Edge>, p: seq<nat>, x: nat, y: nat)
  {
    IsPath(E, p) && p[0] == x && p[|p| - 1] == y
  }

  ghost predicate Reaches(E: seq<Edge>, x: nat, y: nat)
  {
    exists p :: PathFrom(E, p, x, y)
  }

  /** No edge lies on a directed cycle: its head never reaches its tail. */
  ghost predicate Acyclic(E: seq<Edge>)
  {
    forall e :: e in E ==> !Reaches(E, e.1, e.0)
  }

  /** Nodes that reach x (x included). */
  ghost function Anc(E: seq<Edge>, n: nat, x: nat): set<nat>
  {
    set y | 0 <= y < n && Reaches(E, y, x)
  }

  /** Nodes reachable from x (x included). */
  ghost function Desc(E: seq<Edge>, n: nat, x: nat): set<nat>
  {
    set y | 0 <= y < n && Reaches(E, x, y)
  }

  lemma ReachesRefl(E: seq<Edge>, x: nat)
    ensures Reaches(E, x, x)
  {
    assert PathFrom(E, [x], x, x);
  }

  lemma ReachesEdge(E: seq<Edge>, x: nat, y: nat)
    requires (x, y) in E
    ensures Reaches(E, x, y)
  {
    assert PathFrom(E, [x, y], x, y);
  }

  lemma PathConcat(E: seq<Edge>, p: seq<nat>, q: seq<nat>, x: nat, y: nat, z: nat)
    requires PathFrom(E, p, x, y) && PathFrom(E, q, y, z)
    ensures PathFrom(E, p + q[1..], x, z)
  {
    var r := p + q[1..];
    forall i | 0 <= i < |r| - 1
      ensures (r[i], r[i + 1]) in E
    {
      if i < |p| - 1 {
        assert r[i] == p[i] && r[i + 1] == p[i + 1];
      } else {
        assert r[i] == q[i - |p| + 1] && r[i + 1] == q[i - |p| + 2];
      }
    }
  }

  lemma ReachesTrans(E: seq<Edge>, x: nat, y: nat, z: nat)
    requires Reaches(E, x, y) && Reaches(E, y, z)
    ensures Reaches(E, x, z)
  {
    var p :| PathFrom(E, p, x, y);
    var q :| PathFrom(E, q, y, z);
    PathConcat(E, p, q, x, y, z);
  }

  lemma ReachesStepFront(E: seq<Edge>, x: nat, y: nat, z: nat)
    requires (x, y) in E && Reaches(E, y, z)
    ensures Reaches(E, x, z)
  {
    ReachesEdge(E, x, y);
    ReachesTrans(E, x, y, z);
  }

  lemma ReachesStepBack(E: seq<Edge>, x: nat, y: nat, z: nat)
    requires Reaches(E, x, y) && (y, z) in E
    ensures Reaches(E, x, z)
  {
    ReachesEdge(E, y, z);
    ReachesTrans(E, x, y, z);
  }

  /** Reachability only grows with the edge set. */
  lemma ReachesSub(E: seq<Edge>, F: seq<Edge>, x: nat, y: nat)
    requires forall e :: e in E ==> e in F
    requires Reaches(E, x, y)
    ensures Reaches(F, x, y)
  {
    var p :| PathFrom(E, p, x, y);
    assert PathFrom(F, p, x, y);
  }

  /** A path of more than one node leaves its start along an out-edge and
      enters its end along an in-edge. */
  lemma PathEnds(E: seq<Edge>, p: seq<nat>)
    requires IsPath(E, p)
    ensures |p| == 1 || p[1] in Outs(E, p[0])
    ensures |p| == 1 || p[|p| - 2] in Ins(E, p[|p| - 1])
  {
    if |p| > 1 {
      assert (p[0], p[1]) in E;
      assert (p[|p| - 2], p[|p| - 1]) in E;
    }
  }

  /** Every path can be shortened to one without repeated nodes. */
  lemma {:induction false} Shortcut(E: seq<Edge>, p: seq<nat>, x: nat, y: nat) returns (q: seq<nat>)
    requires PathFrom(E, p, x, y)
    ensures PathFrom(E, q, x, y) && Distinct(q) && |q| <= |p|
    decreases |p|
  {
    if Distinct(p) {
      q := p;
    } else {
      var i, j :| 0 <= i < j < |p| && p[i] == p[j];
      var r := p[..i] + p[j..];
      forall k | 0 <= k < |r| - 1
        ensures (r[k], r[k + 1]) in E
      {
        if k + 1 < i {
          assert r[k] == p[k] && r[k + 1] == p[k + 1];
        } else if k + 1 == i {
          assert r[k] == p[k] && r[k + 1] == p[j] == p[k + 1];
        } else {
          assert r[k] == p[k - i + j] && r[k + 1] == p[k - i + j + 1];
        }
      }
      assert r[0] == x by {
        if i == 0 { assert r[0] == p[j] == p[0]; } else { assert r[0] == p[0]; }
      }
      assert r[|r| - 1] == p[|p| - 1];
      q := Shortcut(E, r, x, y);
    }
  }

  /** In a graph whose edges are valid, a node a valid node reaches is valid. */
  lemma ReachesValid(E: seq<Edge>, n: nat, x: nat, y: nat)
    requires ValidEdges(E, n) && x < n && Reaches(E, x, y)
    ensures y < n
  {
    var p :| PathFrom(E, p, x, y);
    if |p| > 1 {
      assert (p[|p| - 2], p[|p| - 1]) in E;
    }
  }

  lemma AcyclicNoSelfLoop(E: seq<Edge>, a: nat, b: nat)
    requires Acyclic(E) && (a, b) in E
    ensures a != b
  {
    if a == b { ReachesRefl(E, a); }
  }

  /** Along an edge p->x of an acyclic graph the ancestor set strictly grows:
      the termination measure of the level assignment. */
  lemma AncStrict(E: seq<Edge>, n: nat, p: nat, x: nat)
    requires Acyclic(E) && x < n && (p, x) in E
    ensures Anc(E, n, p) < Anc(E, n, x)
  {
    forall y | y in Anc(E, n, p)
      ensures y in Anc(E, n, x)
    {
      ReachesStepBack(E, y, p, x);
    }
    ReachesRefl(E, x);
    assert x in Anc(E, n, x);
    assert x !in Anc(E, n, p);
  }

  /** Along an edge x->s of an acyclic graph the descendant set strictly
      shrinks: the termination measure of normalisation. */
  lemma DescStrict(E: seq<Edge>, n: nat, x: nat, s: nat)
    requires Acyclic(E) && x < n && (x, s) in E
    ensures Desc(E, n, s) < Desc(E, n, x)
  {
    forall y | y in Desc(E, n, s)
      ensures y in Desc(E, n, x)
    {
      ReachesStepFront(E, x, s, y);
    }
    ReachesRefl(E, x);
    assert x in Desc(E, n, x);
    assert x !in Desc(E, n, s);
  }

  /** Removing edges keeps a graph acyclic... stated the other way round: a
      subgraph of an acyclic graph is acyclic. */
  lemma AcyclicSub(E: seq<Edge>, F: seq<Edge>)
    requires forall e :: e in E ==> e in F
    requires Acyclic(F)
    ensures Acyclic(E)
  {
    forall e | e in E
      ensures !Reaches(E, e.1, e.0)
    {
      if Reaches(E, e.1, e.0) { ReachesSub(E, F, e.1, e.0); }
    }
  }
}
