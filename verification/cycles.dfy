/** `breakCycles`: each round scans every node u and every predecessor v in
    u's `in` list (edge v->u), asks for the length of the shortest path from u
    back to v, and deletes the edge with the smallest non-negative length —
    the first such edge in scan order, since the comparison is a strict `<`.
    Rounds repeat until no edge lies on a cycle. */
module CycleBreaking {
  import opened Base
  import opened Graphs
  import opened Connectivity

  /** Edge src->dst with the length of the shortest back path dst ~> src. */
  datatype Candidate = Candidate(src: nat, dst: nat, len: int)

  /** The back-path length the scan computes for edge e = v->u:
      `u.isConnectedTo(v, new HashSet())`. An edge whose head is out of
      range cannot occur in a valid graph; it gets -1. */
  function Lengths(E: seq<Edge>, n: nat): Edge -> int
    requires ValidEdges(E, n)
  {
    (e: Edge) => if e.1 < n then BackPathLength(E, n, e.1, e.0) else -1
  }

  /** One comparison of the scan: `pathLength >= 0 && pathLength < minCycleLength`,
      with None standing for minCycleLength == Integer.MAX_VALUE. */
  function Pick(best: Option<Candidate>, c: Candidate): Option<Candidate>
  {
    if c.len >= 0 && (best.None? || c.len < best.value.len) then Some(c) else best
  }

  /** The inner loop `for (Node v : u.in)`, with the back-path lengths
      given by len. */
  function ScanIns(len: Edge -> int, u: nat, preds: seq<nat>, best: Option<Candidate>): Option<Candidate>
    decreases |preds|
  {
    if preds == [] then best
    else ScanIns(len, u, preds[1..], Pick(best, Candidate(preds[0], u, len((preds[0], u)))))
  }

  /** The outer loop `for (Node u : nodes)`, from node u on. */
  function ScanNodes(E: seq<Edge>, n: nat, len: Edge -> int, u: nat, best: Option<Candidate>): Option<Candidate>
    decreases n - u
  {
    if u >= n then best
    else ScanNodes(E, n, len, u + 1, ScanIns(len, u, Ins(E, u), best))
  }

  // ---------------------------------------------------------------------
  // Reference: the scan order and the first minimum over it

  /** The edges v->u for v in preds, in order. */
  function Row(u: nat, preds: seq<nat>): (R: seq<Edge>)
    ensures |R| == |preds|
    ensures forall k :: 0 <= k < |R| ==> R[k] == (preds[k], u)
  {
    if preds == [] then [] else [(preds[0], u)] + Row(u, preds[1..])
  }

  /** The edges in the order the two loops visit them, from node u on. */
  function ScanOrder(E: seq<Edge>, n: nat, u: nat): seq<Edge>
    decreases n - u
  {
    if u >= n then [] else Row(u, Ins(E, u)) + ScanOrder(E, n, u + 1)
  }

  /** Each edge of L paired with its back-path length. */
  function Weigh(len: Edge -> int, L: seq<Edge>): (W: seq<Candidate>)
    ensures |W| == |L|
    ensures forall k :: 0 <= k < |W| ==> W[k] == Candidate(L[k].0, L[k].1, len(L[k]))
  {
    if L == [] then [] else [Candidate(L[0].0, L[0].1, len(L[0]))] + Weigh(len, L[1..])
  }

  /** The first candidate of C with the smallest non-negative length (folding
      from the back, so the accumulator is always the prefix's answer). */
  function FirstMin(C: seq<Candidate>): Option<Candidate>
  {
    if C == [] then None else Pick(FirstMin(C[..|C| - 1]), C[|C| - 1])
  }

  /** C[k] has the smallest non-negative length, and every earlier candidate
      is strictly longer or has no back path. */
  ghost predicate IsFirstMin(C: seq<Candidate>, k: int)
  {
    && 0 <= k < |C|
    && C[k].len >= 0
    && (forall j :: 0 <= j < k ==> C[j].len < 0 || C[j].len > C[k].len)
    && (forall j :: 0 <= j < |C| ==> C[j].len < 0 || C[j].len >= C[k].len)
  }

  lemma {:induction false} FirstMinSpec(C: seq<Candidate>)
    ensures FirstMin(C).None? <==> forall k :: 0 <= k < |C| ==> C[k].len < 0
    ensures FirstMin(C).Some? ==> exists k :: IsFirstMin(C, k) && FirstMin(C).value == C[k]
    decreases |C|
  {
    if C != [] {
      var C0 := C[..|C| - 1];
      var x := C[|C| - 1];
      FirstMinSpec(C0);
      assert forall j :: 0 <= j < |C0| ==> C0[j] == C[j];
      var r := FirstMin(C0);
      if r.None? {
        if x.len >= 0 {
          assert IsFirstMin(C, |C| - 1);
        }
      } else {
        var k :| IsFirstMin(C0, k) && r.value == C0[k];
        if x.len >= 0 && x.len < r.value.len {
          assert IsFirstMin(C, |C| - 1);
        } else {
          assert IsFirstMin(C, k);
        }
      }
    }
  }

  lemma {:induction false} WeighConcat(len: Edge -> int, A: seq<Edge>, B: seq<Edge>)
    ensures Weigh(len, A + B) == Weigh(len, A) + Weigh(len, B)
  {
    var W := Weigh(len, A + B);
    var V := Weigh(len, A) + Weigh(len, B);
    assert |W| == |V|;
    forall k | 0 <= k < |W|
      ensures W[k] == V[k]
    {
      if k >= |A| {
        assert (A + B)[k] == B[k - |A|];
      }
    }
  }

  /** The comparisons of a scan over W, front to back, from the start value acc. */
  function Fold(acc: Option<Candidate>, W: seq<Candidate>): Option<Candidate>
    decreases |W|
  {
    if W == [] then acc else Fold(Pick(acc, W[0]), W[1..])
  }

  lemma {:induction false} FoldConcat(acc: Option<Candidate>, A: seq<Candidate>, B: seq<Candidate>)
    ensures Fold(acc, A + B) == Fold(Fold(acc, A), B)
    decreases |A|
  {
    if A == [] {
      assert A + B == B;
    } else {
      assert (A + B)[0] == A[0] && (A + B)[1..] == A[1..] + B;
      FoldConcat(Pick(acc, A[0]), A[1..], B);
    }
  }

  /** Scanning W after the candidates C gives the first minimum of C + W. */
  lemma {:induction false} FoldFirstMin(C: seq<Candidate>, W: seq<Candidate>)
    ensures Fold(FirstMin(C), W) == FirstMin(C + W)
    decreases |W|
  {
    if W == [] {
      assert C + W == C;
    } else {
      var C' := C + [W[0]];
      assert C'[..|C'| - 1] == C;
      FoldFirstMin(C', W[1..]);
      assert C' + W[1..] == C + W;
    }
  }

  lemma {:induction false} ScanInsFold(len: Edge -> int, u: nat, preds: seq<nat>, acc: Option<Candidate>)
    ensures ScanIns(len, u, preds, acc) == Fold(acc, Weigh(len, Row(u, preds)))
    decreases |preds|
  {
    if preds != [] {
      ScanInsFold(len, u, preds[1..], Pick(acc, Candidate(preds[0], u, len((preds[0], u)))));
      var L := Row(u, preds);
      assert L[1..] == Row(u, preds[1..]);
      assert Weigh(len, L)[1..] == Weigh(len, L[1..]);
    }
  }

  lemma {:induction false} ScanNodesFold(E: seq<Edge>, n: nat, len: Edge -> int, u: nat, acc: Option<Candidate>)
    ensures ScanNodes(E, n, len, u, acc) == Fold(acc, Weigh(len, ScanOrder(E, n, u)))
    decreases n - u
  {
    if u < n {
      var R := Row(u, Ins(E, u));
      var S := ScanOrder(E, n, u + 1);
      ScanInsFold(len, u, Ins(E, u), acc);
      ScanNodesFold(E, n, len, u + 1, Fold(acc, Weigh(len, R)));
      WeighConcat(len, R, S);
      FoldConcat(acc, Weigh(len, R), Weigh(len, S));
    }
  }

  /** What the scan visits from node u0 on is an edge v->u of E with u0 <= u < n. */
  lemma {:induction false} ScanOrderSound(E: seq<Edge>, n: nat, u0: nat, e: Edge)
    requires e in ScanOrder(E, n, u0)
    ensures e in E && u0 <= e.1 < n
    decreases n - u0
  {
    if u0 < n {
      var R := Row(u0, Ins(E, u0));
      InConcat(R, ScanOrder(E, n, u0 + 1), e);
      if e in R {
        var k :| 0 <= k < |R| && R[k] == e;
        assert Ins(E, u0)[k] in Ins(E, u0);
      } else {
        ScanOrderSound(E, n, u0 + 1, e);
      }
    }
  }

  /** Every edge v->u of E with u0 <= u < n is visited from node u0 on. */
  lemma {:induction false} ScanOrderComplete(E: seq<Edge>, n: nat, u0: nat, e: Edge)
    requires e in E && u0 <= e.1 < n
    ensures e in ScanOrder(E, n, u0)
    decreases n - u0
  {
    var R := Row(u0, Ins(E, u0));
    InConcat(R, ScanOrder(E, n, u0 + 1), e);
    if e.1 == u0 {
      assert e.0 in Ins(E, u0);
      var k := IndexOf(Ins(E, u0), e.0);
      assert R[k] == e;
    } else {
      ScanOrderComplete(E, n, u0 + 1, e);
    }
  }

  /** The scan order holds exactly the edges of the graph. */
  lemma ScanOrderContents(E: seq<Edge>, n: nat)
    requires ValidEdges(E, n)
    ensures forall e :: e in ScanOrder(E, n, 0) <==> e in E
  {
    forall e | e in ScanOrder(E, n, 0) ensures e in E { ScanOrderSound(E, n, 0, e); }
    forall e | e in E ensures e in ScanOrder(E, n, 0) { ScanOrderComplete(E, n, 0, e); }
  }

  // ---------------------------------------------------------------------
  // One round and the whole loop

  /** One round's choice. None exactly when the working graph is acyclic;
      otherwise an edge of E whose head reaches its tail (it lies on a
      cycle), with the shortest back path of all such edges, and the first
      of those in scan order. */
  function FindEdge(E: seq<Edge>, n: nat): (r: Option<Candidate>)
    requires ValidEdges(E, n)
    ensures r.None? <==> Acyclic(E)
    ensures r.Some? ==> (r.value.src, r.value.dst) in E
    ensures r.Some? ==> r.value.len >= 0 && r.value.len == BackPathLength(E, n, r.value.dst, r.value.src)
    ensures r.Some? ==> Reaches(E, r.value.dst, r.value.src)
    ensures r.Some? ==> forall e :: e in E && Reaches(E, e.1, e.0) ==>
      r.value.len <= BackPathLength(E, n, e.1, e.0)
    ensures r.Some? ==> exists k ::
      IsFirstMin(Weigh(Lengths(E, n), ScanOrder(E, n, 0)), k) && ScanOrder(E, n, 0)[k] == (r.value.src, r.value.dst)
  {
    ScanIsFirstMin(E, n, Lengths(E, n));
    FindEdgeNone(E, n);
    FindEdgeSome(E, n);
    ScanNodes(E, n, Lengths(E, n), 0, None)
  }

  /** The two nested loops compute the first minimum of the scan order. */
  lemma ScanIsFirstMin(E: seq<Edge>, n: nat, len: Edge -> int)
    ensures ScanNodes(E, n, len, 0, None) == FirstMin(Weigh(len, ScanOrder(E, n, 0)))
  {
    ScanNodesFold(E, n, len, 0, None);
    FoldFirstMin([], Weigh(len, ScanOrder(E, n, 0)));
    assert [] + Weigh(len, ScanOrder(E, n, 0)) == Weigh(len, ScanOrder(E, n, 0));
  }

  /** The length the scan sees for an edge of a valid graph is its back-path length. */
  lemma LengthAt(E: seq<Edge>, n: nat, L: seq<Edge>, k: int)
    requires ValidEdges(E, n) && 0 <= k < |L| && L[k] in E
    ensures Weigh(Lengths(E, n), L)[k].len == BackPathLength(E, n, L[k].1, L[k].0)
  {
  }

  lemma FindEdgeNone(E: seq<Edge>, n: nat)
    requires ValidEdges(E, n)
    ensures FirstMin(Weigh(Lengths(E, n), ScanOrder(E, n, 0))).None? <==> Acyclic(E)
  {
    ScanOrderContents(E, n);
    var L := ScanOrder(E, n, 0);
    var W := Weigh(Lengths(E, n), L);
    FirstMinSpec(W);
    if FirstMin(W).None? {
      forall e | e in E
        ensures !Reaches(E, e.1, e.0)
      {
        var k :| 0 <= k < |L| && L[k] == e;
        LengthAt(E, n, L, k);
        assert W[k].len < 0;
      }
    } else {
      var k :| IsFirstMin(W, k);
      assert L[k] in L;
      LengthAt(E, n, L, k);
    }
  }

  lemma FindEdgeSome(E: seq<Edge>, n: nat)
    requires ValidEdges(E, n)
    ensures var r := FirstMin(Weigh(Lengths(E, n), ScanOrder(E, n, 0)));
      r.Some? ==>
      && (r.value.src, r.value.dst) in E
      && r.value.len >= 0 && r.value.len == BackPathLength(E, n, r.value.dst, r.value.src)
      && (forall e :: e in E && Reaches(E, e.1, e.0) ==> r.value.len <= BackPathLength(E, n, e.1, e.0))
      && (exists k :: IsFirstMin(Weigh(Lengths(E, n), ScanOrder(E, n, 0)), k) && ScanOrder(E, n, 0)[k] == (r.value.src, r.value.dst))
  {
    ScanOrderContents(E, n);
    var L := ScanOrder(E, n, 0);
    var W := Weigh(Lengths(E, n), L);
    FirstMinSpec(W);
    if FirstMin(W).Some? {
      var k :| IsFirstMin(W, k) && FirstMin(W).value == W[k];
      assert L[k] in L;
      LengthAt(E, n, L, k);
      forall e | e in E && Reaches(E, e.1, e.0)
        ensures W[k].len <= BackPathLength(E, n, e.1, e.0)
      {
        var j :| 0 <= j < |L| && L[j] == e;
        LengthAt(E, n, L, j);
        assert W[j].len >= 0;
      }
    }
  }

  /** The `while(true)` loop of breakCycles: returns the acyclic working
      graph and the deleted edges in deletion order. Each round deletes one
      occurrence of one edge, so there are at most |E| rounds; every deleted
      edge lay on a cycle of the input graph. */
  function BreakCycles(E: seq<Edge>, n: nat): (r: (seq<Edge>, seq<Edge>))
    requires ValidEdges(E, n)
    ensures ValidEdges(r.0, n)
    ensures multiset(r.0) + multiset(r.1) == multiset(E)
    ensures |r.1| <= |E|
    ensures Acyclic(r.0)
    ensures forall e :: e in r.1 ==> Reaches(E, e.1, e.0)
    decreases |E|
  {
    match FindEdge(E, n)
    case None => (E, [])
    case Some(c) =>
      var e := (c.src, c.dst);
      var E' := RemoveFirst(E, e);
      RemoveFirstSub(E, e);
      var (w, rem) := BreakCycles(E', n);
      ReachesAllSub(E', E, rem);
      PutBack(E, E', e, w, rem);
      (w, [e] + rem)
  }

  /** The deleted edge and the rest of the deletions account for E. */
  lemma PutBack(E: seq<Edge>, E': seq<Edge>, e: Edge, w: seq<Edge>, rem: seq<Edge>)
    requires e in E && E' == RemoveFirst(E, e)
    requires multiset(w) + multiset(rem) == multiset(E')
    ensures multiset(w) + multiset([e] + rem) == multiset(E)
  {
    var m := multiset(E);
    assert multiset([e] + rem) == multiset{e} + multiset(rem);
    assert e in m;
    assert (m - multiset{e}) + multiset{e} == m;
  }

  lemma RemoveFirstSub(E: seq<Edge>, e: Edge)
    ensures forall x :: x in RemoveFirst(E, e) ==> x in E
  {
    forall x | x in RemoveFirst(E, e)
      ensures x in E
    {
      assert x in multiset(RemoveFirst(E, e));
    }
  }

  lemma ReachesAllSub(E: seq<Edge>, F: seq<Edge>, rem: seq<Edge>)
    requires forall x :: x in E ==> x in F
    requires forall x :: x in rem ==> Reaches(E, x.1, x.0)
    ensures forall x :: x in rem ==> Reaches(F, x.1, x.0)
  {
    forall x | x in rem
      ensures Reaches(F, x.1, x.0)
    {
      ReachesSub(E, F, x.1, x.0);
    }
  }

  // ---------------------------------------------------------------------
  // A two-cycle: the tie-break of the strict `<`

  /** On 0 -> 1 -> 0 both edges close a cycle of length 1. The scan visits
      node 0's in-edge 1 -> 0 first, and the strict `<` keeps it, so that is
      the edge deleted; the remaining graph is acyclic. */
  lemma TwoCycleTieBreak(E: seq<Edge>)
    requires E == [(0, 1), (1, 0)]
    ensures FindEdge(E, 2) == Some(Candidate(1, 0, 1))
    ensures BreakCycles(E, 2) == ([(0, 1)], [(1, 0)])
  {
    var c := TwoCycleFind(E);
    var E1 := TwoCycleRemove(E);
    BreakLast(E, E1, 2, c);
  }

  /** A round that leaves an acyclic graph is the last one. */
  lemma BreakLast(E: seq<Edge>, E1: seq<Edge>, n: nat, c: Candidate)
    requires ValidEdges(E, n) && FindEdge(E, n) == Some(c)
    requires RemoveFirst(E, (c.src, c.dst)) == E1 && ValidEdges(E1, n) && FindEdge(E1, n).None?
    ensures BreakCycles(E, n) == (E1, [(c.src, c.dst)])
  {
    RemoveFirstSub(E, (c.src, c.dst));
    assert BreakCycles(E1, n) == (E1, []);
    assert [(c.src, c.dst)] + [] == [(c.src, c.dst)];
  }

  /** Deleting 1 -> 0 from the two-cycle leaves 0 -> 1, which is acyclic. */
  lemma TwoCycleRemove(E: seq<Edge>) returns (E1: seq<Edge>)
    requires E == [(0, 1), (1, 0)]
    ensures E1 == [(0, 1)] && RemoveFirst(E, (1, 0)) == E1
    ensures ValidEdges(E1, 2) && FindEdge(E1, 2).None?
  {
    E1 := [(0, 1)];
    assert IndexOf(E, (1, 0)) == 1;
    OneEdgeAcyclic(E1);
  }

  /** The deletion round on the two-cycle picks 1 -> 0. */
  lemma TwoCycleFind(E: seq<Edge>) returns (c: Candidate)
    requires E == [(0, 1), (1, 0)]
    ensures ValidEdges(E, 2) && c == Candidate(1, 0, 1) && FindEdge(E, 2) == Some(c)
  {
    assert ValidEdges(E, 2);
    var SO := TwoCycleScan(E);
    OneStep(E, 0, 1);
    OneStep(E, 1, 0);
    var W := Weigh(Lengths(E, 2), SO);
    assert W[0] == Candidate(1, 0, 1) && W[1] == Candidate(0, 1, 1);
    assert (0, 1) in E && Reaches(E, 1, 0) by {
      assert PathFrom(E, [1, 0], 1, 0);
    }
    assert !IsFirstMin(W, 1);
    var r := FindEdge(E, 2);
    var k :| IsFirstMin(W, k) && SO[k] == (r.value.src, r.value.dst);
    c := Candidate(1, 0, 1);
  }

  /** The scan order of the two-cycle: node 0's in-edge, then node 1's. */
  lemma TwoCycleScan(E: seq<Edge>) returns (SO: seq<Edge>)
    requires E == [(0, 1), (1, 0)]
    ensures SO == [(1, 0), (0, 1)] && ScanOrder(E, 2, 0) == SO
  {
    var E1: seq<Edge> := [(0, 1)];
    assert E1 == [] + [(0, 1)] && E == E1 + [(1, 0)];
    assert Ins([], 0) == [] && Ins([], 1) == [];
    AddEdgeAppends([], (0, 1), 0);
    AddEdgeAppends([], (0, 1), 1);
    AddEdgeAppends(E1, (1, 0), 0);
    AddEdgeAppends(E1, (1, 0), 1);
    assert Ins(E, 0) == [1] && Ins(E, 1) == [0];
    SO := [(1, 0), (0, 1)];
    assert ScanOrder(E, 2, 2) == [];
    assert ScanOrder(E, 2, 1) == Row(1, [0]) + [];
    assert ScanOrder(E, 2, 0) == Row(0, [1]) + ScanOrder(E, 2, 1);
  }

  /** On a graph of two nodes with the edge u -> v, u != v, the shortest
      path from u to v has length exactly 1: there is one of length 1 and
      none of length 0. */
  lemma OneStep(E: seq<Edge>, u: nat, v: nat)
    requires ValidEdges(E, 2) && u < 2 && v < 2 && u != v && (u, v) in E
    ensures BackPathLength(E, 2, u, v) == 1
  {
    assert PathFrom(E, [u, v], u, v);
    assert forall q :: PathFrom(E, q, u, v) ==> |q| >= 2;
  }

  /** After the deletion only 0 -> 1 is left, and no cycle: a path from
      node 1 cannot take a step, so it never reaches node 0. */
  lemma OneEdgeAcyclic(E1: seq<Edge>)
    requires E1 == [(0, 1)]
    ensures FindEdge(E1, 2).None?
  {
    assert ValidEdges(E1, 2);
    forall p | IsPath(E1, p) && p[0] == 1
      ensures |p| == 1
    {
      FirstStep(E1, p);
    }
    assert !Reaches(E1, 1, 0);
  }

  /** A path is a single node or starts with an edge. */
  lemma FirstStep(E: seq<Edge>, p: seq<nat>)
    requires IsPath(E, p)
    ensures |p| == 1 || (p[0], p[1]) in E
  {
  }
}
