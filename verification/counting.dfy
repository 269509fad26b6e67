/** What getGraphicElement builds, counted. At every point of the recursion
    the arena holds one vertex per node that has one, plus DummyCount dummies
    for every edge drawn so far; and the `in` list of a node's vertex has
    one entry per drawn edge into the node. An edge x -> s is drawn once the
    `out` list of x's vertex has an entry for it. When every node is
    finished this gives n + the sum of DummyCount over the edges, and one
    `in` entry per in-edge. */
module Counting {
  import opened Base
  import opened Graphs
  import opened Elements

  /** The number of dummies an edge from level la to level lb needs: none to
      the next level, one per level strictly between on a longer edge down,
      and one per level from la down to lb on an edge that does not go
      down. */
  function DummyCount(la: int, lb: int): nat
  {
    if lb > la then lb - la - 1 else la - lb + 1
  }

  function Sum(s: seq<int>): int
  {
    if s == [] then 0 else Sum(s[..|s| - 1]) + s[|s| - 1]
  }

  /** Changing one term changes the sum by the difference. */
  lemma {:induction false} SumUpdate(s: seq<int>, i: nat, a: int)
    requires i < |s|
    ensures Sum(s[i := a]) == Sum(s) - s[i] + a
    decreases |s|
  {
    var t := s[i := a];
    if i < |s| - 1 {
      assert t[..|t| - 1] == s[..|s| - 1][i := a];
      SumUpdate(s[..|s| - 1], i, a);
    } else {
      assert t[..|t| - 1] == s[..|s| - 1];
    }
  }

  /** A sum of k equal terms c. */
  lemma {:induction false} SumConst(s: seq<int>, c: int)
    requires forall i :: 0 <= i < |s| ==> s[i] == c
    ensures Sum(s) == |s| * c
    decreases |s|
  {
    if s != [] {
      SumConst(s[..|s| - 1], c);
    }
  }

  /** How often b occurs in ss. */
  function Occ(b: nat, ss: seq<nat>): nat
  {
    if ss == [] then 0 else Occ(b, ss[..|ss| - 1]) + (if ss[|ss| - 1] == b then 1 else 0)
  }

  /** The dummies the edges from y to each node of ss need. */
  function Dummies(lv: seq<int>, y: nat, ss: seq<nat>): nat
    requires y < |lv| && forall s :: s in ss ==> s < |lv|
  {
    if ss == [] then 0
    else
      var ss0, s := ss[..|ss| - 1], ss[|ss| - 1];
      assert s in ss;
      assert forall t :: t in ss0 ==> t in ss;
      Dummies(lv, y, ss0) + DummyCount(lv[y], lv[s])
  }

  lemma DummiesSnoc(lv: seq<int>, y: nat, ss: seq<nat>, s: nat)
    requires y < |lv| && s < |lv| && forall t :: t in ss ==> t < |lv|
    ensures forall t :: t in ss + [s] ==> t < |lv|
    ensures Dummies(lv, y, ss + [s]) == Dummies(lv, y, ss) + DummyCount(lv[y], lv[s])
  {
    assert (ss + [s])[..|ss|] == ss;
  }

  lemma OccSnoc(b: nat, ss: seq<nat>, s: nat)
    ensures Occ(b, ss + [s]) == Occ(b, ss) + (if s == b then 1 else 0)
  {
    assert (ss + [s])[..|ss|] == ss;
  }

  /** The sum of DummyCount over the edge list. */
  function EdgeDummies(E: seq<Edge>, lv: seq<int>): nat
    requires ValidEdges(E, |lv|)
  {
    if E == [] then 0
    else
      assert forall e :: e in E[..|E| - 1] ==> e in E;
      EdgeDummies(E[..|E| - 1], lv) + DummyCount(lv[E[|E| - 1].0], lv[E[|E| - 1].1])
  }

  // ---------------------------------------------------------------------
  // The drawn edges of a scene

  /** The successors of y whose edges are drawn: as many leading entries of
      `Node.out` as the `out` list of y's vertex holds; none while y has no
      vertex (or if that list were longer than `Node.out`, which Tally rules
      out). */
  function Wired(sc: Scene, Eo: seq<Edge>, y: nat): (r: seq<nat>)
    ensures forall s :: s in r ==> (y, s) in Eo
  {
    if y < |sc.vertexOf| && sc.vertexOf[y].Some? && sc.vertexOf[y].value < |sc.outs|
       && |sc.outs[sc.vertexOf[y].value]| <= |Outs(Eo, y)|
    then
      var r := Outs(Eo, y)[..|sc.outs[sc.vertexOf[y].value]|];
      assert forall s :: s in r ==> s in Outs(Eo, y);
      r
    else []
  }

  /** One term per node: 1 if it has a vertex. */
  function VertexTerms(sc: Scene, n: nat): seq<int>
  {
    seq(n, y requires 0 <= y < n => if y < |sc.vertexOf| && sc.vertexOf[y].Some? then 1 else 0)
  }

  /** One term per node: the dummies of its drawn out-edges. */
  function DummyTerms(sc: Scene, Eo: seq<Edge>, lv: seq<int>, n: nat): seq<int>
    requires ValidEdges(Eo, n) && |lv| == n
  {
    seq(n, y requires 0 <= y < n => Dummies(lv, y, Wired(sc, Eo, y)))
  }

  /** One term per node: its drawn out-edges into b. */
  function InTerms(sc: Scene, Eo: seq<Edge>, n: nat, b: nat): seq<int>
  {
    seq(n, y requires 0 <= y < n => Occ(b, Wired(sc, Eo, y)))
  }

  /** The length of the `in` list of b's vertex, 0 while b has none. */
  function InLen(sc: Scene, b: nat): nat
  {
    if b < |sc.vertexOf| && sc.vertexOf[b].Some? && sc.vertexOf[b].value < |sc.ins|
    then |sc.ins[sc.vertexOf[b].value]| else 0
  }

  /** The bookkeeping getGraphicElement keeps: no vertex has more `out`
      entries than its node has out-edges; the arena holds exactly the
      vertices and the dummies of the drawn edges; and every node's vertex
      has one `in` entry per drawn edge into the node (a node without a
      vertex has no drawn edge into it). */
  ghost predicate Tally(sc: Scene, Eo: seq<Edge>, lv: seq<int>, n: nat)
    requires ValidEdges(Eo, n) && |lv| == n
  {
    && (forall y :: 0 <= y < n && y < |sc.vertexOf| && sc.vertexOf[y].Some? && sc.vertexOf[y].value < |sc.outs| ==>
          |sc.outs[sc.vertexOf[y].value]| <= |Outs(Eo, y)|)
    && |sc.elems| == Sum(VertexTerms(sc, n)) + Sum(DummyTerms(sc, Eo, lv, n))
    && forall b :: 0 <= b < n ==> Sum(InTerms(sc, Eo, n, b)) == InLen(sc, b)
  }

  // ---------------------------------------------------------------------
  // The steps

  /** The empty scene setGraph starts from. */
  lemma TallyEmpty(sc: Scene, Eo: seq<Edge>, lv: seq<int>, n: nat)
    requires ValidEdges(Eo, n) && |lv| == n
    requires sc.elems == [] && |sc.vertexOf| == n && forall y :: 0 <= y < n ==> sc.vertexOf[y].None?
    ensures Tally(sc, Eo, lv, n)
  {
    SumConst(VertexTerms(sc, n), 0);
    SumConst(DummyTerms(sc, Eo, lv, n), 0);
    forall b | 0 <= b < n
      ensures Sum(InTerms(sc, Eo, n, b)) == InLen(sc, b)
    {
      SumConst(InTerms(sc, Eo, n, b), 0);
    }
  }

  /** A node whose vertex and `out` list stay as they were keeps its drawn
      edges. */
  lemma WiredKept(sc: Scene, sc': Scene, Eo: seq<Edge>, y: nat)
    requires y < |sc.vertexOf| == |sc'.vertexOf| && sc'.vertexOf[y] == sc.vertexOf[y]
    requires sc.vertexOf[y].Some? ==>
      sc.vertexOf[y].value < |sc.outs| && sc.vertexOf[y].value < |sc'.outs| &&
      sc'.outs[sc.vertexOf[y].value] == sc.outs[sc.vertexOf[y].value]
    ensures Wired(sc', Eo, y) == Wired(sc, Eo, y)
  {
  }

  /** `new Vertex(this)` for node x, which had none: one more element, no
      new drawn edge, and an empty `in` list for x, into which nothing was
      drawn yet. */
  lemma TallyNewVertex(sc: Scene, sc': Scene, Eo: seq<Edge>, lv: seq<int>, n: nat, x: nat)
    requires ValidEdges(Eo, n) && |lv| == n && Valid(sc, n) && Valid(sc', n) && Tally(sc, Eo, lv, n)
    requires x < n && sc.vertexOf[x].None? && sc'.vertexOf == sc.vertexOf[x := Some(|sc.elems|)]
    requires |sc'.elems| == |sc.elems| + 1 && sc'.outs[|sc.elems|] == [] && sc'.ins == sc.ins + [[]]
    requires OutsKept(sc, sc', |sc.elems|, -1)
    ensures Tally(sc', Eo, lv, n)
  {
    assert VertexTerms(sc', n) == VertexTerms(sc, n)[x := 1];
    SumUpdate(VertexTerms(sc, n), x, 1);
    forall y | 0 <= y < n
      ensures Wired(sc', Eo, y) == Wired(sc, Eo, y)
    {
      if y != x {
        WiredKept(sc, sc', Eo, y);
      }
    }
    assert DummyTerms(sc', Eo, lv, n) == DummyTerms(sc, Eo, lv, n);
    forall b | 0 <= b < n
      ensures Sum(InTerms(sc', Eo, n, b)) == InLen(sc', b)
    {
      assert InTerms(sc', Eo, n, b) == InTerms(sc, Eo, n, b);
      if b != x && sc.vertexOf[b].Some? {
        assert sc'.ins[sc.vertexOf[b].value] == sc.ins[sc.vertexOf[b].value];
      }
    }
  }

  /** Drawing the edge x -> z, the k-th out-edge of x: the `out` list of
      x's vertex v gets its entry, the arena DummyCount(lv[x], lv[z]) new
      dummies, and the `in` list of z's vertex vz one entry; nothing else
      that is counted changes. */
  lemma TallyConnect(sc1: Scene, sc2: Scene, Eo: seq<Edge>, lv: seq<int>, n: nat,
                     x: nat, v: nat, z: nat, vz: nat, k: nat)
    requires ValidEdges(Eo, n) && |lv| == n && Valid(sc1, n) && Valid(sc2, n) && Tally(sc1, Eo, lv, n)
    requires sc2.vertexOf == sc1.vertexOf && x < n && sc1.vertexOf[x] == Some(v)
    requires z < n && sc1.vertexOf[z] == Some(vz)
    requires k == |sc1.outs[v]| && k < |Outs(Eo, x)| && z == Outs(Eo, x)[k]
    requires OutsKept(sc1, sc2, |sc1.elems|, v) && |sc2.outs[v]| == k + 1
    requires InsGrown(sc1, sc2, |sc1.elems|, vz, 1)
    requires |sc2.elems| == |sc1.elems| + DummyCount(lv[x], lv[z])
    ensures Tally(sc2, Eo, lv, n)
  {
    ConnectWired(sc1, sc2, Eo, n, x, v, z, k);
    assert VertexTerms(sc2, n) == VertexTerms(sc1, n);
    DummyTermsStep(sc1, sc2, Eo, lv, n, x, z);
    forall b | 0 <= b < n
      ensures Sum(InTerms(sc2, Eo, n, b)) == InLen(sc2, b)
    {
      InTermsStep(sc1, sc2, Eo, n, x, z, b);
      if sc1.vertexOf[b].Some? {
        assert sc1.elems[sc1.vertexOf[b].value].kind == VertexOf(b);
      }
    }
  }

  /** Only x's drawn edges change, by z at the end. */
  lemma ConnectWired(sc1: Scene, sc2: Scene, Eo: seq<Edge>, n: nat, x: nat, v: nat, z: nat, k: nat)
    requires ValidEdges(Eo, n) && Valid(sc1, n) && Valid(sc2, n)
    requires sc2.vertexOf == sc1.vertexOf && x < n && sc1.vertexOf[x] == Some(v)
    requires k == |sc1.outs[v]| && k < |Outs(Eo, x)| && z == Outs(Eo, x)[k]
    requires OutsKept(sc1, sc2, |sc1.elems|, v) && |sc2.outs[v]| == k + 1
    ensures Wired(sc2, Eo, x) == Wired(sc1, Eo, x) + [z]
    ensures forall y :: 0 <= y < n && y != x ==> Wired(sc2, Eo, y) == Wired(sc1, Eo, y)
  {
    assert Outs(Eo, x)[..k + 1] == Outs(Eo, x)[..k] + [z];
    forall y | 0 <= y < n && y != x
      ensures Wired(sc2, Eo, y) == Wired(sc1, Eo, y)
    {
      if sc1.vertexOf[y].Some? {
        assert sc1.elems[sc1.vertexOf[y].value].kind == VertexOf(y);
      }
      WiredKept(sc1, sc2, Eo, y);
    }
  }

  lemma DummyTermsStep(sc1: Scene, sc2: Scene, Eo: seq<Edge>, lv: seq<int>, n: nat, x: nat, z: nat)
    requires ValidEdges(Eo, n) && |lv| == n && x < n && z < n
    requires Wired(sc2, Eo, x) == Wired(sc1, Eo, x) + [z]
    requires forall y :: 0 <= y < n && y != x ==> Wired(sc2, Eo, y) == Wired(sc1, Eo, y)
    ensures Sum(DummyTerms(sc2, Eo, lv, n)) == Sum(DummyTerms(sc1, Eo, lv, n)) + DummyCount(lv[x], lv[z])
  {
    var W := Wired(sc1, Eo, x);
    assert forall s :: s in W ==> s < n;
    DummiesSnoc(lv, x, W, z);
    var D := DummyTerms(sc1, Eo, lv, n);
    assert DummyTerms(sc2, Eo, lv, n) == D[x := D[x] + DummyCount(lv[x], lv[z])];
    SumUpdate(D, x, D[x] + DummyCount(lv[x], lv[z]));
  }

  lemma InTermsStep(sc1: Scene, sc2: Scene, Eo: seq<Edge>, n: nat, x: nat, z: nat, b: nat)
    requires x < n
    requires Wired(sc2, Eo, x) == Wired(sc1, Eo, x) + [z]
    requires forall y :: 0 <= y < n && y != x ==> Wired(sc2, Eo, y) == Wired(sc1, Eo, y)
    ensures Sum(InTerms(sc2, Eo, n, b)) == Sum(InTerms(sc1, Eo, n, b)) + (if z == b then 1 else 0)
  {
    var W := Wired(sc1, Eo, x);
    OccSnoc(b, W, z);
    var I := InTerms(sc1, Eo, n, b);
    assert InTerms(sc2, Eo, n, b) == I[x := I[x] + (if z == b then 1 else 0)];
    SumUpdate(I, x, I[x] + (if z == b then 1 else 0));
  }

  // ---------------------------------------------------------------------
  // The end: all nodes finished

  /** One term per node: the dummies of all its out-edges. */
  function OutTerms(E: seq<Edge>, lv: seq<int>, n: nat): seq<int>
    requires ValidEdges(E, n) && |lv| == n
  {
    seq(n, y requires 0 <= y < n => Dummies(lv, y, Outs(E, y)))
  }

  /** One term per node: its out-edges into b. */
  function OccTerms(E: seq<Edge>, n: nat, b: nat): seq<int>
  {
    seq(n, y requires 0 <= y < n => Occ(b, Outs(E, y)))
  }

  lemma OutsEmpty(E: seq<Edge>, y: nat)
    requires E == []
    ensures Outs(E, y) == [] && Ins(E, y) == []
  {
  }

  /** Summing node by node over `Node.out` is summing over the edge list. */
  lemma {:induction false} DummiesRegroup(E: seq<Edge>, lv: seq<int>, n: nat)
    requires ValidEdges(E, n) && |lv| == n
    ensures Sum(OutTerms(E, lv, n)) == EdgeDummies(E, lv)
    decreases |E|
  {
    if E == [] {
      forall y | 0 <= y < n
        ensures OutTerms(E, lv, n)[y] == 0
      {
        OutsEmpty(E, y);
      }
      SumConst(OutTerms(E, lv, n), 0);
    } else {
      var e: Edge := E[|E| - 1];
      var E0 := E[..|E| - 1];
      assert E == E0 + [e];
      assert forall f :: f in E0 ==> f in E;
      DummiesRegroup(E0, lv, n);
      var T := OutTerms(E0, lv, n);
      OutTermsSnoc(E0, e, lv, n);
      SumUpdate(T, e.0, T[e.0] + DummyCount(lv[e.0], lv[e.1]));
    }
  }

  /** One more edge e adds its dummies to the term of e's source. */
  lemma OutTermsSnoc(E0: seq<Edge>, e: Edge, lv: seq<int>, n: nat)
    requires ValidEdges(E0 + [e], n) && |lv| == n
    ensures ValidEdges(E0, n) && e.0 < n && e.1 < n
    ensures OutTerms(E0 + [e], lv, n) == OutTerms(E0, lv, n)[e.0 := OutTerms(E0, lv, n)[e.0] + DummyCount(lv[e.0], lv[e.1])]
  {
    var E := E0 + [e];
    assert forall f :: f in E0 ==> f in E;
    assert e in E;
    var T := OutTerms(E0, lv, n);
    forall y | 0 <= y < n
      ensures OutTerms(E, lv, n)[y] == T[e.0 := T[e.0] + DummyCount(lv[e.0], lv[e.1])][y]
    {
      AddEdgeAppends(E0, e, y);
      assert OutTerms(E, lv, n)[y] == Dummies(lv, y, Outs(E, y));
      assert T[y] == Dummies(lv, y, Outs(E0, y));
      if y == e.0 {
        DummiesSnoc(lv, y, Outs(E0, y), e.1);
        assert Outs(E, y) == Outs(E0, y) + [e.1];
      } else {
        assert Outs(E, y) == Outs(E0, y);
      }
    }
  }

  /** Counting b over every node's `out` list counts b's `in` list. */
  lemma {:induction false} InsRegroup(E: seq<Edge>, n: nat, b: nat)
    requires ValidEdges(E, n)
    ensures Sum(OccTerms(E, n, b)) == |Ins(E, b)|
    decreases |E|
  {
    if E == [] {
      forall y | 0 <= y < n
        ensures OccTerms(E, n, b)[y] == 0
      {
        OutsEmpty(E, y);
      }
      SumConst(OccTerms(E, n, b), 0);
      OutsEmpty(E, b);
    } else {
      var e: Edge := E[|E| - 1];
      var E0 := E[..|E| - 1];
      assert E == E0 + [e];
      assert forall f :: f in E0 ==> f in E;
      assert e in E;
      InsRegroup(E0, n, b);
      var T := OccTerms(E0, n, b);
      var d := if e.1 == b then 1 else 0;
      forall y | 0 <= y < n
        ensures OccTerms(E, n, b)[y] == T[e.0 := T[e.0] + d][y]
      {
        AddEdgeAppends(E0, e, y);
        assert OccTerms(E, n, b)[y] == Occ(b, Outs(E, y)) && T[y] == Occ(b, Outs(E0, y));
        if y == e.0 {
          OccSnoc(b, Outs(E0, y), e.1);
          assert Outs(E, y) == Outs(E0, y) + [e.1];
        } else {
          assert Outs(E, y) == Outs(E0, y);
        }
      }
      assert OccTerms(E, n, b) == T[e.0 := T[e.0] + d];
      SumUpdate(T, e.0, T[e.0] + d);
      AddEdgeAppends(E0, e, b);
    }
  }

  /** Once every node has its vertex and all its out-edges drawn, the arena
      holds n vertices and the sum of DummyCount over the edges in dummies,
      and the `in` list of every node's vertex has one entry per in-edge. */
  lemma TallyDone(sc: Scene, Eo: seq<Edge>, lv: seq<int>, n: nat)
    requires ValidEdges(Eo, n) && |lv| == n && Valid(sc, n) && Tally(sc, Eo, lv, n)
    requires forall y :: 0 <= y < n ==> sc.vertexOf[y].Some? && |sc.outs[sc.vertexOf[y].value]| == |Outs(Eo, y)|
    ensures |sc.elems| == n + EdgeDummies(Eo, lv)
    ensures forall b :: 0 <= b < n ==> |sc.ins[sc.vertexOf[b].value]| == |Ins(Eo, b)|
  {
    WiredAll(sc, Eo, n);
    ElemsDone(sc, Eo, lv, n);
    forall b | 0 <= b < n
      ensures |sc.ins[sc.vertexOf[b].value]| == |Ins(Eo, b)|
    {
      InsDone(sc, Eo, n, b);
    }
  }

  lemma ElemsDone(sc: Scene, Eo: seq<Edge>, lv: seq<int>, n: nat)
    requires ValidEdges(Eo, n) && |lv| == n
    requires |sc.elems| == Sum(VertexTerms(sc, n)) + Sum(DummyTerms(sc, Eo, lv, n))
    requires forall y :: 0 <= y < n ==> y < |sc.vertexOf| && sc.vertexOf[y].Some? && Wired(sc, Eo, y) == Outs(Eo, y)
    ensures |sc.elems| == n + EdgeDummies(Eo, lv)
  {
    SumConst(VertexTerms(sc, n), 1);
    assert DummyTerms(sc, Eo, lv, n) == OutTerms(Eo, lv, n);
    DummiesRegroup(Eo, lv, n);
  }

  lemma InsDone(sc: Scene, Eo: seq<Edge>, n: nat, b: nat)
    requires ValidEdges(Eo, n) && b < n
    requires Sum(InTerms(sc, Eo, n, b)) == InLen(sc, b)
    requires b < |sc.vertexOf| && sc.vertexOf[b].Some? && sc.vertexOf[b].value < |sc.ins|
    requires forall y :: 0 <= y < n ==> Wired(sc, Eo, y) == Outs(Eo, y)
    ensures |sc.ins[sc.vertexOf[b].value]| == |Ins(Eo, b)|
  {
    assert InTerms(sc, Eo, n, b) == OccTerms(Eo, n, b);
    InsRegroup(Eo, n, b);
  }

  lemma WiredAll(sc: Scene, Eo: seq<Edge>, n: nat)
    requires Valid(sc, n)
    requires forall y :: 0 <= y < n ==> sc.vertexOf[y].Some? && |sc.outs[sc.vertexOf[y].value]| == |Outs(Eo, y)|
    ensures forall y :: 0 <= y < n ==> Wired(sc, Eo, y) == Outs(Eo, y)
  {
    forall y | 0 <= y < n
      ensures Wired(sc, Eo, y) == Outs(Eo, y)
    {
      assert Outs(Eo, y)[..|Outs(Eo, y)|] == Outs(Eo, y);
    }
  }
}
