/** `Node.getGraphicElement`: once the levels are fixed and the original
    adjacency is restored, every node gets exactly one Vertex, created on
    first request and cached in `Node.vertex`, and every out-edge of the
    node is wired from that vertex: directly, through a chain of forward
    dummies, or through a chain of reversed dummies. The Java recursion
    runs over the edges of the restored (possibly cyclic) graph and stops
    at nodes that already have a vertex; here the same recursion is a pair
    of mutually recursive functions whose measure is the set of nodes
    without a vertex. */
module Construction {
  import opened Base
  import opened Graphs
  import opened Elements
  import opened Counting

  // ---------------------------------------------------------------------
  // Wiring one edge

  /** The body of the loop over `out` in getGraphicElement for one edge
      from the vertex v (level la) to the vertex d (level lb): v's `out`
      list gets one more entry, the head of the wiring, the edge is realised
      with exactly DummyCount(la, lb) new dummies (all of them created by
      this call), d's `in` list gets one entry, and no other `out` or `in`
      list changes. */
  function Connect(sc: Scene, n: nat, v: nat, d: nat, la: int, lb: int): (r: Scene)
    requires Valid(sc, n)
    requires v < |sc.elems| && sc.elems[v].kind.VertexOf? && sc.elems[v].level == la
    requires d < |sc.elems| && sc.elems[d].kind.VertexOf? && sc.elems[d].level == lb
    ensures Valid(r, n) && Extends(sc, r) && r.vertexOf == sc.vertexOf
    ensures OutsKept(sc, r, |sc.elems|, v)
    ensures |r.elems| == |sc.elems| + DummyCount(la, lb)
    ensures r.outs[v] != [] && r.outs[v] == sc.outs[v] + [LastOut(r, v)]
    ensures Realized(r, la, lb, v, d, LastOut(r, v), |sc.elems|)
    ensures InsGrown(sc, r, |sc.elems|, d, 1)
  {
    if lb == la + 1 then ConnectDirect(sc, n, v, d, la, lb)
    else if lb > la then ConnectForward(sc, n, v, d, la, lb)
    else ConnectReversed(sc, n, v, d, la, lb)
  }

  /** `srcVertex.out.add(dstVertex); dstVertex.in.add(srcVertex)`. */
  function ConnectDirect(sc: Scene, n: nat, v: nat, d: nat, la: int, lb: int): (r: Scene)
    requires Valid(sc, n) && lb == la + 1
    requires v < |sc.elems| && d < |sc.elems|
    ensures Valid(r, n) && Extends(sc, r) && r.vertexOf == sc.vertexOf
    ensures OutsKept(sc, r, |sc.elems|, v) && |r.elems| == |sc.elems|
    ensures r.outs[v] != [] && r.outs[v] == sc.outs[v] + [LastOut(r, v)]
    ensures Realized(r, la, lb, v, d, LastOut(r, v), |sc.elems|)
    ensures InsGrown(sc, r, |sc.elems|, d, 1)
  {
    var sc1 := AddOut(sc, n, v, d);
    var r := AddIn(sc1, n, d, v);
    ExtendsTrans(sc, sc1, r);
    assert v in r.ins[d] by { assert r.ins[d] == sc1.ins[d] + [v]; }
    r
  }

  /** The long-edge case: the first dummy at level la + 1 joins v's `out`
      list, and ForwardLoop builds the rest of the chain up to lb - 1. */
  function ConnectForward(sc: Scene, n: nat, v: nat, d: nat, la: int, lb: int): (r: Scene)
    requires Valid(sc, n) && lb > la + 1
    requires v < |sc.elems| && d < |sc.elems| && sc.elems[d].kind.VertexOf?
    ensures Valid(r, n) && Extends(sc, r) && r.vertexOf == sc.vertexOf
    ensures OutsKept(sc, r, |sc.elems|, v) && |r.elems| == |sc.elems| + (lb - la - 1)
    ensures r.outs[v] != [] && r.outs[v] == sc.outs[v] + [LastOut(r, v)]
    ensures Realized(r, la, lb, v, d, LastOut(r, v), |sc.elems|)
    ensures InsGrown(sc, r, |sc.elems|, d, 1)
  {
    var (d1, sc1) := NewDummy(sc, n, false, la + 1);
    var sc2 := AddOut(sc1, n, v, d1);
    var r := ForwardLoop(sc2, n, d1, la + 2, lb, d);
    ExtendsTrans(sc, sc1, sc2);
    ExtendsTrans(sc, sc2, r);
    OutsKeptTrans(sc, sc1, sc2, |sc.elems|, v);
    OutsKeptTrans(sc, sc2, r, |sc.elems|, v);
    assert sc2.ins[..|sc.ins|] == sc.ins;
    InsGrownBelow(sc, sc2, r, d, 1);
    assert r.outs[v] == sc2.outs[v];
    r
  }

  /** The cycle case: the lowest reversed dummy at level lb links to d and
      joins d's `in` list; ReversedLoop stacks the others up to level la
      and puts the highest into v's `out` list. */
  function ConnectReversed(sc: Scene, n: nat, v: nat, d: nat, la: int, lb: int): (r: Scene)
    requires Valid(sc, n) && lb <= la
    requires v < |sc.elems| && sc.elems[v].kind.VertexOf? && d < |sc.elems|
    ensures Valid(r, n) && Extends(sc, r) && r.vertexOf == sc.vertexOf
    ensures OutsKept(sc, r, |sc.elems|, v) && |r.elems| == |sc.elems| + (la - lb + 1)
    ensures r.outs[v] != [] && r.outs[v] == sc.outs[v] + [LastOut(r, v)]
    ensures Realized(r, la, lb, v, d, LastOut(r, v), |sc.elems|)
    ensures InsGrown(sc, r, |sc.elems|, d, 1)
  {
    var (d0, sc3) := ReversedHead(sc, n, d, lb);
    var r := ReversedLoop(sc3, n, d0, lb + 1, la, v);
    ExtendsTrans(sc, sc3, r);
    OutsKeptTrans(sc, sc3, r, |sc.elems|, v);
    InsExtends(sc3, r, d, d0);
    InsGrownThen(sc, sc3, r, |sc.elems|, d, 1);
    r
  }

  /** The lowest dummy of the cycle case: a new reversed dummy at level lb
      whose succ is d, added to d's `in` list. */
  function ReversedHead(sc: Scene, n: nat, d: nat, lb: int): (r: (nat, Scene))
    requires Valid(sc, n) && d < |sc.elems|
    ensures r.0 == |sc.elems| && |r.1.elems| == |sc.elems| + 1
    ensures Valid(r.1, n) && Extends(sc, r.1) && r.1.vertexOf == sc.vertexOf
    ensures r.1.elems[r.0] == Element(DummyOf(true), lb, 0.0) && r.1.succ[r.0] == Some(d)
    ensures OutsKept(sc, r.1, |sc.elems|, -1)
    ensures r.0 in r.1.ins[d] && InsGrown(sc, r.1, |sc.elems|, d, 1)
  {
    var (d0, sc1) := NewDummy(sc, n, true, lb);
    var sc2 := SetSucc(sc1, n, d0, d);
    var sc3 := AddIn(sc2, n, d, d0);
    ExtendsTrans(sc, sc1, sc2);
    ExtendsTrans(sc, sc2, sc3);
    OutsKeptTrans(sc, sc1, sc2, |sc.elems|, -1);
    OutsKeptTrans(sc, sc2, sc3, |sc.elems|, -1);
    assert sc3.ins[d] == sc2.ins[d] + [d0];
    (d0, sc3)
  }

  // ---------------------------------------------------------------------
  // What a finished vertex looks like

  /** The vertex of each node that has one carries the node's level as its
      levelIndex and the node's width. */
  ghost predicate VertexAttrs(sc: Scene, lv: seq<int>, widths: seq<real>)
  {
    && |lv| == |sc.vertexOf| && |widths| == |sc.vertexOf|
    && forall y :: 0 <= y < |sc.vertexOf| && sc.vertexOf[y].Some? ==>
         sc.vertexOf[y].value < |sc.elems| &&
         sc.elems[sc.vertexOf[y].value] == Element(VertexOf(y), lv[y], widths[y])
  }

  /** The edge y -> z is drawn from the entry h of the `out` list of y's
      vertex: both nodes have vertices and Realized holds between them. */
  ghost predicate EdgeDrawn(sc: Scene, lv: seq<int>, y: nat, z: nat, h: nat)
  {
    && y < |sc.vertexOf| && z < |sc.vertexOf| && y < |lv| && z < |lv|
    && sc.vertexOf[y].Some? && sc.vertexOf[z].Some?
    && Realized(sc, lv[y], lv[z], sc.vertexOf[y].value, sc.vertexOf[z].value, h, 0)
  }

  /** The first k out-edges of node y are drawn, in order, from the k
      entries of the `out` list of y's vertex. */
  ghost predicate DoneUpTo(sc: Scene, Eo: seq<Edge>, lv: seq<int>, y: nat, k: nat)
  {
    && y < |sc.vertexOf| && sc.vertexOf[y].Some? && sc.vertexOf[y].value < |sc.outs|
    && k <= |Outs(Eo, y)|
    && |sc.outs[sc.vertexOf[y].value]| == k
    && forall j :: 0 <= j < k ==>
         EdgeDrawn(sc, lv, y, Outs(Eo, y)[j], sc.outs[sc.vertexOf[y].value][j])
  }

  /** All out-edges of y are drawn: the `out` list of y's vertex has one
      entry per out-edge, in the order of `Node.out`. */
  ghost predicate Done(sc: Scene, Eo: seq<Edge>, lv: seq<int>, y: nat)
  {
    DoneUpTo(sc, Eo, lv, y, |Outs(Eo, y)|)
  }

  /** Every node that got its vertex between sc and sc' is Done in sc'. */
  ghost predicate NewDone(sc: Scene, sc': Scene, Eo: seq<Edge>, lv: seq<int>)
  {
    forall y :: 0 <= y < |sc.vertexOf| && y < |sc'.vertexOf| && sc.vertexOf[y].None? && sc'.vertexOf[y].Some? ==>
      Done(sc', Eo, lv, y)
  }

  /** The nodes without a vertex: the termination measure. */
  ghost function Uncached(vo: seq<Option<nat>>): set<nat>
  {
    set y | 0 <= y < |vo| && vo[y].None?
  }

  lemma UncachedShrinks(sc: Scene, sc': Scene)
    requires Extends(sc, sc')
    ensures Uncached(sc'.vertexOf) <= Uncached(sc.vertexOf)
  {
  }

  lemma AttrsKept(sc: Scene, sc': Scene, lv: seq<int>, widths: seq<real>)
    requires VertexAttrs(sc, lv, widths) && Extends(sc, sc') && sc'.vertexOf == sc.vertexOf
    ensures VertexAttrs(sc', lv, widths)
  {
    forall y | 0 <= y < |sc.vertexOf| && sc.vertexOf[y].Some?
      ensures sc'.elems[sc.vertexOf[y].value] == sc.elems[sc.vertexOf[y].value]
    {
    }
  }

  lemma EdgeDrawnExtends(sc: Scene, sc': Scene, lv: seq<int>, y: nat, z: nat, h: nat)
    requires EdgeDrawn(sc, lv, y, z, h) && Extends(sc, sc')
    ensures EdgeDrawn(sc', lv, y, z, h)
  {
    RealizedExtends(sc, sc', lv[y], lv[z], sc.vertexOf[y].value, sc.vertexOf[z].value, h, 0);
  }

  /** Drawn edges stay drawn while the `out` list of y's vertex is left
      alone. */
  lemma {:induction false} DoneUpToExtends(sc: Scene, sc': Scene, Eo: seq<Edge>, lv: seq<int>, y: nat, k: nat)
    requires DoneUpTo(sc, Eo, lv, y, k) && Extends(sc, sc') && Shape(sc) && Shape(sc')
    requires sc'.outs[sc.vertexOf[y].value] == sc.outs[sc.vertexOf[y].value]
    ensures DoneUpTo(sc', Eo, lv, y, k)
  {
    var v := sc.vertexOf[y].value;
    forall j | 0 <= j < k
      ensures EdgeDrawn(sc', lv, y, Outs(Eo, y)[j], sc'.outs[v][j])
    {
      EdgeDrawnExtends(sc, sc', lv, y, Outs(Eo, y)[j], sc.outs[v][j]);
    }
  }

  /** Done nodes whose vertices lie below `bound` and differ from `except`
      stay Done when their `out` lists are kept. */
  lemma AllDoneKept(sc: Scene, sc': Scene, Eo: seq<Edge>, lv: seq<int>, bound: nat, except: int)
    requires Extends(sc, sc') && Shape(sc) && Shape(sc') && OutsKept(sc, sc', bound, except)
    ensures forall y: nat :: Done(sc, Eo, lv, y) && sc.vertexOf[y].value < bound && sc.vertexOf[y].value != except ==>
              Done(sc', Eo, lv, y)
  {
    forall y: nat | Done(sc, Eo, lv, y) && sc.vertexOf[y].value < bound && sc.vertexOf[y].value != except
      ensures Done(sc', Eo, lv, y)
    {
      DoneUpToExtends(sc, sc', Eo, lv, y, |Outs(Eo, y)|);
    }
  }

  // ---------------------------------------------------------------------
  // getGraphicElement

  /** `this.vertex = new Vertex(this); this.vertex.initLevel();` for a node
      x without a vertex: the vertex takes the node's level and width, is
      registered with its level and is cached as x's vertex. */
  function NewVertex(sc: Scene, n: nat, lv: seq<int>, widths: seq<real>, x: nat): (r: (nat, Scene))
    requires Valid(sc, n) && VertexAttrs(sc, lv, widths) && x < n && sc.vertexOf[x].None?
    ensures r.0 == |sc.elems| && |r.1.elems| == |sc.elems| + 1
    ensures Valid(r.1, n) && VertexAttrs(r.1, lv, widths) && Extends(sc, r.1)
    ensures OutsKept(sc, r.1, |sc.elems|, -1)
    ensures r.1.vertexOf == sc.vertexOf[x := Some(r.0)]
    ensures r.1.outs[r.0] == [] && r.1.ins == sc.ins + [[]]
    ensures Uncached(r.1.vertexOf) == Uncached(sc.vertexOf) - {x}
  {
    var (vx, sc1) := NewElement(sc, VertexOf(x), lv[x], widths[x]);
    var sc2 := sc1.(vertexOf := sc1.vertexOf[x := Some(vx)]);
    NewVertexValid(sc, sc1, sc2, n, x);
    NewVertexAttrs(sc, sc2, lv, widths, x);
    (vx, sc2)
  }

  lemma NewVertexValid(sc: Scene, sc1: Scene, sc2: Scene, n: nat, x: nat)
    requires Valid(sc, n) && x < n && sc.vertexOf[x].None?
    requires Shape(sc1) && LevelsOk(sc1.elems, sc1.levels) && sc1.vertexOf == sc.vertexOf
    requires |sc1.elems| == |sc.elems| + 1 && sc1.elems[..|sc.elems|] == sc.elems
    requires sc1.elems[|sc.elems|].kind == VertexOf(x)
    requires sc1.ins == sc.ins + [[]] && sc1.outs == sc.outs + [[]] && sc1.succ == sc.succ + [None]
    requires sc2 == sc1.(vertexOf := sc1.vertexOf[x := Some(|sc.elems|)])
    ensures Valid(sc2, n) && Extends(sc, sc2) && OutsKept(sc, sc2, |sc.elems|, -1)
  {
    AppendExtends(sc, sc1);
    NewVertexMap(sc, sc2, n, x);
  }

  lemma NewVertexAttrs(sc: Scene, sc2: Scene, lv: seq<int>, widths: seq<real>, x: nat)
    requires VertexAttrs(sc, lv, widths) && x < |sc.vertexOf| && sc.vertexOf[x].None?
    requires |sc2.elems| == |sc.elems| + 1 && sc2.elems[..|sc.elems|] == sc.elems
    requires sc2.elems[|sc.elems|] == Element(VertexOf(x), lv[x], widths[x])
    requires sc2.vertexOf == sc.vertexOf[x := Some(|sc.elems|)]
    ensures VertexAttrs(sc2, lv, widths)
    ensures Uncached(sc2.vertexOf) == Uncached(sc.vertexOf) - {x}
  {
    forall y | 0 <= y < |sc.vertexOf| && sc.vertexOf[y].Some?
      ensures sc2.elems[sc.vertexOf[y].value] == sc.elems[sc.vertexOf[y].value]
    {
      assert sc2.elems[..|sc.elems|][sc.vertexOf[y].value] == sc2.elems[sc.vertexOf[y].value];
    }
  }

  lemma NewVertexMap(sc: Scene, sc2: Scene, n: nat, x: nat)
    requires VertexMap(sc.elems, sc.vertexOf, n) && x < n && sc.vertexOf[x].None?
    requires |sc2.elems| == |sc.elems| + 1 && sc2.elems[..|sc.elems|] == sc.elems
    requires sc2.elems[|sc.elems|].kind == VertexOf(x)
    requires sc2.vertexOf == sc.vertexOf[x := Some(|sc.elems|)]
    ensures VertexMap(sc2.elems, sc2.vertexOf, n)
  {
    forall e | 0 <= e < |sc.elems|
      ensures sc2.elems[e] == sc.elems[e]
    {
      assert sc2.elems[..|sc.elems|][e] == sc2.elems[e];
    }
  }

  /** x.getGraphicElement(): the vertex of x, created (and all of x's
      out-edges wired) on the first request; a node that already has a
      vertex gets it back with nothing changed. Every node that gets its
      vertex during the call is Done when it returns, and no `out` list of
      an element that existed before changes. */
  function GetVertex(Eo: seq<Edge>, n: nat, lv: seq<int>, widths: seq<real>, x: nat, sc: Scene)
    : (r: (nat, Scene))
    requires ValidEdges(Eo, n) && x < n && Valid(sc, n) && VertexAttrs(sc, lv, widths)
    requires |lv| == n && Tally(sc, Eo, lv, n)
    ensures Valid(r.1, n) && VertexAttrs(r.1, lv, widths) && Extends(sc, r.1)
    ensures OutsKept(sc, r.1, |sc.elems|, -1) && Tally(r.1, Eo, lv, n)
    ensures r.1.vertexOf[x] == Some(r.0)
    ensures sc.vertexOf[x].Some? ==> r.1 == sc
    ensures NewDone(sc, r.1, Eo, lv)
    decreases Uncached(sc.vertexOf), 0, 0, 0
  {
    if sc.vertexOf[x].Some? then (sc.vertexOf[x].value, sc)
    else
      var (vx, sc1) := NewVertex(sc, n, lv, widths, x);
      TallyNewVertex(sc, sc1, Eo, lv, n, x);
      var r := ConnectAll(Eo, n, lv, widths, x, vx, Outs(Eo, x), sc1);
      GetVertexEnd(sc, sc1, r, Eo, lv, x, vx);
      (vx, r)
  }

  /** The loop `for (Node n : out)` of getGraphicElement, from the first
      out-edge that is not yet wired: ss are the remaining successors. */
  function ConnectAll(Eo: seq<Edge>, n: nat, lv: seq<int>, widths: seq<real>, x: nat, v: nat,
                      ss: seq<nat>, sc: Scene): (r: Scene)
    requires ValidEdges(Eo, n) && x < n && Valid(sc, n) && VertexAttrs(sc, lv, widths)
    requires sc.vertexOf[x] == Some(v)
    requires |sc.outs[v]| <= |Outs(Eo, x)| && DoneUpTo(sc, Eo, lv, x, |sc.outs[v]|)
    requires ss == Outs(Eo, x)[|sc.outs[v]|..] && |lv| == n && Tally(sc, Eo, lv, n)
    ensures Valid(r, n) && VertexAttrs(r, lv, widths) && Extends(sc, r)
    ensures OutsKept(sc, r, |sc.elems|, v) && Tally(r, Eo, lv, n)
    ensures Done(r, Eo, lv, x) && NewDone(sc, r, Eo, lv)
    decreases Uncached(sc.vertexOf), 1, |ss|, 1
  {
    if ss == [] then
      ConnectAllNone(sc, Eo, lv, x, v);
      sc
    else
      var sc2 := ConnectOne(Eo, n, lv, widths, x, v, ss, sc);
      var r := ConnectAll(Eo, n, lv, widths, x, v, ss[1..], sc2);
      ConnectAllTail(sc, sc2, r, n, Eo, lv, x, v);
      r
  }

  /** One round of that loop: `n.getGraphicElement()` for the successor
      ss[0], then the wiring of the edge to its vertex. */
  function ConnectOne(Eo: seq<Edge>, n: nat, lv: seq<int>, widths: seq<real>, x: nat, v: nat,
                      ss: seq<nat>, sc: Scene): (r: Scene)
    requires ValidEdges(Eo, n) && x < n && Valid(sc, n) && VertexAttrs(sc, lv, widths)
    requires sc.vertexOf[x] == Some(v)
    requires |sc.outs[v]| <= |Outs(Eo, x)| && DoneUpTo(sc, Eo, lv, x, |sc.outs[v]|)
    requires ss == Outs(Eo, x)[|sc.outs[v]|..] && ss != [] && |lv| == n && Tally(sc, Eo, lv, n)
    ensures Valid(r, n) && VertexAttrs(r, lv, widths) && Extends(sc, r)
    ensures OutsKept(sc, r, |sc.elems|, v) && NewDone(sc, r, Eo, lv) && Tally(r, Eo, lv, n)
    ensures r.vertexOf[x] == Some(v) && |r.outs[v]| == |sc.outs[v]| + 1
    ensures DoneUpTo(r, Eo, lv, x, |r.outs[v]|) && ss[1..] == Outs(Eo, x)[|r.outs[v]|..]
    ensures Uncached(r.vertexOf) <= Uncached(sc.vertexOf)
    decreases Uncached(sc.vertexOf), 1, |ss|, 0
  {
    var k := |sc.outs[v]|;
    var z := ss[0];
    assert z == Outs(Eo, x)[k] && z in Outs(Eo, x);
    var (vz, sc1) := GetVertex(Eo, n, lv, widths, z, sc);
    var sc2 := Connect(sc1, n, v, vz, lv[x], lv[z]);
    ConnectOneEnd(sc, sc1, sc2, n, Eo, lv, widths, x, v, z, vz, k);
    sc2
  }

  /** What the round leaves: the request for z and the wiring of x -> z
      together. */
  lemma ConnectOneEnd(sc: Scene, sc1: Scene, sc2: Scene, n: nat, Eo: seq<Edge>, lv: seq<int>, widths: seq<real>,
                      x: nat, v: nat, z: nat, vz: nat, k: nat)
    requires ValidEdges(Eo, n) && |lv| == n && Valid(sc, n) && Valid(sc1, n) && Valid(sc2, n)
    requires Tally(sc1, Eo, lv, n) && VertexAttrs(sc1, lv, widths)
    requires Extends(sc, sc1) && Extends(sc1, sc2) && sc2.vertexOf == sc1.vertexOf
    requires OutsKept(sc, sc1, |sc.elems|, -1) && OutsKept(sc1, sc2, |sc1.elems|, v)
    requires x < n && sc.vertexOf[x] == Some(v) && z < n && sc1.vertexOf[z] == Some(vz)
    requires k < |Outs(Eo, x)| && z == Outs(Eo, x)[k]
    requires |sc.outs[v]| == k && DoneUpTo(sc, Eo, lv, x, k) && NewDone(sc, sc1, Eo, lv)
    requires sc2.outs[v] != [] && sc2.outs[v] == sc1.outs[v] + [LastOut(sc2, v)]
    requires Realized(sc2, lv[x], lv[z], v, vz, LastOut(sc2, v), |sc1.elems|)
    requires InsGrown(sc1, sc2, |sc1.elems|, vz, 1)
    requires |sc2.elems| == |sc1.elems| + DummyCount(lv[x], lv[z])
    ensures VertexAttrs(sc2, lv, widths) && Extends(sc, sc2)
    ensures OutsKept(sc, sc2, |sc.elems|, v) && NewDone(sc, sc2, Eo, lv) && Tally(sc2, Eo, lv, n)
    ensures sc2.vertexOf[x] == Some(v) && |sc2.outs[v]| == k + 1 && DoneUpTo(sc2, Eo, lv, x, k + 1)
    ensures Uncached(sc2.vertexOf) <= Uncached(sc.vertexOf)
  {
    assert sc1.outs[v] == sc.outs[v];
    TallyConnect(sc1, sc2, Eo, lv, n, x, v, z, vz, k);
    RealizedLower(sc2, lv[x], lv[z], v, vz, LastOut(sc2, v), |sc1.elems|, 0);
    ConnectStep(sc, sc1, sc2, n, Eo, lv, x, v, z, vz, k);
    AttrsKept(sc1, sc2, lv, widths);
    UncachedShrinks(sc, sc2);
  }

  /** Wiring the k-th out-edge x -> z extends the drawn prefix of x's
      edges by one and keeps the nodes finished so far finished. */
  lemma ConnectStep(sc: Scene, sc1: Scene, sc2: Scene, n: nat, Eo: seq<Edge>, lv: seq<int>,
                    x: nat, v: nat, z: nat, vz: nat, k: nat)
    requires Valid(sc, n) && Valid(sc1, n) && Valid(sc2, n) && |lv| == n
    requires Extends(sc, sc1) && Extends(sc1, sc2) && sc2.vertexOf == sc1.vertexOf
    requires OutsKept(sc, sc1, |sc.elems|, -1) && OutsKept(sc1, sc2, |sc1.elems|, v)
    requires x < n && sc.vertexOf[x] == Some(v) && z < n && sc1.vertexOf[z] == Some(vz)
    requires k < |Outs(Eo, x)| && z == Outs(Eo, x)[k]
    requires |sc.outs[v]| == k && DoneUpTo(sc, Eo, lv, x, k) && NewDone(sc, sc1, Eo, lv)
    requires sc2.outs[v] != [] && sc2.outs[v] == sc1.outs[v] + [LastOut(sc2, v)]
    requires Realized(sc2, lv[x], lv[z], v, vz, LastOut(sc2, v), 0)
    ensures Extends(sc, sc2) && OutsKept(sc, sc2, |sc.elems|, v)
    ensures |sc2.outs[v]| == k + 1 && DoneUpTo(sc2, Eo, lv, x, k + 1)
    ensures NewDone(sc, sc2, Eo, lv)
  {
    ExtendsTrans(sc, sc1, sc2);
    DoneUpToExtends(sc, sc1, Eo, lv, x, k);
    PrefixStep(sc1, sc2, Eo, lv, x, v, z, vz, k);
    assert NewDone(sc1, sc2, Eo, lv);
    NewDoneTrans(sc, sc1, sc2, n, Eo, lv, x, v);
  }

  lemma PrefixStep(sc1: Scene, sc2: Scene, Eo: seq<Edge>, lv: seq<int>, x: nat, v: nat, z: nat, vz: nat, k: nat)
    requires Shape(sc1) && Shape(sc2) && Extends(sc1, sc2) && sc2.vertexOf == sc1.vertexOf
    requires x < |sc1.vertexOf| && sc1.vertexOf[x] == Some(v) && v < |sc1.outs|
    requires z < |sc1.vertexOf| && sc1.vertexOf[z] == Some(vz) && x < |lv| && z < |lv|
    requires k < |Outs(Eo, x)| && z == Outs(Eo, x)[k] && DoneUpTo(sc1, Eo, lv, x, k)
    requires sc2.outs[v] != [] && sc2.outs[v] == sc1.outs[v] + [LastOut(sc2, v)]
    requires Realized(sc2, lv[x], lv[z], v, vz, LastOut(sc2, v), 0)
    ensures DoneUpTo(sc2, Eo, lv, x, k + 1)
  {
    forall j | 0 <= j < k + 1
      ensures EdgeDrawn(sc2, lv, x, Outs(Eo, x)[j], sc2.outs[v][j])
    {
      if j < k {
        EdgeDrawnExtends(sc1, sc2, lv, x, Outs(Eo, x)[j], sc1.outs[v][j]);
      }
    }
  }

  /** Nodes finished between a and b stay finished from b to c when only
      the `out` list of x's vertex v changes among the old elements; v
      belongs to no node finished in between because x had it already. */
  lemma NewDoneTrans(a: Scene, b: Scene, c: Scene, n: nat, Eo: seq<Edge>, lv: seq<int>, x: nat, v: nat)
    requires Valid(b, n) && Shape(c) && Extends(a, b) && Extends(b, c)
    requires x < n && a.vertexOf[x] == Some(v) && OutsKept(b, c, |b.elems|, v)
    requires NewDone(a, b, Eo, lv) && NewDone(b, c, Eo, lv)
    ensures NewDone(a, c, Eo, lv)
  {
    forall y | 0 <= y < |a.vertexOf| && a.vertexOf[y].None? && c.vertexOf[y].Some?
      ensures Done(c, Eo, lv, y)
    {
      if b.vertexOf[y].Some? {
        var vy := b.vertexOf[y].value;
        assert b.elems[vy].kind == VertexOf(y);
        assert b.elems[v].kind == VertexOf(x);
        DoneUpToExtends(b, c, Eo, lv, y, |Outs(Eo, y)|);
      }
    }
  }

  /** With no successor left, all of x's out-edges are drawn already. */
  lemma ConnectAllNone(sc: Scene, Eo: seq<Edge>, lv: seq<int>, x: nat, v: nat)
    requires x < |sc.vertexOf| && sc.vertexOf[x] == Some(v) && v < |sc.outs|
    requires |sc.outs[v]| <= |Outs(Eo, x)| && DoneUpTo(sc, Eo, lv, x, |sc.outs[v]|)
    requires Outs(Eo, x)[|sc.outs[v]|..] == []
    ensures Extends(sc, sc) && OutsKept(sc, sc, |sc.outs|, v)
    ensures Done(sc, Eo, lv, x) && NewDone(sc, sc, Eo, lv)
  {
    forall e | 0 <= e < |sc.ins|
      ensures InsGrowAt(sc, sc, e)
    {
    }
  }

  lemma ConnectAllTail(sc: Scene, sc2: Scene, r: Scene, n: nat, Eo: seq<Edge>, lv: seq<int>, x: nat, v: nat)
    requires Valid(sc2, n) && Shape(r)
    requires Extends(sc, sc2) && Extends(sc2, r) && x < n && sc.vertexOf[x] == Some(v)
    requires OutsKept(sc, sc2, |sc.elems|, v) && OutsKept(sc2, r, |sc2.elems|, v)
    requires NewDone(sc, sc2, Eo, lv) && NewDone(sc2, r, Eo, lv)
    ensures Extends(sc, r) && OutsKept(sc, r, |sc.elems|, v) && NewDone(sc, r, Eo, lv)
  {
    ExtendsTrans(sc, sc2, r);
    NewDoneTrans(sc, sc2, r, n, Eo, lv, x, v);
  }

  lemma GetVertexEnd(sc: Scene, sc1: Scene, r: Scene, Eo: seq<Edge>, lv: seq<int>, x: nat, vx: nat)
    requires Shape(sc) && Shape(sc1) && x < |sc.vertexOf| && vx == |sc.elems|
    requires Extends(sc, sc1) && Extends(sc1, r) && sc1.vertexOf == sc.vertexOf[x := Some(vx)]
    requires OutsKept(sc, sc1, |sc.elems|, -1) && OutsKept(sc1, r, |sc1.elems|, vx)
    requires Done(r, Eo, lv, x) && NewDone(sc1, r, Eo, lv)
    ensures Extends(sc, r) && OutsKept(sc, r, |sc.elems|, -1) && NewDone(sc, r, Eo, lv)
  {
    ExtendsTrans(sc, sc1, r);
  }

  // ---------------------------------------------------------------------
  // The loop of setGraph

  /** `for (Node n : nodes) vertices.add(n.getGraphicElement());` on a
      fresh TreeMap of levels: afterwards every node has its vertex, with
      the node's level and width, and all its out-edges are drawn, in the
      order of `Node.out`. The arena holds the n vertices and, for every
      edge, DummyCount of its levels in dummies; and the `in` list of every
      vertex has one entry per in-edge of its node. */
  method BuildAll(Eo: seq<Edge>, n: nat, lv: seq<int>, widths: seq<real>) returns (vertices: seq<nat>, sc: Scene)
    requires ValidEdges(Eo, n) && |lv| == n && |widths| == n
    ensures Valid(sc, n) && VertexAttrs(sc, lv, widths)
    ensures |vertices| == n
    ensures forall x :: 0 <= x < n ==> sc.vertexOf[x] == Some(vertices[x]) && Done(sc, Eo, lv, x)
    ensures n == 0 ==> sc.elems == []
    ensures |sc.elems| == n + EdgeDummies(Eo, lv)
    ensures forall b :: 0 <= b < n ==> |sc.ins[vertices[b]]| == |Ins(Eo, b)|
  {
    vertices, sc := VertexLoop(Eo, n, lv, widths);
    BuildEnd(sc, Eo, lv, widths, n, vertices);
  }

  /** The loop itself: every node requested, each round keeping Stage. */
  method VertexLoop(Eo: seq<Edge>, n: nat, lv: seq<int>, widths: seq<real>) returns (vertices: seq<nat>, sc: Scene)
    requires ValidEdges(Eo, n) && |lv| == n && |widths| == n
    ensures Stage(sc, Eo, lv, widths, n, vertices) && |vertices| == n
    ensures n == 0 ==> sc.elems == []
  {
    sc := Scene([], [], [], [], seq(n, _ => None), map[]);
    StageStart(sc, Eo, lv, widths, n);
    vertices := [];
    while |vertices| < n
      invariant Stage(sc, Eo, lv, widths, n, vertices)
      invariant n == 0 ==> sc.elems == []
      decreases n - |vertices|
    {
      vertices, sc := VertexStep(Eo, n, lv, widths, vertices, sc);
    }
  }

  /** What holds after the first |vertices| top-level requests. */
  ghost predicate Stage(sc: Scene, Eo: seq<Edge>, lv: seq<int>, widths: seq<real>, n: nat, vertices: seq<nat>)
  {
    && ValidEdges(Eo, n) && |lv| == n && |vertices| <= n
    && Valid(sc, n) && VertexAttrs(sc, lv, widths) && Tally(sc, Eo, lv, n)
    && (forall x :: 0 <= x < |vertices| ==> sc.vertexOf[x] == Some(vertices[x]))
    && (forall y :: 0 <= y < n && sc.vertexOf[y].Some? ==> Done(sc, Eo, lv, y))
  }

  /** Before the first request: no element, no vertex, nothing drawn. */
  lemma StageStart(sc: Scene, Eo: seq<Edge>, lv: seq<int>, widths: seq<real>, n: nat)
    requires ValidEdges(Eo, n) && |lv| == n && |widths| == n
    requires sc == Scene([], [], [], [], seq(n, _ => None), map[])
    ensures Stage(sc, Eo, lv, widths, n, [])
  {
    TallyEmpty(sc, Eo, lv, n);
    ValidStart(sc, lv, widths, n);
  }

  lemma ValidStart(sc: Scene, lv: seq<int>, widths: seq<real>, n: nat)
    requires |lv| == n && |widths| == n
    requires sc == Scene([], [], [], [], seq(n, _ => None), map[])
    ensures Valid(sc, n) && VertexAttrs(sc, lv, widths)
  {
  }

  /** One round: `vertices.add(n.getGraphicElement())` for the next node. */
  method VertexStep(Eo: seq<Edge>, n: nat, lv: seq<int>, widths: seq<real>, vertices: seq<nat>, sc: Scene)
    returns (vertices': seq<nat>, sc': Scene)
    requires Stage(sc, Eo, lv, widths, n, vertices) && |vertices| < n
    ensures Stage(sc', Eo, lv, widths, n, vertices') && |vertices'| == |vertices| + 1
    ensures Extends(sc, sc')
  {
    var (v, sc1) := GetVertex(Eo, n, lv, widths, |vertices|, sc);
    BuildStep(sc, sc1, n, Eo, lv);
    VerticesKept(sc, sc1, vertices, v);
    vertices', sc' := vertices + [v], sc1;
  }

  /** When every node is requested: every node has its vertex and is Done,
      and the counts of TallyDone hold. */
  lemma BuildEnd(sc: Scene, Eo: seq<Edge>, lv: seq<int>, widths: seq<real>, n: nat, vertices: seq<nat>)
    requires Stage(sc, Eo, lv, widths, n, vertices) && |vertices| == n
    ensures Valid(sc, n) && VertexAttrs(sc, lv, widths)
    ensures forall x :: 0 <= x < n ==> sc.vertexOf[x] == Some(vertices[x]) && Done(sc, Eo, lv, x)
    ensures |sc.elems| == n + EdgeDummies(Eo, lv)
    ensures forall b :: 0 <= b < n ==> |sc.ins[vertices[b]]| == |Ins(Eo, b)|
  {
    TallyDone(sc, Eo, lv, n);
  }

  /** The vertices requested so far keep their nodes' entries. */
  lemma VerticesKept(sc: Scene, sc': Scene, vertices: seq<nat>, v: nat)
    requires |vertices| < |sc.vertexOf| && Extends(sc, sc')
    requires forall x :: 0 <= x < |vertices| ==> sc.vertexOf[x] == Some(vertices[x])
    requires sc'.vertexOf[|vertices|] == Some(v)
    ensures forall x :: 0 <= x <= |vertices| ==> sc'.vertexOf[x] == Some((vertices + [v])[x])
  {
  }

  /** Between two top-level requests no node is half done: every node
      with a vertex stays Done. */
  lemma BuildStep(sc: Scene, sc': Scene, n: nat, Eo: seq<Edge>, lv: seq<int>)
    requires Valid(sc, n) && Shape(sc') && Extends(sc, sc') && OutsKept(sc, sc', |sc.elems|, -1)
    requires forall y :: 0 <= y < n && sc.vertexOf[y].Some? ==> Done(sc, Eo, lv, y)
    requires NewDone(sc, sc', Eo, lv)
    ensures forall y :: 0 <= y < n && sc'.vertexOf[y].Some? ==> Done(sc', Eo, lv, y)
  {
    AllDoneKept(sc, sc', Eo, lv, |sc.elems|, -1);
  }
}
