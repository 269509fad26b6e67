/** `Leveling.setGraph` end to end, and `checkGraphIntegrity`: ingest the
    label map, break the cycles of a working copy, give every node its
    longest-path level and pull it down towards its successors, restore the
    original edges, build the vertices, dummies and levels, and place them. */
module Pipeline {
  import opened Base
  import opened Graphs
  import opened Ingestion
  import opened Connectivity
  import opened CycleBreaking
  import opened Levels
  import opened Normalization
  import opened Elements
  import opened Construction
  import opened Placement

  /** What setGraph leaves in the Leveling object: the nodes' labels, the
      restored edges, every node's level, the drawable elements and where
      they are placed. vertices[x] is the vertex of node x. */
  datatype Layout<V> = Layout(labels: seq<V>, edges: seq<Edge>, levels: seq<int>,
                              scene: Scene, vertices: seq<nat>, placement: Placement)

  /** The width of every node's vertex, as the caller measures its label. */
  function Widths<V>(labels: seq<V>, width: V -> real): seq<real>
  {
    seq(|labels|, i requires 0 <= i < |labels| => width(labels[i]))
  }

  ghost function MinLevels(E: seq<Edge>, n: nat): seq<int>
    requires ValidEdges(E, n) && Acyclic(E)
  {
    seq(n, x requires 0 <= x < n => MinLevel(E, n, x))
  }

  /** The level every node ends with: on the graph that cycle breaking
      leaves, the longest-path level, then pulled down towards the
      successors. */
  ghost function FinalLevels(E: seq<Edge>, n: nat): seq<int>
    requires ValidEdges(E, n)
  {
    var W := BreakCycles(E, n).0;
    seq(n, x requires 0 <= x < n => Pulled(W, n, MinLevels(W, n), x))
  }

  /** The final levels are non-negative and grow along every edge that
      survives cycle breaking; an edge of the input whose level does not
      grow closes a cycle of the input. */
  lemma FinalLevelsSpec(E: seq<Edge>, n: nat)
    requires ValidEdges(E, n)
    ensures |FinalLevels(E, n)| == n
    ensures forall x :: 0 <= x < n ==> FinalLevels(E, n)[x] >= 0
    ensures forall e :: e in BreakCycles(E, n).0 ==> FinalLevels(E, n)[e.0] < FinalLevels(E, n)[e.1]
    ensures forall e :: e in E ==> FinalLevels(E, n)[e.0] < FinalLevels(E, n)[e.1] || Reaches(E, e.1, e.0)
  {
    var (W, rem) := BreakCycles(E, n);
    var lv0 := MinLevels(W, n);
    var L := FinalLevels(E, n);
    forall x | 0 <= x < n
      ensures L[x] >= 0
    {
      PulledAboveMin(W, n, lv0, x);
    }
    forall e | e in W
      ensures L[e.0] < L[e.1]
    {
      PulledEdge(W, n, lv0, e.0, e.1);
    }
    forall e | e in E
      ensures L[e.0] < L[e.1] || Reaches(E, e.1, e.0)
    {
      assert e in multiset(W) + multiset(rem);
    }
  }

  /** The levels that occur in L. */
  ghost function UsedLevels(L: seq<int>): set<int>
  {
    set y | 0 <= y < |L| :: L[y]
  }

  /** x has a common descendant with some node at level 0 of L. */
  ghost predicate MeetsLevelZero(E: seq<Edge>, n: nat, L: seq<int>, x: nat)
  {
    exists y, t :: 0 <= y < n && 0 <= t < n && y < |L| && Reaches(E, x, t) && Reaches(E, y, t) && L[y] == 0
  }

  /** The final levels have no gap: every level from 0 up to the level of
      any node is taken by some node; and every node has a common
      descendant with some node of level 0, so each connected part of the
      graph has a node at level 0. */
  lemma FinalLevelsNoGaps(E: seq<Edge>, n: nat)
    requires ValidEdges(E, n)
    ensures |FinalLevels(E, n)| == n
    ensures forall x :: 0 <= x < n ==> forall k :: 0 <= k <= FinalLevels(E, n)[x] ==> k in UsedLevels(FinalLevels(E, n))
    ensures forall x :: 0 <= x < n ==> MeetsLevelZero(E, n, FinalLevels(E, n), x)
  {
    var W := BreakCycles(E, n).0;
    var lv0 := MinLevels(W, n);
    var L := FinalLevels(E, n);
    FinalUsedLevels(E, n);
    forall x | 0 <= x < n
      ensures forall k :: 0 <= k <= L[x] ==> k in UsedLevels(L)
      ensures MeetsLevelZero(E, n, L, x)
    {
      PulledNoGaps(W, n, lv0, x);
      FinalMeetsZero(E, n, x);
    }
  }

  /** The final levels that occur are the pulled levels of the working
      graph. */
  lemma FinalUsedLevels(E: seq<Edge>, n: nat)
    requires ValidEdges(E, n)
    ensures UsedLevels(FinalLevels(E, n)) == PulledLevels(BreakCycles(E, n).0, n, MinLevels(BreakCycles(E, n).0, n))
  {
    var W := BreakCycles(E, n).0;
    var lv0 := MinLevels(W, n);
    var L := FinalLevels(E, n);
    forall k | k in PulledLevels(W, n, lv0)
      ensures k in UsedLevels(L)
    {
      var y :| 0 <= y < n && Pulled(W, n, lv0, y) == k;
      assert L[y] == k;
    }
  }

  lemma FinalMeetsZero(E: seq<Edge>, n: nat, x: nat)
    requires ValidEdges(E, n) && x < n
    ensures MeetsLevelZero(E, n, FinalLevels(E, n), x)
  {
    var (W, rem) := BreakCycles(E, n);
    var lv0 := MinLevels(W, n);
    var L := FinalLevels(E, n);
    forall e | e in W
      ensures e in E
    {
      assert e in multiset(W) + multiset(rem);
    }
    PulledNoGaps(W, n, lv0, x);
    var y, t :| 0 <= y < n && 0 <= t < n && Reaches(W, x, t) && Reaches(W, y, t) && Pulled(W, n, lv0, y) == 0;
    ReachesSub(W, E, x, t);
    ReachesSub(W, E, y, t);
    assert L[y] == 0;
  }

  // ---------------------------------------------------------------------
  // checkGraphIntegrity

  /** checkGraphIntegrity: every edge n -> m whose target does not lie
      below its source must be closed by a path back from m to n. */
  function CheckGraphIntegrity(E: seq<Edge>, n: nat, lv: seq<int>): bool
    requires ValidEdges(E, n) && |lv| == n
  {
    CheckNodes(E, n, lv, 0)
  }

  /** The outer loop, from node a on. */
  function CheckNodes(E: seq<Edge>, n: nat, lv: seq<int>, a: nat): bool
    requires ValidEdges(E, n) && |lv| == n
    decreases n - a
  {
    if a >= n then true
    else CheckOuts(E, n, lv, a, Outs(E, a)) && CheckNodes(E, n, lv, a + 1)
  }

  /** The inner loop over the successors ms of node a. */
  function CheckOuts(E: seq<Edge>, n: nat, lv: seq<int>, a: nat, ms: seq<nat>): bool
    requires ValidEdges(E, n) && |lv| == n && a < n
    requires forall m :: m in ms ==> (a, m) in E
  {
    if ms == [] then true
    else
      assert ms[0] in ms;
      assert forall m :: m in ms[1..] ==> m in ms;
      (lv[a] < lv[ms[0]] || IsConnectedTo(E, n, ms[0], a, {}).0 != -1)
      && CheckOuts(E, n, lv, a, ms[1..])
  }

  /** isConnectedTo with nothing marked answers reachability. */
  lemma ConnectedIffReaches(E: seq<Edge>, n: nat, u: nat, v: nat)
    requires ValidEdges(E, n) && u < n
    ensures IsConnectedTo(E, n, u, v, {}).0 >= 0 <==> Reaches(E, u, v)
  {
    ConnectedCorrect(E, n, u, v, {});
    if Reaches(E, u, v) {
      var p :| PathFrom(E, p, u, v);
      ShortestOfAll(E, n, u, v);
    }
    if IsConnectedTo(E, n, u, v, {}).0 >= 0 {
      var p :| SimpleAvoiding(E, p, u, v, {}) && |p| - 1 == IsConnectedTo(E, n, u, v, {}).0;
      assert PathFrom(E, p, u, v);
    }
  }

  lemma {:induction false} CheckOutsSpec(E: seq<Edge>, n: nat, lv: seq<int>, a: nat, ms: seq<nat>)
    requires ValidEdges(E, n) && |lv| == n && a < n
    requires forall m :: m in ms ==> (a, m) in E
    ensures CheckOuts(E, n, lv, a, ms) <==> forall m :: m in ms ==> m < n && (lv[a] < lv[m] || Reaches(E, m, a))
    decreases |ms|
  {
    if ms != [] {
      assert ms[0] in ms;
      assert forall m :: m in ms[1..] ==> m in ms;
      assert forall m :: m in ms ==> m == ms[0] || m in ms[1..];
      ConnectedIffReaches(E, n, ms[0], a);
      CheckOutsSpec(E, n, lv, a, ms[1..]);
    }
  }

  lemma {:induction false} CheckNodesSpec(E: seq<Edge>, n: nat, lv: seq<int>, a: nat)
    requires ValidEdges(E, n) && |lv| == n
    ensures CheckNodes(E, n, lv, a) <==>
      forall e :: e in E && a <= e.0 ==> lv[e.0] < lv[e.1] || Reaches(E, e.1, e.0)
    decreases n - a
  {
    if a < n {
      CheckOutsSpec(E, n, lv, a, Outs(E, a));
      CheckNodesSpec(E, n, lv, a + 1);
      assert forall e :: e in E && e.0 == a ==> e.1 in Outs(E, a);
    }
  }

  /** checkGraphIntegrity holds exactly when every edge grows in level or
      lies on a cycle. */
  lemma CheckGraphIntegritySpec(E: seq<Edge>, n: nat, lv: seq<int>)
    requires ValidEdges(E, n) && |lv| == n
    ensures CheckGraphIntegrity(E, n, lv) <==>
      forall e :: e in E ==> lv[e.0] < lv[e.1] || Reaches(E, e.1, e.0)
  {
    CheckNodesSpec(E, n, lv, 0);
  }

  /** The levels setGraph computes always pass checkGraphIntegrity. */
  lemma IntegrityAfterLayout(E: seq<Edge>, n: nat)
    requires ValidEdges(E, n)
    ensures |FinalLevels(E, n)| == n && CheckGraphIntegrity(E, n, FinalLevels(E, n))
  {
    FinalLevelsSpec(E, n);
    CheckGraphIntegritySpec(E, n, FinalLevels(E, n));
  }

  // ---------------------------------------------------------------------
  // setGraph

  /** setGraph. It fails with IllegalArgument when some label is null, and
      otherwise with NoSuchElement exactly when the map mentions no label,
      since then there is no level to start the placement from. */
  method SetGraph<V(==)>(es: seq<Entry<V>>, width: V -> real) returns (r: Result<Layout<V>>)
    ensures r.Err? <==> None in Mentions(es) || Mentions(es) == []
    ensures r.Err? ==> r.error == if None in Mentions(es) then IllegalArgument else NoSuchElement
    ensures r.Ok? ==>
      var L := r.value;
      var n := |L.labels|;
      && Tracks(L.labels, Mentions(es)) && EdgesMatch(L.labels, L.edges, Pairs(es))
      && ValidEdges(L.edges, n) && L.levels == FinalLevels(L.edges, n)
      && |L.levels| == n && CheckGraphIntegrity(L.edges, n, L.levels)
      && Valid(L.scene, n) && VertexAttrs(L.scene, L.levels, Widths(L.labels, width))
      && |L.vertices| == n
      && (forall x :: 0 <= x < n ==> L.scene.vertexOf[x] == Some(L.vertices[x]) && Done(L.scene, L.edges, L.levels, x))
      && Place(L.scene) == Ok(L.placement)
  {
    match Ingest(es) {
      case Err(e) =>
        r := Err(e);
      case Ok(g) =>
        var n := |g.labels|;
        var lv := AssignLevels(g.edges, n);
        ReinitRestores(es, g);
        var E := Reinit(g.labels, es);
        var vertices, sc := BuildAll(E, n, lv, Widths(g.labels, width));
        NoLabels(es, g.labels);
        if n > 0 {
          assert sc.vertexOf[0] == Some(vertices[0]);
        }
        match Place(sc) {
          case Err(e) =>
            r := Err(e);
          case Ok(P) =>
            r := Ok(Layout(g.labels, E, lv, sc, vertices, P));
        }
    }
  }

  /** The level part of setGraph: break the cycles of the working copy,
      assign the minimum levels and normalise from every level-0 node. */
  method AssignLevels(E: seq<Edge>, n: nat) returns (lv: seq<int>)
    requires ValidEdges(E, n)
    ensures lv == FinalLevels(E, n)
    ensures |lv| == n && CheckGraphIntegrity(E, n, lv)
  {
    var (W, _) := BreakCycles(E, n);
    var lv0 := AssignAll(W, n);
    lv := NormalizeAll(W, n, lv0);
    assert lv0 == MinLevels(W, n);
    IntegrityAfterLayout(E, n);
  }

  /** Labels tracking the mentions are empty exactly when nothing is
      mentioned. */
  lemma NoLabels<V>(es: seq<Entry<V>>, labels: seq<V>)
    requires Tracks(labels, Mentions(es))
    ensures labels == [] <==> Mentions(es) == []
  {
    if labels != [] {
      assert Some(labels[0]) in Mentions(es);
    }
    if Mentions(es) != [] {
      assert Mentions(es)[0].value in labels;
    }
  }
}
