/** `Node.normalizeLevel` and the loop of `setGraph` that calls it on every
    node of level 0: levels are pushed down towards the successors, so that
    every node other than a sink ends exactly one level above its nearest
    successor. The recursion has no memo, so a node below several sources is
    normalised once per path; it always ends with the same value. */
module Normalization {
  import opened Base
  import opened Graphs
  import opened Levels

  // ---------------------------------------------------------------------
  // Reference: the pulled layering

  /** A sink keeps its level lv[x]; any other node sits one level above the
      lowest pulled level of its successors. */
  function Pulled(E: seq<Edge>, n: nat, lv: seq<int>, x: nat): int
    requires ValidEdges(E, n) && Acyclic(E) && x < n && |lv| == n
    decreases Desc(E, n, x), 1, 0
  {
    if Outs(E, x) == [] then lv[x] else SuccMin(E, n, lv, x, Outs(E, x)) - 1
  }

  /** The smallest pulled level among ss, all successors of x. */
  function SuccMin(E: seq<Edge>, n: nat, lv: seq<int>, x: nat, ss: seq<nat>): int
    requires ValidEdges(E, n) && Acyclic(E) && x < n && |lv| == n
    requires ss != [] && forall s :: s in ss ==> (x, s) in E
    decreases Desc(E, n, x), 0, |ss|
  {
    assert ss[0] in ss;
    DescStrict(E, n, x, ss[0]);
    if |ss| == 1 then Pulled(E, n, lv, ss[0])
    else
      assert forall s :: s in ss[1..] ==> s in ss;
      Min(Pulled(E, n, lv, ss[0]), SuccMin(E, n, lv, x, ss[1..]))
  }

  lemma {:induction false} SuccMinSpec(E: seq<Edge>, n: nat, lv: seq<int>, x: nat, ss: seq<nat>)
    requires ValidEdges(E, n) && Acyclic(E) && x < n && |lv| == n
    requires ss != [] && forall s :: s in ss ==> (x, s) in E
    ensures forall s :: s in ss ==> s < n && SuccMin(E, n, lv, x, ss) <= Pulled(E, n, lv, s)
    ensures exists s :: s in ss && s < n && SuccMin(E, n, lv, x, ss) == Pulled(E, n, lv, s)
    decreases |ss|
  {
    assert ss[0] in ss;
    if |ss| > 1 {
      assert forall s :: s in ss[1..] ==> s in ss;
      SuccMinSpec(E, n, lv, x, ss[1..]);
      forall s | s in ss
        ensures s < n && SuccMin(E, n, lv, x, ss) <= Pulled(E, n, lv, s)
      {
        if s != ss[0] {
          var k :| 0 <= k < |ss| && ss[k] == s;
          assert ss[1..][k - 1] == s;
        }
      }
    }
  }

  /** Pulled levels strictly increase along every edge. */
  lemma PulledEdge(E: seq<Edge>, n: nat, lv: seq<int>, a: nat, b: nat)
    requires ValidEdges(E, n) && Acyclic(E) && |lv| == n && (a, b) in E
    ensures a < n && b < n
    ensures Pulled(E, n, lv, a) < Pulled(E, n, lv, b)
  {
    assert b in Outs(E, a);
    SuccMinSpec(E, n, lv, a, Outs(E, a));
  }

  /** A sink keeps its level; any other node has a successor exactly one
      pulled level below it. */
  lemma PulledTight(E: seq<Edge>, n: nat, lv: seq<int>, x: nat)
    requires ValidEdges(E, n) && Acyclic(E) && x < n && |lv| == n
    ensures Outs(E, x) == [] ==> Pulled(E, n, lv, x) == lv[x]
    ensures Outs(E, x) != [] ==> exists s :: (x, s) in E && s < n && Pulled(E, n, lv, s) == Pulled(E, n, lv, x) + 1
  {
    if Outs(E, x) != [] {
      SuccMinSpec(E, n, lv, x, Outs(E, x));
    }
  }

  /** The pulled layering is the highest one that keeps the sinks' levels and
      grows strictly along every edge. */
  lemma {:induction false} PulledGreatest(E: seq<Edge>, n: nat, lv: seq<int>, L: seq<int>, x: nat)
    requires ValidEdges(E, n) && Acyclic(E) && x < n && |lv| == n && |L| == n
    requires forall y :: 0 <= y < n && Outs(E, y) == [] ==> L[y] == lv[y]
    requires forall e :: e in E ==> L[e.0] < L[e.1]
    ensures L[x] <= Pulled(E, n, lv, x)
    decreases Desc(E, n, x)
  {
    if Outs(E, x) != [] {
      SuccMinSpec(E, n, lv, x, Outs(E, x));
      var s :| s in Outs(E, x) && s < n && SuccMin(E, n, lv, x, Outs(E, x)) == Pulled(E, n, lv, s);
      DescStrict(E, n, x, s);
      PulledGreatest(E, n, lv, L, s);
    }
  }

  /** Starting from the minimal levels, pulling never lowers a node's level
      (so it never goes below 0). */
  lemma {:induction false} PulledAboveMin(E: seq<Edge>, n: nat, lv: seq<int>, x: nat)
    requires ValidEdges(E, n) && Acyclic(E) && x < n && |lv| == n
    requires forall y :: 0 <= y < n ==> lv[y] == MinLevel(E, n, y)
    ensures MinLevel(E, n, x) <= Pulled(E, n, lv, x)
    decreases Desc(E, n, x)
  {
    if Outs(E, x) != [] {
      SuccMinSpec(E, n, lv, x, Outs(E, x));
      var s :| s in Outs(E, x) && s < n && SuccMin(E, n, lv, x, Outs(E, x)) == Pulled(E, n, lv, s);
      DescStrict(E, n, x, s);
      PulledAboveMin(E, n, lv, s);
      MinLevelEdge(E, n, x, s);
    }
  }

  /** The pulled levels that occur. */
  ghost function PulledLevels(E: seq<Edge>, n: nat, lv: seq<int>): set<int>
    requires ValidEdges(E, n) && Acyclic(E) && |lv| == n
  {
    set y | 0 <= y < n :: Pulled(E, n, lv, y)
  }

  /** From the minimal levels, a node t that pulling leaves at its minimal
      level has below it a chain of nodes, each reaching t, at every level
      from MinLevel(t) down to 0: the predecessor that fixes a node's
      minimal level can be pulled no higher either. */
  lemma {:induction false} PinnedChain(E: seq<Edge>, n: nat, lv: seq<int>, t: nat)
    requires ValidEdges(E, n) && Acyclic(E) && t < n && |lv| == n
    requires forall y :: 0 <= y < n ==> lv[y] == MinLevel(E, n, y)
    requires Pulled(E, n, lv, t) == MinLevel(E, n, t)
    ensures forall k :: 0 <= k <= MinLevel(E, n, t) ==> k in PulledLevels(E, n, lv)
    ensures exists y :: 0 <= y < n && Reaches(E, y, t) && Pulled(E, n, lv, y) == 0
    decreases MinLevel(E, n, t)
  {
    var m := MinLevel(E, n, t);
    var S := PulledLevels(E, n, lv);
    ReachesRefl(E, t);
    assert m in S by { assert Pulled(E, n, lv, t) == m; }
    if m > 0 {
      var p := PinnedPred(E, n, lv, t);
      PinnedChain(E, n, lv, p);
      var y :| 0 <= y < n && Reaches(E, y, p) && Pulled(E, n, lv, y) == 0;
      ReachesStepBack(E, y, p, t);
      forall k | 0 <= k <= m
        ensures k in S
      {
        if k < m { assert k <= MinLevel(E, n, p); }
      }
    }
  }

  /** The predecessor that fixes a pinned node's minimal level is pinned
      one level lower. */
  lemma PinnedPred(E: seq<Edge>, n: nat, lv: seq<int>, t: nat) returns (p: nat)
    requires ValidEdges(E, n) && Acyclic(E) && t < n && |lv| == n
    requires forall y :: 0 <= y < n ==> lv[y] == MinLevel(E, n, y)
    requires Pulled(E, n, lv, t) == MinLevel(E, n, t) && MinLevel(E, n, t) > 0
    ensures p < n && (p, t) in E && MinLevel(E, n, p) == MinLevel(E, n, t) - 1
    ensures Pulled(E, n, lv, p) == MinLevel(E, n, p)
  {
    MinLevelTight(E, n, t);
    p :| (p, t) in E && p < n && MinLevel(E, n, t) == MinLevel(E, n, p) + 1;
    PulledEdge(E, n, lv, p, t);
    PulledAboveMin(E, n, lv, p);
  }

  /** Following a successor one pulled level up, every node reaches a sink
      at least as high as itself. */
  lemma {:induction false} UpToSink(E: seq<Edge>, n: nat, lv: seq<int>, x: nat)
    requires ValidEdges(E, n) && Acyclic(E) && x < n && |lv| == n
    ensures exists t :: 0 <= t < n && Outs(E, t) == [] && Reaches(E, x, t) && Pulled(E, n, lv, x) <= Pulled(E, n, lv, t)
    decreases Desc(E, n, x)
  {
    if Outs(E, x) == [] {
      ReachesRefl(E, x);
    } else {
      PulledTight(E, n, lv, x);
      var s :| (x, s) in E && s < n && Pulled(E, n, lv, s) == Pulled(E, n, lv, x) + 1;
      DescStrict(E, n, x, s);
      UpToSink(E, n, lv, s);
      var t :| 0 <= t < n && Outs(E, t) == [] && Reaches(E, s, t) && Pulled(E, n, lv, s) <= Pulled(E, n, lv, t);
      ReachesStepFront(E, x, s, t);
    }
  }

  /** From the minimal levels, the pulled levels leave no gap: every level
      from 0 up to that of any node x is taken by some node, and x shares a
      descendant with a node at level 0. */
  lemma PulledNoGaps(E: seq<Edge>, n: nat, lv: seq<int>, x: nat)
    requires ValidEdges(E, n) && Acyclic(E) && x < n && |lv| == n
    requires forall y :: 0 <= y < n ==> lv[y] == MinLevel(E, n, y)
    ensures forall k :: 0 <= k <= Pulled(E, n, lv, x) ==> k in PulledLevels(E, n, lv)
    ensures exists y, t :: 0 <= y < n && 0 <= t < n && Reaches(E, x, t) && Reaches(E, y, t) && Pulled(E, n, lv, y) == 0
  {
    UpToSink(E, n, lv, x);
    var t :| 0 <= t < n && Outs(E, t) == [] && Reaches(E, x, t) && Pulled(E, n, lv, x) <= Pulled(E, n, lv, t);
    PulledTight(E, n, lv, t);
    PinnedChain(E, n, lv, t);
  }

  /** Pulled levels depend on lv only through the sinks. */
  lemma {:induction false} PulledSinks(E: seq<Edge>, n: nat, lv: seq<int>, lv': seq<int>, x: nat)
    requires ValidEdges(E, n) && Acyclic(E) && x < n && |lv| == n && |lv'| == n
    requires forall y :: 0 <= y < n && Outs(E, y) == [] ==> lv[y] == lv'[y]
    ensures Pulled(E, n, lv, x) == Pulled(E, n, lv', x)
    decreases Desc(E, n, x), 1, 0
  {
    if Outs(E, x) != [] {
      SuccMinSinks(E, n, lv, lv', x, Outs(E, x));
    }
  }

  lemma {:induction false} SuccMinSinks(E: seq<Edge>, n: nat, lv: seq<int>, lv': seq<int>, x: nat, ss: seq<nat>)
    requires ValidEdges(E, n) && Acyclic(E) && x < n && |lv| == n && |lv'| == n
    requires forall y :: 0 <= y < n && Outs(E, y) == [] ==> lv[y] == lv'[y]
    requires ss != [] && forall s :: s in ss ==> (x, s) in E
    ensures SuccMin(E, n, lv, x, ss) == SuccMin(E, n, lv', x, ss)
    decreases Desc(E, n, x), 0, |ss|
  {
    assert ss[0] in ss;
    DescStrict(E, n, x, ss[0]);
    PulledSinks(E, n, lv, lv', ss[0]);
    if |ss| > 1 {
      assert forall s :: s in ss[1..] ==> s in ss;
      SuccMinSinks(E, n, lv, lv', x, ss[1..]);
    }
  }

  // ---------------------------------------------------------------------
  // Reachability facts the recursion needs

  /** A sink reaches nothing but itself. */
  lemma SinkReach(E: seq<Edge>, x: nat, y: nat)
    requires Outs(E, x) == [] && Reaches(E, x, y)
    ensures y == x
  {
    var p :| PathFrom(E, p, x, y);
    PathEnds(E, p);
    assert |p| == 1;
  }

  /** Some node of ss reaches y. */
  ghost predicate ReachedFrom(E: seq<Edge>, ss: seq<nat>, y: nat)
  {
    exists s :: s in ss && Reaches(E, s, y)
  }

  /** Any node other than x that x reaches is reached from a successor of x. */
  lemma DescSplit(E: seq<Edge>, x: nat, y: nat)
    requires y != x
    ensures Reaches(E, x, y) <==> ReachedFrom(E, Outs(E, x), y)
  {
    if Reaches(E, x, y) {
      var p :| PathFrom(E, p, x, y);
      assert |p| > 1;
      assert (p[0], p[1]) in E;
      assert PathFrom(E, p[1..], p[1], y) by {
        forall i | 0 <= i < |p[1..]| - 1
          ensures (p[1..][i], p[1..][i + 1]) in E
        {
          assert p[1..][i] == p[i + 1] && p[1..][i + 1] == p[i + 2];
        }
      }
      assert p[1] in Outs(E, x);
    }
    if ReachedFrom(E, Outs(E, x), y) {
      var s :| s in Outs(E, x) && Reaches(E, s, y);
      ReachesStepFront(E, x, s, y);
    }
  }

  lemma ReachedFromCons(E: seq<Edge>, ss: seq<nat>, y: nat)
    requires ss != []
    ensures ReachedFrom(E, ss, y) <==> Reaches(E, ss[0], y) || ReachedFrom(E, ss[1..], y)
  {
    if ReachedFrom(E, ss, y) {
      var s :| s in ss && Reaches(E, s, y);
      if s != ss[0] {
        var k :| 0 <= k < |ss| && ss[k] == s;
        assert ss[1..][k - 1] == s;
      }
    }
    if ReachedFrom(E, ss[1..], y) {
      var s :| s in ss[1..] && Reaches(E, s, y);
      assert s in ss;
    }
  }

  // ---------------------------------------------------------------------
  // The recursion

  /** x.normalizeLevel(): the nodes x reaches get their pulled levels, all
      others keep theirs. */
  function Normalize(E: seq<Edge>, n: nat, x: nat, lv: seq<int>): (r: seq<int>)
    requires ValidEdges(E, n) && Acyclic(E) && x < n && |lv| == n
    requires NotAbovePulled(E, n, lv)
    ensures |r| == n && NotAbovePulled(E, n, r)
    ensures forall y :: 0 <= y < n && Reaches(E, x, y) ==> r[y] == Pulled(E, n, lv, y)
    ensures forall y :: 0 <= y < n && !Reaches(E, x, y) ==> r[y] == lv[y]
    ensures forall y :: 0 <= y < n && Outs(E, y) == [] ==> r[y] == lv[y]
    decreases Desc(E, n, x), 1, 0
  {
    if Outs(E, x) == [] then
      SinkOnlyItself(E, n, x, lv);
      lv
    else
      var (m, lv') := NormalizeOuts(E, n, x, Outs(E, x), None, lv);
      MinNextAboveLevel(E, n, x, lv, m, lv');
      // the Java `assert minNextLevel > this.level`; minNextLevel is never
      // Integer.MAX_VALUE here, out being non-empty
      assert m.value > lv'[x];
      var r := lv'[x := m.value - 1];
      NormalizeStep(E, n, x, lv, lv', r);
      NotAbovePulledKept(E, n, lv, r);
      r
  }

  lemma SinkOnlyItself(E: seq<Edge>, n: nat, x: nat, lv: seq<int>)
    requires ValidEdges(E, n) && Acyclic(E) && x < n && |lv| == n && Outs(E, x) == []
    ensures forall y :: 0 <= y < n && Reaches(E, x, y) ==> lv[y] == Pulled(E, n, lv, y)
  {
    forall y | 0 <= y < n && Reaches(E, x, y)
      ensures lv[y] == Pulled(E, n, lv, y)
    {
      SinkReach(E, x, y);
    }
  }

  lemma NormalizeStep(E: seq<Edge>, n: nat, x: nat, lv: seq<int>, lv': seq<int>, r: seq<int>)
    requires ValidEdges(E, n) && Acyclic(E) && x < n && |lv| == n && Outs(E, x) != []
    requires |lv'| == n && r == lv'[x := Pulled(E, n, lv, x)]
    requires forall y :: 0 <= y < n && ReachedFrom(E, Outs(E, x), y) ==> lv'[y] == Pulled(E, n, lv, y)
    requires forall y :: 0 <= y < n && !ReachedFrom(E, Outs(E, x), y) ==> lv'[y] == lv[y]
    ensures forall y :: 0 <= y < n && Reaches(E, x, y) ==> r[y] == Pulled(E, n, lv, y)
    ensures forall y :: 0 <= y < n && !Reaches(E, x, y) ==> r[y] == lv[y]
    ensures forall y :: 0 <= y < n && Outs(E, y) == [] ==> r[y] == lv[y]
  {
    ReachesRefl(E, x);
    forall y | 0 <= y < n && y != x
      ensures Reaches(E, x, y) <==> ReachedFrom(E, Outs(E, x), y)
    {
      DescSplit(E, x, y);
    }
    forall y | 0 <= y < n && Outs(E, y) == [] && ReachedFrom(E, Outs(E, x), y)
      ensures Pulled(E, n, lv, y) == lv[y]
    {
    }
  }

  /** The loop over `out`: minNext is minNextLevel, None standing for the
      Integer.MAX_VALUE start value. */
  function NormalizeOuts(E: seq<Edge>, n: nat, x: nat, ss: seq<nat>, minNext: Option<int>, lv: seq<int>)
    : (r: (Option<int>, seq<int>))
    requires ValidEdges(E, n) && Acyclic(E) && x < n && |lv| == n
    requires NotAbovePulled(E, n, lv)
    requires forall s :: s in ss ==> (x, s) in E
    ensures |r.1| == n
    ensures forall y :: 0 <= y < n && ReachedFrom(E, ss, y) ==> r.1[y] == Pulled(E, n, lv, y)
    ensures forall y :: 0 <= y < n && !ReachedFrom(E, ss, y) ==> r.1[y] == lv[y]
    ensures ss == [] ==> r.0 == minNext
    ensures ss != [] ==> r.0.Some?
    ensures ss != [] ==> r.0.value == (if minNext.Some? then Min(minNext.value, SuccMin(E, n, lv, x, ss))
                                       else SuccMin(E, n, lv, x, ss))
    decreases Desc(E, n, x), 0, |ss|
  {
    if ss == [] then (minNext, lv)
    else
      var s := ss[0];
      assert s in ss;
      assert forall t :: t in ss[1..] ==> t in ss;
      DescStrict(E, n, x, s);
      var lv1 := Normalize(E, n, s, lv);
      var m := if minNext.None? || lv1[s] < minNext.value then Some(lv1[s]) else minNext;
      var r := NormalizeOuts(E, n, x, ss[1..], m, lv1);
      NormalizeOutsStep(E, n, x, ss, minNext, lv, lv1, m, r);
      r
  }

  lemma NormalizeOutsStep(E: seq<Edge>, n: nat, x: nat, ss: seq<nat>, minNext: Option<int>,
                          lv: seq<int>, lv1: seq<int>, m: Option<int>, r: (Option<int>, seq<int>))
    requires ValidEdges(E, n) && Acyclic(E) && x < n && |lv| == n
    requires ss != [] && forall s :: s in ss ==> (x, s) in E
    requires ss[0] < n && |lv1| == n
    requires forall y :: 0 <= y < n && Reaches(E, ss[0], y) ==> lv1[y] == Pulled(E, n, lv, y)
    requires forall y :: 0 <= y < n && !Reaches(E, ss[0], y) ==> lv1[y] == lv[y]
    requires forall y :: 0 <= y < n && Outs(E, y) == [] ==> lv1[y] == lv[y]
    requires m == if minNext.None? || lv1[ss[0]] < minNext.value then Some(lv1[ss[0]]) else minNext
    requires |r.1| == n
    requires forall y :: 0 <= y < n && ReachedFrom(E, ss[1..], y) ==> r.1[y] == Pulled(E, n, lv1, y)
    requires forall y :: 0 <= y < n && !ReachedFrom(E, ss[1..], y) ==> r.1[y] == lv1[y]
    requires ss[1..] == [] ==> r.0 == m
    requires ss[1..] != [] ==> r.0.Some? && r.0.value == Min(m.value, SuccMin(E, n, lv1, x, ss[1..]))
    ensures forall y :: 0 <= y < n && ReachedFrom(E, ss, y) ==> r.1[y] == Pulled(E, n, lv, y)
    ensures forall y :: 0 <= y < n && !ReachedFrom(E, ss, y) ==> r.1[y] == lv[y]
    ensures r.0.Some? &&
      r.0.value == (if minNext.Some? then Min(minNext.value, SuccMin(E, n, lv, x, ss)) else SuccMin(E, n, lv, x, ss))
  {
    ReachesRefl(E, ss[0]);
    forall y | 0 <= y < n
      ensures Pulled(E, n, lv1, y) == Pulled(E, n, lv, y)
    {
      PulledSinks(E, n, lv1, lv, y);
    }
    forall y | 0 <= y < n
      ensures ReachedFrom(E, ss, y) <==> Reaches(E, ss[0], y) || ReachedFrom(E, ss[1..], y)
    {
      ReachedFromCons(E, ss, y);
    }
    if ss[1..] != [] {
      assert forall t :: t in ss[1..] ==> t in ss;
      SuccMinSinks(E, n, lv1, lv, x, ss[1..]);
    }
  }

  /** No level lies above its pulled value. The levels assignMinLevel
      leaves satisfy this, and every normalizeLevel call keeps it. */
  ghost predicate NotAbovePulled(E: seq<Edge>, n: nat, lv: seq<int>)
    requires ValidEdges(E, n) && Acyclic(E) && |lv| == n
  {
    forall y :: 0 <= y < n ==> lv[y] <= Pulled(E, n, lv, y)
  }

  /** The Java `assert minNextLevel > this.level`, with this.level read after
      the loop over `out`: the loop never changes x's own level (no successor
      leads back to x), and its minimum is one above x's pulled level. */
  lemma MinNextAboveLevel(E: seq<Edge>, n: nat, x: nat, lv: seq<int>, minNext: Option<int>, lv': seq<int>)
    requires ValidEdges(E, n) && Acyclic(E) && x < n && |lv| == n && Outs(E, x) != []
    requires lv[x] <= Pulled(E, n, lv, x)
    requires minNext == Some(SuccMin(E, n, lv, x, Outs(E, x)))
    requires |lv'| == n && forall y :: 0 <= y < n && !ReachedFrom(E, Outs(E, x), y) ==> lv'[y] == lv[y]
    ensures lv'[x] == lv[x]
    ensures minNext.value > lv'[x]
  {
    assert forall s :: s in Outs(E, x) ==> (x, s) in E && !Reaches(E, s, x);
    assert !ReachedFrom(E, Outs(E, x), x);
  }

  /** Replacing levels by their pulled values, sinks untouched, keeps every
      level at or below its pulled value. */
  lemma NotAbovePulledKept(E: seq<Edge>, n: nat, lv: seq<int>, r: seq<int>)
    requires ValidEdges(E, n) && Acyclic(E) && |lv| == n && |r| == n
    requires NotAbovePulled(E, n, lv)
    requires forall y :: 0 <= y < n && Outs(E, y) == [] ==> r[y] == lv[y]
    requires forall y :: 0 <= y < n ==> r[y] == lv[y] || r[y] == Pulled(E, n, lv, y)
    ensures NotAbovePulled(E, n, r)
  {
    forall y | 0 <= y < n
      ensures r[y] <= Pulled(E, n, r, y)
    {
      PulledSinks(E, n, lv, r, y);
    }
  }

  // ---------------------------------------------------------------------
  // The loop over all nodes

  /** Some source before position i reaches y. */
  ghost predicate SourceBefore(E: seq<Edge>, i: nat, y: nat)
  {
    exists s :: 0 <= s < i && Ins(E, s) == [] && Reaches(E, s, y)
  }

  /** Only a node's own path reaches a source. */
  lemma SourceReachedOnlyFromItself(E: seq<Edge>, s: nat, y: nat)
    requires Ins(E, y) == [] && Reaches(E, s, y)
    ensures s == y
  {
    var p :| PathFrom(E, p, s, y);
    PathEnds(E, p);
    assert |p| == 1;
  }

  /** Every node of an acyclic graph is reached from a source. */
  lemma {:induction false} HasSource(E: seq<Edge>, n: nat, y: nat)
    requires ValidEdges(E, n) && Acyclic(E) && y < n
    ensures exists s :: 0 <= s < n && Ins(E, s) == [] && Reaches(E, s, y)
    decreases Anc(E, n, y)
  {
    ReachesRefl(E, y);
    if Ins(E, y) != [] {
      var p := Ins(E, y)[0];
      assert p in Ins(E, y);
      AncStrict(E, n, p, y);
      HasSource(E, n, p);
      var s :| 0 <= s < n && Ins(E, s) == [] && Reaches(E, s, p);
      ReachesStepBack(E, s, p, y);
    }
  }

  /** The loop `for (Node n : nodes) if (n.level == 0) n.normalizeLevel();`
      run on the levels assignMinLevel produced. The guard picks exactly the
      sources, and at the end every node holds its pulled level. */
  method NormalizeAll(E: seq<Edge>, n: nat, lv0: seq<int>) returns (lv: seq<int>)
    requires ValidEdges(E, n) && Acyclic(E) && |lv0| == n
    requires forall x :: 0 <= x < n ==> lv0[x] == MinLevel(E, n, x)
    ensures |lv| == n
    ensures forall x :: 0 <= x < n ==> lv[x] == Pulled(E, n, lv0, x)
  {
    lv := lv0;
    var i := 0;
    while i < n
      invariant 0 <= i <= n && |lv| == n
      invariant forall y :: 0 <= y < n ==>
        lv[y] == if SourceBefore(E, i, y) then Pulled(E, n, lv0, y) else lv0[y]
    {
      LoopStep(E, n, lv0, lv, i);
      if lv[i] == 0 {
        NotAbovePulledInLoop(E, n, lv0, lv);
        var lv' := Normalize(E, n, i, lv);
        NormalizeFromSource(E, n, lv0, lv, lv', i);
        lv := lv';
      } else {
        NoNewSource(E, lv0, lv, i);
      }
      i := i + 1;
    }
    forall y | 0 <= y < n
      ensures SourceBefore(E, n, y)
    {
      HasSource(E, n, y);
    }
  }

  /** At step i the guard `level == 0` holds exactly for a source, and the
      levels agree with lv0 at every sink. */
  lemma LoopStep(E: seq<Edge>, n: nat, lv0: seq<int>, lv: seq<int>, i: nat)
    requires ValidEdges(E, n) && Acyclic(E) && |lv0| == n && |lv| == n && i < n
    requires forall x :: 0 <= x < n ==> lv0[x] == MinLevel(E, n, x)
    requires forall y :: 0 <= y < n ==>
      lv[y] == if SourceBefore(E, i, y) then Pulled(E, n, lv0, y) else lv0[y]
    ensures lv[i] == 0 <==> Ins(E, i) == []
    ensures forall y :: 0 <= y < n && Outs(E, y) == [] ==> lv[y] == lv0[y]
  {
    MinLevelTight(E, n, i);
    PulledAboveMin(E, n, lv0, i);
    if Ins(E, i) == [] && SourceBefore(E, i, i) {
      var s :| 0 <= s < i && Ins(E, s) == [] && Reaches(E, s, i);
      SourceReachedOnlyFromItself(E, s, i);
    }
  }

  /** During the loop every level is its minimum or its pulled value, so
      none lies above its pulled value: the assert in normalizeLevel holds
      on every call the loop makes. */
  lemma NotAbovePulledInLoop(E: seq<Edge>, n: nat, lv0: seq<int>, lv: seq<int>)
    requires ValidEdges(E, n) && Acyclic(E) && |lv0| == n && |lv| == n
    requires forall x :: 0 <= x < n ==> lv0[x] == MinLevel(E, n, x)
    requires forall y :: 0 <= y < n && Outs(E, y) == [] ==> lv[y] == lv0[y]
    requires forall y :: 0 <= y < n ==> lv[y] == lv0[y] || lv[y] == Pulled(E, n, lv0, y)
    ensures NotAbovePulled(E, n, lv)
  {
    forall y | 0 <= y < n
      ensures lv[y] <= Pulled(E, n, lv, y)
    {
      PulledSinks(E, n, lv, lv0, y);
      PulledAboveMin(E, n, lv0, y);
    }
  }

  lemma NormalizeFromSource(E: seq<Edge>, n: nat, lv0: seq<int>, lv: seq<int>, lv': seq<int>, i: nat)
    requires ValidEdges(E, n) && Acyclic(E) && |lv0| == n && |lv| == n && |lv'| == n && i < n
    requires Ins(E, i) == []
    requires forall y :: 0 <= y < n && Outs(E, y) == [] ==> lv[y] == lv0[y]
    requires forall y :: 0 <= y < n ==>
      lv[y] == if SourceBefore(E, i, y) then Pulled(E, n, lv0, y) else lv0[y]
    requires forall y :: 0 <= y < n && Reaches(E, i, y) ==> lv'[y] == Pulled(E, n, lv, y)
    requires forall y :: 0 <= y < n && !Reaches(E, i, y) ==> lv'[y] == lv[y]
    ensures forall y :: 0 <= y < n ==>
      lv'[y] == if SourceBefore(E, i + 1, y) then Pulled(E, n, lv0, y) else lv0[y]
  {
    forall y | 0 <= y < n
      ensures lv'[y] == if SourceBefore(E, i + 1, y) then Pulled(E, n, lv0, y) else lv0[y]
    {
      PulledSinks(E, n, lv, lv0, y);
      if SourceBefore(E, i + 1, y) && !SourceBefore(E, i, y) {
        var s :| 0 <= s < i + 1 && Ins(E, s) == [] && Reaches(E, s, y);
        assert s == i;
      }
    }
  }

  lemma NoNewSource(E: seq<Edge>, lv0: seq<int>, lv: seq<int>, i: nat)
    requires Ins(E, i) != []
    ensures forall y :: SourceBefore(E, i + 1, y) <==> SourceBefore(E, i, y)
  {
    forall y | SourceBefore(E, i + 1, y)
      ensures SourceBefore(E, i, y)
    {
      var s :| 0 <= s < i + 1 && Ins(E, s) == [] && Reaches(E, s, y);
      assert s != i;
    }
  }
}
