/** `Node.assignMinLevel` and the loop of `setGraph` that calls it: every
    node of the (now acyclic) working graph gets the smallest level that is
    larger than the levels of all its predecessors. The Java stores the level
    in the node and uses UNMARKED (Integer.MAX_VALUE) for "not yet assigned";
    here the levels are a sequence of options threaded through the calls, with
    None for UNMARKED. */
module Levels {
  import opened Base
  import opened Graphs

  /** Integer.MIN_VALUE, the start value of the running maximum. */
  const IntMin: int := -2147483648

  // ---------------------------------------------------------------------
  // Reference: the longest-path layering

  /** The level assignMinLevel computes: 0 for a node without predecessors,
      otherwise one more than the largest level of a predecessor. */
  function MinLevel(E: seq<Edge>, n: nat, x: nat): (l: nat)
    requires ValidEdges(E, n) && Acyclic(E) && x < n
    decreases Anc(E, n, x), 1, 0
  {
    if Ins(E, x) == [] then 0 else 1 + PredMax(E, n, x, Ins(E, x))
  }

  /** The largest MinLevel among ps, all of which are predecessors of x. */
  function PredMax(E: seq<Edge>, n: nat, x: nat, ps: seq<nat>): nat
    requires ValidEdges(E, n) && Acyclic(E) && x < n
    requires forall p :: p in ps ==> (p, x) in E
    decreases Anc(E, n, x), 0, |ps|
  {
    if ps == [] then 0
    else
      assert ps[0] in ps;
      assert forall p :: p in ps[1..] ==> p in ps;
      AncStrict(E, n, ps[0], x);
      Max(MinLevel(E, n, ps[0]), PredMax(E, n, x, ps[1..]))
  }

  lemma {:induction false} PredMaxSpec(E: seq<Edge>, n: nat, x: nat, ps: seq<nat>)
    requires ValidEdges(E, n) && Acyclic(E) && x < n
    requires forall p :: p in ps ==> (p, x) in E
    ensures forall p :: p in ps ==> p < n && MinLevel(E, n, p) <= PredMax(E, n, x, ps)
    ensures ps != [] ==> exists p :: p in ps && p < n && PredMax(E, n, x, ps) == MinLevel(E, n, p)
    decreases |ps|
  {
    if ps != [] {
      assert ps[0] in ps;
      assert forall p :: p in ps[1..] ==> p in ps;
      PredMaxSpec(E, n, x, ps[1..]);
      forall p | p in ps
        ensures p < n && MinLevel(E, n, p) <= PredMax(E, n, x, ps)
      {
        if p != ps[0] {
          var k :| 0 <= k < |ps| && ps[k] == p;
          assert ps[1..][k - 1] == p;
        }
      }
    }
  }

  /** The levels strictly increase along every edge. */
  lemma MinLevelEdge(E: seq<Edge>, n: nat, p: nat, x: nat)
    requires ValidEdges(E, n) && Acyclic(E) && (p, x) in E
    ensures p < n && x < n
    ensures MinLevel(E, n, p) < MinLevel(E, n, x)
  {
    assert p in Ins(E, x);
    PredMaxSpec(E, n, x, Ins(E, x));
  }

  /** A node has level 0 exactly when it has no predecessor, and otherwise
      some predecessor sits exactly one level above it. */
  lemma MinLevelTight(E: seq<Edge>, n: nat, x: nat)
    requires ValidEdges(E, n) && Acyclic(E) && x < n
    ensures MinLevel(E, n, x) == 0 <==> Ins(E, x) == []
    ensures Ins(E, x) != [] ==> exists p :: (p, x) in E && p < n && MinLevel(E, n, x) == MinLevel(E, n, p) + 1
  {
    if Ins(E, x) != [] {
      PredMaxSpec(E, n, x, Ins(E, x));
    }
  }

  /** MinLevel is the least layering: any non-negative labelling that grows
      strictly along every edge labels each node at least as high. */
  lemma {:induction false} MinLevelLeast(E: seq<Edge>, n: nat, L: seq<int>, x: nat)
    requires ValidEdges(E, n) && Acyclic(E) && x < n && |L| == n
    requires forall y :: 0 <= y < n ==> L[y] >= 0
    requires forall e :: e in E ==> L[e.0] < L[e.1]
    ensures MinLevel(E, n, x) <= L[x]
    decreases Anc(E, n, x)
  {
    if Ins(E, x) != [] {
      MinLevelTight(E, n, x);
      var p :| (p, x) in E && p < n && MinLevel(E, n, x) == MinLevel(E, n, p) + 1;
      AncStrict(E, n, p, x);
      MinLevelLeast(E, n, L, p);
    }
  }

  // ---------------------------------------------------------------------
  // The memoised recursion

  /** Every assigned level is the MinLevel of its node. */
  ghost predicate MemoSound(E: seq<Edge>, n: nat, lv: seq<Option<int>>)
    requires ValidEdges(E, n) && Acyclic(E)
  {
    |lv| == n && forall y :: 0 <= y < n && lv[y].Some? ==> lv[y].value == MinLevel(E, n, y)
  }

  /** lv' keeps every level lv already holds, and changes nothing outside S. */
  ghost predicate Grows(lv: seq<Option<int>>, lv': seq<Option<int>>, S: set<nat>)
  {
    && |lv'| == |lv|
    && (forall y :: 0 <= y < |lv| && lv[y].Some? ==> lv'[y] == lv[y])
    && (forall y :: 0 <= y < |lv| && y !in S ==> lv'[y] == lv[y])
  }

  /** x.assignMinLevel(): returns x's level, assigning it (and, on the way,
      the levels of its unassigned ancestors) if it is UNMARKED. */
  function AssignMinLevel(E: seq<Edge>, n: nat, x: nat, lv: seq<Option<int>>)
    : (r: (int, seq<Option<int>>))
    requires ValidEdges(E, n) && Acyclic(E) && x < n && MemoSound(E, n, lv)
    ensures r.0 == MinLevel(E, n, x)
    ensures MemoSound(E, n, r.1) && r.1[x] == Some(r.0)
    ensures Grows(lv, r.1, Anc(E, n, x))
    decreases Anc(E, n, x), 1, 0
  {
    if lv[x].Some? then (lv[x].value, lv)
    else if Ins(E, x) == [] then
      Settle(E, n, x, lv, lv, 0);
      (0, lv[x := Some(0)])
    else
      var (m, lv') := MaxPreds(E, n, x, Ins(E, x), IntMin, lv);
      RunningMaxIsPredMax(E, n, x, m);
      Settle(E, n, x, lv, lv', m + 1);
      (m + 1, lv'[x := Some(m + 1)])
  }

  /** Storing x's level v into lv' (lv' grown from lv among x's strict
      ancestors) keeps the memo sound and grows lv within x's ancestors. */
  lemma Settle(E: seq<Edge>, n: nat, x: nat, lv: seq<Option<int>>, lv': seq<Option<int>>, v: int)
    requires ValidEdges(E, n) && Acyclic(E) && x < n && |lv| == n && lv[x].None?
    requires MemoSound(E, n, lv') && Grows(lv, lv', Anc(E, n, x) - {x})
    requires v == MinLevel(E, n, x)
    ensures MemoSound(E, n, lv'[x := Some(v)])
    ensures Grows(lv, lv'[x := Some(v)], Anc(E, n, x))
  {
    ReachesRefl(E, x);
    GrowsSet(lv, lv', Anc(E, n, x), x, Some(v));
  }

  /** The maximum the loop over `in` ends with is PredMax. */
  lemma RunningMaxIsPredMax(E: seq<Edge>, n: nat, x: nat, m: int)
    requires ValidEdges(E, n) && Acyclic(E) && x < n && Ins(E, x) != []
    requires forall p :: p in Ins(E, x) ==> p < n && MinLevel(E, n, p) <= m
    requires m == IntMin || exists p :: p in Ins(E, x) && p < n && m == MinLevel(E, n, p)
    ensures m == PredMax(E, n, x, Ins(E, x))
  {
    PredMaxSpec(E, n, x, Ins(E, x));
  }

  /** Assigning an unassigned x in S after growing outside S - {x}. */
  lemma GrowsSet(lv: seq<Option<int>>, lv': seq<Option<int>>, S: set<nat>, x: nat, v: Option<int>)
    requires Grows(lv, lv', S - {x}) && x < |lv| && lv[x].None? && x in S
    ensures Grows(lv, lv'[x := v], S)
  {
  }

  /** The loop over `in`: maxLevel is the running maximum. When a predecessor's
      level beats it, the Java calls assignMinLevel a second time to read the
      level; that call finds the level already assigned. */
  function MaxPreds(E: seq<Edge>, n: nat, x: nat, ps: seq<nat>, maxLevel: int, lv: seq<Option<int>>)
    : (r: (int, seq<Option<int>>))
    requires ValidEdges(E, n) && Acyclic(E) && x < n && MemoSound(E, n, lv)
    requires forall p :: p in ps ==> (p, x) in E
    ensures maxLevel <= r.0
    ensures forall p :: p in ps ==> p < n && MinLevel(E, n, p) <= r.0
    ensures r.0 == maxLevel || exists p :: p in ps && p < n && r.0 == MinLevel(E, n, p)
    ensures MemoSound(E, n, r.1)
    ensures forall p :: p in ps ==> p < n && r.1[p].Some?
    ensures Grows(lv, r.1, Anc(E, n, x) - {x})
    decreases Anc(E, n, x), 0, |ps|
  {
    if ps == [] then (maxLevel, lv)
    else
      var p := ps[0];
      assert p in ps;
      AncStrict(E, n, p, x);
      AncSubsetStrict(E, n, p, x);
      var (a, lv1) := AssignMinLevel(E, n, p, lv);
      GrowsWiden(lv, lv1, Anc(E, n, p), Anc(E, n, x) - {x});
      var (m, lv2) := if a > maxLevel then AssignMinLevel(E, n, p, lv1) else (maxLevel, lv1);
      GrowsTrans(lv, lv1, lv2, Anc(E, n, x) - {x});
      assert forall q :: q in ps[1..] ==> q in ps;
      var r := MaxPreds(E, n, x, ps[1..], m, lv2);
      MaxPredsStep(E, n, x, ps, maxLevel, lv, m, lv2, r.0, r.1);
      r
  }

  /** Growing within S is growing within any larger T. */
  lemma GrowsWiden(lv: seq<Option<int>>, lv': seq<Option<int>>, S: set<nat>, T: set<nat>)
    requires Grows(lv, lv', S) && S <= T
    ensures Grows(lv, lv', T)
  {
  }

  lemma GrowsTrans(a: seq<Option<int>>, b: seq<Option<int>>, c: seq<Option<int>>, S: set<nat>)
    requires Grows(a, b, S) && Grows(b, c, S)
    ensures Grows(a, c, S)
  {
  }

  /** One turn of the loop over `in`: what holds after the first predecessor
      and the rest of the loop gives the loop's contract. */
  lemma MaxPredsStep(E: seq<Edge>, n: nat, x: nat, ps: seq<nat>, maxLevel: int, lv: seq<Option<int>>,
                     m: int, lv2: seq<Option<int>>, r0: int, r1: seq<Option<int>>)
    requires ValidEdges(E, n) && Acyclic(E) && x < n && ps != [] && ps[0] < n
    requires maxLevel <= m && MinLevel(E, n, ps[0]) <= m
    requires m == maxLevel || m == MinLevel(E, n, ps[0])
    requires |lv2| == n && lv2[ps[0]].Some? && Grows(lv, lv2, Anc(E, n, x) - {x})
    requires m <= r0
    requires forall p :: p in ps[1..] ==> p < n && MinLevel(E, n, p) <= r0
    requires r0 == m || exists p :: p in ps[1..] && p < n && r0 == MinLevel(E, n, p)
    requires Grows(lv2, r1, Anc(E, n, x) - {x})
    requires forall p :: p in ps[1..] ==> p < n && r1[p].Some?
    ensures maxLevel <= r0
    ensures forall p :: p in ps ==> p < n && MinLevel(E, n, p) <= r0
    ensures r0 == maxLevel || exists p :: p in ps && p < n && r0 == MinLevel(E, n, p)
    ensures forall p :: p in ps ==> p < n && r1[p].Some?
    ensures Grows(lv, r1, Anc(E, n, x) - {x})
  {
    assert ps[0] in ps;
    assert forall q :: q in ps ==> q == ps[0] || q in ps[1..];
    assert forall q :: q in ps[1..] ==> q in ps;
    GrowsTrans(lv, lv2, r1, Anc(E, n, x) - {x});
  }

  /** A predecessor's ancestors are ancestors of x other than x itself. */
  lemma AncSubsetStrict(E: seq<Edge>, n: nat, p: nat, x: nat)
    requires Acyclic(E) && x < n && (p, x) in E
    ensures Anc(E, n, p) <= Anc(E, n, x) - {x}
  {
    AncStrict(E, n, p, x);
    assert !Reaches(E, x, p);
  }

  /** The loop `for (Node n : nodes) if (n.level == UNMARKED) n.assignMinLevel();`
      followed by reading every node's level. */
  method AssignAll(E: seq<Edge>, n: nat) returns (lv: seq<int>)
    requires ValidEdges(E, n) && Acyclic(E)
    ensures |lv| == n
    ensures forall x :: 0 <= x < n ==> lv[x] == MinLevel(E, n, x)
  {
    var memo: seq<Option<int>> := seq(n, _ => None);
    lv := [];
    var i := 0;
    while i < n
      invariant 0 <= i <= n && MemoSound(E, n, memo)
      invariant |lv| == i
      invariant forall y :: 0 <= y < i ==> lv[y] == MinLevel(E, n, y)
    {
      if memo[i].None? {
        var (_, m) := AssignMinLevel(E, n, i, memo);
        memo := m;
      }
      lv := lv + [memo[i].value];
      i := i + 1;
    }
  }
}
