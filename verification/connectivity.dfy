/** `Node.isConnectedTo`: a depth-first search for the shortest path from a
    node to a target, where `marked` holds the nodes on the current search
    stack. The Java shares one mutable set across the whole search; here the
    set is threaded through the calls and handed back, and the contract
    proves every call hands it back unchanged. */
module Connectivity {
  import opened Base
  import opened Graphs

  ghost function Unvisited(n: nat, marked: set<nat>): set<nat>
  {
    set i | 0 <= i < n && i !in marked
  }

  /** self.isConnectedTo(src, marked): the length of the shortest path from
      self to src that does not pass through a marked node, or -1. The
      second component is `marked` after the call. */
  function IsConnectedTo(E: seq<Edge>, n: nat, self: nat, src: nat, marked: set<nat>)
    : (r: (int, set<nat>))
    requires ValidEdges(E, n) && self < n
    ensures r.1 == marked
    ensures r.0 >= -1
    decreases Unvisited(n, marked), 0
  {
    if src == self then (0, marked)
    else if self in marked then (-1, marked)
    else
      assert self in Unvisited(n, marked) - Unvisited(n, marked + {self});
      var (best, m) := ScanOuts(E, n, Outs(E, self), src, marked + {self}, None);
      (if best.None? then -1 else best.value + 1, m - {self})
  }

  /** The loop over `out`: `best` is minPathLength, None standing for the
      Integer.MAX_VALUE start value. */
  function ScanOuts(E: seq<Edge>, n: nat, succs: seq<nat>, src: nat, marked: set<nat>,
                    best: Option<nat>): (r: (Option<nat>, set<nat>))
    requires ValidEdges(E, n) && forall s :: s in succs ==> s < n
    ensures r.1 == marked
    decreases Unvisited(n, marked), |succs| + 1
  {
    if succs == [] then (best, marked)
    else
      assert succs[0] in succs;
      assert forall s :: s in succs[1..] ==> s in succs;
      var (d, m) := IsConnectedTo(E, n, succs[0], src, marked);
      var best' := Improve(best, d);
      ScanOuts(E, n, succs[1..], src, m, best')
  }

  /** The update of minPathLength by a successor's result d. */
  function Improve(best: Option<nat>, d: int): Option<nat>
  {
    if d >= 0 && (best.None? || d < best.value) then Some(d) else best
  }

  /** A path from x to y without repeated nodes whose nodes before y avoid M. */
  ghost predicate SimpleAvoiding(E: seq<Edge>, p: seq<nat>, x: nat, y: nat, M: set<nat>)
  {
    PathFrom(E, p, x, y) && Distinct(p) && forall i :: 0 <= i < |p| - 1 ==> p[i] !in M
  }

  /** isConnectedTo finds a simple path avoiding `marked` of exactly the
      length it returns, and no such path is shorter; -1 means there is none. */
  lemma {:induction false} ConnectedCorrect(E: seq<Edge>, n: nat, self: nat, src: nat, marked: set<nat>)
    requires ValidEdges(E, n) && self < n
    ensures var d := IsConnectedTo(E, n, self, src, marked).0;
      && (d >= 0 ==> exists p {:trigger SimpleAvoiding(E, p, self, src, marked)} :: SimpleAvoiding(E, p, self, src, marked) && |p| - 1 == d)
      && (forall p {:trigger SimpleAvoiding(E, p, self, src, marked)} :: SimpleAvoiding(E, p, self, src, marked) ==> 0 <= d <= |p| - 1)
    decreases Unvisited(n, marked), 0
  {
    var d := IsConnectedTo(E, n, self, src, marked).0;
    if src == self {
      assert SimpleAvoiding(E, [self], self, src, marked);
    } else if self in marked {
      assert !exists p :: SimpleAvoiding(E, p, self, src, marked);
    } else {
      var M' := marked + {self};
      var succs := Outs(E, self);
      assert self in Unvisited(n, marked) - Unvisited(n, M');
      ScanSound(E, n, succs, src, M', None);
      ScanComplete(E, n, succs, src, M', None);
      var b := ScanOuts(E, n, succs, src, M', None).0;
      if d >= 0 {
        var j, p :| 0 <= j < |succs| && SimpleAvoiding(E, p, succs[j], src, M') && |p| - 1 == b.value;
        Prepend(E, self, succs[j], p, src, marked);
      }
      forall q | SimpleAvoiding(E, q, self, src, marked)
        ensures 0 <= d <= |q| - 1
      {
        Tail(E, q, self, src, marked);
        var j := IndexOf(succs, q[1]);
        assert SimpleAvoiding(E, q[1..], succs[j], src, M');
      }
    }
  }

  /** A step from self to s, then a simple path from s avoiding the stack
      with self on it, is a simple path from self avoiding the stack. */
  lemma Prepend(E: seq<Edge>, self: nat, s: nat, p: seq<nat>, src: nat, marked: set<nat>)
    requires (self, s) in E && self != src && self !in marked
    requires SimpleAvoiding(E, p, s, src, marked + {self})
    ensures SimpleAvoiding(E, [self] + p, self, src, marked)
  {
    var q := [self] + p;
    assert PathFrom(E, q, self, src) by {
      forall i | 0 <= i < |q| - 1
        ensures (q[i], q[i + 1]) in E
      {
        if i > 0 { assert q[i] == p[i - 1] && q[i + 1] == p[i]; }
      }
    }
    assert self !in p by {
      forall i | 0 <= i < |p|
        ensures p[i] != self
      {
        if i < |p| - 1 { assert p[i] !in marked + {self}; }
      }
    }
    assert Distinct(q) by {
      forall i, j | 0 <= i < j < |q|
        ensures q[i] != q[j]
      {
        if i > 0 { assert q[i] == p[i - 1] && q[j] == p[j - 1]; }
        else { assert q[j] == p[j - 1]; }
      }
    }
    forall i | 0 <= i < |q| - 1
      ensures q[i] !in marked
    {
      if i > 0 { assert q[i] == p[i - 1]; }
    }
  }

  /** The converse: a simple path from self to another node avoiding the
      stack goes through a successor, and its tail avoids the stack with
      self on it. */
  lemma Tail(E: seq<Edge>, q: seq<nat>, self: nat, src: nat, marked: set<nat>)
    requires SimpleAvoiding(E, q, self, src, marked) && self != src
    ensures |q| >= 2 && (self, q[1]) in E
    ensures SimpleAvoiding(E, q[1..], q[1], src, marked + {self})
  {
    var p := q[1..];
    assert |q| >= 2;
    assert (q[0], q[1]) in E;
    assert PathFrom(E, p, q[1], src) by {
      forall i | 0 <= i < |p| - 1
        ensures (p[i], p[i + 1]) in E
      {
        assert p[i] == q[i + 1] && p[i + 1] == q[i + 2];
      }
    }
    assert Distinct(p) by {
      forall i, j | 0 <= i < j < |p|
        ensures p[i] != p[j]
      {
        assert p[i] == q[i + 1] && p[j] == q[j + 1];
      }
    }
    forall i | 0 <= i < |p| - 1
      ensures p[i] !in marked + {self}
    {
      assert p[i] == q[i + 1];
      assert q[i + 1] != q[0];
    }
  }

  /** Some successor has a simple path of length d to src avoiding M. */
  ghost predicate WitnessIn(E: seq<Edge>, succs: seq<nat>, src: nat, M: set<nat>, d: int)
  {
    exists j, p {:trigger SimpleAvoiding(E, p, succs[j], src, M)} :: 0 <= j < |succs| && SimpleAvoiding(E, p, succs[j], src, M) && |p| - 1 == d
  }

  /** No successor has a simple path to src avoiding M shorter than b. */
  ghost predicate NoShorter(E: seq<Edge>, succs: seq<nat>, src: nat, M: set<nat>, b: Option<nat>)
  {
    forall j, p {:trigger SimpleAvoiding(E, p, succs[j], src, M)} ::
      0 <= j < |succs| && SimpleAvoiding(E, p, succs[j], src, M) ==> b.Some? && b.value <= |p| - 1
  }

  lemma {:induction false} ScanKeepsBest(E: seq<Edge>, n: nat, succs: seq<nat>, src: nat,
                                         marked: set<nat>, best: Option<nat>)
    requires ValidEdges(E, n) && forall s :: s in succs ==> s < n
    ensures var b := ScanOuts(E, n, succs, src, marked, best).0;
      best.Some? ==> b.Some? && b.value <= best.value
    decreases |succs|
  {
    if succs != [] {
      ScanStep(E, n, succs, src, marked, best);
      var d := IsConnectedTo(E, n, succs[0], src, marked).0;
      var best' := Improve(best, d);
      ScanKeepsBest(E, n, succs[1..], src, marked, best');
    }
  }

  lemma {:induction false} ScanSound(E: seq<Edge>, n: nat, succs: seq<nat>, src: nat,
                                     marked: set<nat>, best: Option<nat>)
    requires ValidEdges(E, n) && forall s :: s in succs ==> s < n
    ensures var b := ScanOuts(E, n, succs, src, marked, best).0;
      b.Some? ==> b == best || WitnessIn(E, succs, src, marked, b.value)
    decreases Unvisited(n, marked), |succs| + 1
  {
    if succs != [] {
      ScanStep(E, n, succs, src, marked, best);
      var d := IsConnectedTo(E, n, succs[0], src, marked).0;
      var best' := Improve(best, d);
      ConnectedCorrect(E, n, succs[0], src, marked);
      ScanSound(E, n, succs[1..], src, marked, best');
      var b := ScanOuts(E, n, succs[1..], src, marked, best').0;
      if b.Some? && b != best && b == best' {
        var p :| SimpleAvoiding(E, p, succs[0], src, marked) && |p| - 1 == d;
        WitnessHead(E, succs, p, src, marked);
      }
      if b.Some? && b != best' {
        WitnessShift(E, succs, src, marked, b.value);
      }
    }
  }

  lemma {:induction false} ScanComplete(E: seq<Edge>, n: nat, succs: seq<nat>, src: nat,
                                        marked: set<nat>, best: Option<nat>)
    requires ValidEdges(E, n) && forall s :: s in succs ==> s < n
    ensures NoShorter(E, succs, src, marked, ScanOuts(E, n, succs, src, marked, best).0)
    decreases Unvisited(n, marked), |succs| + 1
  {
    if succs != [] {
      ScanStep(E, n, succs, src, marked, best);
      var d := IsConnectedTo(E, n, succs[0], src, marked).0;
      var best' := Improve(best, d);
      ConnectedCorrect(E, n, succs[0], src, marked);
      ScanComplete(E, n, succs[1..], src, marked, best');
      ScanKeepsBest(E, n, succs[1..], src, marked, best');
      var b := ScanOuts(E, n, succs[1..], src, marked, best').0;
      assert d >= 0 ==> best'.Some? && best'.value <= d;
      NoShorterCons(E, succs, src, marked, b, d);
    }
  }

  /** Extends NoShorter from the successors after the first to all of them. */
  lemma NoShorterCons(E: seq<Edge>, succs: seq<nat>, src: nat, M: set<nat>, b: Option<nat>, d: int)
    requires succs != [] && NoShorter(E, succs[1..], src, M, b)
    requires forall p {:trigger SimpleAvoiding(E, p, succs[0], src, M)} :: SimpleAvoiding(E, p, succs[0], src, M) ==> 0 <= d <= |p| - 1
    requires d >= 0 ==> b.Some? && b.value <= d
    ensures NoShorter(E, succs, src, M, b)
  {
    forall j, p | 0 <= j < |succs| && SimpleAvoiding(E, p, succs[j], src, M)
      ensures b.Some? && b.value <= |p| - 1
    {
      if j > 0 {
        assert succs[1..][j - 1] == succs[j];
        assert SimpleAvoiding(E, p, succs[1..][j - 1], src, M);
      }
    }
  }

  /** One step of the loop over `out`, spelled out. */
  lemma ScanStep(E: seq<Edge>, n: nat, succs: seq<nat>, src: nat, marked: set<nat>, best: Option<nat>)
    requires ValidEdges(E, n) && (forall s :: s in succs ==> s < n) && succs != []
    ensures succs[0] < n && forall s :: s in succs[1..] ==> s < n
    ensures ScanOuts(E, n, succs, src, marked, best).0
         == ScanOuts(E, n, succs[1..], src, marked, Improve(best, IsConnectedTo(E, n, succs[0], src, marked).0)).0
  {
    assert succs[0] in succs;
    assert forall s :: s in succs[1..] ==> s in succs;
  }

  lemma WitnessHead(E: seq<Edge>, succs: seq<nat>, p: seq<nat>, src: nat, M: set<nat>)
    requires succs != [] && SimpleAvoiding(E, p, succs[0], src, M)
    ensures WitnessIn(E, succs, src, M, |p| - 1)
  {
  }

  lemma WitnessShift(E: seq<Edge>, succs: seq<nat>, src: nat, M: set<nat>, d: int)
    requires succs != [] && WitnessIn(E, succs[1..], src, M, d)
    ensures WitnessIn(E, succs, src, M, d)
  {
    var j, p :| 0 <= j < |succs[1..]| && SimpleAvoiding(E, p, succs[1..][j], src, M) && |p| - 1 == d;
    assert succs[1..][j] == succs[j + 1];
  }

  function BackPathLength(E: seq<Edge>, n: nat, u: nat, v: nat): (d: int)
    requires ValidEdges(E, n) && u < n
    ensures d == -1 <==> !Reaches(E, u, v)
    ensures d >= 0 ==> exists p {:trigger PathFrom(E, p, u, v)} :: PathFrom(E, p, u, v) && |p| - 1 == d
    ensures forall p {:trigger PathFrom(E, p, u, v)} :: PathFrom(E, p, u, v) ==> 0 <= d <= |p| - 1
    ensures u == v ==> d == 0
  {
    ConnectedCorrect(E, n, u, v, {});
    ShortestOfAll(E, n, u, v);
    IsConnectedTo(E, n, u, v, {}).0
  }

  lemma ShortestOfAll(E: seq<Edge>, n: nat, u: nat, v: nat)
    requires ValidEdges(E, n) && u < n
    ensures var d := IsConnectedTo(E, n, u, v, {}).0;
      forall p {:trigger PathFrom(E, p, u, v)} :: PathFrom(E, p, u, v) ==> 0 <= d <= |p| - 1
  {
    var d := IsConnectedTo(E, n, u, v, {}).0;
    ConnectedCorrect(E, n, u, v, {});
    forall p | PathFrom(E, p, u, v)
      ensures 0 <= d <= |p| - 1
    {
      var q := Shortcut(E, p, u, v);
      assert SimpleAvoiding(E, q, u, v, {});
    }
  }
}
