/** The drawable elements: one `Vertex` per node and chains of `Dummy`
    placeholders for edges that do not join adjacent levels. The Java links
    objects by reference; here every element lives in an arena and is named
    by its index. The scene keeps, per element, what never changes once the
    element exists (its kind, levelIndex and width) apart from what the
    construction keeps changing (a vertex's `in` and `out` lists, a dummy's
    `succ` link), together with the vertex of each node (`Node.vertex`) and
    the levels (`Leveling.levels`, a TreeMap keyed by level index). */
module Elements {
  import opened Base
  import opened Graphs

  /** LEVEL_GAP: a fresh level starts with height -LEVEL_GAP. */
  const LevelGap: real := 48.0

  /** Vertex.preferredHeight(); a Dummy prefers 0. */
  const VertexHeight: real := 40.0

  datatype Kind = VertexOf(node: nat) | DummyOf(reversed: bool)

  /** The fixed part of a GraphElement: Vertex or Dummy (with isReverse),
      levelIndex and width(). */
  datatype Element = Element(kind: Kind, level: int, width: real)

  /** A Level: its elements in insertion order, the sum of their widths and
      the largest preferred height (at least -LEVEL_GAP). */
  datatype Level = Level(members: seq<nat>, width: real, height: real)

  datatype Scene = Scene(elems: seq<Element>, ins: seq<seq<nat>>, outs: seq<seq<nat>>,
                         succ: seq<Option<nat>>, vertexOf: seq<Option<nat>>,
                         levels: map<int, Level>)

  function PreferredHeight(k: Kind): real
  {
    if k.VertexOf? then VertexHeight else 0.0
  }

  predicate IdsBelow(ms: seq<nat>, bound: nat)
  {
    forall i :: 0 <= i < |ms| ==> ms[i] < bound
  }

  /** The sum of the widths of the elements ms. */
  function SumWidth(elems: seq<Element>, ms: seq<nat>): real
    requires IdsBelow(ms, |elems|)
  {
    if ms == [] then 0.0 else SumWidth(elems, ms[..|ms| - 1]) + elems[ms[|ms| - 1]].width
  }

  /** The largest preferred height of the elements ms, and -LEVEL_GAP. */
  function MaxHeight(elems: seq<Element>, ms: seq<nat>): real
    requires IdsBelow(ms, |elems|)
  {
    if ms == [] then -LevelGap
    else MaxReal(MaxHeight(elems, ms[..|ms| - 1]), PreferredHeight(elems[ms[|ms| - 1]].kind))
  }

  lemma {:induction false} MaxHeightSpec(elems: seq<Element>, ms: seq<nat>)
    requires IdsBelow(ms, |elems|)
    ensures MaxHeight(elems, ms) >= -LevelGap
    ensures forall i :: 0 <= i < |ms| ==> PreferredHeight(elems[ms[i]].kind) <= MaxHeight(elems, ms)
    ensures MaxHeight(elems, ms) == -LevelGap ||
            exists i :: 0 <= i < |ms| && MaxHeight(elems, ms) == PreferredHeight(elems[ms[i]].kind)
    decreases |ms|
  {
    if ms != [] {
      var ms0 := ms[..|ms| - 1];
      MaxHeightSpec(elems, ms0);
      assert forall i :: 0 <= i < |ms0| ==> ms0[i] == ms[i];
    }
  }

  lemma {:induction false} SumWidthNonNegative(elems: seq<Element>, ms: seq<nat>)
    requires IdsBelow(ms, |elems|)
    requires forall i :: 0 <= i < |ms| ==> elems[ms[i]].width >= 0.0
    ensures SumWidth(elems, ms) >= 0.0
    decreases |ms|
  {
    if ms != [] {
      var ms0 := ms[..|ms| - 1];
      assert forall i :: 0 <= i < |ms0| ==> ms0[i] == ms[i];
      SumWidthNonNegative(elems, ms0);
    }
  }

  // ---------------------------------------------------------------------
  // Levels

  /** Every element belongs to the level of its levelIndex; every level
      holds distinct elements of its own index, at least one, and its width
      and height are the sum and maximum over its elements. */
  ghost predicate LevelsOk(elems: seq<Element>, levels: map<int, Level>)
  {
    && (forall e :: 0 <= e < |elems| ==> elems[e].level in levels)
    && (forall e :: 0 <= e < |elems| ==> e in levels[elems[e].level].members)
    && (forall l {:trigger LevelOk(elems, l, levels[l])} :: l in levels ==> LevelOk(elems, l, levels[l]))
  }

  ghost predicate LevelOk(elems: seq<Element>, l: int, L: Level)
  {
    && IdsBelow(L.members, |elems|) && Distinct(L.members) && |L.members| > 0
    && (forall i :: 0 <= i < |L.members| ==> elems[L.members[i]].level == l)
    && L.width == SumWidth(elems, L.members)
    && L.height == MaxHeight(elems, L.members)
  }

  /** The level sums and maxima stay put when the arena grows. */
  lemma {:induction false} SumsAgree(elems: seq<Element>, elems': seq<Element>, ms: seq<nat>)
    requires IdsBelow(ms, |elems|) && elems <= elems'
    ensures SumWidth(elems', ms) == SumWidth(elems, ms)
    ensures MaxHeight(elems', ms) == MaxHeight(elems, ms)
    decreases |ms|
  {
    if ms != [] {
      var ms0 := ms[..|ms| - 1];
      assert forall i :: 0 <= i < |ms0| ==> ms0[i] == ms[i];
      SumsAgree(elems, elems', ms0);
      assert elems'[ms[|ms| - 1]] == elems[ms[|ms| - 1]];
    }
  }

  /** The sum and the maximum over ms + [id] take in id last. */
  lemma SumsAppend(elems: seq<Element>, ms: seq<nat>, id: nat)
    requires IdsBelow(ms, |elems|) && id < |elems|
    ensures IdsBelow(ms + [id], |elems|)
    ensures SumWidth(elems, ms + [id]) == SumWidth(elems, ms) + elems[id].width
    ensures MaxHeight(elems, ms + [id]) == MaxReal(MaxHeight(elems, ms), PreferredHeight(elems[id].kind))
  {
    assert (ms + [id])[..|ms|] == ms;
  }

  lemma LevelOkGrow(elems: seq<Element>, elems': seq<Element>, l: int, L: Level)
    requires LevelOk(elems, l, L) && elems <= elems'
    ensures LevelOk(elems', l, L)
  {
    SumsAgree(elems, elems', L.members);
    forall i | 0 <= i < |L.members|
      ensures elems'[L.members[i]].level == l
    {
      assert elems'[L.members[i]] == elems[L.members[i]];
    }
  }

  /** Level.add. */
  function AddToLevel(L: Level, id: nat, e: Element): Level
  {
    Level(L.members + [id], L.width + e.width, MaxReal(L.height, PreferredHeight(e.kind)))
  }

  /** The level with index l, created empty (`new Level()`) if absent. */
  function LevelAt(levels: map<int, Level>, l: int): Level
  {
    if l in levels then levels[l] else Level([], 0.0, -LevelGap)
  }

  /** The levels after GraphElement.initLevel for the new element e, whose
      index is |elems|. */
  function Register(elems: seq<Element>, levels: map<int, Level>, e: Element): map<int, Level>
  {
    levels[e.level := AddToLevel(LevelAt(levels, e.level), |elems|, e)]
  }

  lemma FreshId(elems: seq<Element>, levels: map<int, Level>, l: int)
    requires LevelsOk(elems, levels)
    ensures |elems| !in LevelAt(levels, l).members
  {
    if l in levels {
      assert LevelOk(elems, l, levels[l]);
    }
  }

  lemma OldLevelsKept(elems: seq<Element>, levels: map<int, Level>, e: Element)
    requires LevelsOk(elems, levels)
    ensures forall l :: l in levels ==> LevelOk(elems + [e], l, levels[l])
  {
    forall l | l in levels
      ensures LevelOk(elems + [e], l, levels[l])
    {
      LevelOkGrow(elems, elems + [e], l, levels[l]);
    }
  }

  lemma NewLevelOk(elems: seq<Element>, levels: map<int, Level>, e: Element)
    requires LevelsOk(elems, levels)
    ensures LevelOk(elems + [e], e.level, AddToLevel(LevelAt(levels, e.level), |elems|, e))
  {
    var id := |elems|;
    var elems' := elems + [e];
    var L := LevelAt(levels, e.level);
    var M := AddToLevel(L, id, e);
    if e.level in levels {
      assert LevelOk(elems, e.level, L);
    }
    FreshId(elems, levels, e.level);
    SumsAdd(elems, L, e);
    MembersAdd(elems, L, e);
  }

  /** The width and height after Level.add. */
  lemma SumsAdd(elems: seq<Element>, L: Level, e: Element)
    requires IdsBelow(L.members, |elems|)
    requires L.width == SumWidth(elems, L.members) && L.height == MaxHeight(elems, L.members)
    ensures IdsBelow(AddToLevel(L, |elems|, e).members, |elems| + 1)
    ensures AddToLevel(L, |elems|, e).width == SumWidth(elems + [e], AddToLevel(L, |elems|, e).members)
    ensures AddToLevel(L, |elems|, e).height == MaxHeight(elems + [e], AddToLevel(L, |elems|, e).members)
  {
    var elems' := elems + [e];
    SumsAgree(elems, elems', L.members);
    SumsAppend(elems', L.members, |elems|);
  }

  /** The members after Level.add: fresh index last, all at e's level. */
  lemma MembersAdd(elems: seq<Element>, L: Level, e: Element)
    requires IdsBelow(L.members, |elems|) && Distinct(L.members)
    requires forall i :: 0 <= i < |L.members| ==> elems[L.members[i]].level == e.level
    ensures Distinct(AddToLevel(L, |elems|, e).members)
    ensures forall i :: 0 <= i < |L.members| + 1 ==> (elems + [e])[AddToLevel(L, |elems|, e).members[i]].level == e.level
  {
    var M := AddToLevel(L, |elems|, e);
    var elems' := elems + [e];
    forall i, j | 0 <= i < j < |M.members|
      ensures M.members[i] != M.members[j]
    {
      if j == |L.members| { assert M.members[i] == L.members[i]; }
    }
    forall i | 0 <= i < |M.members|
      ensures elems'[M.members[i]].level == e.level
    {
      if i < |L.members| {
        assert M.members[i] == L.members[i];
        assert elems'[L.members[i]] == elems[L.members[i]];
      }
    }
  }

  /** Registering a new element keeps every level consistent. The
      `assert !elements.contains` of Level.add holds: the index is fresh. */
  lemma RegisterOk(elems: seq<Element>, levels: map<int, Level>, e: Element)
    requires LevelsOk(elems, levels)
    ensures |elems| !in LevelAt(levels, e.level).members
    ensures LevelsOk(elems + [e], Register(elems, levels, e))
  {
    var elems' := elems + [e];
    var levels' := Register(elems, levels, e);
    var M := AddToLevel(LevelAt(levels, e.level), |elems|, e);
    OldLevelsKept(elems, levels, e);
    FreshId(elems, levels, e.level);
    NewLevelOk(elems, levels, e);
    forall l | l in levels'
      ensures LevelOk(elems', l, levels'[l])
    {
      if l != e.level { assert levels'[l] == levels[l]; }
    }
    forall x | 0 <= x < |elems'|
      ensures elems'[x].level in levels'
      ensures x in levels'[elems'[x].level].members
    {
      assert levels'[e.level] == M;
      if x == |elems| {
        assert M.members[|M.members| - 1] == x;
      } else {
        assert elems'[x] == elems[x];
        var l := elems[x].level;
        assert x in levels[l].members;
        if l == e.level {
          InConcat(levels[l].members, [|elems|], x);
        } else {
          assert levels'[l] == levels[l];
        }
      }
    }
  }

  // ---------------------------------------------------------------------
  // Scenes

  /** One `in`, `out` and `succ` entry per element. */
  ghost predicate Shape(sc: Scene)
  {
    && |sc.ins| == |sc.elems| && |sc.outs| == |sc.elems| && |sc.succ| == |sc.elems|
  }

  /** vertexOf is Node.vertex: a created vertex is a VertexOf its node, and
      every vertex in the arena is the one its node points to. */
  ghost predicate VertexMap(elems: seq<Element>, vertexOf: seq<Option<nat>>, n: nat)
  {
    && |vertexOf| == n
    && (forall x :: 0 <= x < n && vertexOf[x].Some? ==>
          vertexOf[x].value < |elems| && elems[vertexOf[x].value].kind == VertexOf(x))
    && (forall e :: 0 <= e < |elems| && elems[e].kind.VertexOf? ==>
          elems[e].kind.node < n && vertexOf[elems[e].kind.node] == Some(e))
  }

  ghost predicate Valid(sc: Scene, n: nat)
  {
    Shape(sc) && VertexMap(sc.elems, sc.vertexOf, n) && LevelsOk(sc.elems, sc.levels)
  }

  /** sc' extends sc: the arena only grows, a set succ link stays, `in`
      lists only grow at their end, and a node's vertex, once created,
      stays. */
  ghost predicate Extends(sc: Scene, sc': Scene)
  {
    && sc.elems <= sc'.elems
    && |sc'.vertexOf| == |sc.vertexOf|
    && (forall x :: 0 <= x < |sc.vertexOf| && sc.vertexOf[x].Some? ==> sc'.vertexOf[x] == sc.vertexOf[x])
    && (forall e :: 0 <= e < |sc.succ| && sc.succ[e].Some? ==> e < |sc'.succ| && sc'.succ[e] == sc.succ[e])
    && (forall e :: 0 <= e < |sc.ins| ==> InsGrowAt(sc, sc', e))
  }

  /** The `in` list of element e only got entries at its end. */
  ghost predicate InsGrowAt(sc: Scene, sc': Scene, e: nat)
  {
    e < |sc.ins| && e < |sc'.ins| && Grows(sc.ins[e], sc'.ins[e])
  }

  /** y is x, possibly with more entries at its end. */
  ghost predicate Grows(x: seq<nat>, y: seq<nat>)
  {
    |x| <= |y| && forall k :: 0 <= k < |x| ==> y[k] == x[k]
  }

  lemma ExtendsTrans(a: Scene, b: Scene, c: Scene)
    requires Extends(a, b) && Extends(b, c)
    ensures Extends(a, c)
  {
    PrefixTrans(a.elems, b.elems, c.elems);
    forall x | 0 <= x < |a.vertexOf| && a.vertexOf[x].Some?
      ensures c.vertexOf[x] == a.vertexOf[x]
    {
      assert b.vertexOf[x] == a.vertexOf[x];
    }
    forall e | 0 <= e < |a.succ| && a.succ[e].Some?
      ensures e < |c.succ| && c.succ[e] == a.succ[e]
    {
      assert b.succ[e] == a.succ[e];
    }
    InsGrowsTrans(a, b, c);
  }

  lemma InsGrowsTrans(a: Scene, b: Scene, c: Scene)
    requires Extends(a, b) && Extends(b, c)
    ensures forall e :: 0 <= e < |a.ins| ==> InsGrowAt(a, c, e)
  {
    forall e | 0 <= e < |a.ins| {
      InsGrowsAt(a, b, c, e);
    }
  }

  lemma InsGrowsAt(a: Scene, b: Scene, c: Scene, e: nat)
    requires Extends(a, b) && Extends(b, c) && e < |a.ins|
    ensures InsGrowAt(a, c, e)
  {
    ExtendsIns(a, b, e);
    ExtendsIns(b, c, e);
    ListGrowsTrans(a.ins[e], b.ins[e], c.ins[e]);
  }

  lemma ExtendsIns(a: Scene, b: Scene, e: nat)
    requires Extends(a, b) && e < |a.ins|
    ensures e < |b.ins| && Grows(a.ins[e], b.ins[e])
  {
    assert InsGrowAt(a, b, e);
  }

  lemma ListGrowsTrans(x: seq<nat>, y: seq<nat>, z: seq<nat>)
    requires Grows(x, y) && Grows(y, z)
    ensures Grows(x, z)
  {
    forall k | 0 <= k < |x|
      ensures z[k] == x[k]
    {
      assert y[k] == x[k];
    }
  }

  lemma PrefixTrans<T>(x: seq<T>, y: seq<T>, z: seq<T>)
    requires x <= y && y <= z
    ensures x <= z
  {
    assert forall i :: 0 <= i < |x| ==> x[i] == y[i] == z[i];
  }

  /** The `out` lists of the elements below `bound` other than `except` are
      unchanged. */
  ghost predicate OutsKept(sc: Scene, sc': Scene, bound: nat, except: int)
  {
    && bound <= |sc.outs| <= |sc'.outs|
    && forall e :: 0 <= e < bound && e != except ==> sc'.outs[e] == sc.outs[e]
  }

  lemma OutsKeptTrans(a: Scene, b: Scene, c: Scene, bound: nat, except: int)
    requires OutsKept(a, b, bound, except) && OutsKept(b, c, bound, except)
    ensures OutsKept(a, c, bound, except)
  {
  }

  /** Among the elements below `bound`, the `in` list of d got k more
      entries and every other `in` list kept its length. */
  ghost predicate InsGrown(sc: Scene, sc': Scene, bound: nat, d: int, k: nat)
  {
    && bound <= |sc.ins| <= |sc'.ins|
    && forall e :: 0 <= e < bound ==> |sc'.ins[e]| == |sc.ins[e]| + (if e == d then k else 0)
  }

  /** Growth below the old bound, from a scene whose `in` lists were
      only extended by empty ones. */
  lemma InsGrownBelow(a: Scene, b: Scene, c: Scene, d: int, k: nat)
    requires |a.ins| <= |b.ins| && b.ins[..|a.ins|] == a.ins
    requires InsGrown(b, c, |b.ins|, d, k)
    ensures InsGrown(a, c, |a.ins|, d, k)
  {
    forall e | 0 <= e < |a.ins|
      ensures |c.ins[e]| == |a.ins[e]| + (if e == d then k else 0)
    {
      assert b.ins[..|a.ins|][e] == b.ins[e];
    }
  }

  lemma InsGrownThen(a: Scene, b: Scene, c: Scene, bound: nat, d: int, k: nat)
    requires InsGrown(a, b, bound, d, k) && InsGrown(b, c, bound, -1, 0)
    ensures InsGrown(a, c, bound, d, k)
  {
  }

  lemma InsGrownTrans(a: Scene, b: Scene, c: Scene, bound: nat, d: int, k: nat)
    requires InsGrown(a, b, bound, -1, 0) && InsGrown(b, c, bound, d, k)
    ensures InsGrown(a, c, bound, d, k)
  {
  }

  /** Creates an element and registers it with its level: the constructor
      followed by GraphElement.initLevel. The new element gets the next free
      index and empty links, and is appended to the level of its levelIndex,
      which is created if missing; no other level changes. */
  function NewElement(sc: Scene, kind: Kind, level: int, width: real): (r: (nat, Scene))
    requires Shape(sc) && LevelsOk(sc.elems, sc.levels)
    ensures r.0 == |sc.elems| && Shape(r.1)
    ensures r.1.elems == sc.elems + [Element(kind, level, width)]
    ensures r.1.ins == sc.ins + [[]] && r.1.outs == sc.outs + [[]] && r.1.succ == sc.succ + [None]
    ensures r.1.vertexOf == sc.vertexOf
    ensures r.0 !in LevelAt(sc.levels, level).members
    ensures level in r.1.levels && r.1.levels[level].members == LevelAt(sc.levels, level).members + [r.0]
    ensures forall l :: l in sc.levels && l != level ==> l in r.1.levels && r.1.levels[l] == sc.levels[l]
    ensures LevelsOk(r.1.elems, r.1.levels)
  {
    var e := Element(kind, level, width);
    RegisterOk(sc.elems, sc.levels, e);
    (|sc.elems|, Scene(sc.elems + [e], sc.ins + [[]], sc.outs + [[]], sc.succ + [None],
                       sc.vertexOf, Register(sc.elems, sc.levels, e)))
  }

  /** A new element extends the scene. */
  lemma AppendExtends(sc: Scene, sc': Scene)
    requires Shape(sc) && Shape(sc') && |sc'.elems| == |sc.elems| + 1
    requires sc'.elems[..|sc.elems|] == sc.elems && sc'.vertexOf == sc.vertexOf
    requires sc'.ins[..|sc.elems|] == sc.ins && sc'.succ[..|sc.elems|] == sc.succ
    requires sc'.outs[..|sc.elems|] == sc.outs
    ensures Extends(sc, sc') && OutsKept(sc, sc', |sc.elems|, -1)
  {
    forall e | 0 <= e < |sc.elems|
      ensures sc'.ins[e] == sc.ins[e] && sc'.succ[e] == sc.succ[e] && sc'.outs[e] == sc.outs[e]
    {
      assert sc'.ins[..|sc.elems|][e] == sc'.ins[e];
      assert sc'.succ[..|sc.elems|][e] == sc'.succ[e];
      assert sc'.outs[..|sc.elems|][e] == sc'.outs[e];
    }
  }

  /** A new dummy (Dummy constructor and initLevel); it is no vertex, so
      the vertex map is unaffected. */
  function NewDummy(sc: Scene, n: nat, reversed: bool, level: int): (r: (nat, Scene))
    requires Valid(sc, n)
    ensures r.0 == |sc.elems| && |r.1.elems| == |sc.elems| + 1
    ensures r.1.elems[r.0] == Element(DummyOf(reversed), level, 0.0)
    ensures Valid(r.1, n) && Extends(sc, r.1) && r.1.vertexOf == sc.vertexOf
    ensures r.1.succ[r.0] == None && r.1.ins[r.0] == [] && r.1.outs[r.0] == []
    ensures OutsKept(sc, r.1, |sc.elems|, -1) && r.1.ins == sc.ins + [[]]
  {
    var (d, sc1) := NewElement(sc, DummyOf(reversed), level, 0.0);
    AppendKeepsMap(sc.elems, sc1.elems, sc.vertexOf, n);
    AppendExtends(sc, sc1);
    (d, sc1)
  }

  lemma AppendKeepsMap(elems: seq<Element>, elems': seq<Element>, vertexOf: seq<Option<nat>>, n: nat)
    requires VertexMap(elems, vertexOf, n)
    requires |elems'| == |elems| + 1 && elems'[..|elems|] == elems && elems'[|elems|].kind.DummyOf?
    ensures VertexMap(elems', vertexOf, n)
  {
    forall e | 0 <= e < |elems|
      ensures elems'[e] == elems[e]
    {
      assert elems'[..|elems|][e] == elems'[e];
    }
  }

  /** `dummy.succ = t` on an element whose succ is not yet set. */
  function SetSucc(sc: Scene, n: nat, e: nat, t: nat): (r: Scene)
    requires Valid(sc, n) && e < |sc.elems| && sc.succ[e].None?
    ensures Valid(r, n) && Extends(sc, r) && OutsKept(sc, r, |sc.elems|, -1)
    ensures r.elems == sc.elems && r.vertexOf == sc.vertexOf && r.ins == sc.ins && r.outs == sc.outs
    ensures r.succ == sc.succ[e := Some(t)]
  {
    sc.(succ := sc.succ[e := Some(t)])
  }

  /** `v.out.add(t)`. */
  function AddOut(sc: Scene, n: nat, v: nat, t: nat): (r: Scene)
    requires Valid(sc, n) && v < |sc.elems|
    ensures Valid(r, n) && Extends(sc, r) && OutsKept(sc, r, |sc.elems|, v)
    ensures r.elems == sc.elems && r.vertexOf == sc.vertexOf && r.ins == sc.ins && r.succ == sc.succ
    ensures r.outs == sc.outs[v := sc.outs[v] + [t]]
  {
    sc.(outs := sc.outs[v := sc.outs[v] + [t]])
  }

  /** `v.in.add(t)`. */
  function AddIn(sc: Scene, n: nat, v: nat, t: nat): (r: Scene)
    requires Valid(sc, n) && v < |sc.elems|
    ensures Valid(r, n) && Extends(sc, r) && OutsKept(sc, r, |sc.elems|, -1)
    ensures r.elems == sc.elems && r.vertexOf == sc.vertexOf && r.outs == sc.outs && r.succ == sc.succ
    ensures r.ins == sc.ins[v := sc.ins[v] + [t]]
  {
    sc.(ins := sc.ins[v := sc.ins[v] + [t]])
  }

  // ---------------------------------------------------------------------
  // Edge chains

  /** ids is a chain of dummies, all reversed or all not, numbered lo or
      more, whose levels step by one from `start` (upwards, or downwards when
      reversed); each links by succ to the next and the last links to
      target. */
  ghost predicate Chain(sc: Scene, ids: seq<nat>, reversed: bool, start: int, target: nat, lo: nat)
  {
    forall i :: 0 <= i < |ids| ==>
      && lo <= ids[i] < |sc.elems| && ids[i] < |sc.succ|
      && sc.elems[ids[i]].kind == DummyOf(reversed)
      && sc.elems[ids[i]].level == (if reversed then start - i else start + i)
      && sc.succ[ids[i]] == Some(if i + 1 < |ids| then ids[i + 1] else target)
  }

  /** A chain of len dummies, numbered lo or more, from h to last. */
  ghost predicate ChainFromTo(sc: Scene, h: nat, last: nat, len: nat, reversed: bool, start: int, target: nat, lo: nat)
  {
    exists ids :: |ids| == len && len > 0 && ids[0] == h && ids[len - 1] == last && Chain(sc, ids, reversed, start, target, lo)
  }

  /** A chain of len dummies, numbered lo or more, from h whose last dummy
      is in target's `in` list. */
  ghost predicate ChainInto(sc: Scene, h: nat, len: nat, reversed: bool, start: int, target: nat, lo: nat)
  {
    target < |sc.ins| && exists last :: last in sc.ins[target] && ChainFromTo(sc, h, last, len, reversed, start, target, lo)
  }

  /** How the edge from the vertex va (level la) to the vertex vb (level lb)
      is drawn, starting at h, the entry in va's `out` list: directly when
      lb is the next level; else by a forward chain over the levels strictly
      between, or, when lb is not above la, by a reversed chain from la down
      to lb. Either way the element right before vb is in vb's `in` list.
      Every dummy of the chain is numbered lo or more. */
  ghost predicate Realized(sc: Scene, la: int, lb: int, va: nat, vb: nat, h: nat, lo: nat)
  {
    && vb < |sc.ins|
    && if lb == la + 1 then h == vb && va in sc.ins[vb]
       else if lb > la then ChainInto(sc, h, lb - la - 1, false, la + 1, vb, lo)
       else ChainInto(sc, h, la - lb + 1, true, la, vb, lo)
  }

  /** A bound on the chain's numbers may be lowered. */
  lemma RealizedLower(sc: Scene, la: int, lb: int, va: nat, vb: nat, h: nat, lo: nat, lo': nat)
    requires Realized(sc, la, lb, va, vb, h, lo) && lo' <= lo
    ensures Realized(sc, la, lb, va, vb, h, lo')
  {
    if lb != la + 1 {
      var len, rev, start := if lb > la then lb - la - 1 else la - lb + 1, lb <= la, if lb > la then la + 1 else la;
      var last :| last in sc.ins[vb] && ChainFromTo(sc, h, last, len, rev, start, vb, lo);
      var ids :| |ids| == len && len > 0 && ids[0] == h && ids[len - 1] == last && Chain(sc, ids, rev, start, vb, lo);
      assert Chain(sc, ids, rev, start, vb, lo');
      assert ChainFromTo(sc, h, last, len, rev, start, vb, lo');
    }
  }

  lemma ChainExtends(sc: Scene, sc': Scene, h: nat, last: nat, len: nat, reversed: bool, start: int, target: nat, lo: nat)
    requires ChainFromTo(sc, h, last, len, reversed, start, target, lo) && Extends(sc, sc')
    ensures ChainFromTo(sc', h, last, len, reversed, start, target, lo)
  {
    var ids :| |ids| == len && len > 0 && ids[0] == h && ids[len - 1] == last && Chain(sc, ids, reversed, start, target, lo);
    forall i | 0 <= i < |ids|
      ensures lo <= ids[i] < |sc'.elems| && ids[i] < |sc'.succ| && sc'.elems[ids[i]] == sc.elems[ids[i]]
      ensures sc'.succ[ids[i]] == sc.succ[ids[i]]
    {
      ChainLink(sc, ids, reversed, start, target, lo, i);
    }
    assert Chain(sc', ids, reversed, start, target, lo);
  }

  /** The i-th link of a chain. */
  lemma ChainLink(sc: Scene, ids: seq<nat>, reversed: bool, start: int, target: nat, lo: nat, i: nat)
    requires Chain(sc, ids, reversed, start, target, lo) && i < |ids|
    ensures lo <= ids[i] < |sc.elems| && ids[i] < |sc.succ| && sc.elems[ids[i]].kind == DummyOf(reversed)
    ensures sc.elems[ids[i]].level == (if reversed then start - i else start + i)
    ensures sc.succ[ids[i]] == Some(if i + 1 < |ids| then ids[i + 1] else target)
  {
  }

  lemma InsExtends(sc: Scene, sc': Scene, v: nat, x: nat)
    requires Extends(sc, sc') && v < |sc.ins| && x in sc.ins[v]
    ensures v < |sc'.ins| && x in sc'.ins[v]
  {
    var k :| 0 <= k < |sc.ins[v]| && sc.ins[v][k] == x;
    ExtendsIns(sc, sc', v);
    assert sc'.ins[v][k] == x;
  }

  lemma ChainIntoExtends(sc: Scene, sc': Scene, h: nat, len: nat, reversed: bool, start: int, target: nat, lo: nat)
    requires ChainInto(sc, h, len, reversed, start, target, lo) && Extends(sc, sc')
    ensures ChainInto(sc', h, len, reversed, start, target, lo)
  {
    var last :| last in sc.ins[target] && ChainFromTo(sc, h, last, len, reversed, start, target, lo);
    ChainExtends(sc, sc', h, last, len, reversed, start, target, lo);
    InsExtends(sc, sc', target, last);
  }

  /** A realised edge stays realised as the scene grows. */
  lemma RealizedExtends(sc: Scene, sc': Scene, la: int, lb: int, va: nat, vb: nat, h: nat, lo: nat)
    requires Realized(sc, la, lb, va, vb, h, lo) && Extends(sc, sc')
    ensures Realized(sc', la, lb, va, vb, h, lo)
  {
    if lb == la + 1 {
      InsExtends(sc, sc', vb, va);
    } else if lb > la {
      ChainIntoExtends(sc, sc', h, lb - la - 1, false, la + 1, vb, lo);
    } else {
      ChainIntoExtends(sc, sc', h, la - lb + 1, true, la, vb, lo);
    }
  }

  /** The loop of the long-edge case: `dummy` (at level l - 1) is the last
      dummy so far; each round creates the next one at level l and links
      the previous one to it; after the loop the last dummy links to dst and
      joins dst's `in` list, which gains that one entry. The result holds a
      chain from `dummy` up to level lb - 1 made of `dummy` and the elements
      the loop creates. */
  function ForwardLoop(sc: Scene, n: nat, dummy: nat, l: int, lb: int, dst: nat): (r: Scene)
    requires Valid(sc, n) && l <= lb
    requires dummy < |sc.elems| && sc.elems[dummy] == Element(DummyOf(false), l - 1, 0.0)
    requires sc.succ[dummy].None?
    requires dst < |sc.elems| && sc.elems[dst].kind.VertexOf?
    ensures Valid(r, n) && Extends(sc, r) && r.vertexOf == sc.vertexOf
    ensures OutsKept(sc, r, |sc.elems|, -1) && InsGrown(sc, r, |sc.elems|, dst, 1)
    ensures ChainInto(r, dummy, lb - l + 1, false, l - 1, dst, dummy)
    ensures |r.elems| == |sc.elems| + (lb - l)
    decreases lb - l
  {
    if l < lb then
      var (next, sc2) := DummyAfter(sc, n, dummy, l);
      var r := ForwardLoop(sc2, n, next, l + 1, lb, dst);
      ExtendsTrans(sc, sc2, r);
      OutsKeptTrans(sc, sc2, r, |sc.elems|, -1);
      InsGrownTrans(sc, sc2, r, |sc.elems|, dst, 1);
      ForwardStep(sc2, r, dummy, next, l, lb, dst);
      r
    else
      var sc1 := SetSucc(sc, n, dummy, dst);
      var r := AddIn(sc1, n, dst, dummy);
      ForwardLast(r, dummy, l, dst);
      r
  }

  /** One round of the forward loop: `next = new Dummy(l)` and
      `dummy.succ = next`. */
  function DummyAfter(sc: Scene, n: nat, dummy: nat, l: int): (r: (nat, Scene))
    requires Valid(sc, n) && dummy < |sc.elems| && sc.succ[dummy].None?
    ensures r.0 == |sc.elems| && |r.1.elems| == |sc.elems| + 1
    ensures Valid(r.1, n) && Extends(sc, r.1) && r.1.vertexOf == sc.vertexOf
    ensures r.1.elems[r.0] == Element(DummyOf(false), l, 0.0) && r.1.succ[r.0] == None
    ensures r.1.succ[dummy] == Some(r.0)
    ensures OutsKept(sc, r.1, |sc.elems|, -1) && InsGrown(sc, r.1, |sc.elems|, -1, 0)
  {
    var (next, sc1) := NewDummy(sc, n, false, l);
    var sc2 := SetSucc(sc1, n, dummy, next);
    ExtendsTrans(sc, sc1, sc2);
    OutsKeptTrans(sc, sc1, sc2, |sc.elems|, -1);
    (next, sc2)
  }

  lemma ForwardLast(sc: Scene, dummy: nat, l: int, dst: nat)
    requires Shape(sc) && dummy < |sc.elems| && dst < |sc.elems| && dummy in sc.ins[dst]
    requires sc.elems[dummy].kind == DummyOf(false) && sc.elems[dummy].level == l - 1
    requires sc.succ[dummy] == Some(dst)
    ensures ChainInto(sc, dummy, 1, false, l - 1, dst, dummy)
  {
    assert Chain(sc, [dummy], false, l - 1, dst, dummy);
    assert ChainFromTo(sc, dummy, dummy, 1, false, l - 1, dst, dummy);
  }

  lemma ForwardStep(sc2: Scene, sc: Scene, dummy: nat, next: nat, l: int, lb: int, dst: nat)
    requires Shape(sc2) && Shape(sc) && Extends(sc2, sc) && dummy < |sc2.elems| && l < lb
    requires sc2.elems[dummy] == Element(DummyOf(false), l - 1, 0.0)
    requires sc2.succ[dummy] == Some(next) && dummy <= next
    requires ChainInto(sc, next, lb - l, false, l, dst, next)
    ensures ChainInto(sc, dummy, lb - l + 1, false, l - 1, dst, dummy)
  {
    assert sc.elems[dummy] == sc2.elems[dummy];
    var last :| last in sc.ins[dst] && ChainFromTo(sc, next, last, lb - l, false, l, dst, next);
    var ids' :| |ids'| == lb - l && ids'[0] == next && ids'[|ids'| - 1] == last && Chain(sc, ids', false, l, dst, next);
    var ids := [dummy] + ids';
    assert ids[|ids| - 1] == last;
    ChainCons(sc, dummy, ids', l - 1, dst, next);
    assert ChainFromTo(sc, dummy, last, lb - l + 1, false, l - 1, dst, dummy);
  }

  /** A forward dummy one level below a chain's head, linked to it, heads
      a longer chain. */
  lemma ChainCons(sc: Scene, h: nat, ids: seq<nat>, start: int, target: nat, lo: nat)
    requires |ids| > 0 && Chain(sc, ids, false, start + 1, target, lo) && h <= lo
    requires h < |sc.elems| && h < |sc.succ| && sc.elems[h] == Element(DummyOf(false), start, 0.0)
    requires sc.succ[h] == Some(ids[0])
    ensures Chain(sc, [h] + ids, false, start, target, h)
  {
    var ids' := [h] + ids;
    forall i | 0 <= i < |ids'|
      ensures h <= ids'[i] < |sc.elems| && ids'[i] < |sc.succ| && sc.elems[ids'[i]].kind == DummyOf(false)
      ensures sc.elems[ids'[i]].level == start + i
      ensures sc.succ[ids'[i]] == Some(if i + 1 < |ids'| then ids'[i + 1] else target)
    {
      if i > 0 {
        assert ids'[i] == ids[i - 1];
        ChainLink(sc, ids, false, start + 1, target, lo, i - 1);
        if i + 1 < |ids'| { assert ids'[i + 1] == ids[i]; }
      }
    }
  }

  function LastOut(sc: Scene, v: nat): nat
    requires v < |sc.outs| && sc.outs[v] != []
  {
    sc.outs[v][|sc.outs[v]| - 1]
  }

  /** The loop of the reversed case: `dummy` (at level l - 1) is the
      highest dummy so far; each round creates a reversed dummy one level up
      linked back to the previous one; after the loop the highest dummy
      joins src's `out` list. The result holds a chain from that entry down
      to `dummy`, made of the elements the loop creates and `dummy`; no `in`
      list changes. */
  function ReversedLoop(sc: Scene, n: nat, dummy: nat, l: int, la: int, src: nat): (r: Scene)
    requires Valid(sc, n) && l <= la + 1
    requires dummy < |sc.elems| && sc.elems[dummy] == Element(DummyOf(true), l - 1, 0.0)
    requires sc.succ[dummy].Some?
    requires src < |sc.elems| && sc.elems[src].kind.VertexOf?
    ensures Valid(r, n) && Extends(sc, r) && r.vertexOf == sc.vertexOf
    ensures OutsKept(sc, r, |sc.elems|, src) && InsGrown(sc, r, |sc.elems|, -1, 0)
    ensures r.outs[src] != [] && r.outs[src] == sc.outs[src] + [LastOut(r, src)]
    ensures ChainFromTo(r, LastOut(r, src), dummy, la - l + 2, true, la, sc.succ[dummy].value, dummy)
    ensures |r.elems| == |sc.elems| + (la - l + 1)
    decreases la - l + 1
  {
    if l <= la then
      var (next, sc2) := DummyBefore(sc, n, dummy, l);
      var r := ReversedLoop(sc2, n, next, l + 1, la, src);
      ReversedRound(sc, sc2, r, dummy, next, l, la, src);
      r
    else
      var r := AddOut(sc, n, src, dummy);
      ReversedLast(sc, r, dummy, la, src);
      r
  }

  /** The frame and the chain after one round and the rest of the loop. */
  lemma ReversedRound(sc: Scene, sc2: Scene, r: Scene, dummy: nat, next: nat, l: int, la: int, src: nat)
    requires Shape(sc) && Shape(sc2) && Shape(r) && l <= la
    requires dummy < |sc.elems| && sc.elems[dummy] == Element(DummyOf(true), l - 1, 0.0) && sc.succ[dummy].Some?
    requires src < |sc.elems|
    requires next == |sc.elems| && |sc2.elems| == |sc.elems| + 1 && sc2.succ[next] == Some(dummy)
    requires Extends(sc, sc2) && OutsKept(sc, sc2, |sc.elems|, -1) && InsGrown(sc, sc2, |sc.elems|, -1, 0)
    requires Extends(sc2, r) && OutsKept(sc2, r, |sc2.elems|, src) && InsGrown(sc2, r, |sc2.elems|, -1, 0)
    requires r.outs[src] != [] && r.outs[src] == sc2.outs[src] + [LastOut(r, src)]
    requires ChainFromTo(r, LastOut(r, src), next, la - l + 1, true, la, sc2.succ[next].value, next)
    ensures Extends(sc, r) && OutsKept(sc, r, |sc.elems|, src) && InsGrown(sc, r, |sc.elems|, -1, 0)
    ensures r.outs[src] == sc.outs[src] + [LastOut(r, src)]
    ensures ChainFromTo(r, LastOut(r, src), dummy, la - l + 2, true, la, sc.succ[dummy].value, dummy)
  {
    ExtendsTrans(sc, sc2, r);
    OutsKeptTrans(sc, sc2, r, |sc.elems|, src);
    InsGrownTrans(sc, sc2, r, |sc.elems|, -1, 0);
    ExtendsSucc(sc2, r, next);
    ReversedStep(sc, r, dummy, next, l, la, src);
  }

  lemma ExtendsSucc(sc: Scene, sc': Scene, e: nat)
    requires Extends(sc, sc') && e < |sc.succ| && sc.succ[e].Some?
    ensures e < |sc'.succ| && sc'.succ[e] == sc.succ[e]
  {
  }

  /** After the loop: the highest dummy joins src's `out` list. */
  lemma ReversedLast(sc: Scene, r: Scene, dummy: nat, la: int, src: nat)
    requires Shape(sc) && dummy < |sc.elems| && sc.elems[dummy] == Element(DummyOf(true), la, 0.0)
    requires sc.succ[dummy].Some? && src < |sc.elems|
    requires r.elems == sc.elems && r.ins == sc.ins && r.succ == sc.succ
    requires r.outs == sc.outs[src := sc.outs[src] + [dummy]]
    ensures InsGrown(sc, r, |sc.elems|, -1, 0)
    ensures r.outs[src] != [] && r.outs[src] == sc.outs[src] + [LastOut(r, src)]
    ensures ChainFromTo(r, LastOut(r, src), dummy, 1, true, la, sc.succ[dummy].value, dummy)
  {
    assert Chain(r, [dummy], true, la, sc.succ[dummy].value, dummy);
  }

  /** One round of the reversed loop: `next = new Dummy(l, true)` and
      `next.succ = dummy`. */
  function DummyBefore(sc: Scene, n: nat, dummy: nat, l: int): (r: (nat, Scene))
    requires Valid(sc, n)
    ensures r.0 == |sc.elems| && |r.1.elems| == |sc.elems| + 1
    ensures Valid(r.1, n) && Extends(sc, r.1) && r.1.vertexOf == sc.vertexOf
    ensures r.1.elems[r.0] == Element(DummyOf(true), l, 0.0) && r.1.succ[r.0] == Some(dummy)
    ensures OutsKept(sc, r.1, |sc.elems|, -1) && InsGrown(sc, r.1, |sc.elems|, -1, 0)
  {
    var (next, sc1) := NewDummy(sc, n, true, l);
    var sc2 := SetSucc(sc1, n, next, dummy);
    ExtendsTrans(sc, sc1, sc2);
    OutsKeptTrans(sc, sc1, sc2, |sc.elems|, -1);
    (next, sc2)
  }

  lemma ReversedStep(sc: Scene, r: Scene, dummy: nat, next: nat, l: int, la: int, src: nat)
    requires Shape(sc) && Shape(r) && Extends(sc, r) && dummy < |sc.elems| && src < |sc.elems| && l <= la
    requires sc.elems[dummy].kind == DummyOf(true) && sc.elems[dummy].level == l - 1
    requires sc.succ[dummy].Some?
    requires next < |r.elems| && r.succ[next] == Some(dummy) && dummy <= next
    requires r.outs[src] != []
    requires ChainFromTo(r, LastOut(r, src), next, la - l + 1, true, la, dummy, next)
    ensures ChainFromTo(r, LastOut(r, src), dummy, la - l + 2, true, la, sc.succ[dummy].value, dummy)
  {
    var ids' :| |ids'| == la - l + 1 && ids'[0] == LastOut(r, src) && ids'[|ids'| - 1] == next
                && Chain(r, ids', true, la, dummy, next);
    var ids := ids' + [dummy];
    forall i | 0 <= i < |ids|
      ensures dummy <= ids[i] < |r.elems| && ids[i] < |r.succ| && r.elems[ids[i]].kind == DummyOf(true)
      ensures r.elems[ids[i]].level == la - i
      ensures r.succ[ids[i]] == Some(if i + 1 < |ids| then ids[i + 1] else sc.succ[dummy].value)
    {
      if i < |ids'| {
        assert ids[i] == ids'[i];
        ChainLink(r, ids', true, la, dummy, next, i);
        if i + 1 < |ids'| { assert ids[i + 1] == ids'[i + 1]; }
      } else {
        assert r.elems[dummy] == sc.elems[dummy];
      }
    }
    assert Chain(r, ids, true, la, sc.succ[dummy].value, dummy);
  }

  // ---------------------------------------------------------------------
  // Positions

  /** GraphElement.pos(): the index of element e in its level's list. */
  function Pos(elems: seq<Element>, levels: map<int, Level>, e: nat): (p: int)
    requires LevelsOk(elems, levels) && e < |elems|
    ensures 0 <= p < |levels[elems[e].level].members|
    ensures levels[elems[e].level].members[p] == e
  {
    IndexOf(levels[elems[e].level].members, e)
  }

  /** Within a level, pos() tells elements apart and the element at
      position i has position i. */
  lemma PosInjective(elems: seq<Element>, levels: map<int, Level>, l: int, i: int)
    requires LevelsOk(elems, levels) && l in levels && 0 <= i < |levels[l].members|
    ensures levels[l].members[i] < |elems| && elems[levels[l].members[i]].level == l
    ensures Pos(elems, levels, levels[l].members[i]) == i
  {
    assert LevelOk(elems, l, levels[l]);
    IndexOfDistinct(levels[l].members, i);
  }
}
