/** The placement at the end of `setGraph`: the common width is the widest
    level, the levels are visited in increasing index order (TreeMap
    iteration) and stacked top to bottom, and `Level.layout` puts each
    level's elements left to right at the level's y. The Java keeps the
    coordinates in the elements (`setPos`); here they are a map from
    element index to point. */
module Placement {
  import opened Base
  import opened Elements

  /** CONTROL_POINT_DISTANCE and SPACING. */
  const ControlPointDistance: real := 24.0
  const Spacing: real := 14.0

  datatype Point = Point(x: real, y: real)

  /** The element coordinates, the common width and the final value of the
      running `height` (a local of setGraph that is not kept). */
  datatype Placement = Placement(pos: map<nat, Point>, width: real, height: real)

  // ---------------------------------------------------------------------
  // TreeMap iteration order

  /** A non-empty set has a member. */
  lemma Member(ks: set<int>) returns (x: int)
    requires ks != {}
    ensures x in ks
  {
    if forall y :: y !in ks { assert false; }
    x :| x in ks;
  }

  lemma MinExists(ks: set<int>)
    requires ks != {}
    ensures exists k :: k in ks && forall j :: j in ks ==> k <= j
    decreases |ks|
  {
    var x := Member(ks);
    if ks != {x} {
      MinExists(ks - {x});
      var m :| m in ks - {x} && forall j :: j in ks - {x} ==> m <= j;
      var k := if x < m then x else m;
      forall j | j in ks
        ensures k <= j
      {
        if j != x { assert j in ks - {x}; }
      }
    } else {
      assert forall j :: j in ks ==> x <= j;
    }
  }

  /** The first key of a TreeMap. */
  function MinKey(ks: set<int>): (k: int)
    requires ks != {}
    ensures k in ks && forall j :: j in ks ==> k <= j
  {
    MinExists(ks);
    var k :| k in ks && forall j :: j in ks ==> k <= j;
    k
  }

  /** The keys of a TreeMap in iteration order: all of them, ascending. */
  function SortedKeys(ks: set<int>): (r: seq<int>)
    ensures forall k :: k in r <==> k in ks
    ensures forall i, j :: 0 <= i < j < |r| ==> r[i] < r[j]
    ensures |r| == |ks|
    decreases |ks|
  {
    if ks == {} then []
    else
      var k := MinKey(ks);
      var rest := SortedKeys(ks - {k});
      ConsSorted(k, rest, ks);
      [k] + rest
  }

  lemma ConsSorted(k: int, rest: seq<int>, ks: set<int>)
    requires k in ks && forall j :: j in ks ==> k <= j
    requires forall x :: x in rest <==> x in ks - {k}
    requires forall i, j :: 0 <= i < j < |rest| ==> rest[i] < rest[j]
    ensures forall x :: x in [k] + rest <==> x in ks
    ensures forall i, j :: 0 <= i < j < |[k] + rest| ==> ([k] + rest)[i] < ([k] + rest)[j]
  {
    var r := [k] + rest;
    forall i, j | 0 <= i < j < |r|
      ensures r[i] < r[j]
    {
      assert r[j] == rest[j - 1] && r[j] in rest;
      if i > 0 { assert r[i] == rest[i - 1]; }
    }
  }

  lemma SortedDistinct(r: seq<int>)
    requires forall i, j :: 0 <= i < j < |r| ==> r[i] < r[j]
    ensures Distinct(r)
  {
  }

  // ---------------------------------------------------------------------
  // Width and heights

  /** The loop `width = Math.max(width, l.width)` over the levels ks,
      starting from 0. */
  function MaxWidth(levels: map<int, Level>, ks: seq<int>): real
    requires forall i :: 0 <= i < |ks| ==> ks[i] in levels
  {
    if ks == [] then 0.0
    else MaxReal(MaxWidth(levels, ks[..|ks| - 1]), levels[ks[|ks| - 1]].width)
  }

  /** The common width is at least 0 and every level's width, and it is 0
      or one of them. */
  lemma {:induction false} MaxWidthSpec(levels: map<int, Level>, ks: seq<int>)
    requires forall i :: 0 <= i < |ks| ==> ks[i] in levels
    ensures MaxWidth(levels, ks) >= 0.0
    ensures forall i :: 0 <= i < |ks| ==> levels[ks[i]].width <= MaxWidth(levels, ks)
    ensures MaxWidth(levels, ks) == 0.0 ||
            exists i :: 0 <= i < |ks| && MaxWidth(levels, ks) == levels[ks[i]].width
    decreases |ks|
  {
    if ks != [] {
      var ks0 := ks[..|ks| - 1];
      assert forall i :: 0 <= i < |ks0| ==> ks0[i] == ks[i];
      MaxWidthSpec(levels, ks0);
    }
  }

  /** The vertical room the levels ks take with the gaps after them: the
      sum of their heights, plus LEVEL_GAP for each. */
  function SumSteps(levels: map<int, Level>, ks: seq<int>): real
    requires forall i :: 0 <= i < |ks| ==> ks[i] in levels
  {
    if ks == [] then 0.0
    else SumSteps(levels, ks[..|ks| - 1]) + levels[ks[|ks| - 1]].height + LevelGap
  }

  // ---------------------------------------------------------------------
  // hasInEdges and hasOutEdges

  /** The loop of hasInEdges / hasOutEdges over the elements ms, given
      the `in` (or `out`) lists: is some member a vertex with a non-empty
      list? */
  function AnyVertexWith(elems: seq<Element>, lists: seq<seq<nat>>, ms: seq<nat>): (b: bool)
    requires |lists| == |elems| && IdsBelow(ms, |elems|)
    ensures b <==> exists i :: 0 <= i < |ms| && elems[ms[i]].kind.VertexOf? && lists[ms[i]] != []
  {
    if ms == [] then false
    else if elems[ms[0]].kind.VertexOf? && lists[ms[0]] != [] then true
    else
      var b := AnyVertexWith(elems, lists, ms[1..]);
      assert b ==> exists i :: 0 <= i < |ms| && elems[ms[i]].kind.VertexOf? && lists[ms[i]] != [] by {
        if b {
          var i :| 0 <= i < |ms[1..]| && elems[ms[1..][i]].kind.VertexOf? && lists[ms[1..][i]] != [];
          assert ms[1..][i] == ms[i + 1];
        }
      }
      assert (exists i :: 0 <= i < |ms| && elems[ms[i]].kind.VertexOf? && lists[ms[i]] != []) ==> b by {
        if exists i :: 0 <= i < |ms| && elems[ms[i]].kind.VertexOf? && lists[ms[i]] != [] {
          var i :| 0 <= i < |ms| && elems[ms[i]].kind.VertexOf? && lists[ms[i]] != [];
          assert i > 0 && ms[1..][i - 1] == ms[i];
        }
      }
      b
  }

  function HasInEdges(sc: Scene, L: Level): bool
    requires Shape(sc) && IdsBelow(L.members, |sc.elems|)
  {
    AnyVertexWith(sc.elems, sc.ins, L.members)
  }

  function HasOutEdges(sc: Scene, L: Level): bool
    requires Shape(sc) && IdsBelow(L.members, |sc.elems|)
  {
    AnyVertexWith(sc.elems, sc.outs, L.members)
  }

  // ---------------------------------------------------------------------
  // Level.layout

  /** The loop of Level.layout from the member list ms on, with x the
      running x0: each member is placed at (x, y) and x moves on by its
      width and SPACING. */
  function LayoutRow(elems: seq<Element>, pos: map<nat, Point>, ms: seq<nat>, x: real, y: real)
    : map<nat, Point>
    requires IdsBelow(ms, |elems|)
    decreases |ms|
  {
    if ms == [] then pos
    else LayoutRow(elems, pos[ms[0] := Point(x, y)], ms[1..], x + elems[ms[0]].width + Spacing, y)
  }

  /** How far the running x of Level.layout advances over the members ms:
      each member's width plus SPACING. */
  function Advance(elems: seq<Element>, ms: seq<nat>): real
    requires IdsBelow(ms, |elems|)
  {
    if ms == [] then 0.0 else Advance(elems, ms[..|ms| - 1]) + elems[ms[|ms| - 1]].width + Spacing
  }

  /** The advance over ms is their total width plus |ms| times SPACING. */
  lemma {:induction false} AdvanceClosed(elems: seq<Element>, ms: seq<nat>)
    requires IdsBelow(ms, |elems|)
    ensures Advance(elems, ms) == SumWidth(elems, ms) + (|ms| as real) * Spacing
    decreases |ms|
  {
    if ms != [] {
      AdvanceClosed(elems, ms[..|ms| - 1]);
    }
  }

  /** Advance, which adds from the back, also peels off the front. */
  lemma {:induction false} AdvanceFront(elems: seq<Element>, ms: seq<nat>, i: nat)
    requires IdsBelow(ms, |elems|) && 1 <= i <= |ms|
    ensures Advance(elems, ms[..i]) == elems[ms[0]].width + Spacing + Advance(elems, ms[1..i])
    decreases i
  {
    assert ms[..i][..i - 1] == ms[..i - 1];
    if i > 1 {
      AdvanceFront(elems, ms, i - 1);
      assert ms[1..i][..i - 2] == ms[1..i - 1];
    }
  }

  /** Level.layout leaves alone every position that is not a member's. */
  lemma {:induction false} LayoutRowElse(elems: seq<Element>, pos: map<nat, Point>, ms: seq<nat>, x: real, y: real, k: nat)
    requires IdsBelow(ms, |elems|) && k in pos && k !in ms
    ensures k in LayoutRow(elems, pos, ms, x, y) && LayoutRow(elems, pos, ms, x, y)[k] == pos[k]
    decreases |ms|
  {
    if ms != [] {
      assert ms[0] in ms;
      LayoutRowElse(elems, pos[ms[0] := Point(x, y)], ms[1..], x + elems[ms[0]].width + Spacing, y, k);
    }
  }

  /** With distinct members, Level.layout puts the p-th member at x0 plus
      the advance over the members before it, at y. */
  lemma {:induction false} LayoutRowAt(elems: seq<Element>, pos: map<nat, Point>, ms: seq<nat>, x: real, y: real, p: nat)
    requires IdsBelow(ms, |elems|) && Distinct(ms) && p < |ms|
    ensures ms[p] in LayoutRow(elems, pos, ms, x, y)
    ensures LayoutRow(elems, pos, ms, x, y)[ms[p]] == Point(x + Advance(elems, ms[..p]), y)
    decreases |ms|
  {
    var x' := x + elems[ms[0]].width + Spacing;
    if p == 0 {
      assert ms[0] !in ms[1..];
      LayoutRowElse(elems, pos[ms[0] := Point(x, y)], ms[1..], x', y, ms[0]);
      assert ms[..0] == [];
    } else {
      assert Distinct(ms[1..]) by {
        forall i, j | 0 <= i < j < |ms| - 1
          ensures ms[1..][i] != ms[1..][j]
        {
          assert ms[1..][i] == ms[i + 1] && ms[1..][j] == ms[j + 1];
        }
      }
      LayoutRowAt(elems, pos[ms[0] := Point(x, y)], ms[1..], x', y, p - 1);
      assert ms[1..][p - 1] == ms[p];
      assert ms[1..][..p - 1] == ms[1..p];
      AdvanceFront(elems, ms, p);
    }
  }

  /** Level.layout adds no key but the members'. */
  lemma {:induction false} LayoutRowKeys(elems: seq<Element>, pos: map<nat, Point>, ms: seq<nat>, x: real, y: real, k: nat)
    requires IdsBelow(ms, |elems|) && k in LayoutRow(elems, pos, ms, x, y)
    ensures k in pos || k in ms
    decreases |ms|
  {
    if ms != [] {
      LayoutRowKeys(elems, pos[ms[0] := Point(x, y)], ms[1..], x + elems[ms[0]].width + Spacing, y, k);
      if k in ms[1..] {
        assert k in ms;
      }
    }
  }

  /** Members of a level with non-negative widths are placed left to right:
      a member's box ends at least SPACING before the next member's x. */
  lemma {:induction false} RowOrdered(elems: seq<Element>, ms: seq<nat>, i: nat, j: nat)
    requires IdsBelow(ms, |elems|) && i < j <= |ms|
    requires forall k :: 0 <= k < |ms| ==> elems[ms[k]].width >= 0.0
    ensures Advance(elems, ms[..i]) + elems[ms[i]].width + Spacing <= Advance(elems, ms[..j])
    decreases j - i
  {
    assert ms[..j][..j - 1] == ms[..j - 1];
    if j > i + 1 {
      RowOrdered(elems, ms, i, j - 1);
    }
  }

  /** The row's right end: the members, centred by their widths only, end
      (k - 1) * SPACING to the right of the centred position, k being the
      number of members. */
  lemma RowExtent(elems: seq<Element>, L: Level, W: real)
    requires IdsBelow(L.members, |elems|) && |L.members| > 0 && L.width == SumWidth(elems, L.members)
    ensures var k := |L.members|;
      (W - L.width) / 2.0 + Advance(elems, L.members[..k - 1]) + elems[L.members[k - 1]].width
      == (W + L.width) / 2.0 + ((k - 1) as real) * Spacing
  {
    var k := |L.members|;
    assert L.members[..k][..k - 1] == L.members[..k - 1];
    assert L.members[..k] == L.members;
    AdvanceClosed(elems, L.members[..k - 1]);
  }

  // ---------------------------------------------------------------------
  // Stacking

  /** The y at which the level ks[i] is laid out when the first is laid
      out at y0: each earlier level adds its height and LEVEL_GAP. */
  function Top(levels: map<int, Level>, ks: seq<int>, y0: real, i: nat): real
    requires i <= |ks| && forall j :: 0 <= j < |ks| ==> ks[j] in levels
  {
    y0 + SumSteps(levels, ks[..i])
  }

  lemma TopNext(levels: map<int, Level>, ks: seq<int>, y0: real, i: nat)
    requires i < |ks| && forall j :: 0 <= j < |ks| ==> ks[j] in levels
    ensures Top(levels, ks, y0, i + 1) == Top(levels, ks, y0, i) + levels[ks[i]].height + LevelGap
  {
    assert ks[..i + 1][..i] == ks[..i];
  }

  /** What laying out a level needs of it: its members are distinct
      elements of the arena that lie on it. */
  predicate RowOk(elems: seq<Element>, l: int, L: Level)
  {
    && IdsBelow(L.members, |elems|) && Distinct(L.members)
    && forall i :: 0 <= i < |L.members| ==> elems[L.members[i]].level == l
  }

  /** Every key of ks names a level whose row can be laid out. */
  ghost predicate KeysOk(elems: seq<Element>, levels: map<int, Level>, ks: seq<int>)
  {
    forall j :: 0 <= j < |ks| ==> ks[j] in levels && RowOk(elems, ks[j], levels[ks[j]])
  }

  lemma LevelsKeysOk(elems: seq<Element>, levels: map<int, Level>, ks: seq<int>)
    requires LevelsOk(elems, levels) && forall j :: 0 <= j < |ks| ==> ks[j] in levels
    ensures KeysOk(elems, levels, ks)
  {
    forall j | 0 <= j < |ks|
      ensures RowOk(elems, ks[j], levels[ks[j]])
    {
      assert LevelOk(elems, ks[j], levels[ks[j]]);
    }
  }

  /** The while(true) loop of setGraph from the level ks[i] on, with y the
      running `height`: returns the positions and the final height. */
  function StackFrom(sc: Scene, ks: seq<int>, i: nat, y: real, W: real, pos: map<nat, Point>)
    : (r: (map<nat, Point>, real))
    requires Shape(sc) && KeysOk(sc.elems, sc.levels, ks)
    requires i < |ks| && forall j :: 0 <= j < |ks| ==> ks[j] in sc.levels
    decreases |ks| - i
  {
    var L := sc.levels[ks[i]];
    assert RowOk(sc.elems, ks[i], L);
    var pos' := LayoutRow(sc.elems, pos, L.members, (W - L.width) / 2.0, y);
    var h := y + L.height;
    if i + 1 < |ks| then StackFrom(sc, ks, i + 1, h + LevelGap, W, pos')
    else (pos', h + (if HasOutEdges(sc, L) then ControlPointDistance else 0.0))
  }

  /** The y0 of the first level: CONTROL_POINT_DISTANCE if it has a vertex
      with incoming edges. */
  function FirstTop(sc: Scene, L: Level): real
    requires Shape(sc) && IdsBelow(L.members, |sc.elems|)
  {
    if HasInEdges(sc, L) then ControlPointDistance else 0.0
  }

  /** The placement part of setGraph. With no level at all `i.next()`
      throws NoSuchElementException, which happens exactly when there is
      no element. */
  function Place(sc: Scene): (r: Result<Placement>)
    requires Shape(sc) && LevelsOk(sc.elems, sc.levels)
    ensures r.Err? <==> |sc.elems| == 0
    ensures r.Err? ==> r.error == NoSuchElement
    ensures r.Ok? ==> r.value.width >= 0.0
    ensures r.Ok? ==> forall l :: l in sc.levels ==> sc.levels[l].width <= r.value.width
  {
    var ks := SortedKeys(sc.levels.Keys);
    EmptyLevels(sc.elems, sc.levels);
    if ks == [] then Err(NoSuchElement)
    else
      var W := MaxWidth(sc.levels, ks);
      MaxWidthSpec(sc.levels, ks);
      WidthCovers(sc.levels, ks, W);
      LevelsKeysOk(sc.elems, sc.levels, ks);
      assert RowOk(sc.elems, ks[0], sc.levels[ks[0]]);
      var (pos, h) := StackFrom(sc, ks, 0, FirstTop(sc, sc.levels[ks[0]]), W, map[]);
      Ok(Placement(pos, W, h))
  }

  lemma WidthCovers(levels: map<int, Level>, ks: seq<int>, W: real)
    requires forall k :: k in ks <==> k in levels
    requires forall i :: 0 <= i < |ks| ==> ks[i] in levels
    requires forall i :: 0 <= i < |ks| ==> levels[ks[i]].width <= W
    ensures forall l :: l in levels ==> levels[l].width <= W
  {
    forall l | l in levels
      ensures levels[l].width <= W
    {
      var i :| 0 <= i < |ks| && ks[i] == l;
    }
  }

  lemma EmptyLevels(elems: seq<Element>, levels: map<int, Level>)
    requires LevelsOk(elems, levels)
    ensures levels.Keys == {} <==> |elems| == 0
  {
    if |elems| > 0 {
      assert elems[0].level in levels;
    }
    if levels.Keys != {} {
      var l := Member(levels.Keys);
      assert LevelOk(elems, l, levels[l]);
    }
  }

  // ---------------------------------------------------------------------
  // Where every element ends up

  /** Element e is listed among the members of its own level. */
  predicate Listed(elems: seq<Element>, levels: map<int, Level>, e: nat)
  {
    && e < |elems| && elems[e].level in levels
    && IdsBelow(levels[elems[e].level].members, |elems|)
    && e in levels[elems[e].level].members
  }

  lemma ListedAll(elems: seq<Element>, levels: map<int, Level>, e: nat)
    requires LevelsOk(elems, levels) && e < |elems|
    ensures Listed(elems, levels, e)
  {
    assert LevelOk(elems, elems[e].level, levels[elems[e].level]);
  }

  /** The closed form of the position of element e: in its level's row,
      which starts at (W - level width) / 2, after the widths of the
      members before it and SPACING after each of them; at the Top of its
      level's place in the key order. */
  function Expected(sc: Scene, ks: seq<int>, y0: real, W: real, e: nat): Point
    requires Listed(sc.elems, sc.levels, e)
    requires forall j :: 0 <= j < |ks| ==> ks[j] in sc.levels
    requires sc.elems[e].level in ks
  {
    var l := sc.elems[e].level;
    var L := sc.levels[l];
    var p := IndexOf(L.members, e);
    Point((W - L.width) / 2.0 + Advance(sc.elems, L.members[..p]),
          Top(sc.levels, ks, y0, IndexOf(ks, l)))
  }

  /** Every key of ks is found at its own index: what distinct keys give
      IndexOf. */
  ghost predicate Indexed(ks: seq<int>)
  {
    forall j {:trigger IndexOf(ks, ks[j])} :: 0 <= j < |ks| ==> IndexOf(ks, ks[j]) == j
  }

  lemma DistinctIndexed(ks: seq<int>)
    requires Distinct(ks)
    ensures Indexed(ks)
  {
    forall j | 0 <= j < |ks|
      ensures IndexOf(ks, ks[j]) == j
    {
      IndexOfDistinct(ks, j);
    }
  }

  /** One round of the stacking loop: lay out ks[i] at y, then go on
      LEVEL_GAP below its bottom, or stop after the last level. */
  lemma StackFromStep(sc: Scene, ks: seq<int>, i: nat, y: real, W: real, pos: map<nat, Point>)
    requires Shape(sc) && KeysOk(sc.elems, sc.levels, ks)
    requires i < |ks| && forall j :: 0 <= j < |ks| ==> ks[j] in sc.levels
    ensures RowOk(sc.elems, ks[i], sc.levels[ks[i]])
    ensures var L := sc.levels[ks[i]];
      var r := StackFrom(sc, ks, i, y, W, pos);
      if i + 1 < |ks| then
        r == StackFrom(sc, ks, i + 1, y + L.height + LevelGap, W, LayoutRow(sc.elems, pos, L.members, (W - L.width) / 2.0, y))
      else
        && r.0 == LayoutRow(sc.elems, pos, L.members, (W - L.width) / 2.0, y)
        && r.1 == y + L.height + (if HasOutEdges(sc, L) then ControlPointDistance else 0.0)
  {
    assert RowOk(sc.elems, ks[i], sc.levels[ks[i]]);
  }

  /** The stacking loop from level ks[i] on, started at Top(i), puts every
      element of those levels at its Expected point. */
  lemma {:induction false} StackAt(sc: Scene, ks: seq<int>, i: nat, y0: real, W: real, pos: map<nat, Point>, e: nat)
    requires Shape(sc) && KeysOk(sc.elems, sc.levels, ks) && Indexed(ks)
    requires i < |ks| && forall j :: 0 <= j < |ks| ==> ks[j] in sc.levels
    requires Listed(sc.elems, sc.levels, e) && i <= IndexOf(ks, sc.elems[e].level)
    ensures e in StackFrom(sc, ks, i, Top(sc.levels, ks, y0, i), W, pos).0
    ensures StackFrom(sc, ks, i, Top(sc.levels, ks, y0, i), W, pos).0[e] == Expected(sc, ks, y0, W, e)
    decreases |ks| - i
  {
    var L := sc.levels[ks[i]];
    var y := Top(sc.levels, ks, y0, i);
    if IndexOf(ks, sc.elems[e].level) == i {
      StackAtHere(sc, ks, i, y0, W, pos, e);
    } else {
      StackFromStep(sc, ks, i, y, W, pos);
      TopNext(sc.levels, ks, y0, i);
      StackAt(sc, ks, i + 1, y0, W, LayoutRow(sc.elems, pos, L.members, (W - L.width) / 2.0, y), e);
    }
  }

  /** StackAt for an element of level ks[i] itself: the round lays it out
      and the later rounds keep it. */
  lemma StackAtHere(sc: Scene, ks: seq<int>, i: nat, y0: real, W: real, pos: map<nat, Point>, e: nat)
    requires Shape(sc) && KeysOk(sc.elems, sc.levels, ks) && Indexed(ks)
    requires i < |ks| && forall j :: 0 <= j < |ks| ==> ks[j] in sc.levels
    requires Listed(sc.elems, sc.levels, e) && IndexOf(ks, sc.elems[e].level) == i
    ensures e in StackFrom(sc, ks, i, Top(sc.levels, ks, y0, i), W, pos).0
    ensures StackFrom(sc, ks, i, Top(sc.levels, ks, y0, i), W, pos).0[e] == Expected(sc, ks, y0, W, e)
  {
    var L := sc.levels[ks[i]];
    var y := Top(sc.levels, ks, y0, i);
    var pos' := LayoutRow(sc.elems, pos, L.members, (W - L.width) / 2.0, y);
    StackFromStep(sc, ks, i, y, W, pos);
    var p := IndexOf(L.members, e);
    LayoutRowAt(sc.elems, pos, L.members, (W - L.width) / 2.0, y, p);
    assert pos'[e] == Expected(sc, ks, y0, W, e);
    if i + 1 < |ks| {
      TopNext(sc.levels, ks, y0, i);
      StackKeep(sc, ks, i + 1, y + L.height + LevelGap, W, pos', e);
    }
  }

  /** The stacking loop from level ks[i] on keeps the position of every
      element of the levels before ks[i]. */
  lemma {:induction false} StackKeep(sc: Scene, ks: seq<int>, i: nat, y: real, W: real, pos: map<nat, Point>, k: nat)
    requires Shape(sc) && KeysOk(sc.elems, sc.levels, ks) && Indexed(ks)
    requires i < |ks| && forall j :: 0 <= j < |ks| ==> ks[j] in sc.levels
    requires k in pos && k < |sc.elems| && 0 <= IndexOf(ks, sc.elems[k].level) < i
    ensures k in StackFrom(sc, ks, i, y, W, pos).0
    ensures StackFrom(sc, ks, i, y, W, pos).0[k] == pos[k]
    decreases |ks| - i
  {
    var L := sc.levels[ks[i]];
    StackFromStep(sc, ks, i, y, W, pos);
    assert IndexOf(ks, ks[i]) == i;
    assert k !in L.members;
    LayoutRowElse(sc.elems, pos, L.members, (W - L.width) / 2.0, y, k);
    if i + 1 < |ks| {
      StackKeep(sc, ks, i + 1, y + L.height + LevelGap, W, LayoutRow(sc.elems, pos, L.members, (W - L.width) / 2.0, y), k);
    }
  }

  /** The stacking loop from level ks[i] on adds only elements of those
      levels. */
  lemma {:induction false} StackKeys(sc: Scene, ks: seq<int>, i: nat, y: real, W: real, pos: map<nat, Point>, k: nat)
    requires Shape(sc) && KeysOk(sc.elems, sc.levels, ks)
    requires i < |ks| && forall j :: 0 <= j < |ks| ==> ks[j] in sc.levels
    requires k in StackFrom(sc, ks, i, y, W, pos).0
    ensures k in pos || k < |sc.elems|
    decreases |ks| - i
  {
    var L := sc.levels[ks[i]];
    StackFromStep(sc, ks, i, y, W, pos);
    if i + 1 < |ks| {
      StackKeys(sc, ks, i + 1, y + L.height + LevelGap, W, LayoutRow(sc.elems, pos, L.members, (W - L.width) / 2.0, y), k);
    }
    if k in LayoutRow(sc.elems, pos, L.members, (W - L.width) / 2.0, y) {
      LayoutRowKeys(sc.elems, pos, L.members, (W - L.width) / 2.0, y, k);
      if k in L.members {
        var p :| 0 <= p < |L.members| && L.members[p] == k;
      }
    }
  }

  /** The stacking loop from level ks[i] on, started at Top(i), ends with
      the bottom of the last level, plus CONTROL_POINT_DISTANCE when that
      level has a vertex with outgoing edges. */
  lemma {:induction false} StackHeight(sc: Scene, ks: seq<int>, i: nat, y0: real, W: real, pos: map<nat, Point>)
    requires Shape(sc) && KeysOk(sc.elems, sc.levels, ks)
    requires i < |ks| && forall j :: 0 <= j < |ks| ==> ks[j] in sc.levels
    ensures var last := sc.levels[ks[|ks| - 1]];
      && IdsBelow(last.members, |sc.elems|)
      && StackFrom(sc, ks, i, Top(sc.levels, ks, y0, i), W, pos).1
         == Top(sc.levels, ks, y0, |ks| - 1) + last.height
            + (if HasOutEdges(sc, last) then ControlPointDistance else 0.0)
    decreases |ks| - i
  {
    var L := sc.levels[ks[i]];
    StackFromStep(sc, ks, i, Top(sc.levels, ks, y0, i), W, pos);
    if i + 1 < |ks| {
      TopNext(sc.levels, ks, y0, i);
      StackHeight(sc, ks, i + 1, y0, W, LayoutRow(sc.elems, pos, L.members, (W - L.width) / 2.0, Top(sc.levels, ks, y0, i)));
    }
  }

  /** setGraph's placement, in closed form: every element gets a position,
      the Expected one for the first level at FirstTop and the common width
      MaxWidth, and the final height is the bottom of the last level plus
      the control-point room below it. */
  lemma PlaceSpec(sc: Scene)
    requires Shape(sc) && LevelsOk(sc.elems, sc.levels) && |sc.elems| > 0
    ensures var ks := SortedKeys(sc.levels.Keys);
      && |ks| > 0 && Place(sc).Ok?
      && var P := Place(sc).value;
      && (forall j :: 0 <= j < |ks| ==> ks[j] in sc.levels)
      && RowOk(sc.elems, ks[0], sc.levels[ks[0]])
      && RowOk(sc.elems, ks[|ks| - 1], sc.levels[ks[|ks| - 1]])
      && P.width == MaxWidth(sc.levels, ks)
      && (forall k :: k in P.pos ==> k < |sc.elems|)
      && (forall e :: 0 <= e < |sc.elems| ==>
            sc.elems[e].level in ks && Listed(sc.elems, sc.levels, e) && e in P.pos &&
            P.pos[e] == Expected(sc, ks, FirstTop(sc, sc.levels[ks[0]]), P.width, e))
      && P.height == Top(sc.levels, ks, FirstTop(sc, sc.levels[ks[0]]), |ks| - 1)
                     + sc.levels[ks[|ks| - 1]].height
                     + (if HasOutEdges(sc, sc.levels[ks[|ks| - 1]]) then ControlPointDistance else 0.0)
  {
    var ks := SortedKeys(sc.levels.Keys);
    EmptyLevels(sc.elems, sc.levels);
    SortedDistinct(ks);
    DistinctIndexed(ks);
    LevelsKeysOk(sc.elems, sc.levels, ks);
    assert RowOk(sc.elems, ks[0], sc.levels[ks[0]]);
    var y0 := FirstTop(sc, sc.levels[ks[0]]);
    var W := MaxWidth(sc.levels, ks);
    assert ks[..0] == [];
    assert Top(sc.levels, ks, y0, 0) == y0;
    StackHeight(sc, ks, 0, y0, W, map[]);
    forall e | 0 <= e < |sc.elems|
      ensures sc.elems[e].level in ks && Listed(sc.elems, sc.levels, e)
      ensures e in Place(sc).value.pos && Place(sc).value.pos[e] == Expected(sc, ks, y0, W, e)
    {
      ListedAll(sc.elems, sc.levels, e);
      StackAt(sc, ks, 0, y0, W, map[], e);
    }
    forall k | k in Place(sc).value.pos
      ensures k < |sc.elems|
    {
      StackKeys(sc, ks, 0, y0, W, map[], k);
    }
  }

  // ---------------------------------------------------------------------
  // Edge anchors

  /** Vertex.src / Vertex.dst: the x at which the edge end with index i
      (indexOf in the vertex's `out` or `in` list of the given size) meets a
      box starting at x0 with width w. */
  function Anchor(x0: real, w: real, i: int, size: nat): real
  {
    x0 + w * ((i + 1) as real) / ((size + 1) as real)
  }

  /** The ends of a list of edges meet the box strictly inside it. */
  lemma AnchorInside(x0: real, w: real, i: int, size: nat)
    requires 0 <= i < size && w > 0.0
    ensures x0 < Anchor(x0, w, i, size) < x0 + w
  {
    var f := ((i + 1) as real) / ((size + 1) as real);
    assert 0.0 < f < 1.0;
    assert w * ((i + 1) as real) / ((size + 1) as real) == w * f;
  }

  /** Later entries of the list meet the box further right. */
  lemma AnchorOrdered(x0: real, w: real, i: int, j: int, size: nat)
    requires 0 <= i < j < size && w > 0.0
    ensures Anchor(x0, w, i, size) < Anchor(x0, w, j, size)
  {
    var d := (size + 1) as real;
    assert ((i + 1) as real) / d < ((j + 1) as real) / d;
    assert w * ((i + 1) as real) / d == w * (((i + 1) as real) / d);
    assert w * ((j + 1) as real) / d == w * (((j + 1) as real) / d);
  }
}
