/** Graph ingestion (`initNodes`, `reinitNodes`): a label -> successors map,
    seen as its entry sequence in iteration order, becomes one node per
    distinct label (ids in order of first mention: keys first, then unseen
    successors) and an edge list holding one edge per (key, successor) pair. */
module Ingestion {
  import opened Base
  import opened Graphs

  /** One map entry; a `None` label stands for Java's null. */
  datatype Entry<V> = Entry(key: Option<V>, succs: seq<Option<V>>)

  /** The node list (node id = index) and the edge list. */
  datatype Graph<V> = Graph(labels: seq<V>, edges: seq<Edge>)

  // ---------------------------------------------------------------------
  // Reference views of the input

  function Keys<V>(es: seq<Entry<V>>): seq<Option<V>>
  {
    if es == [] then [] else [es[0].key] + Keys(es[1..])
  }

  function AllSuccs<V>(es: seq<Entry<V>>): seq<Option<V>>
  {
    if es == [] then [] else es[0].succs + AllSuccs(es[1..])
  }

  /** Every label occurrence in the order the two passes meet them. */
  function Mentions<V>(es: seq<Entry<V>>): seq<Option<V>>
  {
    Keys(es) + AllSuccs(es)
  }

  function PairsOf<V>(k: Option<V>, ss: seq<Option<V>>): seq<(Option<V>, Option<V>)>
  {
    if ss == [] then [] else [(k, ss[0])] + PairsOf(k, ss[1..])
  }

  /** The (key, successor) pairs in iteration order: the edges to create. */
  function Pairs<V>(es: seq<Entry<V>>): seq<(Option<V>, Option<V>)>
  {
    if es == [] then [] else PairsOf(es[0].key, es[0].succs) + Pairs(es[1..])
  }

  /** labels are distinct, are exactly the labels mentioned in M, and are
      ordered by their first mention in M. */
  ghost predicate Tracks<V>(labels: seq<V>, M: seq<Option<V>>)
  {
    && Distinct(labels)
    && (forall i :: 0 <= i < |labels| ==> Some(labels[i]) in M)
    && (forall j :: 0 <= j < |M| ==> M[j].Some? && M[j].value in labels)
    && (forall i, j {:trigger IndexOf(M, Some(labels[i])), IndexOf(M, Some(labels[j]))} ::
          0 <= i < j < |labels| ==> IndexOf(M, Some(labels[i])) < IndexOf(M, Some(labels[j])))
  }

  /** Edge k joins the nodes labelled by pair k. */
  ghost predicate EdgesMatch<V>(labels: seq<V>, E: seq<Edge>, P: seq<(Option<V>, Option<V>)>)
  {
    && |E| == |P|
    && forall k :: 0 <= k < |E| ==>
         && E[k].0 < |labels| && E[k].1 < |labels|
         && Some(labels[E[k].0]) == P[k].0 && Some(labels[E[k].1]) == P[k].1
  }

  // ---------------------------------------------------------------------
  // The two passes of initNodes

  /** Node creation for one label, as `map.get(l) == null` then `new Node(l)`. */
  function AddLabel<V(==)>(labels: seq<V>, l: V): (r: seq<V>)
    ensures l in r && labels <= r
  {
    if l in labels then labels else labels + [l]
  }

  /** First pass: a node per key; a null key makes the Node constructor throw. */
  function AddKeys<V(==)>(labels: seq<V>, es: seq<Entry<V>>): (r: Result<seq<V>>)
    ensures r.Err? <==> None in Keys(es)
    ensures r.Err? ==> r.error == IllegalArgument
    ensures r.Ok? ==> labels <= r.value
    decreases es
  {
    if es == [] then Ok(labels)
    else
      match es[0].key
      case None => Err(IllegalArgument)
      case Some(k) => AddKeys(AddLabel(labels, k), es[1..])
  }

  /** Second pass, one entry: for each successor get or create its node, then
      append the edge (src.out.add(dst); dst.in.add(src)). */
  function AddSuccs<V(==)>(labels: seq<V>, edges: seq<Edge>, src: nat, ss: seq<Option<V>>)
    : (r: Result<(seq<V>, seq<Edge>)>)
    ensures r.Err? <==> None in ss
    ensures r.Err? ==> r.error == IllegalArgument
    ensures r.Ok? ==> labels <= r.value.0 && edges <= r.value.1
    ensures r.Ok? ==> |r.value.1| == |edges| + |ss|
    decreases ss
  {
    if ss == [] then Ok((labels, edges))
    else
      match ss[0]
      case None => Err(IllegalArgument)
      case Some(d) =>
        var labels' := AddLabel(labels, d);
        var dst := IndexOf(labels', d);
        AddSuccs(labels', edges + [(src, dst)], src, ss[1..])
  }

  /** Second pass over all entries; every key already has a node. */
  function AddEdges<V(==)>(labels: seq<V>, edges: seq<Edge>, es: seq<Entry<V>>)
    : (r: Result<(seq<V>, seq<Edge>)>)
    requires forall k :: k in Keys(es) ==> k.Some? && k.value in labels
    ensures r.Err? <==> None in AllSuccs(es)
    ensures r.Err? ==> r.error == IllegalArgument
    ensures r.Ok? ==> labels <= r.value.0 && edges <= r.value.1
    decreases es
  {
    if es == [] then Ok((labels, edges))
    else
      assert es[0].key in Keys(es);
      var src := IndexOf(labels, es[0].key.value);
      match AddSuccs(labels, edges, src, es[0].succs)
      case Err(e) => Err(e)
      case Ok((labels', edges')) =>
        assert forall k :: k in Keys(es[1..]) ==> k in Keys(es);
        AddEdges(labels', edges', es[1..])
  }

  /** initNodes: fails with IllegalArgument exactly when some label is null;
      otherwise one node per distinct label, in order of first mention, and
      one edge per (key, successor) pair, in iteration order. */
  function Ingest<V(==)>(es: seq<Entry<V>>): (r: Result<Graph<V>>)
    ensures r.Err? <==> None in Mentions(es)
    ensures r.Err? ==> r.error == IllegalArgument
    ensures r.Ok? ==> Tracks(r.value.labels, Mentions(es))
    ensures r.Ok? ==> EdgesMatch(r.value.labels, r.value.edges, Pairs(es))
    ensures r.Ok? ==> ValidEdges(r.value.edges, |r.value.labels|)
  {
    match AddKeys([], es)
    case Err(e) => Err(e)
    case Ok(labels) =>
      AddKeysFacts([], es, []);
      assert [] + Keys(es) == Keys(es);
      match AddEdges(labels, [], es)
      case Err(e) => Err(e)
      case Ok((labels', edges)) =>
        AddEdgesFacts(labels, [], es, Keys(es));
        assert [] + Pairs(es) == Pairs(es);
        Ok(Graph(labels', edges))
  }

  /** reinitNodes: re-adds one edge per (key, successor) pair, looking both
      labels up among the existing nodes. */
  function Reinit<V(==)>(labels: seq<V>, es: seq<Entry<V>>): (E: seq<Edge>)
    requires forall l :: l in Mentions(es) ==> l.Some? && l.value in labels
    ensures EdgesMatch(labels, E, Pairs(es))
  {
    if es == [] then []
    else
      MentionsHead(es);
      var src := IndexOf(labels, es[0].key.value);
      ReinitSuccs(labels, src, es[0].succs) + Reinit(labels, es[1..])
  }

  function ReinitSuccs<V(==)>(labels: seq<V>, src: nat, ss: seq<Option<V>>): (E: seq<Edge>)
    requires src < |labels|
    requires forall l :: l in ss ==> l.Some? && l.value in labels
    ensures EdgesMatch(labels, E, PairsOf(Some(labels[src]), ss))
  {
    if ss == [] then []
    else [(src, IndexOf(labels, ss[0].value))] + ReinitSuccs(labels, src, ss[1..])
  }

  /** After cycle breaking mutated the working copy, re-adding the edges
      from the input map restores exactly the edge list ingestion built. */
  lemma ReinitRestores<V>(es: seq<Entry<V>>, g: Graph<V>)
    requires Ingest(es) == Ok(g)
    ensures forall l :: l in Mentions(es) ==> l.Some? && l.value in g.labels
    ensures Reinit(g.labels, es) == g.edges
  {
    var E := Reinit(g.labels, es);
    forall k | 0 <= k < |E|
      ensures E[k] == g.edges[k]
    {
      IndexOfDistinct(g.labels, E[k].0);
      IndexOfDistinct(g.labels, g.edges[k].0);
      IndexOfDistinct(g.labels, E[k].1);
      IndexOfDistinct(g.labels, g.edges[k].1);
    }
  }

  // ---------------------------------------------------------------------
  // Proof of the ingestion contract

  lemma MentionsHead<V>(es: seq<Entry<V>>)
    requires es != []
    ensures es[0].key in Mentions(es)
    ensures forall l :: l in es[0].succs ==> l in Mentions(es)
    ensures forall l :: l in Mentions(es[1..]) ==> l in Mentions(es)
  {
  }

  lemma IndexOfAppend<T>(M: seq<T>, y: T, z: T)
    requires z in M
    ensures IndexOf(M + [y], z) == IndexOf(M, z)
  {
    var k := IndexOf(M, z);
    var k' := IndexOf(M + [y], z);
    assert (M + [y])[k] == z;
    assert k' <= k;
    assert M[k'] == z;
  }

  lemma TracksStep<V>(labels: seq<V>, M: seq<Option<V>>, x: V)
    requires Tracks(labels, M)
    ensures Tracks(AddLabel(labels, x), M + [Some(x)])
  {
    var L := AddLabel(labels, x);
    var M' := M + [Some(x)];
    forall i, j | 0 <= i < j < |L|
      ensures IndexOf(M', Some(L[i])) < IndexOf(M', Some(L[j]))
    {
      assert L[i] == labels[i];
      IndexOfAppend(M, Some(x), Some(L[i]));
      if j < |labels| {
        IndexOfAppend(M, Some(x), Some(L[j]));
      } else {
        assert L[j] == x && x !in labels;
        assert Some(x) !in M;
        assert IndexOf(M', Some(x)) == |M|;
      }
    }
  }

  lemma {:induction false} AddKeysFacts<V>(labels: seq<V>, es: seq<Entry<V>>, M: seq<Option<V>>)
    requires Tracks(labels, M)
    requires AddKeys(labels, es).Ok?
    ensures Tracks(AddKeys(labels, es).value, M + Keys(es))
    decreases es
  {
    if es == [] {
      assert M + Keys(es) == M;
    } else {
      var k := es[0].key.value;
      TracksStep(labels, M, k);
      AddKeysFacts(AddLabel(labels, k), es[1..], M + [Some(k)]);
      var K1 := Keys(es[1..]);
      assert Keys(es) == [Some(k)] + K1;
      ConcatAssoc(M, [Some(k)], K1);
    }
  }

  lemma EdgesMatchGrow<V>(labels: seq<V>, labels': seq<V>, E: seq<Edge>, P: seq<(Option<V>, Option<V>)>)
    requires labels <= labels' && EdgesMatch(labels, E, P)
    ensures EdgesMatch(labels', E, P)
  {
    forall k | 0 <= k < |E|
      ensures labels'[E[k].0] == labels[E[k].0] && labels'[E[k].1] == labels[E[k].1]
    {
    }
  }

  lemma EdgesMatchConcat<V>(labels: seq<V>, E1: seq<Edge>, P1: seq<(Option<V>, Option<V>)>,
                            E2: seq<Edge>, P2: seq<(Option<V>, Option<V>)>)
    requires EdgesMatch(labels, E1, P1) && EdgesMatch(labels, E2, P2)
    ensures EdgesMatch(labels, E1 + E2, P1 + P2)
  {
    forall k | 0 <= k < |E1 + E2|
      ensures (E1 + E2)[k] == (if k < |E1| then E1[k] else E2[k - |E1|])
      ensures (P1 + P2)[k] == (if k < |E1| then P1[k] else P2[k - |E1|])
    {
    }
  }

  lemma {:induction false} AddSuccsFacts<V>(labels: seq<V>, edges: seq<Edge>, src: nat,
                                            ss: seq<Option<V>>, M: seq<Option<V>>)
    requires Tracks(labels, M) && src < |labels|
    requires AddSuccs(labels, edges, src, ss).Ok?
    ensures var (L, E) := AddSuccs(labels, edges, src, ss).value;
      Tracks(L, M + ss) && EdgesMatch(L, E[|edges|..], PairsOf(Some(labels[src]), ss))
  {
    AddSuccsTracks(labels, edges, src, ss, M);
    AddSuccsEdges(labels, edges, src, ss);
  }

  lemma {:induction false} AddSuccsTracks<V>(labels: seq<V>, edges: seq<Edge>, src: nat,
                                             ss: seq<Option<V>>, M: seq<Option<V>>)
    requires Tracks(labels, M)
    requires AddSuccs(labels, edges, src, ss).Ok?
    ensures Tracks(AddSuccs(labels, edges, src, ss).value.0, M + ss)
    decreases ss
  {
    if ss == [] {
      assert M + ss == M;
    } else {
      var d := ss[0].value;
      var labels' := AddLabel(labels, d);
      AddSuccsStep(labels, edges, src, ss);
      TracksStep(labels, M, d);
      AddSuccsTracks(labels', edges + [(src, IndexOf(labels', d))], src, ss[1..], M + [Some(d)]);
      assert M + ss == (M + [Some(d)]) + ss[1..] by {
        assert ss == [Some(d)] + ss[1..];
        ConcatAssoc(M, [Some(d)], ss[1..]);
      }
    }
  }

  /** One round of the loop over a key's successors, spelled out. */
  lemma AddSuccsStep<V>(labels: seq<V>, edges: seq<Edge>, src: nat, ss: seq<Option<V>>)
    requires ss != [] && ss[0].Some?
    ensures var labels' := AddLabel(labels, ss[0].value);
      AddSuccs(labels, edges, src, ss) == AddSuccs(labels', edges + [(src, IndexOf(labels', ss[0].value))], src, ss[1..])
  {
  }

  lemma {:induction false} AddSuccsEdges<V>(labels: seq<V>, edges: seq<Edge>, src: nat,
                                            ss: seq<Option<V>>)
    requires src < |labels|
    requires AddSuccs(labels, edges, src, ss).Ok?
    ensures var (L, E) := AddSuccs(labels, edges, src, ss).value;
      EdgesMatch(L, E[|edges|..], PairsOf(Some(labels[src]), ss))
    decreases ss
  {
    var (L, E) := AddSuccs(labels, edges, src, ss).value;
    if ss != [] {
      var d := ss[0].value;
      var labels' := AddLabel(labels, d);
      var dst := IndexOf(labels', d);
      var edges' := edges + [(src, dst)];
      AddSuccsEdges(labels', edges', src, ss[1..]);
      assert labels'[src] == labels[src];
      assert labels' <= L;
      EdgesMatchGrow(labels', L, [(src, dst)], [(Some(labels[src]), ss[0])]);
      EdgesMatchConcat(L, [(src, dst)], [(Some(labels[src]), ss[0])],
                       E[|edges'|..], PairsOf(Some(labels[src]), ss[1..]));
      SliceStep(E, edges, (src, dst));
    }
  }

  lemma SliceStep<T>(E: seq<T>, pre: seq<T>, x: T)
    requires pre + [x] <= E
    ensures E[|pre|..] == [x] + E[|pre + [x]|..]
  {
    assert E[|pre|] == (pre + [x])[|pre|];
  }

  lemma SliceSplit<T>(E: seq<T>, pre: seq<T>, mid: seq<T>)
    requires pre <= mid <= E
    ensures E[|pre|..] == mid[|pre|..] + E[|mid|..]
  {
  }

  lemma {:induction false} AddEdgesFacts<V>(labels: seq<V>, edges: seq<Edge>,
                                            es: seq<Entry<V>>, M: seq<Option<V>>)
    requires Tracks(labels, M)
    requires forall k :: k in Keys(es) ==> k.Some? && k.value in labels
    requires AddEdges(labels, edges, es).Ok?
    ensures var (L, E) := AddEdges(labels, edges, es).value;
      Tracks(L, M + AllSuccs(es)) && EdgesMatch(L, E[|edges|..], Pairs(es))
  {
    AddEdgesTracks(labels, edges, es, M);
    AddEdgesEdges(labels, edges, es);
  }

  lemma {:induction false} AddEdgesTracks<V>(labels: seq<V>, edges: seq<Edge>,
                                             es: seq<Entry<V>>, M: seq<Option<V>>)
    requires Tracks(labels, M)
    requires forall k :: k in Keys(es) ==> k.Some? && k.value in labels
    requires AddEdges(labels, edges, es).Ok?
    ensures Tracks(AddEdges(labels, edges, es).value.0, M + AllSuccs(es))
    decreases es
  {
    if es == [] {
      assert M + AllSuccs(es) == M;
    } else {
      assert es[0].key in Keys(es);
      var src := IndexOf(labels, es[0].key.value);
      var (labels', edges') := AddSuccs(labels, edges, src, es[0].succs).value;
      AddSuccsTracks(labels, edges, src, es[0].succs, M);
      assert forall k :: k in Keys(es[1..]) ==> k in Keys(es);
      AddEdgesTracks(labels', edges', es[1..], M + es[0].succs);
      assert AllSuccs(es) == es[0].succs + AllSuccs(es[1..]);
      ConcatAssoc(M, es[0].succs, AllSuccs(es[1..]));
    }
  }

  lemma {:induction false} AddEdgesEdges<V>(labels: seq<V>, edges: seq<Edge>, es: seq<Entry<V>>)
    requires forall k :: k in Keys(es) ==> k.Some? && k.value in labels
    requires AddEdges(labels, edges, es).Ok?
    ensures var (L, E) := AddEdges(labels, edges, es).value;
      EdgesMatch(L, E[|edges|..], Pairs(es))
    decreases es
  {
    var (L, E) := AddEdges(labels, edges, es).value;
    if es != [] {
      assert es[0].key in Keys(es);
      var src := IndexOf(labels, es[0].key.value);
      var (labels', edges') := AddSuccs(labels, edges, src, es[0].succs).value;
      AddSuccsEdges(labels, edges, src, es[0].succs);
      assert forall k :: k in Keys(es[1..]) ==> k in Keys(es);
      AddEdgesEdges(labels', edges', es[1..]);
      assert labels[src] == es[0].key.value;
      EdgesMatchGrow(labels', L, edges'[|edges|..], PairsOf(es[0].key, es[0].succs));
      EdgesMatchConcat(L, edges'[|edges|..], PairsOf(es[0].key, es[0].succs),
                       E[|edges'|..], Pairs(es[1..]));
      SliceSplit(E, edges, edges');
    }
  }
}
