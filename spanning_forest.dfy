/**
 * The label-propagation spanning-forest algorithm of gbbs
 * (labelprop_sf): every vertex carries a label, and in rounds each frontier
 * vertex pushes its round-start label across its edges with write_min under
 * lp_less.  A first pass relaxes labels and sets emit flags; a second pass
 * records, for each vertex whose label dropped, an edge that carried the
 * winning label.  The parallel atomics are modelled sequentially, each cell
 * update being one step, and edgeMap as a loop over the frontier's edges.
 */
module LabelPropagation {
  import opened SeqUtil
  import opened VertexSubsets

  /** The emit flags of a round: not touched, to be added by the filter, already in edgeMap's output. */
  const Unemitted: nat := 0
  const NeedEmit: nat := 1
  const Emitted: nat := 2

  // ---------------------------------------------------------------------
  // lp_less
  // ---------------------------------------------------------------------

  /** The position of a label in the lp_less order: largest_comp first, then the ids in numeric order. */
  function Rank(lc: nat, x: nat): nat {
    if x == lc then 0 else x + 1
  }

  /**
   * lp_less, with largest_comp as the parameter lc: lc is below every other
   * value and nothing is below lc; other values compare numerically.  It is
   * exactly the order of Rank.
   */
  function LpLess(lc: nat, u: nat, v: nat): (b: bool)
    ensures b <==> Rank(lc, u) < Rank(lc, v)
  {
    if u == lc then v != lc
    else if v == lc then false
    else u < v
  }

  /** lp_less is a strict total order with lc as its least element, agreeing with < elsewhere. */
  lemma LpLessOrder(lc: nat)
    ensures forall u :: !LpLess(lc, u, u)
    ensures forall u, v, w :: LpLess(lc, u, v) && LpLess(lc, v, w) ==> LpLess(lc, u, w)
    ensures forall u, v :: u != v ==> LpLess(lc, u, v) || LpLess(lc, v, u)
    ensures forall v :: v != lc ==> LpLess(lc, lc, v) && !LpLess(lc, v, lc)
    ensures forall u, v :: u != lc && v != lc ==> (LpLess(lc, u, v) <==> u < v)
  {
  }

  /** The result of write_min under lp_less: the new value when it is lp-smaller, else the old one. */
  function LpMin(lc: nat, cur: nat, b: nat): (r: nat)
    ensures Rank(lc, r) <= Rank(lc, cur) && Rank(lc, r) <= Rank(lc, b)
    ensures r == cur || r == b
  {
    if LpLess(lc, b, cur) then b else cur
  }

  // ---------------------------------------------------------------------
  // The atomics, one step each
  // ---------------------------------------------------------------------

  /**
   * pbbs::write_min: installs b in a[i] when less(b, a[i]) and reports
   * whether it wrote.  The compare-and-swap retry loop of the source always
   * succeeds at its first try when run alone.
   */
  method WriteMin<X>(a: array<X>, i: nat, b: X, less: (X, X) -> bool) returns (written: bool)
    requires i < a.Length
    modifies a
    ensures written <==> less(b, old(a[i]))
    ensures a[..] == old(a[..])[i := if written then b else old(a[i])]
  {
    var c := a[i];
    if less(b, c) {
      a[i] := b;
      written := true;
    } else {
      written := false;
    }
  }

  /** pbbs::atomic_compare_and_swap: writes b when a[i] still holds expected. */
  method CompareAndSwap<X(==)>(a: array<X>, i: nat, expected: X, b: X) returns (swapped: bool)
    requires i < a.Length
    modifies a
    ensures swapped <==> old(a[i]) == expected
    ensures a[..] == old(a[..])[i := if swapped then b else old(a[i])]
  {
    if a[i] == expected {
      a[i] := b;
      swapped := true;
    } else {
      swapped := false;
    }
  }

  // ---------------------------------------------------------------------
  // Graphs and the per-edge steps as functions
  // ---------------------------------------------------------------------

  /** A directed edge (s, d) as edgeMap hands it to a functor. */
  datatype Edge = Edge(src: nat, dst: nat)

  /** A cell of the Edges array: empty_edge, or the edge that gave this vertex its label. */
  datatype Slot = EmptyEdge | Claimed(edge: Edge)

  /** Every endpoint is a vertex id below n. */
  predicate EdgesBelow(es: seq<Edge>, n: nat) {
    forall i :: 0 <= i < |es| ==> es[i].src < n && es[i].dst < n
  }

  /** The graph is undirected: each edge is present in both directions. */
  predicate Symmetric(graph: seq<Edge>) {
    forall e :: e in graph ==> Edge(e.dst, e.src) in graph
  }

  /**
   * LabelProp_F::updateAtomic on the edge (s, d), as a function of the
   * round-start labels, the current labels and the current flags; the
   * boolean is the functor's return value.
   */
  function Relax(lc: nat, prev: seq<nat>, p: seq<nat>, c: seq<nat>, e: Edge): (r: (seq<nat>, seq<nat>, bool))
    requires |p| == |prev| && |c| == |prev| && e.src < |prev| && e.dst < |prev|
    ensures |r.0| == |prev| && |r.1| == |prev|
  {
    var s, d := e.src, e.dst;
    if LpLess(lc, prev[s], prev[d]) then
      var written := Emitted > c[d];
      (p[d := LpMin(lc, p[d], prev[s])], c[d := if written then Emitted else c[d]], written)
    else if LpLess(lc, prev[d], prev[s]) then
      if LpLess(lc, prev[d], p[s]) then
        (p[s := prev[d]], if c[s] == Unemitted then c[s := NeedEmit] else c, false)
      else (p, c, false)
    else (p, c, false)
  }

  /** A relaxation step only lowers labels and only raises flags. */
  lemma RelaxMonotone(lc: nat, prev: seq<nat>, p: seq<nat>, c: seq<nat>, e: Edge)
    requires |p| == |prev| && |c| == |prev| && e.src < |prev| && e.dst < |prev|
    ensures var r := Relax(lc, prev, p, c, e);
      forall v :: 0 <= v < |prev| ==> Rank(lc, r.0[v]) <= Rank(lc, p[v]) && r.1[v] >= c[v]
  {
  }

  /**
   * The first edgeMap pass: the functor applied to each edge in turn; the
   * output lists the targets for which it returned true.
   */
  function RelaxAll(lc: nat, prev: seq<nat>, p0: seq<nat>, c0: seq<nat>, es: seq<Edge>): (r: (seq<nat>, seq<nat>, seq<nat>))
    requires |p0| == |prev| && |c0| == |prev| && EdgesBelow(es, |prev|)
    ensures |r.0| == |prev| && |r.1| == |prev|
  {
    if es == [] then (p0, c0, [])
    else
      var k := |es| - 1;
      RelaxStep(lc, prev, RelaxAll(lc, prev, p0, c0, es[..k]), es[k])
  }

  /** One functor call inside edgeMap: relax the edge and add its target to the output when it returned true. */
  function RelaxStep(lc: nat, prev: seq<nat>, r: (seq<nat>, seq<nat>, seq<nat>), e: Edge): (r': (seq<nat>, seq<nat>, seq<nat>))
    requires |r.0| == |prev| && |r.1| == |prev| && e.src < |prev| && e.dst < |prev|
    ensures |r'.0| == |prev| && |r'.1| == |prev|
  {
    var r1 := Relax(lc, prev, r.0, r.1, e);
    (r1.0, r1.1, if r1.2 then r.2 + [e.dst] else r.2)
  }

  /** x is a label offered to v by one of the edges: a forward offer to the target or a reverse one to the source. */
  predicate Offered(lc: nat, prev: seq<nat>, e: Edge, v: nat, x: nat)
    requires e.src < |prev| && e.dst < |prev|
  {
    || (e.dst == v && LpLess(lc, prev[e.src], prev[e.dst]) && x == prev[e.src])
    || (e.src == v && LpLess(lc, prev[e.dst], prev[e.src]) && x == prev[e.dst])
  }

  /**
   * After the first pass, the label of v is the lp-minimum of its starting
   * label and every label offered to it: no offer is lp-smaller, and the
   * label is the starting one or one of the offers.
   */
  lemma {:induction false} RelaxAllLabel(lc: nat, prev: seq<nat>, p0: seq<nat>, c0: seq<nat>, es: seq<Edge>, v: nat)
    requires |p0| == |prev| && |c0| == |prev| && EdgesBelow(es, |prev|) && v < |prev|
    ensures var p := RelaxAll(lc, prev, p0, c0, es).0;
      && Rank(lc, p[v]) <= Rank(lc, p0[v])
      && (forall i, x :: 0 <= i < |es| && Offered(lc, prev, es[i], v, x) ==> Rank(lc, p[v]) <= Rank(lc, x))
      && (p[v] == p0[v] || exists i :: 0 <= i < |es| && Offered(lc, prev, es[i], v, p[v]))
  {
    if es != [] {
      var k := |es| - 1;
      var r0 := RelaxAll(lc, prev, p0, c0, es[..k]);
      RelaxAllLabel(lc, prev, p0, c0, es[..k], v);
      assert forall i :: 0 <= i < k ==> es[..k][i] == es[i];
      var p := RelaxAll(lc, prev, p0, c0, es).0;
      if p[v] != r0.0[v] {
        assert Offered(lc, prev, es[k], v, p[v]);
      } else if r0.0[v] != p0[v] {
        var i :| 0 <= i < k && Offered(lc, prev, es[..k][i], v, r0.0[v]);
        assert Offered(lc, prev, es[i], v, p[v]);
      }
    }
  }

  /**
   * The first pass's labels depend only on the set of edges processed, not
   * on their order (lp_less is total, so the lp-minimum is unique).
   */
  lemma RelaxAllOrderIndependent(lc: nat, prev: seq<nat>, p0: seq<nat>, c0: seq<nat>, es1: seq<Edge>, es2: seq<Edge>)
    requires |p0| == |prev| && |c0| == |prev| && EdgesBelow(es1, |prev|) && EdgesBelow(es2, |prev|)
    requires Elems(es1) == Elems(es2)
    ensures RelaxAll(lc, prev, p0, c0, es1).0 == RelaxAll(lc, prev, p0, c0, es2).0
  {
    var a, b := RelaxAll(lc, prev, p0, c0, es1).0, RelaxAll(lc, prev, p0, c0, es2).0;
    forall v | 0 <= v < |prev| ensures a[v] == b[v] {
      RelaxAllLabel(lc, prev, p0, c0, es1, v);
      RelaxAllLabel(lc, prev, p0, c0, es2, v);
      assert Rank(lc, a[v]) <= Rank(lc, b[v]) by {
        if b[v] != p0[v] {
          var i :| 0 <= i < |es2| && Offered(lc, prev, es2[i], v, b[v]);
          assert es2[i] in Elems(es1);
          var j :| 0 <= j < |es1| && es1[j] == es2[i];
        }
      }
      assert Rank(lc, b[v]) <= Rank(lc, a[v]) by {
        if a[v] != p0[v] {
          var i :| 0 <= i < |es1| && Offered(lc, prev, es1[i], v, a[v]);
          assert es1[i] in Elems(es2);
          var j :| 0 <= j < |es2| && es2[j] == es1[i];
        }
      }
    }
  }

  // ---------------------------------------------------------------------
  // The round invariant of the first pass
  // ---------------------------------------------------------------------

  /**
   * Labels after part of the first pass, from round-start labels `prev`:
   * they only went down, each is one of the round-start labels, and a vertex
   * is flagged exactly when its label went (strictly) down.
   */
  ghost predicate LabelsInv(lc: nat, prev: seq<nat>, p: seq<nat>, c: seq<nat>) {
    && |p| == |prev| && |c| == |prev|
    // the triggers avoid prev[v]: `p[v] in prev` names some prev[k], which must not re-trigger these
    && (forall v {:trigger p[v]} {:trigger c[v]} :: 0 <= v < |prev| ==>
          && Rank(lc, p[v]) <= Rank(lc, prev[v]) && p[v] in prev && c[v] <= Emitted
          && (c[v] != Unemitted ==> Rank(lc, p[v]) < Rank(lc, prev[v]))
          && (c[v] == Unemitted ==> p[v] == prev[v]))
  }

  /** The output so far lists, once each, exactly the vertices flagged emitted. */
  ghost predicate OutInv(c: seq<nat>, out: seq<nat>) {
    Distinct(out) && forall v :: v in out <==> 0 <= v < |c| && c[v] == Emitted
  }

  /** Only frontier vertices are flagged need_emit. */
  ghost predicate NeedInv(c: seq<nat>, frontier: set<nat>) {
    forall v :: 0 <= v < |c| && c[v] == NeedEmit ==> v in frontier
  }

  /** Every processed edge whose ends had different round-start labels has a flagged end. */
  ghost predicate EdgeInv(prev: seq<nat>, c: seq<nat>, es: seq<Edge>) {
    && |c| == |prev| && EdgesBelow(es, |prev|)
    && forall e :: e in es && prev[e.src] != prev[e.dst] ==> c[e.src] != Unemitted || c[e.dst] != Unemitted
  }

  /** What holds after the first pass has processed `es` from a round start. */
  ghost predicate PassInv(lc: nat, prev: seq<nat>, frontier: set<nat>, es: seq<Edge>, p: seq<nat>, c: seq<nat>, out: seq<nat>) {
    LabelsInv(lc, prev, p, c) && OutInv(c, out) && NeedInv(c, frontier) && EdgeInv(prev, c, es)
  }

  /**
   * What one relaxation does to a single vertex.  The target of a forward
   * offer takes the lp-min of its label and the offer and is raised to
   * emitted; the source of a reverse offer takes the lp-min too, and is
   * flagged need_emit when the offer won and it was unflagged; any other
   * vertex is untouched.  The functor returns true exactly for a forward
   * offer whose target was not yet flagged emitted; equal round-start labels
   * change nothing.
   */
  lemma RelaxAt(lc: nat, prev: seq<nat>, p: seq<nat>, c: seq<nat>, e: Edge, v: nat)
    requires |p| == |prev| && |c| == |prev| && e.src < |prev| && e.dst < |prev| && v < |prev|
    ensures var r := Relax(lc, prev, p, c, e);
      v == e.dst && LpLess(lc, prev[e.src], prev[e.dst]) ==>
        r.0[v] == LpMin(lc, p[v], prev[e.src]) && r.1[v] == (if c[v] < Emitted then Emitted else c[v])
    ensures var r := Relax(lc, prev, p, c, e);
      v == e.src && LpLess(lc, prev[e.dst], prev[e.src]) ==>
        r.0[v] == LpMin(lc, p[v], prev[e.dst])
        && r.1[v] == (if LpLess(lc, prev[e.dst], p[v]) && c[v] == Unemitted then NeedEmit else c[v])
    ensures var r := Relax(lc, prev, p, c, e);
      !(v == e.dst && LpLess(lc, prev[e.src], prev[e.dst])) && !(v == e.src && LpLess(lc, prev[e.dst], prev[e.src])) ==>
        r.0[v] == p[v] && r.1[v] == c[v]
    ensures Relax(lc, prev, p, c, e).2 <==> LpLess(lc, prev[e.src], prev[e.dst]) && c[e.dst] < Emitted
    ensures prev[e.src] == prev[e.dst] ==> Relax(lc, prev, p, c, e) == (p, c, false)
  {
  }

  lemma RelaxKeepsLabels(lc: nat, prev: seq<nat>, p: seq<nat>, c: seq<nat>, e: Edge)
    requires LabelsInv(lc, prev, p, c) && e.src < |prev| && e.dst < |prev|
    ensures var r := Relax(lc, prev, p, c, e); LabelsInv(lc, prev, r.0, r.1)
  {
    var r := Relax(lc, prev, p, c, e);
    forall v | 0 <= v < |prev|
      ensures Rank(lc, r.0[v]) <= Rank(lc, prev[v]) && r.0[v] in prev && r.1[v] <= Emitted
      ensures r.1[v] != Unemitted ==> Rank(lc, r.0[v]) < Rank(lc, prev[v])
      ensures r.1[v] == Unemitted ==> r.0[v] == prev[v]
    {
      RelaxAt(lc, prev, p, c, e, v);
    }
  }

  lemma RelaxKeepsOut(lc: nat, prev: seq<nat>, p: seq<nat>, c: seq<nat>, out: seq<nat>, e: Edge)
    requires |p| == |prev| && |c| == |prev| && e.src < |prev| && e.dst < |prev|
    requires OutInv(c, out)
    ensures var r := Relax(lc, prev, p, c, e); OutInv(r.1, if r.2 then out + [e.dst] else out)
  {
    var r := Relax(lc, prev, p, c, e);
    if r.2 {
      assert e.dst !in out;
      assert Distinct(out + [e.dst]);
    }
  }

  lemma RelaxKeepsNeed(lc: nat, prev: seq<nat>, p: seq<nat>, c: seq<nat>, frontier: set<nat>, e: Edge)
    requires |p| == |prev| && |c| == |prev| && e.src < |prev| && e.dst < |prev|
    requires NeedInv(c, frontier) && e.src in frontier
    ensures var r := Relax(lc, prev, p, c, e); NeedInv(r.1, frontier)
  {
  }

  lemma RelaxKeepsEdges(lc: nat, prev: seq<nat>, p: seq<nat>, c: seq<nat>, es: seq<Edge>, e: Edge)
    requires LabelsInv(lc, prev, p, c) && EdgeInv(prev, c, es) && e.src < |prev| && e.dst < |prev|
    ensures var r := Relax(lc, prev, p, c, e); EdgeInv(prev, r.1, es + [e])
  {
    var r := Relax(lc, prev, p, c, e);
    var es' := es + [e];
    assert EdgesBelow(es', |prev|) by {
      forall i | 0 <= i < |es'| ensures es'[i].src < |prev| && es'[i].dst < |prev| {
        if i < |es| {
          assert es'[i] == es[i];
        }
      }
    }
    RelaxMonotone(lc, prev, p, c, e);
    forall x | x in es' && prev[x.src] != prev[x.dst]
      ensures r.1[x.src] != Unemitted || r.1[x.dst] != Unemitted
    {
      if x != e {
        assert x in es;
      }
    }
  }

  /** One relaxation of an edge leaving the frontier keeps the pass invariant. */
  lemma RelaxKeepsPassInv(lc: nat, prev: seq<nat>, frontier: set<nat>, es: seq<Edge>, p: seq<nat>, c: seq<nat>, out: seq<nat>, e: Edge)
    requires PassInv(lc, prev, frontier, es, p, c, out)
    requires e.src < |prev| && e.dst < |prev| && e.src in frontier
    ensures var r := RelaxStep(lc, prev, (p, c, out), e);
      PassInv(lc, prev, frontier, es + [e], r.0, r.1, r.2)
  {
    RelaxKeepsLabels(lc, prev, p, c, e);
    RelaxKeepsOut(lc, prev, p, c, out, e);
    RelaxKeepsNeed(lc, prev, p, c, frontier, e);
    RelaxKeepsEdges(lc, prev, p, c, es, e);
  }

  /** The whole first pass, from a round start, ends in the pass invariant. */
  lemma {:induction false} RelaxAllPassInv(lc: nat, prev: seq<nat>, frontier: set<nat>, es: seq<Edge>)
    requires EdgesBelow(es, |prev|)
    requires forall i :: 0 <= i < |es| ==> es[i].src in frontier
    ensures var r := RelaxAll(lc, prev, prev, Zeros(|prev|), es);
      PassInv(lc, prev, frontier, es, r.0, r.1, r.2)
  {
    var z := Zeros(|prev|);
    if es == [] {
      assert LabelsInv(lc, prev, prev, z);
      assert OutInv(z, []);
    } else {
      var k := |es| - 1;
      var pre := es[..k];
      TakeSnoc(es);
      assert EdgesBelow(pre, |prev|);
      assert forall i :: 0 <= i < k ==> pre[i].src in frontier;
      RelaxAllPassInv(lc, prev, frontier, pre);
      var r0 := RelaxAll(lc, prev, prev, z, pre);
      RelaxKeepsPassInv(lc, prev, frontier, pre, r0.0, r0.1, r0.2, es[k]);
    }
  }

  // ---------------------------------------------------------------------
  // Frontiers and the end of a round
  // ---------------------------------------------------------------------

  /** The edges edgeMap visits: the graph's edges whose source is in the frontier, in graph order. */
  function FrontierEdges(graph: seq<Edge>, frontier: set<nat>): (r: seq<Edge>)
    ensures forall e :: e in r <==> e in graph && e.src in frontier
    ensures forall i :: 0 <= i < |r| ==> r[i].src in frontier
  {
    if graph == [] then []
    else
      var k := |graph| - 1;
      var r0 := FrontierEdges(graph[..k], frontier);
      assert forall e :: e in graph <==> e in graph[..k] || e == graph[k];
      if graph[k].src in frontier then r0 + [graph[k]] else r0
  }

  /** Edges of the graph stay inside 0..n after filtering. */
  lemma FrontierEdgesBelow(graph: seq<Edge>, frontier: set<nat>, n: nat)
    requires EdgesBelow(graph, n)
    ensures EdgesBelow(FrontierEdges(graph, frontier), n)
  {
    var r := FrontierEdges(graph, frontier);
    forall i | 0 <= i < |r| ensures r[i].src < n && r[i].dst < n {
      assert r[i] in graph;
      var j :| 0 <= j < |graph| && graph[j] == r[i];
    }
  }

  /** Every graph edge whose ends carry different labels has an end in the frontier. */
  predicate Disagreeing(graph: seq<Edge>, labels: seq<nat>, frontier: set<nat>) {
    forall e :: e in graph && e.src < |labels| && e.dst < |labels| && labels[e.src] != labels[e.dst]
      ==> e.src in frontier || e.dst in frontier
  }

  /**
   * The end of a round: with the next frontier made of the emitted vertices
   * and the frontier vertices flagged need_emit,
   * - every vertex outside it kept its label and has its flag clear;
   * - every vertex in it strictly lowered its label;
   * - every graph edge whose ends now disagree has an end in it.
   */
  lemma RoundEnd(lc: nat, graph: seq<Edge>, frontier: set<nat>, prev: seq<nat>, p: seq<nat>, c: seq<nat>, out: seq<nat>, next: set<nat>)
    requires EdgesBelow(graph, |prev|) && Symmetric(graph)
    requires PassInv(lc, prev, frontier, FrontierEdges(graph, frontier), p, c, out)
    requires Disagreeing(graph, prev, frontier)
    requires forall v :: v in next <==> v in out || (v in frontier && v < |c| && c[v] == NeedEmit)
    ensures forall v :: 0 <= v < |prev| && v !in next ==> c[v] == Unemitted && p[v] == prev[v]
    ensures forall v :: v in next ==> v < |prev| && Rank(lc, p[v]) < Rank(lc, prev[v])
    ensures Disagreeing(graph, p, next)
  {
  }

  /** The sum of the ranks of all labels: it falls every round that has a next frontier. */
  function RankSum(lc: nat, xs: seq<nat>): nat {
    if xs == [] then 0 else RankSum(lc, xs[..|xs| - 1]) + Rank(lc, xs[|xs| - 1])
  }

  /** Pointwise lower ranks give a lower sum, strictly lower when one is strictly lower. */
  lemma {:induction false} RankSumMonotone(lc: nat, a: seq<nat>, b: seq<nat>, j: nat)
    requires |a| == |b| && forall i :: 0 <= i < |a| ==> Rank(lc, a[i]) <= Rank(lc, b[i])
    ensures RankSum(lc, a) <= RankSum(lc, b)
    ensures j < |a| && Rank(lc, a[j]) < Rank(lc, b[j]) ==> RankSum(lc, a) < RankSum(lc, b)
  {
    if a != [] {
      var k := |a| - 1;
      RankSumMonotone(lc, a[..k], b[..k], j);
    }
  }

  // ---------------------------------------------------------------------
  // The second pass: witness edges
  // ---------------------------------------------------------------------

  /**
   * LabelProp_F_2::updateAtomic on (s, d): when the two round-start labels
   * differ and the lp-smaller one is now the label of the other end, that
   * end's slot records (s, d).
   */
  function Witness(lc: nat, prev: seq<nat>, p: seq<nat>, slots: seq<Slot>, e: Edge): (r: seq<Slot>)
    requires |p| == |prev| && |slots| == |prev| && e.src < |prev| && e.dst < |prev|
    ensures |r| == |slots|
  {
    var s, d := e.src, e.dst;
    if LpLess(lc, prev[s], prev[d]) then
      if p[d] == prev[s] then slots[d := Claimed(e)] else slots
    else if LpLess(lc, prev[d], prev[s]) then
      if p[s] == prev[d] then slots[s := Claimed(e)] else slots
    else slots
  }

  /** The second edgeMap pass (no_output): the witness step applied to each edge in turn. */
  function WitnessAll(lc: nat, prev: seq<nat>, p: seq<nat>, slots: seq<Slot>, es: seq<Edge>): (r: seq<Slot>)
    requires |p| == |prev| && |slots| == |prev| && EdgesBelow(es, |prev|)
    ensures |r| == |slots|
  {
    if es == [] then slots
    else
      var k := |es| - 1;
      Witness(lc, prev, p, WitnessAll(lc, prev, p, slots, es[..k]), es[k])
  }

  /** Every filled slot holds an edge of the graph that touches the slot's vertex. */
  predicate ClaimsOk(graph: seq<Edge>, slots: seq<Slot>) {
    forall v :: 0 <= v < |slots| && slots[v].Claimed? ==>
      slots[v].edge in graph && (slots[v].edge.src == v || slots[v].edge.dst == v)
  }

  /** The second pass over graph edges only fills slots with edges of the graph that touch them. */
  lemma {:induction false} WitnessAllClaims(lc: nat, graph: seq<Edge>, prev: seq<nat>, p: seq<nat>, slots: seq<Slot>, es: seq<Edge>)
    requires |p| == |prev| && |slots| == |prev| && EdgesBelow(es, |prev|)
    requires forall e :: e in es ==> e in graph
    requires ClaimsOk(graph, slots)
    ensures ClaimsOk(graph, WitnessAll(lc, prev, p, slots, es))
  {
    if es != [] {
      var k := |es| - 1;
      assert EdgesBelow(es[..k], |prev|);
      assert forall e :: e in es[..k] ==> e in es;
      WitnessAllClaims(lc, graph, prev, p, slots, es[..k]);
      assert es[k] in es;
    }
  }

  /** Some edge of es offered v the label x. */
  predicate OfferedBy(lc: nat, prev: seq<nat>, es: seq<Edge>, v: nat, x: nat)
    requires EdgesBelow(es, |prev|)
  {
    exists i :: 0 <= i < |es| && Offered(lc, prev, es[i], v, x)
  }

  /**
   * The slot records an edge of es that offered v the label x: an edge
   * touching v whose other end's round-start label is x, lp-smaller than v's.
   */
  predicate Records(lc: nat, prev: seq<nat>, es: seq<Edge>, slot: Slot, v: nat, x: nat) {
    && slot.Claimed? && slot.edge in es
    && slot.edge.src < |prev| && slot.edge.dst < |prev|
    && Offered(lc, prev, slot.edge, v, x)
  }

  /** One witness step claims v's slot exactly when its edge offered v v's current label. */
  lemma WitnessAt(lc: nat, prev: seq<nat>, p: seq<nat>, slots: seq<Slot>, e: Edge, v: nat)
    requires |p| == |prev| && |slots| == |prev| && e.src < |prev| && e.dst < |prev| && v < |prev|
    ensures Witness(lc, prev, p, slots, e)[v] == if Offered(lc, prev, e, v, p[v]) then Claimed(e) else slots[v]
  {
  }

  /**
   * After the second pass, the slot of every vertex that some edge offered
   * its current label records such an edge; every other slot is unchanged.
   */
  lemma {:induction false} WitnessAllRecords(lc: nat, prev: seq<nat>, p: seq<nat>, slots: seq<Slot>, es: seq<Edge>, v: nat)
    requires |p| == |prev| && |slots| == |prev| && EdgesBelow(es, |prev|) && v < |prev|
    ensures OfferedBy(lc, prev, es, v, p[v]) ==> Records(lc, prev, es, WitnessAll(lc, prev, p, slots, es)[v], v, p[v])
    ensures !OfferedBy(lc, prev, es, v, p[v]) ==> WitnessAll(lc, prev, p, slots, es)[v] == slots[v]
  {
    if es != [] {
      var k := |es| - 1;
      var pre := es[..k];
      assert EdgesBelow(pre, |prev|);
      WitnessAllRecords(lc, prev, p, slots, pre, v);
      var w0 := WitnessAll(lc, prev, p, slots, pre);
      WitnessAt(lc, prev, p, w0, es[k], v);
      assert OfferedBy(lc, prev, es, v, p[v]) <==> OfferedBy(lc, prev, pre, v, p[v]) || Offered(lc, prev, es[k], v, p[v]) by {
        if OfferedBy(lc, prev, es, v, p[v]) && !Offered(lc, prev, es[k], v, p[v]) {
          var i :| 0 <= i < |es| && Offered(lc, prev, es[i], v, p[v]);
          assert pre[i] == es[i];
        }
        if OfferedBy(lc, prev, pre, v, p[v]) {
          var i :| 0 <= i < |pre| && Offered(lc, prev, pre[i], v, p[v]);
          assert es[i] == pre[i];
        }
      }
      if w0[v].Claimed? && w0[v].edge in pre {
        var i :| 0 <= i < |pre| && pre[i] == w0[v].edge;
        assert es[i] == w0[v].edge;
      }
      assert es[k] in es;
    }
  }

  /**
   * The two passes together: every vertex whose label dropped in the first
   * pass has, after the second, a slot recording an edge of the pass that
   * delivered its new label.
   */
  lemma WitnessAfterRelax(lc: nat, prev: seq<nat>, c0: seq<nat>, slots: seq<Slot>, es: seq<Edge>, v: nat)
    requires |c0| == |prev| && |slots| == |prev| && EdgesBelow(es, |prev|) && v < |prev|
    ensures var p := RelaxAll(lc, prev, prev, c0, es).0;
      p[v] != prev[v] ==> Records(lc, prev, es, WitnessAll(lc, prev, p, slots, es)[v], v, p[v])
  {
    var p := RelaxAll(lc, prev, prev, c0, es).0;
    RelaxAllLabel(lc, prev, prev, c0, es, v);
    WitnessAllRecords(lc, prev, p, slots, es, v);
  }

  // ---------------------------------------------------------------------
  // The functors
  // ---------------------------------------------------------------------

  /** LabelProp_F: the label-relaxing functor over the shared PrevParents, Parents and changed arrays. */
  class LabelPropF {
    const lc: nat
    const PrevParents: array<nat>
    const Parents: array<nat>
    const changed: array<nat>

    ghost predicate Valid()
      reads this
    {
      && PrevParents.Length == Parents.Length == changed.Length
      && PrevParents != Parents && PrevParents != changed && Parents != changed
    }

    constructor(lc: nat, PrevParents: array<nat>, Parents: array<nat>, changed: array<nat>)
      requires PrevParents.Length == Parents.Length == changed.Length
      requires PrevParents != Parents && PrevParents != changed && Parents != changed
      ensures Valid()
      ensures this.lc == lc && this.PrevParents == PrevParents && this.Parents == Parents && this.changed == changed
    {
      this.lc := lc;
      this.PrevParents := PrevParents;
      this.Parents := Parents;
      this.changed := changed;
    }

    /**
     * updateAtomic(s, d): forward case write_min's the source's round-start
     * label into Parents[d] and marks d emitted, returning whether the mark
     * was new; reverse case lowers Parents[s] and, when that wrote and s was
     * unmarked, marks s need_emit; it returns false.
     */
    method UpdateAtomic(s: nat, d: nat) returns (r: bool)
      requires Valid() && s < Parents.Length && d < Parents.Length
      modifies Parents, changed
      ensures (Parents[..], changed[..], r)
        == Relax(lc, PrevParents[..], old(Parents[..]), old(changed[..]), Edge(s, d))
    {
      var less := (u: nat, v: nat) => LpLess(lc, u, v);
      ghost var prev, p, c := PrevParents[..], Parents[..], changed[..];
      if LpLess(lc, PrevParents[s], PrevParents[d]) {
        var _ := WriteMin(Parents, d, PrevParents[s], less);
        r := WriteMin(changed, d, Emitted, (x: nat, y: nat) => x > y);
      } else if LpLess(lc, PrevParents[d], PrevParents[s]) {
        var w := WriteMin(Parents, s, PrevParents[d], less);
        assert w == LpLess(lc, prev[d], p[s]);
        assert Parents[..] == if w then p[s := prev[d]] else p;
        if w {
          if changed[s] == Unemitted {
            var _ := WriteMin(changed, s, NeedEmit, (x: nat, y: nat) => x > y);
          }
        }
        r := false;
      } else {
        r := false;
      }
    }
  }

  /** LabelProp_F_2: the witness functor over PrevParents, Parents and Edges. */
  class LabelPropWitnessF {
    const lc: nat
    const PrevParents: array<nat>
    const Parents: array<nat>
    const Edges: array<Slot>

    ghost predicate Valid()
      reads this
    {
      PrevParents.Length == Parents.Length == Edges.Length
    }

    constructor(lc: nat, PrevParents: array<nat>, Parents: array<nat>, Edges: array<Slot>)
      requires PrevParents.Length == Parents.Length == Edges.Length
      ensures Valid()
      ensures this.lc == lc && this.PrevParents == PrevParents && this.Parents == Parents && this.Edges == Edges
    {
      this.lc := lc;
      this.PrevParents := PrevParents;
      this.Parents := Parents;
      this.Edges := Edges;
    }

    /** updateAtomic(s, d): claims the slot of the end that took the other end's label; returns false. */
    method UpdateAtomic(s: nat, d: nat) returns (r: bool)
      requires Valid() && s < Parents.Length && d < Parents.Length
      modifies Edges
      ensures Edges[..] == Witness(lc, PrevParents[..], Parents[..], old(Edges[..]), Edge(s, d))
      ensures !r
    {
      if LpLess(lc, PrevParents[s], PrevParents[d]) {
        if Parents[d] == PrevParents[s] {
          var prevEdge := Edges[d];
          var _ := CompareAndSwap(Edges, d, prevEdge, Claimed(Edge(s, d)));
        }
      } else if LpLess(lc, PrevParents[d], PrevParents[s]) {
        if Parents[s] == PrevParents[d] {
          var prevEdge := Edges[s];
          var _ := CompareAndSwap(Edges, s, prevEdge, Claimed(Edge(s, d)));
        }
      }
      r := false;
    }
  }

  // ---------------------------------------------------------------------
  // edgeMap over the frontier's edges
  // ---------------------------------------------------------------------

  /** edgeMap with LabelProp_F: the functor on each edge in turn, collecting the targets it returned true for. */
  method EdgeMapRelax(F: LabelPropF, es: seq<Edge>) returns (out: seq<nat>)
    requires F.Valid() && EdgesBelow(es, F.Parents.Length)
    modifies F.Parents, F.changed
    ensures (F.Parents[..], F.changed[..], out)
      == RelaxAll(F.lc, F.PrevParents[..], old(F.Parents[..]), old(F.changed[..]), es)
  {
    ghost var p0, c0 := F.Parents[..], F.changed[..];
    out := [];
    for i := 0 to |es|
      invariant EdgesBelow(es[..i], F.Parents.Length)
      invariant (F.Parents[..], F.changed[..], out) == RelaxAll(F.lc, F.PrevParents[..], p0, c0, es[..i])
    {
      assert es[..i + 1][..i] == es[..i];
      var r := F.UpdateAtomic(es[i].src, es[i].dst);
      if r {
        out := out + [es[i].dst];
      }
    }
    assert es[..|es|] == es;
  }

  /** edgeMap with LabelProp_F_2 and no_output: the witness functor on each edge in turn. */
  method EdgeMapWitness(G: LabelPropWitnessF, es: seq<Edge>)
    requires G.Valid() && EdgesBelow(es, G.Parents.Length)
    modifies G.Edges
    ensures G.Edges[..] == WitnessAll(G.lc, G.PrevParents[..], G.Parents[..], old(G.Edges[..]), es)
  {
    ghost var e0 := G.Edges[..];
    for i := 0 to |es|
      invariant EdgesBelow(es[..i], G.Parents.Length)
      invariant G.Edges[..] == WitnessAll(G.lc, G.PrevParents[..], G.Parents[..], e0, es[..i])
    {
      assert es[..i + 1][..i] == es[..i];
      var _ := G.UpdateAtomic(es[i].src, es[i].dst);
    }
    assert es[..|es|] == es;
  }

  // ---------------------------------------------------------------------
  // One round
  // ---------------------------------------------------------------------

  /** The ids of a sparse list (this_vs). */
  function IdsOf<T>(s: seq<(nat, T)>): (r: seq<nat>)
    ensures |r| == |s| && forall i :: 0 <= i < |s| ==> r[i] == s[i].0
  {
    seq(|s|, i requires 0 <= i < |s| => s[i].0)
  }

  /** pbbs::filter of the ids whose flag is need_emit, in order. */
  function NeedEmitted(ids: seq<nat>, c: seq<nat>): (r: seq<nat>)
    requires forall i :: 0 <= i < |ids| ==> ids[i] < |c|
    ensures forall v :: v in r <==> v in ids && c[v] == NeedEmit
    ensures Distinct(ids) ==> Distinct(r)
  {
    if ids == [] then []
    else
      var k := |ids| - 1;
      var r0 := NeedEmitted(ids[..k], c);
      assert forall v :: v in ids <==> v in ids[..k] || v == ids[k];
      if c[ids[k]] == NeedEmit then r0 + [ids[k]] else r0
  }

  /**
   * The need_emit step of a round: switch the frontier to sparse and keep
   * its members whose flag is need_emit.
   */
  method EmitNeeded(vs: VertexSubset, changed: array<nat>) returns (newVtxs: seq<nat>)
    requires vs.Valid() && vs.n == changed.Length
    modifies vs
    ensures vs.Valid() && vs.Contents() == old(vs.Contents())
    ensures Distinct(newVtxs)
    ensures forall v :: v in newVtxs <==> v in vs.Contents() && changed[v] == NeedEmit
  {
    vs.ToSparse();
    var sm := vs.s[..vs.Size()];
    SparseKeys(sm);
    var thisVs := IdsOf(sm);
    assert Distinct(thisVs);
    newVtxs := NeedEmitted(thisVs, changed[..]);
  }

  /**
   * The vertexMap at the end of a round: every member u of the new frontier
   * gets PrevParents[u] = Parents[u] and changed[u] = unemitted.
   */
  method ResetFrontier(vs: VertexSubset, PrevParents: array<nat>, Parents: array<nat>, changed: array<nat>)
    requires vs.Valid() && vs.n == PrevParents.Length == Parents.Length == changed.Length
    requires PrevParents != Parents && PrevParents != changed && Parents != changed
    modifies PrevParents, changed
    ensures forall v :: 0 <= v < Parents.Length ==>
      PrevParents[v] == (if v in vs.Contents() then Parents[v] else old(PrevParents[v]))
    ensures forall v :: 0 <= v < Parents.Length ==>
      changed[v] == (if v in vs.Contents() then Unemitted else old(changed[v]))
  {
    var calls := VertexMap(vs);
    forall i | 0 <= i < |calls| ensures calls[i].0 < Parents.Length {
      SparseLookup(calls, i);
    }
    SparseKeys(calls);
    ResetEach(calls, PrevParents, Parents, changed);
  }

  /** The body of the reset vertexMap, applied to each id of the trace in turn. */
  method ResetEach(calls: seq<(nat, ())>, PrevParents: array<nat>, Parents: array<nat>, changed: array<nat>)
    requires PrevParents.Length == Parents.Length == changed.Length && IdsBelow(calls, Parents.Length)
    requires PrevParents != Parents && PrevParents != changed && Parents != changed
    modifies PrevParents, changed
    ensures forall v :: 0 <= v < Parents.Length ==>
      PrevParents[v] == (if exists j :: 0 <= j < |calls| && calls[j].0 == v then Parents[v] else old(PrevParents[v]))
    ensures forall v :: 0 <= v < Parents.Length ==>
      changed[v] == (if exists j :: 0 <= j < |calls| && calls[j].0 == v then Unemitted else old(changed[v]))
  {
    ghost var done: set<nat> := {};
    for i := 0 to |calls|
      invariant forall v :: v in done <==> exists j :: 0 <= j < i && calls[j].0 == v
      invariant forall v :: 0 <= v < Parents.Length ==>
        PrevParents[v] == (if v in done then Parents[v] else old(PrevParents[v]))
      invariant forall v :: 0 <= v < Parents.Length ==>
        changed[v] == (if v in done then Unemitted else old(changed[v]))
    {
      var u := calls[i].0;
      PrevParents[u] := Parents[u];
      changed[u] := Unemitted;
      done := done + {u};
    }
  }

  /**
   * Labels `b` against earlier labels `a`: none went lp-up, and each is one
   * of the earlier labels.
   */
  ghost predicate Lowered(lc: nat, a: seq<nat>, b: seq<nat>) {
    && |a| == |b|
    // the trigger avoids a[v]: `b[v] in a` names some a[k], which must not re-trigger this
    && forall v {:trigger b[v]} :: 0 <= v < |b| ==> Rank(lc, b[v]) <= Rank(lc, a[v]) && b[v] in a
  }

  /** Lowering is transitive. */
  lemma LoweredTrans(lc: nat, a: seq<nat>, b: seq<nat>, c: seq<nat>)
    requires Lowered(lc, a, b) && Lowered(lc, b, c)
    ensures Lowered(lc, a, c)
  {
    forall v | 0 <= v < |c| ensures Rank(lc, c[v]) <= Rank(lc, a[v]) && c[v] in a {
      var k :| 0 <= k < |b| && b[k] == c[v];
      assert b[k] in a;
    }
  }

  /**
   * The state at the start of every round, on the arrays' contents: the
   * round-start labels are the labels, no flag is set, every disagreeing
   * graph edge touches the frontier, and the filled slots are sound.
   */
  ghost predicate RoundState(graph: seq<Edge>, prev: seq<nat>, p: seq<nat>, c: seq<nat>, slots: seq<Slot>, frontier: set<nat>) {
    && |prev| == |p| && |c| == |p| && |slots| == |p|
    && EdgesBelow(graph, |p|) && Symmetric(graph)
    && prev == p && c == Zeros(|p|)
    && Disagreeing(graph, p, frontier)
    && ClaimsOk(graph, slots)
  }

  /** The state at the start of every round. */
  ghost predicate RoundStart(graph: seq<Edge>, vs: VertexSubset, PrevParents: array<nat>, Parents: array<nat>, changed: array<nat>, Edges: array<Slot>)
    reads vs, PrevParents, Parents, changed, Edges
  {
    && vs.Valid() && vs.n == Parents.Length
    && PrevParents != Parents && PrevParents != changed && Parents != changed
    && RoundState(graph, PrevParents[..], Parents[..], changed[..], Edges[..], vs.Contents().Keys)
  }

  /**
   * The first edgeMap of a round (LabelProp_F over the frontier's edges),
   * from a round start: it ends in the pass invariant.
   */
  method RelaxPass(lc: nat, es: seq<Edge>, ghost frontier: set<nat>, PrevParents: array<nat>, Parents: array<nat>, changed: array<nat>)
    returns (out: seq<nat>)
    requires PrevParents.Length == Parents.Length == changed.Length
    requires PrevParents != Parents && PrevParents != changed && Parents != changed
    requires PrevParents[..] == Parents[..] && changed[..] == Zeros(Parents.Length)
    requires EdgesBelow(es, Parents.Length) && forall i :: 0 <= i < |es| ==> es[i].src in frontier
    modifies Parents, changed
    ensures Parents[..] == RelaxAll(lc, old(Parents[..]), old(Parents[..]), Zeros(Parents.Length), es).0
    ensures PassInv(lc, old(Parents[..]), frontier, es, Parents[..], changed[..], out)
  {
    var F := new LabelPropF(lc, PrevParents, Parents, changed);
    out := EdgeMapRelax(F, es);
    RelaxAllPassInv(lc, old(Parents[..]), frontier, es);
  }

  /**
   * The second edgeMap of a round (LabelProp_F_2, no_output): the slot of
   * every vertex that an edge offered its current label records such an
   * edge, every other slot is kept, and the slots stay sound.
   */
  method WitnessPass(lc: nat, graph: seq<Edge>, es: seq<Edge>, PrevParents: array<nat>, Parents: array<nat>, Edges: array<Slot>)
    requires PrevParents.Length == Parents.Length == Edges.Length
    requires EdgesBelow(es, Parents.Length) && forall e :: e in es ==> e in graph
    requires ClaimsOk(graph, Edges[..])
    modifies Edges
    ensures Edges[..] == WitnessAll(lc, PrevParents[..], Parents[..], old(Edges[..]), es)
    ensures forall v :: 0 <= v < Edges.Length ==>
      if OfferedBy(lc, PrevParents[..], es, v, Parents[v]) then Records(lc, PrevParents[..], es, Edges[v], v, Parents[v])
      else Edges[v] == old(Edges[v])
    ensures ClaimsOk(graph, Edges[..])
    ensures KeepsClaims(old(Edges[..]), Edges[..])
  {
    var G := new LabelPropWitnessF(lc, PrevParents, Parents, Edges);
    EdgeMapWitness(G, es);
    WitnessAllClaims(lc, graph, PrevParents[..], Parents[..], old(Edges[..]), es);
    forall v | 0 <= v < Edges.Length
      ensures if OfferedBy(lc, PrevParents[..], es, v, Parents[v]) then Records(lc, PrevParents[..], es, Edges[v], v, Parents[v])
              else Edges[v] == old(Edges[v])
    {
      WitnessAllRecords(lc, PrevParents[..], Parents[..], old(Edges[..]), es, v);
    }
  }

  /** edgeMap's output as a sparse vertex subset. */
  method OutputFrontier(n: nat, out: seq<nat>) returns (next: VertexSubset)
    requires Distinct(out) && forall v :: v in out ==> v < n
    ensures fresh(next) && next.Valid() && next.n == n && !next.isDense && |next.d| == 0
    ensures next.Contents().Keys == Elems(out)
  {
    UnitIdsKeys(out);
    forall i | 0 <= i < |out| ensures UnitIds(out)[i].0 < n {
      assert out[i] in out;
    }
    next := new VertexSubsetData<()>.FromSparse(n, UnitIds(out));
  }

  /**
   * The next frontier: edgeMap's output (the emitted vertices) extended by
   * add_to_vsubset with the frontier's need_emit vertices.
   */
  method NextFrontier(vs: VertexSubset, changed: array<nat>, out: seq<nat>) returns (next: VertexSubset)
    requires vs.Valid() && vs.n == changed.Length
    requires OutInv(changed[..], out)
    modifies vs
    ensures fresh(next) && next.Valid() && next.n == vs.n
    ensures vs.Valid() && vs.Contents() == old(vs.Contents())
    ensures forall v :: v in next.Contents() <==> v in out || (v in vs.Contents() && changed[v] == NeedEmit)
  {
    var n := vs.n;
    var newVtxs := EmitNeeded(vs, changed);
    next := OutputFrontier(n, out);
    forall i | 0 <= i < |newVtxs| ensures newVtxs[i] < n && newVtxs[i] !in next.Contents() {
      assert newVtxs[i] in newVtxs;
    }
    AddToVsubset(next, newVtxs);
  }

  /**
   * After the reset vertexMap over the next frontier, the arrays are back
   * in the round-start shape: the vertices outside it kept their label and
   * a clear flag, and those inside had both refreshed.  The labels only went
   * lp-down, strictly so on the next frontier and nowhere else.
   */
  lemma RoundCloses(lc: nat, graph: seq<Edge>, frontier: set<nat>, prev: seq<nat>, p: seq<nat>, c: seq<nat>, out: seq<nat>,
                    next: set<nat>, prev': seq<nat>, c': seq<nat>, slots: seq<Slot>)
    requires RoundState(graph, prev, prev, Zeros(|prev|), slots, frontier)
    requires PassInv(lc, prev, frontier, FrontierEdges(graph, frontier), p, c, out)
    requires forall v :: v in next <==> v in out || (v in frontier && v < |c| && c[v] == NeedEmit)
    requires |prev'| == |p| && |c'| == |p|
    requires forall v :: 0 <= v < |p| ==> prev'[v] == (if v in next then p[v] else prev[v])
    requires forall v :: 0 <= v < |p| ==> c'[v] == (if v in next then Unemitted else c[v])
    ensures RoundState(graph, prev', p, c', slots, next)
    ensures Lowered(lc, prev, p)
    ensures forall v :: v in next ==> v < |p| && Rank(lc, p[v]) < Rank(lc, prev[v])
    ensures forall v :: 0 <= v < |p| && v !in next ==> p[v] == prev[v]
  {
    RoundEnd(lc, graph, frontier, prev, p, c, out, next);
    assert prev' == p;
    assert c' == Zeros(|p|);
  }

  /**
   * Every vertex whose label moved from prev to p has a slot recording an
   * edge of es that delivered its new label.
   */
  predicate Witnessed(lc: nat, prev: seq<nat>, p: seq<nat>, slots: seq<Slot>, es: seq<Edge>) {
    && |p| == |prev| && |slots| == |prev|
    && forall v :: 0 <= v < |prev| && p[v] != prev[v] ==> Records(lc, prev, es, slots[v], v, p[v])
  }

  /**
   * When the second pass has recorded an offering edge for every vertex
   * offered its label, every vertex whose label dropped in the first pass is
   * witnessed.
   */
  lemma PassesWitnessed(lc: nat, prev: seq<nat>, es: seq<Edge>, p: seq<nat>, slots: seq<Slot>)
    requires |slots| == |prev| && EdgesBelow(es, |prev|)
    requires p == RelaxAll(lc, prev, prev, Zeros(|prev|), es).0
    requires forall v :: 0 <= v < |prev| && OfferedBy(lc, prev, es, v, p[v]) ==> Records(lc, prev, es, slots[v], v, p[v])
    ensures Witnessed(lc, prev, p, slots, es)
  {
    forall v | 0 <= v < |prev| && p[v] != prev[v] ensures Records(lc, prev, es, slots[v], v, p[v]) {
      RelaxAllLabel(lc, prev, prev, Zeros(|prev|), es, v);
    }
  }

  /** A filled slot stays filled. */
  predicate KeepsClaims(before: seq<Slot>, after: seq<Slot>) {
    |after| == |before| && forall v :: 0 <= v < |before| && before[v].Claimed? ==> after[v].Claimed?
  }

  /**
   * The work of a round before the reset: both edgeMap passes over the
   * frontier's edges, the need_emit filter and add_to_vsubset.  The next
   * frontier holds the emitted vertices and the frontier's need_emit ones.
   */
  method RoundPasses(lc: nat, graph: seq<Edge>, vs: VertexSubset, PrevParents: array<nat>, Parents: array<nat>, changed: array<nat>, Edges: array<Slot>)
    returns (out: seq<nat>, next: VertexSubset)
    requires RoundStart(graph, vs, PrevParents, Parents, changed, Edges)
    modifies vs, Parents, changed, Edges
    ensures fresh(next) && next.Valid() && next.n == Parents.Length
    ensures vs.Valid() && vs.Contents() == old(vs.Contents())
    ensures PassInv(lc, old(Parents[..]), vs.Contents().Keys, FrontierEdges(graph, vs.Contents().Keys), Parents[..], changed[..], out)
    ensures ClaimsOk(graph, Edges[..])
    ensures Witnessed(lc, old(Parents[..]), Parents[..], Edges[..], FrontierEdges(graph, vs.Contents().Keys))
    ensures KeepsClaims(old(Edges[..]), Edges[..])
    ensures forall v :: v in next.Contents() <==> v in out || (v in vs.Contents() && changed[v] == NeedEmit)
  {
    var n := Parents.Length;
    ghost var frontier := vs.Contents().Keys;
    ghost var prev := Parents[..];
    var es := FrontierEdges(graph, vs.Contents().Keys);
    FrontierEdgesBelow(graph, frontier, n);
    out := RelaxPass(lc, es, frontier, PrevParents, Parents, changed);
    WitnessPass(lc, graph, es, PrevParents, Parents, Edges);
    PassesWitnessed(lc, prev, es, Parents[..], Edges[..]);
    next := NextFrontier(vs, changed, out);
  }

  /**
   * One iteration of compute_spanning_forest's loop: the passes, then the
   * reset vertexMap over the next frontier.  The next frontier is exactly
   * the vertices whose label went down in this round.
   */
  method Round(lc: nat, graph: seq<Edge>, vs: VertexSubset, PrevParents: array<nat>, Parents: array<nat>, changed: array<nat>, Edges: array<Slot>)
    returns (next: VertexSubset)
    requires RoundStart(graph, vs, PrevParents, Parents, changed, Edges)
    modifies vs, PrevParents, Parents, changed, Edges
    ensures fresh(next)
    ensures RoundStart(graph, next, PrevParents, Parents, changed, Edges)
    ensures Lowered(lc, old(Parents[..]), Parents[..])
    ensures forall v :: v in next.Contents() ==> v < Parents.Length && Rank(lc, Parents[v]) < Rank(lc, old(Parents[v]))
    ensures forall v :: 0 <= v < Parents.Length && v !in next.Contents() ==> Parents[v] == old(Parents[v])
    ensures Witnessed(lc, old(Parents[..]), Parents[..], Edges[..], FrontierEdges(graph, old(vs.Contents().Keys)))
    ensures KeepsClaims(old(Edges[..]), Edges[..])
  {
    ghost var prev := Parents[..];
    ghost var frontier := vs.Contents().Keys;
    var out;
    out, next := RoundPasses(lc, graph, vs, PrevParents, Parents, changed, Edges);
    ghost var p, c, w := Parents[..], changed[..], Edges[..];
    assert Witnessed(lc, prev, p, w, FrontierEdges(graph, frontier));
    ghost var keys := next.Contents().Keys;
    ResetFrontier(next, PrevParents, Parents, changed);
    assert Parents[..] == p && Edges[..] == w;
    RoundCloses(lc, graph, frontier, prev, p, c, out, keys, PrevParents[..], changed[..], Edges[..]);
  }

  /** The sampling option: every vertex starts in the frontier, or those not labelled frequent_comp. */
  datatype SamplingOption = NoSampling | FrequentComp(comp: nat)

  /**
   * The initial frontier: every vertex, or with sampling every vertex whose
   * label is not frequent_comp.
   */
  function InitialFrontier(labels: seq<nat>, sampling: SamplingOption): (r: seq<(bool, ())>)
    ensures |r| == |labels|
    ensures forall v :: 0 <= v < |labels| ==> (r[v].0 <==> sampling.NoSampling? || labels[v] != sampling.comp)
  {
    seq(|labels|, i requires 0 <= i < |labels| => (sampling.NoSampling? || labels[i] != sampling.comp, ()))
  }

  /** At the start every disagreeing edge touches the initial frontier: both of its ends cannot carry frequent_comp. */
  lemma InitialDisagreeing(graph: seq<Edge>, labels: seq<nat>, sampling: SamplingOption, frontier: set<nat>)
    requires forall v :: 0 <= v < |labels| ==> (v in frontier <==> InitialFrontier(labels, sampling)[v].0)
    ensures Disagreeing(graph, labels, frontier)
  {
  }

  /**
   * The while loop of compute_spanning_forest: rounds run until the
   * frontier is empty.  Every round lowers some label or empties the
   * frontier, so the loop ends, and then no graph edge has disagreeing ends.
   * Every vertex whose label changed has a filled slot.
   */
  method RunRounds(lc: nat, graph: seq<Edge>, vs: VertexSubset, PrevParents: array<nat>, Parents: array<nat>, changed: array<nat>, Edges: array<Slot>)
    requires RoundStart(graph, vs, PrevParents, Parents, changed, Edges)
    modifies vs, PrevParents, Parents, changed, Edges
    ensures forall e :: e in graph ==> e.src < Parents.Length && e.dst < Parents.Length && Parents[e.src] == Parents[e.dst]
    ensures Lowered(lc, old(Parents[..]), Parents[..])
    ensures ClaimsOk(graph, Edges[..])
    ensures ChangedClaimed(old(Parents[..]), Parents[..], Edges[..])
  {
    var cur := vs;
    ghost var P0 := Parents[..];
    while !cur.IsEmpty()
      invariant cur == vs || fresh(cur)
      invariant RoundStart(graph, cur, PrevParents, Parents, changed, Edges)
      invariant Lowered(lc, P0, Parents[..])
      invariant ChangedClaimed(P0, Parents[..], Edges[..])
      decreases RankSum(lc, Parents[..]), cur.m
    {
      ghost var before, m0, w0 := Parents[..], cur.m, Edges[..];
      ghost var frontier := cur.Contents().Keys;
      cur := Round(lc, graph, cur, PrevParents, Parents, changed, Edges);
      RoundProgress(lc, P0, before, Parents[..], cur.Contents().Keys);
      ClaimsAccumulate(lc, P0, before, Parents[..], w0, Edges[..], FrontierEdges(graph, frontier));
    }
    Settled(graph, Parents[..]);
  }

  /**
   * A round keeps the labels lowered from the initial ones, and lowers the
   * rank sum strictly unless the next frontier is empty.
   */
  lemma RoundProgress(lc: nat, P0: seq<nat>, before: seq<nat>, after: seq<nat>, next: set<nat>)
    requires Lowered(lc, P0, before) && Lowered(lc, before, after)
    requires forall v :: v in next ==> v < |after| && Rank(lc, after[v]) < Rank(lc, before[v])
    ensures Lowered(lc, P0, after)
    ensures RankSum(lc, after) <= RankSum(lc, before)
    ensures next != {} ==> RankSum(lc, after) < RankSum(lc, before)
  {
    LoweredTrans(lc, P0, before, after);
    if next != {} {
      var v :| v in next;
      RankSumMonotone(lc, after, before, v);
    } else {
      RankSumMonotone(lc, after, before, 0);
    }
  }

  /** Every vertex whose label moved from P0 to p has a filled slot. */
  predicate ChangedClaimed(P0: seq<nat>, p: seq<nat>, slots: seq<Slot>) {
    |p| == |P0| && |slots| == |P0| && forall v :: 0 <= v < |P0| && p[v] != P0[v] ==> slots[v].Claimed?
  }

  /**
   * A vertex whose label changed since P0 has a filled slot after a round
   * that witnessed this round's changes and kept earlier claims.
   */
  lemma ClaimsAccumulate(lc: nat, P0: seq<nat>, before: seq<nat>, after: seq<nat>, w0: seq<Slot>, w1: seq<Slot>, es: seq<Edge>)
    requires ChangedClaimed(P0, before, w0)
    requires Witnessed(lc, before, after, w1, es) && KeepsClaims(w0, w1)
    ensures ChangedClaimed(P0, after, w1)
  {
  }

  /** With an empty frontier, every graph edge has equal labels at its two ends. */
  lemma Settled(graph: seq<Edge>, labels: seq<nat>)
    requires EdgesBelow(graph, |labels|) && Disagreeing(graph, labels, {})
    ensures forall e :: e in graph ==> e.src < |labels| && e.dst < |labels| && labels[e.src] == labels[e.dst]
  {
    forall e | e in graph ensures e.src < |labels| && e.dst < |labels| && labels[e.src] == labels[e.dst] {
      var i :| 0 <= i < |graph| && graph[i] == e;
    }
  }

  /**
   * compute_spanning_forest: the initial frontier, PrevParents and changed,
   * then the rounds.  It ends with equal labels at the two ends of every
   * edge, labels drawn from the initial ones and never lp-larger, Edges
   * slots holding only graph edges that touch their vertex, and a filled
   * slot for every vertex whose label changed.
   */
  method ComputeSpanningForest(lc: nat, graph: seq<Edge>, Parents: array<nat>, Edges: array<Slot>, sampling: SamplingOption)
    requires Edges.Length == Parents.Length && EdgesBelow(graph, Parents.Length) && Symmetric(graph)
    requires ClaimsOk(graph, Edges[..])
    modifies Parents, Edges
    ensures forall e :: e in graph ==> e.src < Parents.Length && e.dst < Parents.Length && Parents[e.src] == Parents[e.dst]
    ensures Lowered(lc, old(Parents[..]), Parents[..])
    ensures ClaimsOk(graph, Edges[..])
    ensures ChangedClaimed(old(Parents[..]), Parents[..], Edges[..])
  {
    var n := Parents.Length;
    var P0 := Parents[..];
    var vs := new VertexSubsetData<()>.FromDense(n, InitialFrontier(P0, sampling));
    InitialDisagreeing(graph, P0, sampling, vs.Contents().Keys);
    var PrevParents := new nat[n](i requires 0 <= i < n => P0[i]);
    var changed := new nat[n](_ => Unemitted);
    assert PrevParents[..] == Parents[..];
    assert changed[..] == Zeros(n);
    RunRounds(lc, graph, vs, PrevParents, Parents, changed, Edges);
  }

  /** The filled slots of Edges, in index order (the final pbbs::filter). */
  function ClaimedEdges(slots: seq<Slot>): (r: seq<Edge>)
    ensures |r| <= |slots|
    ensures forall e :: e in r <==> Claimed(e) in slots
  {
    if slots == [] then []
    else
      var k := |slots| - 1;
      var r0 := ClaimedEdges(slots[..k]);
      assert forall x :: x in slots <==> x in slots[..k] || x == slots[k];
      if slots[k].Claimed? then r0 + [slots[k].edge] else r0
  }

  /** random_permutation's result, given: every id below n exactly once. */
  predicate IsPermutation(perm: seq<nat>, n: nat) {
    |perm| == n && Distinct(perm) && forall i :: 0 <= i < n ==> perm[i] < n
  }

  /** The starting labels of SpanningForest: the given permutation, or the identity. */
  function InitialLabels(n: nat, permutation: Option<seq<nat>>): (r: seq<nat>)
    requires permutation.Some? ==> |permutation.value| == n
    ensures |r| == n
    ensures forall i :: 0 <= i < n ==> r[i] == if permutation.Some? then permutation.value[i] else i
  {
    if permutation.Some? then permutation.value else seq(n, i => i)
  }

  /**
   * SpanningForest: labels start as the identity (or the given permutation
   * when use_permutation is set), every slot empty_edge; after
   * compute_spanning_forest without sampling, the filled slots are returned.
   * The ghost results are the final labels and slots: the forest is exactly
   * the filled slots in vertex order, the labels are settled on every edge,
   * and every vertex whose label changed contributed an edge.
   */
  method SpanningForest(lc: nat, n: nat, graph: seq<Edge>, permutation: Option<seq<nat>>)
    returns (forest: seq<Edge>, ghost labels: seq<nat>, ghost slots: seq<Slot>)
    requires EdgesBelow(graph, n) && Symmetric(graph)
    requires permutation.Some? ==> IsPermutation(permutation.value, n)
    ensures |forest| <= n
    ensures forall e :: e in forest ==> e in graph
    ensures forest == ClaimedEdges(slots)
    ensures |labels| == n && |slots| == n && ClaimsOk(graph, slots)
    ensures forall e :: e in graph ==> labels[e.src] == labels[e.dst]
    ensures Lowered(lc, InitialLabels(n, permutation), labels)
    ensures ChangedClaimed(InitialLabels(n, permutation), labels, slots)
  {
    ghost var P0 := InitialLabels(n, permutation);
    var Parents: array<nat>;
    if permutation.Some? {
      var perm := permutation.value;
      Parents := new nat[n](i requires 0 <= i < n => perm[i]);
    } else {
      Parents := new nat[n](i => i);
    }
    var Edges := new Slot[n](_ => EmptyEdge);
    assert Parents[..] == P0;
    ComputeSpanningForest(lc, graph, Parents, Edges, NoSampling);
    forest := ClaimedEdges(Edges[..]);
    labels, slots := Parents[..], Edges[..];
    forall e | e in forest ensures e in graph {
      var v :| 0 <= v < n && Edges[v] == Claimed(e);
    }
  }
}
