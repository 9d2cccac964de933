/** `TSPApproximation.h`: the driver that loads the weight matrix, registers the initial cover of
    vertex-disjoint cycles, fuses cycles two or three at a time and finally reads the tour off
    the single cycle that is left. */
module Approximation {
  import opened Maps
  import opened CycleOrder
  import opened Graphs
  import opened Cycles
  import opened Registries
  import opened Loading

  /** The state of a cycle record, as a value. */
  ghost function RingOf(c: Cycle): (r: Ring)
    reads c
    ensures r.succ == c.edges && r.pred == c.inverseEdges && r.heavy == c.heavyEdges && r.order == c.order
  {
    Ring(c.edges, c.inverseEdges, c.heavyEdges, c.order)
  }

  /** The weight table of vertices `0 .. |edges| - 1`, filled row by row from the upper
      triangle of `edges`. */
  method LoadGraph(edges: seq<seq<int>>) returns (g: Graph)
    requires Shaped(edges)
    ensures fresh(g) && LoadedFrom(g.edges, edges)
  {
    g := EmptyTable(edges);
    var i := 0;
    while i < |edges|
      invariant 0 <= i <= |edges| && LoadedSoFar(g.edges, edges, i, i + 1)
    {
      LoadNextRow(g, edges, i);
      i := i + 1;
    }
    LoadDone(g.edges, edges);
  }

  /** The table before the loops: one empty row per vertex. */
  method EmptyTable(edges: seq<seq<int>>) returns (g: Graph)
    requires Shaped(edges)
    ensures fresh(g) && LoadedSoFar(g.edges, edges, 0, 1)
  {
    g := new Graph(|edges|);
    LoadStart(g.edges, edges);
  }

  /** One iteration of the outer loop of `LoadGraph`. */
  method LoadNextRow(g: Graph, edges: seq<seq<int>>, i: nat)
    requires i < |edges| && LoadedSoFar(g.edges, edges, i, i + 1)
    modifies g
    ensures LoadedSoFar(g.edges, edges, i + 1, i + 2)
  {
    ghost var loaded := g.edges;
    LoadRow(g, edges, i);
    RowLoaded(edges, loaded, i);
  }

  /** The inner loop of `LoadGraph`: stores the weights of row `i` right of the diagonal. */
  method LoadRow(g: Graph, edges: seq<seq<int>>, i: nat)
    requires Shaped(edges) && i < |edges| && g.edges.Keys == Range(|edges|)
    modifies g
    ensures g.edges == RowTable(edges, old(g.edges), i, |edges|)
  {
    ghost var t := g.edges;
    var j := i + 1;
    while j < |edges|
      invariant i + 1 <= j <= |edges| && g.edges == RowTable(edges, t, i, j)
    {
      RowTableNext(edges, t, i, j);
      g.AddEdge(i, j, edges[i][j]);
      j := j + 1;
    }
  }

  /** A complete table has a weight for every edge of a cycle through different vertices. */
  lemma CycleWeights(vs: seq<int>, w: map<int, map<int, int>>)
    requires Complete(w) && |vs| >= 2 && Distinct(vs) && Elems(vs) <= w.Keys
    ensures HasCycleWeights(vs, w)
  {
    forall i | 0 <= i < |vs| ensures HasWeightAt(vs, w, i) {
      var j := Next(i, |vs|);
      assert vs[i] in Elems(vs) && vs[j] in Elems(vs);
      assert vs[i] != vs[j];
    }
  }

  /** A record of the cycle through the distinct vertices of `cycle`, in that order. */
  method NewCycle(cycle: seq<int>, graph: Graph, ghost w: map<int, map<int, int>>) returns (c: Cycle, ghost r: Ring)
    requires w == graph.edges && Complete(w)
    requires |cycle| >= 2 && Distinct(cycle) && Elems(cycle) <= w.Keys
    ensures fresh(c) && RingOf(c) == r && RingOk(r, w)
    ensures r.order == cycle && r.succ.Keys == Elems(cycle)
  {
    CycleWeights(cycle, w);
    c := new Cycle(cycle, graph);
    r := RingOf(c);
  }

  /** `c.ChangeEdge(f, t, graph.GetEdgeWeight(f, t))`: `f` now leads to `t`, with the weight
      the table gives that edge. */
  method LinkTo(c: Cycle, graph: Graph, ghost w: map<int, map<int, int>>, ghost r: Ring, f: int, t: int)
    requires w == graph.edges && Complete(w) && RingOf(c) == r && RingOk(r, w)
    requires f in r.succ && f in w && t in w && f != t
    modifies c`edges, c`inverseEdges, c`heavyEdges
    ensures RingOf(c) == Ring(r.succ[f := t], Repointed(r.succ, r.pred, f, t), HeavyOf(r.succ[f := t], w), r.order)
  {
    var weight := graph.GetEdgeWeight(f, t);
    LinkWeighted(c, w, r, f, t, weight);
  }

  /** `c.ChangeEdge(f, t, weight)` where `weight` is the weight the table gives `f -> t`. */
  method LinkWeighted(c: Cycle, ghost w: map<int, map<int, int>>, ghost r: Ring, f: int, t: int, weight: int)
    requires RingOf(c) == r && r.heavy == HeavyOf(r.succ, w) && f in r.succ
    requires f in w && t in w[f] && weight == w[f][t]
    modifies c`edges, c`inverseEdges, c`heavyEdges
    ensures RingOf(c) == Ring(r.succ[f := t], Repointed(r.succ, r.pred, f, t), HeavyOf(r.succ[f := t], w), r.order)
  {
    ChangeEdgeHeavy(r.succ, w, f, t, weight);
    c.ChangeEdge(f, t, weight);
  }

  /** `c.ChangeEdge(f, t, 1)`: `f` now leads to `t` over an edge the table gives weight 1. */
  method LinkLight(c: Cycle, ghost w: map<int, map<int, int>>, ghost r: Ring, f: int, t: int)
    requires RingOf(c) == r && r.heavy == HeavyOf(r.succ, w) && f in r.succ && IsLight(w, f, t)
    modifies c`edges, c`inverseEdges, c`heavyEdges
    ensures RingOf(c) == Ring(r.succ[f := t], Repointed(r.succ, r.pred, f, t), HeavyOf(r.succ[f := t], w), r.order)
  {
    ChangeEdgeHeavy(r.succ, w, f, t, 1);
    c.ChangeEdge(f, t, 1);
  }

  /** The record work of `JoinTwoCyclesWithRoot`: for the connected edge `x -> y` of `child`
      (`x` on `child`, `y` on `root`), `y` is linked to `x` with weight 1, the predecessor `p` of
      `x` to the old successor of `y`, and `child` is united into `root`, which is then the one
      cycle `y -> x -> .. -> p -> ` (old successor of `y`) ` -> .. -> y`. */
  method FuseRoot2(root: Cycle, child: Cycle, graph: Graph, ghost w: map<int, map<int, int>>,
                   ghost r1: Ring, ghost r2: Ring, ghost x: int, ghost y: int)
    returns (ghost p: int, ghost r: Ring)
    requires root != child && w == graph.edges && Complete(w) && Symmetric(w)
    requires RingOf(root) == r1 && RingOf(child) == r2 && RingOk(r1, w) && RingOk(r2, w)
    requires r1.succ.Keys !! r2.succ.Keys && r1.succ.Keys <= w.Keys && r2.succ.Keys <= w.Keys
    requires child.connectedEdge == (x, y) && x in r2.succ && y in r1.succ && IsLight(w, x, y)
    modifies root`edges, root`inverseEdges, root`heavyEdges, root`order, child`edges, child`inverseEdges, child`heavyEdges
    ensures x in r2.pred && p == r2.pred[x] && p in r2.succ && r2.succ[p] == x
    ensures y in r1.order && p in r2.order
    ensures RingOf(root) == r && RingOk(r, w) && r.succ.Keys == r1.succ.Keys + r2.succ.Keys
    ensures r.succ == Splice2(r1.succ, r2.succ, y, p) && r.order == SpliceOrder2(r1.order, r2.order, y, p)
  {
    RingPredKeys(r2, w);
    LightBack(w, x, y);
    var e1 := child.GetConnectedEdge();
    var new1 := root.GetSecond(e1.1);
    SuccOutside(r1, r2, y, w);
    // The reads of `child` and the table do not depend on the change to `root`.
    var prev := child.GetPrev(e1.0);
    p := prev;
    var weight := graph.GetEdgeWeight(prev, new1);
    LinkLight(root, w, r1, e1.1, e1.0);
    LinkWeighted(child, w, r2, prev, new1, weight);
    r := Unite2(root, child, w, r1, r2, y, p);
  }

  /** The record work of `JoinThreeCyclesWithRoot`: for the connected edges `x1 -> y1` of `c1`
      and `x2 -> y2` of `c2`, where `y2` follows `y1` on `root`, `root` is then the one cycle
      `y1 -> x1 -> .. -> p1 -> ` (successor of `x2`) ` -> .. -> x2 -> y2 -> .. -> y1`, `p1` the
      predecessor of `x1`. */
  method FuseRoot3(root: Cycle, c1: Cycle, c2: Cycle, graph: Graph, ghost w: map<int, map<int, int>>,
                   ghost r0: Ring, ghost r1: Ring, ghost r2: Ring, ghost x1: int, ghost y1: int, ghost x2: int, ghost y2: int)
    returns (ghost p1: int, ghost r: Ring)
    requires root != c1 && root != c2 && c1 != c2 && w == graph.edges && Complete(w) && Symmetric(w)
    requires RingOf(root) == r0 && RingOf(c1) == r1 && RingOf(c2) == r2
    requires RingOk(r0, w) && RingOk(r1, w) && RingOk(r2, w)
    requires r0.succ.Keys !! r1.succ.Keys && r0.succ.Keys !! r2.succ.Keys && r1.succ.Keys !! r2.succ.Keys
    requires r1.succ.Keys <= w.Keys && r2.succ.Keys <= w.Keys
    requires c1.connectedEdge == (x1, y1) && c2.connectedEdge == (x2, y2)
    requires x1 in r1.succ && x2 in r2.succ && y1 in r0.succ && r0.succ[y1] == y2
    requires IsLight(w, x1, y1) && IsLight(w, x2, y2)
    modifies root`edges, root`inverseEdges, root`heavyEdges, root`order
    modifies c1`edges, c1`inverseEdges, c1`heavyEdges, c2`edges, c2`inverseEdges, c2`heavyEdges
    ensures p1 in r1.succ && r1.succ[p1] == x1
    ensures RingOf(root) == r && RingOk(r, w) && r.succ.Keys == r0.succ.Keys + r1.succ.Keys + r2.succ.Keys
    ensures r.succ == Splice3(r0.succ, r1.succ, r2.succ, y1, p1, x2)
    ensures r.order == SpliceOrder3(r0.order, r1.order, r2.order, y1, p1, x2)
  {
    p1 := Rewire3(root, c1, c2, graph, w, r0, r1, r2, x1, y1, x2, y2);
    r := Unite3(root, c1, c2, w, r0, r1, r2, y1, p1, x2);
  }

  /** The rewiring of `JoinThreeCyclesWithRoot`: for the connected edges `x1 -> y1` of `c1` and
      `x2 -> y2` of `c2`, where `y2` follows `y1` on `root`, `y1` is linked to `x1`, the
      predecessor `p1` of `x1` to the successor of `x2`, and `x2` to `y2`. */
  method Rewire3(root: Cycle, c1: Cycle, c2: Cycle, graph: Graph, ghost w: map<int, map<int, int>>,
                 ghost r0: Ring, ghost r1: Ring, ghost r2: Ring, ghost x1: int, ghost y1: int, ghost x2: int, ghost y2: int)
    returns (ghost p1: int)
    requires root != c1 && root != c2 && c1 != c2 && w == graph.edges && Complete(w) && Symmetric(w)
    requires RingOf(root) == r0 && RingOf(c1) == r1 && RingOf(c2) == r2
    requires RingOk(r0, w) && RingOk(r1, w) && RingOk(r2, w)
    requires r0.succ.Keys !! r1.succ.Keys && r0.succ.Keys !! r2.succ.Keys && r1.succ.Keys !! r2.succ.Keys
    requires r1.succ.Keys <= w.Keys && r2.succ.Keys <= w.Keys
    requires c1.connectedEdge == (x1, y1) && c2.connectedEdge == (x2, y2)
    requires x1 in r1.succ && x2 in r2.succ && y1 in r0.succ && r0.succ[y1] == y2
    requires IsLight(w, x1, y1) && IsLight(w, x2, y2)
    modifies root`edges, root`inverseEdges, root`heavyEdges
    modifies c1`edges, c1`inverseEdges, c1`heavyEdges, c2`edges, c2`inverseEdges, c2`heavyEdges
    ensures x1 in r1.pred && p1 == r1.pred[x1] && p1 in r1.succ && r1.succ[p1] == x1
    ensures RingOf(root) == Ring(r0.succ[y1 := x1], Repointed(r0.succ, r0.pred, y1, x1), HeavyOf(r0.succ[y1 := x1], w), r0.order)
    ensures RingOf(c1) == Ring(r1.succ[p1 := r2.succ[x2]], Repointed(r1.succ, r1.pred, p1, r2.succ[x2]),
                               HeavyOf(r1.succ[p1 := r2.succ[x2]], w), r1.order)
    ensures RingOf(c2) == Ring(r2.succ[x2 := y2], Repointed(r2.succ, r2.pred, x2, y2), HeavyOf(r2.succ[x2 := y2], w), r2.order)
  {
    RingPredKeys(r1, w);
    LightBack(w, x1, y1);
    var e1 := c1.GetConnectedEdge();
    var e2 := c2.GetConnectedEdge();
    // The reads of `c1`, `c2` and the table do not depend on the change to `root`.
    var new1 := c1.GetPrev(e1.0);
    var new2 := c2.GetSecond(e2.0);
    p1 := new1;
    SuccOutside(r2, r1, x2, w);
    var weight := graph.GetEdgeWeight(new1, new2);
    LinkLight(root, w, r0, e1.1, e1.0);
    LinkWeighted(c1, w, r1, new1, new2, weight);
    LinkLight(c2, w, r2, e2.0, e2.1);
  }

  /** The uniting of `JoinThreeCyclesWithRoot`: `c1` and then `c2` are united into `root`, which
      is then the one cycle `y1 -> x1 -> .. -> p1 -> ` (successor of `x2`) ` -> .. -> x2 -> y2 -> .. -> y1`. */
  method Unite3(root: Cycle, c1: Cycle, c2: Cycle, ghost w: map<int, map<int, int>>,
                ghost r0: Ring, ghost r1: Ring, ghost r2: Ring, ghost l0: int, ghost l1: int, ghost l2: int)
    returns (ghost r: Ring)
    requires root != c1 && root != c2 && c1 != c2
    requires RingOk(r0, w) && RingOk(r1, w) && RingOk(r2, w)
    requires r0.succ.Keys !! r1.succ.Keys && r0.succ.Keys !! r2.succ.Keys && r1.succ.Keys !! r2.succ.Keys
    requires l0 in r0.succ && l1 in r1.succ && l2 in r2.succ
    requires RingOf(root) == Ring(r0.succ[l0 := r1.succ[l1]], Repointed(r0.succ, r0.pred, l0, r1.succ[l1]),
                                  HeavyOf(r0.succ[l0 := r1.succ[l1]], w), r0.order)
    requires RingOf(c1) == Ring(r1.succ[l1 := r2.succ[l2]], Repointed(r1.succ, r1.pred, l1, r2.succ[l2]),
                                HeavyOf(r1.succ[l1 := r2.succ[l2]], w), r1.order)
    requires RingOf(c2) == Ring(r2.succ[l2 := r0.succ[l0]], Repointed(r2.succ, r2.pred, l2, r0.succ[l0]),
                                HeavyOf(r2.succ[l2 := r0.succ[l0]], w), r2.order)
    modifies root`edges, root`inverseEdges, root`heavyEdges, root`order
    ensures l0 in r0.order && l1 in r1.order && l2 in r2.order
    ensures RingOf(root) == r && RingOk(r, w) && r.succ.Keys == r0.succ.Keys + r1.succ.Keys + r2.succ.Keys
    ensures r.succ == Splice3(r0.succ, r1.succ, r2.succ, l0, l1, l2)
    ensures r.order == SpliceOrder3(r0.order, r1.order, r2.order, l0, l1, l2)
  {
    root.order := SpliceOrder3(r0.order, r1.order, r2.order, l0, l1, l2);
    root.AddCycle(c1);
    ghost var p12 := root.inverseEdges;
    root.AddCycle(c2);
    Splice3Ok(r0, r1, r2, l0, l1, l2, w, p12, root.inverseEdges);
    r := RingOf(root);
  }

  /** The record work of `JoinTwoCycles`: breaks the edge `a -> b` that `c1` chooses and the
      edge `c -> d` that `c2` chooses, links `a -> d` and `c -> b`, and unites `c2` into `c1`,
      which is then one cycle over both vertex sets. */
  method FuseTwo(c1: Cycle, c2: Cycle, graph: Graph, ghost w: map<int, map<int, int>>, ghost r1: Ring, ghost r2: Ring)
    returns (ghost a: int, ghost c: int, ghost r: Ring)
    requires c1 != c2 && w == graph.edges && Complete(w)
    requires RingOf(c1) == r1 && RingOf(c2) == r2 && RingOk(r1, w) && RingOk(r2, w)
    requires r1.succ.Keys !! r2.succ.Keys && r1.succ.Keys <= w.Keys && r2.succ.Keys <= w.Keys
    modifies c1`edges, c1`inverseEdges, c1`heavyEdges, c1`order, c2`edges, c2`inverseEdges, c2`heavyEdges
    ensures a in r1.succ && c in r2.succ && a in r1.order && c in r2.order
    ensures r1.heavy != {} ==> a in r1.heavy
    ensures r2.heavy != {} ==> c in r2.heavy
    ensures RingOf(c1) == r && RingOk(r, w) && r.succ.Keys == r1.succ.Keys + r2.succ.Keys
    ensures r.succ == Splice2(r1.succ, r2.succ, a, c) && r.order == SpliceOrder2(r1.order, r2.order, a, c)
  {
    RingNonEmpty(r1, w);
    RingHeavyKeys(r1, w);
    RingNonEmpty(r2, w);
    RingHeavyKeys(r2, w);
    var e1 := c1.GetEdgeOfMaximumWeight();
    var e2 := c2.GetEdgeOfMaximumWeight();
    a, c := e1.0, e2.0;
    SuccOutside(r1, r2, a, w);
    SuccOutside(r2, r1, c, w);
    LinkTo(c1, graph, w, r1, e1.0, e2.1);
    LinkTo(c2, graph, w, r2, e2.0, e1.1);
    r := Unite2(c1, c2, w, r1, r2, a, c);
  }

  /** The uniting step of the two-cycle fusions: `c2`, whose vertex `l2` already leads to the
      old successor of `l1`, is united into `c1`, whose vertex `l1` already leads to the old
      successor of `l2`; `c1` is then one cycle over both vertex sets. */
  method Unite2(c1: Cycle, c2: Cycle, ghost w: map<int, map<int, int>>, ghost r1: Ring, ghost r2: Ring,
                ghost l1: int, ghost l2: int)
    returns (ghost r: Ring)
    requires c1 != c2 && RingOk(r1, w) && RingOk(r2, w) && r1.succ.Keys !! r2.succ.Keys
    requires l1 in r1.succ && l2 in r2.succ
    requires RingOf(c1) == Ring(r1.succ[l1 := r2.succ[l2]], Repointed(r1.succ, r1.pred, l1, r2.succ[l2]),
                                HeavyOf(r1.succ[l1 := r2.succ[l2]], w), r1.order)
    requires RingOf(c2) == Ring(r2.succ[l2 := r1.succ[l1]], Repointed(r2.succ, r2.pred, l2, r1.succ[l1]),
                                HeavyOf(r2.succ[l2 := r1.succ[l1]], w), r2.order)
    modifies c1`edges, c1`inverseEdges, c1`heavyEdges, c1`order
    ensures l1 in r1.order && l2 in r2.order
    ensures RingOf(c1) == r && RingOk(r, w) && r.succ.Keys == r1.succ.Keys + r2.succ.Keys
    ensures r.succ == Splice2(r1.succ, r2.succ, l1, l2) && r.order == SpliceOrder2(r1.order, r2.order, l1, l2)
  {
    c1.order := SpliceOrder2(r1.order, r2.order, l1, l2);
    c1.AddCycle(c2);
    Splice2Ok(r1, r2, l1, l2, w, c1.inverseEdges);
    r := RingOf(c1);
  }

  /** The registries once the first `k` cycles of the cover `cs` are registered: cycle `i` of
      the list under the id `i` in that order, its vertices registered, and listed as bad iff it
      has a heavy edge. */
  ghost predicate LoadedUpTo(cs: seq<seq<int>>, k: nat, cycles: map<int, Cycle>, rings: map<int, Ring>,
                             vertexes: map<int, int>, bad: set<int>)
    requires k <= |cs|
  {
    && (forall i :: i in cycles <==> 0 <= i < k) && vertexes.Keys == Covered(cs[..k])
    && (forall i :: 0 <= i < k ==> i in rings && rings[i].order == cs[i])
    && (forall i :: i in cycles ==> (i in bad <==> i in rings && rings[i].heavy != {}))
  }

  /** Registering cycle `k` of the cover under the id `k` extends the loaded prefix by it. */
  lemma LoadedNext(cs: seq<seq<int>>, k: nat, C: map<int, Cycle>, R: map<int, Ring>,
                   V: map<int, int>, B: set<int>, C': map<int, Cycle>, R': map<int, Ring>,
                   V': map<int, int>, B': set<int>)
    requires k < |cs| && LoadedUpTo(cs, k, C, R, V, B) && R.Keys == C.Keys && B <= C.Keys
    requires Covered(cs[..k + 1]) == Covered(cs[..k]) + Elems(cs[k])
    requires k in C' && C' == C[k := C'[k]] && k in R' && R' == R[k := R'[k]] && R'[k].order == cs[k]
    requires V' == Assigned(V, Elems(cs[k]), k)
    requires B' == if R'[k].heavy != {} then B + {k} else B
    ensures LoadedUpTo(cs, k + 1, C', R', V', B')
  {
    AssignedAt(V, Elems(cs[k]), k);
    assert V'.Keys == Covered(cs[..k + 1]);
    forall i | 0 <= i < k + 1 ensures i in R' && R'[i].order == cs[i] {
      if i < k {
        assert i in R && R[i].order == cs[i];
      }
    }
    forall i | i in C' ensures (i in B' <==> i in R' && R'[i].heavy != {}) {
      if i != k {
        assert i in C;
      }
    }
  }

  /** The state of the collapse loop that started with the ids `keys0` and the bad ids `bad0`:
      only bad ids have been erased, each from both registries, and some bad id is left if
      there was one. */
  ghost predicate Collapsing(keys0: set<int>, bad0: set<int>, keys: set<int>, bad: set<int>)
  {
    bad <= bad0 && (bad0 != {} ==> bad != {}) && keys == keys0 - (bad0 - bad)
  }

  /** Erasing one more bad id, while another is left, keeps the collapse state. */
  lemma CollapseNext(keys0: set<int>, bad0: set<int>, keys: set<int>, bad: set<int>, c: int)
    requires Collapsing(keys0, bad0, keys, bad) && c in bad && |bad| > 1
    ensures Collapsing(keys0, bad0, keys - {c}, bad - {c})
  {
    RemoveCard(bad, c);
  }

  /** Every value of a map is the value of some key. */
  lemma ValueKey(m: map<int, Cycle>, o: Cycle)
    requires o in m.Values
    ensures exists i :: i in m && m[i] == o
  {
    if forall i :: i in m ==> m[i] != o {
      assert false;
    }
  }

  /** Cycle records that are each new since the start of the calling method make a set of
      values all new since then. */
  twostate lemma FreshValues(new m: map<int, Cycle>)
    requires forall i :: i in m ==> fresh(m[i])
    ensures forall o :: o in m.Values ==> fresh(o)
  {
    forall o | o in m.Values ensures fresh(o) {
      ValueKey(m, o);
      var i :| i in m && m[i] == o;
    }
  }

  /** A map whose every entry is an entry of `m0` has no value outside those of `m0`. */
  lemma KeptValues(m: map<int, Cycle>, m0: map<int, Cycle>)
    requires forall i :: i in m ==> i in m0 && m[i] == m0[i]
    ensures m.Values <= m0.Values
  {
    forall o | o in m.Values ensures o in m0.Values {
      ValueKey(m, o);
      var i :| i in m && m[i] == o;
      assert m0[i] == o;
    }
  }

  class TSPApproximation {
    /** Ids of cycles that may have a heavy edge; holds every live cycle that has one. */
    var badCycles: set<int>
    /** Vertex -> id of the cycle it lies on. */
    var vertexes: map<int, int>
    const graph: Graph
    /** Id -> cycle record. */
    var cycles: map<int, Cycle>
    var approximation: seq<int>
    /** The state of every live cycle record, as values. */
    ghost var rings: map<int, Ring>

    /** Loads the weight matrix, registers the cycles of the cover, fuses all bad cycles into
        one, then fuses every other cycle into that one and reads the tour off it. */
    constructor (edges: seq<seq<int>>, cyclesIn: seq<seq<int>>)
      requires Shaped(edges) && CycleCover(Range(|edges|), cyclesIn) && |cyclesIn| >= 1
      ensures Valid() && LoadedFrom(graph.edges, edges)
      ensures |cycles| == 1 && vertexes.Keys == Covered(cyclesIn)
      ensures forall i :: i in cycles ==> IsCycleOrder(cycles[i].edges, approximation)
      ensures Elems(approximation) == Covered(cyclesIn)
    {
      var g := LoadGraph(edges);
      graph := g;
      badCycles := {};
      vertexes := map[];
      cycles := map[];
      approximation := [];
      rings := map[];
      new;
      LoadedComplete(graph.edges, edges);
      Approximate(cyclesIn);
    }

    /** The work of the constructor once the table is loaded: registers the cycles `cs`,
        collapses the bad ones into one, fuses all others into it and reads the tour off the
        cycle that is left. */
    method Approximate(cs: seq<seq<int>>)
      requires Valid() && cycles == map[] && vertexes == map[]
      requires CycleCover(graph.edges.Keys, cs) && |cs| >= 1
      modifies this
      ensures Valid() && |cycles| == 1 && vertexes.Keys == Covered(cs)
      ensures forall i :: i in cycles ==> IsCycleOrder(cycles[i].edges, approximation)
      ensures Elems(approximation) == Covered(cs)
    {
      AddCycles(cs);
      assert cs[..|cs|] == cs;
      assert 0 in cycles;
      FreshValues(cycles);
      Finish();
    }

    /** Collapses the bad cycles into one, fuses every other cycle into it and reads the tour
        off the cycle that is left. */
    method Finish()
      requires Valid() && cycles != map[]
      modifies this, cycles.Values
      ensures Valid() && |cycles| == 1 && vertexes.Keys == old(vertexes.Keys)
      ensures forall i :: i in cycles ==> IsCycleOrder(cycles[i].edges, approximation)
      ensures Elems(approximation) == vertexes.Keys
    {
      ghost var C0 := cycles;
      CollapseBad();
      KeptValues(cycles, C0);
      var bad := PickBad();
      MergeAll(bad);
      ReadTour(bad);
    }

    /** Registers the cycles of the cover one after the other: cycle `k` of the list gets the
        id `k`, and is listed as bad iff it has a heavy edge. */
    method AddCycles(cs: seq<seq<int>>)
      requires Valid() && cycles == map[] && vertexes == map[]
      requires CycleCover(graph.edges.Keys, cs)
      modifies this
      ensures Valid() && LoadedUpTo(cs, |cs|, cycles, rings, vertexes, badCycles)
      ensures forall i :: i in cycles ==> fresh(cycles[i])
    {
      var k := 0;
      while k < |cs|
        invariant 0 <= k <= |cs|
        invariant Valid() && LoadedUpTo(cs, k, cycles, rings, vertexes, badCycles)
        invariant forall i :: i in cycles ==> fresh(cycles[i])
      {
        CoverNext(graph.edges.Keys, cs, k);
        ghost var c := LoadOne(cs, k);
        k := k + 1;
      }
    }

    /** Registers cycle `k` of the cover under the id `k`. */
    method LoadOne(cs: seq<seq<int>>, k: nat) returns (ghost c: Cycle)
      requires Valid() && k < |cs| && LoadedUpTo(cs, k, cycles, rings, vertexes, badCycles)
      requires |cs[k]| >= 2 && Distinct(cs[k]) && Elems(cs[k]) <= graph.edges.Keys
      requires Elems(cs[k]) !! Covered(cs[..k]) && Covered(cs[..k + 1]) == Covered(cs[..k]) + Elems(cs[k])
      modifies this
      ensures Valid() && LoadedUpTo(cs, k + 1, cycles, rings, vertexes, badCycles)
      ensures k in cycles && cycles == old(cycles)[k := c] && fresh(c)
    {
      ghost var C, R, V, B := cycles, rings, vertexes, badCycles;
      CardOfRange(cycles.Keys, k);
      AddCycle(cs[k]);
      LoadedNext(cs, k, C, R, V, B, cycles, rings, vertexes, badCycles);
      c := cycles[k];
    }

    /** The collapse loop: while more than one cycle is listed as bad, two of the bad cycles
        are fused, the first absorbing the second. Each pass erases exactly one bad id, so the
        loop ends with at most one bad cycle, and with one when there was a bad cycle at all. */
    method CollapseBad()
      requires Valid()
      modifies this, cycles.Values
      ensures Valid() && vertexes.Keys == old(vertexes.Keys)
      ensures |badCycles| == if old(badCycles) == {} then 0 else 1
      ensures badCycles <= old(badCycles)
      ensures cycles.Keys == old(cycles.Keys) - (old(badCycles) - badCycles)
      ensures forall i :: i in cycles ==> cycles[i] == old(cycles[i])
      ensures old(cycles) != map[] ==> cycles != map[]
    {
      ghost var C0, B0, K0 := cycles, badCycles, vertexes.Keys;
      while |badCycles| > 1
        invariant Valid() && vertexes.Keys == K0
        invariant Collapsing(C0.Keys, B0, cycles.Keys, badCycles)
        invariant forall i :: i in cycles ==> cycles[i] == C0[i]
        decreases |badCycles|
      {
        NonEmptyHasElement(badCycles);
        var c1 :| c1 in badCycles;
        OtherElement(badCycles, c1);
        var c2 :| c2 in badCycles && c2 != c1;
        ghost var K, B := cycles.Keys, badCycles;
        JoinKeepingKeys(c1, c2);
        CollapseNext(C0.Keys, B0, K, B, c2);
        RemoveCard(B, c2);
      }
      if B0 != {} {
        NonEmptyHasElement(badCycles);
        var b :| b in badCycles;
        assert b in cycles;
      }
    }

    /** `JoinTwoCycles(c1Idx, c2Idx)`, which keeps the set of registered vertices. */
    method JoinKeepingKeys(c1Idx: int, c2Idx: int)
      requires Valid() && c1Idx in cycles && c2Idx in cycles && c1Idx != c2Idx
      modifies this, cycles[c1Idx], cycles[c2Idx]
      ensures Valid() && cycles == old(cycles) - {c2Idx} && vertexes.Keys == old(vertexes.Keys)
      ensures badCycles == (if rings[c1Idx].heavy != {} then old(badCycles) + {c1Idx} else old(badCycles)) - {c2Idx}
      ensures c1Idx in old(badCycles) ==> badCycles == old(badCycles) - {c2Idx}
    {
      ghost var R, V := rings, vertexes;
      OwnedKeys(R, V, c1Idx);
      OwnedKeys(R, V, c2Idx);
      var a, c := JoinTwoCycles(c1Idx, c2Idx);
      AssignedWithin(V, rings[c1Idx].succ.Keys, c1Idx);
    }

    /** The cycle every other one is fused into: a bad cycle if there is one, otherwise any
        cycle. */
    method PickBad() returns (bad: int)
      requires Valid() && cycles != map[]
      ensures bad in cycles
      ensures badCycles != {} ==> bad in badCycles
    {
      if badCycles != {} {
        NonEmptyHasElement(badCycles);
        bad :| bad in badCycles;
      } else {
        NonEmptyHasElement(cycles.Keys);
        bad :| bad in cycles;
      }
    }

    /** The final merge loop: while another cycle is left, cycle `bad` absorbs it. Each pass
        erases exactly one id, so the loop ends with `bad` the only cycle. */
    method MergeAll(bad: int)
      requires Valid() && bad in cycles
      modifies this, cycles.Values
      ensures Valid() && cycles.Keys == {bad} && vertexes.Keys == old(vertexes.Keys)
      ensures cycles[bad] == old(cycles[bad])
    {
      ghost var C0, K0 := cycles, vertexes.Keys;
      while |cycles| > 1
        invariant Valid() && bad in cycles && vertexes.Keys == K0
        invariant forall i :: i in cycles ==> i in C0 && cycles[i] == C0[i]
        decreases |cycles|
      {
        ghost var K := cycles.Keys;
        KeptValues(cycles, C0);
        var second := AbsorbOther(bad);
        RemoveCard(K, second);
      }
      OnlyKey(cycles.Keys, bad);
    }

    /** One pass of the final merge: cycle `bad` absorbs some other cycle `second`. */
    method AbsorbOther(bad: int) returns (second: int)
      requires Valid() && bad in cycles && |cycles| > 1
      modifies this, cycles.Values
      ensures Valid() && second in old(cycles) && second != bad
      ensures cycles == old(cycles) - {second} && vertexes.Keys == old(vertexes.Keys)
    {
      OtherElement(cycles.Keys, bad);
      second :| second in cycles && second != bad;
      JoinKeepingKeys(bad, second);
    }

    /** Reads the tour off the one cycle left: every vertex of the cycles, in successor
        order. */
    method ReadTour(bad: int)
      requires Valid() && cycles.Keys == {bad}
      modifies this`approximation
      ensures Valid() && |cycles| == 1 && Elems(approximation) == vertexes.Keys
      ensures forall i :: i in cycles ==> IsCycleOrder(cycles[i].edges, approximation)
    {
      var cycle := cycles[bad];
      RingHeavyKeys(rings[bad], graph.edges);
      approximation := cycle.GetCycle();
      SoleRing(rings, vertexes, bad);
    }

    /** `rings` mirrors the live cycle records. */
    ghost predicate Mirrors()
      reads this`cycles, this`rings, cycles.Values
    {
      && rings.Keys == cycles.Keys
      && forall i :: i in cycles ==>
           && cycles[i].edges == rings[i].succ && cycles[i].inverseEdges == rings[i].pred
           && cycles[i].heavyEdges == rings[i].heavy && cycles[i].order == rings[i].order
    }

    /** Different ids hold different cycle objects (TSPApproximation.h:498 stores the records by value). */
    ghost predicate Separate()
      reads this`cycles
    {
      forall i, j :: i in cycles && j in cycles && i != j ==> cycles[i] != cycles[j]
    }

    /** The class invariant: a complete weight table, and consistent registries. (The table is
        also symmetric, as it is loaded, see `LoadedSymmetric`; the fusion primitives require
        that separately.) */
    ghost predicate Valid()
      reads this, graph, cycles.Values
    {
      && Complete(graph.edges)
      && Separate()
      && Mirrors()
      && Registry(rings, vertexes, badCycles, graph.edges)
    }

    /** The id of the cycle `vertex` lies on; that cycle is live and passes through `vertex`. */
    function GetCycle(vertex: int): (id: int)
      reads this, graph, cycles.Values
      requires vertex in vertexes
      ensures Valid() ==> id in cycles && vertex in cycles[id].edges
    {
      var id := vertexes[vertex];
      assert Valid() ==> id in rings && vertex in rings[id].succ by {
        if Valid() {
          assert Located(rings, vertexes);
        }
      }
      id
    }

    /** Registers `vertex` on cycle `cycleNum`, whether or not it was registered before. */
    method SetCycle(vertex: int, cycleNum: int)
      modifies this`vertexes
      ensures vertexes == old(vertexes)[vertex := cycleNum]
    {
      if vertex !in vertexes {
        vertexes := Emplace(vertexes, vertex, cycleNum);
      } else {
        vertexes := vertexes[vertex := cycleNum];
      }
    }

    /** Registers every vertex of `keys` on cycle `cycleNum`, one vertex at a time. */
    method SetCycles(keys: set<int>, cycleNum: int)
      modifies this`vertexes
      ensures vertexes == Assigned(old(vertexes), keys, cycleNum)
    {
      ghost var v0 := vertexes;
      ghost var done: set<int> := {};
      var rest := keys;
      assert Assigned(v0, done, cycleNum) == v0;
      while rest != {}
        invariant done + rest == keys
        invariant vertexes == Assigned(v0, done, cycleNum)
        decreases |rest|
      {
        NonEmptyHasElement(rest);
        var v :| v in rest;
        AssignedStep(v0, done, cycleNum, v);
        SetCycle(v, cycleNum);
        done, rest := done + {v}, rest - {v};
      }
      assert done == keys;
    }

    /** Registers `cycle` under the next id `|cycles|`: its vertices point to the id, and the
        id is bad iff the new cycle has a heavy edge. */
    method AddCycle(cycle: seq<int>)
      requires Valid()
      requires |cycle| >= 2 && Distinct(cycle) && Elems(cycle) <= graph.edges.Keys
      requires Elems(cycle) !! vertexes.Keys && |cycles| !in cycles
      modifies this
      ensures Valid()
      ensures old(|cycles|) in cycles && cycles == old(cycles)[old(|cycles|) := cycles[old(|cycles|)]]
      ensures fresh(cycles[old(|cycles|)])
      ensures old(|cycles|) in rings && rings == old(rings)[old(|cycles|) := rings[old(|cycles|)]]
      ensures rings[old(|cycles|)].order == cycle
      ensures vertexes == Assigned(old(vertexes), Elems(cycle), old(|cycles|))
      ensures badCycles == if rings[old(|cycles|)].heavy != {} then old(badCycles) + {old(|cycles|)} else old(badCycles)
    {
      var id := |cycles|;
      ghost var R, v0, b0, w := rings, vertexes, badCycles, graph.edges;
      assert Registry(R, v0, b0, w);
      SetCycleEach(cycle, id);
      var c, r := NewCycle(cycle, graph, w);
      AddRing(R, v0, b0, w, id, r, if r.heavy != {} then b0 + {id} else b0);
      Register(id, c, r);
      assert graph.edges == w;
    }

    /** Stores the new record `c` under the unused id `id`, and lists `id` as bad when `c` has
        a heavy edge. */
    method Register(id: int, c: Cycle, ghost r: Ring)
      requires Mirrors() && Separate() && id !in cycles && c !in cycles.Values && RingOf(c) == r
      modifies this`cycles, this`rings, this`badCycles
      ensures cycles == old(cycles)[id := c] && rings == old(rings)[id := r]
      ensures badCycles == if r.heavy != {} then old(badCycles) + {id} else old(badCycles)
      ensures Mirrors() && Separate()
    {
      if !c.IsGood() {
        badCycles := badCycles + {id};
      }
      // `id` is unused, so the emplace at TSPApproximation.h:492 inserts.
      cycles, rings := cycles[id := c], rings[id := r];
    }

    /** Fuses cycle `c2Idx` into cycle `c1Idx` by breaking one edge of each, `a -> b` and
        `c -> d`, and linking `a -> d` and `c -> b`. The breaks are at heavy edges when the
        cycle has one. `c2Idx` is erased from `cycles` and `badCycles`, the vertices of the
        fused cycle point to `c1Idx`, and `c1Idx` is bad if it was or the result has a heavy edge. */
    method JoinTwoCycles(c1Idx: int, c2Idx: int) returns (ghost a: int, ghost c: int)
      requires Valid() && c1Idx in cycles && c2Idx in cycles && c1Idx != c2Idx
      modifies this, cycles[c1Idx], cycles[c2Idx]
      ensures Valid() && cycles == old(cycles) - {c2Idx}
      ensures c1Idx in rings && rings == (old(rings) - {c2Idx})[c1Idx := rings[c1Idx]]
      ensures a in old(rings)[c1Idx].order && c in old(rings)[c2Idx].order
      ensures rings[c1Idx].succ == Splice2(old(rings)[c1Idx].succ, old(rings)[c2Idx].succ, a, c)
      ensures rings[c1Idx].order == SpliceOrder2(old(rings)[c1Idx].order, old(rings)[c2Idx].order, a, c)
      ensures old(rings)[c1Idx].heavy != {} ==> a in old(rings)[c1Idx].heavy
      ensures old(rings)[c2Idx].heavy != {} ==> c in old(rings)[c2Idx].heavy
      ensures vertexes == Assigned(old(vertexes), rings[c1Idx].succ.Keys, c1Idx)
      ensures badCycles == (if rings[c1Idx].heavy != {} then old(badCycles) + {c1Idx} else old(badCycles)) - {c2Idx}
    {
      var gone := {c2Idx};
      assert c1Idx !in gone && gone <= cycles.Keys;
      ghost var C, R, V, B := cycles, rings, vertexes, badCycles;
      TwoApart(c1Idx, c2Idx);
      ghost var r;
      a, c, r := FuseIds(c1Idx, c2Idx, cycles[c1Idx], cycles[c2Idx], rings[c1Idx], rings[c2Idx], gone, C, R);
      Rebook(c1Idx, gone, r, R[c1Idx].succ.Keys + R[c2Idx].succ.Keys, C, R, V, B);
    }

    /** Two different live cycles are sound, disjoint, in the table, and together hold exactly
        the vertices registered with either. */
    ghost method TwoApart(c1Idx: int, c2Idx: int)
      requires Valid() && c1Idx in cycles && c2Idx in cycles && c1Idx != c2Idx
      ensures RingOk(rings[c1Idx], graph.edges) && RingOk(rings[c2Idx], graph.edges)
      ensures rings[c1Idx].succ.Keys !! rings[c2Idx].succ.Keys
      ensures rings[c1Idx].succ.Keys <= graph.edges.Keys && rings[c2Idx].succ.Keys <= graph.edges.Keys
      ensures forall v :: v in rings[c1Idx].succ.Keys + rings[c2Idx].succ.Keys <==> v in vertexes && vertexes[v] in {c2Idx} + {c1Idx}
    {
      TwoRings(rings, vertexes, badCycles, graph.edges, c1Idx, c2Idx);
      KeysOfTwo(rings, vertexes, c1Idx, c2Idx, rings[c1Idx].succ.Keys + rings[c2Idx].succ.Keys);
    }

    /** The record work of `JoinTwoCycles` on the records `c1Idx` and `c2Idx`, which are then
        one cycle over both vertex sets, held by `c1Idx`; no other record changes. */
    method FuseIds(c1Idx: int, c2Idx: int, c1: Cycle, c2: Cycle, ghost r1: Ring, ghost r2: Ring,
                   ghost gone: set<int>, ghost C: map<int, Cycle>, ghost R: map<int, Ring>)
      returns (ghost a: int, ghost c: int, ghost r: Ring)
      requires cycles == C && rings == R && gone == {c2Idx}
      requires Mirrors() && Separate() && c1Idx in cycles && c2Idx in cycles && c1Idx != c2Idx
      requires cycles[c1Idx] == c1 && cycles[c2Idx] == c2 && rings[c1Idx] == r1 && rings[c2Idx] == r2
      requires Complete(graph.edges) && RingOk(r1, graph.edges) && RingOk(r2, graph.edges)
      requires r1.succ.Keys !! r2.succ.Keys && r1.succ.Keys <= graph.edges.Keys && r2.succ.Keys <= graph.edges.Keys
      modifies c1`edges, c1`inverseEdges, c1`heavyEdges, c1`order, c2`edges, c2`inverseEdges, c2`heavyEdges
      ensures a in r1.succ && c in r2.succ && a in r1.order && c in r2.order
      ensures r1.heavy != {} ==> a in r1.heavy
      ensures r2.heavy != {} ==> c in r2.heavy
      ensures RingOf(c1) == r && RingOk(r, graph.edges) && r.succ.Keys == r1.succ.Keys + r2.succ.Keys
      ensures r.succ == Splice2(r1.succ, r2.succ, a, c) && r.order == SpliceOrder2(r1.order, r2.order, a, c)
      ensures forall i :: i in C && i != c1Idx && i !in gone ==> RingOf(C[i]) == R[i]
      ensures graph.edges == old(graph.edges) && rings == old(rings) && vertexes == old(vertexes) && badCycles == old(badCycles) && cycles == old(cycles)
    {
      a, c, r := FusePair(c1, c2, r1, r2);
    }

    /** `FuseTwo` on two records of this object, which keeps every field of its own. */
    method FusePair(c1: Cycle, c2: Cycle, ghost r1: Ring, ghost r2: Ring) returns (ghost a: int, ghost c: int, ghost r: Ring)
      requires c1 != c2 && Complete(graph.edges)
      requires RingOf(c1) == r1 && RingOf(c2) == r2 && RingOk(r1, graph.edges) && RingOk(r2, graph.edges)
      requires r1.succ.Keys !! r2.succ.Keys && r1.succ.Keys <= graph.edges.Keys && r2.succ.Keys <= graph.edges.Keys
      modifies c1`edges, c1`inverseEdges, c1`heavyEdges, c1`order, c2`edges, c2`inverseEdges, c2`heavyEdges
      ensures a in r1.succ && c in r2.succ && a in r1.order && c in r2.order
      ensures r1.heavy != {} ==> a in r1.heavy
      ensures r2.heavy != {} ==> c in r2.heavy
      ensures RingOf(c1) == r && RingOk(r, graph.edges) && r.succ.Keys == r1.succ.Keys + r2.succ.Keys
      ensures r.succ == Splice2(r1.succ, r2.succ, a, c) && r.order == SpliceOrder2(r1.order, r2.order, a, c)
      ensures graph.edges == old(graph.edges) && rings == old(rings) && vertexes == old(vertexes) && badCycles == old(badCycles) && cycles == old(cycles)
    {
      a, c, r := FuseTwo(c1, c2, graph, graph.edges, r1, r2);
    }

    /** Fuses the cycle `childIdx` into the cycle `rootIdx` over the connected edge `x -> y` of
        the child, a light edge from the child into the root: `y` is linked to `x`, the
        predecessor `p` of `x` to the old successor of `y`. The registries change as in
        `JoinTwoCycles`. */
    method JoinTwoCyclesWithRoot(rootIdx: int, childIdx: int) returns (ghost p: int)
      requires Valid() && rootIdx in cycles && childIdx in cycles && rootIdx != childIdx
      requires Symmetric(graph.edges)
      requires cycles[childIdx].connectedEdge.0 in cycles[childIdx].edges
      requires cycles[childIdx].connectedEdge.1 in cycles[rootIdx].edges
      requires IsLight(graph.edges, cycles[childIdx].connectedEdge.0, cycles[childIdx].connectedEdge.1)
      modifies this, cycles[rootIdx], cycles[childIdx]
      ensures Valid() && cycles == old(cycles) - {childIdx}
      ensures rootIdx in rings && rings == (old(rings) - {childIdx})[rootIdx := rings[rootIdx]]
      ensures p in old(rings)[childIdx].succ && old(rings)[childIdx].succ[p] == old(cycles[childIdx].connectedEdge.0)
      ensures rings[rootIdx].succ
           == Splice2(old(rings)[rootIdx].succ, old(rings)[childIdx].succ, old(cycles[childIdx].connectedEdge.1), p)
      ensures rings[rootIdx].order
           == SpliceOrder2(old(rings)[rootIdx].order, old(rings)[childIdx].order, old(cycles[childIdx].connectedEdge.1), p)
      ensures vertexes == Assigned(old(vertexes), rings[rootIdx].succ.Keys, rootIdx)
      ensures badCycles == (if rings[rootIdx].heavy != {} then old(badCycles) + {rootIdx} else old(badCycles)) - {childIdx}
    {
      var gone := {childIdx};
      assert rootIdx !in gone && gone <= cycles.Keys;
      ghost var C, R, V, B := cycles, rings, vertexes, badCycles;
      TwoApart(rootIdx, childIdx);
      ghost var r;
      p, r := FuseRootIds(rootIdx, childIdx, cycles[rootIdx], cycles[childIdx], rings[rootIdx], rings[childIdx],
                          cycles[childIdx].connectedEdge.0, cycles[childIdx].connectedEdge.1, gone, C, R);
      Rebook(rootIdx, gone, r, R[rootIdx].succ.Keys + R[childIdx].succ.Keys, C, R, V, B);
    }

    /** The record work of `JoinTwoCyclesWithRoot` on the records `rootIdx` and `childIdx`;
        no other record changes. */
    method FuseRootIds(rootIdx: int, childIdx: int, root: Cycle, child: Cycle, ghost r1: Ring, ghost r2: Ring,
                       ghost x: int, ghost y: int, ghost gone: set<int>, ghost C: map<int, Cycle>, ghost R: map<int, Ring>)
      returns (ghost p: int, ghost r: Ring)
      requires cycles == C && rings == R && gone == {childIdx}
      requires Mirrors() && Separate() && rootIdx in cycles && childIdx in cycles && rootIdx != childIdx
      requires cycles[rootIdx] == root && cycles[childIdx] == child && rings[rootIdx] == r1 && rings[childIdx] == r2
      requires Complete(graph.edges) && Symmetric(graph.edges) && RingOk(r1, graph.edges) && RingOk(r2, graph.edges)
      requires r1.succ.Keys !! r2.succ.Keys && r1.succ.Keys <= graph.edges.Keys && r2.succ.Keys <= graph.edges.Keys
      requires child.connectedEdge == (x, y) && x in r2.succ && y in r1.succ && IsLight(graph.edges, x, y)
      modifies root`edges, root`inverseEdges, root`heavyEdges, root`order, child`edges, child`inverseEdges, child`heavyEdges
      ensures p in r2.succ && r2.succ[p] == x
      ensures RingOf(root) == r && RingOk(r, graph.edges) && r.succ.Keys == r1.succ.Keys + r2.succ.Keys
      ensures r.succ == Splice2(r1.succ, r2.succ, y, p) && r.order == SpliceOrder2(r1.order, r2.order, y, p)
      ensures forall i :: i in C && i != rootIdx && i !in gone ==> RingOf(C[i]) == R[i]
      ensures graph.edges == old(graph.edges) && rings == old(rings) && vertexes == old(vertexes) && badCycles == old(badCycles) && cycles == old(cycles)
    {
      p, r := RootPair(root, child, r1, r2, x, y);
    }

    /** `FuseRoot2` on two records of this object, which keeps every field of its own. */
    method RootPair(root: Cycle, child: Cycle, ghost r1: Ring, ghost r2: Ring, ghost x: int, ghost y: int)
      returns (ghost p: int, ghost r: Ring)
      requires root != child && Complete(graph.edges) && Symmetric(graph.edges)
      requires RingOf(root) == r1 && RingOf(child) == r2 && RingOk(r1, graph.edges) && RingOk(r2, graph.edges)
      requires r1.succ.Keys !! r2.succ.Keys && r1.succ.Keys <= graph.edges.Keys && r2.succ.Keys <= graph.edges.Keys
      requires child.connectedEdge == (x, y) && x in r2.succ && y in r1.succ && IsLight(graph.edges, x, y)
      modifies root`edges, root`inverseEdges, root`heavyEdges, root`order, child`edges, child`inverseEdges, child`heavyEdges
      ensures p in r2.succ && r2.succ[p] == x
      ensures RingOf(root) == r && RingOk(r, graph.edges) && r.succ.Keys == r1.succ.Keys + r2.succ.Keys
      ensures r.succ == Splice2(r1.succ, r2.succ, y, p) && r.order == SpliceOrder2(r1.order, r2.order, y, p)
      ensures graph.edges == old(graph.edges) && rings == old(rings) && vertexes == old(vertexes) && badCycles == old(badCycles) && cycles == old(cycles)
    {
      p, r := FuseRoot2(root, child, graph, graph.edges, r1, r2, x, y);
    }

    /** Fuses the cycles `leftIdx` and `rightIdx` into the cycle `rootIdx` over their connected
        edges `x1 -> y1` and `x2 -> y2`, light edges into the root where `y2` follows `y1`: `y1`
        is linked to `x1`, the predecessor `p1` of `x1` to the successor of `x2`, and `x2` to
        `y2`. The registries change as in `JoinTwoCycles`, with both children erased. */
    method JoinThreeCyclesWithRoot(rootIdx: int, leftIdx: int, rightIdx: int) returns (ghost p1: int)
      requires Valid() && rootIdx in cycles && leftIdx in cycles && rightIdx in cycles
      requires rootIdx != leftIdx && rootIdx != rightIdx && leftIdx != rightIdx
      requires Symmetric(graph.edges)
      requires cycles[leftIdx].connectedEdge.0 in cycles[leftIdx].edges
      requires cycles[rightIdx].connectedEdge.0 in cycles[rightIdx].edges
      requires cycles[leftIdx].connectedEdge.1 in cycles[rootIdx].edges
      requires cycles[rootIdx].edges[cycles[leftIdx].connectedEdge.1] == cycles[rightIdx].connectedEdge.1
      requires IsLight(graph.edges, cycles[leftIdx].connectedEdge.0, cycles[leftIdx].connectedEdge.1)
      requires IsLight(graph.edges, cycles[rightIdx].connectedEdge.0, cycles[rightIdx].connectedEdge.1)
      modifies this, cycles[rootIdx], cycles[leftIdx], cycles[rightIdx]
      ensures Valid() && cycles == old(cycles) - {leftIdx, rightIdx}
      ensures rootIdx in rings && rings == (old(rings) - {leftIdx, rightIdx})[rootIdx := rings[rootIdx]]
      ensures p1 in old(rings)[leftIdx].succ && old(rings)[leftIdx].succ[p1] == old(cycles[leftIdx].connectedEdge.0)
      ensures rings[rootIdx].succ
           == Splice3(old(rings)[rootIdx].succ, old(rings)[leftIdx].succ, old(rings)[rightIdx].succ,
                      old(cycles[leftIdx].connectedEdge.1), p1, old(cycles[rightIdx].connectedEdge.0))
      ensures rings[rootIdx].order
           == SpliceOrder3(old(rings)[rootIdx].order, old(rings)[leftIdx].order, old(rings)[rightIdx].order,
                           old(cycles[leftIdx].connectedEdge.1), p1, old(cycles[rightIdx].connectedEdge.0))
      ensures vertexes == Assigned(old(vertexes), rings[rootIdx].succ.Keys, rootIdx)
      ensures badCycles == (if rings[rootIdx].heavy != {} then old(badCycles) + {rootIdx} else old(badCycles)) - {leftIdx, rightIdx}
    {
      var gone := {leftIdx, rightIdx};
      assert rootIdx !in gone && gone <= cycles.Keys;
      ghost var C, R, V, B := cycles, rings, vertexes, badCycles;
      ThreeApart(rootIdx, leftIdx, rightIdx);
      ghost var r;
      p1, r := FuseThreeIds(rootIdx, leftIdx, rightIdx, cycles[rootIdx], cycles[leftIdx], cycles[rightIdx],
                            rings[rootIdx], rings[leftIdx], rings[rightIdx], gone, C, R);
      Rebook(rootIdx, gone, r, R[rootIdx].succ.Keys + R[leftIdx].succ.Keys + R[rightIdx].succ.Keys, C, R, V, B);
    }

    /** Three different live cycles are sound, pairwise disjoint, in the table, and together hold
        exactly the vertices registered with one of them. */
    ghost method ThreeApart(c: int, d: int, e: int)
      requires Valid() && c in cycles && d in cycles && e in cycles && c != d && c != e && d != e
      ensures RingOk(rings[c], graph.edges) && RingOk(rings[d], graph.edges) && RingOk(rings[e], graph.edges)
      ensures rings[c].succ.Keys !! rings[d].succ.Keys && rings[c].succ.Keys !! rings[e].succ.Keys
      ensures rings[d].succ.Keys !! rings[e].succ.Keys
      ensures rings[d].succ.Keys <= graph.edges.Keys && rings[e].succ.Keys <= graph.edges.Keys
      ensures forall v :: v in rings[c].succ.Keys + rings[d].succ.Keys + rings[e].succ.Keys
                          <==> v in vertexes && vertexes[v] in {d, e} + {c}
    {
      TwoRings(rings, vertexes, badCycles, graph.edges, c, d);
      TwoRings(rings, vertexes, badCycles, graph.edges, c, e);
      TwoRings(rings, vertexes, badCycles, graph.edges, d, e);
      KeysOfThree(rings, vertexes, c, d, e, rings[c].succ.Keys + rings[d].succ.Keys + rings[e].succ.Keys);
    }

    /** The record work of `JoinThreeCyclesWithRoot` on the records `rootIdx`, `leftIdx` and
        `rightIdx`; no other record changes. */
    method FuseThreeIds(rootIdx: int, leftIdx: int, rightIdx: int, root: Cycle, c1: Cycle, c2: Cycle,
                        ghost r0: Ring, ghost r1: Ring, ghost r2: Ring,
                        ghost gone: set<int>, ghost C: map<int, Cycle>, ghost R: map<int, Ring>)
      returns (ghost p1: int, ghost r: Ring)
      requires cycles == C && rings == R && gone == {leftIdx, rightIdx}
      requires Mirrors() && Separate() && rootIdx in cycles && leftIdx in cycles && rightIdx in cycles
      requires rootIdx != leftIdx && rootIdx != rightIdx && leftIdx != rightIdx
      requires cycles[rootIdx] == root && cycles[leftIdx] == c1 && cycles[rightIdx] == c2
      requires rings[rootIdx] == r0 && rings[leftIdx] == r1 && rings[rightIdx] == r2
      requires Complete(graph.edges) && Symmetric(graph.edges)
      requires RingOk(r0, graph.edges) && RingOk(r1, graph.edges) && RingOk(r2, graph.edges)
      requires r0.succ.Keys !! r1.succ.Keys && r0.succ.Keys !! r2.succ.Keys && r1.succ.Keys !! r2.succ.Keys
      requires r1.succ.Keys <= graph.edges.Keys && r2.succ.Keys <= graph.edges.Keys
      requires c1.connectedEdge.0 in r1.succ && c2.connectedEdge.0 in r2.succ
      requires c1.connectedEdge.1 in r0.succ && r0.succ[c1.connectedEdge.1] == c2.connectedEdge.1
      requires IsLight(graph.edges, c1.connectedEdge.0, c1.connectedEdge.1)
      requires IsLight(graph.edges, c2.connectedEdge.0, c2.connectedEdge.1)
      modifies root`edges, root`inverseEdges, root`heavyEdges, root`order
      modifies c1`edges, c1`inverseEdges, c1`heavyEdges, c2`edges, c2`inverseEdges, c2`heavyEdges
      ensures p1 in r1.succ && r1.succ[p1] == old(c1.connectedEdge.0)
      ensures RingOf(root) == r && RingOk(r, graph.edges) && r.succ.Keys == r0.succ.Keys + r1.succ.Keys + r2.succ.Keys
      ensures r.succ == Splice3(r0.succ, r1.succ, r2.succ, old(c1.connectedEdge.1), p1, old(c2.connectedEdge.0))
      ensures r.order == SpliceOrder3(r0.order, r1.order, r2.order, old(c1.connectedEdge.1), p1, old(c2.connectedEdge.0))
      ensures forall i :: i in C && i != rootIdx && i !in gone ==> RingOf(C[i]) == R[i]
      ensures graph.edges == old(graph.edges) && rings == old(rings) && vertexes == old(vertexes) && badCycles == old(badCycles) && cycles == old(cycles)
    {
      p1, r := ThreePair(root, c1, c2, r0, r1, r2);
    }

    /** `FuseRoot3` on three records of this object, which keeps every field of its own. */
    method ThreePair(root: Cycle, c1: Cycle, c2: Cycle, ghost r0: Ring, ghost r1: Ring, ghost r2: Ring)
      returns (ghost p1: int, ghost r: Ring)
      requires root != c1 && root != c2 && c1 != c2 && Complete(graph.edges) && Symmetric(graph.edges)
      requires RingOf(root) == r0 && RingOf(c1) == r1 && RingOf(c2) == r2
      requires RingOk(r0, graph.edges) && RingOk(r1, graph.edges) && RingOk(r2, graph.edges)
      requires r0.succ.Keys !! r1.succ.Keys && r0.succ.Keys !! r2.succ.Keys && r1.succ.Keys !! r2.succ.Keys
      requires r1.succ.Keys <= graph.edges.Keys && r2.succ.Keys <= graph.edges.Keys
      requires c1.connectedEdge.0 in r1.succ && c2.connectedEdge.0 in r2.succ
      requires c1.connectedEdge.1 in r0.succ && r0.succ[c1.connectedEdge.1] == c2.connectedEdge.1
      requires IsLight(graph.edges, c1.connectedEdge.0, c1.connectedEdge.1)
      requires IsLight(graph.edges, c2.connectedEdge.0, c2.connectedEdge.1)
      modifies root`edges, root`inverseEdges, root`heavyEdges, root`order
      modifies c1`edges, c1`inverseEdges, c1`heavyEdges, c2`edges, c2`inverseEdges, c2`heavyEdges
      ensures p1 in r1.succ && r1.succ[p1] == old(c1.connectedEdge.0)
      ensures RingOf(root) == r && RingOk(r, graph.edges) && r.succ.Keys == r0.succ.Keys + r1.succ.Keys + r2.succ.Keys
      ensures r.succ == Splice3(r0.succ, r1.succ, r2.succ, old(c1.connectedEdge.1), p1, old(c2.connectedEdge.0))
      ensures r.order == SpliceOrder3(r0.order, r1.order, r2.order, old(c1.connectedEdge.1), p1, old(c2.connectedEdge.0))
      ensures graph.edges == old(graph.edges) && rings == old(rings) && vertexes == old(vertexes) && badCycles == old(badCycles) && cycles == old(cycles)
    {
      p1, r := FuseRoot3(root, c1, c2, graph, graph.edges, r0, r1, r2,
                         c1.connectedEdge.0, c1.connectedEdge.1, c2.connectedEdge.0, c2.connectedEdge.1);
    }

    /** The registry work after a fusion into `c1Idx`: the vertices of the fused cycle are set
        to `c1Idx`, `c1Idx` is listed as bad if the fused cycle is not good, and the absorbed ids
        are erased from `cycles` and `badCycles`. `C`, `R`, `V` and `B` are the registries as
        they stand. */
    method Rebook(c1Idx: int, gone: set<int>, ghost r: Ring, ghost keys: set<int>,
                  ghost C: map<int, Cycle>, ghost R: map<int, Ring>, ghost V: map<int, int>, ghost B: set<int>)
      requires cycles == C && rings == R && vertexes == V && badCycles == B
      requires Complete(graph.edges) && Separate()
      requires Registry(R, V, B, graph.edges) && R.Keys == C.Keys
      requires c1Idx in C && c1Idx !in gone && gone <= C.Keys
      requires RingOf(C[c1Idx]) == r && RingOk(r, graph.edges)
      requires forall i :: i in C && i != c1Idx && i !in gone ==> RingOf(C[i]) == R[i]
      requires r.succ.Keys == keys && forall v :: v in keys <==> v in V && V[v] in gone + {c1Idx}
      modifies this`vertexes, this`cycles, this`rings, this`badCycles
      ensures cycles == C - gone
      ensures c1Idx in rings && rings[c1Idx] == r && rings == (R - gone)[c1Idx := rings[c1Idx]]
      ensures vertexes == Assigned(V, rings[c1Idx].succ.Keys, c1Idx)
      ensures badCycles == (if rings[c1Idx].heavy != {} then B + {c1Idx} else B) - gone
      ensures Valid()
    {
      MergeInto(R, V, B, graph.edges, c1Idx, gone, r, (if r.heavy != {} then B + {c1Idx} else B) - gone);
      Commit(c1Idx, gone, r);
    }

    /** The field updates of `Rebook`, which keep each live id tied to its own cycle. */
    method Commit(c1Idx: int, gone: set<int>, ghost r: Ring)
      requires Separate() && rings.Keys == cycles.Keys && c1Idx in cycles && c1Idx !in gone
      requires RingOf(cycles[c1Idx]) == r
      requires forall i :: i in cycles && i != c1Idx && i !in gone ==> RingOf(cycles[i]) == rings[i]
      modifies this`vertexes, this`cycles, this`rings, this`badCycles
      ensures cycles == old(cycles) - gone && rings == (old(rings) - gone)[c1Idx := r]
      ensures vertexes == Assigned(old(vertexes), r.succ.Keys, c1Idx)
      ensures badCycles == (if r.heavy != {} then old(badCycles) + {c1Idx} else old(badCycles)) - gone
      ensures Mirrors() && Separate()
    {
      SetCycles(cycles[c1Idx].edges.Keys, c1Idx);
      if !cycles[c1Idx].IsGood() && c1Idx !in badCycles {
        badCycles := badCycles + {c1Idx};
      }
      cycles, rings := cycles - gone, (rings - gone)[c1Idx := r];
      badCycles := badCycles - gone;
    }

    /** Registers every vertex of `cycle`, in order, on cycle `cycleNum`. */
    method SetCycleEach(cycle: seq<int>, cycleNum: int)
      modifies this`vertexes
      ensures vertexes == Assigned(old(vertexes), Elems(cycle), cycleNum)
    {
      ghost var v0 := vertexes;
      var i := 0;
      while i < |cycle|
        invariant 0 <= i <= |cycle|
        invariant vertexes == Assigned(v0, Elems(cycle[..i]), cycleNum)
      {
        AssignedStep(v0, Elems(cycle[..i]), cycleNum, cycle[i]);
        SetCycle(cycle[i], cycleNum);
        assert Elems(cycle[..i + 1]) == Elems(cycle[..i]) + {cycle[i]};
        i := i + 1;
      }
      assert cycle[..i] == cycle;
    }
  }
}
