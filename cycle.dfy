/** The cycle record of `Cycle.h`: a successor map, its inverse, the origins of the heavy edges
    and the edge that connects the cycle to another one. */
module Cycles {
  import opened Maps
  import opened CycleOrder
  import opened Graphs

  /** The weight of a heavy edge; the other weight is 1. */
  const HEAVY_EDGE := 2

  /** The pairs the constructor emplaces into the successor map, in its order. */
  function SuccPairs(vs: seq<int>): (ps: seq<(int, int)>)
    requires |vs| >= 1
    ensures |ps| == |vs|
  {
    seq(|vs|, i requires 0 <= i < |vs| => (vs[i], vs[Next(i, |vs|)]))
  }

  /** The pairs the constructor emplaces into the predecessor map, in its order. */
  function PredPairs(vs: seq<int>): (ps: seq<(int, int)>)
    requires |vs| >= 1
    ensures |ps| == |vs|
  {
    seq(|vs|, i requires 0 <= i < |vs| => (vs[Next(i, |vs|)], vs[i]))
  }

  /** The table `w` gives the edge `a -> b` the heavy weight. */
  ghost predicate IsHeavy(w: map<int, map<int, int>>, a: int, b: int)
  {
    a in w && b in w[a] && w[a][b] == HEAVY_EDGE
  }

  /** The table `w` gives the edge `a -> b` the light weight 1. */
  ghost predicate IsLight(w: map<int, map<int, int>>, a: int, b: int)
  {
    a in w && b in w[a] && w[a][b] == 1
  }

  /** On a symmetric table an edge is light in both directions. */
  lemma LightBack(w: map<int, map<int, int>>, a: int, b: int)
    requires Symmetric(w) && IsLight(w, a, b)
    ensures IsLight(w, b, a)
  {
  }

  /** The vertices among the first `k` of `vs` whose edge to the next vertex is heavy. */
  ghost function HeavyOrigins(vs: seq<int>, w: map<int, map<int, int>>, k: nat): set<int>
    requires k <= |vs|
  {
    if k == 0 then {}
    else HeavyOrigins(vs, w, k - 1) + if IsHeavy(w, vs[k - 1], vs[Next(k - 1, |vs|)]) then {vs[k - 1]} else {}
  }

  /** `x` is in `HeavyOrigins(vs, w, k)` iff it is one of the first `k` vertices and its edge
      to the next one is heavy. */
  lemma {:induction false} HeavyOriginsMember(vs: seq<int>, w: map<int, map<int, int>>, k: nat, x: int)
    requires k <= |vs|
    ensures x in HeavyOrigins(vs, w, k) <==>
      exists i :: 0 <= i < k && vs[i] == x && IsHeavy(w, vs[i], vs[Next(i, |vs|)])
  {
    if k > 0 {
      HeavyOriginsMember(vs, w, k - 1, x);
    }
  }

  /** The origins of the heavy edges of the successor map `succ`. */
  ghost function HeavyOf(succ: map<int, int>, w: map<int, map<int, int>>): set<int>
  {
    set a | a in succ && IsHeavy(w, a, succ[a])
  }

  /** The pairs at position `i`. */
  lemma PairsAt(vs: seq<int>, i: nat)
    requires |vs| >= 1 && i < |vs|
    ensures SuccPairs(vs)[i] == (vs[i], vs[Next(i, |vs|)])
    ensures PredPairs(vs)[i] == (vs[Next(i, |vs|)], vs[i])
  {
  }

  /** For distinct vertices the constructor's successor map sends every vertex to the next
      one, its predecessor map sends it back, and both have exactly those vertices as keys. */
  lemma {:induction false} BuiltMaps(vs: seq<int>)
    requires |vs| >= 1 && Distinct(vs)
    ensures EmplaceAll(SuccPairs(vs)).Keys == Elems(vs) && EmplaceAll(PredPairs(vs)).Keys == Elems(vs)
    ensures forall i :: 0 <= i < |vs| ==> SendsNext(EmplaceAll(SuccPairs(vs)), vs, i)
    ensures forall i :: 0 <= i < |vs| ==> SendsBack(EmplaceAll(PredPairs(vs)), vs, i)
  {
    var n := |vs|;
    var sp, pp := SuccPairs(vs), PredPairs(vs);
    SuccPairsKeys(vs);
    PredPairsKeys(vs);
    EmplaceAllDistinct(sp);
    EmplaceAllDistinct(pp);
    forall i | 0 <= i < n ensures SendsNext(EmplaceAll(sp), vs, i) && SendsBack(EmplaceAll(pp), vs, i) {
      PairsAt(vs, i);
      assert vs[i] in Elems(vs) && vs[Next(i, n)] in Elems(vs);
    }
  }

  /** The successor pairs of distinct vertices have distinct keys, the vertices themselves. */
  lemma SuccPairsKeys(vs: seq<int>)
    requires |vs| >= 1 && Distinct(vs)
    ensures DistinctKeys(SuccPairs(vs)) && PairKeys(SuccPairs(vs)) == Elems(vs)
  {
    var n := |vs|;
    var sp := SuccPairs(vs);
    forall i, j | 0 <= i < j < n ensures sp[i].0 != sp[j].0 {
      PairsAt(vs, i);
      PairsAt(vs, j);
    }
    forall x | x in Elems(vs) ensures x in PairKeys(sp) {
      var i :| 0 <= i < n && vs[i] == x;
      PairsAt(vs, i);
    }
    forall x | x in PairKeys(sp) ensures x in Elems(vs) {
      var i :| 0 <= i < n && sp[i].0 == x;
      PairsAt(vs, i);
    }
  }

  /** The predecessor pairs of distinct vertices have distinct keys, the vertices themselves. */
  lemma PredPairsKeys(vs: seq<int>)
    requires |vs| >= 1 && Distinct(vs)
    ensures DistinctKeys(PredPairs(vs)) && PairKeys(PredPairs(vs)) == Elems(vs)
  {
    var n := |vs|;
    var pp := PredPairs(vs);
    forall i, j | 0 <= i < j < n ensures pp[i].0 != pp[j].0 {
      PairsAt(vs, i);
      PairsAt(vs, j);
    }
    forall x | x in Elems(vs) ensures x in PairKeys(pp) {
      var i :| 0 <= i < n && vs[i] == x;
      var j := if i == 0 then n - 1 else i - 1;
      assert Next(j, n) == i;
      PairsAt(vs, j);
      assert pp[j].0 == x;
    }
    forall x | x in PairKeys(pp) ensures x in Elems(vs) {
      var i :| 0 <= i < n && pp[i].0 == x;
      PairsAt(vs, i);
    }
  }

  /** Built from distinct vertices, the constructor's maps are the cycle through them in the
      given order and its exact inverse, and its heavy set lists exactly the heavy edges. */
  lemma {:induction false} BuiltCycle(vs: seq<int>, w: map<int, map<int, int>>)
    requires |vs| >= 1 && Distinct(vs)
    ensures IsCycleOrder(EmplaceAll(SuccPairs(vs)), vs)
    ensures IsInverse(EmplaceAll(SuccPairs(vs)), EmplaceAll(PredPairs(vs)))
    ensures HeavyOrigins(vs, w, |vs|) == HeavyOf(EmplaceAll(SuccPairs(vs)), w)
  {
    BuiltMaps(vs);
    var succ, pred := EmplaceAll(SuccPairs(vs)), EmplaceAll(PredPairs(vs));
    CycleFromNext(succ, pred, vs);
    HeavyFromNext(succ, vs, w);
  }

  /** On a successor map that sends each of the distinct vertices `vs` to the next one, the
      heavy vertices are those listed by `HeavyOrigins`. */
  lemma HeavyFromNext(succ: map<int, int>, vs: seq<int>, w: map<int, map<int, int>>)
    requires |vs| >= 1 && succ.Keys == Elems(vs)
    requires forall i :: 0 <= i < |vs| ==> SendsNext(succ, vs, i)
    ensures HeavyOrigins(vs, w, |vs|) == HeavyOf(succ, w)
  {
    var n := |vs|;
    forall x | x in HeavyOf(succ, w) ensures x in HeavyOrigins(vs, w, n) {
      var i :| 0 <= i < n && vs[i] == x;
      assert SendsNext(succ, vs, i);
      HeavyOriginsMember(vs, w, n, x);
    }
    forall x | x in HeavyOrigins(vs, w, n) ensures x in HeavyOf(succ, w) {
      HeavyOriginsMember(vs, w, n, x);
      var i :| 0 <= i < n && vs[i] == x && IsHeavy(w, vs[i], vs[Next(i, n)]);
      assert SendsNext(succ, vs, i);
    }
  }

  /** Redirecting `f` to `t` with the weight of `f -> t` keeps the heavy set exact. */
  lemma ChangeEdgeHeavy(succ: map<int, int>, w: map<int, map<int, int>>, f: int, t: int, weight: int)
    requires weight == HEAVY_EDGE <==> IsHeavy(w, f, t)
    ensures HeavyOf(succ[f := t], w) == if weight == HEAVY_EDGE then HeavyOf(succ, w) - {f} + {f} else HeavyOf(succ, w) - {f}
  {
  }

  /** The union of two maps keeps the heavy sets exact. */
  lemma UnionHeavy(s1: map<int, int>, s2: map<int, int>, w: map<int, map<int, int>>)
    requires s1.Keys !! s2.Keys
    ensures HeavyOf(s2 + s1, w) == HeavyOf(s1, w) + HeavyOf(s2, w)
  {
  }

  /** A cycle has no heavy vertex iff all of its edges are light. */
  lemma GoodIffAllLight(succ: map<int, int>, w: map<int, map<int, int>>)
    ensures HeavyOf(succ, w) == {} <==> forall a :: a in succ ==> !IsHeavy(w, a, succ[a])
  {
    if a :| a in succ && IsHeavy(w, a, succ[a]) {
      assert a in HeavyOf(succ, w);
    }
  }

  /** Deleting the edge out of `f` from a cycle leaves the path from the successor of `f`
      round to `f`, with a predecessor map that is still its exact inverse. */
  lemma DeleteEdgePath(succ: map<int, int>, pred: map<int, int>, t: seq<int>, f: int)
    requires IsCycleOrder(succ, t) && IsInverse(succ, pred) && f in succ
    ensures IsInverse(succ - {f}, pred - {succ[f]})
    ensures Links(succ - {f}, RotateAfter(t, f))
  {
    assert f in Elems(t);
    RotateAfterCycle(succ, t, f);
    var r := RotateAfter(t, f);
    CycleDistinct(succ, r);
    forall i | 0 <= i < |r| - 1 ensures r[i] in succ - {f} && (succ - {f})[r[i]] == r[i + 1] {
      assert r[i] != r[|r| - 1];
    }
  }

  /** One step of the loop of `AddCycle` over the successor map: moving key `k` from `rest` to
      `done` and emplacing its entry keeps the accumulated map `done + base`. */
  lemma AddedEdgeStep(done: map<int, int>, rest: map<int, int>, base: map<int, int>, k: int)
    requires k in rest && rest.Keys !! done.Keys
    ensures Emplace(done + base, k, rest[k]) == done[k := rest[k]] + base
    ensures done + rest == done[k := rest[k]] + (rest - {k})
    ensures (rest - {k}).Keys !! done[k := rest[k]].Keys
  {
  }

  /** One step of the loop of `AddCycle` over the predecessor map. */
  lemma AddedInverseStep(p: map<int, int>, done: map<int, int>, inv: map<int, int>, k: int, v: int)
    requires k !in done && AddedInverse(p, done, inv)
    ensures AddedInverse(p, done[k := v], Emplace(inv, v, k))
  {
    ValuesAdd(done, k, v);
    var d, r := done[k := v], Emplace(inv, v, k);
    forall x | x in r && x !in p ensures r[x] in d && d[r[x]] == x {
      if x in inv {
        assert r[x] == inv[x] && inv[x] in done;
      }
    }
  }

  /** One step of the successor walk along the cycle listed by `r`: after `k` vertices the walk
      has listed `r[..k]`, and the next vertex is `r[k]` unless it is back at the start. */
  lemma WalkStep(succ: map<int, int>, r: seq<int>, k: nat)
    requires IsCycleOrder(succ, r) && k < |r|
    ensures succ[r[k]] == r[Next(k, |r|)]
    ensures 0 < k ==> Next(k - 1, |r|) == k
    ensures r[..k + 1] == r[..k] + [r[k]]
  {
    CycleOrderNext(succ, r, k);
  }

  /** The walk along the cycle listed by `r` returns to the start exactly after all of it. */
  lemma WalkEnd(succ: map<int, int>, r: seq<int>, k: nat)
    requires IsCycleOrder(succ, r) && 1 <= k <= |r| && r[Next(k - 1, |r|)] == r[0]
    ensures k == |r| && r[..k] == r
  {
    CycleDistinct(succ, r);
  }

  /** Every vertex of `vs` has a weight towards the vertex after it, the last towards the first. */
  ghost predicate HasCycleWeights(vs: seq<int>, w: map<int, map<int, int>>)
  {
    forall i :: 0 <= i < |vs| ==> HasWeightAt(vs, w, i)
  }

  ghost predicate HasWeightAt(vs: seq<int>, w: map<int, map<int, int>>, i: int)
    requires 0 <= i < |vs|
  {
    vs[i] in w && vs[Next(i, |vs|)] in w[vs[i]]
  }

  /** The successor map after emplacing the first `k` pairs. */
  ghost function SuccUpTo(vs: seq<int>, k: nat): map<int, int>
    requires 1 <= |vs| && k <= |vs|
  {
    EmplaceAll(SuccPairs(vs)[..k])
  }

  /** The predecessor map after emplacing the first `k` pairs. */
  ghost function PredUpTo(vs: seq<int>, k: nat): map<int, int>
    requires 1 <= |vs| && k <= |vs|
  {
    EmplaceAll(PredPairs(vs)[..k])
  }

  /** The state of the constructor's loop once the edges leaving the first `k` vertices of `vs`
      are emplaced. */
  ghost predicate BuiltSoFar(vs: seq<int>, w: map<int, map<int, int>>, k: nat,
                             e: map<int, int>, inv: map<int, int>, h: set<int>)
    requires 1 <= |vs| && k <= |vs|
  {
    e == SuccUpTo(vs, k) && inv == PredUpTo(vs, k) && h == HeavyOrigins(vs, w, k)
  }

  /** Before the constructor's loop nothing is emplaced. */
  lemma BuildFirst(vs: seq<int>, w: map<int, map<int, int>>)
    requires |vs| >= 1
    ensures BuiltSoFar(vs, w, 0, map[], map[], {})
  {
    assert SuccPairs(vs)[..0] == [] && PredPairs(vs)[..0] == [];
  }

  /** One step of the constructor's loop: emplacing the edge from `vs[k]` to the next vertex
      extends the maps by the `k`-th pairs and the heavy origins by `vs[k]` when that edge is heavy. */
  lemma BuildStep(vs: seq<int>, w: map<int, map<int, int>>, k: nat, e: map<int, int>, inv: map<int, int>, h: set<int>)
    requires k < |vs| && HasCycleWeights(vs, w) && BuiltSoFar(vs, w, k, e, inv, h)
    ensures vs[k] in w && vs[Next(k, |vs|)] in w[vs[k]]
    ensures BuiltSoFar(vs, w, k + 1, Emplace(e, vs[k], vs[Next(k, |vs|)]), Emplace(inv, vs[Next(k, |vs|)], vs[k]),
                       if w[vs[k]][vs[Next(k, |vs|)]] == HEAVY_EDGE then h + {vs[k]} else h)
  {
    assert HasWeightAt(vs, w, k);
    PairsAt(vs, k);
    EmplaceAllSnoc(SuccPairs(vs), k);
    EmplaceAllSnoc(PredPairs(vs), k);
  }

  /** After the closing step the maps and the heavy origins are those of the whole cycle. */
  lemma BuildLast(vs: seq<int>, w: map<int, map<int, int>>, e: map<int, int>, inv: map<int, int>, h: set<int>)
    requires |vs| >= 1 && BuiltSoFar(vs, w, |vs|, e, inv, h)
    ensures e == EmplaceAll(SuccPairs(vs)) && inv == EmplaceAll(PredPairs(vs)) && h == HeavyOrigins(vs, w, |vs|)
  {
    assert SuccPairs(vs)[..|vs|] == SuccPairs(vs) && PredPairs(vs)[..|vs|] == PredPairs(vs);
  }

  /** The loop of the `Cycle` constructor: emplaces the edges `vs[i - 1] -> vs[i]`, their
      reverses and their heavy origins for `i = 1 .. |vs| - 1`, then the closing edge from the
      last vertex back to the first. */
  method BuildMaps(vertexes: seq<int>, graph: Graph) returns (e: map<int, int>, inv: map<int, int>, h: set<int>)
    requires |vertexes| >= 1
    requires HasCycleWeights(vertexes, graph.edges)
    ensures e == EmplaceAll(SuccPairs(vertexes))
    ensures inv == EmplaceAll(PredPairs(vertexes))
    ensures h == HeavyOrigins(vertexes, graph.edges, |vertexes|)
  {
    var n := |vertexes|;
    ghost var w := graph.edges;
    e, inv, h := map[], map[], {};
    BuildFirst(vertexes, w);
    var i := 1;
    while i < n
      invariant 1 <= i <= n
      invariant BuiltSoFar(vertexes, w, i - 1, e, inv, h)
    {
      assert Next(i - 1, n) == i;
      BuildStep(vertexes, w, i - 1, e, inv, h);
      e := Emplace(e, vertexes[i - 1], vertexes[i]);
      inv := Emplace(inv, vertexes[i], vertexes[i - 1]);
      if graph.GetEdgeWeight(vertexes[i - 1], vertexes[i]) == HEAVY_EDGE {
        h := h + {vertexes[i - 1]};
      }
      i := i + 1;
    }
    assert Next(n - 1, n) == 0;
    BuildStep(vertexes, w, n - 1, e, inv, h);
    e := Emplace(e, vertexes[n - 1], vertexes[0]);
    inv := Emplace(inv, vertexes[0], vertexes[n - 1]);
    if graph.GetEdgeWeight(vertexes[n - 1], vertexes[0]) == HEAVY_EDGE {
      h := h + {vertexes[n - 1]};
    }
    BuildLast(vertexes, w, e, inv, h);
  }

  /** The state of the first loop of `Cycle::AddCycle` once the edges `done` of `src` are
      emplaced and the edges `rest` remain. */
  ghost predicate EmplacedSoFar(base: map<int, int>, baseInv: map<int, int>, src: map<int, int>,
                                done: map<int, int>, rest: map<int, int>, e: map<int, int>, inv: map<int, int>)
  {
    && rest.Keys !! done.Keys && src == done + rest
    && e == done + base
    && AddedInverse(baseInv, done, inv)
  }

  /** Emplacing one remaining edge and its reverse keeps the loop state. */
  lemma EmplaceEdgeStep(base: map<int, int>, baseInv: map<int, int>, src: map<int, int>,
                        done: map<int, int>, rest: map<int, int>, e: map<int, int>, inv: map<int, int>, k: int)
    requires EmplacedSoFar(base, baseInv, src, done, rest, e, inv) && k in rest
    ensures EmplacedSoFar(base, baseInv, src, done[k := rest[k]], rest - {k},
                          Emplace(e, k, rest[k]), Emplace(inv, rest[k], k))
  {
    AddedEdgeStep(done, rest, base, k);
    AddedInverseStep(baseInv, done, inv, k, rest[k]);
  }

  /** With no edge remaining, the loop has emplaced all of `src`. */
  lemma EmplaceEdgesDone(base: map<int, int>, baseInv: map<int, int>, src: map<int, int>,
                         done: map<int, int>, e: map<int, int>, inv: map<int, int>)
    requires EmplacedSoFar(base, baseInv, src, done, map[], e, inv)
    ensures e == src + base && AddedInverse(baseInv, src, inv)
  {
    assert done == src;
  }

  /** The first loop of `Cycle::AddCycle`: emplaces every edge of `src` into the successor map
      `base` and its reverse into the predecessor map `baseInv`, in any order. */
  method EmplaceEdges(base: map<int, int>, baseInv: map<int, int>, src: map<int, int>)
    returns (e: map<int, int>, inv: map<int, int>)
    ensures e == src + base
    ensures AddedInverse(baseInv, src, inv)
  {
    e, inv := base, baseInv;
    var rest := src;
    ghost var done: map<int, int> := map[];
    assert src == done + rest;
    while rest != map[]
      invariant EmplacedSoFar(base, baseInv, src, done, rest, e, inv)
      decreases |rest|
    {
      NonEmptyHasElement(rest.Keys);
      var k :| k in rest;
      var v := rest[k];
      EmplaceEdgeStep(base, baseInv, src, done, rest, e, inv, k);
      e := Emplace(e, k, v);
      inv := Emplace(inv, v, k);
      done := done[k := v];
      rest := rest - {k};
    }
    EmplaceEdgesDone(base, baseInv, src, done, e, inv);
  }

  /** The second loop of `Cycle::AddCycle`: inserts every element of `src` into `base`. */
  method InsertAll(base: set<int>, src: set<int>) returns (h: set<int>)
    ensures h == base + src
  {
    h := base;
    var rest := src;
    while rest != {}
      invariant rest <= src
      invariant h == base + (src - rest)
      decreases |rest|
    {
      NonEmptyHasElement(rest);
      var x :| x in rest;
      h := h + {x};
      rest := rest - {x};
    }
  }

  class Cycle {
    var edges: map<int, int>
    var inverseEdges: map<int, int>
    var connectedEdge: (int, int)
    var heavyEdges: set<int>
    /** The vertices in successor order, starting anywhere. */
    ghost var order: seq<int>

    /** `edges` is one cycle listed by `order`, `inverseEdges` is its inverse, and every
        heavy vertex is on the cycle. */
    ghost predicate Valid()
      reads this
    {
      && IsCycleOrder(edges, order)
      && IsInverse(edges, inverseEdges)
      && heavyEdges <= edges.Keys
    }

    /** The heavy set lists exactly the vertices whose edge is heavy in `w`. */
    ghost predicate HeavyExact(w: map<int, map<int, int>>)
      reads this
    {
      heavyEdges == HeavyOf(edges, w)
    }

    /** The cycle through `vertexes` in the given order, with the heavy edges the graph gives it
        and no connected edge yet. */
    constructor (vertexes: seq<int>, graph: Graph)
      requires |vertexes| >= 1
      requires HasCycleWeights(vertexes, graph.edges)
      ensures edges == EmplaceAll(SuccPairs(vertexes))
      ensures inverseEdges == EmplaceAll(PredPairs(vertexes))
      ensures heavyEdges == HeavyOrigins(vertexes, graph.edges, |vertexes|)
      ensures connectedEdge == (-1, -1) && order == vertexes
      ensures Distinct(vertexes) ==> Valid() && HeavyExact(graph.edges)
    {
      var e, inv, h := BuildMaps(vertexes, graph);
      edges, inverseEdges, heavyEdges := e, inv, h;
      connectedEdge := (-1, -1);
      order := vertexes;
      new;
      if Distinct(vertexes) {
        BuiltCycle(vertexes, graph.edges);
      }
    }

    /** The cycle has no heavy edge. */
    predicate IsGood()
      reads this
    {
      heavyEdges == {}
    }

    function GetConnectedEdge(): (int, int)
      reads this
    {
      connectedEdge
    }

    /** Stores `edge`, which `GetConnectedEdge` then returns; nothing else changes. */
    method SetConnectedEdge(edge: (int, int))
      modifies this`connectedEdge
      ensures GetConnectedEdge() == edge
    {
      connectedEdge := (edge.0, edge.1);
    }

    /** Forgets the edge out of `firstVertex` and the predecessor entry of `secondVertex`. */
    method DeleteEdge(firstVertex: int, secondVertex: int)
      modifies this`edges, this`inverseEdges, this`heavyEdges
      ensures edges == old(edges) - {firstVertex}
      ensures inverseEdges == old(inverseEdges) - {secondVertex}
      ensures heavyEdges == old(heavyEdges) - {firstVertex}
    {
      edges := edges - {firstVertex};
      inverseEdges := inverseEdges - {secondVertex};
      heavyEdges := heavyEdges - {firstVertex};
    }

    /** Redirects the edge out of `first` to `newSecond`, which gets `first` as predecessor
        unless it has one; `first` is heavy afterwards iff the new weight is heavy. */
    method ChangeEdge(first: int, newSecond: int, weightOfNewEdge: int)
      requires first in edges
      modifies this`edges, this`inverseEdges, this`heavyEdges
      ensures edges == old(edges)[first := newSecond]
      ensures inverseEdges == Emplace(old(inverseEdges) - {old(edges)[first]}, newSecond, first)
      ensures heavyEdges == if weightOfNewEdge == HEAVY_EDGE then old(heavyEdges) - {first} + {first}
                            else old(heavyEdges) - {first}
    {
      inverseEdges := inverseEdges - {edges[first]};
      edges := edges[first := newSecond];
      inverseEdges := Emplace(inverseEdges, newSecond, first);
      heavyEdges := heavyEdges - {first};
      if weightOfNewEdge == HEAVY_EDGE {
        heavyEdges := heavyEdges + {first};
      }
    }

    /** Emplaces every edge of `cycle` and its reverse into this record and adds its heavy
        vertices; entries this record already has are kept. */
    method AddCycle(cycle: Cycle)
      modifies this`edges, this`inverseEdges, this`heavyEdges
      ensures edges == old(cycle.edges) + old(edges)
      ensures AddedInverse(old(inverseEdges), old(cycle.edges), inverseEdges)
      ensures heavyEdges == old(heavyEdges) + old(cycle.heavyEdges)
    {
      var e, inv := EmplaceEdges(edges, inverseEdges, cycle.edges);
      var h := InsertAll(heavyEdges, cycle.heavyEdges);
      edges, inverseEdges, heavyEdges := e, inv, h;
    }

    /** The edge to break: `(a, successor of a)` for a vertex `a` of the cycle, heavy whenever
        the cycle has a heavy edge. */
    method GetEdgeOfMaximumWeight() returns (edge: (int, int))
      requires edges != map[] && heavyEdges <= edges.Keys
      ensures edge.0 in edges && edge.1 == edges[edge.0]
      ensures heavyEdges != {} ==> edge.0 in heavyEdges
    {
      if heavyEdges == {} {
        NonEmptyHasElement(edges.Keys);
        var a :| a in edges;
        edge := (a, edges[a]);
      } else {
        NonEmptyHasElement(heavyEdges);
        var first :| first in heavyEdges;
        var second := GetSecond(first);
        edge := (first, second);
      }
    }

    /** The successor of `first`; on a valid record `first` is its predecessor. */
    function GetSecond(first: int): (second: int)
      reads this
      requires first in edges
      ensures Valid() ==> second in inverseEdges && inverseEdges[second] == first
    {
      edges[first]
    }

    /** The predecessor of `first`; on a valid record `first` is its successor. */
    function GetPrev(first: int): (prev: int)
      reads this
      requires first in inverseEdges
      ensures Valid() ==> prev in edges && edges[prev] == first
    {
      inverseEdges[first]
    }

    /** The walk `Print` performs: from some vertex along successors until it comes back;
        it lists every vertex of the cycle once, in successor order. */
    method GetCycle() returns (tour: seq<int>)
      requires Valid()
      ensures IsCycleOrder(edges, tour)
    {
      var n := |order|;
      assert order[0] in edges;
      var first :| first in edges;
      ghost var k0 := IndexOf(order, first);
      RotateCycle(edges, order, k0);
      ghost var r := Rotate(order, k0);
      RotateIndex(order, k0, 0);
      tour := [first];
      var next := edges[first];
      WalkStep(edges, r, 0);
      while next != first
        invariant 1 <= |tour| <= n && tour == r[..|tour|]
        invariant |tour| < n ==> next == r[|tour|]
        invariant |tour| == n ==> next == first
        decreases n - |tour|
      {
        WalkStep(edges, r, |tour|);
        tour := tour + [next];
        next := edges[next];
      }
      WalkEnd(edges, r, |tour|);
    }
  }
}
