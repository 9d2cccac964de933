/** The registries of `TSPApproximation.h` as values: every live cycle id carries the state of
    its cycle record, `vertexes` tells the id of the cycle a vertex is on, and `bad_cycles`
    holds at least the ids of the cycles with a heavy edge. The fusion primitives splice two or
    three cycle records into one; the lemmas here show that the result is one cycle again and
    that the registries stay consistent. */
module Registries {
  import opened Maps
  import opened CycleOrder
  import opened Graphs
  import opened Cycles

  /** The state of one cycle record: successor map, predecessor map, heavy set and the order
      in which the cycle visits its vertices. */
  datatype Ring = Ring(succ: map<int, int>, pred: map<int, int>, heavy: set<int>, order: seq<int>)

  /** A sound record: one cycle in the listed order, with its exact inverse and exactly the
      heavy vertices the weight table `w` gives it. */
  ghost predicate RingOk(r: Ring, w: map<int, map<int, int>>)
  {
    && IsCycleOrder(r.succ, r.order)
    && IsInverse(r.succ, r.pred)
    && r.heavy == HeavyOf(r.succ, w)
  }

  /** Every record is sound. */
  ghost predicate AllOk(rings: map<int, Ring>, w: map<int, map<int, int>>)
  {
    forall i :: i in rings ==> RingOk(rings[i], w)
  }

  /** Every vertex of a live cycle is registered with that cycle's id. */
  ghost predicate Owned(rings: map<int, Ring>, vertexes: map<int, int>)
  {
    forall i, v :: i in rings && v in rings[i].succ ==> v in vertexes && vertexes[v] == i
  }

  /** Every registered vertex is on the live cycle it is registered with. */
  ghost predicate Located(rings: map<int, Ring>, vertexes: map<int, int>)
  {
    forall v :: v in vertexes ==> vertexes[v] in rings && v in rings[vertexes[v]].succ
  }

  /** Every live cycle with a heavy edge is listed as bad. */
  ghost predicate Flagged(rings: map<int, Ring>, bad: set<int>)
  {
    forall i :: i in rings && rings[i].heavy != {} ==> i in bad
  }

  /** Every vertex of a live cycle is a vertex of the weight table. */
  ghost predicate Weighted(rings: map<int, Ring>, w: map<int, map<int, int>>)
  {
    forall i, v :: i in rings && v in rings[i].succ ==> v in w
  }

  /** The invariant of the three registries: sound records, vertices partitioned among the live
      ids, and `bad_cycles` a subset of the live ids holding every cycle that is not good. */
  ghost predicate Registry(rings: map<int, Ring>, vertexes: map<int, int>, bad: set<int>, w: map<int, map<int, int>>)
  {
    && AllOk(rings, w)
    && Owned(rings, vertexes)
    && Located(rings, vertexes)
    && Weighted(rings, w)
    && bad <= rings.Keys
    && Flagged(rings, bad)
  }

  /** Two different live cycles are sound, have no vertex in common and lie in the table. */
  lemma TwoRings(rings: map<int, Ring>, vertexes: map<int, int>, bad: set<int>, w: map<int, map<int, int>>, i: int, j: int)
    requires Registry(rings, vertexes, bad, w) && i in rings && j in rings && i != j
    ensures RingOk(rings[i], w) && RingOk(rings[j], w)
    ensures rings[i].succ.Keys !! rings[j].succ.Keys
    ensures rings[i].succ.Keys <= w.Keys && rings[j].succ.Keys <= w.Keys
  {
    Apart(rings, vertexes, i, j);
    assert Weighted(rings, w);
    forall v | v in rings[i].succ ensures v in w {
    }
    forall v | v in rings[j].succ ensures v in w {
    }
  }

  /** Two different live cycles have no vertex in common. */
  lemma Apart(rings: map<int, Ring>, vertexes: map<int, int>, i: int, j: int)
    requires Owned(rings, vertexes) && i in rings && j in rings && i != j
    ensures rings[i].succ.Keys !! rings[j].succ.Keys
  {
    forall v | v in rings[i].succ ensures v !in rings[j].succ {
      assert vertexes[v] == i;
    }
  }

  /** The registered vertices are exactly the vertices of the live cycles. */
  lemma RegisteredVertex(rings: map<int, Ring>, vertexes: map<int, int>, v: int)
    requires Owned(rings, vertexes) && Located(rings, vertexes)
    ensures v in vertexes <==> exists i :: i in rings && v in rings[i].succ
  {
    if v in vertexes {
      var i := vertexes[v];
      assert i in rings && v in rings[i].succ;
    }
  }

  /** A sound record lists a non-empty cycle. */
  lemma RingNonEmpty(r: Ring, w: map<int, map<int, int>>)
    requires RingOk(r, w)
    ensures r.succ != map[]
  {
    assert r.order[0] in Elems(r.order);
  }

  /** The heavy vertices of a sound record are among its vertices. */
  lemma RingHeavyKeys(r: Ring, w: map<int, map<int, int>>)
    requires RingOk(r, w)
    ensures r.heavy <= r.succ.Keys
  {
  }

  /** Every vertex of a sound record, and only those, has a predecessor entry. */
  lemma RingPredKeys(r: Ring, w: map<int, map<int, int>>)
    requires RingOk(r, w)
    ensures r.pred.Keys == r.succ.Keys
  {
    InverseKeys(r.succ, r.pred);
    CycleValues(r.succ, r.order);
  }

  /** The registry `vertexes` after every vertex of `keys` is set to `id`. */
  function Assigned(vertexes: map<int, int>, keys: set<int>, id: int): map<int, int>
  {
    vertexes + map v | v in keys :: id
  }

  /** After the assignment the vertices of `keys` point to `id` and the others are untouched. */
  lemma AssignedAt(vertexes: map<int, int>, keys: set<int>, id: int)
    ensures Assigned(vertexes, keys, id).Keys == vertexes.Keys + keys
    ensures forall v :: v in Assigned(vertexes, keys, id) ==>
              Assigned(vertexes, keys, id)[v] == if v in keys then id else vertexes[v]
  {
  }

  /** Setting one more vertex to `id` extends the assigned set by that vertex. */
  lemma AssignedStep(vertexes: map<int, int>, keys: set<int>, id: int, v: int)
    ensures Assigned(vertexes, keys, id)[v := id] == Assigned(vertexes, keys + {v}, id)
  {
  }

  /** Reassigning vertices that are already registered keeps the set of registered vertices. */
  lemma AssignedWithin(vertexes: map<int, int>, keys: set<int>, id: int)
    requires keys <= vertexes.Keys
    ensures Assigned(vertexes, keys, id).Keys == vertexes.Keys
  {
    AssignedAt(vertexes, keys, id);
  }

  /** The vertices of a live cycle are registered. */
  lemma OwnedKeys(rings: map<int, Ring>, vertexes: map<int, int>, i: int)
    requires Owned(rings, vertexes) && i in rings
    ensures rings[i].succ.Keys <= vertexes.Keys
  {
    forall v | v in rings[i].succ ensures v in vertexes {
    }
  }

  /** The registries after a new cycle `r` over vertices no cycle has yet is registered under
      the fresh id `id`: its vertices point to `id`, and `id` is bad iff `r` has a heavy edge. */
  lemma AddRing(rings: map<int, Ring>, vertexes: map<int, int>, bad: set<int>, w: map<int, map<int, int>>,
                id: int, r: Ring, bad': set<int>)
    requires Registry(rings, vertexes, bad, w)
    requires id !in rings && RingOk(r, w) && r.succ.Keys !! vertexes.Keys && r.succ.Keys <= w.Keys
    requires (id in bad' <==> r.heavy != {}) && bad' - {id} == bad
    ensures Registry(rings[id := r], Assigned(vertexes, r.succ.Keys, id), bad', w)
  {
    AddOwned(rings, vertexes, id, r);
    AddLocated(rings, vertexes, id, r);
    AddFlagged(rings, bad, id, r, bad');
  }

  /** Registering a new cycle keeps every vertex of a live cycle registered with its id. */
  lemma AddOwned(rings: map<int, Ring>, vertexes: map<int, int>, id: int, r: Ring)
    requires Owned(rings, vertexes) && id !in rings && r.succ.Keys !! vertexes.Keys
    ensures Owned(rings[id := r], Assigned(vertexes, r.succ.Keys, id))
  {
    var rings', vertexes' := rings[id := r], Assigned(vertexes, r.succ.Keys, id);
    AssignedAt(vertexes, r.succ.Keys, id);
    forall i, v | i in rings' && v in rings'[i].succ ensures v in vertexes' && vertexes'[v] == i {
      if i != id {
        assert v in vertexes && vertexes[v] == i;
      }
    }
  }

  /** Registering a new cycle keeps every registered vertex on the live cycle it is registered with. */
  lemma AddLocated(rings: map<int, Ring>, vertexes: map<int, int>, id: int, r: Ring)
    requires Located(rings, vertexes) && id !in rings
    ensures Located(rings[id := r], Assigned(vertexes, r.succ.Keys, id))
  {
    AssignedAt(vertexes, r.succ.Keys, id);
  }

  /** Registering a new cycle keeps `bad_cycles` among the live ids and holding every cycle with
      a heavy edge. */
  lemma AddFlagged(rings: map<int, Ring>, bad: set<int>, id: int, r: Ring, bad': set<int>)
    requires bad <= rings.Keys && Flagged(rings, bad)
    requires (id in bad' <==> r.heavy != {}) && bad' - {id} == bad
    ensures bad' <= rings[id := r].Keys && Flagged(rings[id := r], bad')
  {
    forall i | i in bad' ensures i in rings[id := r] {
      if i != id {
        assert i in bad;
      }
    }
  }

  /** With a single live cycle, its vertices are exactly the registered ones. */
  lemma SoleRing(rings: map<int, Ring>, vertexes: map<int, int>, id: int)
    requires Owned(rings, vertexes) && Located(rings, vertexes) && rings.Keys == {id}
    ensures rings[id].succ.Keys == vertexes.Keys
  {
    forall v | v in vertexes ensures v in rings[id].succ {
      assert vertexes[v] in rings.Keys;
    }
    forall v | v in rings[id].succ ensures v in vertexes {
      assert id in rings;
    }
  }

  /** Some cycle is live as soon as some vertex is registered. */
  lemma SomeRing(rings: map<int, Ring>, vertexes: map<int, int>, v: int)
    requires Located(rings, vertexes) && v in vertexes
    ensures rings != map[]
  {
    assert vertexes[v] in rings;
  }

  /** The registries after the cycles `gone` are absorbed into the cycle `c`, whose new state
      `r` covers exactly the vertices registered with `c` or with an absorbed id: the absorbed
      ids are erased, the record of `c` is replaced, and all merged vertices point to `c`. */
  lemma MergeInto(rings: map<int, Ring>, vertexes: map<int, int>, bad: set<int>,
                  w: map<int, map<int, int>>, c: int, gone: set<int>, r: Ring, bad': set<int>)
    requires Registry(rings, vertexes, bad, w)
    requires c in rings && c !in gone && gone <= rings.Keys && RingOk(r, w)
    requires forall v :: v in r.succ <==> v in vertexes && vertexes[v] in gone + {c}
    requires (c in bad' <==> c in bad || r.heavy != {}) && bad' - {c} == bad - gone - {c}
    ensures Registry((rings - gone)[c := r], Assigned(vertexes, r.succ.Keys, c), bad', w)
  {
    MergeOwned(rings, vertexes, c, gone, r);
    MergeLocated(rings, vertexes, c, gone, r);
    MergeWeighted(rings, vertexes, w, c, gone, r);
    MergeRingsOk(rings, w, c, gone, r);
    MergeFlagged(rings, bad, c, gone, r, bad');
  }

  /** Merging keeps every record sound. */
  lemma MergeRingsOk(rings: map<int, Ring>, w: map<int, map<int, int>>, c: int, gone: set<int>, r: Ring)
    requires AllOk(rings, w) && RingOk(r, w)
    ensures AllOk((rings - gone)[c := r], w)
  {
  }

  /** Merging keeps `bad_cycles` among the live ids and every cycle with a heavy edge in it. */
  lemma MergeFlagged(rings: map<int, Ring>, bad: set<int>, c: int, gone: set<int>, r: Ring, bad': set<int>)
    requires bad <= rings.Keys && Flagged(rings, bad) && c in rings
    requires (c in bad' <==> c in bad || r.heavy != {}) && bad' - {c} == bad - gone - {c}
    ensures bad' <= ((rings - gone)[c := r]).Keys && Flagged((rings - gone)[c := r], bad')
  {
    var rings' := (rings - gone)[c := r];
    forall i | i in bad' ensures i in rings' {
      if i != c {
        assert i in bad - gone - {c};
      }
    }
    forall i | i in rings' && rings'[i].heavy != {} ensures i in bad' {
      if i != c {
        assert i in bad - gone - {c};
      }
    }
  }

  /** Merging keeps every vertex of a live cycle registered with its id. */
  lemma MergeOwned(rings: map<int, Ring>, vertexes: map<int, int>, c: int, gone: set<int>, r: Ring)
    requires Owned(rings, vertexes) && c in rings && c !in gone
    requires forall v :: v in r.succ <==> v in vertexes && vertexes[v] in gone + {c}
    ensures Owned((rings - gone)[c := r], Assigned(vertexes, r.succ.Keys, c))
  {
    var rings', vertexes' := (rings - gone)[c := r], Assigned(vertexes, r.succ.Keys, c);
    AssignedAt(vertexes, r.succ.Keys, c);
    forall i, v | i in rings' && v in rings'[i].succ ensures v in vertexes' && vertexes'[v] == i {
      if i != c {
        assert v in rings[i].succ;
        assert vertexes[v] == i;
      }
    }
  }

  /** Merging keeps every registered vertex on the live cycle it is registered with. */
  lemma MergeLocated(rings: map<int, Ring>, vertexes: map<int, int>, c: int, gone: set<int>, r: Ring)
    requires Located(rings, vertexes) && c in rings && c !in gone
    requires forall v :: v in r.succ <==> v in vertexes && vertexes[v] in gone + {c}
    ensures Located((rings - gone)[c := r], Assigned(vertexes, r.succ.Keys, c))
  {
    var rings', vertexes' := (rings - gone)[c := r], Assigned(vertexes, r.succ.Keys, c);
    AssignedAt(vertexes, r.succ.Keys, c);
    forall v | v in vertexes' ensures vertexes'[v] in rings' && v in rings'[vertexes'[v]].succ {
      if v !in r.succ {
        assert vertexes[v] !in gone + {c};
      }
    }
  }

  /** Merging keeps every vertex of a live cycle in the weight table. */
  lemma MergeWeighted(rings: map<int, Ring>, vertexes: map<int, int>, w: map<int, map<int, int>>,
                      c: int, gone: set<int>, r: Ring)
    requires Weighted(rings, w) && Located(rings, vertexes) && c in rings && c !in gone
    requires forall v :: v in r.succ <==> v in vertexes && vertexes[v] in gone + {c}
    ensures Weighted((rings - gone)[c := r], w)
  {
    var rings' := (rings - gone)[c := r];
    forall i, v | i in rings' && v in rings'[i].succ ensures v in w {
      if i == c {
        var j := vertexes[v];
        assert v in rings[j].succ;
      } else {
        assert v in rings[i].succ;
      }
    }
  }

  /** The vertices of the live cycles `c` and `d` are the vertices registered with either. */
  lemma KeysOfTwo(rings: map<int, Ring>, vertexes: map<int, int>, c: int, d: int, keys: set<int>)
    requires Owned(rings, vertexes) && Located(rings, vertexes) && c in rings && d in rings
    requires keys == rings[c].succ.Keys + rings[d].succ.Keys
    ensures forall v :: v in keys <==> v in vertexes && vertexes[v] in {d} + {c}
  {
  }

  /** The vertices of the live cycles `c`, `d` and `e` are the vertices registered with one of them. */
  lemma KeysOfThree(rings: map<int, Ring>, vertexes: map<int, int>, c: int, d: int, e: int, keys: set<int>)
    requires Owned(rings, vertexes) && Located(rings, vertexes) && c in rings && d in rings && e in rings
    requires keys == rings[c].succ.Keys + rings[d].succ.Keys + rings[e].succ.Keys
    ensures forall v :: v in keys <==> v in vertexes && vertexes[v] in {d, e} + {c}
  {
  }

  /** The successor map of two cycles spliced at `l1` and `l2`: each of the two vertices takes
      over the other's successor. */
  function Splice2(s1: map<int, int>, s2: map<int, int>, l1: int, l2: int): (r: map<int, int>)
    requires l1 in s1 && l2 in s2
    ensures r.Keys == s1.Keys + s2.Keys
  {
    s2[l2 := s1[l1]] + s1[l1 := s2[l2]]
  }

  /** What `Cycle::ChangeEdge(f, t, _)` makes of the predecessor map `p` of the successor map `s`. */
  function Repointed(s: map<int, int>, p: map<int, int>, f: int, t: int): map<int, int>
    requires f in s
  {
    Emplace(p - {s[f]}, t, f)
  }

  /** The order in which the splice at `l1` and `l2` visits the vertices: from the successor
      of `l1` round to `l1`, then from the successor of `l2` round to `l2`. */
  function SpliceOrder2(t1: seq<int>, t2: seq<int>, l1: int, l2: int): seq<int>
    requires l1 in t1 && l2 in t2
  {
    RotateAfter(t1, l1) + RotateAfter(t2, l2)
  }

  /** On two disjoint sound records, redirecting `l1` to the successor of `l2` and `l2` to the
      successor of `l1` and uniting the records as `Cycle::AddCycle` does gives a sound record:
      one cycle in the order `SpliceOrder2`, with the exact inverse and the exact heavy set. */
  lemma Splice2Ok(r1: Ring, r2: Ring, l1: int, l2: int, w: map<int, map<int, int>>, p: map<int, int>)
    requires RingOk(r1, w) && RingOk(r2, w) && r1.succ.Keys !! r2.succ.Keys
    requires l1 in r1.succ && l2 in r2.succ
    requires AddedInverse(Repointed(r1.succ, r1.pred, l1, r2.succ[l2]), r2.succ[l2 := r1.succ[l1]], p)
    ensures l1 in r1.order && l2 in r2.order
    ensures RingOk(Ring(Splice2(r1.succ, r2.succ, l1, l2), p,
                        HeavyOf(r1.succ[l1 := r2.succ[l2]], w) + HeavyOf(r2.succ[l2 := r1.succ[l1]], w),
                        SpliceOrder2(r1.order, r2.order, l1, l2)), w)
  {
    InOrder(r1, w, l1);
    InOrder(r2, w, l2);
    Splice2Order(r1, r2, l1, l2, w);
    Splice2Inverse(r1, r2, l1, l2, w, p);
    UnionHeavy(r1.succ[l1 := r2.succ[l2]], r2.succ[l2 := r1.succ[l1]], w);
  }

  /** A vertex of a sound record is listed by its order. */
  lemma InOrder(r: Ring, w: map<int, map<int, int>>, v: int)
    requires RingOk(r, w) && v in r.succ
    ensures v in r.order
  {
    assert v in Elems(r.order);
  }

  /** The cycle half of `Splice2Ok`. */
  lemma Splice2Order(r1: Ring, r2: Ring, l1: int, l2: int, w: map<int, map<int, int>>)
    requires RingOk(r1, w) && RingOk(r2, w) && r1.succ.Keys !! r2.succ.Keys
    requires l1 in r1.order && l2 in r2.order
    ensures IsCycleOrder(Splice2(r1.succ, r2.succ, l1, l2), SpliceOrder2(r1.order, r2.order, l1, l2))
  {
    var t1, t2 := RotateAfter(r1.order, l1), RotateAfter(r2.order, l2);
    RotateAfterCycle(r1.succ, r1.order, l1);
    RotateAfterCycle(r2.succ, r2.order, l2);
    SpliceTwo(r1.succ, t1, r2.succ, t2);
    assert Splice2(r1.succ, r2.succ, l1, l2) == r2.succ[t2[|t2| - 1] := t1[0]] + r1.succ[t1[|t1| - 1] := t2[0]];
    assert SpliceOrder2(r1.order, r2.order, l1, l2) == t1 + t2;
  }

  /** The successor of a vertex of a sound record has no entry in a disjoint record's
      predecessor map. */
  lemma SuccOutside(r1: Ring, r2: Ring, l: int, w: map<int, map<int, int>>)
    requires RingOk(r1, w) && RingOk(r2, w) && r1.succ.Keys !! r2.succ.Keys && l in r1.succ
    ensures r1.succ[l] in r1.succ && r1.succ[l] !in r2.pred
  {
    RingPredKeys(r2, w);
    CycleValues(r1.succ, r1.order);
    ValueIn(r1.succ, l);
  }

  /** Repointing keeps the inverse of a sound record exact, and its keys move from the old
      successor of `f` to `t`. */
  lemma RepointedOk(r: Ring, f: int, t: int, w: map<int, map<int, int>>)
    requires RingOk(r, w) && f in r.succ && t !in r.pred
    ensures IsInverse(r.succ[f := t], Repointed(r.succ, r.pred, f, t))
    ensures Repointed(r.succ, r.pred, f, t).Keys == r.succ.Keys - {r.succ[f]} + {t}
  {
    RingPredKeys(r, w);
    ChangeEdgeInverse(r.succ, r.pred, f, t);
  }

  /** The inverse half of `Splice2Ok`. */
  lemma Splice2Inverse(r1: Ring, r2: Ring, l1: int, l2: int, w: map<int, map<int, int>>, p: map<int, int>)
    requires RingOk(r1, w) && RingOk(r2, w) && r1.succ.Keys !! r2.succ.Keys
    requires l1 in r1.succ && l2 in r2.succ
    requires AddedInverse(Repointed(r1.succ, r1.pred, l1, r2.succ[l2]), r2.succ[l2 := r1.succ[l1]], p)
    ensures IsInverse(Splice2(r1.succ, r2.succ, l1, l2), p)
  {
    var a, b := r1.succ[l1], r2.succ[l2];
    SuccOutside(r1, r2, l1, w);
    SuccOutside(r2, r1, l2, w);
    RepointedOk(r1, l1, b, w);
    RepointedOk(r2, l2, a, w);
    AddCycleInverse(r1.succ[l1 := b], Repointed(r1.succ, r1.pred, l1, b),
                    r2.succ[l2 := a], Repointed(r2.succ, r2.pred, l2, a), p);
  }

  /** The successor map of three cycles spliced at `l1`, `l2` and `l3`: each of the three
      vertices takes over the successor of the next one's, the third the first's. */
  function Splice3(s1: map<int, int>, s2: map<int, int>, s3: map<int, int>, l1: int, l2: int, l3: int): (r: map<int, int>)
    requires l1 in s1 && l2 in s2 && l3 in s3
    ensures r.Keys == s1.Keys + s2.Keys + s3.Keys
  {
    s3[l3 := s1[l1]] + (s2[l2 := s3[l3]] + s1[l1 := s2[l2]])
  }

  /** The order in which the splice at `l1`, `l2` and `l3` visits the vertices. */
  function SpliceOrder3(t1: seq<int>, t2: seq<int>, t3: seq<int>, l1: int, l2: int, l3: int): seq<int>
    requires l1 in t1 && l2 in t2 && l3 in t3
  {
    RotateAfter(t1, l1) + RotateAfter(t2, l2) + RotateAfter(t3, l3)
  }

  /** On three pairwise disjoint sound records, redirecting `l1` to the successor of `l2`, `l2`
      to that of `l3` and `l3` to that of `l1`, then uniting the first with the second and the
      result with the third as `Cycle::AddCycle` does, gives a sound record over all three. */
  lemma Splice3Ok(r1: Ring, r2: Ring, r3: Ring, l1: int, l2: int, l3: int, w: map<int, map<int, int>>,
                  p12: map<int, int>, p: map<int, int>)
    requires RingOk(r1, w) && RingOk(r2, w) && RingOk(r3, w)
    requires r1.succ.Keys !! r2.succ.Keys && r1.succ.Keys !! r3.succ.Keys && r2.succ.Keys !! r3.succ.Keys
    requires l1 in r1.succ && l2 in r2.succ && l3 in r3.succ
    requires AddedInverse(Repointed(r1.succ, r1.pred, l1, r2.succ[l2]), r2.succ[l2 := r3.succ[l3]], p12)
    requires AddedInverse(p12, r3.succ[l3 := r1.succ[l1]], p)
    ensures l1 in r1.order && l2 in r2.order && l3 in r3.order
    ensures RingOk(Ring(Splice3(r1.succ, r2.succ, r3.succ, l1, l2, l3), p,
                        HeavyOf(r1.succ[l1 := r2.succ[l2]], w) + HeavyOf(r2.succ[l2 := r3.succ[l3]], w)
                          + HeavyOf(r3.succ[l3 := r1.succ[l1]], w),
                        SpliceOrder3(r1.order, r2.order, r3.order, l1, l2, l3)), w)
  {
    InOrder(r1, w, l1);
    InOrder(r2, w, l2);
    InOrder(r3, w, l3);
    Splice3Order(r1, r2, r3, l1, l2, l3, w);
    Splice3Inverse(r1, r2, r3, l1, l2, l3, w, p12, p);
    Splice3Heavy(r1.succ, r2.succ, r3.succ, l1, l2, l3, w);
  }

  /** The cycle part of `Splice3Ok`. */
  lemma Splice3Order(r1: Ring, r2: Ring, r3: Ring, l1: int, l2: int, l3: int, w: map<int, map<int, int>>)
    requires RingOk(r1, w) && RingOk(r2, w) && RingOk(r3, w)
    requires r1.succ.Keys !! r2.succ.Keys && r1.succ.Keys !! r3.succ.Keys && r2.succ.Keys !! r3.succ.Keys
    requires l1 in r1.order && l2 in r2.order && l3 in r3.order
    ensures IsCycleOrder(Splice3(r1.succ, r2.succ, r3.succ, l1, l2, l3), SpliceOrder3(r1.order, r2.order, r3.order, l1, l2, l3))
  {
    var t1, t2, t3 := RotateAfter(r1.order, l1), RotateAfter(r2.order, l2), RotateAfter(r3.order, l3);
    RotateAfterCycle(r1.succ, r1.order, l1);
    RotateAfterCycle(r2.succ, r2.order, l2);
    RotateAfterCycle(r3.succ, r3.order, l3);
    SpliceThree(r1.succ, t1, r2.succ, t2, r3.succ, t3);
  }

  /** The heavy part of `Splice3Ok`. */
  lemma Splice3Heavy(s1: map<int, int>, s2: map<int, int>, s3: map<int, int>, l1: int, l2: int, l3: int,
                     w: map<int, map<int, int>>)
    requires s1.Keys !! s2.Keys && s1.Keys !! s3.Keys && s2.Keys !! s3.Keys
    requires l1 in s1 && l2 in s2 && l3 in s3
    ensures HeavyOf(Splice3(s1, s2, s3, l1, l2, l3), w)
      == HeavyOf(s1[l1 := s2[l2]], w) + HeavyOf(s2[l2 := s3[l3]], w) + HeavyOf(s3[l3 := s1[l1]], w)
  {
    UnionHeavy(s1[l1 := s2[l2]], s2[l2 := s3[l3]], w);
    UnionHeavy(s2[l2 := s3[l3]] + s1[l1 := s2[l2]], s3[l3 := s1[l1]], w);
  }

  /** The inverse part of `Splice3Ok`. */
  lemma Splice3Inverse(r1: Ring, r2: Ring, r3: Ring, l1: int, l2: int, l3: int, w: map<int, map<int, int>>,
                       p12: map<int, int>, p: map<int, int>)
    requires RingOk(r1, w) && RingOk(r2, w) && RingOk(r3, w)
    requires r1.succ.Keys !! r2.succ.Keys && r1.succ.Keys !! r3.succ.Keys && r2.succ.Keys !! r3.succ.Keys
    requires l1 in r1.succ && l2 in r2.succ && l3 in r3.succ
    requires AddedInverse(Repointed(r1.succ, r1.pred, l1, r2.succ[l2]), r2.succ[l2 := r3.succ[l3]], p12)
    requires AddedInverse(p12, r3.succ[l3 := r1.succ[l1]], p)
    ensures IsInverse(Splice3(r1.succ, r2.succ, r3.succ, l1, l2, l3), p)
  {
    var a, c := r1.succ[l1], r3.succ[l3];
    Splice3InverseFirst(r1, r2, r3, l1, l2, l3, w, p12);
    SuccOutside(r1, r3, l1, w);
    RepointedOk(r3, l3, a, w);
    AddCycleInverse(r2.succ[l2 := c] + r1.succ[l1 := r2.succ[l2]], p12,
                    r3.succ[l3 := a], Repointed(r3.succ, r3.pred, l3, a), p);
  }

  /** The first union of `Splice3Inverse`: the first two records, repointed and united. */
  lemma Splice3InverseFirst(r1: Ring, r2: Ring, r3: Ring, l1: int, l2: int, l3: int, w: map<int, map<int, int>>,
                            p12: map<int, int>)
    requires RingOk(r1, w) && RingOk(r2, w) && RingOk(r3, w)
    requires r1.succ.Keys !! r2.succ.Keys && r1.succ.Keys !! r3.succ.Keys && r2.succ.Keys !! r3.succ.Keys
    requires l1 in r1.succ && l2 in r2.succ && l3 in r3.succ
    requires AddedInverse(Repointed(r1.succ, r1.pred, l1, r2.succ[l2]), r2.succ[l2 := r3.succ[l3]], p12)
    ensures IsInverse(r2.succ[l2 := r3.succ[l3]] + r1.succ[l1 := r2.succ[l2]], p12)
    ensures p12.Keys == r1.succ.Keys - {r1.succ[l1]} + r2.succ.Keys + {r3.succ[l3]}
  {
    var b, c := r2.succ[l2], r3.succ[l3];
    SuccOutside(r2, r1, l2, w);
    SuccOutside(r3, r2, l3, w);
    SuccOutside(r1, r3, l1, w);
    RepointedOk(r1, l1, b, w);
    RepointedOk(r2, l2, c, w);
    AddCycleInverse(r1.succ[l1 := b], Repointed(r1.succ, r1.pred, l1, b),
                    r2.succ[l2 := c], Repointed(r2.succ, r2.pred, l2, c), p12);
  }
}
