/** Cycles given by a successor map, described by the sequence that lists their vertices
    in successor order, and the facts about rotating and splicing such sequences that the
    fusion primitives rely on. */
module CycleOrder {
  import opened Maps

  /** The position after `i` in a cyclic sequence of length `n`. */
  function Next(i: nat, n: nat): (j: nat)
    requires i < n
    ensures j < n
  {
    if i + 1 == n then 0 else i + 1
  }

  /** Every element of `t` but the last is a key of `succ` mapped to the element after it. */
  ghost predicate Links(succ: map<int, int>, t: seq<int>)
  {
    forall i {:trigger succ[t[i]]} :: 0 <= i < |t| - 1 ==> t[i] in succ && succ[t[i]] == t[i + 1]
  }

  /** `succ` is one cycle that visits the elements of `t` in this order: `t` lists each key
      of `succ` once (every position is the first one holding its vertex), each maps to the
      next element, and the last maps back to the first. */
  ghost predicate IsCycleOrder(succ: map<int, int>, t: seq<int>)
  {
    && |t| >= 1
    && (forall i :: 0 <= i < |t| ==> IndexOf(t, t[i]) == i)
    && succ.Keys == Elems(t)
    && Links(succ, t)
    && succ[t[|t| - 1]] == t[0]
  }

  /** In a distinct sequence every position is the first one holding its element. */
  lemma {:induction false} DistinctIndexOf(t: seq<int>)
    requires Distinct(t)
    ensures forall i :: 0 <= i < |t| ==> IndexOf(t, t[i]) == i
  {
    if t != [] {
      var u := t[1..];
      assert Distinct(u);
      DistinctIndexOf(u);
      forall i | 0 < i < |t| ensures IndexOf(t, t[i]) == i {
        assert t[i] == u[i - 1] && t[0] != t[i];
      }
    }
  }

  /** A cycle order lists no vertex twice. */
  lemma CycleDistinct(succ: map<int, int>, t: seq<int>)
    requires IsCycleOrder(succ, t)
    ensures Distinct(t)
  {
    forall i, j | 0 <= i < j < |t| ensures t[i] != t[j] {
      assert IndexOf(t, t[i]) == i && IndexOf(t, t[j]) == j;
    }
  }

  /** `pred` is the exact inverse of `succ`. */
  ghost predicate IsInverse(succ: map<int, int>, pred: map<int, int>)
  {
    && (forall k :: k in succ ==> succ[k] in pred && pred[succ[k]] == k)
    && (forall v :: v in pred ==> pred[v] in succ && succ[pred[v]] == v)
  }

  /** On a cycle order the successor of the element at position `i` is the element at `Next(i)`. */
  lemma CycleOrderNext(succ: map<int, int>, t: seq<int>, i: nat)
    requires IsCycleOrder(succ, t) && i < |t|
    ensures succ[t[i]] == t[Next(i, |t|)]
  {
  }

  /** The keys of the inverse of a map are its values. */
  lemma InverseKeys(succ: map<int, int>, pred: map<int, int>)
    requires IsInverse(succ, pred)
    ensures pred.Keys == Values(succ)
  {
    forall v | v in pred ensures v in Values(succ) {
      var k := pred[v];
      ValueIn(succ, k);
    }
    forall v | v in Values(succ) ensures v in pred {
      var k :| k in succ && succ[k] == v;
    }
  }

  /** The values of a cycle's successor map are its vertices. */
  lemma CycleValues(succ: map<int, int>, t: seq<int>)
    requires IsCycleOrder(succ, t)
    ensures Values(succ) == Elems(t)
  {
    CycleValuesCover(succ, t);
    CycleValuesWithin(succ, t);
  }

  /** Every vertex of a cycle is the successor of some vertex. */
  lemma CycleValuesCover(succ: map<int, int>, t: seq<int>)
    requires IsCycleOrder(succ, t)
    ensures Elems(t) <= Values(succ)
  {
    forall v | v in Elems(t) ensures v in Values(succ) {
      var i :| 0 <= i < |t| && t[i] == v;
      var j := if i == 0 then |t| - 1 else i - 1;
      assert t[j] in Elems(t);
      CycleOrderNext(succ, t, j);
      ValueIn(succ, t[j]);
    }
  }

  /** Every successor is a vertex of the cycle. */
  lemma CycleValuesWithin(succ: map<int, int>, t: seq<int>)
    requires IsCycleOrder(succ, t)
    ensures Values(succ) <= Elems(t)
  {
    forall v | v in Values(succ) ensures v in Elems(t) {
      var k :| k in succ && succ[k] == v;
      var i :| 0 <= i < |t| && t[i] == k;
      CycleOrderNext(succ, t, i);
    }
  }

  /** `succ` sends the element at position `i` of the cyclic listing `t` to the next one. */
  ghost predicate SendsNext(succ: map<int, int>, t: seq<int>, i: int)
    requires 0 <= i < |t|
  {
    t[i] in succ && succ[t[i]] == t[Next(i, |t|)]
  }

  /** `pred` sends the element after position `i` of the cyclic listing `t` back to it. */
  ghost predicate SendsBack(pred: map<int, int>, t: seq<int>, i: int)
    requires 0 <= i < |t|
  {
    t[Next(i, |t|)] in pred && pred[t[Next(i, |t|)]] == t[i]
  }

  /** A successor map that sends each of the distinct vertices `t` to the next one, cyclically,
      and a map that sends each back, are a cycle listed by `t` and its inverse. */
  lemma CycleFromNext(succ: map<int, int>, pred: map<int, int>, t: seq<int>)
    requires |t| >= 1 && Distinct(t) && succ.Keys == Elems(t) && pred.Keys == Elems(t)
    requires forall i :: 0 <= i < |t| ==> SendsNext(succ, t, i)
    requires forall i :: 0 <= i < |t| ==> SendsBack(pred, t, i)
    ensures IsCycleOrder(succ, t) && IsInverse(succ, pred)
  {
    OrderFromNext(succ, t);
    InverseFromNext(succ, pred, t);
  }

  /** The cycle half of `CycleFromNext`. */
  lemma OrderFromNext(succ: map<int, int>, t: seq<int>)
    requires |t| >= 1 && Distinct(t) && succ.Keys == Elems(t)
    requires forall i :: 0 <= i < |t| ==> SendsNext(succ, t, i)
    ensures IsCycleOrder(succ, t)
  {
    var n := |t|;
    DistinctIndexOf(t);
    forall i | 0 <= i < n - 1 ensures t[i] in succ && succ[t[i]] == t[i + 1] {
      assert SendsNext(succ, t, i);
      assert Next(i, n) == i + 1;
    }
    assert succ[t[n - 1]] == t[0] by {
      assert SendsNext(succ, t, n - 1);
      assert Next(n - 1, n) == 0;
    }
  }

  /** The inverse half of `CycleFromNext`. */
  lemma InverseFromNext(succ: map<int, int>, pred: map<int, int>, t: seq<int>)
    requires |t| >= 1 && succ.Keys == Elems(t) && pred.Keys == Elems(t)
    requires forall i :: 0 <= i < |t| ==> SendsNext(succ, t, i)
    requires forall i :: 0 <= i < |t| ==> SendsBack(pred, t, i)
    ensures IsInverse(succ, pred)
  {
    var n := |t|;
    forall v | v in pred ensures pred[v] in succ && succ[pred[v]] == v {
      var i :| 0 <= i < n && t[i] == v;
      var j := if i == 0 then n - 1 else i - 1;
      assert Next(j, n) == i;
      assert SendsNext(succ, t, j) && SendsBack(pred, t, j);
    }
    forall k | k in succ ensures succ[k] in pred && pred[succ[k]] == k {
      var i :| 0 <= i < n && t[i] == k;
      assert SendsNext(succ, t, i) && SendsBack(pred, t, i);
    }
  }

  /** The sequence `t` started at position `k`. */
  function Rotate(t: seq<int>, k: nat): (r: seq<int>)
    requires k <= |t|
    ensures |r| == |t|
  {
    t[k..] + t[..k]
  }

  /** Position `i` of `Rotate(t, k)` holds position `k + i` of `t`, taken cyclically. */
  lemma RotateIndex(t: seq<int>, k: nat, i: nat)
    requires k <= |t| && i < |t|
    ensures Rotate(t, k)[i] == t[if k + i < |t| then k + i else k + i - |t|]
  {
  }

  /** Rotating the listing of a cycle lists the same cycle. */
  lemma RotateCycle(succ: map<int, int>, t: seq<int>, k: nat)
    requires IsCycleOrder(succ, t) && k < |t|
    ensures IsCycleOrder(succ, Rotate(t, k))
  {
    RotateElems(t, k);
    CycleDistinct(succ, t);
    RotateDistinct(t, k);
    DistinctIndexOf(Rotate(t, k));
    RotateLinks(succ, t, k);
    RotateClose(succ, t, k);
  }

  /** A rotation has the same elements. */
  lemma RotateElems(t: seq<int>, k: nat)
    requires k <= |t|
    ensures Elems(Rotate(t, k)) == Elems(t)
  {
    assert t == t[..k] + t[k..];
  }

  /** The last element of a rotation of a cycle's listing is sent to its first. */
  lemma RotateClose(succ: map<int, int>, t: seq<int>, k: nat)
    requires IsCycleOrder(succ, t) && k < |t|
    ensures succ[Rotate(t, k)[|t| - 1]] == Rotate(t, k)[0]
  {
    var n := |t|;
    RotateIndex(t, k, n - 1);
    RotateIndex(t, k, 0);
    CycleOrderNext(succ, t, if k + n - 1 < n then k + n - 1 else k - 1);
  }

  /** A rotation of a distinct sequence is distinct. */
  lemma RotateDistinct(t: seq<int>, k: nat)
    requires Distinct(t) && k <= |t|
    ensures Distinct(Rotate(t, k))
  {
    var r := Rotate(t, k);
    forall i, j | 0 <= i < j < |t| ensures r[i] != r[j] {
      RotateIndex(t, k, i);
      RotateIndex(t, k, j);
    }
  }

  /** A rotation of the listing of a cycle keeps every link of the cycle. */
  lemma RotateLinks(succ: map<int, int>, t: seq<int>, k: nat)
    requires IsCycleOrder(succ, t) && k < |t|
    ensures Links(succ, Rotate(t, k))
  {
    var n := |t|;
    var r := Rotate(t, k);
    forall i | 0 <= i < n - 1 ensures r[i] in succ && succ[r[i]] == r[i + 1] {
      RotateIndex(t, k, i);
      RotateIndex(t, k, i + 1);
      var a := if k + i < n then k + i else k + i - n;
      CycleOrderNext(succ, t, a);
    }
  }

  /** The position of `x` in `t` (the first one). */
  function IndexOf(t: seq<int>, x: int): (i: nat)
    requires x in t
    ensures i < |t| && t[i] == x
  {
    if t[0] == x then 0 else 1 + IndexOf(t[1..], x)
  }

  /** The listing of the cycle that ends with `x` (and so starts with the successor of `x`). */
  function RotateAfter(t: seq<int>, x: int): (r: seq<int>)
    requires x in t
    ensures |r| == |t|
  {
    Rotate(t, IndexOf(t, x) + 1)
  }

  /** `RotateAfter` lists the same cycle, ending with `x` and starting with its successor. */
  lemma RotateAfterCycle(succ: map<int, int>, t: seq<int>, x: int)
    requires IsCycleOrder(succ, t) && x in t
    ensures IsCycleOrder(succ, RotateAfter(t, x))
    ensures RotateAfter(t, x)[|t| - 1] == x && RotateAfter(t, x)[0] == succ[x]
  {
    var i := IndexOf(t, x);
    if i + 1 == |t| {
      assert RotateAfter(t, x) == t;
    } else {
      RotateCycle(succ, t, i + 1);
    }
  }

  /** Breaking the last edge into the second listing of two disjoint cycles, and the last edge
      into the first, and cross-linking the ends gives the single cycle that runs through the
      first listing and then the second. */
  lemma SpliceTwo(s1: map<int, int>, t1: seq<int>, s2: map<int, int>, t2: seq<int>)
    requires IsCycleOrder(s1, t1) && IsCycleOrder(s2, t2) && Elems(t1) !! Elems(t2)
    ensures IsCycleOrder(s2[t2[|t2| - 1] := t1[0]] + s1[t1[|t1| - 1] := t2[0]], t1 + t2)
  {
    ConcatElems(t1, t2);
    assert t1[|t1| - 1] in Elems(t1) && t2[|t2| - 1] in Elems(t2);
    SpliceFirst(s1, t1, s2, t2);
    SpliceLinks(s1, t1, s2, t2);
    assert (t1 + t2)[|t1 + t2| - 1] == t2[|t2| - 1];
  }

  /** The listings of two disjoint cycles, one after the other, hold each vertex once. */
  lemma SpliceFirst(s1: map<int, int>, t1: seq<int>, s2: map<int, int>, t2: seq<int>)
    requires IsCycleOrder(s1, t1) && IsCycleOrder(s2, t2) && Elems(t1) !! Elems(t2)
    ensures forall i :: 0 <= i < |t1 + t2| ==> IndexOf(t1 + t2, (t1 + t2)[i]) == i
  {
    CycleDistinct(s1, t1);
    CycleDistinct(s2, t2);
    DisjointConcatDistinct(t1, t2);
    DistinctIndexOf(t1 + t2);
  }

  /** The elements of a concatenation. */
  lemma ConcatElems(t1: seq<int>, t2: seq<int>)
    ensures Elems(t1 + t2) == Elems(t1) + Elems(t2)
  {
  }

  /** The concatenation of two distinct sequences without a common element is distinct. */
  lemma DisjointConcatDistinct(t1: seq<int>, t2: seq<int>)
    requires Distinct(t1) && Distinct(t2) && Elems(t1) !! Elems(t2)
    ensures Distinct(t1 + t2)
  {
    var t := t1 + t2;
    forall i, j | 0 <= i < j < |t| ensures t[i] != t[j] {
      if j < |t1| {
      } else if i >= |t1| {
        assert t[i] == t2[i - |t1|] && t[j] == t2[j - |t1|];
      } else {
        assert t[i] in Elems(t1) && t[j] in Elems(t2);
      }
    }
  }

  /** The spliced map links every element of `t1 + t2` to the one after it. */
  lemma SpliceLinks(s1: map<int, int>, t1: seq<int>, s2: map<int, int>, t2: seq<int>)
    requires IsCycleOrder(s1, t1) && IsCycleOrder(s2, t2) && Elems(t1) !! Elems(t2)
    ensures Links(s2[t2[|t2| - 1] := t1[0]] + s1[t1[|t1| - 1] := t2[0]], t1 + t2)
  {
    var l1, l2 := t1[|t1| - 1], t2[|t2| - 1];
    var m := s2[l2 := t1[0]] + s1[l1 := t2[0]];
    var t := t1 + t2;
    CycleDistinct(s1, t1);
    CycleDistinct(s2, t2);
    forall i | 0 <= i < |t| - 1 ensures t[i] in m && m[t[i]] == t[i + 1] {
      if i < |t1| - 1 {
        assert t[i] == t1[i] && t[i] != l1;
        CycleOrderNext(s1, t1, i);
      } else if i == |t1| - 1 {
      } else {
        var k := i - |t1|;
        assert t[i] == t2[k] && t[i + 1] == t2[k + 1];
        assert t2[k] in Elems(t2) && t2[k] != l2;
        assert t2[k] !in s1;
        CycleOrderNext(s2, t2, k);
      }
    }
  }

  /** The same for three disjoint cycles chained first to second to third and back to first. */
  lemma SpliceThree(s1: map<int, int>, t1: seq<int>, s2: map<int, int>, t2: seq<int>,
                    s3: map<int, int>, t3: seq<int>)
    requires IsCycleOrder(s1, t1) && IsCycleOrder(s2, t2) && IsCycleOrder(s3, t3)
    requires Elems(t1) !! Elems(t2) && Elems(t1) !! Elems(t3) && Elems(t2) !! Elems(t3)
    ensures IsCycleOrder(s3[t3[|t3| - 1] := t1[0]] + (s2[t2[|t2| - 1] := t3[0]] + s1[t1[|t1| - 1] := t2[0]]),
                         t1 + t2 + t3)
  {
    var l1, l2, l3 := t1[|t1| - 1], t2[|t2| - 1], t3[|t3| - 1];
    SpliceTwo(s1, t1, s2, t2);
    var a := s2[l2 := t1[0]] + s1[l1 := t2[0]];
    var t12 := t1 + t2;
    assert Elems(t12) == Elems(t1) + Elems(t2);
    assert t12[0] == t1[0] && t12[|t12| - 1] == l2;
    SpliceTwo(a, t12, s3, t3);
    assert l2 in Elems(t2) && l1 in Elems(t1);
    UpdateLeft(s2, s1, l2, t1[0], t3[0], l1, t2[0]);
    var m := s3[l3 := t1[0]] + (s2[l2 := t3[0]] + s1[l1 := t2[0]]);
    assert s3[l3 := t12[0]] + a[t12[|t12| - 1] := t3[0]] == m;
  }

  /** Re-updating key `x` of the left operand of a union whose right operand lacks `x`. */
  lemma UpdateLeft(a: map<int, int>, b: map<int, int>, x: int, u: int, w: int, y: int, z: int)
    requires x !in b && x != y
    ensures (a[x := u] + b[y := z])[x := w] == a[x := w] + b[y := z]
  {
  }

  /** Redirecting key `f` to a vertex `t` that has no predecessor yet, as `Cycle::ChangeEdge`
      does to the successor map and its inverse, keeps the two maps mutual inverses. */
  lemma ChangeEdgeInverse(succ: map<int, int>, pred: map<int, int>, f: int, t: int)
    requires IsInverse(succ, pred) && f in succ && t !in pred
    ensures IsInverse(succ[f := t], Emplace(pred - {succ[f]}, t, f))
  {
  }

  /** What `Cycle::AddCycle` makes of the inverse map `p`: entries of `p` stay, and every value
      of `other` gets an entry pointing to a key of `other` that maps to it, unless it already
      had one. */
  ghost predicate AddedInverse(p: map<int, int>, other: map<int, int>, inv: map<int, int>)
  {
    && inv.Keys == p.Keys + Values(other)
    && (forall v :: v in p ==> inv[v] == p[v])
    && (forall v :: v in inv && v !in p ==> inv[v] in other && other[inv[v]] == v)
  }

  /** Uniting two inverse pairs with disjoint keys and disjoint values, in the way
      `Cycle::AddCycle` does, gives an inverse pair again. */
  lemma AddCycleInverse(s1: map<int, int>, p1: map<int, int>, s2: map<int, int>, p2: map<int, int>,
                        inv: map<int, int>)
    requires IsInverse(s1, p1) && IsInverse(s2, p2)
    requires s1.Keys !! s2.Keys && p1.Keys !! p2.Keys
    requires AddedInverse(p1, s2, inv)
    ensures IsInverse(s2 + s1, inv)
    ensures inv.Keys == p1.Keys + p2.Keys
  {
    InverseKeys(s1, p1);
    InverseKeys(s2, p2);
    var m := s2 + s1;
    forall k | k in m ensures m[k] in inv && inv[m[k]] == k {
      if k in s1 {
        assert m[k] == s1[k];
        assert s1[k] in p1;
      } else {
        var v := s2[k];
        assert m[k] == v;
        assert v in Values(s2);
        assert v in p2;
        assert v !in p1;
        assert inv[v] in s2 && s2[inv[v]] == v;
        assert p2[s2[inv[v]]] == inv[v];
        assert p2[s2[k]] == k;
      }
    }
    forall v | v in inv ensures inv[v] in m && m[inv[v]] == v {
      if v !in p1 {
        assert inv[v] in s2 && s2[inv[v]] == v;
        assert inv[v] !in s1;
      }
    }
  }
}
