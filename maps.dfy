/** Helpers over maps and sequences shared by every component. */
module Maps {

  /** The effect of C++ `emplace`: insert `k := v` only when `k` has no value yet;
      an existing entry is never overwritten. */
  function Emplace<K, V>(m: map<K, V>, k: K, v: V): (r: map<K, V>)
    ensures r.Keys == m.Keys + {k}
    ensures forall j :: j in m ==> r[j] == m[j]
    ensures k !in m ==> r[k] == v
  {
    if k in m then m else m[k := v]
  }

  /** Emplaces the pairs of `ps` one after the other, first to last, into an empty map. */
  function EmplaceAll<K, V>(ps: seq<(K, V)>): map<K, V>
  {
    if ps == [] then map[] else Emplace(EmplaceAll(ps[..|ps| - 1]), ps[|ps| - 1].0, ps[|ps| - 1].1)
  }

  /** Emplacing one more pair of `ps` extends the fold by that pair. */
  lemma EmplaceAllSnoc<K, V>(ps: seq<(K, V)>, k: nat)
    requires k < |ps|
    ensures EmplaceAll(ps[..k + 1]) == Emplace(EmplaceAll(ps[..k]), ps[k].0, ps[k].1)
  {
    assert ps[..k + 1][..k] == ps[..k];
  }

  /** No key occurs twice among the pairs. */
  ghost predicate DistinctKeys<K, V>(ps: seq<(K, V)>)
  {
    forall i, j :: 0 <= i < j < |ps| ==> ps[i].0 != ps[j].0
  }

  /** The keys listed by the pairs. */
  function PairKeys<K, V>(ps: seq<(K, V)>): set<K>
  {
    set i | 0 <= i < |ps| :: ps[i].0
  }

  /** The keys of a non-empty list of pairs are those of all but its last pair, and the last one's. */
  lemma PairKeysSnoc<K, V>(ps: seq<(K, V)>)
    requires ps != []
    ensures PairKeys(ps) == PairKeys(ps[..|ps| - 1]) + {ps[|ps| - 1].0}
  {
    var init := ps[..|ps| - 1];
    forall x | x in PairKeys(ps) ensures x in PairKeys(init) + {ps[|ps| - 1].0} {
      var i :| 0 <= i < |ps| && ps[i].0 == x;
      if i < |init| {
        assert init[i] == ps[i];
      }
    }
    forall x | x in PairKeys(init) ensures x in PairKeys(ps) {
      var i :| 0 <= i < |init| && init[i].0 == x;
      assert ps[i] == init[i];
    }
  }

  /** When no key repeats, emplacing the pairs one by one yields exactly the map they list:
      its keys are the pairs' keys and each key carries its own pair's value. */
  lemma {:induction false} EmplaceAllDistinct<K, V>(ps: seq<(K, V)>)
    requires DistinctKeys(ps)
    ensures EmplaceAll(ps).Keys == PairKeys(ps)
    ensures forall i :: 0 <= i < |ps| ==> EmplaceAll(ps)[ps[i].0] == ps[i].1
  {
    if ps != [] {
      var init := ps[..|ps| - 1];
      assert DistinctKeys(init);
      EmplaceAllDistinct(init);
      var last := ps[|ps| - 1];
      assert last.0 !in EmplaceAll(init) by {
        forall i | 0 <= i < |init| ensures init[i].0 != last.0 {
          assert init[i] == ps[i];
        }
      }
      PairKeysSnoc(ps);
      forall i | 0 <= i < |ps| ensures EmplaceAll(ps)[ps[i].0] == ps[i].1 {
        if i < |init| {
          assert init[i] == ps[i];
        }
      }
    }
  }

  /** All elements of `s` are pairwise different. */
  ghost predicate Distinct<T>(s: seq<T>)
  {
    forall i, j :: 0 <= i < j < |s| ==> s[i] != s[j]
  }

  /** The set of values of `m`. */
  function Values(m: map<int, int>): set<int>
  {
    set k | k in m :: m[k]
  }

  /** The value of a key is among the values. */
  lemma ValueIn(m: map<int, int>, k: int)
    requires k in m
    ensures m[k] in Values(m)
  {
  }

  /** Adding a fresh key adds its value to the values. */
  lemma ValuesAdd(m: map<int, int>, k: int, v: int)
    requires k !in m
    ensures Values(m[k := v]) == Values(m) + {v}
  {
    var r := m[k := v];
    assert r[k] == v;
    forall x | x in Values(m) ensures x in Values(r) {
      var j :| j in m && m[j] == x;
      assert j in r && r[j] == x;
    }
  }

  /** The set of elements of `s`. */
  function Elems<T>(s: seq<T>): set<T>
  {
    set x | x in s
  }

  /** A non-empty set has an element. */
  lemma NonEmptyHasElement(s: set<int>)
    requires s != {}
    ensures exists x :: x in s
  {
    if forall x :: x !in s {
      assert false;
    }
  }

  /** The integers `0 .. n - 1`. */
  function Range(n: int): (r: set<int>)
    ensures forall i :: i in r <==> 0 <= i < n
  {
    if n <= 0 then {} else Range(n - 1) + {n - 1}
  }

  /** A distinct sequence has as many elements as its set of elements. */
  lemma {:induction false} DistinctCard<T>(s: seq<T>)
    requires Distinct(s)
    ensures |Elems(s)| == |s|
  {
    if s != [] {
      var t := s[1..];
      assert Distinct(t);
      DistinctCard(t);
      assert Elems(s) == Elems(t) + {s[0]};
      assert s[0] !in Elems(t);
    }
  }

  /** A subset is no larger than its superset. */
  lemma {:induction false} SubsetCard(a: set<int>, b: set<int>)
    requires a <= b
    ensures |a| <= |b|
    decreases |b|
  {
    if b != {} {
      NonEmptyHasElement(b);
      var x :| x in b;
      SubsetCard(a - {x}, b - {x});
    }
  }

  /** Marking one more element of `vs` (and perhaps others) leaves fewer unmarked elements:
      the measure that makes the recursive searches terminate. */
  lemma FewerOutside(vs: set<int>, before: set<int>, after: set<int>, v: int)
    requires v in vs && v !in before && before + {v} <= after <= vs
    ensures |vs - after| < |vs - before|
  {
    SubsetCard(vs - after, (vs - before) - {v});
  }

  /** `Range(n)` has `n` elements. */
  lemma {:induction false} RangeCard(n: nat)
    ensures |Range(n)| == n
  {
    if n > 0 {
      var below := Range(n - 1);
      assert n - 1 !in below;
      RangeCard(n - 1);
      assert |below + {n - 1}| == |below| + 1;
    }
  }

  /** A set holding exactly the integers `0 .. k - 1` has `k` elements. */
  lemma CardOfRange(s: set<int>, k: nat)
    requires forall i :: i in s <==> 0 <= i < k
    ensures |s| == k
  {
    assert s == Range(k);
    RangeCard(k);
  }

  /** Removing a member makes a set one smaller. */
  lemma RemoveCard(s: set<int>, x: int)
    requires x in s
    ensures |s - {x}| == |s| - 1
  {
    assert s == (s - {x}) + {x};
  }

  /** A set of at most one element that holds `x` is `{x}`. */
  lemma OnlyKey(s: set<int>, x: int)
    requires |s| <= 1 && x in s
    ensures s == {x}
  {
    if s != {x} {
      NonEmptyHasElement(s - {x});
      var y :| y in s - {x};
      SubsetCard({x, y}, s);
      assert false;
    }
  }

  /** A set with more than one element has one other than `x`. */
  lemma OtherElement(s: set<int>, x: int)
    requires |s| > 1
    ensures exists y :: y in s && y != x
  {
    if s - {x} == {} {
      assert s <= {x};
      SubsetCard(s, {x});
      assert false;
    }
    NonEmptyHasElement(s - {x});
  }
}
