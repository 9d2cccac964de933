/** The inputs of `TSPApproximation`: the weight matrix, which only its upper triangle is read
    from, and the initial cover of vertex-disjoint cycles. */
module Loading {
  import opened Maps
  import opened Graphs

  /** Every entry above the diagonal of the matrix exists: each row but the last is at least
      as long as the matrix is high. */
  ghost predicate Shaped(m: seq<seq<int>>)
  {
    forall i :: 0 <= i < |m| - 1 ==> |m| <= |m[i]|
  }

  /** The weight the loaded table gives the pair `a`, `b`: the upper-triangle entry. */
  ghost function Upper(m: seq<seq<int>>, a: int, b: int): int
    requires Shaped(m) && 0 <= a < |m| && 0 <= b < |m| && a != b
  {
    if a < b then m[a][b] else m[b][a]
  }

  /** The weight table read from `m`: vertices `0 .. |m| - 1`, no weight to a vertex outside the
      table or to itself, and every two different vertices joined with their upper-triangle weight. */
  ghost predicate LoadedFrom(e: map<int, map<int, int>>, m: seq<seq<int>>)
  {
    && Shaped(m)
    && e.Keys == Range(|m|)
    && (forall a, b :: a in e && b in e[a] ==> b in e && b != a)
    && (forall a, b :: a in e && b in e && a != b ==> b in e[a] && e[a][b] == Upper(m, a, b))
  }

  /** The loaded table is symmetric. */
  lemma LoadedSymmetric(e: map<int, map<int, int>>, m: seq<seq<int>>)
    requires LoadedFrom(e, m)
    ensures Symmetric(e)
  {
    forall a, b | a in e && b in e[a] ensures b in e && a in e[b] && e[b][a] == e[a][b] {
      assert b in e && b != a;
      assert Upper(m, b, a) == Upper(m, a, b);
    }
  }

  /** The loaded table joins every two different vertices. */
  lemma LoadedComplete(e: map<int, map<int, int>>, m: seq<seq<int>>)
    requires LoadedFrom(e, m)
    ensures Complete(e)
  {
  }

  /** The pair `a`, `b` has been loaded once the nested loops are at row `i`, column `j`. */
  ghost predicate Done(a: int, b: int, i: int, j: int)
  {
    if a < b then a < i || (a == i && b < j) else b < i || (b == i && a < j)
  }

  /** Row `a` of the table holds exactly the pairs loaded so far, with their weights. */
  ghost predicate RowSoFar(e: map<int, map<int, int>>, m: seq<seq<int>>, i: int, j: int, a: int)
    requires Shaped(m) && a in e && 0 <= a < |m|
  {
    && (forall b :: b in e[a] <==> 0 <= b < |m| && b != a && Done(a, b, i, j))
    && (forall b :: b in e[a] ==> 0 <= b < |m| && b != a && e[a][b] == Upper(m, a, b))
  }

  /** The state of the nested loading loops at row `i`, column `j`. */
  ghost predicate LoadedSoFar(e: map<int, map<int, int>>, m: seq<seq<int>>, i: int, j: int)
  {
    && Shaped(m)
    && e.Keys == Range(|m|)
    && (forall a :: a in e ==> RowSoFar(e, m, i, j, a))
  }

  /** Before the loops every row is empty, as the table starts out. */
  lemma LoadStart(e: map<int, map<int, int>>, m: seq<seq<int>>)
    requires Shaped(m) && e.Keys == Range(|m|) && forall a :: a in e ==> e[a] == map[]
    ensures LoadedSoFar(e, m, 0, 1)
  {
  }

  /** `AddEdge(i, j, m[i][j])` loads the pair at row `i`, column `j`. */
  lemma LoadStep(e: map<int, map<int, int>>, m: seq<seq<int>>, i: int, j: int)
    requires LoadedSoFar(e, m, i, j) && 0 <= i < j < |m|
    ensures i in e && j in e && j < |m[i]|
    ensures LoadedSoFar(AddedEdge(e, i, j, m[i][j]), m, i, j + 1)
  {
    var r := AddedEdge(e, i, j, m[i][j]);
    assert j !in e[i] && i !in e[j] by {
      assert RowSoFar(e, m, i, j, i) && RowSoFar(e, m, i, j, j);
    }
    AddedEdgeFresh(e, i, j, m[i][j]);
    forall a | a in r ensures RowSoFar(r, m, i, j + 1, a) {
      LoadStepRow(e, m, i, j, a);
    }
  }

  /** The row-by-row part of `LoadStep`. */
  lemma LoadStepRow(e: map<int, map<int, int>>, m: seq<seq<int>>, i: int, j: int, a: int)
    requires LoadedSoFar(e, m, i, j) && 0 <= i < j < |m| && a in e
    requires j !in e[i] && i !in e[j]
    ensures 0 <= a < |m| && RowSoFar(AddedEdge(e, i, j, m[i][j]), m, i, j + 1, a)
  {
    assert RowSoFar(e, m, i, j, a);
    LoadStepKeys(e, m, i, j, a);
    LoadStepWeights(e, m, i, j, a);
  }

  /** After `LoadStep` row `a` lists the pairs loaded up to column `j + 1`. */
  lemma LoadStepKeys(e: map<int, map<int, int>>, m: seq<seq<int>>, i: int, j: int, a: int)
    requires Shaped(m) && 0 <= i < j < |m| && a in e && 0 <= a < |m| && i in e && j in e
    requires RowSoFar(e, m, i, j, a)
    ensures forall b :: b in AddedEdge(e, i, j, m[i][j])[a] <==> 0 <= b < |m| && b != a && Done(a, b, i, j + 1)
  {
    forall b ensures b in AddedEdge(e, i, j, m[i][j])[a] <==> 0 <= b < |m| && b != a && Done(a, b, i, j + 1) {
      AddedEdgeNeighbours(e, i, j, m[i][j], a, b);
    }
  }

  /** After `LoadStep` row `a` carries the upper-triangle weights. */
  lemma LoadStepWeights(e: map<int, map<int, int>>, m: seq<seq<int>>, i: int, j: int, a: int)
    requires Shaped(m) && 0 <= i < j < |m| && a in e && 0 <= a < |m| && i in e && j in e
    requires RowSoFar(e, m, i, j, a) && j !in e[i] && i !in e[j]
    ensures forall b :: b in AddedEdge(e, i, j, m[i][j])[a] ==> 0 <= b < |m| && b != a && AddedEdge(e, i, j, m[i][j])[a][b] == Upper(m, a, b)
  {
    var r := AddedEdge(e, i, j, m[i][j]);
    forall b | b in r[a] ensures 0 <= b < |m| && b != a && r[a][b] == Upper(m, a, b) {
      AddedEdgeNeighbours(e, i, j, m[i][j], a, b);
      if b in e[a] {
        AddedEdgeKeeps(e, i, j, m[i][j], a, b);
      } else {
        AddedEdgeFresh(e, i, j, m[i][j]);
      }
    }
  }

  /** A finished row `i` is the start of row `i + 1`. */
  lemma LoadRowDone(e: map<int, map<int, int>>, m: seq<seq<int>>, i: int)
    requires LoadedSoFar(e, m, i, |m|) && 0 <= i
    ensures LoadedSoFar(e, m, i + 1, i + 2)
  {
    forall a | a in e ensures RowSoFar(e, m, i + 1, i + 2, a) {
      assert RowSoFar(e, m, i, |m|, a);
      forall b | 0 <= b < |m| && b != a ensures Done(a, b, i, |m|) == Done(a, b, i + 1, i + 2) {
      }
    }
  }

  /** After the last row the whole table is loaded. */
  lemma LoadDone(e: map<int, map<int, int>>, m: seq<seq<int>>)
    requires LoadedSoFar(e, m, |m|, |m| + 1)
    ensures LoadedFrom(e, m)
  {
    forall a, b | a in e && b in e && a != b ensures b in e[a] && e[a][b] == Upper(m, a, b) {
      assert RowSoFar(e, m, |m|, |m| + 1, a);
    }
    forall a, b | a in e && b in e[a] ensures b in e && b != a {
      assert RowSoFar(e, m, |m|, |m| + 1, a);
    }
  }

  /** `e` after the inner loop stored the weights of row `i` in columns `i + 1 .. j - 1`. */
  function RowTable(m: seq<seq<int>>, e: map<int, map<int, int>>, i: nat, j: int): (r: map<int, map<int, int>>)
    requires Shaped(m) && i < |m| && j <= |m| && e.Keys == Range(|m|)
    ensures r.Keys == e.Keys
    decreases j
  {
    if j <= i + 1 then e else AddedEdge(RowTable(m, e, i, j - 1), i, j - 1, m[i][j - 1])
  }

  /** One more inner iteration stores one more weight of row `i`. */
  lemma RowTableNext(m: seq<seq<int>>, e: map<int, map<int, int>>, i: nat, j: int)
    requires Shaped(m) && i < j < |m| && e.Keys == Range(|m|)
    ensures i in RowTable(m, e, i, j) && j in RowTable(m, e, i, j) && j < |m[i]|
    ensures RowTable(m, e, i, j + 1) == AddedEdge(RowTable(m, e, i, j), i, j, m[i][j])
  {
  }

  /** The inner loop turns the table at the start of row `i` into the one at the start of
      row `i + 1`. */
  lemma RowLoaded(m: seq<seq<int>>, e: map<int, map<int, int>>, i: nat)
    requires LoadedSoFar(e, m, i, i + 1) && i < |m|
    ensures LoadedSoFar(RowTable(m, e, i, |m|), m, i + 1, i + 2)
  {
    RowTableSoFar(m, e, i, |m|);
    LoadRowDone(RowTable(m, e, i, |m|), m, i);
  }

  /** The inner loop loads row `i` column by column. */
  lemma {:induction false} RowTableSoFar(m: seq<seq<int>>, e: map<int, map<int, int>>, i: nat, j: int)
    requires LoadedSoFar(e, m, i, i + 1) && i < |m| && i + 1 <= j <= |m|
    ensures LoadedSoFar(RowTable(m, e, i, j), m, i, j)
    decreases j
  {
    if j > i + 1 {
      RowTableSoFar(m, e, i, j - 1);
      LoadStep(RowTable(m, e, i, j - 1), m, i, j - 1);
    }
  }

  /** The vertices of the first cycles of a cover. */
  function Covered(cs: seq<seq<int>>): set<int>
  {
    if cs == [] then {} else Covered(cs[..|cs| - 1]) + Elems(cs[|cs| - 1])
  }

  /** Vertex-disjoint cycles over the vertices `vs`: each lists at least two different
      vertices of `vs`, and no two share a vertex. */
  ghost predicate CycleCover(vs: set<int>, cs: seq<seq<int>>)
  {
    && (forall k :: 0 <= k < |cs| ==> |cs[k]| >= 2 && Distinct(cs[k]) && Elems(cs[k]) <= vs)
    && (forall k, l :: 0 <= k < l < |cs| ==> Elems(cs[k]) !! Elems(cs[l]))
  }

  /** A vertex is covered iff one of the cycles lists it. */
  lemma {:induction false} CoveredMember(cs: seq<seq<int>>, v: int)
    ensures v in Covered(cs) <==> exists k :: 0 <= k < |cs| && v in cs[k]
  {
    if cs != [] {
      var init := cs[..|cs| - 1];
      CoveredMember(init, v);
      if k :| 0 <= k < |init| && v in init[k] {
        assert cs[k] == init[k];
      }
      if k :| 0 <= k < |cs| && v in cs[k] {
        if k < |init| {
          assert init[k] == cs[k];
        }
      }
    }
  }

  /** The next cycle of a cover shares no vertex with the ones before it. */
  lemma CoverNext(vs: set<int>, cs: seq<seq<int>>, k: nat)
    requires CycleCover(vs, cs) && k < |cs|
    ensures Elems(cs[k]) !! Covered(cs[..k])
    ensures Covered(cs[..k + 1]) == Covered(cs[..k]) + Elems(cs[k])
  {
    assert cs[..k + 1][..k] == cs[..k];
    forall v | v in Elems(cs[k]) ensures v !in Covered(cs[..k]) {
      forall l | 0 <= l < k ensures v !in cs[..k][l] {
        assert cs[..k][l] == cs[l];
        assert Elems(cs[l]) !! Elems(cs[k]);
      }
      CoveredMember(cs[..k], v);
    }
  }
}
