/** Pieces of the component split in `TSPApproximation.h`: the leaf rule of `SplitDfs` over
    the tree part of the directed graph, the tree case of `SplitComponent`, and the table of
    gaps between the branching vertices of a component's cycle that `SplitComponent` computes. */
module Splitting {
  import opened Maps
  import opened DirectedGraphs

  /** The answer of `SplitDfs(v)`: `v` becomes a leaf exactly when none of its out-neighbours
      does, so a vertex without out-neighbours is a leaf. */
  ghost predicate IsLeaf(e: map<int, set<int>>, rank: map<int, nat>, v: int)
    requires Ranked(e, rank) && v in rank
    decreases rank[v]
  {
    forall u :: u in e[v] ==> !IsLeaf(e, rank, u)
  }

  /** The leaf rule does not depend on the ranking that makes it well founded: any two
      rankings of `v` give the same answer. */
  lemma {:induction false} LeafRankFree(e: map<int, set<int>>, r1: map<int, nat>, r2: map<int, nat>, v: int)
    requires Ranked(e, r1) && Ranked(e, r2) && v in r1 && v in r2
    ensures IsLeaf(e, r1, v) == IsLeaf(e, r2, v)
    decreases r1[v]
  {
    forall u | u in e[v] ensures IsLeaf(e, r1, u) == IsLeaf(e, r2, u) {
      LeafRankFree(e, r1, r2, u);
    }
  }

  /** `SplitDfs(v)`: asks every out-neighbour of `v`, in an arbitrary order, whether it is a
      leaf. `leaves` is the set of those that are, the set a subtree join then absorbs into
      `v`'s cycle; `v` is a leaf itself exactly when that set is empty. */
  method SplitDfs(g: DirectedGraph, v: int, ghost rank: map<int, nat>) returns (leaf: bool, leaves: set<int>)
    requires Ranked(g.edges, rank) && v in rank
    ensures leaves == set u | u in g.edges[v] && IsLeaf(g.edges, rank, u)
    ensures leaf <==> IsLeaf(g.edges, rank, v)
    ensures leaf <==> leaves == {}
    decreases rank[v]
  {
    var out := g.edges[v];
    if out == {} {
      return true, {};
    }
    leaves := {};
    var rest := out;
    while rest != {}
      invariant rest <= out
      invariant leaves == set u | u in out - rest && IsLeaf(g.edges, rank, u)
      decreases |rest|
    {
      NonEmptyHasElement(rest);
      var u :| u in rest;
      var childLeaf, _ := SplitDfs(g, u, rank);
      if childLeaf {
        leaves := leaves + {u};
      }
      rest := rest - {u};
    }
    leaf := leaves == {};
    if leaf {
      forall u | u in out ensures !IsLeaf(g.edges, rank, u) {
        assert u !in leaves;
      }
    } else {
      var u :| u in leaves;
      assert u in g.edges[v] && IsLeaf(g.edges, rank, u);
    }
  }

  /** No vertex is its own out-neighbour. */
  ghost predicate Loopless(e: map<int, set<int>>)
  {
    forall a :: a in e ==> a !in e[a]
  }

  /** A loopless graph has no arc from `a` to itself. */
  lemma NoSelfArc(e: map<int, set<int>>, a: int)
    requires Loopless(e) && a in e
    ensures a !in e[a]
  {
  }

  /** Without self-loops every backward cycle has at least two vertices, and so has the
      concatenation of a non-empty sequence of them. */
  lemma LongCycles(e: map<int, set<int>>, segs: seq<seq<int>>)
    requires Loopless(e) && AllBackCycles(e, segs) && segs != []
    ensures |Flatten(segs)| >= 2
  {
    var c := segs[0];
    assert IsBackCycle(e, c);
    NoSelfArc(e, c[0]);
    assert Flatten(segs) == c + Flatten(segs[1..]);
  }

  /** The opening of `SplitComponent(start)`: the cycle search from `start`. A result of one
      vertex means the search met no backward cycle, so the component below `start` is a tree
      and `SplitDfs(start)` runs on it, splitting off the leaves of `start`; a longer result is
      the component's cycle, which the gap table takes over. */
  method SplitComponentTree(g: DirectedGraph, startVertex: int) returns (cycle: seq<int>, leaf: bool, leaves: set<int>)
    requires Closed(g.edges) && Loopless(g.edges) && startVertex in g.edges
    ensures |cycle| >= 1
    ensures |cycle| == 1 ==> cycle == [startVertex]
    ensures |cycle| == 1 ==> exists rank ::
      && Ranked(g.edges, rank) && startVertex in rank
      && (leaf <==> IsLeaf(g.edges, rank, startVertex))
      && leaves == set u | u in g.edges[startVertex] && IsLeaf(g.edges, rank, u)
    ensures |cycle| > 1 ==> !leaf && leaves == {}
  {
    ghost var segs, fin;
    cycle, segs, fin := g.FindCycle(startVertex);
    leaf, leaves := false, {};
    if |cycle| == 1 {
      if segs != [] {
        LongCycles(g.edges, segs);
      }
      leaf, leaves := SplitDfs(g, startVertex, fin);
    }
  }

  /** Which positions of `cycle` hold a vertex with more than one out-neighbour: the vertices
      that carry a subtree besides their cycle arc. */
  function Marks(e: map<int, set<int>>, cycle: seq<int>): (m: seq<bool>)
    requires Elems(cycle) <= e.Keys
    ensures |m| == |cycle|
    ensures forall i :: 0 <= i < |cycle| ==> (m[i] <==> |e[cycle[i]]| > 1)
  {
    seq(|cycle|, i requires 0 <= i < |cycle| => |e[cycle[i]]| > 1)
  }

  /** The first marked position at or after `j`, or `|m|` when there is none. */
  function FirstFrom(m: seq<bool>, j: nat): (r: nat)
    requires j <= |m|
    ensures j <= r <= |m|
    ensures r < |m| ==> m[r]
    ensures forall t :: j <= t < r ==> !m[t]
    decreases |m| - j
  {
    if j == |m| || m[j] then j else FirstFrom(m, j + 1)
  }

  /** The gap after marked position `i`: how many unmarked positions follow it before the next
      marked one, counting round the end of the cycle for the last marked position. */
  function Gap(m: seq<bool>, i: nat): int
    requires i < |m| && m[i]
  {
    var next := FirstFrom(m, i + 1);
    if next < |m| then next - i - 1 else |m| - 1 - i + FirstFrom(m, 0)
  }

  /** How many steps forward round a cycle of length `n` lead from position `i` to `j`. */
  function Ahead(i: int, j: int, n: int): int
    requires n > 0
  {
    (j - i) % n
  }

  /** The gap is the cyclic distance to the closest marked position ahead, less one: the
      position `gap + 1` steps on is marked, and every other marked position lies further
      ahead. */
  lemma GapAhead(m: seq<bool>, i: nat)
    requires i < |m| && m[i]
    ensures 0 <= Gap(m, i) < |m|
    ensures m[(i + Gap(m, i) + 1) % |m|]
    ensures forall j :: 0 <= j < |m| && m[j] && j != i ==> Ahead(i, j, |m|) > Gap(m, i)
  {
    var n, d, f := |m|, Gap(m, i), FirstFrom(m, 0);
    var next := FirstFrom(m, i + 1);
    assert f <= i;
    if next < n {
      Below(i + d + 1, n);
    } else {
      Wrapped(i + d + 1, n);
    }
    forall j | 0 <= j < n && m[j] && j != i ensures Ahead(i, j, n) > d {
      if j > i {
        Below(j - i, n);
      } else {
        Negative(j - i, n);
      }
    }
  }

  /** A position before the end is its own remainder. */
  lemma Below(x: int, n: int)
    requires 0 <= x < n
    ensures x % n == x
  {
  }

  /** A position past the end, by less than one round, wraps round once. */
  lemma Wrapped(x: int, n: int)
    requires 0 < n <= x < 2 * n
    ensures x % n == x - n
  {
    assert x == n + (x - n);
  }

  /** A step back, by less than one round, is a step forward by the rest of the round. */
  lemma Negative(x: int, n: int)
    requires -n <= x < 0
    ensures x % n == x + n
  {
    assert x == -n + (x + n);
  }

  /** The gaps of the marked positions before `j`. */
  function GapSum(m: seq<bool>, j: nat): int
    requires j <= |m|
  {
    if j == 0 then 0 else GapSum(m, j - 1) + (if m[j - 1] then Gap(m, j - 1) else 0)
  }

  /** The number of marked positions before `j`. */
  function MarkCount(m: seq<bool>, j: nat): nat
    requires j <= |m|
  {
    if j == 0 then 0 else MarkCount(m, j - 1) + (if m[j - 1] then 1 else 0)
  }

  /** Before the first marked position there is nothing to sum or count. */
  lemma {:induction false} NothingBefore(m: seq<bool>, j: nat)
    requires j <= FirstFrom(m, 0)
    ensures GapSum(m, j) == 0 && MarkCount(m, j) == 0
  {
    if j > 0 {
      NothingBefore(m, j - 1);
    }
  }

  /** Telescoping: past the first marked position `f`, the gaps and the marks before `j` add up
      to the distance from `f` to the next marked position at or after `j`, plus `f` once the
      last marked position is among them. */
  lemma {:induction false} GapSumFrom(m: seq<bool>, j: nat)
    requires FirstFrom(m, 0) < j <= |m|
    ensures var next := FirstFrom(m, j);
      GapSum(m, j) + MarkCount(m, j) == next - FirstFrom(m, 0) + (if next == |m| then FirstFrom(m, 0) else 0)
  {
    var f := FirstFrom(m, 0);
    if j == f + 1 {
      NothingBefore(m, f);
    } else {
      GapSumFrom(m, j - 1);
      if m[j - 1] {
        assert FirstFrom(m, j - 1) == j - 1;
      } else {
        assert FirstFrom(m, j - 1) == FirstFrom(m, j);
      }
    }
  }

  /** On a cycle with a marked position, the gaps of the `k` marked positions sum to the
      length of the cycle less `k`. */
  lemma GapsTotal(m: seq<bool>)
    requires exists i :: 0 <= i < |m| && m[i]
    ensures GapSum(m, |m|) == |m| - MarkCount(m, |m|)
  {
    var i :| 0 <= i < |m| && m[i];
    assert FirstFrom(m, 0) <= i;
    GapSumFrom(m, |m|);
  }

  /** The gap of a marked position whose next marked position is `i`. */
  lemma GapToNext(m: seq<bool>, prev: nat, i: nat)
    requires prev < i < |m| && m[prev] && m[i] && FirstFrom(m, prev + 1) >= i
    ensures Gap(m, prev) == i - prev - 1
  {
  }

  /** The gap of the last marked position, which wraps round to the first. */
  lemma GapToFirst(m: seq<bool>, prev: nat)
    requires prev < |m| && m[prev] && FirstFrom(m, prev + 1) >= |m|
    ensures Gap(m, prev) == |m| - 1 - prev + FirstFrom(m, 0)
  {
  }

  /** Every marked position before `prev` holds its gap in `gaps`. */
  ghost predicate GapsBefore(cycle: seq<int>, m: seq<bool>, gaps: map<int, int>, prev: int)
    requires |m| == |cycle| && prev <= |cycle|
  {
    forall p :: 0 <= p < prev && m[p] ==> cycle[p] in gaps && gaps[cycle[p]] == Gap(m, p)
  }

  /** Storing the gap of `prev` once the next marked position `i` is met extends the gaps
      stored up to `i`. */
  lemma GapsBeforeNext(cycle: seq<int>, m: seq<bool>, gaps: map<int, int>, prev: nat, i: nat)
    requires |m| == |cycle| && Distinct(cycle) && prev < i < |cycle| && m[prev] && m[i]
    requires FirstFrom(m, prev + 1) >= i && GapsBefore(cycle, m, gaps, prev)
    ensures GapsBefore(cycle, m, gaps[cycle[prev] := i - prev - 1], i)
  {
    GapToNext(m, prev, i);
    var g := gaps[cycle[prev] := i - prev - 1];
    forall p | 0 <= p < i && m[p] ensures cycle[p] in g && g[cycle[p]] == Gap(m, p) {
      if p != prev {
        assert cycle[p] != cycle[prev];
      }
    }
  }

  /** Storing the wrap-round gap of the last marked position `prev` completes the table. */
  lemma GapsBeforeLast(cycle: seq<int>, m: seq<bool>, gaps: map<int, int>, prev: nat)
    requires |m| == |cycle| && Distinct(cycle) && prev < |cycle| && m[prev]
    requires FirstFrom(m, prev + 1) >= |cycle| && GapsBefore(cycle, m, gaps, prev)
    ensures GapsBefore(cycle, m, gaps[cycle[prev] := |cycle| - 1 - prev + FirstFrom(m, 0)], |cycle|)
  {
    GapToFirst(m, prev);
    var g := gaps[cycle[prev] := |cycle| - 1 - prev + FirstFrom(m, 0)];
    forall p | 0 <= p < |cycle| && m[p] ensures cycle[p] in g && g[cycle[p]] == Gap(m, p) {
      if p != prev {
        assert cycle[p] != cycle[prev];
      }
    }
  }

  /** The two loops of `SplitComponent` that build `has_subtree`: every vertex of the cycle
      with more than one out-neighbour gets an entry, and the entry of each becomes the gap
      after its position, as `Gap` defines it. */
  method SubtreeGaps(e: map<int, set<int>>, cycle: seq<int>) returns (hasSubtree: map<int, int>)
    requires Elems(cycle) <= e.Keys && Distinct(cycle)
    ensures forall v :: v in hasSubtree <==> v in cycle && |e[v]| > 1
    ensures forall i :: 0 <= i < |cycle| && |e[cycle[i]]| > 1 ==>
      cycle[i] in hasSubtree && hasSubtree[cycle[i]] == Gap(Marks(e, cycle), i)
  {
    var m := Marks(e, cycle);
    var branching := BranchTable(e, cycle);
    assert forall v :: v in branching <==> v in cycle && |e[v]| > 1;
    forall p | 0 <= p < |cycle| ensures cycle[p] in branching <==> m[p] {
      assert cycle[p] in cycle;
    }
    hasSubtree := FillGaps(cycle, m, branching);
  }

  /** The first loop: an entry `0` for every vertex of the cycle with more than one
      out-neighbour. */
  method BranchTable(e: map<int, set<int>>, cycle: seq<int>) returns (table: map<int, int>)
    requires Elems(cycle) <= e.Keys
    ensures forall v :: v in table <==> v in cycle && |e[v]| > 1
  {
    table := map[];
    for k := 0 to |cycle|
      invariant forall v :: v in table <==> v in cycle[..k] && |e[v]| > 1
    {
      if |e[cycle[k]]| > 1 {
        table := table[cycle[k] := 0];
      }
    }
    assert cycle[..|cycle|] == cycle;
  }

  /** The state of the second loop after scanning the positions before `i`: `first` and
      `prev` are the first and the latest marked position seen (`-1` while there is none),
      and every marked position before `prev` holds its gap. */
  ghost predicate Scanned(cycle: seq<int>, m: seq<bool>, table: map<int, int>, gaps: map<int, int>,
                          i: int, prev: int, first: int)
    requires |m| == |cycle| && 0 <= i <= |cycle|
  {
    && gaps.Keys == table.Keys
    && -1 <= prev < i && (prev == -1 <==> first == -1)
    && (first == -1 <==> FirstFrom(m, 0) >= i)
    && (first != -1 ==> first == FirstFrom(m, 0) && m[prev] && FirstFrom(m, prev + 1) >= i)
    && GapsBefore(cycle, m, gaps, prev)
  }

  /** One pass of the second loop keeps its state. */
  lemma ScanNext(cycle: seq<int>, m: seq<bool>, table: map<int, int>, gaps: map<int, int>,
                 i: int, prev: int, first: int)
    requires |m| == |cycle| && Distinct(cycle) && 0 <= i < |cycle|
    requires forall p :: 0 <= p < |cycle| ==> (cycle[p] in table <==> m[p])
    requires Scanned(cycle, m, table, gaps, i, prev, first)
    ensures cycle[i] in gaps && first != -1 ==>
      Scanned(cycle, m, table, gaps[cycle[prev] := i - prev - 1], i + 1, i, first)
    ensures cycle[i] in gaps && first == -1 ==> Scanned(cycle, m, table, gaps, i + 1, i, i)
    ensures cycle[i] !in gaps ==> Scanned(cycle, m, table, gaps, i + 1, prev, first)
  {
    if cycle[i] in gaps && first != -1 {
      GapsBeforeNext(cycle, m, gaps, prev, i);
    }
  }

  /** The second loop and the wrap-round step: with `m` marking the positions whose vertex has
      an entry, each entry becomes the gap after its position. */
  method FillGaps(cycle: seq<int>, ghost m: seq<bool>, table: map<int, int>) returns (gaps: map<int, int>)
    requires |m| == |cycle| && Distinct(cycle)
    requires forall p :: 0 <= p < |cycle| ==> (cycle[p] in table <==> m[p])
    requires forall v :: v in table ==> v in cycle
    ensures gaps.Keys == table.Keys
    ensures forall i :: 0 <= i < |cycle| && m[i] ==> gaps[cycle[i]] == Gap(m, i)
  {
    gaps := table;
    var prev, first := -1, -1;
    for i := 0 to |cycle|
      invariant Scanned(cycle, m, table, gaps, i, prev, first)
    {
      ScanNext(cycle, m, table, gaps, i, prev, first);
      if cycle[i] in gaps {
        if first != -1 {
          gaps := gaps[cycle[prev] := i - prev - 1];
        } else {
          first := i;
        }
        prev := i;
      }
    }
    var lastPart := |cycle| - 1 - prev;
    if gaps != map[] {
      NonEmptyHasElement(gaps.Keys);
      var v :| v in gaps.Keys;
      var p :| 0 <= p < |cycle| && cycle[p] == v;
      assert FirstFrom(m, 0) <= p;
      GapsBeforeLast(cycle, m, gaps, prev);
      gaps := gaps[cycle[prev] := lastPart + first];
    }
  }
}
