/** The directed graph of `DirectedGraph.h`: an out-neighbour set per vertex, the depth-first
    search that picks the start vertices of the components (one per component when every vertex
    has in-degree at most one), and the one that recovers the cycle reachable from a start
    vertex. */
module DirectedGraphs {
  import opened Maps
  import opened CycleOrder

  /** The two states of a visited vertex: on the search stack, or finished. */
  datatype Color = Grey | Black

  /** Every out-neighbour is itself a vertex. */
  ghost predicate Closed(e: map<int, set<int>>)
  {
    forall a :: a in e ==> e[a] <= e.Keys
  }

  /** The out-neighbours of `x`, empty for a vertex the table does not have. */
  function Out(e: map<int, set<int>>, x: int): set<int>
  {
    if x in e then e[x] else {}
  }

  /** The table after `AddEdge(a, b)`: both end points are vertices and `b` is an
      out-neighbour of `a`. */
  function WithArc(e: map<int, set<int>>, a: int, b: int): (r: map<int, set<int>>)
    ensures r.Keys == e.Keys + {a, b}
  {
    var e1 := if a in e then e else e[a := {}];
    var e2 := if b in e1 then e1 else e1[b := {}];
    e2[a := e2[a] + {b}]
  }

  /** `AddEdge(a, b)` adds exactly the arc `a -> b`: the out-set of `a` gains `b`, every other
      out-set is the one before (empty for a new vertex), so no arc is ever removed. */
  lemma WithArcOut(e: map<int, set<int>>, a: int, b: int, x: int)
    ensures x in WithArc(e, a, b)
    || (x != a && x != b && x !in e)
    ensures x in WithArc(e, a, b) ==>
      WithArc(e, a, b)[x] == if x == a then Out(e, a) + {b} else Out(e, x)
  {
  }

  /** `AddEdge` keeps every out-neighbour a vertex. */
  lemma {:induction false} WithArcClosed(e: map<int, set<int>>, a: int, b: int)
    requires Closed(e)
    ensures Closed(WithArc(e, a, b))
  {
    var r := WithArc(e, a, b);
    forall x | x in r ensures r[x] <= r.Keys {
      WithArcOut(e, a, b, x);
      assert Out(e, x) <= e.Keys;
    }
  }

  /** `colors'` keeps every colour of `colors` and colours every new vertex black. */
  ghost predicate Extends(colors: map<int, Color>, colors': map<int, Color>)
  {
    && colors.Keys <= colors'.Keys
    && (forall x :: x in colors ==> colors'[x] == colors[x])
    && (forall x :: x in colors' && x !in colors ==> colors'[x] == Black)
  }

  /** Every vertex coloured in `colors'` but not in `colors` has all its out-neighbours coloured. */
  ghost predicate ClosedOver(e: map<int, set<int>>, colors: map<int, Color>, colors': map<int, Color>)
  {
    forall x :: x in colors' && x !in colors ==> x in e && e[x] <= colors'.Keys
  }

  /** A start vertex removed between `starts` and `starts'` is finished in `colors'`, is not
      `v`, and was not on the stack in `colors`. */
  ghost predicate ErasedFinished(colors: map<int, Color>, colors': map<int, Color>,
                                 starts: set<int>, starts': set<int>, v: int)
  {
    forall x :: x in starts && x !in starts' ==>
      x != v && x in colors' && colors'[x] == Black && (x in colors ==> colors[x] == Black)
  }

  /** `rank` strictly decreases along every arc out of a ranked vertex, and every out-neighbour
      of a ranked vertex is ranked: the part of the graph below the ranked vertices has no cycle. */
  ghost predicate Ranked(e: map<int, set<int>>, rank: map<int, nat>)
  {
    forall a :: a in rank ==> a in e && forall b :: b in e[a] ==> b in rank && rank[b] < rank[a]
  }

  /** Elements of `s` listed in reverse. */
  function Reverse(s: seq<int>): (r: seq<int>)
    ensures |r| == |s|
  {
    if s == [] then [] else Reverse(s[1..]) + [s[0]]
  }

  /** Position `k` of the reverse is position `|s| - 1 - k` of `s`. */
  lemma {:induction false} ReverseIndex(s: seq<int>, k: nat)
    requires k < |s|
    ensures Reverse(s)[k] == s[|s| - 1 - k]
  {
    if k < |s| - 1 {
      ReverseIndex(s[1..], k);
    }
  }

  /** The concatenation of a sequence of sequences. */
  function Flatten(ss: seq<seq<int>>): seq<int>
  {
    if ss == [] then [] else ss[0] + Flatten(ss[1..])
  }

  /** Flattening after one more sequence appends it. */
  lemma {:induction false} FlattenSnoc(ss: seq<seq<int>>, s: seq<int>)
    ensures Flatten(ss + [s]) == Flatten(ss) + s
  {
    if ss == [] {
      assert [s][1..] == [];
    } else {
      assert (ss + [s])[1..] == ss[1..] + [s];
      FlattenSnoc(ss[1..], s);
    }
  }

  /** `c` lists a cycle of `e` backwards: distinct vertices, each one an out-neighbour of the
      one after it, and the last an out-neighbour of the first. */
  ghost predicate IsBackCycle(e: map<int, set<int>>, c: seq<int>)
  {
    && |c| >= 1
    && Distinct(c)
    && (forall k :: 0 <= k < |c| - 1 ==> ArcBack(e, c, k))
    && c[0] in e && c[|c| - 1] in e[c[0]]
  }

  /** `c[k]` is an out-neighbour of `c[k + 1]`. */
  ghost predicate ArcBack(e: map<int, set<int>>, c: seq<int>, k: int)
    requires 0 <= k < |c| - 1
  {
    c[k + 1] in e && c[k] in e[c[k + 1]]
  }

  /** Every sequence of `ss` is a backward cycle of `e`. */
  ghost predicate AllBackCycles(e: map<int, set<int>>, ss: seq<seq<int>>)
  {
    forall k :: 0 <= k < |ss| ==> IsBackCycle(e, ss[k])
  }

  /** The vertices on the stack are exactly the grey ones, each once. */
  ghost predicate GreyStack(colors: map<int, Color>, path: seq<int>)
  {
    && Distinct(path)
    && (forall x :: x in path ==> x in colors && colors[x] == Grey)
    && (forall x :: x in colors && colors[x] == Grey ==> x in path)
  }

  /** Each vertex of the stack after the first was entered from the one before it: that one is
      its parent in `p`, and it is an out-neighbour of its parent. */
  ghost predicate TreeChain(e: map<int, set<int>>, p: map<int, int>, path: seq<int>)
  {
    forall k :: 0 < k < |path| ==> ChainAt(e, p, path, k)
  }

  /** `path[k]` was entered from `path[k - 1]`. */
  ghost predicate ChainAt(e: map<int, set<int>>, p: map<int, int>, path: seq<int>, k: int)
    requires 0 < k < |path|
  {
    path[k] in p && p[path[k]] == path[k - 1] && path[k - 1] in e && path[k] in e[path[k - 1]]
  }

  /** The state the cycle search needs on entering `v` with stack `path`. */
  ghost predicate CycleEntry(e: map<int, set<int>>, colors: map<int, Color>, p: map<int, int>, path: seq<int>, v: int)
  {
    && v in e && v !in colors && colors.Keys <= e.Keys && p.Keys <= colors.Keys + {v}
    && GreyStack(colors, path)
    && TreeChain(e, p, path + [v])
  }

  /** On entering `v`, colouring it grey pushes it on the stack. */
  lemma PushGrey(colors: map<int, Color>, path: seq<int>, v: int)
    requires GreyStack(colors, path) && v !in colors
    ensures GreyStack(colors[v := Grey], path + [v])
  {
    var c, q := colors[v := Grey], path + [v];
    forall i, j | 0 <= i < j < |q| ensures q[i] != q[j] {
      if j == |q| - 1 {
        assert q[i] == path[i] && path[i] in path;
      } else {
        assert q[i] == path[i] && q[j] == path[j];
      }
    }
    forall x | x in q ensures x in c && c[x] == Grey {
      if x != v {
        assert x in path;
      }
    }
  }

  /** Reversing a suffix one element longer appends that element: one step of the walk back
      along the parents. */
  lemma WalkBackStep(q: seq<int>, j: nat)
    requires 0 < j <= |q|
    ensures Reverse(q[j - 1..]) == Reverse(q[j..]) + [q[j - 1]]
  {
    assert q[j - 1..][1..] == q[j..];
  }

  /** The segment the search appends on the back edge from the top of the stack to `q[i]` is
      a backward cycle. */
  lemma {:induction false} BackSegment(e: map<int, set<int>>, p: map<int, int>, q: seq<int>, i: nat)
    requires i < |q| && Distinct(q) && TreeChain(e, p, q)
    requires q[|q| - 1] in e && q[i] in e[q[|q| - 1]]
    ensures IsBackCycle(e, [q[i]] + Reverse(q[i + 1..]))
  {
    var t := q[i + 1..];
    var c := [q[i]] + Reverse(t);
    var n := |q|;
    assert |c| == n - i;
    forall a, b | 0 <= a < b < |c| ensures c[a] != c[b] {
      ReverseIndex(t, b - 1);
      if a > 0 {
        ReverseIndex(t, a - 1);
      }
    }
    forall k | 0 <= k < |c| - 1 ensures ArcBack(e, c, k) {
      ReverseIndex(t, k);
      if k == 0 {
      } else {
        ReverseIndex(t, k - 1);
        var pos := n - 1 - k;
        assert c[k] == q[pos + 1] && c[k + 1] == q[pos];
        assert ChainAt(e, p, q, pos + 1);
      }
    }
    if |t| > 0 {
      ReverseIndex(t, |t| - 1);
      assert c[|c| - 1] == q[i + 1];
      assert ChainAt(e, p, q, i + 1);
    }
  }

  /** The state of the loop of `ComponentDfs(v)` over the out-neighbours of `v`, with `rest`
      still to examine: `colors'` extends the entry colouring `colors` by `v`, still grey, and
      by finished vertices whose out-neighbours are all coloured; every examined out-neighbour
      is coloured; only finished vertices other than `v` were erased from the starts. */
  ghost predicate ComponentLoop(e: map<int, set<int>>, colors: map<int, Color>, colors': map<int, Color>,
                                starts: set<int>, starts': set<int>, v: int, rest: set<int>)
  {
    && v in e && v !in colors && rest <= e[v]
    && colors.Keys + {v} <= colors'.Keys <= e.Keys
    && colors'[v] == Grey
    && (forall x :: x in colors ==> colors'[x] == colors[x])
    && (forall x :: x in colors' && x !in colors && x != v ==> colors'[x] == Black && x in e && e[x] <= colors'.Keys)
    && e[v] - rest <= colors'.Keys
    && starts' <= starts
    && ErasedFinished(colors, colors', starts, starts', v)
  }

  /** Entering `v`: it is grey and nothing is examined yet. */
  lemma ComponentStart(e: map<int, set<int>>, colors: map<int, Color>, starts: set<int>, v: int)
    requires v in e && v !in colors && colors.Keys <= e.Keys
    ensures ComponentLoop(e, colors, colors[v := Grey], starts, starts, v, e[v])
  {
  }

  /** An uncoloured out-neighbour `u` is a vertex, and searching it makes progress. */
  lemma ComponentDescend(e: map<int, set<int>>, colors: map<int, Color>, colors': map<int, Color>,
                         starts: set<int>, starts': set<int>, v: int, rest: set<int>, u: int)
    requires Closed(e) && ComponentLoop(e, colors, colors', starts, starts', v, rest) && u in rest && u !in colors'
    ensures u in e && colors'.Keys <= e.Keys
    ensures |e.Keys - colors'.Keys| < |e.Keys - colors.Keys|
  {
    FewerOutside(e.Keys, colors.Keys, colors'.Keys, v);
  }

  /** After the nested search from `u` the loop state holds without `u`. */
  lemma ComponentAfterChild(e: map<int, set<int>>, colors: map<int, Color>, c0: map<int, Color>, c1: map<int, Color>,
                            starts: set<int>, s0: set<int>, s1: set<int>, v: int, rest: set<int>, u: int)
    requires ComponentLoop(e, colors, c0, starts, s0, v, rest) && u in rest
    requires c0.Keys + {u} <= c1.Keys <= e.Keys && Extends(c0, c1) && ClosedOver(e, c0, c1)
    requires s1 <= s0 && ErasedFinished(c0, c1, s0, s1, u)
    ensures ComponentLoop(e, colors, c1, starts, s1, v, rest - {u})
  {
    forall x | x in starts && x !in s1
      ensures x != v && x in c1 && c1[x] == Black && (x in colors ==> colors[x] == Black)
    {
      if x in s0 {
        assert x in c0 ==> c0[x] == Black;
      }
    }
  }

  /** Examining an out-neighbour that is already coloured: a finished one is erased from the
      starts, a grey one is left alone. */
  lemma ComponentSeen(e: map<int, set<int>>, colors: map<int, Color>, colors': map<int, Color>,
                      starts: set<int>, starts': set<int>, v: int, rest: set<int>, u: int)
    requires ComponentLoop(e, colors, colors', starts, starts', v, rest) && u in rest && u in colors'
    ensures colors'[u] == Grey ==> ComponentLoop(e, colors, colors', starts, starts', v, rest - {u})
    ensures colors'[u] != Grey ==> ComponentLoop(e, colors, colors', starts, starts' - {u}, v, rest - {u})
  {
  }

  /** Leaving `v` once all its out-neighbours are examined: `v` turns black and the search
      has done what `ComponentDfs` promises. */
  lemma ComponentFinish(e: map<int, set<int>>, colors: map<int, Color>, colors': map<int, Color>,
                        starts: set<int>, starts': set<int>, v: int)
    requires ComponentLoop(e, colors, colors', starts, starts', v, {})
    ensures colors.Keys + {v} <= colors'[v := Black].Keys <= e.Keys
    ensures Extends(colors, colors'[v := Black]) && ClosedOver(e, colors, colors'[v := Black])
    ensures ErasedFinished(colors, colors'[v := Black], starts, starts', v)
  {
  }

  /** Every start vertex erased between `starts` and `starts'` is an out-neighbour of a vertex
      coloured since `colors`. */
  ghost predicate ErasedByArc(e: map<int, set<int>>, colors: map<int, Color>, colors': map<int, Color>,
                              starts: set<int>, starts': set<int>)
  {
    forall x :: x in starts && x !in starts' ==> exists y :: y in colors' && y !in colors && y in e && x in e[y]
  }

  /** Every start vertex that was already finished in `colors` and is an out-neighbour of a
      vertex coloured since then is erased, apart from the out-neighbours of `v` in `rest`,
      which are not examined yet. */
  ghost predicate ReachedErased(e: map<int, set<int>>, colors: map<int, Color>, colors': map<int, Color>,
                                starts: set<int>, starts': set<int>, v: int, rest: set<int>)
  {
    forall x, y ::
      (x in starts && x in colors && colors[x] == Black && y in colors' && y !in colors
       && y in e && x in e[y] && (y == v ==> x !in rest)) ==> x !in starts'
  }

  /** Entering `v`: nothing is erased, and the only newly coloured vertex is `v`, none of whose
      arcs is examined. */
  lemma EraseStart(e: map<int, set<int>>, colors: map<int, Color>, starts: set<int>, v: int)
    requires v in e && v !in colors
    ensures ErasedByArc(e, colors, colors[v := Grey], starts, starts)
    ensures ReachedErased(e, colors, colors[v := Grey], starts, starts, v, e[v])
  {
  }

  /** After the nested search from `u`: what it erased it erased along an arc it coloured the
      tail of, and it erased every finished start it reached. */
  lemma EraseAfterChild(e: map<int, set<int>>, colors: map<int, Color>, c0: map<int, Color>, c1: map<int, Color>,
                        starts: set<int>, s0: set<int>, s1: set<int>, v: int, rest: set<int>, u: int)
    requires ComponentLoop(e, colors, c0, starts, s0, v, rest) && u in rest && u !in c0
    requires ErasedByArc(e, colors, c0, starts, s0) && ReachedErased(e, colors, c0, starts, s0, v, rest)
    requires Extends(c0, c1) && s1 <= s0
    requires ErasedByArc(e, c0, c1, s0, s1) && ReachedErased(e, c0, c1, s0, s1, u, {})
    ensures ErasedByArc(e, colors, c1, starts, s1) && ReachedErased(e, colors, c1, starts, s1, v, rest - {u})
  {
    forall x | x in starts && x !in s1 ensures exists y :: y in c1 && y !in colors && y in e && x in e[y] {
      if x in s0 {
        var y :| y in c1 && y !in c0 && y in e && x in e[y];
      } else {
        var y :| y in c0 && y !in colors && y in e && x in e[y];
      }
    }
    forall x, y | x in starts && x in colors && colors[x] == Black && y in c1 && y !in colors
      && y in e && x in e[y] && (y == v ==> x !in rest - {u})
      ensures x !in s1
    {
      if y in c0 {
        assert x != u;
      } else if x in s0 {
        assert c0[x] == Black;
      }
    }
  }

  /** Examining an out-neighbour `u` that is already coloured: erasing it, when it is finished,
      is erasing along the arc from `v`; a grey one is not a finished start. */
  lemma EraseSeen(e: map<int, set<int>>, colors: map<int, Color>, c0: map<int, Color>,
                  starts: set<int>, s0: set<int>, v: int, rest: set<int>, u: int)
    requires ComponentLoop(e, colors, c0, starts, s0, v, rest) && u in rest && u in c0
    requires ErasedByArc(e, colors, c0, starts, s0) && ReachedErased(e, colors, c0, starts, s0, v, rest)
    ensures c0[u] == Grey ==>
      ErasedByArc(e, colors, c0, starts, s0) && ReachedErased(e, colors, c0, starts, s0, v, rest - {u})
    ensures c0[u] != Grey ==>
      ErasedByArc(e, colors, c0, starts, s0 - {u}) && ReachedErased(e, colors, c0, starts, s0 - {u}, v, rest - {u})
  {
    if c0[u] != Grey {
      forall x | x in starts && x !in s0 - {u} ensures exists y :: y in c0 && y !in colors && y in e && x in e[y] {
        if x == u {
          assert v in c0 && v !in colors && v in e && u in e[v];
        }
      }
    }
  }

  /** Turning `v` black keeps which vertices are coloured, so both erase facts carry over. */
  lemma EraseFinish(e: map<int, set<int>>, colors: map<int, Color>, c0: map<int, Color>,
                    starts: set<int>, s0: set<int>, v: int)
    requires v in c0
    requires ErasedByArc(e, colors, c0, starts, s0) && ReachedErased(e, colors, c0, starts, s0, v, {})
    ensures ErasedByArc(e, colors, c0[v := Black], starts, s0)
    ensures ReachedErased(e, colors, c0[v := Black], starts, s0, v, {})
  {
    assert c0[v := Black].Keys == c0.Keys;
  }

  /** Every arc into `r` comes from a vertex whose root is `r`. */
  ghost predicate OwnArcsInto(e: map<int, set<int>>, root: map<int, int>, r: int)
  {
    forall y :: y in root && y in e && r in e[y] ==> root[y] == r
  }

  /** The state of the outer loop of `FindComponents`: the coloured vertices are finished and
      have all their out-neighbours coloured; `root` gives each one the outer-loop vertex whose
      search coloured it, a root being its own root; the starts are roots, and a root is a start
      exactly when every arc into it comes from its own search. */
  ghost predicate Components(e: map<int, set<int>>, colors: map<int, Color>, root: map<int, int>, starts: set<int>)
  {
    && colors.Keys <= e.Keys
    && (forall x :: x in colors ==> colors[x] == Black && e[x] <= colors.Keys)
    && root.Keys == colors.Keys
    && (forall x :: x in root ==> root[x] in root && root[root[x]] == root[x])
    && (forall s :: s in starts ==> s in root && root[s] == s)
    && (forall r :: r in root && root[r] == r ==> (r in starts <==> OwnArcsInto(e, root, r)))
  }

  /** The roots after a search from the new root `r` colours `keys`: the old roots, and `r`
      for every newly coloured vertex. */
  function Rooted(root: map<int, int>, keys: set<int>, r: int): (root': map<int, int>)
    ensures root'.Keys == keys
    ensures forall x :: x in keys ==> root'[x] == if x in root then root[x] else r
  {
    map x | x in keys :: if x in root then root[x] else r
  }

  /** Nothing is coloured yet. */
  lemma ComponentsStart(e: map<int, set<int>>)
    ensures Components(e, map[], map[], {})
  {
  }

  /** One pass of the outer loop that searches from the uncoloured `r`, having added it to the
      starts, keeps the loop state with `r` as the root of everything the search coloured. */
  lemma {:induction false} ComponentsNext(e: map<int, set<int>>, colors: map<int, Color>, root: map<int, int>,
                                          starts: set<int>, r: int, colors1: map<int, Color>, starts1: set<int>)
    requires Components(e, colors, root, starts) && r in e && r !in colors
    requires colors.Keys + {r} <= colors1.Keys <= e.Keys && Extends(colors, colors1) && ClosedOver(e, colors, colors1)
    requires starts1 <= starts + {r} && ErasedFinished(colors, colors1, starts + {r}, starts1, r)
    requires ErasedByArc(e, colors, colors1, starts + {r}, starts1)
    requires ReachedErased(e, colors, colors1, starts + {r}, starts1, r, {})
    ensures Components(e, colors1, Rooted(root, colors1.Keys, r), starts1)
  {
    var root1 := Rooted(root, colors1.Keys, r);
    RootsNext(e, colors, root, starts, r, colors1, starts1);
    forall q | q in root1 && root1[q] == q ensures q in starts1 <==> OwnArcsInto(e, root1, q) {
      if q == r {
        assert r in starts1;
        forall y | y in root1 && y in e && r in e[y] ensures root1[y] == r {
          assert y !in colors;
        }
      } else {
        assert q in root && root[q] == q;
        RootKept(e, colors, root, starts, r, colors1, starts1, q);
      }
    }
  }

  /** After the search from `r` every coloured vertex is finished with its out-neighbours
      coloured, roots are their own roots, and the starts are roots. */
  lemma RootsNext(e: map<int, set<int>>, colors: map<int, Color>, root: map<int, int>,
                  starts: set<int>, r: int, colors1: map<int, Color>, starts1: set<int>)
    requires Components(e, colors, root, starts) && r !in colors
    requires colors.Keys + {r} <= colors1.Keys && Extends(colors, colors1) && ClosedOver(e, colors, colors1)
    requires starts1 <= starts + {r}
    ensures forall x :: x in colors1 ==> colors1[x] == Black && e[x] <= colors1.Keys
    ensures forall x :: x in Rooted(root, colors1.Keys, r) ==>
      Rooted(root, colors1.Keys, r)[x] in Rooted(root, colors1.Keys, r)
      && Rooted(root, colors1.Keys, r)[Rooted(root, colors1.Keys, r)[x]] == Rooted(root, colors1.Keys, r)[x]
    ensures forall x :: x in starts1 ==> x in Rooted(root, colors1.Keys, r) && Rooted(root, colors1.Keys, r)[x] == x
  {
    var root1 := Rooted(root, colors1.Keys, r);
    forall x | x in colors1 ensures colors1[x] == Black && e[x] <= colors1.Keys {
      if x in colors {
        assert e[x] <= colors.Keys;
      }
    }
    forall x | x in root1 ensures root1[x] in root1 && root1[root1[x]] == root1[x] {
      if x in root {
        assert root[x] in root;
      }
    }
  }

  /** An old root `q` stays a start exactly when every arc into it still comes from its own
      search: no vertex the new search coloured has an arc to it. */
  lemma RootKept(e: map<int, set<int>>, colors: map<int, Color>, root: map<int, int>,
                 starts: set<int>, r: int, colors1: map<int, Color>, starts1: set<int>, q: int)
    requires Components(e, colors, root, starts) && r !in colors && colors.Keys <= colors1.Keys
    requires starts1 <= starts + {r}
    requires ErasedByArc(e, colors, colors1, starts + {r}, starts1)
    requires ReachedErased(e, colors, colors1, starts + {r}, starts1, r, {})
    requires q in root && root[q] == q
    ensures q in starts1 <==> OwnArcsInto(e, Rooted(root, colors1.Keys, r), q)
  {
    var root1 := Rooted(root, colors1.Keys, r);
    assert q != r;
    if q in starts1 {
      assert OwnArcsInto(e, root, q);
      forall y | y in root1 && y in e && q in e[y] ensures root1[y] == q {
        assert q in colors && colors[q] == Black;
        assert y in colors;
      }
    }
    if OwnArcsInto(e, root1, q) {
      forall y | y in root && y in e && q in e[y] ensures root[y] == q {
        assert root1[y] == root[y];
      }
      assert q in starts;
      forall y | y in colors1 && y !in colors && y in e ensures q !in e[y] {
        assert root1[y] == r;
      }
    }
  }

  /** Colouring new vertices black leaves the grey stack as it is. */
  lemma GreyKept(colors: map<int, Color>, colors': map<int, Color>, path: seq<int>)
    requires GreyStack(colors, path) && Extends(colors, colors')
    ensures GreyStack(colors', path)
  {
  }

  /** The state of the loop of `CycleDfs(v)` with stack `path` over the out-neighbours of `v`,
      with `rest` still to examine: `colors'` extends the entry colouring `colors` by `v`, still
      on the stack, and by finished vertices; `p'` extends the entry parents `p` along the stack;
      `cycle'` is the entry backward cycles `segs` followed by those found since. */
  ghost predicate CycleLoop(e: map<int, set<int>>, colors: map<int, Color>, colors': map<int, Color>,
                            p: map<int, int>, p': map<int, int>, segs: seq<seq<int>>, segs': seq<seq<int>>,
                            cycle': seq<int>, v: int, path: seq<int>, rest: set<int>)
  {
    && v in e && v !in colors && rest <= e[v]
    && colors.Keys + {v} <= colors'.Keys <= e.Keys
    && (forall x :: x in colors ==> colors'[x] == colors[x])
    && (forall x :: x in colors' && x !in colors && x != v ==> colors'[x] == Black)
    && GreyStack(colors', path + [v])
    && p'.Keys <= colors'.Keys && (forall x :: x in p ==> x in p' && p'[x] == p[x])
    && TreeChain(e, p', path + [v])
    && cycle' == Flatten(segs') && AllBackCycles(e, segs')
    && |segs'| >= |segs| && segs'[..|segs|] == segs
  }

  /** Entering `v`: it is pushed grey on the stack and nothing is examined yet. */
  lemma CycleStart(e: map<int, set<int>>, colors: map<int, Color>, p: map<int, int>, path: seq<int>, v: int,
                   cycle: seq<int>, segs: seq<seq<int>>)
    requires CycleEntry(e, colors, p, path, v) && cycle == Flatten(segs) && AllBackCycles(e, segs)
    ensures CycleLoop(e, colors, colors[v := Grey], p, p, segs, segs, cycle, v, path, e[v])
  {
    PushGrey(colors, path, v);
  }

  /** An uncoloured out-neighbour `u` has no parent yet; recording `v` as its parent gives the
      state the nested search needs, and that search makes progress. */
  lemma CycleDescend(e: map<int, set<int>>, colors: map<int, Color>, c0: map<int, Color>,
                     p: map<int, int>, p0: map<int, int>, segs: seq<seq<int>>, s0: seq<seq<int>>,
                     cy0: seq<int>, v: int, path: seq<int>, rest: set<int>, u: int)
    requires Closed(e) && CycleLoop(e, colors, c0, p, p0, segs, s0, cy0, v, path, rest) && u in rest && u !in c0
    ensures u !in p0 && CycleEntry(e, c0, Emplace(p0, u, v), path + [v], u)
    ensures |e.Keys - c0.Keys| < |e.Keys - colors.Keys|
  {
    ChainKept(e, p0, Emplace(p0, u, v), path + [v]);
    ChainExtends(e, Emplace(p0, u, v), path + [v], u);
    FewerOutside(e.Keys, colors.Keys, c0.Keys, v);
  }

  /** After the nested search from `u` the loop state holds without `u`. */
  lemma CycleAfterChild(e: map<int, set<int>>, colors: map<int, Color>, c0: map<int, Color>, c1: map<int, Color>,
                        p: map<int, int>, p0: map<int, int>, p1: map<int, int>,
                        segs: seq<seq<int>>, s0: seq<seq<int>>, s1: seq<seq<int>>,
                        cy0: seq<int>, cy1: seq<int>, v: int, path: seq<int>, rest: set<int>, u: int)
    requires CycleLoop(e, colors, c0, p, p0, segs, s0, cy0, v, path, rest) && u in rest && u !in c0
    requires c0.Keys + {u} <= c1.Keys <= e.Keys && Extends(c0, c1)
    requires p1.Keys <= c1.Keys && forall x :: x in Emplace(p0, u, v) ==> x in p1 && p1[x] == Emplace(p0, u, v)[x]
    requires cy1 == Flatten(s1) && AllBackCycles(e, s1) && |s1| >= |s0| && s1[..|s0|] == s0
    ensures CycleLoop(e, colors, c1, p, p1, segs, s1, cy1, v, path, rest - {u})
  {
    GreyKept(c0, c1, path + [v]);
    ChainKept(e, p0, p1, path + [v]);
    assert s1[..|segs|] == s1[..|s0|][..|segs|];
  }

  /** On an arc to a grey `u`, `u` is on the stack and the stack is chained by parents. */
  lemma CycleGreyArc(e: map<int, set<int>>, colors: map<int, Color>, c0: map<int, Color>,
                     p: map<int, int>, p0: map<int, int>, segs: seq<seq<int>>, s0: seq<seq<int>>,
                     cy0: seq<int>, v: int, path: seq<int>, rest: set<int>, u: int)
    requires CycleLoop(e, colors, c0, p, p0, segs, s0, cy0, v, path, rest) && u in rest && u in c0 && c0[u] == Grey
    ensures u in path + [v] && Distinct(path + [v]) && TreeChain(e, p0, path + [v])
    ensures forall x :: x in path + [v] ==> x in c0
  {
  }

  /** Appending the walk back to a grey `u` appends one more backward cycle. */
  lemma CycleBack(e: map<int, set<int>>, colors: map<int, Color>, c0: map<int, Color>,
                  p: map<int, int>, p0: map<int, int>, segs: seq<seq<int>>, s0: seq<seq<int>>,
                  cy0: seq<int>, v: int, path: seq<int>, rest: set<int>, u: int, seg: seq<int>)
    requires CycleLoop(e, colors, c0, p, p0, segs, s0, cy0, v, path, rest) && u in rest && u in path + [v]
    requires seg == [u] + Reverse((path + [v])[IndexOf(path + [v], u) + 1..])
    ensures CycleLoop(e, colors, c0, p, p0, segs, s0 + [seg], cy0 + seg, v, path, rest - {u})
  {
    var q := path + [v];
    BackSegment(e, p0, q, IndexOf(q, u));
    FlattenSnoc(s0, seg);
    assert (s0 + [seg])[..|segs|] == s0[..|segs|];
    var ss := s0 + [seg];
    forall k | 0 <= k < |ss| ensures IsBackCycle(e, ss[k]) {
      if k < |s0| {
        assert ss[k] == s0[k];
      }
    }
  }

  /** Examining a finished out-neighbour changes nothing. */
  lemma CycleSeen(e: map<int, set<int>>, colors: map<int, Color>, c0: map<int, Color>,
                  p: map<int, int>, p0: map<int, int>, segs: seq<seq<int>>, s0: seq<seq<int>>,
                  cy0: seq<int>, v: int, path: seq<int>, rest: set<int>, u: int)
    requires CycleLoop(e, colors, c0, p, p0, segs, s0, cy0, v, path, rest) && u in rest
    ensures CycleLoop(e, colors, c0, p, p0, segs, s0, cy0, v, path, rest - {u})
  {
  }

  /** Leaving `v` once all its out-neighbours are examined: `v` turns black and the search has
      done what `CycleDfs` promises. */
  lemma CycleFinish(e: map<int, set<int>>, colors: map<int, Color>, c0: map<int, Color>,
                    p: map<int, int>, p0: map<int, int>, segs: seq<seq<int>>, s0: seq<seq<int>>,
                    cy0: seq<int>, v: int, path: seq<int>)
    requires CycleLoop(e, colors, c0, p, p0, segs, s0, cy0, v, path, {})
    ensures colors.Keys + {v} <= c0[v := Black].Keys <= e.Keys && Extends(colors, c0[v := Black])
    ensures p0.Keys <= c0[v := Black].Keys && forall x :: x in p ==> x in p0 && p0[x] == p[x]
  {
  }

  /** `fin` records a finishing time for exactly the finished vertices of `colors`. */
  ghost predicate TimedBlack(colors: map<int, Color>, fin: map<int, nat>)
  {
    && (forall x :: x in fin ==> x in colors && colors[x] == Black)
    && (forall x :: x in colors && colors[x] == Black ==> x in fin)
  }

  /** Every finishing time of `fin` is earlier than `clock`. */
  ghost predicate Before(fin: map<int, nat>, clock: nat)
  {
    forall x :: x in fin ==> fin[x] < clock
  }

  /** `fin'` keeps every finishing time of `fin`. */
  ghost predicate KeepsTimes(fin: map<int, nat>, fin': map<int, nat>)
  {
    forall x :: x in fin ==> x in fin' && fin'[x] == fin[x]
  }

  /** Every vertex finished between `fin` and `fin'` finished after all its out-neighbours. */
  ghost predicate RankedSince(e: map<int, set<int>>, fin: map<int, nat>, fin': map<int, nat>)
  {
    forall a :: a in fin' && a !in fin ==> a in e && forall b :: b in e[a] ==> b in fin' && fin'[b] < fin'[a]
  }

  /** An out-neighbour of a ranked vertex is ranked lower. */
  lemma RankedArc(e: map<int, set<int>>, rank: map<int, nat>, a: int, b: int)
    requires Ranked(e, rank) && a in rank && a in e && b in e[a]
    ensures b in rank && rank[b] < rank[a]
  {
  }

  /** Along backward arcs of `c` the rank goes down by at least one per step. */
  lemma {:induction false} RankDown(e: map<int, set<int>>, rank: map<int, nat>, c: seq<int>, i: nat, j: nat)
    requires Ranked(e, rank) && i <= j < |c| && c[j] in rank
    requires forall k :: 0 <= k < |c| - 1 ==> ArcBack(e, c, k)
    ensures c[i] in rank && rank[c[i]] + (j - i) <= rank[c[j]]
    decreases j - i
  {
    if i < j {
      assert ArcBack(e, c, j - 1);
      RankedArc(e, rank, c[j], c[j - 1]);
      RankDown(e, rank, c, i, j - 1);
    }
  }

  /** A ranked part of the graph has no cycle: no vertex of a backward cycle is ranked by a
      ranking of the whole graph below it. */
  lemma {:induction false} CycleUnranked(e: map<int, set<int>>, rank: map<int, nat>, c: seq<int>, k: nat)
    requires IsBackCycle(e, c) && k < |c| && c[k] in rank
    ensures !Ranked(e, rank)
  {
    if Ranked(e, rank) {
      var n := |c| - 1;
      RankDown(e, rank, c, 0, k);
      RankedArc(e, rank, c[0], c[n]);
      RankDown(e, rank, c, k, n);
    }
  }

  /** The finishing-time state of the loop of `CycleDfs(v)`, with `rest` still to examine:
      `fin'` times exactly the finished vertices, before `clock'`, and keeps the entry times;
      the vertices coloured since entry other than `v` have all out-neighbours coloured, and so
      has `v` among the examined ones; every vertex of `cycle'` is coloured. While no backward
      cycle has been added since entry (`quiet`), every vertex finished since entry and every
      examined out-neighbour of `v` finished after all its own out-neighbours. */
  ghost predicate FinishLoop(e: map<int, set<int>>, colors: map<int, Color>, colors': map<int, Color>,
                             fin: map<int, nat>, fin': map<int, nat>, clock': nat, cycle': seq<int>,
                             v: int, rest: set<int>, quiet: bool)
  {
    && v in e
    && TimedBlack(colors', fin') && Before(fin', clock') && KeepsTimes(fin, fin')
    && (forall x :: x in colors' && x !in colors && x != v ==> x in e && e[x] <= colors'.Keys)
    && e[v] - rest <= colors'.Keys
    && (forall x :: x in cycle' ==> x in colors')
    && (quiet ==> RankedSince(e, fin, fin'))
    && (quiet ==> forall b :: b in e[v] && b !in rest ==> b in fin')
  }

  /** Entering `v`: it is grey, so no time is recorded for it, and nothing is examined yet. */
  lemma FinishStart(e: map<int, set<int>>, colors: map<int, Color>, fin: map<int, nat>, clock: nat,
                    cycle: seq<int>, v: int)
    requires v in e && v !in colors && TimedBlack(colors, fin) && Before(fin, clock)
    requires forall x :: x in cycle ==> x in colors
    ensures FinishLoop(e, colors, colors[v := Grey], fin, fin, clock, cycle, v, e[v], true)
  {
  }

  /** After the nested search from `u`, which finished `u`: the state holds without `u`, and it
      stays quiet only if neither the loop so far nor the nested search added a cycle. */
  lemma FinishAfterChild(e: map<int, set<int>>, colors: map<int, Color>, c0: map<int, Color>, c1: map<int, Color>,
                         fin: map<int, nat>, fin0: map<int, nat>, fin1: map<int, nat>, clock0: nat, clock1: nat,
                         cy0: seq<int>, cy1: seq<int>, v: int, rest: set<int>, u: int, n: nat, n0: nat, n1: nat)
    requires FinishLoop(e, colors, c0, fin, fin0, clock0, cy0, v, rest, n0 == n) && u in rest
    requires c0.Keys <= c1.Keys && ClosedOver(e, c0, c1)
    requires TimedBlack(c1, fin1) && Before(fin1, clock1) && KeepsTimes(fin0, fin1) && u in fin1
    requires forall x :: x in cy1 ==> x in c1
    requires n <= n0 <= n1 && (n1 == n0 ==> RankedSince(e, fin0, fin1))
    ensures FinishLoop(e, colors, c1, fin, fin1, clock1, cy1, v, rest - {u}, n1 == n)
  {
    if n1 == n {
      forall a | a in fin1 && a !in fin
        ensures a in e && forall b :: b in e[a] ==> b in fin1 && fin1[b] < fin1[a]
      {
        if a in fin0 {
          assert forall b :: b in e[a] ==> b in fin0 && fin0[b] < fin0[a];
        }
      }
    }
  }

  /** An arc back to the grey `u` adds the segment `seg`, whose vertices are on the stack `q`:
      the state holds without `u` and is no longer quiet. */
  lemma FinishGrey(e: map<int, set<int>>, colors: map<int, Color>, c0: map<int, Color>,
                   fin: map<int, nat>, fin0: map<int, nat>, clock0: nat, cy0: seq<int>,
                   v: int, rest: set<int>, u: int, q: seq<int>, k: nat, seg: seq<int>, quiet: bool)
    requires FinishLoop(e, colors, c0, fin, fin0, clock0, cy0, v, rest, quiet) && u in rest && u in c0
    requires k <= |q| && seg == [u] + Reverse(q[k..]) && forall x :: x in q ==> x in c0
    ensures FinishLoop(e, colors, c0, fin, fin0, clock0, cy0 + seg, v, rest - {u}, false)
  {
    forall x | x in seg ensures x in c0 {
      if x != u {
        var t := q[k..];
        var i :| 0 <= i < |Reverse(t)| && Reverse(t)[i] == x;
        ReverseIndex(t, i);
        assert t[|t| - 1 - i] in q;
      }
    }
  }

  /** An arc to an already finished `u` changes nothing but the examined set. */
  lemma FinishSeen(e: map<int, set<int>>, colors: map<int, Color>, c0: map<int, Color>,
                   fin: map<int, nat>, fin0: map<int, nat>, clock0: nat, cy0: seq<int>,
                   v: int, rest: set<int>, u: int, quiet: bool)
    requires FinishLoop(e, colors, c0, fin, fin0, clock0, cy0, v, rest, quiet) && u in rest
    requires u in c0 && c0[u] == Black
    ensures FinishLoop(e, colors, c0, fin, fin0, clock0, cy0, v, rest - {u}, quiet)
  {
  }

  /** Leaving `v`: it finishes at the current time, after every out-neighbour, and the clock
      moves on. */
  lemma FinishDone(e: map<int, set<int>>, colors: map<int, Color>, c0: map<int, Color>,
                   fin: map<int, nat>, fin0: map<int, nat>, clock0: nat, cy0: seq<int>, v: int, quiet: bool)
    requires FinishLoop(e, colors, c0, fin, fin0, clock0, cy0, v, {}, quiet)
    requires v !in colors && colors.Keys <= c0.Keys && v in c0 && c0[v] == Grey
    ensures TimedBlack(c0[v := Black], fin0[v := clock0]) && Before(fin0[v := clock0], clock0 + 1)
    ensures KeepsTimes(fin, fin0[v := clock0]) && ClosedOver(e, colors, c0[v := Black])
    ensures forall x :: x in cy0 ==> x in c0[v := Black]
    ensures quiet ==> RankedSince(e, fin, fin0[v := clock0])
  {
  }

  /** The search tree of the loop of `CycleDfs(v)`: every vertex finished since entry was
      entered along an arc from its parent in `p`, which is `v` itself or a vertex that
      finished later. */
  ghost predicate TreeLoop(e: map<int, set<int>>, p: map<int, int>, fin: map<int, nat>, fin': map<int, nat>, v: int)
  {
    forall x :: x in fin' && x !in fin ==>
      x in p && p[x] in e && x in e[p[x]] && (p[x] == v || (p[x] in fin' && fin'[x] < fin'[p[x]]))
  }

  /** The search tree of `CycleDfs(v)` once it is done: every vertex other than `v` finished
      since entry was entered along an arc from its parent, which finished later. */
  ghost predicate TreeSince(e: map<int, set<int>>, p: map<int, int>, fin: map<int, nat>, fin': map<int, nat>, v: int)
  {
    forall x :: x in fin' && x !in fin && x != v ==>
      x in p && p[x] in e && x in e[p[x]] && p[x] in fin' && fin'[x] < fin'[p[x]]
  }

  /** After the nested search from the child `u` of `v`, whose parent is `v`, the tree of the
      loop holds with the child's tree added. */
  lemma TreeAfterChild(e: map<int, set<int>>, p0: map<int, int>, p1: map<int, int>,
                       fin: map<int, nat>, f0: map<int, nat>, f1: map<int, nat>, v: int, u: int)
    requires TreeLoop(e, p0, fin, f0, v) && v in e && u in e[v] && u !in p0
    requires forall x :: x in Emplace(p0, u, v) ==> x in p1 && p1[x] == Emplace(p0, u, v)[x]
    requires KeepsTimes(f0, f1) && TreeSince(e, p1, f0, f1, u)
    ensures TreeLoop(e, p1, fin, f1, v)
  {
    forall x | x in f1 && x !in fin
      ensures x in p1 && p1[x] in e && x in e[p1[x]] && (p1[x] == v || (p1[x] in f1 && f1[x] < f1[p1[x]]))
    {
      if x == u {
        assert u in Emplace(p0, u, v);
      } else if x in f0 {
        assert x in p0 && x in Emplace(p0, u, v);
      }
    }
  }

  /** Leaving `v` at time `clock`, later than every recorded time: the children of `v` now
      have a parent that finished later. */
  lemma TreeDone(e: map<int, set<int>>, p: map<int, int>, fin: map<int, nat>, f0: map<int, nat>, clock: nat, v: int)
    requires TreeLoop(e, p, fin, f0, v) && Before(f0, clock) && v !in f0
    ensures TreeSince(e, p, fin, f0[v := clock], v)
  {
  }

  /** A walk in `e`: every step follows an arc. */
  ghost predicate IsWalk(e: map<int, set<int>>, w: seq<int>)
  {
    |w| >= 1 && forall k :: 0 <= k < |w| - 1 ==> w[k] in e && w[k + 1] in e[w[k]]
  }

  /** `b` can be reached from `a` along arcs of `e`. */
  ghost predicate Reachable(e: map<int, set<int>>, a: int, b: int)
  {
    exists w :: IsWalk(e, w) && w[0] == a && w[|w| - 1] == b
  }

  /** Following parents from a finished vertex climbs to the root `s`, so every finished vertex
      is reachable from it. */
  lemma {:induction false} TreeWalk(e: map<int, set<int>>, p: map<int, int>, fin: map<int, nat>, clock: nat,
                                    s: int, x: int)
    requires TreeSince(e, p, map[], fin, s) && Before(fin, clock) && x in fin
    ensures Reachable(e, s, x)
    decreases clock - fin[x]
  {
    if x == s {
      assert IsWalk(e, [s]);
    } else {
      var y := p[x];
      TreeWalk(e, p, fin, clock, s, y);
      var w :| IsWalk(e, w) && w[0] == s && w[|w| - 1] == y;
      var w' := w + [x];
      assert forall k :: 0 <= k < |w| ==> w'[k] == w[k];
      assert IsWalk(e, w');
    }
  }

  /** A set of vertices that holds `s` and every out-neighbour of its members holds the end of
      every walk from `s`. */
  lemma {:induction false} ClosedReach(e: map<int, set<int>>, fin: map<int, nat>, s: int, w: seq<int>)
    requires s in fin && forall a :: a in fin ==> a in e && e[a] <= fin.Keys
    requires IsWalk(e, w) && w[0] == s
    ensures w[|w| - 1] in fin
    decreases |w|
  {
    if |w| > 1 {
      var w' := w[..|w| - 1];
      assert forall k :: 0 <= k < |w'| ==> w'[k] == w[k];
      ClosedReach(e, fin, s, w');
      assert w[|w| - 2] in fin && w[|w| - 1] in e[w[|w| - 2]];
    }
  }

  class DirectedGraph {
    var edges: map<int, set<int>>

    constructor ()
      ensures edges == map[]
    {
      edges := map[];
    }

    /** Makes both vertices known and adds the arc `firstVertex -> secondVertex`. */
    method AddEdge(firstVertex: int, secondVertex: int)
      modifies this
      ensures edges == WithArc(old(edges), firstVertex, secondVertex)
    {
      if firstVertex !in edges {
        edges := edges[firstVertex := {}];
      }
      if secondVertex !in edges {
        edges := edges[secondVertex := {}];
      }
      edges := edges[firstVertex := edges[firstVertex] + {secondVertex}];
    }

    /** The start vertices of the components: every vertex is coloured and `root` gives each
        one the vertex of the outer loop whose search coloured it, a root being its own root.
        The starts are roots, and a root is a start exactly when no arc into it comes from the
        search of another root. On a non-empty graph the last root is never erased, so there is
        at least one start. */
    method FindComponents() returns (startVertexes: set<int>, ghost visited: map<int, Color>, ghost root: map<int, int>)
      requires Closed(edges)
      ensures visited.Keys == edges.Keys
      ensures forall x :: x in visited ==> visited[x] == Black
      ensures root.Keys == edges.Keys
      ensures forall x :: x in root ==> root[x] in root && root[root[x]] == root[x]
      ensures forall s :: s in startVertexes ==> s in root && root[s] == s
      ensures forall r :: r in root && root[r] == r ==> (r in startVertexes <==> OwnArcsInto(edges, root, r))
      ensures edges != map[] ==> startVertexes != {}
    {
      var colors: map<int, Color> := map[];
      startVertexes, root := {}, map[];
      var rest := edges.Keys;
      ghost var last := 0;
      ComponentsStart(edges);
      while rest != {}
        invariant rest <= edges.Keys && edges.Keys - rest <= colors.Keys
        invariant Components(edges, colors, root, startVertexes)
        invariant colors != map[] ==> last in startVertexes
        invariant colors == map[] ==> rest == edges.Keys
        decreases |rest|
      {
        NonEmptyHasElement(rest);
        var v :| v in rest;
        rest := rest - {v};
        if v !in colors {
          ghost var colors0, starts0 := colors, startVertexes;
          startVertexes := startVertexes + {v};
          colors, startVertexes := ComponentDfs(v, colors, startVertexes);
          ComponentsNext(edges, colors0, root, starts0, v, colors, startVertexes);
          root := Rooted(root, colors.Keys, v);
          last := v;
        }
      }
      if edges != map[] {
        NonEmptyHasElement(edges.Keys);
        var x :| x in edges;
        assert x in colors;
      }
      visited := colors;
    }

    /** The depth-first search from the uncoloured vertex `v`: it colours `v` and everything
        newly reached black, keeps the colours it found, and reaches every out-neighbour of what
        it colours. It erases a start vertex exactly when it meets an arc into it that was
        finished before: only finished starts other than `v`, each one an out-neighbour of a
        vertex it coloured, and every start finished before it that such a vertex points to. */
    method ComponentDfs(v: int, colors: map<int, Color>, startVertexes: set<int>)
      returns (colors': map<int, Color>, startVertexes': set<int>)
      requires Closed(edges) && v in edges && v !in colors && colors.Keys <= edges.Keys
      ensures colors.Keys + {v} <= colors'.Keys <= edges.Keys
      ensures Extends(colors, colors') && ClosedOver(edges, colors, colors')
      ensures startVertexes' <= startVertexes
      ensures ErasedFinished(colors, colors', startVertexes, startVertexes', v)
      ensures ErasedByArc(edges, colors, colors', startVertexes, startVertexes')
      ensures ReachedErased(edges, colors, colors', startVertexes, startVertexes', v, {})
      decreases |edges.Keys - colors.Keys|
    {
      colors' := colors[v := Grey];
      startVertexes' := startVertexes;
      var rest := edges[v];
      ComponentStart(edges, colors, startVertexes, v);
      EraseStart(edges, colors, startVertexes, v);
      while rest != {}
        invariant ComponentLoop(edges, colors, colors', startVertexes, startVertexes', v, rest)
        invariant ErasedByArc(edges, colors, colors', startVertexes, startVertexes')
        invariant ReachedErased(edges, colors, colors', startVertexes, startVertexes', v, rest)
        decreases |rest|
      {
        NonEmptyHasElement(rest);
        var u :| u in rest;
        if u !in colors' {
          ComponentDescend(edges, colors, colors', startVertexes, startVertexes', v, rest, u);
          ghost var c0, s0 := colors', startVertexes';
          colors', startVertexes' := ComponentDfs(u, colors', startVertexes');
          ComponentAfterChild(edges, colors, c0, colors', startVertexes, s0, startVertexes', v, rest, u);
          EraseAfterChild(edges, colors, c0, colors', startVertexes, s0, startVertexes', v, rest, u);
        } else {
          ComponentSeen(edges, colors, colors', startVertexes, startVertexes', v, rest, u);
          EraseSeen(edges, colors, colors', startVertexes, startVertexes', v, rest, u);
          if colors'[u] != Grey {
            startVertexes' := startVertexes' - {u};
          }
        }
        rest := rest - {u};
      }
      ComponentFinish(edges, colors, colors', startVertexes, startVertexes', v);
      EraseFinish(edges, colors, colors', startVertexes, startVertexes', v);
      colors' := colors'[v := Black];
    }

    /** The cycle reachable from `startVertex`. The search reaches the set `fin` of exactly the
        vertices reachable from `startVertex`, and `cycle` lies in it. It
        is exactly `[startVertex]` when the search meets no arc back to the stack, and otherwise
        the backward cycles it met, one after the other. It meets none exactly when the finishing
        order ranks the reached part of the graph, that is, when that part has no cycle (by
        `CycleUnranked`). */
    method FindCycle(startVertex: int) returns (cycle: seq<int>, ghost segs: seq<seq<int>>, ghost fin: map<int, nat>)
      requires Closed(edges) && startVertex in edges
      ensures |cycle| >= 1
      ensures segs == [] ==> cycle == [startVertex]
      ensures segs != [] ==> cycle == Flatten(segs)
      ensures AllBackCycles(edges, segs)
      ensures startVertex in fin && forall a :: a in fin ==> a in edges && edges[a] <= fin.Keys
      ensures forall x :: x in fin ==> Reachable(edges, startVertex, x)
      ensures forall x :: Reachable(edges, startVertex, x) ==> x in fin
      ensures forall x :: x in cycle ==> x in fin
      ensures segs == [] <==> Ranked(edges, fin)
    {
      var colors, p := map[], map[];
      assert TreeChain(edges, p, [] + [startVertex]);
      ghost var clock;
      colors, p, cycle, segs, fin, clock := CycleDfs(startVertex, colors, p, [], [], [], map[], 0);
      forall a | a in fin ensures a in edges && edges[a] <= fin.Keys {
        assert a in colors;
        forall b | b in edges[a] ensures b in fin {
          assert b in colors;
        }
      }
      forall x | x in fin ensures Reachable(edges, startVertex, x) {
        TreeWalk(edges, p, fin, clock, startVertex, x);
      }
      forall x | Reachable(edges, startVertex, x) ensures x in fin {
        var w :| IsWalk(edges, w) && w[0] == startVertex && w[|w| - 1] == x;
        ClosedReach(edges, fin, startVertex, w);
      }
      if segs != [] {
        assert IsBackCycle(edges, segs[0]);
        assert cycle[0] == segs[0][0];
        CycleUnranked(edges, fin, segs[0], 0);
      }
      if cycle == [] {
        cycle := cycle + [startVertex];
      }
    }

    /** The depth-first search of `FindCycle` from the uncoloured vertex `v` with the grey
        stack `path`: on every arc back to a grey vertex `u` it appends `u` and the parents
        from `v` down to the child of `u`, which is a backward cycle; it keeps the colours and
        parents it found and colours everything it reaches black, together with every
        out-neighbour of what it colours. Each vertex it finishes gets the next time of the
        ghost clock; if it appends no cycle, every vertex it finishes finished after all its
        out-neighbours. Every vertex it finishes other than `v` was entered from its parent,
        which finished later, so the parents form a search tree below `v`. */
    method CycleDfs(v: int, colors: map<int, Color>, p: map<int, int>, cycle: seq<int>,
                    ghost path: seq<int>, ghost segs: seq<seq<int>>, ghost fin: map<int, nat>, ghost clock: nat)
      returns (colors': map<int, Color>, p': map<int, int>, cycle': seq<int>, ghost segs': seq<seq<int>>,
               ghost fin': map<int, nat>, ghost clock': nat)
      requires Closed(edges) && CycleEntry(edges, colors, p, path, v)
      requires cycle == Flatten(segs) && AllBackCycles(edges, segs)
      requires TimedBlack(colors, fin) && Before(fin, clock) && forall x :: x in cycle ==> x in colors
      ensures colors.Keys + {v} <= colors'.Keys <= edges.Keys
      ensures Extends(colors, colors') && ClosedOver(edges, colors, colors')
      ensures TimedBlack(colors', fin') && Before(fin', clock') && KeepsTimes(fin, fin') && v in fin'
      ensures forall x :: x in cycle' ==> x in colors'
      ensures |segs'| == |segs| ==> RankedSince(edges, fin, fin')
      ensures p'.Keys <= colors'.Keys && forall x :: x in p ==> x in p' && p'[x] == p[x]
      ensures TreeSince(edges, p', fin, fin', v)
      ensures cycle' == Flatten(segs') && AllBackCycles(edges, segs')
      ensures |segs'| >= |segs| && segs'[..|segs|] == segs
      decreases |edges.Keys - colors.Keys|, 1
    {
      colors', p', cycle', segs' := colors[v := Grey], p, cycle, segs;
      fin', clock' := fin, clock;
      CycleStart(edges, colors, p, path, v, cycle, segs);
      FinishStart(edges, colors, fin, clock, cycle, v);
      var rest := edges[v];
      while rest != {}
        invariant CycleLoop(edges, colors, colors', p, p', segs, segs', cycle', v, path, rest)
        invariant FinishLoop(edges, colors, colors', fin, fin', clock', cycle', v, rest, |segs'| == |segs|)
        invariant TreeLoop(edges, p', fin, fin', v)
        decreases |rest|
      {
        NonEmptyHasElement(rest);
        var u :| u in rest;
        colors', p', cycle', segs', fin', clock' :=
          CycleArc(v, u, colors', p', cycle', colors, p, path, segs, segs', fin, fin', clock', rest);
        rest := rest - {u};
      }
      CycleFinish(edges, colors, colors', p, p', segs, segs', cycle', v, path);
      FinishDone(edges, colors, colors', fin, fin', clock', cycle', v, |segs'| == |segs|);
      TreeDone(edges, p', fin, fin', clock', v);
      colors' := colors'[v := Black];
      fin', clock' := fin'[v := clock'], clock' + 1;
    }

    /** One pass of the loop of `CycleDfs(v)`, on the arc `v -> u` with the state `c0`, `p0`,
        `cy0`: an uncoloured `u` gets `v` as its parent and is searched, an arc back to a grey
        `u` appends the walk back to it, a finished `u` is passed over. The loop state holds
        afterwards without `u`. */
    method CycleArc(v: int, u: int, c0: map<int, Color>, p0: map<int, int>, cy0: seq<int>,
                    ghost colors: map<int, Color>, ghost p: map<int, int>, ghost path: seq<int>,
                    ghost segs: seq<seq<int>>, ghost s0: seq<seq<int>>,
                    ghost fin: map<int, nat>, ghost f0: map<int, nat>, ghost t0: nat, ghost rest: set<int>)
      returns (c1: map<int, Color>, p1: map<int, int>, cy1: seq<int>, ghost s1: seq<seq<int>>,
               ghost f1: map<int, nat>, ghost t1: nat)
      requires Closed(edges) && u in rest
      requires CycleLoop(edges, colors, c0, p, p0, segs, s0, cy0, v, path, rest)
      requires FinishLoop(edges, colors, c0, fin, f0, t0, cy0, v, rest, |s0| == |segs|)
      requires TreeLoop(edges, p0, fin, f0, v)
      ensures CycleLoop(edges, colors, c1, p, p1, segs, s1, cy1, v, path, rest - {u})
      ensures FinishLoop(edges, colors, c1, fin, f1, t1, cy1, v, rest - {u}, |s1| == |segs|)
      ensures TreeLoop(edges, p1, fin, f1, v)
      decreases |edges.Keys - colors.Keys|, 0
    {
      ghost var q := path + [v];
      if u !in c0 {
        CycleDescend(edges, colors, c0, p, p0, segs, s0, cy0, v, path, rest, u);
        p1 := Emplace(p0, u, v);
        c1, p1, cy1, s1, f1, t1 := CycleDfs(u, c0, p1, cy0, q, s0, f0, t0);
        CycleAfterChild(edges, colors, c0, c1, p, p0, p1, segs, s0, s1, cy0, cy1, v, path, rest, u);
        FinishAfterChild(edges, colors, c0, c1, fin, f0, f1, t0, t1, cy0, cy1, v, rest, u, |segs|, |s0|, |s1|);
        TreeAfterChild(edges, p0, p1, fin, f0, f1, v, u);
      } else if c0[u] == Grey {
        CycleGreyArc(edges, colors, c0, p, p0, segs, s0, cy0, v, path, rest, u);
        var seg := WalkBack(p0, v, u, edges, q);
        CycleBack(edges, colors, c0, p, p0, segs, s0, cy0, v, path, rest, u, seg);
        FinishGrey(edges, colors, c0, fin, f0, t0, cy0, v, rest, u, q, IndexOf(q, u) + 1, seg, |s0| + 1 == |segs|);
        c1, p1, cy1, s1, f1, t1 := c0, p0, cy0 + seg, s0 + [seg], f0, t0;
      } else {
        CycleSeen(edges, colors, c0, p, p0, segs, s0, cy0, v, path, rest, u);
        FinishSeen(edges, colors, c0, fin, f0, t0, cy0, v, rest, u, |s0| == |segs|);
        c1, p1, cy1, s1, f1, t1 := c0, p0, cy0, s0, f0, t0;
      }
    }

    /** The walk of `CycleDfs` on the arc from the top `v` of the stack `q` back to the grey
        vertex `u`: `u`, then `v` and its parents down to the child of `u`. */
    static method WalkBack(p: map<int, int>, v: int, u: int, ghost e: map<int, set<int>>, ghost q: seq<int>)
      returns (seg: seq<int>)
      requires u in q && Distinct(q) && q[|q| - 1] == v && TreeChain(e, p, q)
      ensures seg == [u] + Reverse(q[IndexOf(q, u) + 1..])
    {
      ghost var i := IndexOf(q, u);
      ghost var j := |q| - 1;
      seg := [u];
      var next := v;
      assert q[j + 1..] == [];
      while next != u
        invariant i <= j < |q| && next == q[j]
        invariant seg == [u] + Reverse(q[j + 1..])
        decreases j
      {
        WalkBackStep(q, j + 1);
        assert ChainAt(e, p, q, j);
        seg := seg + [next];
        next := p[next];
        j := j - 1;
      }
    }
  }

  /** Entering the uncoloured out-neighbour `u` of the top of the stack from it extends the
      chain by `u`. */
  lemma ChainExtends(e: map<int, set<int>>, p: map<int, int>, q: seq<int>, u: int)
    requires TreeChain(e, p, q) && |q| >= 1 && u in p && p[u] == q[|q| - 1] && q[|q| - 1] in e && u in e[q[|q| - 1]]
    ensures TreeChain(e, p, q + [u])
  {
    var r := q + [u];
    forall k | 0 < k < |r| ensures ChainAt(e, p, r, k) {
      if k < |q| {
        assert r[k] == q[k] && r[k - 1] == q[k - 1];
        assert ChainAt(e, p, q, k);
      }
    }
  }

  /** Parents once recorded are kept, so the chain of the stack survives a nested search. */
  lemma ChainKept(e: map<int, set<int>>, p: map<int, int>, p': map<int, int>, q: seq<int>)
    requires TreeChain(e, p, q) && forall x :: x in p ==> x in p' && p'[x] == p[x]
    ensures TreeChain(e, p', q)
  {
    forall k | 0 < k < |q| ensures ChainAt(e, p', q, k) {
      assert ChainAt(e, p, q, k);
      var x := q[k];
      assert x in p;
      assert x in p' && p'[x] == p[x];
    }
  }
}
