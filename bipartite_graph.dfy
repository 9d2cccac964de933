/** The bipartite graph of `BipartiteGraph.h`: arcs from first-part to second-part vertices,
    an integer tag per arc, a greedy matching and the augmenting-path search that extends it.
    A matching maps a second-part vertex to the first-part vertex matched with it. */
module BipartiteGraphs {
  import opened Maps

  /** The arc table after `AddEdge(f, s, _)`: `s` joins the out-set of `f`. */
  function WithEdge(edges: map<int, set<int>>, f: int, s: int): (r: map<int, set<int>>)
    ensures r.Keys == edges.Keys + {f}
    ensures s in r[f]
  {
    edges[f := (if f in edges then edges[f] else {}) + {s}]
  }

  /** The tag table after `AddEdge(f, s, tag)`: the tag is emplaced under `f -> s`. */
  function WithInfo(info: map<int, map<int, int>>, f: int, s: int, tag: int): (r: map<int, map<int, int>>)
    ensures r.Keys == info.Keys + {f}
  {
    info[f := Emplace(if f in info then info[f] else map[], s, tag)]
  }

  /** `AddEdge` adds exactly one arc and keeps every other out-set. */
  lemma WithEdgeOut(edges: map<int, set<int>>, f: int, s: int, x: int, y: int)
    requires x in WithEdge(edges, f, s)
    ensures y in WithEdge(edges, f, s)[x] <==> (x in edges && y in edges[x]) || (x == f && y == s)
  {
  }

  /** A tag is stored only for an arc that has none: the first tag given to an arc stays. */
  lemma WithInfoLabel(info: map<int, map<int, int>>, f: int, s: int, tag: int, x: int, y: int)
    requires x in WithInfo(info, f, s, tag)
    ensures y in WithInfo(info, f, s, tag)[x] <==> (x in info && y in info[x]) || (x == f && y == s)
    ensures x in info && y in info[x] ==> WithInfo(info, f, s, tag)[x][y] == info[x][y]
    ensures !(f in info && s in info[f]) ==> WithInfo(info, f, s, tag)[f][s] == tag
  {
  }

  /** The labels are given for exactly the arcs. */
  ghost predicate Labelled(edges: map<int, set<int>>, info: map<int, map<int, int>>)
  {
    edges.Keys == info.Keys && forall f :: f in edges ==> edges[f] == info[f].Keys
  }

  /** `AddEdge` keeps the labels given for exactly the arcs. */
  lemma {:induction false} AddEdgeLabelled(edges: map<int, set<int>>, info: map<int, map<int, int>>, f: int, s: int, tag: int)
    requires Labelled(edges, info)
    ensures Labelled(WithEdge(edges, f, s), WithInfo(info, f, s, tag))
  {
    var e, i := WithEdge(edges, f, s), WithInfo(info, f, s, tag);
    forall x | x in e ensures e[x] == i[x].Keys {
      if x == f {
        assert e[x] == (if f in edges then edges[f] else {}) + {s};
      }
    }
  }

  /** No first-part vertex is matched twice. */
  ghost predicate Injective(m: map<int, int>)
  {
    forall a, b :: a in m && b in m && a != b ==> m[a] != m[b]
  }

  /** Every matched pair is an arc. */
  ghost predicate OnArcs(edges: map<int, set<int>>, m: map<int, int>)
  {
    forall s :: s in m ==> m[s] in edges && s in edges[m[s]]
  }

  /** Every first-part vertex of `searched` sees only matched second-part vertices, each
      matched to a vertex of `used`: a failed search from each of them is recorded. */
  ghost predicate Exhausted(edges: map<int, set<int>>, searched: set<int>, m: map<int, int>, used: set<int>)
  {
    forall f :: f in searched ==> f in edges && forall s :: s in edges[f] ==> s in m && m[s] in used
  }

  /** `m'` keeps every pair of `m`. */
  ghost predicate Keeps(m: map<int, int>, m': map<int, int>)
  {
    forall s :: s in m ==> s in m' && m'[s] == m[s]
  }

  /** Matching the free `s` with an unmatched `f` keeps a matching injective. */
  lemma AddPairInjective(m: map<int, int>, s: int, f: int)
    requires Injective(m) && s !in m && f !in Values(m)
    ensures Injective(m[s := f])
  {
    var r := m[s := f];
    forall a, b | a in r && b in r && a != b ensures r[a] != r[b] {
      if a == s {
        ValueIn(m, b);
      } else if b == s {
        ValueIn(m, a);
      }
    }
  }

  /** The state of the greedy pass once the first-part vertices outside `rest` are processed:
      the pairs are arcs whose first-part vertices are processed, none of them is matched
      twice, `used` gained exactly the matched ones, and every processed vertex is matched or
      has all its neighbours taken. */
  ghost predicate GreedySoFar(edges: map<int, set<int>>, used0: set<int>, used: set<int>, m: map<int, int>, rest: set<int>)
  {
    && rest <= edges.Keys
    && OnArcs(edges, m) && Injective(m)
    && Values(m) <= edges.Keys - rest
    && used == used0 + Values(m)
    && forall f :: f in edges && f !in rest ==> f in Values(m) || edges[f] <= m.Keys
  }

  /** Matching the free neighbour `s` of the next vertex `f` keeps the greedy state, with `f`
      now processed. */
  lemma GreedyMatch(edges: map<int, set<int>>, used0: set<int>, used: set<int>, m: map<int, int>, rest: set<int>,
                    f: int, s: int)
    requires GreedySoFar(edges, used0, used, m, rest) && f in rest && s in edges[f] && s !in m
    ensures GreedySoFar(edges, used0, used + {f}, Emplace(m, s, f), rest - {f})
  {
    assert f !in Values(m);
    AddPairInjective(m, s, f);
    ValuesAdd(m, s, f);
  }

  /** Finding every neighbour of the next vertex `f` taken keeps the greedy state, with `f`
      now processed. */
  lemma GreedySkip(edges: map<int, set<int>>, used0: set<int>, used: set<int>, m: map<int, int>, rest: set<int>, f: int)
    requires GreedySoFar(edges, used0, used, m, rest) && f in rest && edges[f] <= m.Keys
    ensures GreedySoFar(edges, used0, used, m, rest - {f})
  {
  }

  /** Every entry `s` of `result` is the pair of `s` in `m` with the label of that arc. */
  ghost predicate LabelsOf(info: map<int, map<int, int>>, m: map<int, int>, result: map<int, (int, int)>)
  {
    forall s :: s in result ==>
      s in m && m[s] in info && s in info[m[s]] && result[s] == (m[s], info[m[s]][s])
  }

  /** Labelling one more matched pair keeps the result table right. */
  lemma LabelStep(info: map<int, map<int, int>>, m: map<int, int>, result: map<int, (int, int)>, s: int)
    requires LabelsOf(info, m, result) && s in m && s !in result && m[s] in info && s in info[m[s]]
    ensures LabelsOf(info, m, Emplace(result, s, (m[s], info[m[s]][s])))
  {
  }

  class BipartiteGraph {
    var edges: map<int, set<int>>
    var info: map<int, map<int, int>>

    constructor ()
      ensures edges == map[] && info == map[]
    {
      edges, info := map[], map[];
    }

    /** Adds the arc `firstVertex -> secondVertex` and labels it with `vertexInfo` unless it
        has a tag already. */
    method AddEdge(firstVertex: int, secondVertex: int, vertexInfo: int)
      modifies this
      ensures edges == WithEdge(old(edges), firstVertex, secondVertex)
      ensures info == WithInfo(old(info), firstVertex, secondVertex, vertexInfo)
    {
      var out: set<int> := {};
      if firstVertex in edges {
        out := edges[firstVertex];
      }
      edges := edges[firstVertex := out + {secondVertex}];
      var labels: map<int, int> := map[];
      if firstVertex in info {
        labels := info[firstVertex];
      }
      info := info[firstVertex := Emplace(labels, secondVertex, vertexInfo)];
    }

    /** The matching: every matched second-part vertex `s` carries its first-part partner `f`,
        with `s` a neighbour of `f`, and the tag of the arc `f -> s`; every pair of the greedy
        pass is kept. */
    method FindOptimalMatching() returns (result: map<int, (int, int)>, ghost greedy: map<int, int>)
      requires Labelled(edges, info)
      ensures forall s :: s in result ==>
        result[s].0 in edges && s in edges[result[s].0] &&
        result[s].0 in info && s in info[result[s].0] && result[s].1 == info[result[s].0][s]
      ensures forall s :: s in greedy ==> s in result && result[s].0 == greedy[s]
      ensures Injective(greedy) && OnArcs(edges, greedy)
      ensures forall f :: f in edges ==> f in Values(greedy) || edges[f] <= greedy.Keys
    {
      var usedInFindAnyMatching := {};
      var matching;
      matching, usedInFindAnyMatching := FindAnyMatching(usedInFindAnyMatching);
      greedy := matching;
      var used;
      matching, used := AugmentAll(usedInFindAnyMatching, matching);
      result := LabelMatching(matching);
    }

    /** The augmenting phase: a search from every first-part vertex outside `skip`, sharing
        one `used` set. Every pair stays, and every new pair is an arc; every vertex outside `skip`
        is used afterwards, and if no pair was added, every search failed exhaustively. */
    method AugmentAll(skip: set<int>, matching: map<int, int>)
      returns (matching': map<int, int>, used: set<int>)
      requires OnArcs(edges, matching)
      ensures OnArcs(edges, matching') && Keeps(matching, matching')
      ensures edges.Keys - skip <= used <= edges.Keys
      ensures matching'.Keys == matching.Keys ==> Exhausted(edges, used, matching', used)
    {
      used := {};
      matching' := matching;
      var rest := edges.Keys;
      while rest != {}
        invariant rest <= edges.Keys && used <= edges.Keys
        invariant edges.Keys - rest - skip <= used
        invariant matching'.Keys == matching.Keys ==> Exhausted(edges, used, matching', used)
        invariant OnArcs(edges, matching') && Keeps(matching, matching')
        decreases |rest|
      {
        NonEmptyHasElement(rest);
        var f :| f in rest;
        rest := rest - {f};
        if f !in skip {
          var found;
          ghost var added, m0 := 0, matching';
          found, used, matching', added := TryFindAugmentingPath(f, used, matching');
          assert Keeps(m0, matching');
        }
      }
    }

    /** The result table: every matched pair `s -> f` becomes `s -> (f, label of f -> s)`. */
    method LabelMatching(matching: map<int, int>) returns (result: map<int, (int, int)>)
      requires Labelled(edges, info) && OnArcs(edges, matching)
      ensures result.Keys == matching.Keys && LabelsOf(info, matching, result)
    {
      result := map[];
      var rest := matching.Keys;
      while rest != {}
        invariant rest <= matching.Keys
        invariant result.Keys == matching.Keys - rest
        invariant LabelsOf(info, matching, result)
        decreases |rest|
      {
        NonEmptyHasElement(rest);
        var s :| s in rest;
        var f := matching[s];
        assert f in edges && s in edges[f];
        var vertexInfo := info[f][s];
        LabelStep(info, matching, result, s);
        result := Emplace(result, s, (f, vertexInfo));
        rest := rest - {s};
      }
    }

    /** The augmenting-path search from `firstPartVertex`: nothing happens for a vertex already
        in `used`; otherwise it joins `used`, and the search either matches exactly one new
        second-part vertex `added` along an arc, or changes no pair at all, and then every vertex
        it marked sees only matched vertices whose partners are used. No existing pair is ever
        changed. */
    method TryFindAugmentingPath(firstPartVertex: int, used: set<int>, matching: map<int, int>)
      returns (found: bool, used': set<int>, matching': map<int, int>, ghost added: int)
      requires firstPartVertex in edges && used <= edges.Keys && OnArcs(edges, matching)
      ensures firstPartVertex in used ==> !found && used' == used && matching' == matching
      ensures firstPartVertex in used' && used <= used' <= edges.Keys
      ensures OnArcs(edges, matching') && Keeps(matching, matching')
      ensures found ==> added !in matching && matching'.Keys == matching.Keys + {added}
      ensures !found ==> matching' == matching
      ensures !found && firstPartVertex !in used ==>
        forall s :: s in edges[firstPartVertex] ==> s in matching && matching[s] in used'
      ensures !found ==> Exhausted(edges, used' - used, matching, used')
      decreases |edges.Keys - used|
    {
      if firstPartVertex in used {
        return false, used, matching, 0;
      }
      used', matching', added := used + {firstPartVertex}, matching, 0;
      var rest := edges[firstPartVertex];
      while rest != {}
        invariant rest <= edges[firstPartVertex]
        invariant used + {firstPartVertex} <= used' <= edges.Keys
        invariant matching' == matching
        invariant forall s :: s in edges[firstPartVertex] - rest ==> s in matching && matching[s] in used'
        invariant Exhausted(edges, used' - used - {firstPartVertex}, matching, used')
        decreases |rest|
      {
        NonEmptyHasElement(rest);
        var vertex :| vertex in rest;
        rest := rest - {vertex};
        var ok := vertex !in matching';
        if !ok {
          FewerOutside(edges.Keys, used, used', firstPartVertex);
          ok, used', matching', added := TryFindAugmentingPath(matching'[vertex], used', matching');
        } else {
          added := vertex;
        }
        if ok {
          matching' := Emplace(matching', vertex, firstPartVertex);
          return true, used', matching', added;
        }
      }
      return false, used', matching', added;
    }

    /** The greedy pass: every first-part vertex, in any order, is matched with its first free
        neighbour if it has one. The result is a matching along arcs, `used` gains exactly its
        first-part vertices, and every first-part vertex is matched or has all its neighbours
        taken. */
    method FindAnyMatching(used: set<int>) returns (matching: map<int, int>, used': set<int>)
      ensures OnArcs(edges, matching) && Injective(matching)
      ensures used' == used + Values(matching)
      ensures forall f :: f in edges ==> f in Values(matching) || edges[f] <= matching.Keys
    {
      matching, used' := map[], used;
      var rest := edges.Keys;
      while rest != {}
        invariant GreedySoFar(edges, used, used', matching, rest)
        decreases |rest|
      {
        NonEmptyHasElement(rest);
        var f :| f in rest;
        var vertexes := edges[f];
        ghost var m0, u0, matched := matching, used', false;
        while vertexes != {}
          invariant vertexes <= edges[f]
          invariant !matched && matching == m0 && used' == u0
          invariant edges[f] - vertexes <= matching.Keys
          decreases |vertexes|
        {
          NonEmptyHasElement(vertexes);
          var vertex :| vertex in vertexes;
          vertexes := vertexes - {vertex};
          if vertex !in matching {
            GreedyMatch(edges, used, used', matching, rest, f, vertex);
            matching := Emplace(matching, vertex, f);
            used' := used' + {f};
            matched := true;
            break;
          }
        }
        if !matched {
          GreedySkip(edges, used, used', matching, rest, f);
        }
        rest := rest - {f};
      }
    }
  }
}
