/** The symmetric weight table of `Graph.h`: for every vertex a map from neighbour to weight. */
module Graphs {
  import opened Maps

  /** The table after `AddEdge(u, v, w)`: `w` is emplaced under `u -> v` and then under `v -> u`. */
  function AddedEdge(e: map<int, map<int, int>>, u: int, v: int, w: int): (r: map<int, map<int, int>>)
    requires u in e && v in e
    ensures r.Keys == e.Keys
  {
    var e1 := e[u := Emplace(e[u], v, w)];
    e1[v := Emplace(e1[v], u, w)]
  }

  /** Every stored weight is stored in both directions, with the same value. */
  ghost predicate Symmetric(e: map<int, map<int, int>>)
  {
    forall a, b :: a in e && b in e[a] ==> b in e && a in e[b] && e[b][a] == e[a][b]
  }

  /** Every two different vertices have a weight. */
  ghost predicate Complete(e: map<int, map<int, int>>)
  {
    forall a, b :: a in e && b in e && a != b ==> b in e[a]
  }

  /** `AddEdge` changes the neighbour maps of its two end points only. */
  lemma AddedEdgeOthers(e: map<int, map<int, int>>, u: int, v: int, w: int, x: int)
    requires u in e && v in e && x in e && x != u && x != v
    ensures AddedEdge(e, u, v, w)[x] == e[x]
  {
  }

  /** On a pair without a weight, `AddEdge` stores its weight in both directions. */
  lemma AddedEdgeFresh(e: map<int, map<int, int>>, u: int, v: int, w: int)
    requires u in e && v in e && v !in e[u] && u !in e[v]
    ensures v in AddedEdge(e, u, v, w)[u] && AddedEdge(e, u, v, w)[u][v] == w
    ensures u in AddedEdge(e, u, v, w)[v] && AddedEdge(e, u, v, w)[v][u] == w
  {
  }

  /** A weight once stored is never replaced by a later `AddEdge`. */
  lemma AddedEdgeKeeps(e: map<int, map<int, int>>, u: int, v: int, w: int, a: int, b: int)
    requires u in e && v in e && a in e && b in e[a]
    ensures b in AddedEdge(e, u, v, w)[a] && AddedEdge(e, u, v, w)[a][b] == e[a][b]
  {
  }

  /** After `AddEdge(u, v, _)`, `b` is a neighbour of `a` iff it was before or the call joined them. */
  lemma AddedEdgeNeighbours(e: map<int, map<int, int>>, u: int, v: int, w: int, a: int, b: int)
    requires u in e && v in e && a in e
    ensures b in AddedEdge(e, u, v, w)[a] <==> b in e[a] || (a == u && b == v) || (a == v && b == u)
  {
  }

  /** `AddEdge` keeps the table symmetric. */
  lemma {:induction false} AddedEdgeSymmetric(e: map<int, map<int, int>>, u: int, v: int, w: int)
    requires u in e && v in e && Symmetric(e)
    ensures Symmetric(AddedEdge(e, u, v, w))
  {
    var r := AddedEdge(e, u, v, w);
    forall a, b | a in r && b in r[a] ensures b in r && a in r[b] && r[b][a] == r[a][b] {
      AddedEdgeNeighbours(e, u, v, w, a, b);
      if b in e[a] {
        AddedEdgeKeeps(e, u, v, w, a, b);
        AddedEdgeKeeps(e, u, v, w, b, a);
      } else {
        assert (a == u && b == v) || (a == v && b == u);
        assert a !in e[b];
        AddedEdgeFresh(e, u, v, w);
      }
    }
  }

  class Graph {
    var edges: map<int, map<int, int>>

    /** A table of the vertices `0 .. n - 1`, none of them with a neighbour yet. */
    constructor (n: int)
      ensures edges.Keys == Range(n)
      ensures forall i :: i in edges ==> edges[i] == map[]
    {
      var e: map<int, map<int, int>> := map[];
      var i := 0;
      while i < n
        invariant 0 <= i <= if n < 0 then 0 else n
        invariant e.Keys == Range(i)
        invariant forall k :: k in e ==> e[k] == map[]
      {
        e := Emplace(e, i, map[]);
        i := i + 1;
      }
      assert Range(i) == Range(n);
      edges := e;
    }

    /** Stores `weight` for the pair in both directions, keeping any weight it already has. */
    method AddEdge(firstVertex: int, secondVertex: int, weight: int)
      requires firstVertex in edges && secondVertex in edges
      modifies this
      ensures edges == AddedEdge(old(edges), firstVertex, secondVertex, weight)
    {
      edges := edges[firstVertex := Emplace(edges[firstVertex], secondVertex, weight)];
      edges := edges[secondVertex := Emplace(edges[secondVertex], firstVertex, weight)];
    }

    /** The weight stored for the pair; on a symmetric table it does not depend on the direction. */
    function GetEdgeWeight(firstVertex: int, secondVertex: int): (w: int)
      reads this
      requires firstVertex in edges && secondVertex in edges[firstVertex]
      ensures Symmetric(edges) ==> firstVertex in edges[secondVertex] && w == edges[secondVertex][firstVertex]
    {
      edges[firstVertex][secondVertex]
    }

    /** The neighbour-to-weight map of `vertex`; on a symmetric table each neighbour sees
        `vertex` with the same weight. */
    function EdgesByVertex(vertex: int): (m: map<int, int>)
      reads this
      requires vertex in edges
      ensures Symmetric(edges) ==> forall b :: b in m ==> b in edges && vertex in edges[b] && edges[b][vertex] == m[b]
    {
      edges[vertex]
    }
  }
}
