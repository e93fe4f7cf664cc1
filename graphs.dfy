/** Weighted directed graphs as the search code reads them: for each vertex, its
    adjacency list in list order, and the distance values the searches keep. */
module Graphs {

  /** One node of an adjacency list: the destination `y` and the edge weight. */
  datatype Edge = Edge(y: nat, weight: nat)

  /** `g[v]` is the adjacency list of vertex `v`, in the order the linked list holds it. */
  type Graph = seq<seq<Edge>>

  /** Every destination names a vertex of the graph. */
  predicate ValidGraph(g: Graph) {
    forall v, k :: 0 <= v < |g| && 0 <= k < |g[v]| ==> g[v][k].y < |g|
  }

  /** Some edge u -> x is in u's adjacency list. */
  ghost predicate IsEdge(g: Graph, u: nat, x: nat) {
    u < |g| && exists k :: 0 <= k < |g[u]| && g[u][k].y == x
  }

  /** A walk along edges of `g`, listed vertex by vertex. */
  ghost predicate IsPath(g: Graph, p: seq<nat>) {
    && |p| >= 1
    && (forall i :: 0 <= i < |p| ==> p[i] < |g|)
    && (forall i :: 0 <= i < |p| - 1 ==> IsEdge(g, p[i], p[i + 1]))
  }

  ghost predicate Reachable(g: Graph, s: nat, t: nat) {
    exists p :: IsPath(g, p) && p[0] == s && p[|p| - 1] == t
  }

  /** A marking that holds at the first vertex of a path and is closed under the
      edges of `g` holds at every vertex of the path. */
  lemma {:induction false} ClosedMarkingCoversPath(g: Graph, mark: seq<bool>, p: seq<nat>)
    requires |mark| == |g| && IsPath(g, p) && mark[p[0]]
    requires forall x, k :: 0 <= x < |g| && mark[x] && 0 <= k < |g[x]| && g[x][k].y < |g| ==> mark[g[x][k].y]
    ensures mark[p[|p| - 1]]
    decreases |p|
  {
    if |p| > 1 {
      assert IsEdge(g, p[0], p[1]);
      var k :| 0 <= k < |g[p[0]]| && g[p[0]][k].y == p[1];
      assert mark[p[1]];
      assert IsPath(g, p[1..]);
      ClosedMarkingCoversPath(g, mark, p[1..]);
    }
  }

  /** Search distances. JavaScript's `Infinity` and `Number.MAX_VALUE`, both used
      as "not reached yet", are `Inf`; reached vertices carry a natural number. */
  datatype Dist = Fin(d: nat) | Inf

  /** `a + w` in floating point: anything added to the sentinel stays the sentinel,
      and, weights being non-negative, the sum is never below `a`. */
  function Plus(a: Dist, w: nat): (r: Dist)
    ensures r.Inf? <==> a.Inf?
    ensures !Less(r, a)
  {
    match a
    case Fin(d) => Fin(d + w)
    case Inf => Inf
  }

  /** `a < b`: a strict order in which the sentinel is below nothing and every
      reached distance is below the sentinel. */
  predicate Less(a: Dist, b: Dist): (r: bool)
    ensures r ==> a.Fin? && a != b
    ensures a.Fin? && b.Inf? ==> r
  {
    match a
    case Inf => false
    case Fin(x) => b.Inf? || x < b.d
  }

  lemma LessTransitive(a: Dist, b: Dist, c: Dist)
    ensures Less(a, b) && Less(b, c) ==> Less(a, c)
  {
  }

  /** x's parent p reaches x by an edge whose weight, added to p's distance, is
      at most x's distance. */
  ghost predicate Linked(g: Graph, distance: seq<Dist>, p: nat, x: nat)
    requires |distance| == |g| && p < |g| && x < |g|
  {
    exists k :: 0 <= k < |g[p]| && g[p][k].y == x
      && distance[p].Fin? && distance[x].Fin? && distance[p].d + g[p][k].weight <= distance[x].d
  }
}
