/** `GraphUtils.djikstra` (GraphUtils.ts lines 14-64) as it is written: a
    parent-array search over `inTree`, `distance` and `parent`, whose choice of
    the next vertex (lines 50-59) takes the lowest-index vertex that is not in
    the tree and has a finite distance, not the closest one. What the model
    proves is what that code still guarantees: it stops after at most one round
    per vertex, every parent is an edge into its child from a vertex already in
    the tree, and a vertex gets a parent exactly when it is reachable from
    `start` and is not `start`. */
module Djikstra {
  import opened Graphs

  // ---------------------------------------------------------------------------
  // The selection scan of lines 50-59

  /** The value held by `dist` during the scan: the number it starts with, or,
      after the first hit, the whole `distance` array (line 56 assigns the array,
      not its element). Compared with a number, an array of two or more numbers
      converts to NaN; an array of one number converts to that number, but then
      the only slot left to compare is the one past the end. */
  datatype ScanBest = Number(value: Dist) | WholeArray

  /** `dist > distance[i]` at line 55: never true once `dist` holds the array
      (a comparison with NaN), and never true of an unreached vertex. */
  predicate Exceeds(best: ScanBest, x: Dist): (r: bool)
    ensures best.WholeArray? ==> !r
    ensures r ==> x.Fin?
  {
    match best
    case Number(b) => Less(x, b)
    case WholeArray => false
  }

  /** The first index at or after `i` that is not in the tree and has a finite
      distance, or |inTree| when there is none. */
  function FirstFiniteFrom(inTree: seq<bool>, distance: seq<Dist>, i: nat): (r: nat)
    requires |inTree| == |distance| && i <= |inTree|
    ensures i <= r <= |inTree|
    ensures r < |inTree| ==> !inTree[r] && distance[r].Fin?
    ensures forall j :: i <= j < r && !inTree[j] ==> distance[j].Inf?
    decreases |inTree| - i
  {
    if i == |inTree| then i
    else if !inTree[i] && distance[i].Fin? then i
    else FirstFiniteFrom(inTree, distance, i + 1)
  }

  /** The vertex the scan of lines 50-59 leaves in `v`: the lowest-index vertex
      outside the tree with a finite distance, or 0 when there is none. */
  function NextVertex(inTree: seq<bool>, distance: seq<Dist>): (v: nat)
    requires |inTree| == |distance|
    ensures v < |inTree| || |inTree| == 0
    ensures (exists i :: 0 <= i < |inTree| && !inTree[i] && distance[i].Fin?) ==>
              && !inTree[v] && distance[v].Fin?
              && forall j :: 0 <= j < v && !inTree[j] ==> distance[j].Inf?
    ensures (forall i :: 0 <= i < |inTree| && !inTree[i] ==> distance[i].Inf?) ==> v == 0
  {
    var r := FirstFiniteFrom(inTree, distance, 0);
    if r == |inTree| then 0 else r
  }

  /** The scan ignores how far the candidates are: here vertex 1 is chosen
      although vertex 2 is closer to the start. */
  lemma NextVertexIgnoresDistance()
    ensures NextVertex([true, false, false], [Fin(0), Fin(5), Fin(1)]) == 1
  {
  }

  /** Lines 50-59. The bound `i <= g.numVertices` visits one slot past the end;
      there `distance[n]` is undefined, the comparison is false and nothing
      happens, which the guard `i < n` stands for. */
  method SelectNext(inTree: seq<bool>, distance: seq<Dist>) returns (v: nat)
    requires |inTree| == |distance|
    ensures v == NextVertex(inTree, distance)
  {
    var n := |inTree|;
    v := 0;
    var dist := Number(Inf);
    var i := 0;
    while i <= n
      invariant 0 <= i <= n + 1
      invariant dist.Number? ==> dist.value == Inf && v == 0 && FirstFiniteFrom(inTree, distance, 0) >= if i <= n then i else n
      invariant dist.WholeArray? ==> v < i && v < n && v == FirstFiniteFrom(inTree, distance, 0)
    {
      if i < n && !inTree[i] && Exceeds(dist, distance[i]) {
        dist := WholeArray;
        v := i;
      }
      i := i + 1;
    }
  }

  // ---------------------------------------------------------------------------
  // Invariants of the search

  /** The number of vertices not yet in the tree; each round of the outer loop
      lowers it by one. */
  function CountFalse(s: seq<bool>): (c: nat)
    ensures c <= |s|
  {
    if s == [] then 0 else (if s[0] then 0 else 1) + CountFalse(s[1..])
  }

  lemma {:induction false} CountFalseAll(s: seq<bool>)
    requires forall i :: 0 <= i < |s| ==> !s[i]
    ensures CountFalse(s) == |s|
  {
    if s != [] {
      CountFalseAll(s[1..]);
    }
  }

  lemma {:induction false} CountFalseMark(s: seq<bool>, i: nat)
    requires i < |s| && !s[i]
    ensures CountFalse(s[i := true]) == CountFalse(s) - 1
  {
    if i > 0 {
      assert s[i := true][1..] == s[1..][i - 1 := true];
      CountFalseMark(s[1..], i - 1);
    }
  }

  /** What the parent and distance arrays say at every step: parents are tree
      vertices linked to their children, finite distances belong to reachable
      vertices, and every such vertex other than `start` has a parent. */
  ghost predicate SearchTree(g: Graph, start: nat, inTree: seq<bool>, distance: seq<Dist>, parent: seq<int>)
    requires |inTree| == |g| && |distance| == |g| && |parent| == |g|
  {
    && (forall x :: 0 <= x < |g| && parent[x] != -1 ==>
          0 <= parent[x] < |g| && inTree[parent[x]] && x != start && Linked(g, distance, parent[x], x))
    && (forall x :: 0 <= x < |g| && distance[x].Fin? ==> Reachable(g, start, x))
    && (forall x :: 0 <= x < |g| && x != start && distance[x].Fin? ==> parent[x] != -1)
  }

  /** Every tree vertex with a finite distance has finite-distance neighbours. */
  ghost predicate Closed(g: Graph, inTree: seq<bool>, distance: seq<Dist>)
    requires |inTree| == |g| && |distance| == |g|
  {
    forall u, k :: 0 <= u < |g| && inTree[u] && distance[u].Fin? && 0 <= k < |g[u]| && g[u][k].y < |g| ==>
      distance[g[u][k].y].Fin?
  }

  lemma ReachableStep(g: Graph, start: nat, u: nat, k: nat)
    requires Reachable(g, start, u) && u < |g| && k < |g[u]| && g[u][k].y < |g|
    ensures Reachable(g, start, g[u][k].y)
  {
    var p :| IsPath(g, p) && p[0] == start && p[|p| - 1] == u;
    var q := p + [g[u][k].y];
    assert IsEdge(g, u, g[u][k].y);
    assert IsPath(g, q);
  }

  /** One relaxation of lines 42-45 keeps the search tree. */
  lemma RelaxKeepsTree(g: Graph, start: nat, inTree: seq<bool>, distance: seq<Dist>, parent: seq<int>, v: nat, k: nat)
    requires ValidGraph(g) && |inTree| == |g| && |distance| == |g| && |parent| == |g|
    requires SearchTree(g, start, inTree, distance, parent)
    requires start < |g| && distance[start] == Fin(0)
    requires v < |g| && inTree[v] && k < |g[v]| && distance[v].Fin?
    requires Less(Plus(distance[v], g[v][k].weight), distance[g[v][k].y])
    ensures var w := g[v][k].y;
      SearchTree(g, start, inTree, distance[w := Plus(distance[v], g[v][k].weight)], parent[w := v])
  {
    var w := g[v][k].y;
    var d' := distance[w := Plus(distance[v], g[v][k].weight)];
    var p' := parent[w := v];
    forall x | 0 <= x < |g| && p'[x] != -1
      ensures 0 <= p'[x] < |g| && inTree[p'[x]] && x != start && Linked(g, d', p'[x], x)
    {
      if x == w {
        assert g[v][k].y == x;
      } else {
        var p := parent[x];
        var j :| 0 <= j < |g[p]| && g[p][j].y == x
          && distance[p].Fin? && distance[x].Fin? && distance[p].d + g[p][j].weight <= distance[x].d;
        assert d'[x] == distance[x];
        assert d'[p].Fin? && d'[p].d <= distance[p].d;
      }
    }
    forall x | 0 <= x < |g| && d'[x].Fin?
      ensures Reachable(g, start, x)
    {
      if x == w {
        ReachableStep(g, start, v, k);
      }
    }
  }

  /** Marking one more vertex as in the tree keeps the search tree. */
  lemma MarkKeepsTree(g: Graph, start: nat, inTree: seq<bool>, distance: seq<Dist>, parent: seq<int>, v: nat)
    requires |inTree| == |g| && |distance| == |g| && |parent| == |g| && v < |g|
    requires SearchTree(g, start, inTree, distance, parent)
    ensures SearchTree(g, start, inTree[v := true], distance, parent)
  {
  }

  /** A vertex with an infinite distance is only processed when no other
      candidate is left (it is then vertex 0), and its round relaxes nothing, so
      the next scan returns a tree vertex and the outer loop stops. */
  lemma InfiniteRoundIsLast(inTree: seq<bool>, before: seq<Dist>, after: seq<Dist>, v: nat)
    requires |inTree| == |before| == |after| && v < |inTree| && !inTree[v]
    requires v == NextVertex(inTree, before)
    requires forall u :: 0 <= u < |inTree| && inTree[u] ==> before[u].Fin?
    requires before[v].Inf? ==> after == before
    requires forall x :: 0 <= x < |inTree| && before[x].Fin? ==> after[x].Fin?
    ensures var marked := inTree[v := true];
      forall u :: 0 <= u < |inTree| && marked[u] && after[u].Inf? ==> marked[NextVertex(marked, after)]
  {
    var marked := inTree[v := true];
    if before[v].Inf? {
      assert forall i :: 0 <= i < |marked| && !marked[i] ==> after[i].Inf?;
    }
  }

  /** A round that marks `v` and relaxes its edges keeps the tree closed: the
      tree vertices marked before had finite distances, which stay finite
      together with their neighbours', and a finite `v` has finite neighbours
      once its edges are relaxed. */
  lemma RoundKeepsClosed(g: Graph, inTree: seq<bool>, before: seq<Dist>, after: seq<Dist>, v: nat)
    requires |inTree| == |g| && |before| == |g| && |after| == |g| && v < |g| && inTree[v]
    requires forall u :: 0 <= u < |g| && u != v && inTree[u] ==> before[u].Fin?
    requires Closed(g, inTree[v := false], before)
    requires forall x :: 0 <= x < |g| && before[x].Fin? ==> after[x].Fin?
    requires after[v] == before[v]
    requires after[v].Fin? ==> forall j :: 0 <= j < |g[v]| && g[v][j].y < |g| ==> after[g[v][j].y].Fin?
    ensures Closed(g, inTree, after)
  {
    forall u, k | 0 <= u < |g| && inTree[u] && after[u].Fin? && 0 <= k < |g[u]| && g[u][k].y < |g|
      ensures after[g[u][k].y].Fin?
    {
      if u != v {
        assert inTree[v := false][u];
      }
    }
  }

  /** When every vertex outside the tree has an infinite distance, the finite
      distances are closed under the edges, so every vertex reachable from
      `start` has one. */
  lemma ClosedCoversReachable(g: Graph, start: nat, inTree: seq<bool>, distance: seq<Dist>)
    requires |inTree| == |g| && |distance| == |g| && start < |g| && distance[start].Fin?
    requires Closed(g, inTree, distance)
    requires forall u :: 0 <= u < |g| && !inTree[u] ==> distance[u].Inf?
    ensures forall x :: 0 <= x < |g| && Reachable(g, start, x) ==> distance[x].Fin?
  {
    var mark := seq(|g|, i requires 0 <= i < |g| => distance[i].Fin?);
    forall x | 0 <= x < |g| && Reachable(g, start, x)
      ensures distance[x].Fin?
    {
      var p :| IsPath(g, p) && p[0] == start && p[|p| - 1] == x;
      ClosedMarkingCoversPath(g, mark, p);
    }
  }

  // ---------------------------------------------------------------------------
  // The search

  /** Lines 36-48: relax every edge out of `v`, in list order. A distance and
      its parent change together, and only to a strictly smaller distance. */
  method RelaxEdges(g: Graph, start: nat, v: nat, inTree: seq<bool>, dist: seq<Dist>, parent: seq<int>)
    returns (dist': seq<Dist>, parent': seq<int>)
    requires ValidGraph(g) && |inTree| == |g| && |dist| == |g| && |parent| == |g|
    requires start < |g| && v < |g| && inTree[v]
    requires dist[start] == Fin(0) && parent[start] == -1
    requires SearchTree(g, start, inTree, dist, parent)
    ensures |dist'| == |g| && |parent'| == |g|
    ensures dist'[v] == dist[v] && dist'[start] == Fin(0) && parent'[start] == -1
    ensures dist[v].Inf? ==> dist' == dist && parent' == parent
    ensures forall x :: 0 <= x < |g| && dist[x].Fin? ==> dist'[x].Fin? && dist'[x].d <= dist[x].d
    ensures forall x :: 0 <= x < |g| && (dist'[x] != dist[x] || parent'[x] != parent[x]) ==>
      parent'[x] == v && Less(dist'[x], dist[x]) &&
      exists j :: 0 <= j < |g[v]| && g[v][j].y == x && dist'[x] == Plus(dist[v], g[v][j].weight)
    ensures dist[v].Fin? ==> forall j :: 0 <= j < |g[v]| ==> dist'[g[v][j].y].Fin?
    ensures SearchTree(g, start, inTree, dist', parent')
  {
    dist', parent' := dist, parent;
    for k := 0 to |g[v]|
      invariant |dist'| == |g| && |parent'| == |g|
      invariant dist'[v] == dist[v] && dist'[start] == Fin(0) && parent'[start] == -1
      invariant dist[v].Inf? ==> dist' == dist && parent' == parent
      invariant forall x :: 0 <= x < |g| && dist[x].Fin? ==> dist'[x].Fin? && dist'[x].d <= dist[x].d
      invariant forall x :: 0 <= x < |g| && (dist'[x] != dist[x] || parent'[x] != parent[x]) ==>
        parent'[x] == v && Less(dist'[x], dist[x]) &&
        exists j :: 0 <= j < k && g[v][j].y == x && dist'[x] == Plus(dist[v], g[v][j].weight)
      invariant forall j :: 0 <= j < k && dist[v].Fin? ==> dist'[g[v][j].y].Fin?
      invariant SearchTree(g, start, inTree, dist', parent')
    {
      var w := g[v][k].y;
      var weight := g[v][k].weight;
      ghost var d, p := dist', parent';
      if Less(Plus(dist'[v], weight), dist'[w]) {
        dist' := dist'[w := Plus(dist'[v], weight)];
        parent' := parent'[w := v];
      }
      RelaxStep(g, start, v, inTree, dist, parent, d, p, dist', parent', k);
    }
  }

  /** Lowering the distance of an edge's target keeps earlier targets reached. */
  lemma RelaxKeepsTargets(g: Graph, v: nat, d: seq<Dist>, k: nat, e: Dist)
    requires ValidGraph(g) && v < |g| && k < |g[v]| && |d| == |g| && e.Fin?
    requires forall j :: 0 <= j < k ==> d[g[v][j].y].Fin?
    ensures forall j :: 0 <= j < k + 1 ==> d[g[v][k].y := e][g[v][j].y].Fin?
  {
  }

  /** One round of the loop of lines 36-48 keeps what `RelaxEdges` promises,
      for one more edge. */
  lemma RelaxStep(g: Graph, start: nat, v: nat, inTree: seq<bool>, dist: seq<Dist>, parent: seq<int>,
                  d: seq<Dist>, p: seq<int>, d': seq<Dist>, p': seq<int>, k: nat)
    requires ValidGraph(g) && |inTree| == |g| && |dist| == |g| && |parent| == |g|
    requires start < |g| && v < |g| && inTree[v] && k < |g[v]|
    requires |d| == |g| && |p| == |g|
    requires d[v] == dist[v] && d[start] == Fin(0) && p[start] == -1
    requires dist[v].Inf? ==> d == dist && p == parent
    requires forall x :: 0 <= x < |g| && dist[x].Fin? ==> d[x].Fin? && d[x].d <= dist[x].d
    requires forall x :: 0 <= x < |g| && (d[x] != dist[x] || p[x] != parent[x]) ==>
      p[x] == v && Less(d[x], dist[x]) &&
      exists j :: 0 <= j < k && g[v][j].y == x && d[x] == Plus(dist[v], g[v][j].weight)
    requires forall j :: 0 <= j < k && dist[v].Fin? ==> d[g[v][j].y].Fin?
    requires SearchTree(g, start, inTree, d, p)
    requires var w := g[v][k].y;
      if Less(Plus(d[v], g[v][k].weight), d[w]) then d' == d[w := Plus(d[v], g[v][k].weight)] && p' == p[w := v]
      else d' == d && p' == p
    ensures |d'| == |g| && |p'| == |g|
    ensures d'[v] == dist[v] && d'[start] == Fin(0) && p'[start] == -1
    ensures dist[v].Inf? ==> d' == dist && p' == parent
    ensures forall x :: 0 <= x < |g| && dist[x].Fin? ==> d'[x].Fin? && d'[x].d <= dist[x].d
    ensures forall x :: 0 <= x < |g| && (d'[x] != dist[x] || p'[x] != parent[x]) ==>
      p'[x] == v && Less(d'[x], dist[x]) &&
      exists j :: 0 <= j < k + 1 && g[v][j].y == x && d'[x] == Plus(dist[v], g[v][j].weight)
    ensures forall j :: 0 <= j < k + 1 && dist[v].Fin? ==> d'[g[v][j].y].Fin?
    ensures SearchTree(g, start, inTree, d', p')
  {
    var w := g[v][k].y;
    if Less(Plus(d[v], g[v][k].weight), d[w]) {
      LessTransitive(d'[w], d[w], dist[w]);
      RelaxKeepsTree(g, start, inTree, d, p, v, k);
      if dist[v].Fin? {
        RelaxKeepsTargets(g, v, d, k, Plus(d[v], g[v][k].weight));
      }
    }
  }

  /** Lines 14-64. `parent` is what the source returns; `visited` is the final
      `inTree`, `distance` the final distances and `rounds` the number of rounds
      of the outer loop. */
  method Djikstra(g: Graph, start: nat)
    returns (parent: seq<int>, ghost visited: seq<bool>, ghost distance: seq<Dist>, ghost rounds: nat)
    requires ValidGraph(g) && start < |g|
    ensures |parent| == |g| && |visited| == |g| && |distance| == |g|
    ensures parent[start] == -1 && distance[start] == Fin(0)
    ensures forall x :: 0 <= x < |g| && parent[x] != -1 ==>
      0 <= parent[x] < |g| && visited[parent[x]] && Linked(g, distance, parent[x], x)
    ensures forall x :: 0 <= x < |g| ==> (parent[x] != -1 <==> x != start && Reachable(g, start, x))
    ensures forall x :: 0 <= x < |g| ==> (distance[x].Fin? <==> Reachable(g, start, x))
    ensures rounds <= |g|
  {
    var n := |g|;
    // Lines 25-31.
    var inTree := seq(n, _ => false);
    var dist := seq(n, i => if i == start then Fin(0) else Inf);
    parent := seq(n, _ => -1);
    var v := start;
    rounds := 0;
    assert !inTree[start] && dist[start].Fin?;
    assert NextVertex(inTree, dist) == start;
    assert IsPath(g, [start]);
    CountFalseAll(inTree);
    while !inTree[v]
      invariant |inTree| == n && |dist| == n && |parent| == n && v < n
      invariant v == NextVertex(inTree, dist)
      invariant dist[start] == Fin(0) && parent[start] == -1
      invariant SearchTree(g, start, inTree, dist, parent)
      invariant Closed(g, inTree, dist)
      invariant forall u :: 0 <= u < n && inTree[u] && dist[u].Inf? ==> inTree[v]
      invariant rounds + CountFalse(inTree) == n
      decreases CountFalse(inTree)
    {
      ghost var unmarked, before := inTree, dist;
      CountFalseMark(inTree, v);
      MarkKeepsTree(g, start, inTree, dist, parent, v);
      inTree := inTree[v := true];
      assert inTree[v := false] == unmarked;
      dist, parent := RelaxEdges(g, start, v, inTree, dist, parent);
      RoundKeepsClosed(g, inTree, before, dist, v);
      InfiniteRoundIsLast(unmarked, before, dist, v);
      v := SelectNext(inTree, dist);
      rounds := rounds + 1;
    }
    visited, distance := inTree, dist;
    ClosedCoversReachable(g, start, visited, distance);
  }
}
