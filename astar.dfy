/** `GraphUtils.A_star` (GraphUtils.ts lines 73-135): `g_score` / `came_from`
    relaxation driven by the `min_heap` of module MinHeapClass. There is no
    closed set: a vertex whose g_score improves after it was expanded gets a new
    record and is expanded again. The heuristic `distanceTo` of line 108 is the
    parameter `h`. The model proves that the search stops, that `came_from` is
    a tree of graph edges rooted at `start` along which g_score (and, on ties,
    the order of assignment) strictly decreases, that the goal gets a parent
    exactly when it is reachable, and that when the search ends without the
    goal (the heap drains, or `remove_min` throws on a heap of tombstones)
    `came_from` covers exactly the vertices reachable from `start`. */
module AStar {
  import opened Graphs
  import opened Heaps
  import opened MinHeapClass
  import opened Options

  /** The heuristic of line 108, `g.getNodePosition(v).distanceTo(g.getNodePosition(end))`,
      taken as given: `h[v]` is its value for vertex v and the fixed goal `end`. */
  type Heuristic = seq<nat>

  /** The f_score of the live record of a reached vertex: the start record is
      added with 0 (line 78), every other one with g_score + h (line 109). */
  function Score(start: nat, h: Heuristic, gScore: seq<Dist>, v: nat): (f: int)
    requires v < |gScore| && |h| == |gScore| && gScore[v].Fin?
    ensures f >= 0 && (v != start ==> f >= gScore[v].d)
  {
    if v == start then 0 else gScore[v].d + h[v]
  }

  // ---------------------------------------------------------------------------
  // The parent tree

  /** p precedes x in the order that makes `came_from` acyclic: a smaller
      g_score, or an equal one assigned earlier. */
  ghost predicate Descends(rank: seq<Dist>, stamp: seq<nat>, p: nat, x: nat)
    requires p < |rank| && x < |rank| && |stamp| == |rank|
  {
    && rank[p].Fin? && rank[x].Fin?
    && (rank[p].d < rank[x].d || (rank[p].d == rank[x].d && stamp[p] < stamp[x]))
  }

  /** Every parent is a vertex with an edge into its child, the child is not
      `start`, and the parent precedes the child. */
  ghost predicate ParentTree(g: Graph, start: nat, cameFrom: seq<int>, gScore: seq<Dist>, stamp: seq<nat>)
    requires |cameFrom| == |g| && |gScore| == |g| && |stamp| == |g|
  {
    forall x :: 0 <= x < |g| && cameFrom[x] != -1 ==>
      && 0 <= cameFrom[x] < |g| && x != start
      && Linked(g, gScore, cameFrom[x], x) && Descends(gScore, stamp, cameFrom[x], x)
  }

  /** `start` keeps g_score 0 and no parent; every other reached vertex has a
      parent, and every reached vertex is reachable. */
  ghost predicate Rooted(g: Graph, start: nat, cameFrom: seq<int>, gScore: seq<Dist>)
    requires |cameFrom| == |g| && |gScore| == |g| && start < |g|
  {
    && gScore[start] == Fin(0) && cameFrom[start] == -1
    && (forall x :: 0 <= x < |g| && x != start && gScore[x].Fin? ==> cameFrom[x] != -1)
    && (forall x :: 0 <= x < |g| && gScore[x].Fin? ==> Reachable(g, start, x))
  }

  /** No stamp handed out so far exceeds the clock. */
  ghost predicate StampsBelow(stamp: seq<nat>, clock: nat) {
    forall x :: 0 <= x < |stamp| ==> stamp[x] <= clock
  }

  // ---------------------------------------------------------------------------
  // The open list

  /** Every live record names a reached vertex and carries its current f_score. */
  ghost predicate Records(start: nat, h: Heuristic, gScore: seq<Dist>, heap: seq<Entry>) {
    |h| == |gScore| && forall e :: e in multiset(heap) && e.vertex >= 0 ==>
      e.vertex < |gScore| && gScore[e.vertex].Fin? && e.fScore == Score(start, h, gScore, e.vertex)
  }

  /** All successors of x have been reached. */
  ghost predicate Expanded(g: Graph, gScore: seq<Dist>, x: nat)
    requires x < |g|
  {
    forall k :: 0 <= k < |g[x]| && g[x][k].y < |gScore| ==> gScore[g[x][k].y].Fin?
  }

  /** Every reached vertex other than `cur` (the one being expanded, or -1)
      still has its live record waiting in the heap or has been expanded. */
  ghost predicate Covered(g: Graph, start: nat, h: Heuristic, gScore: seq<Dist>, heap: seq<Entry>, cur: int)
    requires |gScore| == |g| && |h| == |g|
  {
    forall x :: 0 <= x < |g| && x != cur && gScore[x].Fin? ==>
      Entry(x, Score(start, h, gScore, x)) in multiset(heap) || Expanded(g, gScore, x)
  }

  /** A reached goal is never expanded (line 95 returns first), so its live
      record is always waiting in the heap. */
  ghost predicate Waiting(start: nat, h: Heuristic, gScore: seq<Dist>, heap: seq<Entry>, end: nat)
    requires |h| == |gScore|
  {
    end < |gScore| && gScore[end].Fin? ==> Entry(end, Score(start, h, gScore, end)) in multiset(heap)
  }

  /** What holds between two rounds of the loop of line 91 (`cur` = -1), and
      while the popped vertex `cur` is being expanded. */
  ghost predicate Searching(g: Graph, start: nat, h: Heuristic, end: nat,
                            gScore: seq<Dist>, cameFrom: seq<int>, stamp: seq<nat>, clock: nat, heap: seq<Entry>, cur: int)
  {
    && ValidGraph(g) && start < |g| && |h| == |g|
    && |gScore| == |g| && |cameFrom| == |g| && |stamp| == |g|
    && HeapOrdered(heap) && LiveUnique(multiset(heap))
    && Rooted(g, start, cameFrom, gScore) && ParentTree(g, start, cameFrom, gScore, stamp)
    && StampsBelow(stamp, clock) && Records(start, h, gScore, heap)
    && Covered(g, start, h, gScore, heap, cur) && Waiting(start, h, gScore, heap, end)
  }

  // ---------------------------------------------------------------------------
  // Termination measure: g_scores only go down, and each decrease adds one record.

  function InfCount(s: seq<Dist>): nat {
    if s == [] then 0 else (if s[0].Inf? then 1 else 0) + InfCount(s[1..])
  }

  function FinSum(s: seq<Dist>): nat {
    if s == [] then 0 else (if s[0].Fin? then s[0].d else 0) + FinSum(s[1..])
  }

  /** Lowering one entry either turns an infinite g_score finite or lowers the
      sum of the finite ones by the size of the decrease. */
  lemma {:induction false} LowerScore(s: seq<Dist>, i: nat, x: Dist)
    requires i < |s| && Less(x, s[i])
    ensures s[i].Inf? ==> InfCount(s[i := x]) + 1 == InfCount(s)
    ensures s[i].Fin? ==> InfCount(s[i := x]) == InfCount(s) && FinSum(s[i := x]) + (s[i].d - x.d) == FinSum(s)
  {
    if i > 0 {
      assert s[i := x][1..] == s[1..][i - 1 := x];
      LowerScore(s[1..], i - 1, x);
    }
  }

  // ---------------------------------------------------------------------------
  // One relaxation (lines 101-127)

  /** The relaxation of edge k of `cur` keeps the parent tree. */
  lemma RelaxKeepsTree(g: Graph, start: nat, gScore: seq<Dist>, cameFrom: seq<int>, stamp: seq<nat>, clock: nat, cur: nat, k: nat)
    requires ValidGraph(g) && start < |g| && |gScore| == |g| && |cameFrom| == |g| && |stamp| == |g|
    requires cur < |g| && k < |g[cur]| && gScore[cur].Fin?
    requires Rooted(g, start, cameFrom, gScore) && ParentTree(g, start, cameFrom, gScore, stamp)
    requires StampsBelow(stamp, clock)
    requires Less(Plus(gScore[cur], g[cur][k].weight), gScore[g[cur][k].y])
    ensures var nb, t := g[cur][k].y, Plus(gScore[cur], g[cur][k].weight);
      && Rooted(g, start, cameFrom[nb := cur], gScore[nb := t])
      && ParentTree(g, start, cameFrom[nb := cur], gScore[nb := t], stamp[nb := clock + 1])
      && StampsBelow(stamp[nb := clock + 1], clock + 1)
  {
    var nb, t := g[cur][k].y, Plus(gScore[cur], g[cur][k].weight);
    var gs, cf, st := gScore[nb := t], cameFrom[nb := cur], stamp[nb := clock + 1];
    assert nb != start && nb != cur;
    forall x | 0 <= x < |g| && cf[x] != -1
      ensures 0 <= cf[x] < |g| && x != start && Linked(g, gs, cf[x], x) && Descends(gs, st, cf[x], x)
    {
      if x == nb {
        assert g[cur][k].y == x;
      } else {
        var p := cameFrom[x];
        var j :| 0 <= j < |g[p]| && g[p][j].y == x
          && gScore[p].Fin? && gScore[x].Fin? && gScore[p].d + g[p][j].weight <= gScore[x].d;
        assert gs[x] == gScore[x] && st[x] == stamp[x];
        assert gs[p].Fin? && gs[p].d <= gScore[p].d;
      }
    }
    forall x | 0 <= x < |g| && gs[x].Fin?
      ensures Reachable(g, start, x)
    {
      if x == nb {
        var p :| IsPath(g, p) && p[0] == start && p[|p| - 1] == cur;
        assert IsEdge(g, cur, nb);
        assert IsPath(g, p + [nb]);
      }
    }
  }

  /** The relaxation keeps every live record's f_score current, and the record
      it replaces had a strictly larger f_score than the new one. */
  lemma RelaxKeepsRecords(start: nat, h: Heuristic, gScore: seq<Dist>, heap: seq<Entry>, heap': seq<Entry>, nb: nat, t: Dist, f: int)
    requires Records(start, h, gScore, heap)
    requires nb < |gScore| && nb != start && Less(t, gScore[nb]) && f == t.d + h[nb]
    requires LiveReplaced(heap, heap', nb, f)
    ensures Records(start, h, gScore[nb := t], heap')
    ensures forall e :: e in multiset(heap) && e.vertex == nb ==> e.fScore > f
  {
  }

  /** The relaxation keeps every reached vertex other than `cur` waiting or expanded. */
  lemma RelaxKeepsCovered(g: Graph, start: nat, h: Heuristic, gScore: seq<Dist>, heap: seq<Entry>, heap': seq<Entry>, cur: int, nb: nat, t: Dist, f: int)
    requires |gScore| == |g| && |h| == |g| && Covered(g, start, h, gScore, heap, cur)
    requires nb < |g| && nb != start && Less(t, gScore[nb]) && f == t.d + h[nb]
    requires LiveReplaced(heap, heap', nb, f)
    ensures Covered(g, start, h, gScore[nb := t], heap', cur)
  {
    var gs := gScore[nb := t];
    forall x | 0 <= x < |g| && x != cur && gs[x].Fin?
      ensures Entry(x, Score(start, h, gs, x)) in multiset(heap') || Expanded(g, gs, x)
    {
      if x != nb {
        assert Score(start, h, gs, x) == Score(start, h, gScore, x);
        if Entry(x, Score(start, h, gScore, x)) !in multiset(heap) {
          assert Expanded(g, gScore, x);
        }
      }
    }
  }

  /** Lines 106-127, reached when the tentative g_score through edge k of `cur`
      is strictly below the neighbour's: g_score and came_from of the neighbour
      change together and its record in the heap is replaced (`update`, line
      124) or added (`add`, line 126) with the new f_score. */
  method Relax(g: Graph, start: nat, h: Heuristic, end: nat, cur: nat, k: nat,
               gScore: seq<Dist>, cameFrom: seq<int>, ghost stamp: seq<nat>, ghost clock: nat, openList: MinHeap)
    returns (gScore': seq<Dist>, cameFrom': seq<int>, ghost stamp': seq<nat>, ghost clock': nat, fScore: int)
    requires openList.Valid() && Searching(g, start, h, end, gScore, cameFrom, stamp, clock, openList.heap, cur)
    requires cur < |g| && k < |g[cur]| && gScore[cur].Fin?
    requires Less(Plus(gScore[cur], g[cur][k].weight), gScore[g[cur][k].y])
    modifies openList
    ensures gScore' == gScore[g[cur][k].y := Plus(gScore[cur], g[cur][k].weight)]
    ensures cameFrom' == cameFrom[g[cur][k].y := cur]
    ensures stamp' == stamp[g[cur][k].y := clock + 1] && clock' == clock + 1
    ensures fScore == gScore'[g[cur][k].y].d + h[g[cur][k].y]
    ensures LiveReplaced(old(openList.heap), openList.heap, g[cur][k].y, fScore)
    ensures openList.Valid() && Searching(g, start, h, end, gScore', cameFrom', stamp', clock', openList.heap, cur)
  {
    var neighbor := g[cur][k].y;
    var gTentative := Plus(gScore[cur], g[cur][k].weight);
    cameFrom' := cameFrom[neighbor := cur];
    gScore' := gScore[neighbor := gTentative];
    stamp', clock' := stamp[neighbor := clock + 1], clock + 1;
    fScore := gTentative.d + h[neighbor];
    ghost var before := openList.heap;
    var present := openList.Has(neighbor);
    if present {
      UpdateReplacesLive(before, neighbor, fScore);
      // `has` found a record, so the throw of line 217 is not reached.
      var thrown := openList.Update(neighbor, fScore);
      assert !thrown;
    } else {
      AddReplacesLive(before, neighbor, fScore);
      openList.Add(Entry(neighbor, fScore));
    }
    RelaxKeepsSearching(g, start, h, end, gScore, cameFrom, stamp, clock, before, openList.heap, cur, k, fScore);
  }

  /** The relaxation keeps the goal's record waiting. */
  lemma RelaxKeepsWaiting(start: nat, h: Heuristic, gScore: seq<Dist>, heap: seq<Entry>, heap': seq<Entry>, end: nat, nb: nat, t: Dist, f: int)
    requires |h| == |gScore| && Waiting(start, h, gScore, heap, end)
    requires nb < |gScore| && nb != start && Less(t, gScore[nb]) && f == t.d + h[nb]
    requires LiveReplaced(heap, heap', nb, f)
    ensures Waiting(start, h, gScore[nb := t], heap', end)
  {
    if end < |gScore| && end != nb && gScore[end].Fin? {
      assert Score(start, h, gScore[nb := t], end) == Score(start, h, gScore, end);
    }
  }

  /** One relaxation keeps everything the search maintains. */
  lemma RelaxKeepsSearching(g: Graph, start: nat, h: Heuristic, end: nat, gScore: seq<Dist>, cameFrom: seq<int>,
                            stamp: seq<nat>, clock: nat, heap: seq<Entry>, heap': seq<Entry>, cur: nat, k: nat, f: int)
    requires Searching(g, start, h, end, gScore, cameFrom, stamp, clock, heap, cur)
    requires cur < |g| && k < |g[cur]| && gScore[cur].Fin?
    requires Less(Plus(gScore[cur], g[cur][k].weight), gScore[g[cur][k].y])
    requires f == Plus(gScore[cur], g[cur][k].weight).d + h[g[cur][k].y]
    requires HeapOrdered(heap') && LiveReplaced(heap, heap', g[cur][k].y, f)
    ensures var nb, t := g[cur][k].y, Plus(gScore[cur], g[cur][k].weight);
      Searching(g, start, h, end, gScore[nb := t], cameFrom[nb := cur], stamp[nb := clock + 1], clock + 1, heap', cur)
  {
    var nb, t := g[cur][k].y, Plus(gScore[cur], g[cur][k].weight);
    RelaxKeepsTree(g, start, gScore, cameFrom, stamp, clock, cur, k);
    assert nb != start by {
      assert gScore[start] == Fin(0);
    }
    RelaxKeepsRecords(start, h, gScore, heap, heap', nb, t, f);
    RelaxKeepsCovered(g, start, h, gScore, heap, heap', cur, nb, t, f);
    RelaxKeepsWaiting(start, h, gScore, heap, heap', end, nb, t, f);
  }

  /** From (gScore, cameFrom) to (gScore', cameFrom') through the first k edges
      of `cur`, vertex x keeps its score and parent, or now has `cur` as parent
      and a strictly lower score, the one an edge of `cur` gives it. */
  ghost predicate LoweredAt(g: Graph, cur: nat, gScore: seq<Dist>, cameFrom: seq<int>,
                            gScore': seq<Dist>, cameFrom': seq<int>, k: nat, x: nat)
    requires ValidGraph(g) && cur < |g| && k <= |g[cur]| && x < |g|
    requires |gScore| == |g| && |cameFrom| == |g| && |gScore'| == |g| && |cameFrom'| == |g|
  {
    || (gScore'[x] == gScore[x] && cameFrom'[x] == cameFrom[x])
    || (cameFrom'[x] == cur && Less(gScore'[x], gScore[x]) &&
        exists j :: 0 <= j < k && g[cur][j].y == x && gScore'[x] == Plus(gScore[cur], g[cur][j].weight))
  }

  /** `LoweredAt` for every vertex. */
  ghost predicate LoweredBy(g: Graph, cur: nat, gScore: seq<Dist>, cameFrom: seq<int>,
                            gScore': seq<Dist>, cameFrom': seq<int>, k: nat)
    requires ValidGraph(g) && cur < |g| && k <= |g[cur]|
    requires |gScore| == |g| && |cameFrom| == |g| && |gScore'| == |g| && |cameFrom'| == |g|
  {
    forall x :: 0 <= x < |g| ==> LoweredAt(g, cur, gScore, cameFrom, gScore', cameFrom', k, x)
  }

  /** Checking edge k of `cur` (lines 103-110) extends `LoweredBy` to k + 1 edges. */
  lemma LowerStep(g: Graph, cur: nat, gScore: seq<Dist>, cameFrom: seq<int>,
                  gs: seq<Dist>, cf: seq<int>, gs': seq<Dist>, cf': seq<int>, k: nat)
    requires ValidGraph(g) && cur < |g| && k < |g[cur]|
    requires |gScore| == |g| && |cameFrom| == |g| && |gs| == |g| && |cf| == |g|
    requires gs[cur] == gScore[cur] && LoweredBy(g, cur, gScore, cameFrom, gs, cf, k)
    requires var nb, t := g[cur][k].y, Plus(gs[cur], g[cur][k].weight);
      if Less(t, gs[nb]) then gs' == gs[nb := t] && cf' == cf[nb := cur] else gs' == gs && cf' == cf
    ensures |gs'| == |g| && |cf'| == |g| && LoweredBy(g, cur, gScore, cameFrom, gs', cf', k + 1)
  {
    var nb, t := g[cur][k].y, Plus(gs[cur], g[cur][k].weight);
    if Less(t, gs[nb]) {
      LessTransitive(t, gs[nb], gScore[nb]);
    }
    var next := k + 1;
    forall x | 0 <= x < |g| ensures LoweredAt(g, cur, gScore, cameFrom, gs', cf', next, x) {
      assert LoweredAt(g, cur, gScore, cameFrom, gs, cf, k, x);
    }
  }

  /** No edge among the first k of `cur` can improve its target any more. */
  ghost predicate EdgesSettled(g: Graph, gScore: seq<Dist>, cur: nat, k: nat)
    requires ValidGraph(g) && |gScore| == |g| && cur < |g| && k <= |g[cur]|
  {
    forall j :: 0 <= j < k ==> !Less(Plus(gScore[cur], g[cur][j].weight), gScore[g[cur][j].y])
  }

  /** Checking edge k settles it, whether or not it improves its target. */
  lemma CheckSettles(g: Graph, gScore: seq<Dist>, cur: nat, k: nat)
    requires ValidGraph(g) && |gScore| == |g| && cur < |g| && k < |g[cur]| && gScore[cur].Fin?
    requires EdgesSettled(g, gScore, cur, k)
    ensures var nb, t := g[cur][k].y, Plus(gScore[cur], g[cur][k].weight);
      if Less(t, gScore[nb]) then nb != cur && EdgesSettled(g, gScore[nb := t], cur, k + 1)
      else EdgesSettled(g, gScore, cur, k + 1)
  {
    var nb, t := g[cur][k].y, Plus(gScore[cur], g[cur][k].weight);
    if Less(t, gScore[nb]) {
      assert nb != cur;
      var gs := gScore[nb := t];
      forall j | 0 <= j < k + 1
        ensures !Less(Plus(gs[cur], g[cur][j].weight), gs[g[cur][j].y])
      {
        if g[cur][j].y != nb {
          assert gs[g[cur][j].y] == gScore[g[cur][j].y];
        } else if j < k {
          assert !Less(Plus(gScore[cur], g[cur][j].weight), gScore[nb]);
        }
      }
    }
  }

  /** Once every edge of `cur` is settled, `cur` counts as expanded. */
  lemma SettledIsExpanded(g: Graph, start: nat, h: Heuristic, end: nat, gScore: seq<Dist>, cameFrom: seq<int>,
                          stamp: seq<nat>, clock: nat, heap: seq<Entry>, cur: nat)
    requires Searching(g, start, h, end, gScore, cameFrom, stamp, clock, heap, cur)
    requires cur < |g| && gScore[cur].Fin? && EdgesSettled(g, gScore, cur, |g[cur]|)
    ensures Searching(g, start, h, end, gScore, cameFrom, stamp, clock, heap, -1)
  {
    forall k | 0 <= k < |g[cur]|
      ensures gScore[g[cur][k].y].Fin?
    {
      assert !Less(Plus(gScore[cur], g[cur][k].weight), gScore[g[cur][k].y]);
    }
    assert Expanded(g, gScore, cur);
  }

  /** Lines 98-131: every edge of the popped vertex `cur`, in list order, is
      relaxed. Afterwards no edge out of `cur` can improve its target, `cur` is
      expanded, and the termination measure has not grown. */
  method ExpandVertex(g: Graph, start: nat, h: Heuristic, end: nat, cur: nat,
                      gScore: seq<Dist>, cameFrom: seq<int>, ghost stamp: seq<nat>, ghost clock: nat, openList: MinHeap)
    returns (gScore': seq<Dist>, cameFrom': seq<int>, ghost stamp': seq<nat>, ghost clock': nat)
    requires openList.Valid() && Searching(g, start, h, end, gScore, cameFrom, stamp, clock, openList.heap, cur)
    requires cur < |g| && gScore[cur].Fin?
    modifies openList
    ensures openList.Valid() && Searching(g, start, h, end, gScore', cameFrom', stamp', clock', openList.heap, -1)
    ensures gScore'[cur] == gScore[cur] && EdgesSettled(g, gScore', cur, |g[cur]|)
    ensures LoweredBy(g, cur, gScore, cameFrom, gScore', cameFrom', |g[cur]|)
    ensures InfCount(gScore') < InfCount(gScore)
      || (InfCount(gScore') == InfCount(gScore) && FinSum(gScore') + |openList.heap| <= FinSum(gScore) + |old(openList.heap)|)
  {
    gScore', cameFrom', stamp', clock' := gScore, cameFrom, stamp, clock;
    for k := 0 to |g[cur]|
      invariant openList.Valid() && Searching(g, start, h, end, gScore', cameFrom', stamp', clock', openList.heap, cur)
      invariant gScore'[cur] == gScore[cur] && EdgesSettled(g, gScore', cur, k)
      invariant LoweredBy(g, cur, gScore, cameFrom, gScore', cameFrom', k)
      invariant InfCount(gScore') < InfCount(gScore)
        || (InfCount(gScore') == InfCount(gScore) && FinSum(gScore') + |openList.heap| <= FinSum(gScore) + |old(openList.heap)|)
    {
      var neighbor := g[cur][k].y;
      var gTentative := Plus(gScore'[cur], g[cur][k].weight);
      CheckSettles(g, gScore', cur, k);
      ghost var gs, cf := gScore', cameFrom';
      if Less(gTentative, gScore'[neighbor]) {
        var fScore;
        gScore', cameFrom', stamp', clock', fScore := Relax(g, start, h, end, cur, k, gScore', cameFrom', stamp', clock', openList);
        LowerScore(gs, neighbor, gTentative);
      }
      LowerStep(g, cur, gScore, cameFrom, gs, cf, gScore', cameFrom', k);
    }
    SettledIsExpanded(g, start, h, end, gScore', cameFrom', stamp', clock', openList.heap, cur);
  }

  // ---------------------------------------------------------------------------
  // The search (lines 73-135)

  /** How `A_star` ends: line 95 (the goal is popped), line 133 (the heap is
      empty) or a TypeError thrown by `remove_min` when only tombstones remain. */
  datatype SearchEnd = ReachedGoal | Drained | Thrown

  /** What the g_scores say when the search stops: a popped goal was reached;
      otherwise no live record was left, so every vertex reachable from
      `start` was reached and the goal was not. */
  ghost predicate Concluded(g: Graph, start: nat, end: nat, gScore: seq<Dist>, how: SearchEnd)
    requires |gScore| == |g|
  {
    && (how == ReachedGoal ==> end < |g| && gScore[end].Fin?)
    && (how != ReachedGoal ==> end < |g| ==> gScore[end].Inf?)
    && (how != ReachedGoal ==> forall x :: 0 <= x < |g| && Reachable(g, start, x) ==> gScore[x].Fin?)
  }

  /** Popping the minimum live record `m` names a reached vertex and, unless it
      is the goal, starts its expansion with every other reached vertex
      waiting or expanded. */
  lemma PopStartsExpansion(g: Graph, start: nat, h: Heuristic, end: nat, gScore: seq<Dist>, cameFrom: seq<int>,
                           stamp: seq<nat>, clock: nat, heap: seq<Entry>, m: Entry, rest: seq<Entry>)
    requires Searching(g, start, h, end, gScore, cameFrom, stamp, clock, heap, -1)
    requires RemovesMinimum(heap, m, rest) && LiveUnique(multiset(rest))
    ensures m.vertex < |g| && gScore[m.vertex].Fin?
    ensures m.vertex != end ==> Searching(g, start, h, end, gScore, cameFrom, stamp, clock, rest, m.vertex)
  {
    assert m in multiset(heap);
    forall e | e in multiset(heap) && e.vertex >= 0 && e != m
      ensures e in multiset(rest)
    {
      assert e !in multiset(heap) - multiset(rest) - multiset{m};
    }
  }

  /** When no live record is left (the heap is empty, or holds tombstones
      only), the reached vertices are closed under the edges, so every vertex
      reachable from `start` has been reached; the goal, whose record would
      still be waiting, has not. */
  lemma NoLiveRecordCoversReachable(g: Graph, start: nat, h: Heuristic, end: nat, gScore: seq<Dist>, heap: seq<Entry>)
    requires ValidGraph(g) && start < |g| && |gScore| == |g| && |h| == |g| && gScore[start].Fin?
    requires Covered(g, start, h, gScore, heap, -1) && Waiting(start, h, gScore, heap, end)
    requires forall i :: 0 <= i < |heap| ==> heap[i].vertex < 0
    ensures forall x :: 0 <= x < |g| && Reachable(g, start, x) ==> gScore[x].Fin?
    ensures end < |g| ==> gScore[end].Inf?
  {
    var mark := seq(|g|, x requires 0 <= x < |g| => gScore[x].Fin?);
    forall y | 0 <= y < |g| && gScore[y].Fin?
      ensures Expanded(g, gScore, y)
    {
      assert Entry(y, Score(start, h, gScore, y)) !in heap;
    }
    forall x | 0 <= x < |g| && Reachable(g, start, x)
      ensures gScore[x].Fin?
    {
      var p :| IsPath(g, p) && p[0] == start && p[|p| - 1] == x;
      ClosedMarkingCoversPath(g, mark, p);
    }
    assert forall e :: e in heap ==> e.vertex < 0;
  }


  /** What the `remove_min` of line 93 leaves the search with: never
      `undefined` on a non-empty heap; a TypeError only when no live record is
      left; otherwise a reached vertex, whose expansion can start unless it is
      the goal. When `start` is the goal, the start record comes out first. */
  lemma PopOutcome(g: Graph, start: nat, h: Heuristic, end: nat, gScore: seq<Dist>, cameFrom: seq<int>,
                   stamp: seq<nat>, clock: nat, heap: seq<Entry>, r: Removal)
    requires Searching(g, start, h, end, gScore, cameFrom, stamp, clock, heap, -1)
    requires |heap| > 0 && r == Heaps.RemoveMin(heap)
    requires start == end ==> heap == [Entry(start, 0)]
    ensures !r.result.Undefined?
    ensures r.result.TypeError? ==> Concluded(g, start, end, gScore, Thrown)
    ensures r.result.Popped? ==> 0 <= r.result.entry.vertex < |g| && gScore[r.result.entry.vertex].Fin?
    ensures r.result.Popped? && r.result.entry.vertex == end ==> Concluded(g, start, end, gScore, ReachedGoal)
    ensures r.result.Popped? && r.result.entry.vertex != end ==>
      Searching(g, start, h, end, gScore, cameFrom, stamp, clock, r.rest, r.result.entry.vertex)
    ensures start == end ==> r.result == Popped(Entry(start, 0))
  {
    RemoveMinOutcome(heap);
    RemoveMinKeepsLiveUnique(heap);
    if start == end {
      RemoveMinSingle(Entry(start, 0));
    }
    if r.result.TypeError? {
      NoLiveRecordCoversReachable(g, start, h, end, gScore, heap);
    } else if r.result.Popped? {
      PopStartsExpansion(g, start, h, end, gScore, cameFrom, stamp, clock, heap, r.result.entry, r.rest);
    }
  }

  /** One round of the loop of line 91 (lines 93-131): pop the best record,
      stop on the goal (line 95) or on the TypeError of `remove_min`, else
      expand the popped vertex. A round that goes on lowers the termination
      measure; one that stops leaves the parent tree intact. */
  method SearchRound(g: Graph, start: nat, h: Heuristic, end: nat,
                     gScore: seq<Dist>, cameFrom: seq<int>, ghost stamp: seq<nat>, ghost clock: nat, openList: MinHeap)
    returns (gScore': seq<Dist>, cameFrom': seq<int>, ghost stamp': seq<nat>, ghost clock': nat, stop: Option<SearchEnd>)
    requires openList.Valid() && Searching(g, start, h, end, gScore, cameFrom, stamp, clock, openList.heap, -1)
    requires |openList.heap| > 0
    requires start == end ==> openList.heap == [Entry(start, 0)]
    modifies openList
    ensures stop.None? ==> openList.Valid() && Searching(g, start, h, end, gScore', cameFrom', stamp', clock', openList.heap, -1)
    ensures stop.None? ==> (InfCount(gScore') < InfCount(gScore)
      || (InfCount(gScore') == InfCount(gScore) && FinSum(gScore') + |openList.heap| < FinSum(gScore) + |old(openList.heap)|))
    ensures stop.None? ==> var popped := Heaps.RemoveMin(old(openList.heap)).result;
      && popped.Popped? && 0 <= popped.entry.vertex < |g| && |gScore'| == |g| && |cameFrom'| == |g|
      && LoweredBy(g, popped.entry.vertex, gScore, cameFrom, gScore', cameFrom', |g[popped.entry.vertex]|)
    ensures stop.Some? ==> gScore' == gScore && cameFrom' == cameFrom && stamp' == stamp && stop.value != Drained
    ensures stop.Some? ==> Concluded(g, start, end, gScore, stop.value)
    ensures start == end ==> stop == Some(ReachedGoal)
  {
    gScore', cameFrom', stamp', clock' := gScore, cameFrom, stamp, clock;
    ghost var before := openList.heap;
    var current := openList.RemoveMin();
    PopOutcome(g, start, h, end, gScore, cameFrom, stamp, clock, before, Removal(current, openList.heap));
    if current.TypeError? {
      return gScore', cameFrom', stamp', clock', Some(Thrown);
    }
    var m := current.entry;
    if m.vertex == end {
      return gScore', cameFrom', stamp', clock', Some(ReachedGoal);
    }
    gScore', cameFrom', stamp', clock' := ExpandVertex(g, start, h, end, m.vertex, gScore, cameFrom, stamp, clock, openList);
    stop := None;
  }

  /** What `A_star` promises about the `came_from` it hands back, from what
      the search keeps. */
  lemma SearchConcludes(g: Graph, start: nat, end: nat, cameFrom: seq<int>, how: SearchEnd, gScore: seq<Dist>, stamp: seq<nat>)
    requires ValidGraph(g) && start < |g| && |gScore| == |g| && |cameFrom| == |g| && |stamp| == |g|
    requires Rooted(g, start, cameFrom, gScore) && ParentTree(g, start, cameFrom, gScore, stamp)
    requires Concluded(g, start, end, gScore, how)
    ensures cameFrom[start] == -1
    ensures forall x :: 0 <= x < |g| && cameFrom[x] != -1 ==> Reachable(g, start, x)
    ensures how == ReachedGoal ==> end < |g| && Reachable(g, start, end) && (end != start ==> cameFrom[end] != -1)
    ensures how != ReachedGoal ==> end < |g| ==> !Reachable(g, start, end)
    ensures how != ReachedGoal ==> forall x :: 0 <= x < |g| ==> (cameFrom[x] != -1 <==> x != start && Reachable(g, start, x))
  {
  }

  /** The state lines 77-89 set up is one the search keeps. */
  lemma StartIsSearching(g: Graph, start: nat, h: Heuristic, end: nat, gScore: seq<Dist>, cameFrom: seq<int>, stamp: seq<nat>)
    requires ValidGraph(g) && start < |g| && |h| == |g|
    requires |gScore| == |g| && |cameFrom| == |g| && |stamp| == |g|
    requires forall x :: 0 <= x < |g| ==> gScore[x] == (if x == start then Fin(0) else Inf) && cameFrom[x] == -1 && stamp[x] == 0
    ensures Searching(g, start, h, end, gScore, cameFrom, stamp, 0, [Entry(start, 0)], -1)
  {
    assert IsPath(g, [start]);
    assert multiset([Entry(start, 0)]) == multiset{Entry(start, 0)};
  }

  /** Lines 77-89: the open list holds the start record alone, every g_score
      is `Number.MAX_VALUE` but the start's 0, and no vertex has a parent. */
  method StartSearch(g: Graph, start: nat, h: Heuristic, end: nat)
    returns (openList: MinHeap, gScore: seq<Dist>, cameFrom: seq<int>, ghost stamp: seq<nat>)
    requires ValidGraph(g) && start < |g| && |h| == |g|
    ensures fresh(openList) && openList.Valid() && openList.heap == [Entry(start, 0)]
    ensures forall x :: 0 <= x < |cameFrom| ==> cameFrom[x] == -1
    ensures Searching(g, start, h, end, gScore, cameFrom, stamp, 0, openList.heap, -1)
  {
    openList := new MinHeap();
    openList.Add(Entry(start, 0));
    gScore, cameFrom, stamp := InitialScores(|g|, start);
    StartIsSearching(g, start, h, end, gScore, cameFrom, stamp);
  }

  /** Lines 80-89: one slot per vertex, filled with `Number.MAX_VALUE` and -1,
      then the start's g_score set to 0. */
  method InitialScores(n: nat, start: nat) returns (gScore: seq<Dist>, cameFrom: seq<int>, ghost stamp: seq<nat>)
    requires start < n
    ensures |gScore| == n && |cameFrom| == n && |stamp| == n
    ensures forall x :: 0 <= x < n ==> gScore[x] == (if x == start then Fin(0) else Inf) && cameFrom[x] == -1 && stamp[x] == 0
  {
    gScore, cameFrom, stamp := [], [], [];
    for i := 0 to n
      invariant |gScore| == i && |cameFrom| == i && |stamp| == i
      invariant forall x :: 0 <= x < i ==> gScore[x] == Inf && cameFrom[x] == -1 && stamp[x] == 0
    {
      gScore, cameFrom, stamp := gScore + [Inf], cameFrom + [-1], stamp + [0];
    }
    gScore := gScore[start := Fin(0)];
  }

  /** `A_star` (lines 73-135). `came_from` is returned with the g_scores and
      assignment stamps that witness its shape: a tree of graph edges rooted at
      `start`, every vertex in it reachable. The search returns at line 95
      only on a reachable goal. When it ends otherwise (the heap drains, or
      `remove_min` throws because only tombstones are left), every reachable
      vertex has a parent and the goal is unreachable. */
  method AStar(g: Graph, start: nat, end: nat, h: Heuristic)
    returns (cameFrom: seq<int>, how: SearchEnd, ghost rank: seq<Dist>, ghost stamp: seq<nat>)
    requires ValidGraph(g) && start < |g| && |h| == |g|
    ensures |cameFrom| == |g| && |rank| == |g| && |stamp| == |g|
    ensures cameFrom[start] == -1 && ParentTree(g, start, cameFrom, rank, stamp)
    ensures Rooted(g, start, cameFrom, rank)
    ensures forall x :: 0 <= x < |g| && cameFrom[x] != -1 ==> Reachable(g, start, x)
    ensures how == ReachedGoal ==> end < |g| && Reachable(g, start, end) && (end != start ==> cameFrom[end] != -1)
    ensures how != ReachedGoal ==> end < |g| ==> !Reachable(g, start, end)
    ensures how != ReachedGoal ==> forall x :: 0 <= x < |g| ==> (cameFrom[x] != -1 <==> x != start && Reachable(g, start, x))
    ensures start == end ==> how == ReachedGoal && forall x :: 0 <= x < |g| ==> cameFrom[x] == -1
  {
    var openList, gScore, cameFrom0;
    ghost var stamp0;
    openList, gScore, cameFrom0, stamp0 := StartSearch(g, start, h, end);
    gScore, cameFrom, stamp, how := SearchLoop(g, start, h, end, openList, gScore, cameFrom0, stamp0);
    SearchConcludes(g, start, end, cameFrom, how, gScore, stamp);
    rank := gScore;
  }

  /** The loop of lines 91-133, run until it returns the goal, throws, or
      drains the open list. */
  method SearchLoop(g: Graph, start: nat, h: Heuristic, end: nat, openList: MinHeap,
                    gScore0: seq<Dist>, cameFrom0: seq<int>, ghost stamp0: seq<nat>)
    returns (gScore: seq<Dist>, cameFrom: seq<int>, ghost stamp: seq<nat>, how: SearchEnd)
    requires openList.Valid() && Searching(g, start, h, end, gScore0, cameFrom0, stamp0, 0, openList.heap, -1)
    requires start == end ==> openList.heap == [Entry(start, 0)] && forall x :: 0 <= x < |g| ==> cameFrom0[x] == -1
    modifies openList
    ensures |gScore| == |g| && |cameFrom| == |g| && |stamp| == |g|
    ensures Rooted(g, start, cameFrom, gScore) && ParentTree(g, start, cameFrom, gScore, stamp)
    ensures Concluded(g, start, end, gScore, how)
    ensures start == end ==> how == ReachedGoal && forall x :: 0 <= x < |g| ==> cameFrom[x] == -1
  {
    gScore, cameFrom, stamp := gScore0, cameFrom0, stamp0;
    ghost var clock: nat := 0;
    while openList.Length() > 0
      invariant openList.Valid() && Searching(g, start, h, end, gScore, cameFrom, stamp, clock, openList.heap, -1)
      invariant start == end ==> openList.heap == [Entry(start, 0)] && forall x :: 0 <= x < |g| ==> cameFrom[x] == -1
      decreases InfCount(gScore), FinSum(gScore) + |openList.heap|
    {
      var stop;
      gScore, cameFrom, stamp, clock, stop := SearchRound(g, start, h, end, gScore, cameFrom, stamp, clock, openList);
      if stop.Some? {
        return gScore, cameFrom, stamp, stop.value;
      }
    }
    assert openList.heap == [];
    NoLiveRecordCoversReachable(g, start, h, end, gScore, []);
    how := Drained;
  }
}
