/** `AstarStrategy.buildPath` (AstarStrategy.ts lines 22-42): run A* from the
    snapped start to the snapped goal, then walk `came_from` back from the goal,
    pushing positions onto a stack. Positions are values of any type `P`; the
    stack is a sequence whose last element is its top. */
module AstarStrategy {
  import opened Graphs
  import opened AStar
  import opened Options

  /** Following parents from any vertex strictly descends in the order of
      `Descends` (g_score, then assignment stamp), so it cannot cycle. */
  ghost predicate Acyclic(parent: seq<int>, rank: seq<Dist>, stamp: seq<nat>) {
    && |rank| == |parent| && |stamp| == |parent|
    && forall x :: 0 <= x < |parent| && parent[x] != -1 ==>
         0 <= parent[x] < |parent| && Descends(rank, stamp, parent[x], x)
  }

  /** The parent tree A* returns is acyclic. */
  lemma TreeIsAcyclic(g: Graph, start: nat, cameFrom: seq<int>, rank: seq<Dist>, stamp: seq<nat>)
    requires |cameFrom| == |g| && |rank| == |g| && |stamp| == |g|
    requires ParentTree(g, start, cameFrom, rank, stamp)
    ensures Acyclic(cameFrom, rank, stamp)
  {
  }

  function Height(d: Dist): nat {
    if d.Fin? then d.d else 0
  }

  /** x comes strictly before y in the descent order of `Acyclic`. */
  ghost predicate Below(rank: seq<Dist>, stamp: seq<nat>, x: nat, y: nat)
    requires x < |rank| && y < |rank| && |stamp| == |rank|
  {
    Height(rank[x]) < Height(rank[y]) || (Height(rank[x]) == Height(rank[y]) && stamp[x] < stamp[y])
  }

  /** `Below` is `Descends` without its requirement that both scores be finite,
      so that it can order any two vertices of a chain; on finite scores the
      two agree. */
  lemma DescendsIsBelow(rank: seq<Dist>, stamp: seq<nat>, p: nat, x: nat)
    requires p < |rank| && x < |rank| && |stamp| == |rank|
    ensures Descends(rank, stamp, p, x) ==> Below(rank, stamp, p, x)
    ensures rank[p].Fin? && rank[x].Fin? ==> (Below(rank, stamp, p, x) <==> Descends(rank, stamp, p, x))
  {
  }

  /** The vertices the walk of lines 35-39 visits from `i`: `i`, its parent,
      that one's parent, and so on, up to the first vertex whose parent is -1. */
  ghost function Chain(parent: seq<int>, rank: seq<Dist>, stamp: seq<nat>, i: nat): (c: seq<nat>)
    requires Acyclic(parent, rank, stamp) && i < |parent|
    ensures |c| >= 1 && c[0] == i
    ensures forall j :: 0 <= j < |c| ==> c[j] < |parent|
    ensures forall j :: 0 <= j < |c| - 1 ==> parent[c[j]] == c[j + 1]
    ensures parent[c[|c| - 1]] == -1
    decreases Height(rank[i]), stamp[i]
  {
    if parent[i] == -1 then [i] else [i] + Chain(parent, rank, stamp, parent[i])
  }

  /** Only the last vertex of a chain has no parent. */
  lemma ChainStops(parent: seq<int>, rank: seq<Dist>, stamp: seq<nat>, i: nat, k: nat)
    requires Acyclic(parent, rank, stamp) && i < |parent|
    requires k < |Chain(parent, rank, stamp, i)| && parent[Chain(parent, rank, stamp, i)[k]] == -1
    ensures k == |Chain(parent, rank, stamp, i)| - 1
  {
  }

  /** The positions of the vertices of `c`, in order. */
  function PositionsOf<P>(positions: seq<P>, c: seq<nat>): (r: seq<P>)
    requires forall j :: 0 <= j < |c| ==> c[j] < |positions|
    ensures |r| == |c|
  {
    if c == [] then [] else [positions[c[0]]] + PositionsOf(positions, c[1..])
  }

  /** Entry j of the positions is the position of vertex j of the chain. */
  lemma {:induction false} PositionsOfAt<P>(positions: seq<P>, c: seq<nat>)
    requires forall j :: 0 <= j < |c| ==> c[j] < |positions|
    ensures forall j :: 0 <= j < |c| ==> PositionsOf(positions, c)[j] == positions[c[j]]
  {
    if c != [] {
      PositionsOfAt(positions, c[1..]);
    }
  }

  /** Lines 30-39: push the goal itself (`to`), then the goal vertex's position
      and the position of each parent along the chain, until a vertex without
      a parent. */
  method WalkParents<P>(to: P, positions: seq<P>, parent: seq<int>, end: nat, ghost rank: seq<Dist>, ghost stamp: seq<nat>)
    returns (pathStack: seq<P>)
    requires |positions| == |parent| && end < |parent| && Acyclic(parent, rank, stamp)
    ensures pathStack == [to] + PositionsOf(positions, Chain(parent, rank, stamp, end))
  {
    ghost var chain := Chain(parent, rank, stamp, end);
    pathStack := [to];
    pathStack := pathStack + [positions[end]];
    var i: nat := end;
    ghost var k := 0;
    while parent[i] != -1
      invariant k < |chain| && i == chain[k]
      invariant |pathStack| == k + 2 && pathStack[0] == to
      invariant forall j :: 0 <= j <= k ==> pathStack[j + 1] == positions[chain[j]]
      decreases |chain| - k
    {
      assert k + 1 < |chain|;
      var next: nat := parent[i];
      pathStack := pathStack + [positions[next]];
      i := next;
      k := k + 1;
    }
    ChainStops(parent, rank, stamp, end, k);
    PositionsOfAt(positions, chain);
    SameStack(pathStack, to, PositionsOf(positions, chain));
  }

  /** A stack that holds `to` and then, position by position, the elements of
      `ps` is `[to] + ps`. */
  lemma SameStack<P>(stack: seq<P>, to: P, ps: seq<P>)
    requires |stack| == |ps| + 1 && stack[0] == to
    requires forall j :: 0 <= j < |ps| ==> stack[j + 1] == ps[j]
    ensures stack == [to] + ps
  {
  }

  /** Exactly two entries are pushed when the goal has no parent. */
  lemma {:induction false} TwoPushesWithoutParent(parent: seq<int>, rank: seq<Dist>, stamp: seq<nat>, end: nat)
    requires Acyclic(parent, rank, stamp) && end < |parent|
    ensures |Chain(parent, rank, stamp, end)| == 1 <==> parent[end] == -1
  {
  }

  // ---------------------------------------------------------------------------
  // Where the walk ends

  /** Along a chain of `came_from` links, every vertex is reached; the first
      vertex without a parent is therefore `start`. */
  lemma {:induction false} ChainEndsAtStart(g: Graph, start: nat, cameFrom: seq<int>, rank: seq<Dist>, stamp: seq<nat>, i: nat)
    requires |cameFrom| == |g| && |rank| == |g| && |stamp| == |g| && start < |g| && i < |g|
    requires Rooted(g, start, cameFrom, rank) && ParentTree(g, start, cameFrom, rank, stamp)
    requires i == start || cameFrom[i] != -1
    ensures Acyclic(cameFrom, rank, stamp)
    ensures Chain(cameFrom, rank, stamp, i)[|Chain(cameFrom, rank, stamp, i)| - 1] == start
    decreases Height(rank[i]), stamp[i]
  {
    TreeIsAcyclic(g, start, cameFrom, rank, stamp);
    if cameFrom[i] != -1 {
      var p := cameFrom[i];
      assert Linked(g, rank, p, i);
      if p != start {
        assert cameFrom[p] != -1;
      }
      ChainEndsAtStart(g, start, cameFrom, rank, stamp, p);
    }
  }

  // ---------------------------------------------------------------------------
  // The capacity of the stack

  /** `Below` is transitive. */
  lemma BelowTransitive(rank: seq<Dist>, stamp: seq<nat>, x: nat, y: nat, z: nat)
    requires x < |rank| && y < |rank| && z < |rank| && |stamp| == |rank|
    requires Below(rank, stamp, x, y) && Below(rank, stamp, y, z)
    ensures Below(rank, stamp, x, z)
  {
  }

  /** Every vertex of `c` comes strictly before all earlier ones. */
  ghost predicate Descending(rank: seq<Dist>, stamp: seq<nat>, c: seq<nat>)
    requires |stamp| == |rank| && forall j :: 0 <= j < |c| ==> c[j] < |rank|
  {
    forall j, k :: 0 <= j < k < |c| ==> Below(rank, stamp, c[k], c[j])
  }

  /** Later vertices of a chain come strictly before earlier ones. */
  lemma {:induction false} ChainDescends(parent: seq<int>, rank: seq<Dist>, stamp: seq<nat>, i: nat)
    requires Acyclic(parent, rank, stamp) && i < |parent|
    ensures Descending(rank, stamp, Chain(parent, rank, stamp, i))
    decreases Height(rank[i]), stamp[i]
  {
    var c := Chain(parent, rank, stamp, i);
    if parent[i] != -1 {
      var p := parent[i];
      assert Descends(rank, stamp, p, i);
      DescendsIsBelow(rank, stamp, p, i);
      ChainDescends(parent, rank, stamp, p);
      var rest := Chain(parent, rank, stamp, p);
      assert c == [i] + rest;
      forall j, k | 0 <= j < k < |c|
        ensures Below(rank, stamp, c[k], c[j])
      {
        if j == 0 && k > 1 {
          assert c[k] == rest[k - 1] && rest[0] == p;
          BelowTransitive(rank, stamp, c[k], p, i);
        } else if j > 0 {
          assert c[k] == rest[k - 1] && c[j] == rest[j - 1];
        }
      }
    }
  }

  /** A set of naturals below `n` has at most `n` elements. */
  lemma {:induction false} BoundedSetSize(s: set<nat>, n: nat)
    requires forall x :: x in s ==> x < n
    ensures |s| <= n
  {
    if n > 0 {
      BoundedSetSize(s - {n - 1}, n - 1);
    } else {
      assert s == {};
    }
  }

  ghost function Elements(c: seq<nat>): set<nat> {
    set x | x in c
  }

  /** A sequence without repetitions has as many distinct elements as entries. */
  lemma {:induction false} DistinctSize(c: seq<nat>)
    requires forall j, k :: 0 <= j < k < |c| ==> c[j] != c[k]
    ensures |Elements(c)| == |c|
  {
    if c != [] {
      var t := c[1..];
      forall j, k | 0 <= j < k < |t|
        ensures t[j] != t[k]
      {
        assert t[j] == c[j + 1] && t[k] == c[k + 1];
      }
      DistinctSize(t);
      forall k | 0 <= k < |t|
        ensures t[k] != c[0]
      {
        assert t[k] == c[k + 1];
      }
      assert Elements(c) == Elements(t) + {c[0]};
    }
  }

  /** A chain visits each vertex at most once, so the walk pushes at most one
      more entry than the `numVertices` the stack was created with (line 30). */
  lemma ChainFitsGraph(parent: seq<int>, rank: seq<Dist>, stamp: seq<nat>, i: nat)
    requires Acyclic(parent, rank, stamp) && i < |parent|
    ensures |Chain(parent, rank, stamp, i)| <= |parent|
  {
    var c := Chain(parent, rank, stamp, i);
    ChainDescends(parent, rank, stamp, i);
    forall j, k | 0 <= j < k < |c|
      ensures c[j] != c[k]
    {
      assert Below(rank, stamp, c[k], c[j]);
    }
    DistinctSize(c);
    forall x | x in Elements(c)
      ensures x < |parent|
    {
      var j :| 0 <= j < |c| && c[j] == x;
    }
    BoundedSetSize(Elements(c), |parent|);
  }

  /** A chain through every vertex reaches that bound: with two vertices and
      vertex 0 the parent of vertex 1, the walk from 1 pushes three entries
      onto a stack created for two. */
  lemma ChainCanFillGraph()
    ensures Acyclic([-1, 0], [Fin(0), Fin(1)], [0, 1])
    ensures Chain([-1, 0], [Fin(0), Fin(1)], [0, 1], 1) == [1, 0]
  {
    assert Chain([-1, 0], [Fin(0), Fin(1)], [0, 1], 0) == [0];
  }

  // ---------------------------------------------------------------------------
  // buildPath

  /** `buildPath` (lines 22-42) with the snapped vertices `start` and `end`
      given. A TypeError thrown inside A* propagates (None); that happens only
      when the goal is unreachable. Otherwise the
      stack holds `to`, the goal vertex's position and the positions of its
      `came_from` chain, at most `numVertices + 1` entries; it has exactly two
      when the goal has no parent, which is so for an unreachable goal and for
      `start == end`, and when A* popped the goal the chain ends at `start`. */
  method BuildPath<P>(g: Graph, h: Heuristic, positions: seq<P>, to: P, start: nat, end: nat)
    returns (r: Option<seq<P>>, parent: seq<int>, ghost chain: seq<nat>)
    requires ValidGraph(g) && start < |g| && end < |g| && |h| == |g| && |positions| == |g|
    ensures |parent| == |g|
    ensures r.Some? ==> |chain| >= 1 && chain[0] == end && forall j :: 0 <= j < |chain| ==> chain[j] < |g|
    ensures r.Some? ==> forall j :: 0 <= j < |chain| - 1 ==> parent[chain[j]] == chain[j + 1]
    ensures r.Some? ==> parent[chain[|chain| - 1]] == -1 && r.value == [to] + PositionsOf(positions, chain)
    ensures r.Some? ==> 2 <= |r.value| <= |g| + 1 && r.value[0] == to && r.value[1] == positions[end]
    ensures r.Some? ==> (|r.value| == 2 <==> parent[end] == -1)
    ensures r.None? ==> !Reachable(g, start, end)
    ensures start == end ==> r == Some([to, positions[end]])
    ensures r.Some? && !Reachable(g, start, end) ==> r.value == [to, positions[end]]
    ensures r.Some? && Reachable(g, start, end) ==> chain[|chain| - 1] == start && r.value[|r.value| - 1] == positions[start]
  {
    var how;
    ghost var rank, stamp;
    parent, how, rank, stamp := AStar.AStar(g, start, end, h);
    chain := [];
    if how == Thrown {
      return None, parent, chain;
    }
    TreeIsAcyclic(g, start, parent, rank, stamp);
    var pathStack := WalkParents(to, positions, parent, end, rank, stamp);
    chain := Chain(parent, rank, stamp, end);
    PositionsOfAt(positions, chain);
    TwoPushesWithoutParent(parent, rank, stamp, end);
    ChainFitsGraph(parent, rank, stamp, end);
    if how == ReachedGoal {
      ChainEndsAtStart(g, start, parent, rank, stamp, end);
    }
    if start == end || !Reachable(g, start, end) {
      assert parent[end] == -1;
      assert chain == [end];
      assert PositionsOf(positions, chain) == [positions[end]];
      assert pathStack == [to, positions[end]];
    }
    r := Some(pathStack);
  }
}
