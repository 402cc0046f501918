/**
  Breadth-first search over an adjacency list, as `Maze::getSolution` runs
  it: a FIFO queue, a visited flag and a parent link per vertex, first
  discovery wins, the search stops when the finish vertex leaves the
  queue, and the path is rebuilt by following parent links back from
  the finish.

  The graph is a `seq<seq<int>>`: `g[u]` lists the vertices reachable from
  `u` in one step, in the order the search expands them.
 */
module Bfs {

  /** Every listed neighbour is a vertex of the graph. */
  predicate GraphOk(g: seq<seq<int>>) {
    forall u, k :: 0 <= u < |g| && 0 <= k < |g[u]| ==> 0 <= g[u][k] < |g|
  }

  /** A non-empty vertex sequence following edges of `g`. */
  predicate IsPath(g: seq<seq<int>>, p: seq<int>) {
    && |p| >= 1
    && (forall k :: 0 <= k < |p| ==> 0 <= p[k] < |g|)
    && (forall k :: 0 <= k < |p| - 1 ==> p[k + 1] in g[p[k]])
  }

  predicate PathFromTo(g: seq<seq<int>>, p: seq<int>, s: int, f: int) {
    IsPath(g, p) && p[0] == s && p[|p| - 1] == f
  }

  predicate NoRepeats(p: seq<int>) {
    forall a, b :: 0 <= a < b < |p| ==> p[a] != p[b]
  }

  /** Parent links lead from every visited vertex back to the start, one level at a time. */
  ghost predicate ParentsOk(g: seq<seq<int>>, s: int, visited: seq<bool>, parent: seq<int>, dist: seq<int>)
    requires |visited| == |g| && |parent| == |g| && |dist| == |g|
  {
    && 0 <= s < |g| && visited[s] && dist[s] == 0 && parent[s] == -1
    && forall v :: 0 <= v < |g| && visited[v] && v != s ==>
         && 0 <= parent[v] < |g|
         && visited[parent[v]]
         && v in g[parent[v]]
         && dist[v] == dist[parent[v]] + 1
  }

  /** The first `head` queue entries have been expanded: all their neighbours are visited, at most one level deeper. */
  ghost predicate Expanded(g: seq<seq<int>>, queue: seq<int>, head: int, visited: seq<bool>, dist: seq<int>)
    requires |visited| == |g| && |dist| == |g|
    requires 0 <= head <= |queue|
    requires forall k :: 0 <= k < |queue| ==> 0 <= queue[k] < |g|
    requires GraphOk(g)
  {
    forall a, k :: 0 <= a < head && 0 <= k < |g[queue[a]]| ==>
      visited[g[queue[a]][k]] && dist[g[queue[a]][k]] <= dist[queue[a]] + 1
  }

  /** Every vertex at the end of a path from `s` with at most `level` steps is visited, no deeper than the path. */
  ghost predicate ShortPathsSeen(g: seq<seq<int>>, s: int, visited: seq<bool>, dist: seq<int>, level: int)
    requires |visited| == |g| && |dist| == |g|
  {
    forall p :: IsPath(g, p) && p[0] == s && |p| <= level + 1 ==>
      visited[p[|p| - 1]] && dist[p[|p| - 1]] <= |p| - 1
  }

  /**
    Bookkeeping shared by every state of the search: queue entries are
    visited vertices, `pos` locates each visited vertex in the queue,
    recorded depths lie in `0..level + 1`, and parent links are sound.
   */
  ghost predicate Sound(g: seq<seq<int>>, s: int, visited: seq<bool>, parent: seq<int>, dist: seq<int>,
                        queue: seq<int>, pos: seq<int>, level: int)
  {
    && GraphOk(g)
    && |visited| == |g| && |parent| == |g| && |dist| == |g| && |pos| == |g|
    && level >= 0
    && (forall k :: 0 <= k < |queue| ==> 0 <= queue[k] < |g| && visited[queue[k]])
    && (forall v :: 0 <= v < |g| && visited[v] ==> 0 <= pos[v] < |queue| && queue[pos[v]] == v)
    && (forall v :: 0 <= v < |g| && visited[v] ==> 0 <= dist[v] <= level + 1)
    && ParentsOk(g, s, visited, parent, dist)
  }

  /** `queue[..head]` lie at most `level` deep; `queue[head..]` at `level` or `level + 1`, in non-decreasing depth. */
  ghost predicate Layered(queue: seq<int>, dist: seq<int>, head: int, level: int)
    requires forall k :: 0 <= k < |queue| ==> 0 <= queue[k] < |dist|
  {
    && 0 <= head <= |queue|
    && (forall a :: 0 <= a < head ==> dist[queue[a]] <= level)
    && (forall a :: head <= a < |queue| ==> level <= dist[queue[a]] <= level + 1)
    && (forall a, b :: head <= a <= b < |queue| ==> dist[queue[a]] <= dist[queue[b]])
  }

  /** The state of the search between two dequeues. */
  ghost predicate Frontier(g: seq<seq<int>>, s: int, visited: seq<bool>, parent: seq<int>, dist: seq<int>,
                           queue: seq<int>, pos: seq<int>, head: int, level: int)
  {
    && Sound(g, s, visited, parent, dist, queue, pos, level)
    && Layered(queue, dist, head, level)
    && Expanded(g, queue, head, visited, dist)
    && ShortPathsSeen(g, s, visited, dist, level)
  }

  ghost function Unvisited(visited: seq<bool>): set<int> {
    set v | 0 <= v < |visited| && !visited[v]
  }

  /**
    The search. On success the result is a path from `s` to `f` without
    repeated vertices and with the fewest steps of any path; it is empty
    exactly when no path from `s` to `f` exists.
   */
  method Search(g: seq<seq<int>>, s: int, f: int) returns (path: seq<int>)
    requires GraphOk(g)
    requires 0 <= s < |g| && 0 <= f < |g|
    ensures path != [] ==> PathFromTo(g, path, s, f) && NoRepeats(path)
    ensures path != [] <==> exists p :: PathFromTo(g, p, s, f)
    ensures path != [] ==> forall p :: PathFromTo(g, p, s, f) ==> |path| <= |p|
    ensures s == f ==> path == [s]
  {
    var visited, parent, dist := Explore(g, s, f);
    if !visited[f] {
      return [];
    }
    path := Rebuild(g, s, f, visited, parent, dist);
    assert PathFromTo(g, [s], s, s);
  }

  /**
    The queue loop of the search. Afterwards `f` is visited exactly when a
    path reaches it, and then its recorded depth is the fewest steps of
    any such path.
   */
  method Explore(g: seq<seq<int>>, s: int, f: int) returns (visited: seq<bool>, parent: seq<int>, ghost dist: seq<int>)
    requires GraphOk(g)
    requires 0 <= s < |g| && 0 <= f < |g|
    ensures |visited| == |g| && |parent| == |g| && |dist| == |g|
    ensures ParentsOk(g, s, visited, parent, dist)
    ensures forall v :: 0 <= v < |g| && visited[v] ==> dist[v] >= 0
    ensures visited[f] ==> forall p :: PathFromTo(g, p, s, f) ==> dist[f] <= |p| - 1
    ensures !visited[f] ==> forall p :: !PathFromTo(g, p, s, f)
  {
    var n := |g|;
    visited := seq(n, v => v == s);
    parent := seq(n, _ => -1);
    dist := seq(n, v => if v == s then 0 else -1);
    ghost var pos := seq(n, _ => 0);
    var queue := [s];
    var head := 0;
    ghost var level := 0;
    assert Sound(g, s, visited, parent, dist, queue, pos, level);
    assert Layered(queue, dist, head, level);

    while head < |queue|
      invariant Frontier(g, s, visited, parent, dist, queue, pos, head, level)
      invariant head < |queue| ==> dist[queue[head]] == level
      decreases Unvisited(visited), |queue| - head
    {
      var current := queue[head];
      if current == f {
        FoundIsShortest(g, s, f, visited, dist, level);
        return;
      }
      visited, parent, dist, queue, pos, head, level := Advance(g, s, visited, parent, dist, queue, pos, head, level);
    }
    Exhausted(g, s, f, visited, parent, dist, queue, pos, level);
  }

  /**
    One turn of the queue loop past the finish check: expand the front
    vertex, move the head on, and step up a level when the new front lies
    one level deeper. Either a vertex is newly visited or the queue shrinks.
   */
  method Advance(g: seq<seq<int>>, s: int, visited: seq<bool>, parent: seq<int>, ghost dist: seq<int>,
                 queue: seq<int>, ghost pos: seq<int>, head: int, ghost level: int)
    returns (visited': seq<bool>, parent': seq<int>, ghost dist': seq<int>, queue': seq<int>, ghost pos': seq<int>,
             head': int, ghost level': int)
    requires Frontier(g, s, visited, parent, dist, queue, pos, head, level)
    requires head < |queue| && dist[queue[head]] == level
    ensures Frontier(g, s, visited', parent', dist', queue', pos', head', level')
    ensures head' < |queue'| ==> dist'[queue'[head']] == level'
    ensures || Unvisited(visited') < Unvisited(visited)
            || (Unvisited(visited') == Unvisited(visited) && |queue'| - head' < |queue| - head)
  {
    visited', parent', dist', queue', pos' := Expand(g, s, visited, parent, dist, queue, pos, head, level);
    head' := head + 1;
    level' := level;
    if head' < |queue'| && dist'[queue'[head']] != level {
      LevelUp(g, s, visited', parent', dist', queue', pos', head', level);
      level' := level + 1;
    }
  }

  /** With the queue used up, the search has seen everything reachable, each at its least depth. */
  lemma Exhausted(g: seq<seq<int>>, s: int, f: int, visited: seq<bool>, parent: seq<int>,
                  dist: seq<int>, queue: seq<int>, pos: seq<int>, level: int)
    requires Frontier(g, s, visited, parent, dist, queue, pos, |queue|, level)
    requires 0 <= f < |g|
    ensures visited[f] ==> forall p :: PathFromTo(g, p, s, f) ==> dist[f] <= |p| - 1
    ensures !visited[f] ==> forall p :: !PathFromTo(g, p, s, f)
  {
    forall p | PathFromTo(g, p, s, f)
      ensures visited[f] && dist[f] <= |p| - 1
    {
      ExhaustedReachesAll(g, s, visited, parent, dist, queue, pos, level, p);
    }
  }

  /** The state while `queue[head]` (at depth `level`) has its first `i` neighbours examined. */
  ghost predicate Expanding(g: seq<seq<int>>, s: int, visited0: seq<bool>, dist0: seq<int>, queue0: seq<int>,
                            head: int, level: int, i: int,
                            visited: seq<bool>, parent: seq<int>, dist: seq<int>, queue: seq<int>, pos: seq<int>)
  {
    && Sound(g, s, visited, parent, dist, queue, pos, level)
    && |visited0| == |g| && |dist0| == |g|
    && 0 <= head < |queue0| <= |queue| && queue[..|queue0|] == queue0
    && dist[queue[head]] == level
    && 0 <= i <= |g[queue[head]]|
    && Layered(queue, dist, head, level)
    && Expanded(g, queue, head, visited, dist)
    && FirstSeen(g, queue[head], i, visited, dist, level)
    && Keeps(visited0, dist0, visited, dist)
    && Unvisited(visited) <= Unvisited(visited0)
    && (queue == queue0 || Unvisited(visited) < Unvisited(visited0))
  }

  /** The first `i` neighbours of `u` are visited, no deeper than `level + 1`. */
  ghost predicate FirstSeen(g: seq<seq<int>>, u: int, i: int, visited: seq<bool>, dist: seq<int>, level: int)
    requires GraphOk(g) && 0 <= u < |g| && 0 <= i <= |g[u]| && |visited| == |g| && |dist| == |g|
  {
    forall k :: 0 <= k < i ==> visited[g[u][k]] && dist[g[u][k]] <= level + 1
  }

  /** Every vertex visited before is still visited, at the same depth. */
  ghost predicate Keeps(visited0: seq<bool>, dist0: seq<int>, visited: seq<bool>, dist: seq<int>)
    requires |visited0| == |visited| && |dist0| == |visited| && |dist| == |visited|
  {
    forall v :: 0 <= v < |visited| && visited0[v] ==> visited[v] && dist[v] == dist0[v]
  }

  /**
    The vertices of `nbrs` that `visited` does not mark, each once, in the
    order they first occur: what expanding a vertex with neighbour list
    `nbrs` appends to the queue.
   */
  function Discovered(nbrs: seq<int>, visited: seq<bool>): (d: seq<int>)
    requires forall k :: 0 <= k < |nbrs| ==> 0 <= nbrs[k] < |visited|
    ensures forall v :: v in d <==> v in nbrs && 0 <= v < |visited| && !visited[v]
    ensures NoRepeats(d)
    decreases |nbrs|
  {
    if nbrs == [] then []
    else
      var p := Discovered(nbrs[..|nbrs| - 1], visited);
      var x := nbrs[|nbrs| - 1];
      assert forall v :: v in nbrs <==> v in nbrs[..|nbrs| - 1] || v == x by {
        assert nbrs == nbrs[..|nbrs| - 1] + [x];
      }
      if visited[x] || x in p then p else p + [x]
  }

  /**
    What scanning the first `i` neighbours of `u` has done to the state
    `visited0`/`parent0`/`queue0` it started from: the queue gained the
    newly discovered ones in order, exactly those neighbours became
    visited, with `u` as parent one level deeper, and every other parent
    link stayed.
   */
  ghost predicate Scanned(g: seq<seq<int>>, u: int, i: int, level: int,
                          visited0: seq<bool>, parent0: seq<int>, queue0: seq<int>,
                          visited: seq<bool>, parent: seq<int>, dist: seq<int>, queue: seq<int>)
    requires GraphOk(g) && 0 <= u < |g| && 0 <= i <= |g[u]| && |visited0| == |g|
  {
    && |visited| == |g| && |parent0| == |g| && |parent| == |g| && |dist| == |g|
    && queue == queue0 + Discovered(g[u][..i], visited0)
    && (forall v :: 0 <= v < |g| ==> (visited[v] <==> visited0[v] || v in g[u][..i]))
    && (forall v :: 0 <= v < |g| && visited0[v] ==> parent[v] == parent0[v])
    && (forall v :: 0 <= v < |g| && !visited0[v] && visited[v] ==> parent[v] == u && dist[v] == level + 1)
  }

  /** Taking the prefix one element further splits off that element. */
  lemma PrefixSnoc(nbrs: seq<int>, i: int)
    requires 0 <= i < |nbrs|
    ensures nbrs[..i + 1][..i] == nbrs[..i] && nbrs[..i + 1][i] == nbrs[i]
    ensures forall v :: v in nbrs[..i + 1] <==> v in nbrs[..i] || v == nbrs[i]
  {
    assert nbrs[..i + 1] == nbrs[..i] + [nbrs[i]];
  }

  /** Scanning an unvisited neighbour marks it, links it to `u`, one level deeper, and enqueues it. */
  lemma ScanDiscover(g: seq<seq<int>>, u: int, i: int, level: int,
                     visited0: seq<bool>, parent0: seq<int>, queue0: seq<int>,
                     visited: seq<bool>, parent: seq<int>, dist: seq<int>, queue: seq<int>)
    requires GraphOk(g) && 0 <= u < |g| && 0 <= i < |g[u]| && |visited0| == |g|
    requires Scanned(g, u, i, level, visited0, parent0, queue0, visited, parent, dist, queue)
    requires !visited[g[u][i]]
    ensures var x := g[u][i];
      Scanned(g, u, i + 1, level, visited0, parent0, queue0,
              visited[x := true], parent[x := u], dist[x := level + 1], queue + [x])
  {
    var x := g[u][i];
    PrefixSnoc(g[u], i);
    var q := g[u][..i + 1];
    assert q[..|q| - 1] == g[u][..i];
    assert x !in Discovered(g[u][..i], visited0);
    assert Discovered(q, visited0) == Discovered(g[u][..i], visited0) + [x];
  }

  /** Scanning a neighbour already visited changes nothing. */
  lemma ScanSkip(g: seq<seq<int>>, u: int, i: int, level: int,
                 visited0: seq<bool>, parent0: seq<int>, queue0: seq<int>,
                 visited: seq<bool>, parent: seq<int>, dist: seq<int>, queue: seq<int>)
    requires GraphOk(g) && 0 <= u < |g| && 0 <= i < |g[u]| && |visited0| == |g|
    requires Scanned(g, u, i, level, visited0, parent0, queue0, visited, parent, dist, queue)
    requires visited[g[u][i]]
    ensures Scanned(g, u, i + 1, level, visited0, parent0, queue0, visited, parent, dist, queue)
  {
    PrefixSnoc(g[u], i);
    var q := g[u][..i + 1];
    assert q[..|q| - 1] == g[u][..i];
    assert Discovered(q, visited0) == Discovered(g[u][..i], visited0);
  }

  /** Once every neighbour is scanned, the expansion appended exactly the discovered neighbours. */
  lemma ScanDone(g: seq<seq<int>>, u: int, level: int,
                 visited0: seq<bool>, parent0: seq<int>, queue0: seq<int>,
                 visited: seq<bool>, parent: seq<int>, dist: seq<int>, queue: seq<int>)
    requires GraphOk(g) && 0 <= u < |g| && |visited0| == |g|
    requires Scanned(g, u, |g[u]|, level, visited0, parent0, queue0, visited, parent, dist, queue)
    ensures queue == queue0 + Discovered(g[u], visited0)
    ensures forall v :: 0 <= v < |g| ==> (visited[v] <==> visited0[v] || v in g[u])
    ensures forall v :: 0 <= v < |g| && visited0[v] ==> parent[v] == parent0[v]
    ensures forall v :: 0 <= v < |g| && !visited0[v] && visited[v] ==> parent[v] == u && dist[v] == level + 1
  {
    assert g[u][..|g[u]|] == g[u];
  }

  /**
    Expands `queue[head]`: each unvisited neighbour, in list order, is
    marked, given the expanded vertex as parent and enqueued; vertices
    visited before keep their parent and depth.
   */
  method Expand(g: seq<seq<int>>, s: int, visited: seq<bool>, parent: seq<int>, ghost dist: seq<int>,
                queue: seq<int>, ghost pos: seq<int>, head: int, ghost level: int)
    returns (visited': seq<bool>, parent': seq<int>, ghost dist': seq<int>, queue': seq<int>, ghost pos': seq<int>)
    requires Frontier(g, s, visited, parent, dist, queue, pos, head, level)
    requires head < |queue| && dist[queue[head]] == level
    ensures Frontier(g, s, visited', parent', dist', queue', pos', head + 1, level)
    ensures queue' == queue || Unvisited(visited') < Unvisited(visited)
    ensures Unvisited(visited') <= Unvisited(visited)
    ensures |queue| <= |queue'| && queue'[..|queue|] == queue
    ensures queue' == queue + Discovered(g[queue[head]], visited)
    ensures forall v :: 0 <= v < |g| ==> (visited'[v] <==> visited[v] || v in g[queue[head]])
    ensures forall v :: 0 <= v < |g| && visited[v] ==> parent'[v] == parent[v] && dist'[v] == dist[v]
    ensures forall v :: 0 <= v < |g| && !visited[v] && visited'[v] ==> parent'[v] == queue[head] && dist'[v] == level + 1
  {
    var current := queue[head];
    var nbrs := g[current];
    visited', parent', dist', queue', pos' := visited, parent, dist, queue, pos;
    var i := 0;
    while i < |nbrs|
      invariant Expanding(g, s, visited, dist, queue, head, level, i, visited', parent', dist', queue', pos')
      invariant queue'[head] == current
      invariant Scanned(g, current, i, level, visited, parent, queue, visited', parent', dist', queue')
    {
      visited', parent', dist', queue', pos' :=
        ScanNeighbour(g, s, visited, parent, dist, queue, head, level, i, visited', parent', dist', queue', pos');
      i := i + 1;
    }
    FinishExpand(g, s, visited, dist, queue, head, level, i, visited', parent', dist', queue', pos');
    ScanDone(g, current, level, visited, parent, queue, visited', parent', dist', queue');
  }

  /**
    One turn of the neighbour loop: the `i`-th neighbour of the vertex
    being expanded is marked, linked and enqueued if it is unvisited, and
    left alone otherwise.
   */
  method ScanNeighbour(g: seq<seq<int>>, s: int, visited0: seq<bool>, parent0: seq<int>, ghost dist0: seq<int>,
                       queue0: seq<int>, head: int, ghost level: int, i: int,
                       visited: seq<bool>, parent: seq<int>, ghost dist: seq<int>, queue: seq<int>, ghost pos: seq<int>)
    returns (visited': seq<bool>, parent': seq<int>, ghost dist': seq<int>, queue': seq<int>, ghost pos': seq<int>)
    requires Expanding(g, s, visited0, dist0, queue0, head, level, i, visited, parent, dist, queue, pos)
    requires i < |g[queue[head]]|
    requires Scanned(g, queue[head], i, level, visited0, parent0, queue0, visited, parent, dist, queue)
    ensures |queue| <= |queue'| && queue'[..|queue|] == queue
    ensures Expanding(g, s, visited0, dist0, queue0, head, level, i + 1, visited', parent', dist', queue', pos')
    ensures Scanned(g, queue[head], i + 1, level, visited0, parent0, queue0, visited', parent', dist', queue')
  {
    var current := queue[head];
    var neighbor := g[current][i];
    if !visited[neighbor] {
      ScanDiscover(g, current, i, level, visited0, parent0, queue0, visited, parent, dist, queue);
      Discover(g, s, visited0, dist0, queue0, head, level, i, visited, parent, dist, queue, pos);
      visited' := visited[neighbor := true];
      parent' := parent[neighbor := current];
      dist' := dist[neighbor := level + 1];
      queue' := queue + [neighbor];
      pos' := pos[neighbor := |queue|];
    } else {
      ScanSkip(g, current, i, level, visited0, parent0, queue0, visited, parent, dist, queue);
      Skip(g, s, visited0, dist0, queue0, head, level, i, visited, parent, dist, queue, pos);
      visited', parent', dist', queue', pos' := visited, parent, dist, queue, pos;
    }
  }

  lemma Skip(g: seq<seq<int>>, s: int, visited0: seq<bool>, dist0: seq<int>, queue0: seq<int>,
             head: int, level: int, i: int,
             visited: seq<bool>, parent: seq<int>, dist: seq<int>, queue: seq<int>, pos: seq<int>)
    requires Expanding(g, s, visited0, dist0, queue0, head, level, i, visited, parent, dist, queue, pos)
    requires i < |g[queue[head]]| && visited[g[queue[head]][i]]
    ensures Expanding(g, s, visited0, dist0, queue0, head, level, i + 1, visited, parent, dist, queue, pos)
  {
  }

  /** Discovering the `i`-th neighbour `x` of the vertex being expanded keeps every invariant. */
  lemma Discover(g: seq<seq<int>>, s: int, visited0: seq<bool>, dist0: seq<int>, queue0: seq<int>,
                 head: int, level: int, i: int,
                 visited: seq<bool>, parent: seq<int>, dist: seq<int>, queue: seq<int>, pos: seq<int>)
    requires Expanding(g, s, visited0, dist0, queue0, head, level, i, visited, parent, dist, queue, pos)
    requires i < |g[queue[head]]| && !visited[g[queue[head]][i]]
    ensures var x := g[queue[head]][i];
      Expanding(g, s, visited0, dist0, queue0, head, level, i + 1,
                visited[x := true], parent[x := queue[head]], dist[x := level + 1], queue + [x], pos[x := |queue|])
  {
    var x := g[queue[head]][i];
    var visited', parent', dist', queue', pos' :=
      visited[x := true], parent[x := queue[head]], dist[x := level + 1], queue + [x], pos[x := |queue|];
    assert forall k :: 0 <= k < |queue| ==> queue[k] != x by {
      forall k | 0 <= k < |queue|
        ensures queue[k] != x
      {
      }
    }
    assert Sound(g, s, visited', parent', dist', queue', pos', level) by {
      DiscoverSound(g, s, visited, parent, dist, queue, pos, level, queue[head], x);
    }
    assert Layered(queue', dist', head, level) by {
      AppendDeepest(queue, dist, dist', head, level, x);
    }
    assert Expanded(g, queue', head, visited', dist') by {
      DiscoverExpanded(g, queue, head, visited, dist, x, level);
    }
    assert queue'[..|queue0|] == queue0 && Keeps(visited0, dist0, visited', dist') && Unvisited(visited') < Unvisited(visited0) by {
      DiscoverProgress(visited0, dist0, queue0, visited, dist, queue, x, level);
    }
    assert queue'[head] == queue[head];
    DiscoverSeen(g, queue[head], i, visited, dist, level);
  }

  lemma DiscoverSeen(g: seq<seq<int>>, u: int, i: int, visited: seq<bool>, dist: seq<int>, level: int)
    requires GraphOk(g) && 0 <= u < |g| && 0 <= i < |g[u]| && |visited| == |g| && |dist| == |g|
    requires FirstSeen(g, u, i, visited, dist, level)
    ensures FirstSeen(g, u, i + 1, visited[g[u][i] := true], dist[g[u][i] := level + 1], level)
  {
    var x := g[u][i];
    var visited', dist' := visited[x := true], dist[x := level + 1];
    forall k | 0 <= k < i + 1
      ensures visited'[g[u][k]] && dist'[g[u][k]] <= level + 1
    {
      var y := g[u][k];
      if y != x {
        assert k < i;
        assert visited[y] && dist[y] <= level + 1;
      }
    }
  }

  lemma DiscoverExpanded(g: seq<seq<int>>, queue: seq<int>, head: int, visited: seq<bool>, dist: seq<int>, x: int, level: int)
    requires GraphOk(g) && |visited| == |g| && |dist| == |g|
    requires 0 <= head <= |queue|
    requires forall k :: 0 <= k < |queue| ==> 0 <= queue[k] < |g|
    requires 0 <= x < |g| && !visited[x]
    requires forall k :: 0 <= k < |queue| ==> queue[k] != x
    requires Expanded(g, queue, head, visited, dist)
    ensures Expanded(g, queue + [x], head, visited[x := true], dist[x := level + 1])
  {
    var visited', dist', queue' := visited[x := true], dist[x := level + 1], queue + [x];
    forall a, k | 0 <= a < head && 0 <= k < |g[queue'[a]]|
      ensures visited'[g[queue'[a]][k]] && dist'[g[queue'[a]][k]] <= dist'[queue'[a]] + 1
    {
      assert queue'[a] == queue[a];
      assert visited[g[queue[a]][k]];
    }
  }

  lemma DiscoverProgress(visited0: seq<bool>, dist0: seq<int>, queue0: seq<int>,
                         visited: seq<bool>, dist: seq<int>, queue: seq<int>, x: int, level: int)
    requires |visited0| == |visited| && |dist0| == |visited| && |dist| == |visited|
    requires |queue0| <= |queue| && queue[..|queue0|] == queue0
    requires 0 <= x < |visited| && !visited[x]
    requires Keeps(visited0, dist0, visited, dist)
    requires Unvisited(visited) <= Unvisited(visited0)
    ensures (queue + [x])[..|queue0|] == queue0
    ensures Keeps(visited0, dist0, visited[x := true], dist[x := level + 1])
    ensures Unvisited(visited[x := true]) < Unvisited(visited0)
  {
    assert (queue + [x])[..|queue0|] == queue[..|queue0|];
    UnvisitedShrinks(visited, x);
  }

  /** Marking, parenting, deepening and enqueueing an unvisited neighbour keeps the bookkeeping sound. */
  lemma DiscoverSound(g: seq<seq<int>>, s: int, visited: seq<bool>, parent: seq<int>, dist: seq<int>,
                      queue: seq<int>, pos: seq<int>, level: int, u: int, x: int)
    requires Sound(g, s, visited, parent, dist, queue, pos, level)
    requires 0 <= u < |g| && visited[u] && dist[u] == level
    requires x in g[u] && !visited[x]
    ensures Sound(g, s, visited[x := true], parent[x := u], dist[x := level + 1], queue + [x], pos[x := |queue|], level)
  {
    var visited', parent', dist', queue', pos' :=
      visited[x := true], parent[x := u], dist[x := level + 1], queue + [x], pos[x := |queue|];
    assert 0 <= x < |g|;
    forall k | 0 <= k < |queue'|
      ensures 0 <= queue'[k] < |g| && visited'[queue'[k]]
    {
      if k < |queue| {
        assert queue'[k] == queue[k];
      }
    }
    forall v | 0 <= v < |g| && visited'[v]
      ensures 0 <= pos'[v] < |queue'| && queue'[pos'[v]] == v
    {
      if v != x {
        assert queue'[pos[v]] == queue[pos[v]];
      }
    }
    assert ParentsOk(g, s, visited', parent', dist');
  }

  lemma FinishExpand(g: seq<seq<int>>, s: int, visited0: seq<bool>, dist0: seq<int>, queue0: seq<int>,
                     head: int, level: int, i: int,
                     visited: seq<bool>, parent: seq<int>, dist: seq<int>, queue: seq<int>, pos: seq<int>)
    requires Expanding(g, s, visited0, dist0, queue0, head, level, i, visited, parent, dist, queue, pos)
    requires i == |g[queue[head]]|
    requires ShortPathsSeen(g, s, visited0, dist0, level)
    ensures Frontier(g, s, visited, parent, dist, queue, pos, head + 1, level)
  {
    ShortPathsGrow(g, s, visited0, dist0, visited, dist, level);
  }

  lemma UnvisitedShrinks(visited: seq<bool>, v: int)
    requires 0 <= v < |visited| && !visited[v]
    ensures Unvisited(visited[v := true]) == Unvisited(visited) - {v}
    ensures Unvisited(visited[v := true]) < Unvisited(visited)
  {
    assert v in Unvisited(visited);
  }

  /** Enqueueing a vertex one level below the front keeps the queue layered. */
  lemma AppendDeepest(queue: seq<int>, dist: seq<int>, dist': seq<int>, head: int, level: int, x: int)
    requires forall k :: 0 <= k < |queue| ==> 0 <= queue[k] < |dist| && queue[k] != x
    requires |dist'| == |dist| && 0 <= x < |dist|
    requires forall v :: 0 <= v < |dist| && v != x ==> dist'[v] == dist[v]
    requires dist'[x] == level + 1
    requires Layered(queue, dist, head, level)
    ensures Layered(queue + [x], dist', head, level)
  {
    var q := queue + [x];
    forall a | 0 <= a < head
      ensures dist'[q[a]] <= level
    {
      assert q[a] == queue[a];
    }
    forall a | head <= a < |q|
      ensures level <= dist'[q[a]] <= level + 1
    {
      if a < |queue| {
        assert q[a] == queue[a];
      }
    }
    forall a, b | head <= a <= b < |q|
      ensures dist'[q[a]] <= dist'[q[b]]
    {
      if b < |queue| {
        assert q[a] == queue[a] && q[b] == queue[b];
      } else if a < |queue| {
        assert q[a] == queue[a];
      }
    }
  }

  /** Visiting more vertices, without changing depths already recorded, keeps short paths seen. */
  lemma ShortPathsGrow(g: seq<seq<int>>, s: int, visited: seq<bool>, dist: seq<int>,
                       visited': seq<bool>, dist': seq<int>, level: int)
    requires |visited| == |g| && |dist| == |g| && |visited'| == |g| && |dist'| == |g|
    requires forall v :: 0 <= v < |g| && visited[v] ==> visited'[v] && dist'[v] == dist[v]
    requires ShortPathsSeen(g, s, visited, dist, level)
    ensures ShortPathsSeen(g, s, visited', dist', level)
  {
  }

  /**
    Follows parent links back from `f`. Depths fall by one per step, so
    the result is a repetition-free path of `dist[f]` steps.
   */
  method Rebuild(g: seq<seq<int>>, s: int, f: int, visited: seq<bool>, parent: seq<int>, ghost dist: seq<int>)
    returns (path: seq<int>)
    requires |visited| == |g| && |parent| == |g| && |dist| == |g|
    requires ParentsOk(g, s, visited, parent, dist)
    requires forall v :: 0 <= v < |g| && visited[v] ==> dist[v] >= 0
    requires 0 <= f < |g| && visited[f]
    ensures PathFromTo(g, path, s, f) && NoRepeats(path)
    ensures |path| == dist[f] + 1
  {
    // Prepending each parent yields directly the start-to-finish order
    // that the program obtains by appending and then reversing.
    path := [];
    var current := f;
    while current != -1
      invariant current == -1 || (0 <= current < |g| && visited[current])
      invariant current != -1 ==> |path| == dist[f] - dist[current]
      invariant forall k :: 0 <= k < |path| ==> 0 <= path[k] < |g| && dist[path[k]] == dist[f] - (|path| - 1 - k)
      invariant current != -1 && path != [] ==> path[0] in g[current] && dist[path[0]] == dist[current] + 1
      invariant current == -1 ==> path != [] && path[0] == s && |path| == dist[f] + 1
      invariant path != [] ==> path[|path| - 1] == f
      invariant current != -1 && path == [] ==> current == f
      invariant forall k :: 0 <= k < |path| - 1 ==> path[k + 1] in g[path[k]]
      decreases if current == -1 then 0 else dist[current] + 1
    {
      path := [current] + path;
      current := parent[current];
    }
  }

  /** When the finish leaves the queue at `level`, no path reaches it in fewer steps. */
  lemma FoundIsShortest(g: seq<seq<int>>, s: int, f: int, visited: seq<bool>, dist: seq<int>, level: int)
    requires |visited| == |g| && |dist| == |g|
    requires 0 <= f < |g| && visited[f] && dist[f] == level
    requires ShortPathsSeen(g, s, visited, dist, level)
    ensures forall p :: PathFromTo(g, p, s, f) ==> dist[f] <= |p| - 1
  {
  }

  /**
    When the queue front moves from `level` to `level + 1`, every vertex at
    the end of a path of `level + 1` steps has been seen: its predecessor on
    the path lies at most `level` deep, so it has already been expanded.
   */
  lemma LevelUp(g: seq<seq<int>>, s: int, visited: seq<bool>, parent: seq<int>, dist: seq<int>,
                queue: seq<int>, pos: seq<int>, head: int, level: int)
    requires Frontier(g, s, visited, parent, dist, queue, pos, head, level)
    requires head < |queue| && dist[queue[head]] != level
    ensures Frontier(g, s, visited, parent, dist, queue, pos, head, level + 1)
    ensures dist[queue[head]] == level + 1
  {
    forall p | IsPath(g, p) && p[0] == s && |p| <= level + 2
      ensures visited[p[|p| - 1]] && dist[p[|p| - 1]] <= |p| - 1
    {
      if |p| == level + 2 {
        var q := p[..|p| - 1];
        assert IsPath(g, q);
        var y := q[|q| - 1];
        assert visited[y] && dist[y] <= level;
        var a := pos[y];
        if head <= a {
          assert false;
        }
        var x := p[|p| - 1];
        assert x in g[y];
        var k :| 0 <= k < |g[y]| && g[y][k] == x;
        assert visited[g[queue[a]][k]];
      }
    }
  }

  /**
    Once the queue is used up, the visited set is closed under edges, so
    every path from `s` ends at a visited vertex no deeper than the path.
   */
  lemma {:induction false} ExhaustedReachesAll(g: seq<seq<int>>, s: int, visited: seq<bool>, parent: seq<int>,
                                               dist: seq<int>, queue: seq<int>, pos: seq<int>, level: int, p: seq<int>)
    requires Sound(g, s, visited, parent, dist, queue, pos, level)
    requires Expanded(g, queue, |queue|, visited, dist)
    requires IsPath(g, p) && p[0] == s
    ensures visited[p[|p| - 1]] && dist[p[|p| - 1]] <= |p| - 1
    decreases |p|
  {
    if |p| > 1 {
      var q := p[..|p| - 1];
      assert IsPath(g, q);
      ExhaustedReachesAll(g, s, visited, parent, dist, queue, pos, level, q);
      var y := q[|q| - 1];
      var a := pos[y];
      var x := p[|p| - 1];
      assert x in g[y];
      var k :| 0 <= k < |g[y]| && g[y][k] == x;
      assert visited[g[queue[a]][k]];
    }
  }
}
