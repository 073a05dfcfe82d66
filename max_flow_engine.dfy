/**
 * The Edmonds–Karp engine on arrays: the capacity and flow matrices are
 * two-dimensional arrays, the parent links and the visited marks are arrays,
 * and the search queue is a sequence that the search pops from the front and
 * appends to. Each method is proved against the value-level definitions of
 * FlowNetwork, on the matrices the arrays hold (Holds).
 */
module MaxFlowEngine {
  import opened FlowNetwork
  import opened Cuts

  /** Following parent from the last node of p visits the nodes of p in reverse. */
  ghost predicate Chain(parent: seq<int>, p: seq<nat>) {
    && (forall i :: 0 <= i < |p| ==> p[i] < |parent|)
    && (forall i :: 1 <= i < |p| ==> parent[p[i]] == p[i - 1])
  }

  /**
   * What the search knows about a node v it has reached: p is a simple path
   * from s to v over positive-residual arcs, all its nodes were reached in
   * this search, and the parent links lead back along it.
   */
  ghost predicate PathTo(C: Matrix, F: Matrix, parent: seq<int>, seen: set<nat>, s: nat, v: nat, p: seq<nat>) {
    && Network(C, F)
    && IsSimplePath(p, s, v, |C|)
    && PositiveArcs(C, F, p)
    && Chain(parent, p)
    && (forall i :: 0 <= i < |p| ==> p[i] in seen)
  }

  /** Reaching more nodes and writing the parent of nodes not reached before keeps every known path. */
  lemma PathToKept(C: Matrix, F: Matrix, parent: seq<int>, parent': seq<int>, seen: set<nat>, seen': set<nat>,
                   s: nat, v: nat, p: seq<nat>)
    requires PathTo(C, F, parent, seen, s, v, p)
    requires seen <= seen' && |parent'| == |parent|
    requires forall x :: x in seen && x < |parent| ==> parent'[x] == parent[x]
    ensures PathTo(C, F, parent', seen', s, v, p)
  {
  }

  /** A path to u extended by a positive-residual arc to a node w not reached before is a path to w. */
  lemma PathToExtended(C: Matrix, F: Matrix, parent: seq<int>, seen: set<nat>, s: nat, u: nat, p: seq<nat>, w: nat)
    requires PathTo(C, F, parent, seen, s, u, p)
    requires w < |C| && w < |parent| && w !in seen && Residual(C, F, u, w) > 0
    ensures PathTo(C, F, parent[w := u], seen + {w}, s, w, p + [w])
  {
    var q := p + [w];
    assert forall i :: 0 <= i < |p| ==> q[i] == p[i];
    assert forall i :: 0 <= i < |p| ==> p[i] != w;
    assert Chain(parent[w := u], q) by {
      forall i | 1 <= i < |q| ensures parent[w := u][q[i]] == q[i - 1] {
        if i < |p| {
          assert q[i] == p[i] && p[i] != w;
        }
      }
    }
  }

  /** Every reached node has a known path. */
  ghost predicate KnownPaths(C: Matrix, F: Matrix, parent: seq<int>, seen: set<nat>, s: nat, paths: map<nat, seq<nat>>) {
    forall v :: v in seen ==> v in paths && PathTo(C, F, parent, seen, s, v, paths[v])
  }

  /**
   * The state of the search between two steps, on snapshots of the visited
   * marks and the parent links. visited marks exactly the reached nodes; the
   * sink is not reached unless it is the source; queued nodes are reached,
   * distinct and not yet scanned; every scanned node has all its
   * positive-residual successors reached; each reached node has a known path;
   * the parent entries of nodes not reached are those the search started with.
   */
  ghost predicate Searching(C: Matrix, F: Matrix, s: nat, t: nat, start: seq<int>, visited: seq<bool>, parent: seq<int>,
                            queue: seq<nat>, seen: set<nat>, done: set<nat>, paths: map<nat, seq<nat>>) {
    && Network(C, F) && |visited| == |C| && |parent| == |C| && |start| == |C|
    && (forall v :: 0 <= v < |C| ==> (visited[v] <==> v in seen))
    && (forall v :: v in seen ==> v < |C|)
    && s in seen && (t in seen ==> t == s)
    && done <= seen
    && (forall x :: x in queue ==> x in seen && x !in done)
    && Distinct(queue)
    && (forall u: nat, v: nat :: u in done && v < |C| && Residual(C, F, u, v) > 0 ==> v in seen)
    && KnownPaths(C, F, parent, seen, s, paths)
    && (forall v :: 0 <= v < |C| && v !in seen ==> parent[v] == start[v])
  }

  /** Every positive-residual successor of u below k has been reached. */
  ghost predicate Scanned(C: Matrix, F: Matrix, u: nat, k: nat, seen: set<nat>)
    requires Network(C, F) && u < |C|
  {
    forall v: nat :: v < k && v < |C| && Residual(C, F, u, v) > 0 ==> v in seen
  }

  /** Scanning one more neighbour k of u: if the arc to it has positive residual capacity, k has been reached. */
  lemma ScanStep(C: Matrix, F: Matrix, u: nat, k: nat, seen: set<nat>, seen': set<nat>)
    requires Network(C, F) && u < |C| && k < |C|
    requires Scanned(C, F, u, k, seen) && seen <= seen'
    requires Residual(C, F, u, k) > 0 ==> k in seen'
    ensures Scanned(C, F, u, k + 1, seen')
  {
  }

  /** The search starts with only the source reached and queued. */
  lemma SearchStarts(C: Matrix, F: Matrix, s: nat, t: nat, start: seq<int>, visited: seq<bool>)
    requires Network(C, F) && s < |C| && |start| == |C|
    requires |visited| == |C| && forall v :: 0 <= v < |C| ==> (visited[v] <==> v == s)
    ensures Searching(C, F, s, t, start, visited, start, [s], {s}, {}, map[s := [s]])
  {
    assert PathTo(C, F, start, {s}, s, s, [s]);
  }

  /**
   * Reaching a new node other than the sink: it gets current as its parent,
   * is marked visited and joins the back of the queue.
   */
  lemma SearchVisits(C: Matrix, F: Matrix, s: nat, t: nat, start: seq<int>, visited: seq<bool>, parent: seq<int>,
                     queue: seq<nat>, seen: set<nat>, done: set<nat>, paths: map<nat, seq<nat>>, current: nat, w: nat)
    requires Searching(C, F, s, t, start, visited, parent, queue, seen, done, paths)
    requires current in seen && current !in done
    requires w < |C| && w !in seen && w != t && Residual(C, F, current, w) > 0
    ensures Searching(C, F, s, t, start, visited[w := true], parent[w := current], queue + [w], seen + {w}, done,
                      paths[w := paths[current] + [w]])
  {
    var seen' := seen + {w};
    var paths' := paths[w := paths[current] + [w]];
    PathToExtended(C, F, parent, seen, s, current, paths[current], w);
    forall v | v in seen ensures PathTo(C, F, parent[w := current], seen', s, v, paths[v]) {
      PathToKept(C, F, parent, parent[w := current], seen, seen', s, v, paths[v]);
    }
    assert KnownPaths(C, F, parent[w := current], seen', s, paths');
    assert Distinct(queue + [w]) by {
      var q := queue + [w];
      forall i, j | 0 <= i < j < |q| ensures q[i] != q[j] {
        if j < |queue| {
          assert q[i] == queue[i] && q[j] == queue[j];
        } else {
          assert q[i] == queue[i] && queue[i] in seen;
        }
      }
    }
  }

  /**
   * Reaching the sink: the known path to current, extended by the arc into
   * the sink, is an augmenting path that the parent links follow back.
   */
  lemma SearchFindsSink(C: Matrix, F: Matrix, s: nat, t: nat, start: seq<int>, visited: seq<bool>, parent: seq<int>,
                        queue: seq<nat>, seen: set<nat>, done: set<nat>, paths: map<nat, seq<nat>>, current: nat)
    requires Searching(C, F, s, t, start, visited, parent, queue, seen, done, paths)
    requires current in seen && t < |C| && t !in seen && Residual(C, F, current, t) > 0
    ensures IsAugmentingPath(C, F, paths[current] + [t], s, t)
    ensures Chain(parent[t := current], paths[current] + [t])
    ensures forall i :: 0 <= i < |paths[current] + [t]| ==> (paths[current] + [t])[i] in seen + {t}
    ensures Reached(C, F, s, parent[t := current], seen + {t})
  {
    var seen' := seen + {t};
    var paths' := paths[t := paths[current] + [t]];
    PathToExtended(C, F, parent, seen, s, current, paths[current], t);
    forall v | v in seen ensures PathTo(C, F, parent[t := current], seen', s, v, paths[v]) {
      PathToKept(C, F, parent, parent[t := current], seen, seen', s, v, paths[v]);
    }
    TreeLinks(C, F, parent[t := current], seen', s, paths');
  }

  /** Finishing the scan of current: every positive-residual successor of it is reached. */
  lemma SearchScans(C: Matrix, F: Matrix, s: nat, t: nat, start: seq<int>, visited: seq<bool>, parent: seq<int>,
                    queue: seq<nat>, seen: set<nat>, done: set<nat>, paths: map<nat, seq<nat>>, current: nat)
    requires Searching(C, F, s, t, start, visited, parent, queue, seen, done, paths)
    requires current in seen && current !in queue && Scanned(C, F, current, |C|, seen)
    ensures Searching(C, F, s, t, start, visited, parent, queue, seen, done + {current}, paths)
  {
  }

  /** With the queue empty and every reached node scanned, the reached set is closed under residual arcs. */
  lemma SearchExhausted(C: Matrix, F: Matrix, s: nat, t: nat, start: seq<int>, visited: seq<bool>, parent: seq<int>,
                        seen: set<nat>, done: set<nat>, paths: map<nat, seq<nat>>)
    requires Searching(C, F, s, t, start, visited, parent, [], seen, done, paths)
    requires forall x :: x in seen ==> x in done
    ensures ClosedUnderResidual(C, F, seen) && (t in seen <==> t == s)
    ensures Reached(C, F, s, parent, seen)
  {
    TreeLinks(C, F, parent, seen, s, paths);
  }

  /** Every reached node other than the source has a reached parent joined to it by a positive-residual arc. */
  ghost predicate Reached(C: Matrix, F: Matrix, s: nat, parent: seq<int>, seen: set<nat>)
    requires Network(C, F) && |parent| == |C|
  {
    forall v :: v in seen ==>
      v < |C| && (v == s || (0 <= parent[v] < |C| && parent[v] in seen && Residual(C, F, parent[v], v) > 0))
  }

  lemma TreeLinks(C: Matrix, F: Matrix, parent: seq<int>, seen: set<nat>, s: nat, paths: map<nat, seq<nat>>)
    requires Network(C, F) && |parent| == |C| && forall v :: v in seen ==> v < |C|
    requires KnownPaths(C, F, parent, seen, s, paths)
    ensures Reached(C, F, s, parent, seen)
  {
    forall v | v in seen && v != s
      ensures 0 <= parent[v] < |C| && parent[v] in seen && Residual(C, F, parent[v], v) > 0
    {
      var p := paths[v];
      var k := |p| - 1;
      assert k >= 1 && p[k] == v && parent[p[k]] == p[k - 1];
    }
  }

  /** p walks from s to v over positive-residual arcs; unlike a path, it may repeat nodes. */
  ghost predicate Walk(C: Matrix, F: Matrix, p: seq<nat>, s: nat, v: nat) {
    && Network(C, F)
    && |p| >= 1 && p[0] == s && p[|p| - 1] == v
    && InRange(p, |C|)
    && PositiveArcs(C, F, p)
  }

  /** The known path of every reached node is no longer than any walk to it. */
  ghost predicate Shortest(C: Matrix, F: Matrix, s: nat, seen: set<nat>, paths: map<nat, seq<nat>>) {
    forall v, p :: v in seen && v in paths && Walk(C, F, p, s, v) ==> |paths[v]| <= |p|
  }

  /** The known paths of the queued nodes grow along the queue and all have lo or lo + 1 nodes. */
  ghost predicate Layered(queue: seq<nat>, paths: map<nat, seq<nat>>, lo: int) {
    && (forall x :: x in queue ==> x in paths && lo <= |paths[x]| <= lo + 1)
    && (forall i, j :: 0 <= i < j < |queue| ==>
          queue[i] in paths && queue[j] in paths && |paths[queue[i]]| <= |paths[queue[j]]|)
  }

  /** Between two scans: every reached node is scanned or queued, and the queue is layered around its front. */
  ghost predicate Waiting(queue: seq<nat>, seen: set<nat>, done: set<nat>, paths: map<nat, seq<nat>>) {
    && (forall x :: x in seen ==> x in done || x in queue)
    && (queue != [] ==> queue[0] in paths && Layered(queue, paths, |paths[queue[0]]|))
  }

  /** Taking the front of the queue opens its scan, with the rest of the queue within one layer of it. */
  lemma FrontierOpens(queue: seq<nat>, seen: set<nat>, done: set<nat>, paths: map<nat, seq<nat>>)
    requires Waiting(queue, seen, done, paths) && queue != [] && Distinct(queue)
    requires forall x :: x in queue ==> x in seen && x !in done
    ensures Frontier(queue[1..], seen, done, paths, queue[0])
  {
    forall x | x in queue[1..] ensures x in paths && |paths[queue[0]]| <= |paths[x]| <= |paths[queue[0]]| + 1 {
      var j :| 1 <= j < |queue| && queue[j] == x;
    }
    forall i, j | 0 <= i < j < |queue[1..]| ensures |paths[queue[1..][i]]| <= |paths[queue[1..][j]]| {
      assert queue[1..][i] == queue[i + 1] && queue[1..][j] == queue[j + 1];
    }
    forall y | y in seen ensures y in done || y in queue[1..] || y == queue[0] {
      if y in queue && y != queue[0] {
        var j :| 0 <= j < |queue| && queue[j] == y;
        assert queue[1..][j - 1] == y;
      }
    }
  }

  /** Once current is scanned, the queue is layered around its new front. */
  lemma FrontierCloses(queue: seq<nat>, seen: set<nat>, done: set<nat>, paths: map<nat, seq<nat>>, current: nat)
    requires Frontier(queue, seen, done, paths, current)
    ensures Waiting(queue, seen, done + {current}, paths)
  {
    if queue != [] {
      forall x | x in queue ensures |paths[queue[0]]| <= |paths[x]| {
        var j :| 0 <= j < |queue| && queue[j] == x;
        if j > 0 {
          assert |paths[queue[0]]| <= |paths[queue[j]]|;
        }
      }
    }
  }

  /**
   * While current is being scanned: it is reached, neither scanned nor queued;
   * every reached node is scanned, queued or current; and the queue is
   * layered around the length of current's known path.
   */
  ghost predicate Frontier(queue: seq<nat>, seen: set<nat>, done: set<nat>, paths: map<nat, seq<nat>>, current: nat) {
    && current in seen && current !in done && current !in queue
    && (forall y :: y in seen ==> y in done || y in queue || y == current)
    && current in paths && Layered(queue, paths, |paths[current]|)
  }

  /**
   * While current is being scanned, a walk to a node not yet reached is longer
   * than the known path to current: it leaves the scanned nodes at some
   * reached, unscanned node, whose known path is no shorter than current's.
   */
  lemma WalkToUnreached(C: Matrix, F: Matrix, s: nat, t: nat, start: seq<int>, visited: seq<bool>, parent: seq<int>,
                        queue: seq<nat>, seen: set<nat>, done: set<nat>, paths: map<nat, seq<nat>>, current: nat,
                        p: seq<nat>, x: nat)
    requires Searching(C, F, s, t, start, visited, parent, queue, seen, done, paths)
    requires Frontier(queue, seen, done, paths, current) && Shortest(C, F, s, seen, paths)
    requires Walk(C, F, p, s, x) && x !in seen
    ensures |paths[current]| + 1 <= |p|
  {
    var j := 0;
    while p[j] in done
      invariant 0 <= j < |p| && p[j] in seen
      decreases |p| - j
    {
      assert j != |p| - 1;
      assert Residual(C, F, p[j], p[j + 1]) > 0;
      j := j + 1;
    }
    var y := p[j];
    var q := p[..j + 1];
    assert Walk(C, F, q, s, y) by {
      forall i | 0 <= i < |q| - 1 ensures Residual(C, F, q[i], q[i + 1]) > 0 {
        assert q[i] == p[i] && q[i + 1] == p[i + 1];
      }
    }
    assert y in paths && |paths[y]| <= j + 1;
    assert y != x;
  }

  /** The search starts with the source's one-node path, which no walk undercuts. */
  lemma ShortestStarts(C: Matrix, F: Matrix, s: nat)
    ensures Shortest(C, F, s, {s}, map[s := [s]]) && Layered([s], map[s := [s]], 1)
  {
  }

  /** Reaching a new node from current gives it a shortest known path and queues it in the next layer. */
  lemma ShortestVisits(C: Matrix, F: Matrix, s: nat, t: nat, start: seq<int>, visited: seq<bool>, parent: seq<int>,
                       queue: seq<nat>, seen: set<nat>, done: set<nat>, paths: map<nat, seq<nat>>, current: nat, w: nat)
    requires Searching(C, F, s, t, start, visited, parent, queue, seen, done, paths)
    requires Frontier(queue, seen, done, paths, current) && Shortest(C, F, s, seen, paths)
    requires w !in seen
    ensures Shortest(C, F, s, seen + {w}, paths[w := paths[current] + [w]])
    ensures Frontier(queue + [w], seen + {w}, done, paths[w := paths[current] + [w]], current)
  {
    var paths' := paths[w := paths[current] + [w]];
    forall v, p | v in seen + {w} && v in paths' && Walk(C, F, p, s, v) ensures |paths'[v]| <= |p| {
      if v == w {
        WalkToUnreached(C, F, s, t, start, visited, parent, queue, seen, done, paths, current, p, w);
      }
    }
    var q := queue + [w];
    forall i, j | 0 <= i < j < |q| ensures |paths'[q[i]]| <= |paths'[q[j]]| {
      assert q[i] == queue[i] && queue[i] in seen;
      if j < |queue| {
        assert q[j] == queue[j] && queue[j] in seen;
      }
    }
  }

  /** The augmenting path found on reaching the sink is no longer than any other. */
  lemma ShortestToSink(C: Matrix, F: Matrix, s: nat, t: nat, start: seq<int>, visited: seq<bool>, parent: seq<int>,
                       queue: seq<nat>, seen: set<nat>, done: set<nat>, paths: map<nat, seq<nat>>, current: nat)
    requires Searching(C, F, s, t, start, visited, parent, queue, seen, done, paths)
    requires Frontier(queue, seen, done, paths, current) && Shortest(C, F, s, seen, paths)
    requires t !in seen
    ensures forall q :: IsAugmentingPath(C, F, q, s, t) ==> |paths[current] + [t]| <= |q|
  {
    forall q | IsAugmentingPath(C, F, q, s, t) ensures |paths[current] + [t]| <= |q| {
      assert Walk(C, F, q, s, t);
      WalkToUnreached(C, F, s, t, start, visited, parent, queue, seen, done, paths, current, q, t);
    }
  }

  /**
   * What a scan of current adds to a search: the reached set only grows,
   * every node reached by the scan is a positive-residual successor of
   * current with current as its parent, and the parents of nodes reached
   * before the scan are kept.
   */
  ghost predicate Grown(C: Matrix, F: Matrix, current: nat, seen: set<nat>, seen': set<nat>,
                        parent0: seq<int>, parent: seq<int>) {
    && Network(C, F) && current < |C| && |parent0| == |C| && |parent| == |C|
    && seen <= seen'
    && (forall w :: w in seen' && w !in seen ==> w < |C| && parent[w] == current && Residual(C, F, current, w) > 0)
    && (forall v :: 0 <= v < |C| && v in seen ==> parent[v] == parent0[v])
  }

  /** Reaching one more successor w of current, and making current its parent, keeps Grown. */
  lemma GrownStep(C: Matrix, F: Matrix, current: nat, seen: set<nat>, seen': set<nat>,
                  parent0: seq<int>, parent: seq<int>, w: nat)
    requires Grown(C, F, current, seen, seen', parent0, parent)
    requires w < |C| && w !in seen' && Residual(C, F, current, w) > 0
    ensures Grown(C, F, current, seen, seen' + {w}, parent0, parent[w := current])
  {
  }

  /**
   * The scan of one node taken from the queue: its neighbours in ascending
   * index order, each reached over a positive-residual arc for the first time
   * getting current as its parent, a visited mark and a place at the back of
   * the queue. The scan stops as soon as it reaches the sink, with a shortest
   * augmenting path that the parent links follow back to the source.
   * Otherwise every positive-residual successor of current has been reached
   * and the state of the search is kept.
   */
  method ScanNeighbours(cap: array2<int>, flow: array2<int>, source: nat, sink: nat, parent: array<int>,
                        visited: array<bool>, current: nat, queue: seq<nat>,
                        ghost C: Matrix, ghost F: Matrix, ghost start: seq<int>, ghost seen: set<nat>,
                        ghost done: set<nat>, ghost paths: map<nat, seq<nat>>)
    returns (found: bool, queue': seq<nat>, ghost path: seq<nat>, ghost seen': set<nat>,
             ghost paths': map<nat, seq<nat>>)
    requires Holds(cap, C) && Holds(flow, F) && |F| == |C| && parent.Length == |C| && visited.Length == |C|
    requires sink < |C|
    requires Searching(C, F, source, sink, start, visited[..], parent[..], queue, seen, done, paths)
    requires Frontier(queue, seen, done, paths, current) && Shortest(C, F, source, seen, paths)
    modifies parent, visited
    ensures source in seen'
    ensures found ==> IsAugmentingPath(C, F, path, source, sink) && Chain(parent[..], path)
    ensures found ==> forall i :: 0 <= i < |path| ==> path[i] in seen'
    ensures found ==> forall q :: IsAugmentingPath(C, F, q, source, sink) ==> |path| <= |q|
    ensures found ==> Reached(C, F, source, parent[..], seen')
    ensures found ==> forall v :: 0 <= v < |C| && v !in seen' ==> parent[v] == start[v]
    ensures !found ==> Searching(C, F, source, sink, start, visited[..], parent[..], queue', seen', done, paths')
    ensures !found ==> Frontier(queue', seen', done, paths', current) && Shortest(C, F, source, seen', paths')
    ensures !found ==> Scanned(C, F, current, |C|, seen')
    ensures Grown(C, F, current, seen, seen', old(parent[..]), parent[..])
    ensures !found ==> |queue| <= |queue'| && queue'[..|queue|] == queue
  {
    var n := cap.Length0;
    ghost var parent0 := parent[..];
    queue', seen', paths' := queue, seen, paths;
    path := [];
    found := false;
    for neighbor: nat := 0 to n
      invariant Searching(C, F, source, sink, start, visited[..], parent[..], queue', seen', done, paths')
      invariant Frontier(queue', seen', done, paths', current) && Shortest(C, F, source, seen', paths')
      invariant Scanned(C, F, current, neighbor, seen')
      invariant Grown(C, F, current, seen, seen', parent0, parent[..])
      invariant |queue| <= |queue'| && queue'[..|queue|] == queue
    {
      ghost var seenBefore := seen';
      assert Residual(C, F, current, neighbor) == cap[current, neighbor] - flow[current, neighbor];
      if !visited[neighbor] && cap[current, neighbor] - flow[current, neighbor] > 0 {
        if neighbor == sink {
          SearchFindsSink(C, F, source, sink, start, visited[..], parent[..], queue', seen', done, paths', current);
          ShortestToSink(C, F, source, sink, start, visited[..], parent[..], queue', seen', done, paths', current);
          GrownStep(C, F, current, seen, seen', parent0, parent[..], neighbor);
          parent[neighbor] := current;
          visited[neighbor] := true;
          found := true;
          path := paths'[current] + [neighbor];
          seen' := seen' + {neighbor};
          return;
        }
        SearchVisits(C, F, source, sink, start, visited[..], parent[..], queue', seen', done, paths', current, neighbor);
        ShortestVisits(C, F, source, sink, start, visited[..], parent[..], queue', seen', done, paths', current, neighbor);
        GrownStep(C, F, current, seen, seen', parent0, parent[..], neighbor);
        parent[neighbor] := current;
        visited[neighbor] := true;
        paths' := paths'[neighbor := paths'[current] + [neighbor]];
        seen' := seen' + {neighbor};
        queue' := queue' + [neighbor];
      }
      ScanStep(C, F, current, neighbor, seenBefore, seen');
    }
  }

  /**
   * Breadth-first search for an augmenting path over residual capacity,
   * scanning neighbours in ascending index order and recording the parent of
   * every node it reaches. It stops as soon as it reaches the sink. If it
   * does, the parent links lead from the sink back to the source along a
   * simple path of positive-residual arcs through nodes reached in this
   * search (entries left over from earlier searches are never followed). If
   * it does not, the reached nodes hold the source, exclude the sink (unless
   * the sink is the source) and contain every positive-residual successor of
   * each of their members. Either way every reached node other than the
   * source has a reached parent joined to it by a positive-residual arc.
   * Because the queue is first in, first out, the path found is a shortest
   * augmenting path.
   */
  method Bfs(cap: array2<int>, flow: array2<int>, source: nat, sink: nat, parent: array<int>,
             ghost C: Matrix, ghost F: Matrix)
    returns (found: bool, ghost path: seq<nat>, ghost seen: set<nat>)
    requires Holds(cap, C) && Holds(flow, F) && |F| == |C| && parent.Length == |C|
    requires source < |C| && sink < |C|
    modifies parent
    ensures source in seen
    ensures Reached(C, F, source, parent[..], seen)
    ensures forall v :: 0 <= v < |C| && v !in seen ==> parent[v] == old(parent[v])
    ensures found ==> IsAugmentingPath(C, F, path, source, sink)
    ensures found ==> Chain(parent[..], path) && forall i :: 0 <= i < |path| ==> path[i] in seen
    ensures found ==> forall q :: IsAugmentingPath(C, F, q, source, sink) ==> |path| <= |q|
    ensures !found ==> ClosedUnderResidual(C, F, seen)
    ensures !found ==> (sink in seen <==> sink == source)
  {
    var n := cap.Length0;
    ghost var start := parent[..];
    var visited := new bool[n](_ => false);
    var queue: seq<nat> := [source];
    visited[source] := true;
    seen := {source};
    ghost var done: set<nat> := {};
    ghost var paths: map<nat, seq<nat>> := map[source := [source]];
    path := [];
    SearchStarts(C, F, source, sink, start, visited[..]);
    ShortestStarts(C, F, source);
    assert Waiting(queue, seen, done, paths);
    while queue != []
      invariant Searching(C, F, source, sink, start, visited[..], parent[..], queue, seen, done, paths)
      invariant Waiting(queue, seen, done, paths) && Shortest(C, F, source, seen, paths)
      decreases AllNodes(n) - done
    {
      var current := queue[0];
      FrontierOpens(queue, seen, done, paths);
      found, queue, path, seen, paths :=
        ScanNeighbours(cap, flow, source, sink, parent, visited, current, queue[1..], C, F, start, seen, done, paths);
      if found {
        return;
      }
      SearchScans(C, F, source, sink, start, visited[..], parent[..], queue, seen, done, paths, current);
      FrontierCloses(queue, seen, done, paths, current);
      done := done + {current};
    }
    found := false;
    SearchExhausted(C, F, source, sink, start, visited[..], parent[..], seen, done, paths);
  }

  /**
   * The bottleneck of the path the search found, read by walking the parent
   * links from the sink back to the source. The arc into the sink gives the
   * starting value; each further arc can only lower it.
   */
  method PathBottleneck(cap: array2<int>, flow: array2<int>, parent: array<int>, source: nat, sink: nat,
                        ghost C: Matrix, ghost F: Matrix, ghost path: seq<nat>) returns (pathFlow: int)
    requires Holds(cap, C) && Holds(flow, F) && |F| == |C| && parent.Length == |C|
    requires IsAugmentingPath(C, F, path, source, sink) && Chain(parent[..], path)
    ensures pathFlow == Bottleneck(C, F, path)
  {
    ghost var k := |path| - 2;
    assert path[k + 1] == sink && parent[sink] == path[k];
    var current := parent[sink];
    pathFlow := cap[current, sink] - flow[current, sink];
    assert path[k..] == [path[k], path[k + 1]];
    while current != source
      invariant 0 <= k < |path| - 1 && current == path[k]
      invariant pathFlow == Bottleneck(C, F, path[k..])
      decreases k
    {
      var previous := parent[current];
      assert previous == path[k - 1];
      pathFlow := Min(cap[previous, current] - flow[previous, current], pathFlow);
      assert path[k - 1..][1..] == path[k..];
      current := previous;
      k := k - 1;
    }
    assert path[0..] == path;
  }

  /** The cells of Push: only (u, v) and (v, u) change. */
  lemma PushCells(F: Matrix, u: nat, v: nat, d: int)
    requires IsSquare(F, |F|) && u < |F| && v < |F| && u != v
    ensures forall i, j :: 0 <= i < |F| && 0 <= j < |F| ==>
      Push(F, u, v, d)[i][j] == if i == u && j == v then F[i][j] + d else if i == v && j == u then F[i][j] - d else F[i][j]
  {
  }

  /** The two cell updates for one arc of the path: d more on (u, v), d less on (v, u). */
  method PushArc(flow: array2<int>, u: nat, v: nat, d: int, ghost G: Matrix)
    requires Holds(flow, G) && u < |G| && v < |G| && u != v
    modifies flow
    ensures Holds(flow, Push(G, u, v, d))
  {
    flow[u, v] := flow[u, v] + d;
    flow[v, u] := flow[v, u] - d;
    PushCells(G, u, v, d);
  }

  /**
   * Pushes pathFlow along the path the search found, walking the parent links
   * from the sink back to the source: each arc gains pathFlow and its reverse
   * loses it.
   */
  method AugmentPath(flow: array2<int>, parent: array<int>, source: nat, sink: nat, pathFlow: int,
                     ghost F: Matrix, ghost path: seq<nat>)
    requires Holds(flow, F) && parent.Length == |F|
    requires IsSimplePath(path, source, sink, |F|) && Chain(parent[..], path)
    modifies flow
    ensures Holds(flow, Augment(F, path, pathFlow))
  {
    ghost var k := |path| - 1;
    var current := sink;
    while current != source
      invariant 0 <= k < |path| && current == path[k]
      invariant Holds(flow, Augment(F, path[k..], pathFlow))
      decreases k
    {
      var previous := parent[current];
      assert previous == path[k - 1] && previous != current;
      PushArc(flow, previous, current, pathFlow, Augment(F, path[k..], pathFlow));
      assert path[k - 1..][1..] == path[k..];
      current := previous;
      k := k - 1;
    }
    assert path[k..] == path;
  }

  /**
   * One round of the main loop after a successful search: the bottleneck of
   * the path found is pushed along it. The flow stays a flow, its value grows
   * by the bottleneck, which is positive, and stays within the capacity out
   * of the source.
   */
  method AugmentAlongPath(cap: array2<int>, flow: array2<int>, parent: array<int>, source: nat, sink: nat,
                          ghost C: Matrix, ghost F: Matrix, ghost path: seq<nat>)
    returns (pathFlow: int, ghost F': Matrix)
    requires Holds(cap, C) && Holds(flow, F) && |F| == |C| && parent.Length == |C|
    requires IsFlow(C, F, source, sink) && source < |C|
    requires IsAugmentingPath(C, F, path, source, sink) && Chain(parent[..], path)
    modifies flow
    ensures pathFlow == Bottleneck(C, F, path) && F' == Augment(F, path, pathFlow)
    ensures Holds(flow, F') && IsFlow(C, F', source, sink)
    ensures pathFlow > 0 && NetOut(F', source) == NetOut(F, source) + pathFlow
    ensures NetOut(F', source) <= Sum(C[source])
  {
    pathFlow := PathBottleneck(cap, flow, parent, source, sink, C, F, path);
    BottleneckPositive(C, F, path, source, sink);
    AugmentPreservesFlow(C, F, path, source, sink, pathFlow);
    AugmentPath(flow, parent, source, sink, pathFlow, F, path);
    F' := Augment(F, path, pathFlow);
    ValueAtMostSourceCapacity(C, F', source);
  }

  /**
   * When the search fails, the flow is maximum: the reached set holds the
   * source, is closed under positive-residual arcs and excludes the sink
   * unless the sink is the source. Then no flow is worth more, no cut has
   * less capacity, and (for a sink other than the source) the reached set is
   * a cut of exactly the flow's value whose leaving arcs are all saturated.
   */
  lemma SearchFailedMaximum(C: Matrix, F: Matrix, S: set<nat>, s: nat, t: nat)
    requires IsFlow(C, F, s, t) && s < |C|
    requires s in S && (t in S <==> t == s) && ClosedUnderResidual(C, F, S)
    ensures NetOut(F, s) <= Sum(C[s])
    ensures s == t ==> NetOut(F, s) == 0
    ensures s != t ==> IsCut(S, s, t) && CutCapacity(C, S) == NetOut(F, s)
    ensures s != t ==> forall u, v :: 0 <= u < |C| && 0 <= v < |C| && u in S && v !in S ==> F[u][v] == C[u][v]
    ensures forall G :: IsFlow(C, G, s, t) ==> NetOut(G, s) <= NetOut(F, s)
    ensures forall T :: IsCut(T, s, t) ==> NetOut(F, s) <= CutCapacity(C, T)
  {
    ValueAtMostSourceCapacity(C, F, s);
    if s != t {
      MaxFlowMinCut(C, F, S, s, t);
      SaturatedCut(C, F, S, s, t);
    } else {
      SourceIsSinkValue(C, F, s);
      forall G | IsFlow(C, G, s, t) ensures NetOut(G, s) <= NetOut(F, s) {
        SourceIsSinkValue(C, G, s);
      }
    }
  }

  /** A fresh n×n flow matrix with every cell 0, the flow before the first augmentation. */
  method ZeroFlow(n: nat) returns (a: array2<int>)
    ensures fresh(a) && Holds(a, Zero(n))
  {
    a := new int[n, n]((i, j) => 0);
  }

  /**
   * Edmonds–Karp: starting from the all-zero flow, search for an augmenting
   * path, push its bottleneck along it and add the bottleneck to the total,
   * until the search fails. The result is the value of a maximum flow: the
   * final flow matrix is a flow of that value, no flow is worth more, no cut
   * separating source from sink has less capacity, and the nodes the last
   * search reached form a cut whose leaving arcs are all saturated.
   */
  method EdmondsKarp(cap: array2<int>, source: nat, sink: nat, ghost C: Matrix)
    returns (maxFlow: int, ghost flow: Matrix, ghost cut: set<nat>)
    requires Holds(cap, C) && NonNegative(C)
    requires source < |C| && sink < |C|
    ensures IsFlow(C, flow, source, sink) && NetOut(flow, source) == maxFlow
    ensures 0 <= maxFlow <= Sum(C[source])
    ensures source == sink ==> maxFlow == 0
    ensures source != sink ==> IsCut(cut, source, sink) && CutCapacity(C, cut) == maxFlow
    ensures source != sink ==> forall u, v :: 0 <= u < |C| && 0 <= v < |C| && u in cut && v !in cut ==>
      flow[u][v] == C[u][v]
    ensures forall G :: IsFlow(C, G, source, sink) ==> NetOut(G, source) <= maxFlow
    ensures forall S :: IsCut(S, source, sink) ==> maxFlow <= CutCapacity(C, S)
  {
    var n := cap.Length0;
    var flowMatrix := ZeroFlow(n);
    var parent := new int[n](_ => -1);
    maxFlow := 0;
    flow := Zero(n);
    ZeroIsFlow(C, source, sink);
    var found;
    ghost var path, seen;
    found, path, seen := Bfs(cap, flowMatrix, source, sink, parent, C, flow);
    while found
      invariant Holds(cap, C) && Holds(flowMatrix, flow)
      invariant IsFlow(C, flow, source, sink) && maxFlow == NetOut(flow, source)
      invariant 0 <= maxFlow && (source == sink ==> maxFlow == 0)
      invariant found ==> IsAugmentingPath(C, flow, path, source, sink) && Chain(parent[..], path)
      invariant !found ==> source in seen && (sink in seen <==> sink == source)
      invariant !found ==> ClosedUnderResidual(C, flow, seen)
      decreases Sum(C[source]) - maxFlow
    {
      var pathFlow;
      pathFlow, flow := AugmentAlongPath(cap, flowMatrix, parent, source, sink, C, flow, path);
      maxFlow := maxFlow + pathFlow;
      found, path, seen := Bfs(cap, flowMatrix, source, sink, parent, C, flow);
    }
    cut := seen;
    SearchFailedMaximum(C, flow, cut, source, sink);
  }
}
