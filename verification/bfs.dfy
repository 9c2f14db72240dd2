/**
 * Breadth-first search over an adjacency list (bfs.c). From a start vertex
 * it computes, for each vertex, the least number of edges on a walk from the
 * start (dist) and the vertex it was discovered from (prev), with NR in prev
 * for the vertices no walk reaches. The search is driven by a FIFO queue of
 * discovered vertices.
 *
 * The result is stated as BfsResult: the start is its own parent at
 * distance 0, every other reached vertex is one edge further than its
 * parent, and the edges out of reached vertices lead to reached vertices at
 * most one further. BfsShortestPaths shows that these make dist the length
 * of a shortest walk and the reached vertices exactly those a walk reaches.
 */
module Bfs {
  import opened Base
  import opened Paths
  import Graph
  import Queue

  /** The prev entry of a vertex that was not reached (SIZE_MAX). */
  const NR: nat := SIZE_MAX

  /** The arrays hold one entry per vertex, and no vertex is NR. */
  ghost predicate Sized(adj: seq<seq<nat>>, d: seq<nat>, pr: seq<nat>)
  {
    |d| == |adj| && |pr| == |adj| && |adj| <= NR
  }

  /** v's parent is a reached vertex that lists v and is one edge closer to the start. */
  ghost predicate Parent(adj: seq<seq<nat>>, d: seq<nat>, pr: seq<nat>, v: nat)
  {
    Sized(adj, d, pr) && v < |adj| && pr[v] < |adj| &&
    pr[pr[v]] != NR && v in adj[pr[v]] && d[v] == d[pr[v]] + 1
  }

  /** The first i neighbours of x are reached, at most one edge further than x. */
  ghost predicate ClosedUpTo(adj: seq<seq<nat>>, d: seq<nat>, pr: seq<nat>, x: nat, i: nat)
  {
    Sized(adj, d, pr) && x < |adj| &&
    forall j :: 0 <= j < i && j < |adj[x]| ==>
      adj[x][j] < |adj| && pr[adj[x][j]] != NR && d[adj[x][j]] <= d[x] + 1
  }

  /** All neighbours of x are reached, at most one edge further than x. */
  ghost predicate Closed(adj: seq<seq<nat>>, d: seq<nat>, pr: seq<nat>, x: nat)
  {
    x < |adj| && ClosedUpTo(adj, d, pr, x, |adj[x]|)
  }

  /** What bfs leaves in dist and prev for the search from start. */
  ghost predicate BfsResult(adj: seq<seq<nat>>, start: nat, d: seq<nat>, pr: seq<nat>)
  {
    Bounded(adj) && start < |adj| && Sized(adj, d, pr) &&
    pr[start] == start && d[start] == 0 &&
    (forall v :: 0 <= v < |adj| && pr[v] == NR ==> d[v] == 0) &&
    (forall v :: 0 <= v < |adj| && pr[v] != NR && v != start ==> Parent(adj, d, pr, v)) &&
    (forall x :: 0 <= x < |adj| && pr[x] != NR ==> Closed(adj, d, pr, x))
  }

  /** A reached vertex y, at most level + 1 away, closes x's list one entry further. */
  lemma ClosedStep(adj: seq<seq<nat>>, d: seq<nat>, pr: seq<nat>, x: nat, i: nat)
    requires ClosedUpTo(adj, d, pr, x, i) && i < |adj[x]|
    requires adj[x][i] < |adj| && pr[adj[x][i]] != NR && d[adj[x][i]] <= d[x] + 1
    ensures ClosedUpTo(adj, d, pr, x, i + 1)
  {
  }

  /** Reaching an unreached vertex y does not disturb what is known of a reached x's neighbours. */
  lemma ClosedFrame(adj: seq<seq<nat>>, d: seq<nat>, pr: seq<nat>, x: nat, i: nat, y: nat, dy: nat, w: nat)
    requires ClosedUpTo(adj, d, pr, x, i) && y < |adj| && pr[y] == NR && x != y && w != NR
    ensures ClosedUpTo(adj, d[y := dy], pr[y := w], x, i)
  {
    forall j | 0 <= j < i && j < |adj[x]|
      ensures adj[x][j] != y
    {
    }
  }

  /** What is known of vertex v during the search: its entries and whether it was popped or queued. */
  ghost predicate VertexOk(adj: seq<seq<nat>>, start: nat, d: seq<nat>, pr: seq<nat>,
                           done: seq<nat>, q: seq<nat>, v: int)
  {
    Sized(adj, d, pr) &&
    (0 <= v < |adj| ==>
       (pr[v] == NR ==> d[v] == 0) &&
       (pr[v] != NR && v != start ==> Parent(adj, d, pr, v)) &&
       (pr[v] != NR <==> v in done || v in q))
  }

  /** The k-th popped vertex lies at most level away and its neighbours up to the next one to look at are closed. */
  ghost predicate DoneOk(adj: seq<seq<nat>>, d: seq<nat>, pr: seq<nat>, done: seq<nat>, level: nat, i: nat, k: int)
  {
    Sized(adj, d, pr) &&
    (0 <= k < |done| ==>
       done[k] < |adj| && d[done[k]] <= level &&
       ClosedUpTo(adj, d, pr, done[k], if k == |done| - 1 then i else |adj[done[k]]|))
  }

  /** The k-th queued vertex lies level or level + 1 away, no nearer than those queued before it. */
  ghost predicate QueuedOk(adj: seq<seq<nat>>, d: seq<nat>, q: seq<nat>, level: nat, k: int)
  {
    |d| == |adj| &&
    (0 <= k < |q| ==>
       q[k] < |adj| && level <= d[q[k]] <= level + 1 &&
       forall l :: 0 <= l < k ==> q[l] < |adj| && d[q[l]] <= d[q[k]])
  }

  /**
   * The state of the search while the i-th neighbour of the last popped
   * vertex is next: done lists the popped vertices in order, q the queued
   * ones, and no vertex is in both or twice; the last popped vertex is
   * exactly `level` away.
   */
  ghost predicate BfsInv(adj: seq<seq<nat>>, start: nat, d: seq<nat>, pr: seq<nat>,
                         done: seq<nat>, q: seq<nat>, level: nat, i: nat)
  {
    Bounded(adj) && start < |adj| && Sized(adj, d, pr) &&
    pr[start] == start && d[start] == 0 &&
    Distinct(done + q) &&
    (done != [] ==> done[|done| - 1] < |adj| && d[done[|done| - 1]] == level) &&
    (forall v :: VertexOk(adj, start, d, pr, done, q, v)) &&
    (forall k :: DoneOk(adj, d, pr, done, level, i, k)) &&
    (forall k :: QueuedOk(adj, d, q, level, k))
  }

  /** The state between two pops: the last popped vertex has had all its neighbours looked at. */
  ghost predicate Between(adj: seq<seq<nat>>, start: nat, d: seq<nat>, pr: seq<nat>,
                          done: seq<nat>, q: seq<nat>, level: nat)
  {
    (done != [] ==> done[|done| - 1] < |adj|) &&
    BfsInv(adj, start, d, pr, done, q, level, if done == [] then 0 else |adj[done[|done| - 1]]|)
  }

  /** The popped and queued vertices are distinct vertices, so there are at most as many as vertices. */
  lemma BfsCount(adj: seq<seq<nat>>, start: nat, d: seq<nat>, pr: seq<nat>,
                 done: seq<nat>, q: seq<nat>, level: nat, i: nat)
    requires BfsInv(adj, start, d, pr, done, q, level, i)
    ensures |done| + |q| <= |adj|
  {
    forall k | 0 <= k < |done + q|
      ensures (done + q)[k] < |adj|
    {
      if k < |done| {
        assert DoneOk(adj, d, pr, done, level, i, k);
      } else {
        assert QueuedOk(adj, d, q, level, k - |done|);
      }
    }
    DistinctBelow(done + q, |adj|);
  }

  /** After the initialisation only the start is reached, and it is queued. */
  lemma BfsInit(adj: seq<seq<nat>>, start: nat, d: seq<nat>, pr: seq<nat>)
    requires Bounded(adj) && start < |adj| && Sized(adj, d, pr)
    requires forall v :: 0 <= v < |adj| ==> d[v] == 0
    requires pr[start] == start && forall v :: 0 <= v < |adj| && v != start ==> pr[v] == NR
    ensures Between(adj, start, d, pr, [], [start], 0)
  {
    assert [] + [start] == [start];
    forall v
      ensures VertexOk(adj, start, d, pr, [], [start], v)
    {
    }
    forall k
      ensures QueuedOk(adj, d, [start], 0, k)
    {
    }
  }

  /** Popping the front of the queue starts the scan of its neighbours, at its distance. */
  lemma BfsPop(adj: seq<seq<nat>>, start: nat, d: seq<nat>, pr: seq<nat>,
               done: seq<nat>, q: seq<nat>, level: nat)
    requires Between(adj, start, d, pr, done, q, level) && q != []
    ensures q[0] < |adj| && BfsInv(adj, start, d, pr, done + [q[0]], q[1..], d[q[0]], 0)
    ensures |done| + |q| <= |adj|
  {
    var i := if done == [] then 0 else |adj[done[|done| - 1]]|;
    BfsCount(adj, start, d, pr, done, q, level, i);
    var u, q', done' := q[0], q[1..], done + [q[0]];
    assert QueuedOk(adj, d, q, level, 0);
    var level' := d[u];
    assert done' + q' == done + q;
    forall v
      ensures VertexOk(adj, start, d, pr, done', q', v)
    {
      assert VertexOk(adj, start, d, pr, done, q, v);
      assert v in q <==> v == u || v in q';
    }
    forall k
      ensures DoneOk(adj, d, pr, done', level', 0, k)
    {
      if 0 <= k < |done| {
        assert DoneOk(adj, d, pr, done, level, i, k);
        assert done'[k] == done[k];
      }
    }
    forall k
      ensures QueuedOk(adj, d, q', level', k)
    {
      if 0 <= k < |q'| {
        assert QueuedOk(adj, d, q, level, k + 1);
        assert q'[k] == q[k + 1];
        forall l | 0 <= l < k
          ensures q'[l] < |adj| && d[q'[l]] <= d[q'[k]]
        {
          assert q'[l] == q[l + 1];
        }
      }
    }
  }

  /** A neighbour that is already reached changes nothing. */
  lemma BfsSeen(adj: seq<seq<nat>>, start: nat, d: seq<nat>, pr: seq<nat>,
                done: seq<nat>, q: seq<nat>, level: nat, i: nat)
    requires BfsInv(adj, start, d, pr, done, q, level, i) && done != []
    requires i < |adj[done[|done| - 1]]| && pr[adj[done[|done| - 1]][i]] != NR
    ensures BfsInv(adj, start, d, pr, done, q, level, i + 1)
  {
    var last := |done| - 1;
    var u := done[last];
    var y := adj[u][i];
    assert y < |adj|;
    assert VertexOk(adj, start, d, pr, done, q, y);
    if y in done {
      var k :| 0 <= k < |done| && done[k] == y;
      assert DoneOk(adj, d, pr, done, level, i, k);
    } else {
      var k :| 0 <= k < |q| && q[k] == y;
      assert QueuedOk(adj, d, q, level, k);
    }
    assert DoneOk(adj, d, pr, done, level, i, last);
    ClosedStep(adj, d, pr, u, i);
    var i' := i + 1;
    forall k
      ensures DoneOk(adj, d, pr, done, level, i', k)
    {
      assert DoneOk(adj, d, pr, done, level, i, k);
    }
  }

  /** An unreached neighbour y gets distance level + 1 and parent u, and joins the queue. */
  lemma BfsDiscover(adj: seq<seq<nat>>, start: nat, d: seq<nat>, pr: seq<nat>,
                    done: seq<nat>, q: seq<nat>, level: nat, i: nat)
    requires BfsInv(adj, start, d, pr, done, q, level, i) && done != []
    requires i < |adj[done[|done| - 1]]| && pr[adj[done[|done| - 1]][i]] == NR
    ensures var u := done[|done| - 1];
            var y := adj[u][i];
            BfsInv(adj, start, d[y := (level + 1) as nat], pr[y := u], done, q + [y], level, i + 1) &&
            |done| + |q| + 1 <= |adj| && d[u] == level && y < |adj|
  {
    var last := |done| - 1;
    var u := done[last];
    var y := adj[u][i];
    assert y < |adj|;
    var d', pr', q' := d[y := (level + 1) as nat], pr[y := u], q + [y];
    assert VertexOk(adj, start, d, pr, done, q, y);
    assert VertexOk(adj, start, d, pr, done, q, u);
    assert y !in done && y !in q && y != u && y != start;
    assert done + q' == (done + q) + [y];
    forall v
      ensures VertexOk(adj, start, d', pr', done, q', v)
    {
      assert VertexOk(adj, start, d, pr, done, q, v);
      if 0 <= v < |adj| && v != y && pr[v] != NR && v != start {
        assert Parent(adj, d, pr, v);
        assert VertexOk(adj, start, d, pr, done, q, pr[v]);
      }
    }
    assert DoneOk(adj, d, pr, done, level, i, last);
    ClosedFrame(adj, d, pr, u, i, y, level + 1, u);
    ClosedStep(adj, d', pr', u, i);
    var i' := i + 1;
    forall k
      ensures DoneOk(adj, d', pr', done, level, i', k)
    {
      assert DoneOk(adj, d, pr, done, level, i, k);
      if 0 <= k < last {
        ClosedFrame(adj, d, pr, done[k], |adj[done[k]]|, y, level + 1, u);
      }
    }
    forall k
      ensures QueuedOk(adj, d', q', level, k)
    {
      if 0 <= k < |q| {
        assert QueuedOk(adj, d, q, level, k);
        assert q'[k] == q[k];
        forall l | 0 <= l < k
          ensures q'[l] < |adj| && d'[q'[l]] <= d'[q'[k]]
        {
          assert q'[l] == q[l];
        }
      } else if k == |q| {
        forall l | 0 <= l < k
          ensures q'[l] < |adj| && d'[q'[l]] <= d'[q'[k]]
        {
          assert q'[l] == q[l];
          assert QueuedOk(adj, d, q, level, l);
        }
      }
    }
    BfsCount(adj, start, d', pr', done, q', level, i');
  }

  /** When the queue is empty the invariant is the result. */
  lemma BfsFinish(adj: seq<seq<nat>>, start: nat, d: seq<nat>, pr: seq<nat>, done: seq<nat>, level: nat)
    requires Between(adj, start, d, pr, done, [], level)
    ensures BfsResult(adj, start, d, pr)
    ensures Distinct(done) && forall v :: 0 <= v < |adj| ==> (pr[v] != NR <==> v in done)
  {
    assert done + [] == done;
    var i := if done == [] then 0 else |adj[done[|done| - 1]]|;
    forall v | 0 <= v < |adj|
      ensures (pr[v] == NR ==> d[v] == 0) && (pr[v] != NR && v != start ==> Parent(adj, d, pr, v))
    {
      assert VertexOk(adj, start, d, pr, done, [], v);
    }
    forall v | 0 <= v < |adj|
      ensures pr[v] != NR <==> v in done
    {
      assert VertexOk(adj, start, d, pr, done, [], v);
    }
    forall x | 0 <= x < |adj| && pr[x] != NR
      ensures Closed(adj, d, pr, x)
    {
      assert VertexOk(adj, start, d, pr, done, [], x);
      var k :| 0 <= k < |done| && done[k] == x;
      assert DoneOk(adj, d, pr, done, level, i, k);
    }
  }

  /** Following parents back from a reached vertex gives a walk from the start of dist steps. */
  lemma {:induction false} BfsWitness(adj: seq<seq<nat>>, start: nat, d: seq<nat>, pr: seq<nat>, v: nat)
    requires BfsResult(adj, start, d, pr) && v < |adj| && pr[v] != NR
    ensures exists p, ix :: PathTo(adj, start, v, p, ix) && |ix| == d[v]
    decreases d[v]
  {
    if v == start {
      PathStart(adj, start);
    } else {
      assert Parent(adj, d, pr, v);
      var u := pr[v];
      BfsWitness(adj, start, d, pr, u);
      var p, ix :| PathTo(adj, start, u, p, ix) && |ix| == d[u];
      var i :| 0 <= i < |adj[u]| && adj[u][i] == v;
      PathExtend(adj, start, u, p, ix, i);
    }
  }

  /** Every walk from the start ends at a reached vertex whose dist is at most the walk's length. */
  lemma {:induction false} BfsLowerBound(adj: seq<seq<nat>>, start: nat, d: seq<nat>, pr: seq<nat>,
                                         v: nat, p: seq<nat>, ix: seq<nat>)
    requires BfsResult(adj, start, d, pr) && PathTo(adj, start, v, p, ix)
    ensures v < |adj| && pr[v] != NR && d[v] <= |ix|
    decreases |ix|
  {
    if ix != [] {
      var m := |ix| - 1;
      PathLast(adj, start, v, p, ix);
      var u := p[m];
      BfsLowerBound(adj, start, d, pr, u, p[..m + 1], ix[..m]);
      assert Closed(adj, d, pr, u);
      assert adj[u][ix[m]] == v;
    }
  }

  /**
   * bfs computes shortest walks: a vertex is reached exactly when some walk
   * from the start leads to it, no walk is shorter than its dist, and a walk
   * of exactly dist steps exists.
   */
  lemma BfsShortestPaths(adj: seq<seq<nat>>, start: nat, d: seq<nat>, pr: seq<nat>)
    requires BfsResult(adj, start, d, pr)
    ensures forall v :: 0 <= v < |adj| ==> (pr[v] != NR <==> exists p, ix :: PathTo(adj, start, v, p, ix))
    ensures forall v: nat, p, ix :: PathTo(adj, start, v, p, ix) ==> v < |adj| && d[v] <= |ix|
    ensures forall v :: 0 <= v < |adj| && pr[v] != NR ==>
              exists p, ix :: PathTo(adj, start, v, p, ix) && |ix| == d[v]
  {
    forall v: nat, p, ix | PathTo(adj, start, v, p, ix)
      ensures v < |adj| && pr[v] != NR && d[v] <= |ix|
    {
      BfsLowerBound(adj, start, d, pr, v, p, ix);
    }
    forall v | 0 <= v < |adj| && pr[v] != NR
      ensures exists p, ix :: PathTo(adj, start, v, p, ix) && |ix| == d[v]
    {
      BfsWitness(adj, start, d, pr, v);
    }
  }

  /** When the start lists every other vertex, each of them is one edge away with the start as parent. */
  lemma BfsComplete(adj: seq<seq<nat>>, start: nat, d: seq<nat>, pr: seq<nat>)
    requires BfsResult(adj, start, d, pr)
    requires forall v :: 0 <= v < |adj| && v != start ==> v in adj[start]
    ensures forall v :: 0 <= v < |adj| && v != start ==> d[v] == 1 && pr[v] == start
  {
    forall v | 0 <= v < |adj| && v != start
      ensures d[v] == 1 && pr[v] == start
    {
      assert v in adj[start];
      var j :| 0 <= j < |adj[start]| && adj[start][j] == v;
      assert Closed(adj, d, pr, start);
      assert Parent(adj, d, pr, v);
    }
  }

  /**
   * bfs: sets dist and prev for the search from start, using a queue that
   * starts with one slot and may grow to SIZE_MAX slots. The ghost `order`
   * is the sequence of enqueued vertices: each reached vertex is enqueued
   * exactly once.
   */
  method Bfs<W>(a: Graph.AdjLst<W>, start: nat, dist: array<nat>, prev: array<nat>) returns (ghost order: seq<nat>)
    requires a.Valid() && start < a.numVts <= SIZE_MAX
    requires dist.Length == a.numVts && prev.Length == a.numVts && dist != prev
    modifies dist, prev
    ensures BfsResult(a.vts[..], start, dist[..], prev[..])
    ensures Distinct(order) && forall v :: 0 <= v < a.numVts ==> (prev[v] != NR <==> v in order)
  {
    ghost var adj := a.vts[..];
    a.ValidBounded();
    for v := 0 to a.numVts
      invariant forall x :: 0 <= x < v ==> dist[x] == 0 && prev[x] == NR
    {
      dist[v] := 0;
      prev[v] := NR;
    }
    var q := new Queue.Queue<nat>(1, SIZE_MAX);
    prev[start] := start;
    var exited := q.Push(start);
    BfsInit(adj, start, dist[..], prev[..]);
    order := Drain(a, dist, prev, q, adj, start);
  }

  /** The main loop of bfs: pops vertices until the queue is empty. */
  method Drain<W>(a: Graph.AdjLst<W>, dist: array<nat>, prev: array<nat>, q: Queue.Queue<nat>,
                  ghost adj: seq<seq<nat>>, ghost start: nat) returns (ghost done: seq<nat>)
    requires a.vts[..] == adj && dist.Length == |adj| && prev.Length == |adj| && dist != prev
    requires q.Valid() && q.countMax == SIZE_MAX && q.numPoppedElts == 0
    requires dist !in q.Repr && prev !in q.Repr && a.vts !in q.Repr
    requires Between(adj, start, dist[..], prev[..], [], q.Elements(), 0)
    modifies dist, prev, q, q.elts
    ensures BfsResult(adj, start, dist[..], prev[..])
    ensures Distinct(done) && forall v :: 0 <= v < |adj| ==> (prev[v] != NR <==> v in done)
  {
    done := [];
    ghost var level: nat := 0;
    while q.numElts > 0
      invariant q.Valid() && q.countMax == SIZE_MAX && fresh(q.Repr - old(q.Repr))
      invariant dist !in q.Repr && prev !in q.Repr && a.vts !in q.Repr
      invariant q.numPoppedElts <= |done|
      invariant Between(adj, start, dist[..], prev[..], done, q.Elements(), level)
      decreases |adj| - |done|
    {
      ghost var rest, d0, p0 := q.Elements(), dist[..], prev[..];
      BfsPop(adj, start, d0, p0, done, rest, level);
      var u := q.Pop(0);
      assert dist[..] == d0 && prev[..] == p0;
      assert u == rest[0] && q.Elements() == rest[1..];
      done := done + [u];
      level := dist[u];
      Visit(a, u, dist, prev, q, adj, start, done, level);
    }
    BfsFinish(adj, start, dist[..], prev[..], done, level);
    assert done + [] == done;
  }

  /** The inner loop of bfs: looks at each neighbour of u, the last popped vertex, and queues the unreached ones. */
  method Visit<W>(a: Graph.AdjLst<W>, u: nat, dist: array<nat>, prev: array<nat>, q: Queue.Queue<nat>,
                  ghost adj: seq<seq<nat>>, ghost start: nat, ghost done: seq<nat>, ghost level: nat)
    requires a.vts[..] == adj && dist.Length == |adj| && prev.Length == |adj| && dist != prev
    requires q.Valid() && q.countMax == SIZE_MAX && dist !in q.Repr && prev !in q.Repr
    requires done != [] && u == done[|done| - 1] && q.numPoppedElts <= |done|
    requires BfsInv(adj, start, dist[..], prev[..], done, q.Elements(), level, 0)
    modifies dist, prev, q, q.elts
    ensures q.Valid() && fresh(q.Repr - old(q.Repr)) && q.countMax == SIZE_MAX && q.numPoppedElts <= |done|
    ensures Between(adj, start, dist[..], prev[..], done, q.Elements(), level)
  {
    var vts := a.vts[u];
    for i := 0 to |vts|
      invariant q.Valid() && fresh(q.Repr - old(q.Repr)) && q.countMax == SIZE_MAX
      invariant dist !in q.Repr && prev !in q.Repr
      invariant q.numPoppedElts <= |done|
      invariant BfsInv(adj, start, dist[..], prev[..], done, q.Elements(), level, i)
    {
      Look(u, vts[i], dist, prev, q, adj, start, done, level, i);
    }
  }

  /** One step of the inner loop: the i-th neighbour y of u is queued, with its distance and parent, if unreached. */
  method Look(u: nat, y: nat, dist: array<nat>, prev: array<nat>, q: Queue.Queue<nat>,
              ghost adj: seq<seq<nat>>, ghost start: nat, ghost done: seq<nat>, ghost level: nat, ghost i: nat)
    requires dist.Length == |adj| && prev.Length == |adj| && dist != prev
    requires q.Valid() && q.countMax == SIZE_MAX && dist !in q.Repr && prev !in q.Repr
    requires done != [] && u == done[|done| - 1] && q.numPoppedElts <= |done|
    requires BfsInv(adj, start, dist[..], prev[..], done, q.Elements(), level, i)
    requires i < |adj[u]| && y == adj[u][i]
    modifies dist, prev, q, q.elts
    ensures q.Valid() && fresh(q.Repr - old(q.Repr)) && q.countMax == SIZE_MAX && q.numPoppedElts <= |done|
    ensures dist !in q.Repr && prev !in q.Repr
    ensures BfsInv(adj, start, dist[..], prev[..], done, q.Elements(), level, i + 1)
  {
    ghost var d0, p0, q0 := dist[..], prev[..], q.Elements();
    if prev[y] == NR {
      BfsDiscover(adj, start, d0, p0, done, q0, level, i);
      dist[y] := dist[u] + 1;
      prev[y] := u;
      var exited := q.Push(y);
      assert !exited;
      assert dist[..] == d0[y := (level + 1) as nat] && prev[..] == p0[y := u] && q.Elements() == q0 + [y];
    } else {
      BfsSeen(adj, start, d0, p0, done, q0, level, i);
    }
  }
}
