/**
 * Dijkstra's algorithm over a weighted adjacency list (dijkstra.c). From a
 * start vertex it computes, for each vertex, the least total weight of a
 * walk from the start (dist) and the vertex whose edge last lowered it
 * (prev), with NR in prev for the vertices no walk reaches. The search is
 * driven by an indexed min-heap of reached vertices keyed by their current
 * distance; a reached vertex whose distance drops is updated in place.
 *
 * Weights are naturals added with + and compared with <. The result is
 * stated as DijkstraResult: the reached vertices form a tree grown in the
 * order the heap released them, every tree edge carries a vertex's distance
 * exactly, and no edge out of a reached vertex could shorten a distance.
 * DijkstraShortestPaths shows that these make dist the least weight of a
 * walk; DijkstraUniform relates the result to breadth-first search when
 * every edge weighs the same.
 *
 * The file also holds ht_default, the array-backed table that dijkstra
 * hands to the heap when the caller gives none; it is modelled on its own
 * as HtDefault and proved to implement a map from vertices to slots.
 */
module Dijkstra {
  import opened Base
  import opened Paths
  import Graph
  import Heap
  import Bfs

  /** The prev entry of a vertex that was not reached (SIZE_MAX). */
  const NR: nat := SIZE_MAX

  /** One weight per list entry, one array entry per vertex, and no vertex is NR. */
  ghost predicate Sized(adj: seq<seq<nat>>, wts: seq<seq<nat>>, d: seq<nat>, pr: seq<nat>)
  {
    Weighted(adj, wts) && |d| == |adj| && |pr| == |adj| && |adj| <= NR
  }

  /** v's parent lists v at position via[v], and v's distance is the parent's plus that entry's weight. */
  ghost predicate Parent(adj: seq<seq<nat>>, wts: seq<seq<nat>>, d: seq<nat>, pr: seq<nat>, via: seq<nat>, v: nat)
  {
    Sized(adj, wts, d, pr) && |via| == |adj| && v < |adj| && pr[v] < |adj| &&
    via[v] < |adj[pr[v]]| && adj[pr[v]][via[v]] == v && d[v] == d[pr[v]] + wts[pr[v]][via[v]]
  }

  /** The first i entries of x's list lead to reached vertices that they could not bring closer. */
  ghost predicate ClosedUpTo(adj: seq<seq<nat>>, wts: seq<seq<nat>>, d: seq<nat>, pr: seq<nat>, x: nat, i: nat)
  {
    Sized(adj, wts, d, pr) && x < |adj| &&
    forall j :: 0 <= j < i && j < |adj[x]| ==>
      adj[x][j] < |adj| && pr[adj[x][j]] != NR && d[adj[x][j]] <= d[x] + wts[x][j]
  }

  /** No entry of x's list could bring its vertex closer. */
  ghost predicate Closed(adj: seq<seq<nat>>, wts: seq<seq<nat>>, d: seq<nat>, pr: seq<nat>, x: nat)
  {
    x < |adj| && ClosedUpTo(adj, wts, d, pr, x, |adj[x]|)
  }

  /**
   * The k-th vertex of order is the start or was reached from an earlier
   * one, by an entry whose weight makes up the difference of distances.
   */
  ghost predicate TreeOk(adj: seq<seq<nat>>, wts: seq<seq<nat>>, start: nat, d: seq<nat>, pr: seq<nat>,
                         order: seq<nat>, k: int)
  {
    Sized(adj, wts, d, pr) &&
    (0 <= k < |order| ==>
      order[k] < |adj| &&
      (order[k] != start ==>
        pr[order[k]] in order[..k] && pr[order[k]] < |adj| &&
        exists i :: 0 <= i < |adj[pr[order[k]]]| && adj[pr[order[k]]][i] == order[k] &&
                    d[order[k]] == d[pr[order[k]]] + wts[pr[order[k]]][i]))
  }

  /** What dijkstra leaves in dist and prev; order lists the reached vertices as the heap released them. */
  ghost predicate DijkstraResult(adj: seq<seq<nat>>, wts: seq<seq<nat>>, start: nat, d: seq<nat>, pr: seq<nat>,
                                 order: seq<nat>)
  {
    Bounded(adj) && start < |adj| && Sized(adj, wts, d, pr) &&
    pr[start] == start && d[start] == 0 &&
    Distinct(order) &&
    (forall v :: 0 <= v < |adj| ==> (pr[v] != NR <==> v in order)) &&
    (forall v :: 0 <= v < |adj| && pr[v] == NR ==> d[v] == 0) &&
    (forall k :: TreeOk(adj, wts, start, d, pr, order, k)) &&
    (forall x :: 0 <= x < |adj| && pr[x] != NR ==> Closed(adj, wts, d, pr, x))
  }

  /** An entry leading to a reached vertex that it cannot bring closer closes x's list one entry further. */
  lemma ClosedStep(adj: seq<seq<nat>>, wts: seq<seq<nat>>, d: seq<nat>, pr: seq<nat>, x: nat, i: nat)
    requires ClosedUpTo(adj, wts, d, pr, x, i) && i < |adj[x]|
    requires adj[x][i] < |adj| && pr[adj[x][i]] != NR && d[adj[x][i]] <= d[x] + wts[x][i]
    ensures ClosedUpTo(adj, wts, d, pr, x, i + 1)
  {
  }

  /**
   * Giving y another vertex w as parent and a distance dy, no greater than
   * its old one when y was reached, keeps x's list closed as far as it was.
   */
  lemma ClosedFrame(adj: seq<seq<nat>>, wts: seq<seq<nat>>, d: seq<nat>, pr: seq<nat>, x: nat, e: nat,
                    y: nat, dy: nat, w: nat)
    requires ClosedUpTo(adj, wts, d, pr, x, e) && y < |adj| && x != y && w != NR
    requires pr[y] != NR ==> dy <= d[y]
    ensures ClosedUpTo(adj, wts, d[y := dy], pr[y := w], x, e)
  {
  }

  /**
   * What is known of vertex v during the search: an unreached vertex has
   * distance 0; a reached one is either in the heap, at its distance and no
   * nearer than the last popped vertex, or popped, no further than it; a
   * reached vertex other than the start hangs from a popped parent.
   */
  ghost predicate VertexOk(adj: seq<seq<nat>>, wts: seq<seq<nat>>, start: nat, d: seq<nat>, pr: seq<nat>,
                           via: seq<nat>, m: map<nat, int>, done: seq<nat>, level: nat, v: int)
  {
    Sized(adj, wts, d, pr) && |via| == |adj| &&
    (0 <= v < |adj| ==>
      (pr[v] == NR ==> d[v] == 0 && v !in m && v !in done) &&
      (pr[v] != NR ==> (v in m <==> v !in done)) &&
      (v in m ==> m[v] == d[v] && level <= d[v]) &&
      (v in done ==> d[v] <= level) &&
      (pr[v] != NR && v != start ==> Parent(adj, wts, d, pr, via, v) && pr[v] in done))
  }

  /** The k-th popped vertex hangs from an earlier one, and its list is closed up to the next entry to look at. */
  ghost predicate DoneOk(adj: seq<seq<nat>>, wts: seq<seq<nat>>, start: nat, d: seq<nat>, pr: seq<nat>,
                         done: seq<nat>, i: nat, k: int)
  {
    Sized(adj, wts, d, pr) &&
    (0 <= k < |done| ==>
      done[k] < |adj| &&
      (done[k] != start ==> pr[done[k]] in done[..k]) &&
      ClosedUpTo(adj, wts, d, pr, done[k], if k == |done| - 1 then i else |adj[done[k]]|))
  }

  /**
   * The state of the search while the i-th entry of the last popped vertex
   * is next: m is the heap's map from vertices to priorities, done lists the
   * popped vertices in order, and level is the distance of the last one.
   */
  ghost predicate DijkstraInv(adj: seq<seq<nat>>, wts: seq<seq<nat>>, start: nat, d: seq<nat>, pr: seq<nat>,
                              via: seq<nat>, m: map<nat, int>, done: seq<nat>, level: nat, i: nat)
  {
    Bounded(adj) && start < |adj| && Sized(adj, wts, d, pr) && |via| == |adj| &&
    pr[start] == start && d[start] == 0 &&
    Distinct(done) &&
    (done != [] ==> done[|done| - 1] < |adj| && d[done[|done| - 1]] == level) &&
    (forall v :: v in m ==> v < |adj|) &&
    (forall v :: VertexOk(adj, wts, start, d, pr, via, m, done, level, v)) &&
    (forall k :: DoneOk(adj, wts, start, d, pr, done, i, k))
  }

  /** The state between two pops: the last popped vertex has had all its entries looked at. */
  ghost predicate Between(adj: seq<seq<nat>>, wts: seq<seq<nat>>, start: nat, d: seq<nat>, pr: seq<nat>,
                          via: seq<nat>, m: map<nat, int>, done: seq<nat>, level: nat)
  {
    (done != [] ==> done[|done| - 1] < |adj|) &&
    DijkstraInv(adj, wts, start, d, pr, via, m, done, level, if done == [] then 0 else |adj[done[|done| - 1]]|)
  }

  /** After the initialisation only the start is reached, and it is in the heap at distance 0. */
  lemma DjInit(adj: seq<seq<nat>>, wts: seq<seq<nat>>, start: nat, d: seq<nat>, pr: seq<nat>, via: seq<nat>)
    requires Bounded(adj) && start < |adj| && Sized(adj, wts, d, pr) && |via| == |adj|
    requires forall v :: 0 <= v < |adj| ==> d[v] == 0
    requires pr[start] == start && forall v :: 0 <= v < |adj| && v != start ==> pr[v] == NR
    ensures Between(adj, wts, start, d, pr, via, map[start := 0], [], 0)
  {
    forall v
      ensures VertexOk(adj, wts, start, d, pr, via, map[start := 0], [], 0, v)
    {
    }
  }

  /**
   * Popping u, of least priority in the heap, starts the scan of its list
   * at its distance; the popped vertices stay distinct vertices.
   */
  lemma DjPop(adj: seq<seq<nat>>, wts: seq<seq<nat>>, start: nat, d: seq<nat>, pr: seq<nat>,
              via: seq<nat>, m: map<nat, int>, done: seq<nat>, level: nat, u: nat)
    requires Between(adj, wts, start, d, pr, via, m, done, level)
    requires u in m && forall e :: e in m ==> m[u] <= m[e]
    ensures u < |adj| && m[u] == d[u] && level <= d[u] && |done| + 1 <= |adj|
    ensures DijkstraInv(adj, wts, start, d, pr, via, m - {u}, done + [u], d[u], 0)
  {
    var i := if done == [] then 0 else |adj[done[|done| - 1]]|;
    assert VertexOk(adj, wts, start, d, pr, via, m, done, level, u);
    var m', done', level' := m - {u}, done + [u], d[u];
    assert u !in done;
    forall k | 0 <= k < |done'|
      ensures done'[k] < |adj|
    {
      if k < |done| {
        assert DoneOk(adj, wts, start, d, pr, done, i, k);
      }
    }
    DistinctBelow(done', |adj|);
    forall v
      ensures VertexOk(adj, wts, start, d, pr, via, m', done', level', v)
    {
      assert VertexOk(adj, wts, start, d, pr, via, m, done, level, v);
      if 0 <= v < |adj| && v != u {
        assert v in done' <==> v in done;
        if v in m {
          assert m[u] <= m[v];
        }
      }
    }
    forall k
      ensures DoneOk(adj, wts, start, d, pr, done', 0, k)
    {
      if 0 <= k < |done| {
        assert DoneOk(adj, wts, start, d, pr, done, i, k);
        assert done'[..k] == done[..k];
      } else if k == |done| {
        assert done'[..k] == done;
      }
    }
  }

  /** An entry leading to a reached vertex that it cannot bring closer changes nothing. */
  lemma DjSeen(adj: seq<seq<nat>>, wts: seq<seq<nat>>, start: nat, d: seq<nat>, pr: seq<nat>,
               via: seq<nat>, m: map<nat, int>, done: seq<nat>, level: nat, u: nat, i: nat)
    requires DijkstraInv(adj, wts, start, d, pr, via, m, done, level, i)
    requires done != [] && u == done[|done| - 1] && i < |adj[u]|
    requires pr[adj[u][i]] != NR && d[adj[u][i]] <= level + wts[u][i]
    ensures DijkstraInv(adj, wts, start, d, pr, via, m, done, level, i + 1)
  {
    var last := |done| - 1;
    assert DoneOk(adj, wts, start, d, pr, done, i, last);
    var i' := i + 1;
    forall k
      ensures DoneOk(adj, wts, start, d, pr, done, i', k)
    {
      assert DoneOk(adj, wts, start, d, pr, done, i, k);
    }
  }

  /** A vertex not in the heap leaves room for it: the heap holds vertices only. */
  lemma HeapRoom(adj: seq<seq<nat>>, m: map<nat, int>, y: nat)
    requires (forall v :: v in m ==> v < |adj|) && y < |adj| && y !in m
    ensures |m| + 1 <= |adj|
  {
    var m' := m[y := 0];
    assert m'.Keys == m.Keys + {y};
    BelowSize(m'.Keys, |adj|);
  }

  /**
   * Reaching y, an unreached vertex at position i of u's list: y gets
   * distance level + weight and parent u, and enters the heap; the heap then
   * holds fewer vertices than there are.
   */
  lemma DjDiscover(adj: seq<seq<nat>>, wts: seq<seq<nat>>, start: nat, d: seq<nat>, pr: seq<nat>,
                   via: seq<nat>, m: map<nat, int>, done: seq<nat>, level: nat, u: nat, i: nat, y: nat, s: nat)
    requires DijkstraInv(adj, wts, start, d, pr, via, m, done, level, i)
    requires done != [] && u == done[|done| - 1] && i < |adj[u]| && y == adj[u][i] && pr[y] == NR
    requires s == level + wts[u][i]
    ensures y < |adj| && y !in m && |m| + 1 <= |adj|
    ensures DijkstraInv(adj, wts, start, d[y := s], pr[y := u], via[y := i], m[y := s], done, level, i + 1)
  {
    var last := |done| - 1;
    var d', pr', via', m' := d[y := s], pr[y := u], via[y := i], m[y := s];
    assert VertexOk(adj, wts, start, d, pr, via, m, done, level, y);
    assert VertexOk(adj, wts, start, d, pr, via, m, done, level, u);
    assert y != u && y != start;
    HeapRoom(adj, m, y);
    forall v
      ensures VertexOk(adj, wts, start, d', pr', via', m', done, level, v)
    {
      assert VertexOk(adj, wts, start, d, pr, via, m, done, level, v);
      if 0 <= v < |adj| && v != y && pr[v] != NR && v != start {
        assert Parent(adj, wts, d, pr, via, v);
        assert pr[v] != y;
      }
    }
    var i' := i + 1;
    forall k
      ensures DoneOk(adj, wts, start, d', pr', done, i', k)
    {
      assert DoneOk(adj, wts, start, d, pr, done, i, k);
      if 0 <= k < |done| {
        var x := done[k];
        ClosedFrame(adj, wts, d, pr, x, if k == last then i else |adj[x]|, y, s, u);
        if k == last {
          ClosedStep(adj, wts, d', pr', u, i);
        }
      }
    }
  }

  /**
   * Lowering the distance of y, a reached vertex at position i of u's list:
   * y is still in the heap, and takes the new distance and parent u.
   */
  lemma DjRelax(adj: seq<seq<nat>>, wts: seq<seq<nat>>, start: nat, d: seq<nat>, pr: seq<nat>,
                via: seq<nat>, m: map<nat, int>, done: seq<nat>, level: nat, u: nat, i: nat, y: nat, s: nat)
    requires DijkstraInv(adj, wts, start, d, pr, via, m, done, level, i)
    requires done != [] && u == done[|done| - 1] && i < |adj[u]| && y == adj[u][i]
    requires s == level + wts[u][i] && pr[y] != NR && d[y] > s
    ensures y < |adj| && y in m
    ensures DijkstraInv(adj, wts, start, d[y := s], pr[y := u], via[y := i], m[y := s], done, level, i + 1)
  {
    var last := |done| - 1;
    var d', pr', via', m' := d[y := s], pr[y := u], via[y := i], m[y := s];
    assert VertexOk(adj, wts, start, d, pr, via, m, done, level, y);
    assert VertexOk(adj, wts, start, d, pr, via, m, done, level, u);
    assert y !in done && y != u && y != start;
    forall v
      ensures VertexOk(adj, wts, start, d', pr', via', m', done, level, v)
    {
      assert VertexOk(adj, wts, start, d, pr, via, m, done, level, v);
      if 0 <= v < |adj| && v != y && pr[v] != NR && v != start {
        assert Parent(adj, wts, d, pr, via, v);
        assert pr[v] != y;
      }
    }
    var i' := i + 1;
    forall k
      ensures DoneOk(adj, wts, start, d', pr', done, i', k)
    {
      assert DoneOk(adj, wts, start, d, pr, done, i, k);
      if 0 <= k < |done| {
        var x := done[k];
        ClosedFrame(adj, wts, d, pr, x, if k == last then i else |adj[x]|, y, s, u);
        if k == last {
          ClosedStep(adj, wts, d', pr', u, i);
        }
      }
    }
  }

  /** When the heap is empty the invariant is the result. */
  lemma DjFinish(adj: seq<seq<nat>>, wts: seq<seq<nat>>, start: nat, d: seq<nat>, pr: seq<nat>,
                 via: seq<nat>, done: seq<nat>, level: nat)
    requires Between(adj, wts, start, d, pr, via, map[], done, level)
    ensures DijkstraResult(adj, wts, start, d, pr, done)
  {
    var i := if done == [] then 0 else |adj[done[|done| - 1]]|;
    forall v | 0 <= v < |adj|
      ensures (pr[v] != NR <==> v in done) && (pr[v] == NR ==> d[v] == 0)
    {
      assert VertexOk(adj, wts, start, d, pr, via, map[], done, level, v);
    }
    forall k
      ensures TreeOk(adj, wts, start, d, pr, done, k)
    {
      if 0 <= k < |done| {
        var v := done[k];
        assert DoneOk(adj, wts, start, d, pr, done, i, k);
        assert VertexOk(adj, wts, start, d, pr, via, map[], done, level, v);
        if v != start {
          assert Parent(adj, wts, d, pr, via, v);
        }
      }
    }
    forall x | 0 <= x < |adj| && pr[x] != NR
      ensures Closed(adj, wts, d, pr, x)
    {
      assert VertexOk(adj, wts, start, d, pr, via, map[], done, level, x);
      var k :| 0 <= k < |done| && done[k] == x;
      assert DoneOk(adj, wts, start, d, pr, done, i, k);
    }
  }

  /** Every walk from the start ends at a reached vertex, at a distance no greater than the walk's weight. */
  lemma {:induction false} DijkstraLowerBound(adj: seq<seq<nat>>, wts: seq<seq<nat>>, start: nat, d: seq<nat>,
                                              pr: seq<nat>, order: seq<nat>, v: nat, p: seq<nat>, ix: seq<nat>)
    requires DijkstraResult(adj, wts, start, d, pr, order) && PathTo(adj, start, v, p, ix)
    ensures v < |adj| && pr[v] != NR && d[v] <= Cost(wts, p, ix)
    decreases |ix|
  {
    if ix != [] {
      var m := |ix| - 1;
      PathLast(adj, start, v, p, ix);
      var x := p[m];
      DijkstraLowerBound(adj, wts, start, d, pr, order, x, p[..m + 1], ix[..m]);
      assert Closed(adj, wts, d, pr, x);
      CostLast(wts, p, ix);
    }
  }

  /** The k-th released vertex is reached by a walk whose weight is its distance. */
  lemma {:induction false} DijkstraWitness(adj: seq<seq<nat>>, wts: seq<seq<nat>>, start: nat, d: seq<nat>,
                                           pr: seq<nat>, order: seq<nat>, k: nat)
    requires DijkstraResult(adj, wts, start, d, pr, order) && k < |order|
    ensures order[k] < |adj| && exists p, ix :: PathTo(adj, start, order[k], p, ix) && Cost(wts, p, ix) == d[order[k]]
    decreases k
  {
    var v := order[k];
    assert TreeOk(adj, wts, start, d, pr, order, k);
    if v == start {
      PathStart(adj, start);
      assert PathTo(adj, start, v, [start], []) && Cost(wts, [start], []) == d[v];
    } else {
      var u := pr[v];
      assert u in order[..k];
      var k' :| 0 <= k' < k && order[..k][k'] == u;
      assert order[k'] == u;
      DijkstraWitness(adj, wts, start, d, pr, order, k');
      var p: seq<nat>, ix: seq<nat> :| PathTo(adj, start, u, p, ix) && Cost(wts, p, ix) == d[u];
      var i :| 0 <= i < |adj[u]| && adj[u][i] == v && d[v] == d[u] + wts[u][i];
      PathExtend(adj, start, u, p, ix, i);
      CostExtend(wts, p, ix, v, i);
      assert PathTo(adj, start, v, p + [v], ix + [i]) && Cost(wts, p + [v], ix + [i]) == d[v];
    }
  }

  /**
   * The result gives shortest paths: a vertex is reached exactly when some
   * walk from the start leads to it, no walk to it weighs less than its
   * distance, and some walk weighs exactly that.
   */
  lemma DijkstraShortestPaths(adj: seq<seq<nat>>, wts: seq<seq<nat>>, start: nat, d: seq<nat>, pr: seq<nat>,
                              order: seq<nat>)
    requires DijkstraResult(adj, wts, start, d, pr, order)
    ensures forall v: nat, p, ix :: PathTo(adj, start, v, p, ix) ==> v < |adj| && pr[v] != NR && d[v] <= Cost(wts, p, ix)
    ensures forall v :: 0 <= v < |adj| && pr[v] != NR ==>
              exists p, ix :: PathTo(adj, start, v, p, ix) && Cost(wts, p, ix) == d[v]
  {
    forall v: nat, p, ix | PathTo(adj, start, v, p, ix)
      ensures v < |adj| && pr[v] != NR && d[v] <= Cost(wts, p, ix)
    {
      DijkstraLowerBound(adj, wts, start, d, pr, order, v, p, ix);
    }
    forall v | 0 <= v < |adj| && pr[v] != NR
      ensures exists p, ix :: PathTo(adj, start, v, p, ix) && Cost(wts, p, ix) == d[v]
    {
      var k :| 0 <= k < |order| && order[k] == v;
      DijkstraWitness(adj, wts, start, d, pr, order, k);
    }
  }

  /**
   * With every edge weighing w, dijkstra and bfs reach the same vertices,
   * and dijkstra's distances are w times bfs's.
   */
  lemma DijkstraUniform(adj: seq<seq<nat>>, wts: seq<seq<nat>>, w: nat, start: nat,
                        dB: seq<nat>, pB: seq<nat>, dD: seq<nat>, pD: seq<nat>, order: seq<nat>)
    requires Uniform(adj, wts, w)
    requires Bfs.BfsResult(adj, start, dB, pB) && DijkstraResult(adj, wts, start, dD, pD, order)
    ensures forall v :: 0 <= v < |adj| ==> (pB[v] != NR <==> pD[v] != NR)
    ensures forall v :: 0 <= v < |adj| && pD[v] != NR ==> dD[v] == w * dB[v]
  {
    Bfs.BfsShortestPaths(adj, start, dB, pB);
    DijkstraShortestPaths(adj, wts, start, dD, pD, order);
    forall v | 0 <= v < |adj| && pB[v] != NR
      ensures pD[v] != NR && dD[v] <= w * dB[v]
    {
      var p, ix :| PathTo(adj, start, v, p, ix) && |ix| == dB[v];
      UniformCost(adj, wts, w, p, ix);
    }
    forall v | 0 <= v < |adj| && pD[v] != NR
      ensures pB[v] != NR && w * dB[v] <= dD[v]
    {
      var p, ix :| PathTo(adj, start, v, p, ix) && Cost(wts, p, ix) == dD[v];
      UniformCost(adj, wts, w, p, ix);
      MulLe(dB[v], |ix|, w);
      assert dB[v] * w == w * dB[v] && |ix| * w == w * |ix|;
    }
  }

  /**
   * dijkstra with the default table: sets dist and prev for the search from
   * start, using a heap that starts with one slot and may grow to SIZE_MAX
   * slots. The ghost `order` lists the vertices in the order the heap
   * released them.
   */
  method Dijkstra(a: Graph.AdjLst<nat>, start: nat, dist: array<nat>, prev: array<nat>) returns (ghost order: seq<nat>)
    requires a.Valid() && a.wtSize > 0 && start < a.numVts <= SIZE_MAX
    requires dist.Length == a.numVts && prev.Length == a.numVts && dist != prev
    modifies dist, prev
    ensures DijkstraResult(a.vts[..], a.wts[..], start, dist[..], prev[..], order)
  {
    ghost var adj, wts := a.vts[..], a.wts[..];
    a.ValidBounded();
    a.ValidWeighted();
    for v := 0 to a.numVts
      invariant forall x :: 0 <= x < v ==> dist[x] == 0 && prev[x] == NR
    {
      dist[v] := 0;
      prev[v] := NR;
    }
    var h := new Heap.Heap<nat>(1, SIZE_MAX);
    var exited := h.Push(dist[start], start);
    prev[start] := start;
    ghost var via := seq(a.numVts, _ => 0);
    DjInit(adj, wts, start, dist[..], prev[..], via);
    order := Settle(a, dist, prev, h, adj, wts, start, via);
  }

  /** The main loop of dijkstra: pops the nearest vertex until the heap is empty. */
  method Settle(a: Graph.AdjLst<nat>, dist: array<nat>, prev: array<nat>, h: Heap.Heap<nat>,
                ghost adj: seq<seq<nat>>, ghost wts: seq<seq<nat>>, ghost start: nat, ghost via0: seq<nat>)
    returns (ghost done: seq<nat>)
    requires a.vts[..] == adj && a.wts[..] == wts && dist.Length == |adj| && prev.Length == |adj| && dist != prev
    requires h.Valid() && h.countMax == SIZE_MAX && dist !in h.Repr && prev !in h.Repr
    requires Between(adj, wts, start, dist[..], prev[..], via0, h.M, [], 0)
    modifies dist, prev, h, h.ptyElts
    ensures DijkstraResult(adj, wts, start, dist[..], prev[..], done)
  {
    done := [];
    ghost var via := via0;
    ghost var level: nat := 0;
    while h.numElts > 0
      invariant h.Valid() && h.countMax == SIZE_MAX && fresh(h.Repr - old(h.Repr))
      invariant dist !in h.Repr && prev !in h.Repr
      invariant Between(adj, wts, start, dist[..], prev[..], via, h.M, done, level)
      decreases |adj| - |done|
    {
      ghost var m0, d0, p0 := h.M, dist[..], prev[..];
      var uw, u := h.Pop(0, 0);
      assert dist[..] == d0 && prev[..] == p0;
      DjPop(adj, wts, start, d0, p0, via, m0, done, level, u);
      done := done + [u];
      level := dist[u];
      via := Relax(a, u, uw, dist, prev, h, adj, wts, start, via, done, level);
    }
    h.CountIsSize();
    DjFinish(adj, wts, start, dist[..], prev[..], via, done, level);
  }

  /** The inner loop of dijkstra: looks at each entry of u's list, the last popped vertex, at distance uw. */
  method Relax(a: Graph.AdjLst<nat>, u: nat, uw: nat, dist: array<nat>, prev: array<nat>, h: Heap.Heap<nat>,
               ghost adj: seq<seq<nat>>, ghost wts: seq<seq<nat>>, ghost start: nat, ghost via: seq<nat>,
               ghost done: seq<nat>, ghost level: nat)
    returns (ghost via': seq<nat>)
    requires a.vts[..] == adj && a.wts[..] == wts && dist.Length == |adj| && prev.Length == |adj| && dist != prev
    requires h.Valid() && h.countMax == SIZE_MAX && dist !in h.Repr && prev !in h.Repr
    requires done != [] && u == done[|done| - 1] && uw == level
    requires DijkstraInv(adj, wts, start, dist[..], prev[..], via, h.M, done, level, 0)
    modifies dist, prev, h, h.ptyElts
    ensures h.Valid() && fresh(h.Repr - old(h.Repr)) && h.countMax == SIZE_MAX
    ensures dist !in h.Repr && prev !in h.Repr
    ensures Between(adj, wts, start, dist[..], prev[..], via', h.M, done, level)
  {
    via' := via;
    var vts, ws := a.vts[u], a.wts[u];
    for i := 0 to |vts|
      invariant h.Valid() && fresh(h.Repr - old(h.Repr)) && h.countMax == SIZE_MAX
      invariant dist !in h.Repr && prev !in h.Repr
      invariant DijkstraInv(adj, wts, start, dist[..], prev[..], via', h.M, done, level, i)
    {
      via' := Scan(u, vts[i], uw + ws[i], dist, prev, h, adj, wts, start, via', done, level, i);
    }
  }

  /**
   * One step of the inner loop: y, at position i of u's list, is reached
   * through u when it was unreached, or moved closer when sum, u's distance
   * plus the entry's weight, is less than its distance.
   */
  method Scan(u: nat, y: nat, sum: nat, dist: array<nat>, prev: array<nat>, h: Heap.Heap<nat>,
              ghost adj: seq<seq<nat>>, ghost wts: seq<seq<nat>>, ghost start: nat, ghost via: seq<nat>,
              ghost done: seq<nat>, ghost level: nat, ghost i: nat)
    returns (ghost via': seq<nat>)
    requires dist.Length == |adj| && prev.Length == |adj| && dist != prev
    requires h.Valid() && h.countMax == SIZE_MAX && dist !in h.Repr && prev !in h.Repr
    requires done != [] && u == done[|done| - 1]
    requires DijkstraInv(adj, wts, start, dist[..], prev[..], via, h.M, done, level, i)
    requires i < |adj[u]| && y == adj[u][i] && sum == level + wts[u][i]
    modifies dist, prev, h, h.ptyElts
    ensures h.Valid() && fresh(h.Repr - old(h.Repr)) && h.countMax == SIZE_MAX
    ensures dist !in h.Repr && prev !in h.Repr
    ensures DijkstraInv(adj, wts, start, dist[..], prev[..], via', h.M, done, level, i + 1)
  {
    if prev[y] == NR {
      via' := Discover(u, y, sum, dist, prev, h, adj, wts, start, via, done, level, i);
    } else if dist[y] > sum {
      via' := Lower(u, y, sum, dist, prev, h, adj, wts, start, via, done, level, i);
    } else {
      DjSeen(adj, wts, start, dist[..], prev[..], via, h.M, done, level, u, i);
      via' := via;
    }
  }

  /** A neighbour seen for the first time: it gets its distance and parent and enters the heap. */
  method Discover(u: nat, y: nat, sum: nat, dist: array<nat>, prev: array<nat>, h: Heap.Heap<nat>,
                  ghost adj: seq<seq<nat>>, ghost wts: seq<seq<nat>>, ghost start: nat, ghost via: seq<nat>,
                  ghost done: seq<nat>, ghost level: nat, ghost i: nat)
    returns (ghost via': seq<nat>)
    requires dist.Length == |adj| && prev.Length == |adj| && dist != prev
    requires h.Valid() && h.countMax == SIZE_MAX && dist !in h.Repr && prev !in h.Repr
    requires done != [] && u == done[|done| - 1]
    requires DijkstraInv(adj, wts, start, dist[..], prev[..], via, h.M, done, level, i)
    requires i < |adj[u]| && y == adj[u][i] && sum == level + wts[u][i] && prev[y] == NR
    modifies dist, prev, h, h.ptyElts
    ensures h.Valid() && fresh(h.Repr - old(h.Repr)) && h.countMax == SIZE_MAX
    ensures dist !in h.Repr && prev !in h.Repr
    ensures DijkstraInv(adj, wts, start, dist[..], prev[..], via', h.M, done, level, i + 1)
  {
    ghost var d0, p0, m0 := dist[..], prev[..], h.M;
    DjDiscover(adj, wts, start, d0, p0, via, m0, done, level, u, i, y, sum);
    dist[y] := sum;
    h.CountIsSize();
    var exited := h.Push(dist[y], y);
    assert !exited;
    prev[y] := u;
    via' := via[y := i];
    assert dist[..] == d0[y := sum];
    assert prev[..] == p0[y := u];
    assert h.M == m0[y := sum];
  }

  /** A neighbour in the heap reached more cheaply through u: its distance drops and u becomes its parent. */
  method Lower(u: nat, y: nat, sum: nat, dist: array<nat>, prev: array<nat>, h: Heap.Heap<nat>,
               ghost adj: seq<seq<nat>>, ghost wts: seq<seq<nat>>, ghost start: nat, ghost via: seq<nat>,
               ghost done: seq<nat>, ghost level: nat, ghost i: nat)
    returns (ghost via': seq<nat>)
    requires dist.Length == |adj| && prev.Length == |adj| && dist != prev
    requires h.Valid() && h.countMax == SIZE_MAX && dist !in h.Repr && prev !in h.Repr
    requires done != [] && u == done[|done| - 1]
    requires DijkstraInv(adj, wts, start, dist[..], prev[..], via, h.M, done, level, i)
    requires i < |adj[u]| && y == adj[u][i] && sum == level + wts[u][i] && prev[y] != NR && dist[y] > sum
    modifies dist, prev, h, h.ptyElts
    ensures h.Valid() && fresh(h.Repr - old(h.Repr)) && h.countMax == SIZE_MAX
    ensures dist !in h.Repr && prev !in h.Repr
    ensures DijkstraInv(adj, wts, start, dist[..], prev[..], via', h.M, done, level, i + 1)
  {
    ghost var d0, p0, m0 := dist[..], prev[..], h.M;
    DjRelax(adj, wts, start, d0, p0, via, m0, done, level, u, i, y, sum);
    dist[y] := sum;
    h.Update(dist[y], y);
    prev[y] := u;
    via' := via[y := i];
    assert dist[..] == d0[y := sum];
    assert prev[..] == p0[y := u];
    assert h.M == m0[y := sum];
  }

  /**
   * ht_default: the table dijkstra gives the heap when the caller gives
   * none. Slot k belongs to vertex k: keys[k] is k while vertex k is stored
   * and NR otherwise, and elts[k] is what is stored for it.
   */
  class HtDefault<E(0)> {
    const count: nat
    const keys: array<nat>
    const elts: array<E>

    ghost predicate Valid()
      reads this, keys, elts
    {
      keys as object != elts && keys.Length == count && elts.Length == count && count <= NR &&
      forall k :: 0 <= k < count ==> keys[k] == k || keys[k] == NR
    }

    /** The stored vertices and what is stored for each. */
    ghost function Map(): map<nat, E>
      requires Valid()
      reads this, keys, elts
    {
      map k: nat | k < count && keys[k] != NR :: elts[k]
    }

    /** ht_default_init: one slot per vertex, all empty. */
    constructor (n: nat)
      requires n <= SIZE_MAX
      ensures Valid() && count == n && Map() == map[]
      ensures fresh(keys) && fresh(elts)
    {
      count := n;
      keys := new nat[n];
      elts := new E[n];
      new;
      for k := 0 to n
        invariant forall j :: 0 <= j < k ==> keys[j] == NR
      {
        keys[k] := NR;
      }
      assert forall k: nat :: k !in Map();
    }

    /** ht_default_insert: stores elt for vertex key, replacing what was stored. */
    method Insert(key: nat, elt: E)
      requires Valid() && key < count
      modifies keys, elts
      ensures Valid() && Map() == old(Map())[key := elt]
    {
      keys[key] := key;
      elts[key] := elt;
      assert forall k: nat :: k in Map() <==> k in old(Map())[key := elt];
    }

    /** ht_default_search: what is stored for key, or None (a NULL pointer) when nothing is. */
    function Search(key: nat): (r: Option<E>)
      requires Valid() && key < count
      reads this, keys, elts
      ensures r == if key in Map() then Some(Map()[key]) else None
    {
      if keys[key] == NR then None else Some(elts[key])
    }

    /** ht_default_remove: empties key's slot and returns what it held, which is what was stored when key was present. */
    method Remove(key: nat) returns (elt: E)
      requires Valid() && key < count
      modifies keys
      ensures Valid() && Map() == old(Map()) - {key}
      ensures key in old(Map()) ==> elt == old(Map())[key]
    {
      keys[key] := NR;
      elt := elts[key];
      assert forall k: nat :: k in Map() <==> k in old(Map()) - {key};
    }

    /**
     * ht_default_free: the stored elements as handed one by one to the
     * element destructor, in slot order; the slots visited are ghost.
     */
    method Free() returns (freed: seq<E>, ghost slots: seq<nat>)
      requires Valid()
      ensures |freed| == |slots| == |Map()|
      ensures forall i, j :: 0 <= i < j < |slots| ==> slots[i] < slots[j]
      ensures forall k :: k in Map() <==> k in slots
      ensures forall i :: 0 <= i < |slots| ==> slots[i] in Map() && freed[i] == Map()[slots[i]]
    {
      freed, slots := [], [];
      for i := 0 to count
        invariant |freed| == |slots|
        invariant forall a, b :: 0 <= a < b < |slots| ==> slots[a] < slots[b]
        invariant forall a :: 0 <= a < |slots| ==> slots[a] < i && keys[slots[a]] != NR && freed[a] == elts[slots[a]]
        invariant forall k :: 0 <= k < i && keys[k] != NR ==> k in slots
      {
        if keys[i] != NR {
          freed, slots := freed + [elts[i]], slots + [i];
        }
      }
      SlotsCover(slots);
    }

    /** Increasing slots that are exactly the stored vertices number as many as the stored vertices. */
    lemma SlotsCover(slots: seq<nat>)
      requires Valid()
      requires forall i, j :: 0 <= i < j < |slots| ==> slots[i] < slots[j]
      requires forall a :: 0 <= a < |slots| ==> slots[a] < count && keys[slots[a]] != NR
      requires forall k :: 0 <= k < count && keys[k] != NR ==> k in slots
      ensures |slots| == |Map()| && forall k :: k in Map() <==> k in slots
    {
      assert Distinct(slots);
      DistinctKeysSize(slots, Map());
    }
  }
}
