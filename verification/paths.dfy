/**
 * Walks in an adjacency list, the vocabulary in which the results of the
 * graph searches are stated. An adjacency list is a sequence of neighbour
 * lists; a walk records the vertices it visits and, for every step, the
 * position in the current vertex's list that it follows, so that parallel
 * edges with different weights are told apart.
 */
module Paths {

  /** Every listed neighbour is a vertex of the list. */
  ghost predicate Bounded(adj: seq<seq<nat>>)
  {
    forall x, j :: 0 <= x < |adj| && 0 <= j < |adj[x]| ==> adj[x][j] < |adj|
  }

  /** p visits p[0], ..., p[|ix|], leaving p[k] by entry ix[k] of its list. */
  ghost predicate Walk(adj: seq<seq<nat>>, p: seq<nat>, ix: seq<nat>)
  {
    |p| == |ix| + 1 &&
    forall k :: 0 <= k < |ix| ==> p[k] < |adj| && ix[k] < |adj[p[k]]| && adj[p[k]][ix[k]] == p[k + 1]
  }

  /** A walk from s to v. */
  ghost predicate PathTo(adj: seq<seq<nat>>, s: nat, v: nat, p: seq<nat>, ix: seq<nat>)
  {
    Walk(adj, p, ix) && p[0] == s && p[|ix|] == v
  }

  /** The walk that stays at s. */
  lemma PathStart(adj: seq<seq<nat>>, s: nat)
    ensures PathTo(adj, s, s, [s], [])
  {
  }

  /** A walk to u followed by entry i of u's list is a walk to that neighbour. */
  lemma PathExtend(adj: seq<seq<nat>>, s: nat, u: nat, p: seq<nat>, ix: seq<nat>, i: nat)
    requires PathTo(adj, s, u, p, ix) && u < |adj| && i < |adj[u]|
    ensures PathTo(adj, s, adj[u][i], p + [adj[u][i]], ix + [i])
  {
    var p', ix' := p + [adj[u][i]], ix + [i];
    forall k | 0 <= k < |ix'|
      ensures p'[k] < |adj| && ix'[k] < |adj[p'[k]]| && adj[p'[k]][ix'[k]] == p'[k + 1]
    {
      if k < |ix| {
        assert p'[k] == p[k] && p'[k + 1] == p[k + 1] && ix'[k] == ix[k];
      }
    }
  }

  /** A walk of at least one step is a shorter walk to its last but one vertex, followed by its last step. */
  lemma PathLast(adj: seq<seq<nat>>, s: nat, v: nat, p: seq<nat>, ix: seq<nat>)
    requires PathTo(adj, s, v, p, ix) && |ix| > 0
    ensures var m := |ix| - 1;
            PathTo(adj, s, p[m], p[..m + 1], ix[..m]) &&
            p[m] < |adj| && ix[m] < |adj[p[m]]| && adj[p[m]][ix[m]] == v
  {
    var m := |ix| - 1;
    assert p[..m + 1][0] == s;
  }

  /** Some walk leads from s to v. */
  ghost predicate Reachable(adj: seq<seq<nat>>, s: nat, v: nat)
  {
    exists p, ix :: PathTo(adj, s, v, p, ix)
  }

  /** A walk from s to m followed by a walk from m to v is a walk from s to v. */
  lemma ReachTrans(adj: seq<seq<nat>>, s: nat, m: nat, v: nat)
    requires Reachable(adj, s, m) && Reachable(adj, m, v)
    ensures Reachable(adj, s, v)
  {
    var p, ix :| PathTo(adj, s, m, p, ix);
    var q, jx :| PathTo(adj, m, v, q, jx);
    var p', ix' := p + q[1..], ix + jx;
    forall k | 0 <= k < |ix'|
      ensures p'[k] < |adj| && ix'[k] < |adj[p'[k]]| && adj[p'[k]][ix'[k]] == p'[k + 1]
    {
      if k < |ix| {
        assert p'[k] == p[k] && p'[k + 1] == p[k + 1] && ix'[k] == ix[k];
      } else {
        var k' := k - |ix|;
        assert p'[k] == q[k'] && p'[k + 1] == q[k' + 1] && ix'[k] == jx[k'];
      }
    }
    assert PathTo(adj, s, v, p', ix');
  }

  /** Entry i of u's list is reachable from u. */
  lemma ReachEdge(adj: seq<seq<nat>>, u: nat, i: nat)
    requires u < |adj| && i < |adj[u]|
    ensures Reachable(adj, u, adj[u][i])
  {
    PathStart(adj, u);
    PathExtend(adj, u, u, [u], [], i);
  }

  /** The weight of entry i of x's list, 0 outside the lists. */
  function WtOf(wts: seq<seq<nat>>, x: nat, i: nat): nat
  {
    if x < |wts| && i < |wts[x]| then wts[x][i] else 0
  }

  /** The sum of the weights of the entries a walk follows. */
  function Cost(wts: seq<seq<nat>>, p: seq<nat>, ix: seq<nat>): (c: nat)
    ensures ix == [] ==> c == 0
    decreases |ix|
  {
    if ix == [] then 0
    else Cost(wts, p, ix[..|ix| - 1]) + (if |ix| - 1 < |p| then WtOf(wts, p[|ix| - 1], ix[|ix| - 1]) else 0)
  }

  /** The cost of a walk depends only on the vertices it leaves. */
  lemma {:induction false} CostSameStart(wts: seq<seq<nat>>, p: seq<nat>, q: seq<nat>, ix: seq<nat>)
    requires |ix| <= |p| && |ix| <= |q| && p[..|ix|] == q[..|ix|]
    ensures Cost(wts, p, ix) == Cost(wts, q, ix)
  {
    if ix != [] {
      var m := |ix| - 1;
      assert p[..m] == q[..m] by {
        assert p[..m] == p[..|ix|][..m] && q[..m] == q[..|ix|][..m];
      }
      assert p[m] == p[..|ix|][m] && q[m] == q[..|ix|][m];
      CostSameStart(wts, p, q, ix[..m]);
    }
  }

  /** Extending a walk by one step adds that step's weight. */
  lemma CostExtend(wts: seq<seq<nat>>, p: seq<nat>, ix: seq<nat>, v: nat, i: nat)
    requires |p| == |ix| + 1
    ensures Cost(wts, p + [v], ix + [i]) == Cost(wts, p, ix) + WtOf(wts, p[|ix|], i)
  {
    assert (ix + [i])[..|ix|] == ix;
    assert (p + [v])[..|ix|] == p[..|ix|];
    CostSameStart(wts, p + [v], p, ix);
  }

  /** Cutting the last step of a walk takes away its weight. */
  lemma CostLast(wts: seq<seq<nat>>, p: seq<nat>, ix: seq<nat>)
    requires |p| == |ix| + 1 && |ix| > 0
    ensures var m := |ix| - 1;
            Cost(wts, p, ix) == Cost(wts, p[..m + 1], ix[..m]) + WtOf(wts, p[m], ix[m])
  {
    var m := |ix| - 1;
    assert p[..m + 1][..m] == p[..m];
    CostSameStart(wts, p, p[..m + 1], ix[..m]);
  }

  /** wts holds one weight per list entry. */
  ghost predicate Weighted(adj: seq<seq<nat>>, wts: seq<seq<nat>>)
  {
    |wts| == |adj| && forall x :: 0 <= x < |adj| ==> |wts[x]| == |adj[x]|
  }

  /** Every list entry weighs w. */
  ghost predicate Uniform(adj: seq<seq<nat>>, wts: seq<seq<nat>>, w: nat)
  {
    Weighted(adj, wts) &&
    forall x, i :: 0 <= x < |adj| && 0 <= i < |wts[x]| ==> wts[x][i] == w
  }

  /** Under uniform weights w, a walk costs w times its number of steps. */
  lemma {:induction false} UniformCost(adj: seq<seq<nat>>, wts: seq<seq<nat>>, w: nat, p: seq<nat>, ix: seq<nat>)
    requires Uniform(adj, wts, w) && Walk(adj, p, ix)
    ensures Cost(wts, p, ix) == w * |ix|
  {
    if ix != [] {
      var m := |ix| - 1;
      CostLast(wts, p, ix);
      assert Walk(adj, p[..m + 1], ix[..m]);
      UniformCost(adj, wts, w, p[..m + 1], ix[..m]);
      assert WtOf(wts, p[m], ix[m]) == w;
    }
  }
}
