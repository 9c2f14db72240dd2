/**
 * The depth-first search of dfs.c written as the recursion that its stack
 * emulates. Explore(v) stamps pre[v] with the counter, explores the
 * neighbours of v that are still unreached, in the order of v's list, and
 * stamps post[v]; DepthFirst explores start and then every vertex still
 * unreached, first those after start and then those before it.
 *
 * Dfs.Dfs is proved to leave exactly the stamps of DepthFirst. Here
 * DepthFirst is proved to be a depth-first search: the stamp intervals of
 * two vertices are disjoint or nested, a finished vertex has all its
 * neighbours reached, and the vertices stamped no later than post[start]
 * are exactly those reachable from start.
 */
module DfsRecursive {
  import opened Base
  import opened Paths

  /** The stamp of a vertex that was not reached yet (SIZE_MAX). */
  const NR: nat := SIZE_MAX

  /** The stamps given so far and the next counter value. */
  datatype St = St(pre: seq<nat>, post: seq<nat>, c: nat)

  /** The vertices not reached yet. */
  ghost function Unreached(pre: seq<nat>): set<nat>
  {
    set x: nat | x < |pre| && pre[x] == NR
  }

  /**
   * One stamp per vertex, and a counter that cannot meet NR: every
   * unreached vertex still needs two counter values.
   */
  ghost predicate Fits(adj: seq<seq<nat>>, st: St)
  {
    Bounded(adj) && |st.pre| == |adj| && |st.post| == |adj| && 2 * |adj| < NR &&
    st.c + 2 * |Unreached(st.pre)| <= 2 * |adj|
  }

  /** Stamps once given are kept. */
  ghost predicate Keeps(p0: seq<nat>, p1: seq<nat>)
  {
    |p0| == |p1| && forall x :: 0 <= x < |p0| && p0[x] != NR ==> p1[x] == p0[x]
  }

  /** The previsit of v: pre[v] takes the counter, which advances. */
  function Previsit(st: St, v: nat): St
    requires v < |st.pre|
  {
    St(st.pre[v := st.c], st.post, st.c + 1)
  }

  /** The postvisit of u: post[u] takes the counter, which advances. */
  function Postvisit(st: St, u: nat): St
    requires u < |st.post|
  {
    St(st.pre, st.post[u := st.c], st.c + 1)
  }

  /** The previsit of an unreached v takes v out of the unreached vertices. */
  lemma UnreachedPrevisit(st: St, v: nat)
    requires v < |st.pre| && st.pre[v] == NR && st.c != NR
    ensures Unreached(Previsit(st, v).pre) == Unreached(st.pre) - {v}
    ensures |Unreached(Previsit(st, v).pre)| == |Unreached(st.pre)| - 1
  {
    assert Unreached(Previsit(st, v).pre) == Unreached(st.pre) - {v};
  }

  /** Explore(v): previsit v, explore its list from position 0, postvisit v. */
  ghost function Explore(adj: seq<seq<nat>>, v: nat, st: St): (r: St)
    requires Fits(adj, st) && v < |adj| && st.pre[v] == NR
    ensures Fits(adj, r) && r.c >= st.c + 2
    ensures r.c + 2 * |Unreached(r.pre)| == st.c + 2 * |Unreached(st.pre)|
    ensures Keeps(st.pre, r.pre) && r.pre[v] == st.c && r.post[v] == r.c - 1
    decreases |Unreached(st.pre)|, 1, 0
  {
    UnreachedPrevisit(st, v);
    Postvisit(ExploreFrom(adj, v, 0, Previsit(st, v)), v)
  }

  /** The neighbours of u from position j on: each one still unreached is explored, in list order. */
  ghost function ExploreFrom(adj: seq<seq<nat>>, u: nat, j: nat, st: St): (r: St)
    requires Fits(adj, st) && u < |adj| && j <= |adj[u]|
    ensures Fits(adj, r) && r.c >= st.c
    ensures r.c + 2 * |Unreached(r.pre)| == st.c + 2 * |Unreached(st.pre)|
    ensures Keeps(st.pre, r.pre)
    decreases |Unreached(st.pre)|, 2, |adj[u]| - j
  {
    if j == |adj[u]| then st
    else if st.pre[adj[u][j]] != NR then ExploreFrom(adj, u, j + 1, st)
    else ExploreFrom(adj, u, j + 1, Explore(adj, adj[u][j], st))
  }

  /** The restarts: explores each vertex of i .. hi - 1 that is still unreached, in order. */
  ghost function Restart(adj: seq<seq<nat>>, i: nat, hi: nat, st: St): (r: St)
    requires Fits(adj, st) && i <= hi <= |adj|
    ensures Fits(adj, r) && r.c >= st.c
    decreases hi - i
  {
    if i == hi then st
    else Restart(adj, i + 1, hi, if st.pre[i] == NR then Explore(adj, i, st) else st)
  }

  /** Nothing stamped, the counter at 0. */
  function Blank(n: nat): St
  {
    St(seq(n, _ => NR), seq(n, _ => NR), 0)
  }

  /** Before the search every vertex is unreached. */
  lemma {:induction false} BlankUnreached(n: nat)
    ensures |Unreached(Blank(n).pre)| == n
  {
    if n > 0 {
      BlankUnreached(n - 1);
      assert Unreached(Blank(n).pre) == Unreached(Blank(n - 1).pre) + {n - 1};
    }
  }

  /** The stamps of dfs: explore start, then restart from start + 1 .. n - 1 and from 0 .. start - 1. */
  ghost function DepthFirst(adj: seq<seq<nat>>, start: nat): (r: St)
    requires Bounded(adj) && 2 * |adj| < NR && start < |adj|
    ensures Fits(adj, r)
  {
    BlankUnreached(|adj|);
    Restart(adj, 0, start, Restart(adj, start, |adj|, Blank(|adj|)))
  }

  /** Exploring from position j is exploring from position k when the neighbours in between are reached. */
  lemma {:induction false} ExploreFromSkip(adj: seq<seq<nat>>, u: nat, j: nat, k: nat, st: St)
    requires Fits(adj, st) && u < |adj| && j <= k <= |adj[u]|
    requires forall i :: j <= i < k ==> st.pre[adj[u][i]] != NR
    ensures ExploreFrom(adj, u, j, st) == ExploreFrom(adj, u, k, st)
    decreases k - j
  {
    if j < k {
      ExploreFromSkip(adj, u, j + 1, k, st);
    }
  }

  // ---------------------------------------------------------------------
  // What the recursion guarantees

  /**
   * The stamps of x in st: they come before the counter, a finished x was
   * reached first and has all its neighbours reached, and a vertex reached
   * while x was open is finished before x.
   */
  ghost predicate StampOk(adj: seq<seq<nat>>, st: St, x: int)
  {
    |st.pre| == |adj| && |st.post| == |adj| &&
    (0 <= x < |adj| ==>
      (st.pre[x] != NR ==> st.pre[x] < st.c) &&
      (st.post[x] != NR ==> st.pre[x] < st.post[x] < st.c &&
                            forall j :: 0 <= j < |adj[x]| ==> adj[x][j] < |adj| && st.pre[adj[x][j]] != NR) &&
      (forall y :: 0 <= y < |adj| && st.post[x] != NR && st.pre[x] < st.pre[y] < st.post[x] ==>
                     st.post[y] < st.post[x]))
  }

  /** Every vertex's stamps are as StampOk says. */
  ghost predicate Sound(adj: seq<seq<nat>>, st: St)
  {
    Fits(adj, st) && forall x :: StampOk(adj, st, x)
  }

  /** From st to r, x keeps its stamps if it had been reached, and if reached anew it is stamped and finished within st.c .. r.c - 1. */
  ghost predicate Grown(st: St, r: St, x: int)
  {
    |st.pre| == |r.pre| == |st.post| == |r.post| &&
    (0 <= x < |st.pre| ==>
      (st.pre[x] != NR ==> r.pre[x] == st.pre[x] && r.post[x] == st.post[x]) &&
      (st.pre[x] == NR && r.pre[x] != NR ==> st.c <= r.pre[x] < r.post[x] < r.c))
  }

  /** From st to r, x is reached anew only if it is reachable from root. */
  ghost predicate Spread(adj: seq<seq<nat>>, root: nat, st: St, r: St, x: int)
  {
    |st.pre| == |r.pre| &&
    (0 <= x < |st.pre| && st.pre[x] == NR && r.pre[x] != NR ==> Reachable(adj, root, x))
  }

  /** Previsiting an unreached vertex keeps every vertex's stamps sound. */
  lemma PrevisitSound(adj: seq<seq<nat>>, v: nat, st: St)
    requires Sound(adj, st) && v < |adj| && st.pre[v] == NR
    ensures st.post[v] == NR && Sound(adj, Previsit(st, v))
  {
    UnreachedPrevisit(st, v);
    var s1 := Previsit(st, v);
    assert StampOk(adj, st, v);
    forall x
      ensures StampOk(adj, s1, x)
    {
      assert StampOk(adj, st, x);
      if 0 <= x < |adj| && st.post[x] != NR {
        forall y | 0 <= y < |adj| && s1.pre[x] < s1.pre[y] < s1.post[x]
          ensures s1.post[y] < s1.post[x]
        {
          assert y != v;
        }
      }
    }
  }

  /**
   * Explore(v) from a sound state: the result is sound, v is stamped first
   * and finished last, every vertex reached anew is reachable from v, and
   * the others keep their stamps.
   */
  lemma {:induction false} ExploreSound(adj: seq<seq<nat>>, v: nat, st: St)
    requires Sound(adj, st) && v < |adj| && st.pre[v] == NR
    ensures var r := Explore(adj, v, st);
            Sound(adj, r) && (forall x :: Grown(st, r, x)) && (forall x :: Spread(adj, v, st, r, x))
    decreases |Unreached(st.pre)|, 1, 0
  {
    UnreachedPrevisit(st, v);
    PrevisitSound(adj, v, st);
    var s1 := Previsit(st, v);
    ExploreFromSound(adj, v, 0, s1);
    var r1 := ExploreFrom(adj, v, 0, s1);
    var r := Postvisit(r1, v);
    assert r == Explore(adj, v, st);
    assert Grown(s1, r1, v);
    forall x
      ensures StampOk(adj, r, x)
    {
      assert StampOk(adj, r1, x);
      if 0 <= x < |adj| && r.post[x] != NR {
        forall y | 0 <= y < |adj| && r.pre[x] < r.pre[y] < r.post[x]
          ensures r.post[y] < r.post[x]
        {
          assert Grown(s1, r1, x) && Grown(s1, r1, y) && StampOk(adj, s1, y) && StampOk(adj, s1, x);
        }
      }
    }
    forall x
      ensures Grown(st, r, x)
    {
      assert Grown(s1, r1, x);
    }
    forall x
      ensures Spread(adj, v, st, r, x)
    {
      assert Spread(adj, v, s1, r1, x);
      if x == v {
        PathStart(adj, v);
      }
    }
  }

  /**
   * ExploreFrom(u, j) from a sound state: the result is sound, the
   * neighbours of u from position j on are all reached, and every vertex
   * reached anew is reachable from u.
   */
  lemma {:induction false} ExploreFromSound(adj: seq<seq<nat>>, u: nat, j: nat, st: St)
    requires Sound(adj, st) && u < |adj| && j <= |adj[u]|
    ensures var r := ExploreFrom(adj, u, j, st);
            Sound(adj, r) && (forall x :: Grown(st, r, x)) && (forall x :: Spread(adj, u, st, r, x)) &&
            forall i :: j <= i < |adj[u]| ==> r.pre[adj[u][i]] != NR
    decreases |Unreached(st.pre)|, 2, |adj[u]| - j
  {
    var r := ExploreFrom(adj, u, j, st);
    if j < |adj[u]| {
      var w := adj[u][j];
      var m := if st.pre[w] != NR then st else Explore(adj, w, st);
      if st.pre[w] == NR {
        ExploreSound(adj, w, st);
        ReachEdge(adj, u, j);
        forall x | 0 <= x < |adj| && st.pre[x] == NR && m.pre[x] != NR
          ensures Reachable(adj, u, x)
        {
          assert Spread(adj, w, st, m, x);
          ReachTrans(adj, u, w, x);
        }
      }
      assert m.pre[w] != NR;
      assert r == ExploreFrom(adj, u, j + 1, m);
      ExploreFromSound(adj, u, j + 1, m);
      forall x
        ensures Grown(st, r, x) && Spread(adj, u, st, r, x)
      {
        assert Grown(st, m, x) && Grown(m, r, x) && Spread(adj, u, m, r, x);
      }
    } else {
      forall x
        ensures Grown(st, r, x) && Spread(adj, u, st, r, x)
      {
        assert StampOk(adj, st, x);
      }
    }
  }

  /** The restarts from a sound state keep it sound and stamp every vertex of i .. hi - 1. */
  lemma {:induction false} RestartSound(adj: seq<seq<nat>>, i: nat, hi: nat, st: St)
    requires Sound(adj, st) && i <= hi <= |adj|
    ensures var r := Restart(adj, i, hi, st);
            Sound(adj, r) && (forall x :: Grown(st, r, x)) && forall x :: i <= x < hi ==> r.pre[x] != NR
    decreases hi - i
  {
    var r := Restart(adj, i, hi, st);
    if i < hi {
      var m := if st.pre[i] == NR then Explore(adj, i, st) else st;
      if st.pre[i] == NR {
        ExploreSound(adj, i, st);
      }
      RestartSound(adj, i + 1, hi, m);
      forall x
        ensures Grown(st, r, x)
      {
        assert Grown(st, m, x) && Grown(m, r, x);
      }
      assert Grown(m, r, i);
    } else {
      forall x
        ensures Grown(st, r, x)
      {
        assert StampOk(adj, st, x);
      }
    }
  }

  /** In a sound state, a walk from a vertex that is finished, and so are all reached vertices, stays among reached vertices. */
  lemma WalkReached(adj: seq<seq<nat>>, st: St, s: nat, v: nat, p: seq<nat>, ix: seq<nat>)
    requires Sound(adj, st) && PathTo(adj, s, v, p, ix) && s < |adj| && v < |adj| && st.pre[s] != NR
    requires forall x :: 0 <= x < |adj| && st.pre[x] != NR ==> st.post[x] != NR
    ensures st.pre[v] != NR
  {
    for k := 0 to |ix|
      invariant p[k] < |adj| && st.pre[p[k]] != NR
    {
      assert StampOk(adj, st, p[k]);
    }
  }

  /**
   * DepthFirst is a depth-first search: its result is sound, every vertex
   * is stamped, start is stamped first, and the vertices stamped no later
   * than post[start] are exactly those reachable from start.
   */
  lemma DepthFirstSound(adj: seq<seq<nat>>, start: nat)
    requires Bounded(adj) && 2 * |adj| < NR && start < |adj|
    ensures var r := DepthFirst(adj, start);
            Sound(adj, r) && r.pre[start] == 0 &&
            (forall x :: 0 <= x < |adj| ==> r.pre[x] != NR) &&
            forall x :: 0 <= x < |adj| ==> (Reachable(adj, start, x) <==> r.pre[x] <= r.post[start])
  {
    var n := |adj|;
    BlankUnreached(n);
    var s0 := Blank(n);
    assert Sound(adj, s0) by {
      forall x
        ensures StampOk(adj, s0, x)
      {
      }
    }
    var s1 := Explore(adj, start, s0);
    ExploreSound(adj, start, s0);
    assert Restart(adj, start, n, s0) == Restart(adj, start + 1, n, s1);
    RestartSound(adj, start + 1, n, s1);
    var s2 := Restart(adj, start + 1, n, s1);
    RestartSound(adj, 0, start, s2);
    var r := Restart(adj, 0, start, s2);
    assert r == DepthFirst(adj, start);
    forall x | 0 <= x < n
      ensures r.pre[x] != NR && Grown(s1, r, x)
    {
      assert Grown(s1, s2, x) && Grown(s2, r, x);
      if x < start {
        assert r.pre[x] != NR;
      } else if x > start {
        assert s2.pre[x] != NR;
      }
    }
    assert Grown(s1, r, start);
    forall x | 0 <= x < n
      ensures Reachable(adj, start, x) <==> r.pre[x] <= r.post[start]
    {
      assert Grown(s0, s1, x) && Spread(adj, start, s0, s1, x);
      if Reachable(adj, start, x) {
        var p, ix :| PathTo(adj, start, x, p, ix);
        forall y | 0 <= y < n && s1.pre[y] != NR
          ensures s1.post[y] != NR
        {
          assert Grown(s0, s1, y);
        }
        WalkReached(adj, s1, start, x, p, ix);
      }
    }
  }
}
