/**
 * Depth-first search over an adjacency list (dfs.c). A counter c, starting
 * at 0, stamps each vertex twice: pre[u] when u is first reached (previsit)
 * and post[u] when all of u's neighbours have been reached (postvisit). The
 * search starts at start, then restarts from every vertex not yet reached,
 * first those after start and then those before it. Recursion is emulated
 * with a stack of (u, vi) pairs: vertex u and the position in u's
 * neighbour list from which to look for an unreached neighbour.
 *
 * dfs is proved to leave exactly the stamps of the recursive search
 * DfsRecursive.DepthFirst, and the result is stated as DfsResult: the 2n
 * stamps are exactly 0 .. 2n - 1, each used once, pre[u] < post[u],
 * pre[start] == 0, every neighbour of u is reached before u is finished, a
 * vertex without neighbours is finished right after it is reached, the
 * stamp intervals of two vertices are disjoint or nested, and the vertices
 * stamped no later than post[start] are those reachable from start.
 */
module Dfs {
  import opened Base
  import opened Paths
  import opened DfsRecursive
  import Graph
  import Stack

  /** A stack entry: vertex u, and the position vi in u's list to continue from. */
  datatype Uvi = Uvi(u: nat, vi: nat)

  /** What a counter value stamped: the previsit or the postvisit of vertex v. */
  datatype Stamp = Pre(v: nat) | Post(v: nat)

  /** The vertices of the stack entries, bottom first. */
  function Us(S: seq<Uvi>): (r: seq<nat>)
    ensures |r| == |S| && forall k :: 0 <= k < |S| ==> r[k] == S[k].u
  {
    seq(|S|, k requires 0 <= k < |S| => S[k].u)
  }

  /** Distinct stamps have distinct codes below twice the number of vertices. */
  function Code(e: Stamp): nat
  {
    if e.Pre? then 2 * e.v else 2 * e.v + 1
  }

  /** One stamp per vertex in each array, and all 2n stamps stay below NR. */
  ghost predicate Sized(adj: seq<seq<nat>>, pre: seq<nat>, post: seq<nat>)
  {
    |pre| == |adj| && |post| == |adj| && 2 * |adj| < NR
  }

  /** The counter value that stamp e records. */
  ghost function Value(pre: seq<nat>, post: seq<nat>, e: Stamp): nat
    requires e.v < |pre| && e.v < |post|
  {
    if e.Pre? then pre[e.v] else post[e.v]
  }

  /** Counter value t went to the stamp ev[t]. */
  ghost predicate EventOk(adj: seq<seq<nat>>, pre: seq<nat>, post: seq<nat>, ev: seq<Stamp>, t: int)
  {
    Sized(adj, pre, post) &&
    (0 <= t < |ev| ==> ev[t].v < |adj| && Value(pre, post, ev[t]) == t)
  }

  /** Every neighbour of u was reached before u was finished. */
  ghost predicate Finished(adj: seq<seq<nat>>, pre: seq<nat>, post: seq<nat>, u: nat)
  {
    Sized(adj, pre, post) && u < |adj| &&
    forall j :: 0 <= j < |adj[u]| ==> adj[u][j] < |adj| && pre[adj[u][j]] < post[u]
  }

  /**
   * The stamps of u come from the counter; a finished u was reached first,
   * has all its neighbours reached, and, without neighbours, was finished
   * right after it was reached; u is on the stack exactly when it is reached
   * but not finished.
   */
  ghost predicate VertexOk(adj: seq<seq<nat>>, pre: seq<nat>, post: seq<nat>, ev: seq<Stamp>, S: seq<Uvi>, u: int)
  {
    Sized(adj, pre, post) &&
    (0 <= u < |adj| ==>
      (pre[u] != NR ==> pre[u] < |ev| && ev[pre[u]] == Pre(u)) &&
      (post[u] != NR ==> post[u] < |ev| && ev[post[u]] == Post(u) && pre[u] < post[u] &&
                         Finished(adj, pre, post, u) && (adj[u] == [] ==> post[u] == pre[u] + 1)) &&
      (pre[u] != NR && post[u] == NR <==> u in Us(S)))
  }

  /**
   * The k-th stack entry names a vertex whose neighbours before position vi
   * are reached; below the top, vi is a position of the list (the neighbour
   * being explored); a top entry without neighbours was reached by the last
   * counter value.
   */
  ghost predicate EntryOk(adj: seq<seq<nat>>, pre: seq<nat>, ev: seq<Stamp>, S: seq<Uvi>, k: int)
  {
    |pre| == |adj| &&
    (0 <= k < |S| ==>
      S[k].u < |adj| && S[k].vi <= |adj[S[k].u]| &&
      (forall j :: 0 <= j < S[k].vi ==> adj[S[k].u][j] < |adj| && pre[adj[S[k].u][j]] != NR) &&
      (k < |S| - 1 ==> S[k].vi < |adj[S[k].u]|) &&
      (k == |S| - 1 && adj[S[k].u] == [] ==> pre[S[k].u] + 1 == |ev|))
  }

  /** The state of dfs between steps; ev lists what each counter value stamped. */
  ghost predicate DfsInv(adj: seq<seq<nat>>, pre: seq<nat>, post: seq<nat>, ev: seq<Stamp>, S: seq<Uvi>)
  {
    Bounded(adj) && Sized(adj, pre, post) &&
    (forall t :: EventOk(adj, pre, post, ev, t)) &&
    (forall u :: VertexOk(adj, pre, post, ev, S, u)) &&
    (forall k :: EntryOk(adj, pre, ev, S, k)) &&
    Distinct(Us(S))
  }

  /** Counter value t is the previsit or the postvisit stamp of some vertex. */
  ghost predicate Used(pre: seq<nat>, post: seq<nat>, t: nat)
  {
    exists u :: 0 <= u < |pre| && u < |post| && (pre[u] == t || post[u] == t)
  }

  /** The stamps as a counter leaves them: 0 .. 2n - 1 each used once, every vertex reached before it is finished. */
  ghost predicate Stamped(adj: seq<seq<nat>>, start: nat, pre: seq<nat>, post: seq<nat>)
  {
    Sized(adj, pre, post) && start < |adj| && pre[start] == 0 &&
    (forall u :: 0 <= u < |adj| ==> pre[u] < post[u] < 2 * |adj|) &&
    (forall u, v :: 0 <= u < |adj| && 0 <= v < |adj| && u != v ==> pre[u] != pre[v] && post[u] != post[v]) &&
    (forall u, v :: 0 <= u < |adj| && 0 <= v < |adj| ==> pre[u] != post[v]) &&
    (forall t :: 0 <= t < 2 * |adj| ==> Used(pre, post, t)) &&
    (forall u :: 0 <= u < |adj| ==> Finished(adj, pre, post, u)) &&
    (forall u :: 0 <= u < |adj| && adj[u] == [] ==> post[u] == pre[u] + 1)
  }

  /**
   * What dfs leaves in pre and post: the stamps of a counter, intervals
   * [pre, post] that are disjoint or nested, and the vertices stamped no
   * later than post[start] are exactly those reachable from start.
   */
  ghost predicate DfsResult(adj: seq<seq<nat>>, start: nat, pre: seq<nat>, post: seq<nat>)
  {
    Stamped(adj, start, pre, post) &&
    (forall u, v :: 0 <= u < |adj| && 0 <= v < |adj| && pre[u] < pre[v] ==> post[u] < pre[v] || post[v] < post[u]) &&
    (forall x :: 0 <= x < |adj| ==> (Reachable(adj, start, x) <==> pre[x] <= post[start]))
  }

  /** The stamps of the recursive search, once they are known to be a counter's, are a DFS result. */
  lemma DfsComplete(adj: seq<seq<nat>>, start: nat, pre: seq<nat>, post: seq<nat>)
    requires Bounded(adj) && 2 * |adj| < NR && start < |adj| && Stamped(adj, start, pre, post)
    requires pre == DepthFirst(adj, start).pre && post == DepthFirst(adj, start).post
    ensures DfsResult(adj, start, pre, post)
  {
    var r := DepthFirst(adj, start);
    DepthFirstSound(adj, start);
    forall u, v | 0 <= u < |adj| && 0 <= v < |adj| && pre[u] < pre[v]
      ensures post[u] < pre[v] || post[v] < post[u]
    {
      assert StampOk(adj, r, u);
    }
  }

  /** The entries of S name vertices and positions in their lists. */
  ghost predicate Frames(adj: seq<seq<nat>>, S: seq<Uvi>)
  {
    forall k :: 0 <= k < |S| ==> S[k].u < |adj| && S[k].vi <= |adj[S[k].u]|
  }

  /**
   * What the recursion still has to do for the stack S from state st: the
   * top entry (u, vi) explores u's list from position vi on and postvisits
   * u, then the entries below it do the same.
   */
  ghost function Unwind(adj: seq<seq<nat>>, S: seq<Uvi>, st: St): St
    requires Fits(adj, st) && Frames(adj, S) && st.c + 2 * |Unreached(st.pre)| + |S| <= 2 * |adj|
    decreases |S|
  {
    if S == [] then st
    else
      var top := S[|S| - 1];
      Unwind(adj, S[..|S| - 1], Postvisit(ExploreFrom(adj, top.u, top.vi, st), top.u))
  }

  /**
   * The stack S in state (pre, post, c) is on its way to target: the
   * counter values still to come are two per unreached vertex and one per
   * stack entry, and unwinding S yields target.
   */
  ghost predicate Tracks(adj: seq<seq<nat>>, S: seq<Uvi>, pre: seq<nat>, post: seq<nat>, c: nat, target: St)
  {
    Fits(adj, St(pre, post, c)) && Frames(adj, S) && c + 2 * |Unreached(pre)| + |S| == 2 * |adj| &&
    Unwind(adj, S, St(pre, post, c)) == target
  }

  /** Between searches: the counter values still to come are two per unreached vertex. */
  ghost predicate Balanced(adj: seq<seq<nat>>, pre: seq<nat>, post: seq<nat>, c: nat)
  {
    Fits(adj, St(pre, post, c)) && c + 2 * |Unreached(pre)| == 2 * |adj|
  }

  /** search(u) starts by previsiting u and pushing (u, 0), which unwinds to Explore(u). */
  lemma RefStart(adj: seq<seq<nat>>, pre: seq<nat>, post: seq<nat>, c: nat, u: nat)
    requires Balanced(adj, pre, post, c) && u < |adj| && pre[u] == NR
    ensures Tracks(adj, [Uvi(u, 0)], pre[u := c], post, c + 1, Explore(adj, u, St(pre, post, c)))
  {
    var st := St(pre, post, c);
    var st' := Previsit(st, u);
    UnreachedPrevisit(st, u);
    assert st' == St(pre[u := c], post, c + 1);
    assert Fits(adj, st');
    UnwindTop(adj, [Uvi(u, 0)], st');
    assert [Uvi(u, 0)][..0] == [];
  }

  /** Finishing the top vertex u, whose list has no unreached neighbour from vi on, keeps the unwinding. */
  lemma RefRetreat(adj: seq<seq<nat>>, S: seq<Uvi>, pre: seq<nat>, post: seq<nat>, c: nat, target: St, u: nat, vi: nat)
    requires Tracks(adj, S, pre, post, c, target) && S != [] && S[|S| - 1] == Uvi(u, vi)
    requires forall j :: vi <= j < |adj[u]| ==> pre[adj[u][j]] != NR
    ensures Tracks(adj, S[..|S| - 1], pre, post[u := c], c + 1, target)
  {
    ExploreFromSkip(adj, u, vi, |adj[u]|, St(pre, post, c));
  }

  /**
   * Reaching the neighbour at position r of the top vertex u, when the
   * neighbours from vi to r - 1 are reached, keeps the unwinding: exploring
   * u's list from vi is exploring that neighbour and then the list from r.
   */
  lemma RefDescend(adj: seq<seq<nat>>, S: seq<Uvi>, pre: seq<nat>, post: seq<nat>, c: nat, target: St,
                   u: nat, vi: nat, r: nat)
    requires Tracks(adj, S, pre, post, c, target) && S != [] && S[|S| - 1] == Uvi(u, vi)
    requires vi <= r < |adj[u]| && forall j :: vi <= j < r ==> pre[adj[u][j]] != NR
    requires pre[adj[u][r]] == NR
    ensures Tracks(adj, S[..|S| - 1] + [Uvi(u, r), Uvi(adj[u][r], 0)], pre[adj[u][r] := c], post, c + 1, target)
  {
    var st := St(pre, post, c);
    var v := adj[u][r];
    UnreachedPrevisit(st, v);
    UnwindDescend(adj, S, st, u, vi, r);
  }

  /** The unwinding of RefDescend, on a state st. */
  lemma UnwindDescend(adj: seq<seq<nat>>, S: seq<Uvi>, st: St, u: nat, vi: nat, r: nat)
    requires Fits(adj, st) && Frames(adj, S) && st.c + 2 * |Unreached(st.pre)| + |S| == 2 * |adj|
    requires S != [] && S[|S| - 1] == Uvi(u, vi)
    requires vi <= r < |adj[u]| && forall j :: vi <= j < r ==> st.pre[adj[u][j]] != NR
    requires st.pre[adj[u][r]] == NR
    ensures var S2 := S[..|S| - 1] + [Uvi(u, r), Uvi(adj[u][r], 0)];
            var st' := Previsit(st, adj[u][r]);
            Fits(adj, st') && Frames(adj, S2) && st'.c + 2 * |Unreached(st'.pre)| + |S2| == 2 * |adj| &&
            Unwind(adj, S2, st') == Unwind(adj, S, st)
  {
    var v := adj[u][r];
    var last := |S| - 1;
    var S1 := S[..last] + [Uvi(u, r)];
    var S2 := S1 + [Uvi(v, 0)];
    assert S[..|S| - 1] + [Uvi(u, r), Uvi(adj[u][r], 0)] == S2;
    UnreachedPrevisit(st, v);
    var m := Explore(adj, v, st);
    ExploreSkipOne(adj, u, vi, r, st);
    assert Frames(adj, S2) by {
      forall k | 0 <= k < |S2|
        ensures S2[k].u < |adj| && S2[k].vi <= |adj[S2[k].u]|
      {
        if k < last {
          assert S2[k] == S[k];
        }
      }
    }
    assert S2[..|S2| - 1] == S1 && S1[..|S1| - 1] == S[..last];
    UnwindTop(adj, S2, Previsit(st, v));
    assert Unwind(adj, S2, Previsit(st, v)) == Unwind(adj, S1, m);
    UnwindTop(adj, S1, m);
    UnwindTop(adj, S, st);
  }

  /**
   * One pass of search's loop from stack S: the top entry (u, vi) has its
   * first unreached neighbour from vi on at position r, or r is the length
   * of u's list; then u is finished, or that neighbour is reached and pushed.
   */
  ghost predicate Moved(adj: seq<seq<nat>>, S: seq<Uvi>, pre: seq<nat>, post: seq<nat>, c: nat, r: nat,
                        S': seq<Uvi>, pre': seq<nat>, post': seq<nat>)
  {
    S != [] && S[|S| - 1].u < |adj| && S[|S| - 1].u < |post| && S[|S| - 1].vi <= r <= |adj[S[|S| - 1].u]| &&
    var u, vi := S[|S| - 1].u, S[|S| - 1].vi;
    (forall j :: vi <= j < r ==> adj[u][j] < |pre| && pre[adj[u][j]] != NR) &&
    if r == |adj[u]| then
      S' == S[..|S| - 1] && pre' == pre && post' == post[u := c]
    else
      adj[u][r] < |pre| && pre[adj[u][r]] == NR &&
      S' == S[..|S| - 1] + [Uvi(u, r), Uvi(adj[u][r], 0)] && pre' == pre[adj[u][r] := c] && post' == post
  }

  /** One pass of search's loop keeps the stack on its way to the same result. */
  lemma RefStep(adj: seq<seq<nat>>, S: seq<Uvi>, pre: seq<nat>, post: seq<nat>, c: nat, target: St, r: nat,
                S': seq<Uvi>, pre': seq<nat>, post': seq<nat>, c': nat)
    requires Tracks(adj, S, pre, post, c, target) && Moved(adj, S, pre, post, c, r, S', pre', post') && c' == c + 1
    ensures Tracks(adj, S', pre', post', c', target)
  {
    var u, vi := S[|S| - 1].u, S[|S| - 1].vi;
    if r == |adj[u]| {
      RefRetreat(adj, S, pre, post, c, target, u, vi);
    } else {
      RefDescend(adj, S, pre, post, c, target, u, vi, r);
    }
  }

  /** search(u) starts by previsiting u and pushing (u, 0): both invariants hold, on the way to Explore(u). */
  lemma SearchStart(adj: seq<seq<nat>>, pre: seq<nat>, post: seq<nat>, ev: seq<Stamp>, c: nat, u: nat) returns (target: St)
    requires c == |ev| && DfsInv(adj, pre, post, ev, []) && Balanced(adj, pre, post, c) && u < |adj| && pre[u] == NR
    ensures target == Explore(adj, u, St(pre, post, c))
    ensures DfsInv(adj, pre[u := c], post, ev + [Pre(u)], [Uvi(u, 0)])
    ensures Tracks(adj, [Uvi(u, 0)], pre[u := c], post, c + 1, target)
  {
    target := Explore(adj, u, St(pre, post, c));
    DfsStart(adj, pre, post, ev, u);
    RefStart(adj, pre, post, c, u);
  }

  /** An empty stack has reached its target. */
  lemma TracksEnd(adj: seq<seq<nat>>, pre: seq<nat>, post: seq<nat>, c: nat, target: St)
    requires Tracks(adj, [], pre, post, c, target)
    ensures St(pre, post, c) == target && Balanced(adj, pre, post, c)
  {
  }

  /** One pass of search's loop keeps the invariant, with the stamp it gives recorded. */
  lemma DfsStep(adj: seq<seq<nat>>, S: seq<Uvi>, pre: seq<nat>, post: seq<nat>, ev: seq<Stamp>, r: nat,
                S': seq<Uvi>, pre': seq<nat>, post': seq<nat>) returns (ev': seq<Stamp>)
    requires DfsInv(adj, pre, post, ev, S) && Moved(adj, S, pre, post, |ev|, r, S', pre', post')
    ensures |ev'| == |ev| + 1 && DfsInv(adj, pre', post', ev', S')
  {
    var u, vi := S[|S| - 1].u, S[|S| - 1].vi;
    assert EntryOk(adj, pre, ev, S, |S| - 1);
    if r == |adj[u]| {
      DfsRetreat(adj, pre, post, ev, S, u, vi);
      ev' := ev + [Post(u)];
    } else {
      DfsDescend(adj, pre, post, ev, S, u, vi, r);
      ev' := ev + [Pre(adj[u][r])];
    }
  }

  /** Unwinding a nonempty stack finishes its top entry first. */
  lemma UnwindTop(adj: seq<seq<nat>>, S: seq<Uvi>, st: St)
    requires Fits(adj, st) && Frames(adj, S) && st.c + 2 * |Unreached(st.pre)| + |S| <= 2 * |adj| && S != []
    ensures var top := S[|S| - 1];
            var e := ExploreFrom(adj, top.u, top.vi, st);
            Frames(adj, S[..|S| - 1]) && e.c + 1 + 2 * |Unreached(e.pre)| + |S| - 1 <= 2 * |adj| &&
            Unwind(adj, S, st) == Unwind(adj, S[..|S| - 1], Postvisit(e, top.u))
  {
    var last := |S| - 1;
    var S' := S[..last];
    forall k | 0 <= k < |S'|
      ensures S'[k].u < |adj| && S'[k].vi <= |adj[S'[k].u]|
    {
      assert S'[k] == S[k];
    }
    assert S[last].u < |adj| && S[last].vi <= |adj[S[last].u]|;
    var e := ExploreFrom(adj, S[last].u, S[last].vi, st);
    assert Fits(adj, Postvisit(e, S[last].u));
  }

  /** Exploring u's list from vi, when the first unreached neighbour from vi on is at r, is exploring that neighbour first and then the list from r. */
  lemma ExploreSkipOne(adj: seq<seq<nat>>, u: nat, vi: nat, r: nat, st: St)
    requires Fits(adj, st) && u < |adj| && vi <= r < |adj[u]|
    requires forall j :: vi <= j < r ==> st.pre[adj[u][j]] != NR
    requires st.pre[adj[u][r]] == NR
    ensures ExploreFrom(adj, u, vi, st) == ExploreFrom(adj, u, r, Explore(adj, adj[u][r], st))
  {
    var m := Explore(adj, adj[u][r], st);
    ExploreFromSkip(adj, u, vi, r, st);
    assert ExploreFrom(adj, u, r, st) == ExploreFrom(adj, u, r + 1, m);
    assert ExploreFrom(adj, u, r, m) == ExploreFrom(adj, u, r + 1, m);
  }

  /** The counter never passes 2n, and the stack never holds more entries than there are vertices. */
  lemma DfsCount(adj: seq<seq<nat>>, pre: seq<nat>, post: seq<nat>, ev: seq<Stamp>, S: seq<Uvi>)
    requires DfsInv(adj, pre, post, ev, S)
    ensures |ev| <= 2 * |adj| && |S| <= |adj|
  {
    var codes := seq(|ev|, t requires 0 <= t < |ev| => Code(ev[t]));
    forall t, t' | 0 <= t < t' < |codes|
      ensures codes[t] != codes[t']
    {
      assert EventOk(adj, pre, post, ev, t) && EventOk(adj, pre, post, ev, t');
    }
    forall t | 0 <= t < |codes|
      ensures codes[t] < 2 * |adj|
    {
      assert EventOk(adj, pre, post, ev, t);
    }
    DistinctBelow(codes, 2 * |adj|);
    forall k | 0 <= k < |S|
      ensures Us(S)[k] < |adj|
    {
      assert EntryOk(adj, pre, ev, S, k);
    }
    DistinctBelow(Us(S), |adj|);
  }

  /** Before the first search: nothing is stamped and the stack is empty. */
  lemma DfsEmpty(adj: seq<seq<nat>>, pre: seq<nat>, post: seq<nat>)
    requires Bounded(adj) && Sized(adj, pre, post)
    requires forall x :: 0 <= x < |adj| ==> pre[x] == NR && post[x] == NR
    ensures DfsInv(adj, pre, post, [], [])
  {
    forall u
      ensures VertexOk(adj, pre, post, [], [], u)
    {
    }
  }

  /** search(u) on an unreached u: u is stamped with the counter and pushed with position 0. */
  lemma DfsStart(adj: seq<seq<nat>>, pre: seq<nat>, post: seq<nat>, ev: seq<Stamp>, u: nat)
    requires DfsInv(adj, pre, post, ev, []) && u < |adj| && pre[u] == NR
    ensures |ev| < NR && DfsInv(adj, pre[u := |ev|], post, ev + [Pre(u)], [Uvi(u, 0)])
  {
    DfsCount(adj, pre, post, ev, []);
    var pre', ev', S' := pre[u := |ev|], ev + [Pre(u)], [Uvi(u, 0)];
    assert Us(S') == [u];
    assert VertexOk(adj, pre, post, ev, [], u);
    forall t
      ensures EventOk(adj, pre', post, ev', t)
    {
      assert EventOk(adj, pre, post, ev, t);
    }
    forall x
      ensures VertexOk(adj, pre', post, ev', S', x)
    {
      assert VertexOk(adj, pre, post, ev, [], x);
      if 0 <= x < |adj| && post[x] != NR {
        assert Finished(adj, pre', post, x) by {
          FinishedKeep(adj, pre, post, x, u, |ev|);
        }
      }
    }
    assert EntryOk(adj, pre', ev', S', 0);
    forall k
      ensures EntryOk(adj, pre', ev', S', k)
    {
    }
  }

  /** Stamping an unreached vertex y keeps a finished vertex finished. */
  lemma FinishedKeep(adj: seq<seq<nat>>, pre: seq<nat>, post: seq<nat>, x: nat, y: nat, c: nat)
    requires Finished(adj, pre, post, x) && post[x] < NR && y < |pre| && pre[y] == NR
    ensures Finished(adj, pre[y := c], post, x)
  {
    forall j | 0 <= j < |adj[x]|
      ensures pre[y := c][adj[x][j]] < post[x]
    {
      assert adj[x][j] != y;
    }
  }

  /** Removing the top entry from the stack removes its vertex. */
  lemma UsPop(S: seq<Uvi>)
    requires S != []
    ensures Us(S) == Us(S[..|S| - 1]) + [S[|S| - 1].u]
  {
  }

  /**
   * A popped entry (u, vi) whose list has no unreached neighbour from vi on:
   * u is finished with the next counter value and leaves the stack.
   */
  lemma DfsRetreat(adj: seq<seq<nat>>, pre: seq<nat>, post: seq<nat>, ev: seq<Stamp>, S: seq<Uvi>, u: nat, vi: nat)
    requires DfsInv(adj, pre, post, ev, S) && S != [] && S[|S| - 1] == Uvi(u, vi)
    requires u < |adj| && vi <= |adj[u]|
    requires forall j :: vi <= j < |adj[u]| ==> pre[adj[u][j]] != NR
    ensures |ev| < NR && DfsInv(adj, pre, post[u := |ev|], ev + [Post(u)], S[..|S| - 1])
  {
    DfsCount(adj, pre, post, ev, S);
    var last := |S| - 1;
    var post', ev', S' := post[u := |ev|], ev + [Post(u)], S[..last];
    UsPop(S);
    assert EntryOk(adj, pre, ev, S, last);
    assert VertexOk(adj, pre, post, ev, S, u);
    assert u !in Us(S') by {
      assert Us(S) == Us(S') + [u];
    }
    forall t
      ensures EventOk(adj, pre, post', ev', t)
    {
      assert EventOk(adj, pre, post, ev, t);
    }
    forall j | 0 <= j < |adj[u]|
      ensures adj[u][j] < |adj| && pre[adj[u][j]] < |ev|
    {
      assert adj[u][j] < |adj|;
      assert VertexOk(adj, pre, post, ev, S, adj[u][j]);
    }
    assert Finished(adj, pre, post', u);
    forall x
      ensures VertexOk(adj, pre, post', ev', S', x)
    {
      assert VertexOk(adj, pre, post, ev, S, x);
      if 0 <= x < |adj| && x != u {
        assert x in Us(S) <==> x in Us(S');
        if post[x] != NR {
          assert Finished(adj, pre, post', x);
        }
      }
    }
    forall k
      ensures EntryOk(adj, pre, ev', S', k)
    {
      assert EntryOk(adj, pre, ev, S, k);
    }
  }

  /**
   * A popped entry (u, vi) whose first unreached neighbour from vi on is at
   * position r: (u, r) goes back on the stack, and that neighbour is stamped
   * with the next counter value and pushed above it with position 0.
   */
  lemma DfsDescend(adj: seq<seq<nat>>, pre: seq<nat>, post: seq<nat>, ev: seq<Stamp>, S: seq<Uvi>, u: nat, vi: nat, r: nat)
    requires DfsInv(adj, pre, post, ev, S) && S != [] && S[|S| - 1] == Uvi(u, vi)
    requires u < |adj| && vi <= r < |adj[u]|
    requires forall j :: vi <= j < r ==> pre[adj[u][j]] != NR
    requires pre[adj[u][r]] == NR
    ensures var v := adj[u][r];
            var S' := S[..|S| - 1] + [Uvi(u, r), Uvi(v, 0)];
            |ev| < NR && |S'| <= |adj| && v < |adj| &&
            DfsInv(adj, pre[v := |ev|], post, ev + [Pre(v)], S')
  {
    DfsCount(adj, pre, post, ev, S);
    var last := |S| - 1;
    var v := adj[u][r];
    var pre', ev', S' := pre[v := |ev|], ev + [Pre(v)], S[..last] + [Uvi(u, r), Uvi(v, 0)];
    UsPop(S);
    assert Us(S') == Us(S) + [v];
    assert EntryOk(adj, pre, ev, S, last);
    assert VertexOk(adj, pre, post, ev, S, v);
    assert post[v] == NR;
    assert v !in Us(S);
    assert Distinct(Us(S'));
    forall t
      ensures EventOk(adj, pre', post, ev', t)
    {
      assert EventOk(adj, pre, post, ev, t);
    }
    forall x
      ensures VertexOk(adj, pre', post, ev', S', x)
    {
      assert VertexOk(adj, pre, post, ev, S, x);
      if 0 <= x < |adj| && x != v {
        assert x in Us(S) <==> x in Us(S');
        if post[x] != NR {
          FinishedKeep(adj, pre, post, x, v, |ev|);
        }
      }
    }
    forall k
      ensures EntryOk(adj, pre', ev', S', k)
    {
      assert EntryOk(adj, pre, ev, S, k);
    }
    forall k | 0 <= k < |S'|
      ensures Us(S')[k] < |adj|
    {
      assert EntryOk(adj, pre', ev', S', k);
    }
    DistinctBelow(Us(S'), |adj|);
  }

  /** After the last search: every vertex stamped twice, with the stamps 0 .. 2n - 1 each used once. */
  lemma DfsDone(adj: seq<seq<nat>>, start: nat, pre: seq<nat>, post: seq<nat>, ev: seq<Stamp>)
    requires DfsInv(adj, pre, post, ev, []) && start < |adj| && pre[start] == 0
    requires forall x :: 0 <= x < |adj| ==> pre[x] != NR
    ensures Stamped(adj, start, pre, post)
  {
    DfsCount(adj, pre, post, ev, []);
    var n := |adj|;
    forall u | 0 <= u < n
      ensures post[u] != NR && pre[u] < post[u] < |ev| && ev[pre[u]] == Pre(u) && ev[post[u]] == Post(u)
    {
      assert VertexOk(adj, pre, post, ev, [], u);
    }
    var codes := seq(|ev|, t requires 0 <= t < |ev| => Code(ev[t]));
    forall x: nat | x < 2 * n
      ensures x in codes
    {
      var u := x / 2;
      if x % 2 == 0 {
        assert codes[pre[u]] == x;
      } else {
        assert codes[post[u]] == x;
      }
    }
    CoverSize(codes, 2 * n);
    forall t | 0 <= t < 2 * n
      ensures Used(pre, post, t)
    {
      assert EventOk(adj, pre, post, ev, t);
      var u := ev[t].v;
      assert pre[u] == t || post[u] == t;
    }
    forall u | 0 <= u < n
      ensures Finished(adj, pre, post, u) && (adj[u] == [] ==> post[u] == pre[u] + 1)
    {
      assert VertexOk(adj, pre, post, ev, [], u);
    }
  }

  /**
   * next_uvi: the position of the first unreached neighbour of uvi.u at or
   * after uvi.vi, or the length of its list when there is none.
   */
  method NextUvi<W>(a: Graph.AdjLst<W>, uvi: Uvi, pre: array<nat>) returns (r: Uvi)
    requires uvi.u < a.vts.Length && uvi.vi <= |a.vts[uvi.u]|
    requires forall j :: 0 <= j < |a.vts[uvi.u]| ==> a.vts[uvi.u][j] < pre.Length
    ensures r.u == uvi.u && uvi.vi <= r.vi <= |a.vts[uvi.u]|
    ensures forall j :: uvi.vi <= j < r.vi ==> pre[a.vts[uvi.u][j]] != NR
    ensures r.vi < |a.vts[uvi.u]| ==> pre[a.vts[uvi.u][r.vi]] == NR
  {
    var vts := a.vts[uvi.u];
    for i := uvi.vi to |vts|
      invariant forall j :: uvi.vi <= j < i ==> pre[vts[j]] != NR
    {
      if pre[vts[i]] == NR {
        return Uvi(uvi.u, i);
      }
    }
    return Uvi(uvi.u, |vts|);
  }

  /**
   * dfs: stamps pre and post for every vertex, searching from start and
   * then from each unreached vertex after start and before start, with one
   * stack that starts with one slot and may grow to SIZE_MAX slots.
   */
  method Dfs<W>(a: Graph.AdjLst<W>, start: nat, pre: array<nat>, post: array<nat>)
    requires a.Valid() && start < a.numVts && 2 * a.numVts < SIZE_MAX
    requires pre.Length == a.numVts && post.Length == a.numVts && pre != post
    modifies pre, post
    ensures Bounded(a.vts[..]) && pre[..] == DepthFirst(a.vts[..], start).pre && post[..] == DepthFirst(a.vts[..], start).post
    ensures DfsResult(a.vts[..], start, pre[..], post[..])
  {
    ghost var adj := a.vts[..];
    a.ValidBounded();
    for v := 0 to a.numVts
      invariant forall x :: 0 <= x < v ==> pre[x] == NR && post[x] == NR
    {
      pre[v] := NR;
      post[v] := NR;
    }
    var s := new Stack.Stack<Uvi>(1, SIZE_MAX);
    DfsEmpty(adj, pre[..], post[..]);
    assert pre[..] == Blank(|adj|).pre && post[..] == Blank(|adj|).post;
    BlankUnreached(|adj|);
    var c: nat;
    ghost var ev: seq<Stamp>;
    c, ev := Sweep(a, s, start, a.numVts, 0, pre, post, adj, []);
    c, ev := Sweep(a, s, 0, start, c, pre, post, adj, ev);
    DepthFirstSound(adj, start);
    DfsDone(adj, start, pre[..], post[..], ev);
    DfsComplete(adj, start, pre[..], post[..]);
  }

  /** One loop of dfs: searches from each unreached vertex in lo .. hi - 1, in order. */
  method Sweep<W>(a: Graph.AdjLst<W>, s: Stack.Stack<Uvi>, lo: nat, hi: nat, c: nat, pre: array<nat>, post: array<nat>,
                  ghost adj: seq<seq<nat>>, ghost ev: seq<Stamp>) returns (c': nat, ghost ev': seq<Stamp>)
    requires a.vts[..] == adj && pre.Length == |adj| && post.Length == |adj| && pre != post
    requires s.Valid() && s.countMax == SIZE_MAX && pre !in s.Repr && post !in s.Repr && s.Elements() == []
    requires lo <= hi <= |adj| && c == |ev| && DfsInv(adj, pre[..], post[..], ev, []) && Balanced(adj, pre[..], post[..], c)
    modifies pre, post, s, s.elts
    ensures s.Valid() && fresh(s.Repr - old(s.Repr)) && s.countMax == SIZE_MAX && s.Elements() == []
    ensures pre !in s.Repr && post !in s.Repr
    ensures c' == |ev'| && DfsInv(adj, pre[..], post[..], ev', []) && Balanced(adj, pre[..], post[..], c')
    ensures St(pre[..], post[..], c') == Restart(adj, lo, hi, St(old(pre[..]), old(post[..]), c))
  {
    ghost var goal, R0 := Restart(adj, lo, hi, St(pre[..], post[..], c)), s.Repr;
    c', ev' := c, ev;
    for i := lo to hi
      invariant s.Valid() && fresh(s.Repr - R0) && s.countMax == SIZE_MAX && s.Elements() == []
      invariant pre !in s.Repr && post !in s.Repr
      invariant c' == |ev'| && DfsInv(adj, pre[..], post[..], ev', []) && Balanced(adj, pre[..], post[..], c')
      invariant Restart(adj, i, hi, St(pre[..], post[..], c')) == goal
    {
      ghost var st0 := St(pre[..], post[..], c');
      c', ev' := Visit(a, s, i, c', pre, post, adj, ev', st0.pre, st0.post);
      assert Restart(adj, i, hi, st0) == Restart(adj, i + 1, hi, St(pre[..], post[..], c'));
    }
  }

  /** One pass of the outer loop: searches from vertex i when it is still unreached. */
  method Visit<W>(a: Graph.AdjLst<W>, s: Stack.Stack<Uvi>, i: nat, c: nat, pre: array<nat>, post: array<nat>,
                  ghost adj: seq<seq<nat>>, ghost ev: seq<Stamp>, ghost p: seq<nat>, ghost q: seq<nat>)
    returns (c': nat, ghost ev': seq<Stamp>)
    requires a.vts[..] == adj && pre.Length == |adj| && post.Length == |adj| && pre != post
    requires s.Valid() && s.countMax == SIZE_MAX && pre !in s.Repr && post !in s.Repr && s.Elements() == []
    requires pre[..] == p && post[..] == q
    requires c == |ev| && DfsInv(adj, p, q, ev, []) && Balanced(adj, p, q, c) && i < |adj|
    modifies pre, post, s, s.elts
    ensures s.Valid() && fresh(s.Repr - old(s.Repr)) && s.countMax == SIZE_MAX && s.Elements() == []
    ensures pre !in s.Repr && post !in s.Repr
    ensures c' == |ev'| && DfsInv(adj, pre[..], post[..], ev', []) && Balanced(adj, pre[..], post[..], c')
    ensures St(pre[..], post[..], c') == if p[i] == NR then Explore(adj, i, St(p, q, c)) else St(p, q, c)
  {
    c', ev' := c, ev;
    if pre[i] == NR {
      DfsCount(adj, p, q, ev, []);
      c', ev' := Search(a, s, i, c, pre, post, adj, ev, p, q);
    }
  }

  /** search: the depth-first search from the unreached vertex u, until the stack is empty again. */
  method Search<W>(a: Graph.AdjLst<W>, s: Stack.Stack<Uvi>, u: nat, c: nat, pre: array<nat>, post: array<nat>,
                   ghost adj: seq<seq<nat>>, ghost ev: seq<Stamp>, ghost p0: seq<nat>, ghost q0: seq<nat>)
    returns (c': nat, ghost ev': seq<Stamp>)
    requires a.vts[..] == adj && pre.Length == |adj| && post.Length == |adj| && pre != post
    requires s.Valid() && s.countMax == SIZE_MAX && pre !in s.Repr && post !in s.Repr && s.Elements() == []
    requires pre[..] == p0 && post[..] == q0
    requires c == |ev| && DfsInv(adj, p0, q0, ev, []) && Balanced(adj, p0, q0, c)
    requires u < |adj| && p0[u] == NR
    modifies pre, post, s, s.elts
    ensures s.Valid() && fresh(s.Repr - old(s.Repr)) && s.countMax == SIZE_MAX && s.Elements() == []
    ensures pre !in s.Repr && post !in s.Repr
    ensures c' == |ev'| && DfsInv(adj, pre[..], post[..], ev', []) && Balanced(adj, pre[..], post[..], c')
    ensures St(pre[..], post[..], c') == Explore(adj, u, St(p0, q0, c))
    ensures pre[u] == c && Keeps(p0, pre[..])
  {
    ghost var target := SearchStart(adj, p0, q0, ev, c, u);
    pre[u] := c;
    assert pre[..] == p0[u := c];
    c', ev' := RunFrom(a, s, u, c + 1, pre, post, adj, ev + [Pre(u)], target, p0[u := c], q0);
    TracksEnd(adj, pre[..], post[..], c', target);
    assert St(pre[..], post[..], c') == target;
  }

  /** The rest of search once u is previsited: pushes (u, 0), then drains the stack. */
  method RunFrom<W>(a: Graph.AdjLst<W>, s: Stack.Stack<Uvi>, u: nat, c: nat, pre: array<nat>, post: array<nat>,
                    ghost adj: seq<seq<nat>>, ghost ev: seq<Stamp>, ghost target: St,
                    ghost p: seq<nat>, ghost q: seq<nat>) returns (c': nat, ghost ev': seq<Stamp>)
    requires a.vts[..] == adj && pre.Length == |adj| && post.Length == |adj| && pre != post
    requires s.Valid() && s.countMax == SIZE_MAX && pre !in s.Repr && post !in s.Repr
    requires s.Elements() == [] && pre[..] == p && post[..] == q
    requires c == |ev| && DfsInv(adj, p, q, ev, [Uvi(u, 0)]) && Tracks(adj, [Uvi(u, 0)], p, q, c, target)
    modifies pre, post, s, s.elts
    ensures s.Valid() && fresh(s.Repr - old(s.Repr)) && s.countMax == SIZE_MAX && s.Elements() == []
    ensures pre !in s.Repr && post !in s.Repr
    ensures c' == |ev'| && DfsInv(adj, pre[..], post[..], ev', [])
    ensures Tracks(adj, [], pre[..], post[..], c', target)
  {
    var exited := s.Push(Uvi(u, 0));
    assert s.Elements() == [Uvi(u, 0)] && pre[..] == p && post[..] == q;
    c', ev' := Drain(a, s, c, pre, post, adj, ev, target, [Uvi(u, 0)], p, q);
  }

  /** search's loop: one pass per counter value, until the stack is empty. */
  method Drain<W>(a: Graph.AdjLst<W>, s: Stack.Stack<Uvi>, c: nat, pre: array<nat>, post: array<nat>,
                  ghost adj: seq<seq<nat>>, ghost ev: seq<Stamp>, ghost target: St,
                  ghost S: seq<Uvi>, ghost p: seq<nat>, ghost q: seq<nat>) returns (c': nat, ghost ev': seq<Stamp>)
    requires a.vts[..] == adj && pre.Length == |adj| && post.Length == |adj| && pre != post
    requires s.Valid() && s.countMax == SIZE_MAX && pre !in s.Repr && post !in s.Repr
    requires s.Elements() == S && pre[..] == p && post[..] == q
    requires c == |ev| && DfsInv(adj, p, q, ev, S) && Tracks(adj, S, p, q, c, target)
    modifies pre, post, s, s.elts
    ensures s.Valid() && fresh(s.Repr - old(s.Repr)) && s.countMax == SIZE_MAX && s.Elements() == []
    ensures pre !in s.Repr && post !in s.Repr
    ensures c' == |ev'| && DfsInv(adj, pre[..], post[..], ev', [])
    ensures Tracks(adj, [], pre[..], post[..], c', target)
  {
    c', ev' := c, ev;
    while s.numElts > 0
      invariant s.Valid() && fresh(s.Repr - old(s.Repr)) && s.countMax == SIZE_MAX
      invariant pre !in s.Repr && post !in s.Repr
      invariant c' == |ev'| && DfsInv(adj, pre[..], post[..], ev', s.Elements())
      invariant Tracks(adj, s.Elements(), pre[..], post[..], c', target)
      decreases 2 * |adj| - c'
    {
      DfsCount(adj, pre[..], post[..], ev', s.Elements());
      ghost var S, p, q, c0 := s.Elements(), pre[..], post[..], c';
      assert EntryOk(adj, p, ev', S, |S| - 1);
      ghost var r := Advance(a, s, c', pre, post, adj);
      c' := c' + 1;
      RefStep(adj, S, p, q, c0, target, r, s.Elements(), pre[..], post[..], c');
      ev' := DfsStep(adj, S, p, q, ev', r, s.Elements(), pre[..], post[..]);
      DfsCount(adj, pre[..], post[..], ev', s.Elements());
    }
  }

  /** One pass of search's loop: pops an entry, then either finishes its vertex or reaches its next unreached neighbour. */
  method Advance<W>(a: Graph.AdjLst<W>, s: Stack.Stack<Uvi>, c: nat, pre: array<nat>, post: array<nat>,
                    ghost adj: seq<seq<nat>>) returns (ghost r: nat)
    requires a.vts[..] == adj && Bounded(adj) && pre.Length == |adj| && post.Length == |adj| && pre != post
    requires s.Valid() && s.countMax == SIZE_MAX && pre !in s.Repr && post !in s.Repr
    requires s.Elements() != [] && |s.Elements()| < SIZE_MAX
    requires s.Elements()[|s.Elements()| - 1].u < |adj|
    requires s.Elements()[|s.Elements()| - 1].vi <= |adj[s.Elements()[|s.Elements()| - 1].u]|
    modifies pre, post, s, s.elts
    ensures s.Valid() && fresh(s.Repr - old(s.Repr)) && s.countMax == SIZE_MAX
    ensures pre !in s.Repr && post !in s.Repr
    ensures Moved(adj, old(s.Elements()), old(pre[..]), old(post[..]), c, r, s.Elements(), pre[..], post[..])
  {
    ghost var S, p0, q0 := s.Elements(), pre[..], post[..];
    var uvi := s.Pop(Uvi(0, 0));
    ghost var vi := uvi.vi;
    assert pre[..] == p0 && post[..] == q0;
    assert uvi == S[|S| - 1] && s.Elements() == S[..|S| - 1];
    uvi := NextUvi(a, uvi, pre);
    r := uvi.vi;
    if uvi.vi == |a.vts[uvi.u]| {
      post[uvi.u] := c;
      assert post[..] == q0[uvi.u := c];
    } else {
      var exited := s.Push(uvi);
      var v := a.vts[uvi.u][uvi.vi];
      pre[v] := c;
      exited := s.Push(Uvi(v, 0));
      assert !exited;
      assert pre[..] == p0[v := c];
      assert s.Elements() == S[..|S| - 1] + [uvi, Uvi(v, 0)];
    }
  }
}
