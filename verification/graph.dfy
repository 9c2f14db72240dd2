/**
 * Graphs as edge lists and their adjacency lists. A graph has vertices
 * 0 .. numVts - 1 and edges (u[i], v[i]), each with a weight wts[i] when the
 * weight size is positive. An adjacency list keeps one stack of neighbours per
 * vertex (and, for a weighted graph, a parallel stack of weights); each stack
 * is represented by its contents, bottom first, which is the order of pushes.
 */
module Graph {
  import opened Base
  import Paths

  /** graph_t: an edge list; the arrays are empty (NULL) when there are no edges. */
  datatype Graph<W> = Graph(numVts: nat, numEs: nat, wtSize: nat, u: seq<nat>, v: seq<nat>, wts: seq<W>)

  /** The edge arrays hold numEs edges between vertices of the graph, with a weight each when weighted. */
  ghost predicate WellFormed<W>(g: Graph<W>)
  {
    |g.u| == g.numEs && |g.v| == g.numEs && (g.wtSize > 0 ==> |g.wts| == g.numEs) &&
    (forall i :: 0 <= i < g.numEs ==> g.u[i] < g.numVts && g.v[i] < g.numVts)
  }

  /** graph_base_init: n vertices and no edges. */
  function BaseInit<W>(n: nat, wtSize: nat): (g: Graph<W>)
    ensures WellFormed(g) && g.numVts == n && g.numEs == 0 && g.wtSize == wtSize
  {
    Graph(n, 0, wtSize, [], [], [])
  }

  /** The total length of a sequence of lists: the number of edges an adjacency list holds. */
  function Total<T>(s: seq<seq<T>>): nat
  {
    if |s| == 0 then 0 else Total(s[..|s| - 1]) + |s[|s| - 1]|
  }

  lemma {:induction false} TotalEmpty<T>(s: seq<seq<T>>)
    requires forall x :: 0 <= x < |s| ==> s[x] == []
    ensures Total(s) == 0
  {
    if |s| > 0 {
      TotalEmpty(s[..|s| - 1]);
    }
  }

  /** Replacing one list changes the total by the difference of the lengths. */
  lemma {:induction false} TotalUpdate<T>(s: seq<seq<T>>, x: nat, t: seq<T>)
    requires x < |s|
    ensures Total(s[x := t]) == Total(s) - |s[x]| + |t|
  {
    var s' := s[x := t];
    if x < |s| - 1 {
      assert s'[..|s| - 1] == s[..|s| - 1][x := t];
      TotalUpdate(s[..|s| - 1], x, t);
    } else {
      assert s'[..|s| - 1] == s[..|s| - 1];
    }
  }

  /** s with y pushed onto list x: stack_push on x's stack. */
  function Push<T>(s: seq<seq<T>>, x: nat, y: T): (r: seq<seq<T>>)
    requires x < |s|
    ensures |r| == |s| && r[x] == s[x] + [y]
    ensures forall z :: 0 <= z < |s| && z != x ==> r[z] == s[z]
  {
    s[x := s[x] + [y]]
  }

  /** Push when the coin answered nonzero; otherwise s. */
  function PushIf<T>(s: seq<seq<T>>, x: nat, y: T, b: bool): seq<seq<T>>
    requires x < |s|
  {
    if b then Push(s, x, y) else s
  }

  /** Every endpoint among the first k is a list of s. */
  ghost predicate Ends(ends: seq<nat>, k: nat, n: nat)
  {
    k <= |ends| && forall i :: 0 <= i < k ==> ends[i] < n
  }

  /** The lists after the first k edges of a directed build push vals[i] onto list tails[i], in edge order. */
  ghost function DirLists<T>(base: seq<seq<T>>, tails: seq<nat>, vals: seq<T>, k: nat): (r: seq<seq<T>>)
    requires Ends(tails, k, |base|) && k <= |vals|
    ensures |r| == |base|
  {
    if k == 0 then base else Push(DirLists(base, tails, vals, k - 1), tails[k - 1], vals[k - 1])
  }

  /**
   * The lists after the first k edges of an undirected build: edge i pushes
   * valsU[i] onto list u[i], then valsV[i] onto list v[i].
   */
  ghost function UndirLists<T>(base: seq<seq<T>>, u: seq<nat>, v: seq<nat>, valsU: seq<T>, valsV: seq<T>, k: nat)
    : (r: seq<seq<T>>)
    requires Ends(u, k, |base|) && Ends(v, k, |base|) && k <= |valsU| && k <= |valsV|
    ensures |r| == |base|
  {
    if k == 0 then base
    else Push(Push(UndirLists(base, u, v, valsU, valsV, k - 1), u[k - 1], valsU[k - 1]), v[k - 1], valsV[k - 1])
  }

  /** The vals[i] of the first k edges whose tail tails[i] is x, in edge order. */
  ghost function DirList<T>(tails: seq<nat>, vals: seq<T>, k: nat, x: nat): seq<T>
    requires k <= |tails| && k <= |vals|
  {
    if k == 0 then []
    else DirList(tails, vals, k - 1, x) + (if tails[k - 1] == x then [vals[k - 1]] else [])
  }

  /**
   * The values an undirected build pushes onto x's list for the first k
   * edges: valsU[i] when x is the edge's u end, then valsV[i] when x is its v end.
   */
  ghost function UndirList<T>(u: seq<nat>, v: seq<nat>, valsU: seq<T>, valsV: seq<T>, k: nat, x: nat): seq<T>
    requires k <= |u| && k <= |v| && k <= |valsU| && k <= |valsV|
  {
    if k == 0 then []
    else UndirList(u, v, valsU, valsV, k - 1, x) +
         (if u[k - 1] == x then [valsU[k - 1]] else []) +
         (if v[k - 1] == x then [valsV[k - 1]] else [])
  }

  /** After a directed build, list x is its old contents followed by the values of x's edges, in edge order. */
  lemma {:induction false} DirListsAt<T>(base: seq<seq<T>>, tails: seq<nat>, vals: seq<T>, k: nat, x: nat)
    requires Ends(tails, k, |base|) && k <= |vals| && x < |base|
    ensures DirLists(base, tails, vals, k)[x] == base[x] + DirList(tails, vals, k, x)
  {
    if k > 0 {
      DirListsAt(base, tails, vals, k - 1, x);
    }
  }

  /** After an undirected build, list x is its old contents followed by the values of x's edges, in edge order. */
  lemma {:induction false} UndirListsAt<T>(base: seq<seq<T>>, u: seq<nat>, v: seq<nat>, valsU: seq<T>, valsV: seq<T>,
                                           k: nat, x: nat)
    requires Ends(u, k, |base|) && Ends(v, k, |base|) && k <= |valsU| && k <= |valsV| && x < |base|
    ensures UndirLists(base, u, v, valsU, valsV, k)[x] == base[x] + UndirList(u, v, valsU, valsV, k, x)
  {
    if k > 0 {
      UndirListsAt(base, u, v, valsU, valsV, k - 1, x);
    }
  }

  /** A directed build lists y for x exactly when some edge among the first k is (x, y). */
  lemma {:induction false} DirListEdges(u: seq<nat>, v: seq<nat>, k: nat, x: nat, y: nat)
    requires k <= |u| && k <= |v|
    ensures y in DirList(u, v, k, x) <==> exists i :: 0 <= i < k && u[i] == x && v[i] == y
  {
    if k > 0 {
      DirListEdges(u, v, k - 1, x, y);
      if y in DirList(u, v, k, x) && y !in DirList(u, v, k - 1, x) {
        assert u[k - 1] == x && v[k - 1] == y;
      }
    }
  }

  /** An undirected build lists y for x exactly when some edge among the first k joins them. */
  lemma {:induction false} UndirListEdges(u: seq<nat>, v: seq<nat>, k: nat, x: nat, y: nat)
    requires k <= |u| && k <= |v|
    ensures y in UndirList(u, v, v, u, k, x) <==>
            exists i :: 0 <= i < k && ((u[i] == x && v[i] == y) || (v[i] == x && u[i] == y))
  {
    if k > 0 {
      UndirListEdges(u, v, k - 1, x, y);
      if y in UndirList(u, v, v, u, k, x) && y !in UndirList(u, v, v, u, k - 1, x) {
        assert (u[k - 1] == x && v[k - 1] == y) || (v[k - 1] == x && u[k - 1] == y);
      }
    }
  }

  /** An undirected build is symmetric: y is listed for x exactly when x is listed for y. */
  lemma UndirSymmetric(u: seq<nat>, v: seq<nat>, k: nat, x: nat, y: nat)
    requires k <= |u| && k <= |v|
    ensures y in UndirList(u, v, v, u, k, x) <==> x in UndirList(u, v, v, u, k, y)
  {
    UndirListEdges(u, v, k, x, y);
    UndirListEdges(u, v, k, y, x);
  }

  /** The number of bern calls the random builds make before row i, at `per` calls per vertex pair. */
  function RowStart(n: nat, per: nat, i: nat): nat
  {
    if i == 0 then 0 else RowStart(n, per, i - 1) + per * (if i <= n then n - i else 0)
  }

  lemma {:induction false} RowStartMono(n: nat, per: nat, i: nat, i': nat)
    requires i <= i'
    ensures RowStart(n, per, i) <= RowStart(n, per, i')
  {
    if i < i' {
      RowStartMono(n, per, i, i' - 1);
    }
  }

  /**
   * The index of the bern call that decides the edge (x, y), x != y: the
   * pairs i < j are visited row by row; a directed build makes two calls per
   * pair, (i, j) then (j, i), an undirected build one.
   */
  function Call(n: nat, dir: bool, x: nat, y: nat): nat
    requires x != y
  {
    var i, j := if x < y then x else y, if x < y then y else x;
    if dir then RowStart(n, 2, i) + 2 * (j - i - 1) + (if x < y then 0 else 1)
    else RowStart(n, 1, i) + (j - i - 1)
  }

  /** The calls of row i lie between the starts of rows i and i + 1. */
  lemma CallInRow(n: nat, dir: bool, x: nat, y: nat)
    requires x < n && y < n && x != y
    ensures var i := if x < y then x else y;
            var per := if dir then 2 else 1;
            RowStart(n, per, i) <= Call(n, dir, x, y) < RowStart(n, per, i + 1)
  {
    var i, j := if x < y then x else y, if x < y then y else x;
    assert j - i - 1 <= n - (i + 1) - 1;
    if dir {
      assert RowStart(n, 2, i + 1) == RowStart(n, 2, i) + 2 * (n - (i + 1));
    } else {
      assert RowStart(n, 1, i + 1) == RowStart(n, 1, i) + (n - (i + 1));
    }
  }

  /**
   * Each possible edge of a random build has a call of its own: distinct
   * ordered pairs (directed) or distinct unordered pairs (undirected) of
   * vertices below n get distinct calls.
   */
  lemma CallsDistinct(n: nat, dir: bool, x: nat, y: nat, x': nat, y': nat)
    requires x < n && y < n && x' < n && y' < n && x != y && x' != y'
    requires if dir then (x, y) != (x', y') else {x, y} != {x', y'}
    ensures Call(n, dir, x, y) != Call(n, dir, x', y')
  {
    var i := if x < y then x else y;
    var i' := if x' < y' then x' else y';
    if i < i' {
      RowsOrdered(n, dir, x, y, x', y');
    } else if i' < i {
      RowsOrdered(n, dir, x', y', x, y);
    } else if dir {
      SameRowDir(n, x, y, x', y');
    } else {
      SameRowUndir(n, x, y, x', y');
    }
  }

  /** Calls of an earlier row come before calls of a later row. */
  lemma RowsOrdered(n: nat, dir: bool, x: nat, y: nat, x': nat, y': nat)
    requires x < n && y < n && x' < n && y' < n && x != y && x' != y'
    requires (if x < y then x else y) < (if x' < y' then x' else y')
    ensures Call(n, dir, x, y) < Call(n, dir, x', y')
  {
    var per := if dir then 2 else 1;
    var i := if x < y then x else y;
    var i' := if x' < y' then x' else y';
    CallInRow(n, dir, x, y);
    CallInRow(n, dir, x', y');
    RowStartMono(n, per, i + 1, i');
  }

  /** Within one row of a directed build, the pair's larger vertex and its order pick the call. */
  lemma SameRowDir(n: nat, x: nat, y: nat, x': nat, y': nat)
    requires x != y && x' != y' && (x, y) != (x', y')
    requires (if x < y then x else y) == (if x' < y' then x' else y')
    ensures Call(n, true, x, y) != Call(n, true, x', y')
  {
    var j, j' := if x < y then y else x, if x' < y' then y' else x';
    assert j != j' || (x < y) != (x' < y');
  }

  /** Within one row of an undirected build, the pair's larger vertex picks the call. */
  lemma SameRowUndir(n: nat, x: nat, y: nat, x': nat, y': nat)
    requires x != y && x' != y' && {x, y} != {x', y'}
    requires (if x < y then x else y) == (if x' < y' then x' else y')
    ensures Call(n, false, x, y) != Call(n, false, x', y')
  {
    var i, j := if x < y then x else y, if x < y then y else x;
    var i', j' := if x' < y' then x' else y', if x' < y' then y' else x';
    assert {x, y} == {i, j} && {x', y'} == {i', j'};
  }

  /** The vertices y < k other than x whose call for the edge (x, y) answered nonzero, increasing. */
  ghost function RandList(n: nat, dir: bool, coin: nat -> bool, x: nat, k: nat): seq<nat>
  {
    if k == 0 then []
    else RandList(n, dir, coin, x, k - 1) +
         (if k - 1 != x && coin(Call(n, dir, x, k - 1)) then [k - 1] else [])
  }

  /** A random list is strictly increasing and holds y exactly when y < k, y != x and y's call for x answered nonzero. */
  lemma {:induction false} RandListMembers(n: nat, dir: bool, coin: nat -> bool, x: nat, k: nat)
    ensures forall a, b :: 0 <= a < b < |RandList(n, dir, coin, x, k)| ==>
              RandList(n, dir, coin, x, k)[a] < RandList(n, dir, coin, x, k)[b]
    ensures forall y: nat :: y in RandList(n, dir, coin, x, k) <==> y < k && y != x && coin(Call(n, dir, x, y))
  {
    if k > 0 {
      RandListMembers(n, dir, coin, x, k - 1);
      var s := RandList(n, dir, coin, x, k - 1);
      assert forall a :: 0 <= a < |s| ==> s[a] < k - 1 by {
        forall a | 0 <= a < |s|
          ensures s[a] < k - 1
        {
          assert s[a] in s;
        }
      }
    }
  }

  /** An undirected random build is symmetric: y is x's neighbour exactly when x is y's. */
  lemma RandUndirSymmetric(n: nat, coin: nat -> bool, x: nat, y: nat)
    requires x < n && y < n
    ensures y in RandList(n, false, coin, x, n) <==> x in RandList(n, false, coin, y, n)
  {
    RandListMembers(n, false, coin, x, n);
    RandListMembers(n, false, coin, y, n);
    if x != y {
      assert Call(n, false, x, y) == Call(n, false, y, x);
    }
  }

  /**
   * How far list x of a random build has got at pair (i, j) of the double
   * loop: rows before i are complete; row i has its neighbours below j; a
   * later vertex has its neighbours up to i once its pair with i is done.
   */
  function Reach(n: nat, x: nat, i: nat, j: nat): nat
  {
    if x < i then n else if x == i then j else if x < j then i + 1 else i
  }

  /** The lists of a random build at pair (i, j) of the double loop. */
  ghost function RandState(n: nat, dir: bool, coin: nat -> bool, i: nat, j: nat): (r: seq<seq<nat>>)
    ensures |r| == n
  {
    seq(n, x requires 0 <= x < n => RandList(n, dir, coin, x, Reach(n, x, i, j)))
  }

  /** Before the loops every list is empty. */
  lemma RandStart(n: nat, dir: bool, coin: nat -> bool)
    requires n >= 1
    ensures RandState(n, dir, coin, 0, 1) == seq(n, x => [])
  {
    assert RandList(n, dir, coin, 0, 1) == [];
  }

  /** After pair (i, j), i's list has j appended when call (i, j) answered. */
  lemma RandStepRow(n: nat, dir: bool, coin: nat -> bool, i: nat, j: nat)
    requires i < j < n
    ensures RandState(n, dir, coin, i, j + 1)[i] ==
            RandState(n, dir, coin, i, j)[i] + (if coin(Call(n, dir, i, j)) then [j] else [])
  {
    assert Reach(n, i, i, j + 1) == j + 1 && Reach(n, i, i, j) == j;
  }

  /** After pair (i, j), j's list has i appended when call (j, i) answered. */
  lemma RandStepCol(n: nat, dir: bool, coin: nat -> bool, i: nat, j: nat)
    requires i < j < n
    ensures RandState(n, dir, coin, i, j + 1)[j] ==
            RandState(n, dir, coin, i, j)[j] + (if coin(Call(n, dir, j, i)) then [i] else [])
  {
    assert Reach(n, j, i, j + 1) == i + 1 && Reach(n, j, i, j) == i;
  }

  /** Pair (i, j) leaves every other list alone. */
  lemma RandStepOther(n: nat, dir: bool, coin: nat -> bool, i: nat, j: nat, x: nat)
    requires i < j < n && x < n && x != i && x != j
    ensures RandState(n, dir, coin, i, j + 1)[x] == RandState(n, dir, coin, i, j)[x]
  {
    assert Reach(n, x, i, j + 1) == Reach(n, x, i, j);
  }

  /** Pair (i, j) pushes j onto i's list when its call (i, j) answers, then i onto j's when its call (j, i) does. */
  lemma RandStep(n: nat, dir: bool, coin: nat -> bool, i: nat, j: nat)
    requires i < j < n
    ensures RandState(n, dir, coin, i, j + 1) ==
            PushIf(PushIf(RandState(n, dir, coin, i, j), i, j, coin(Call(n, dir, i, j))), j, i, coin(Call(n, dir, j, i)))
  {
    var s := RandState(n, dir, coin, i, j);
    var t := PushIf(PushIf(s, i, j, coin(Call(n, dir, i, j))), j, i, coin(Call(n, dir, j, i)));
    var r := RandState(n, dir, coin, i, j + 1);
    RandStepRow(n, dir, coin, i, j);
    RandStepCol(n, dir, coin, i, j);
    forall x | 0 <= x < n
      ensures r[x] == t[x]
    {
      if x != i && x != j {
        RandStepOther(n, dir, coin, i, j, x);
      }
    }
  }

  /** The end of row i is the start of row i + 1. */
  lemma RandRow(n: nat, dir: bool, coin: nat -> bool, i: nat)
    requires i + 1 < n
    ensures RandState(n, dir, coin, i, n) == RandState(n, dir, coin, i + 1, i + 2)
  {
    assert RandList(n, dir, coin, i + 1, i + 2) == RandList(n, dir, coin, i + 1, i + 1);
  }

  /** At the end of the last row every list is complete. */
  lemma RandDone(n: nat, dir: bool, coin: nat -> bool)
    requires n >= 1
    ensures forall x :: 0 <= x < n ==> RandState(n, dir, coin, n - 1, n)[x] == RandList(n, dir, coin, x, n)
  {
  }

  /** adj_lst_t: per-vertex neighbour stacks and, for a weighted graph, weight stacks. */
  class AdjLst<W> {
    const numVts: nat
    var numEs: nat
    const wtSize: nat
    /** vts[x]: the contents of x's neighbour stack, bottom first. */
    const vts: array<seq<nat>>
    /** wts[x]: the weights parallel to vts[x]; there are no weight stacks (NULL) when unweighted. */
    const wts: array<seq<W>>

    /** Vertex x's stacks list vertices of the graph and, when weighted, as many weights as neighbours. */
    ghost predicate ListOk(x: int)
      reads this, vts, wts
    {
      0 <= x < vts.Length ==>
        (forall j :: 0 <= j < |vts[x]| ==> vts[x][j] < numVts) &&
        (x < wts.Length ==> |wts[x]| == |vts[x]|)
    }

    /** numEs counts the listed neighbours. */
    ghost predicate Valid()
      reads this, vts, wts
    {
      vts as object != wts &&
      vts.Length == numVts &&
      wts.Length == (if wtSize > 0 then numVts else 0) &&
      numEs == Total(vts[..]) &&
      (forall x :: ListOk(x))
    }

    /** The neighbour stacks of a valid adjacency list name vertices only. */
    lemma ValidBounded()
      requires Valid()
      ensures Paths.Bounded(vts[..])
    {
      forall x, j | 0 <= x < numVts && 0 <= j < |vts[x]|
        ensures vts[x][j] < numVts
      {
        assert ListOk(x);
      }
    }

    /** A valid weighted adjacency list has one weight per listed neighbour. */
    lemma ValidWeighted()
      requires Valid() && wtSize > 0
      ensures wts.Length == numVts
      ensures forall x :: 0 <= x < numVts ==> |wts[x]| == |vts[x]|
    {
      forall x | 0 <= x < numVts
        ensures |wts[x]| == |vts[x]|
      {
        assert ListOk(x);
      }
    }

    /** adj_lst_init: one empty stack per vertex of g, and an empty weight stack each when g is weighted. */
    constructor (g: Graph<W>)
      ensures Valid() && numVts == g.numVts && wtSize == g.wtSize && numEs == 0
      ensures forall x :: 0 <= x < numVts ==> vts[x] == []
      ensures forall x :: 0 <= x < wts.Length ==> wts[x] == []
      ensures fresh(vts) && fresh(wts)
    {
      numVts := g.numVts;
      numEs := 0;
      wtSize := g.wtSize;
      vts := new seq<nat>[g.numVts];
      wts := new seq<W>[if g.wtSize > 0 then g.numVts else 0];
      new;
      for i := 0 to numVts
        invariant numEs == 0
        invariant forall x :: 0 <= x < i ==> vts[x] == []
        invariant forall x :: 0 <= x < i && x < wts.Length ==> wts[x] == []
      {
        vts[i] := [];
        if wtSize > 0 {
          wts[i] := [];
        }
      }
      TotalEmpty(vts[..]);
      forall x | true
        ensures ListOk(x)
      {
      }
    }

    /** The common step of every build: push y (and its weight) onto x's stacks and count the edge. */
    method PushEdge(x: nat, y: nat, wt: Option<W>)
      requires Valid() && x < numVts && y < numVts && (wt.Some? <==> wtSize > 0)
      modifies this`numEs, vts, wts
      ensures Valid() && numEs == old(numEs) + 1
      ensures vts[..] == Push(old(vts[..]), x, y)
      ensures wts[..] == if wt.Some? then Push(old(wts[..]), x, wt.value) else old(wts[..])
    {
      TotalUpdate(vts[..], x, vts[x] + [y]);
      assert ListOk(x);
      vts[x] := vts[x] + [y];
      if wt.Some? {
        wts[x] := wts[x] + [wt.value];
      }
      numEs := numEs + 1;
      forall z | true
        ensures ListOk(z)
      {
        assert old(ListOk(z));
      }
    }

    /** Push y onto x's stacks and x onto y's, with the same weight, counting two edges. */
    method PushPair(x: nat, y: nat, wt: Option<W>)
      requires Valid() && x < numVts && y < numVts && (wt.Some? <==> wtSize > 0)
      modifies this`numEs, vts, wts
      ensures Valid() && numEs == old(numEs) + 2
      ensures vts[..] == Push(Push(old(vts[..]), x, y), y, x)
      ensures wts[..] == if wt.Some? then Push(Push(old(wts[..]), x, wt.value), y, wt.value) else old(wts[..])
    {
      PushEdge(x, y, wt);
      PushEdge(y, x, wt);
    }

    /** adj_lst_dir_build: each edge (u, v) of g pushes v (and its weight) onto u's stacks, in edge order. */
    method DirBuild(g: Graph<W>)
      requires Valid() && WellFormed(g) && g.numVts == numVts && g.wtSize == wtSize
      modifies this, vts, wts
      ensures Valid() && numEs == old(numEs) + g.numEs
      ensures vts[..] == DirLists(old(vts[..]), g.u, g.v, g.numEs)
      ensures wtSize > 0 ==> wts[..] == DirLists(old(wts[..]), g.u, g.wts, g.numEs)
      ensures forall x :: 0 <= x < numVts ==> vts[x] == old(vts[x]) + DirList(g.u, g.v, g.numEs, x)
      ensures forall x :: 0 <= x < wts.Length ==> wts[x] == old(wts[x]) + DirList(g.u, g.wts, g.numEs, x)
    {
      ghost var vts0, wts0 := vts[..], wts[..];
      for i := 0 to g.numEs
        invariant Valid() && numEs == old(numEs) + i
        invariant vts[..] == DirLists(vts0, g.u, g.v, i)
        invariant wtSize > 0 ==> wts[..] == DirLists(wts0, g.u, g.wts, i)
        invariant wtSize == 0 ==> wts[..] == []
      {
        PushEdge(g.u[i], g.v[i], if wtSize > 0 then Some(g.wts[i]) else None);
      }
      forall x | 0 <= x < numVts
        ensures vts[x] == old(vts[x]) + DirList(g.u, g.v, g.numEs, x)
      {
        DirListsAt(vts0, g.u, g.v, g.numEs, x);
      }
      forall x | 0 <= x < wts.Length
        ensures wts[x] == old(wts[x]) + DirList(g.u, g.wts, g.numEs, x)
      {
        DirListsAt(wts0, g.u, g.wts, g.numEs, x);
      }
    }

    /**
     * adj_lst_undir_build: each edge (u, v) of g pushes v onto u's stacks and
     * u onto v's, each with the edge's weight, and counts two edges.
     */
    method UndirBuild(g: Graph<W>)
      requires Valid() && WellFormed(g) && g.numVts == numVts && g.wtSize == wtSize
      modifies this, vts, wts
      ensures Valid() && numEs == old(numEs) + 2 * g.numEs
      ensures vts[..] == UndirLists(old(vts[..]), g.u, g.v, g.v, g.u, g.numEs)
      ensures wtSize > 0 ==> wts[..] == UndirLists(old(wts[..]), g.u, g.v, g.wts, g.wts, g.numEs)
      ensures forall x :: 0 <= x < numVts ==> vts[x] == old(vts[x]) + UndirList(g.u, g.v, g.v, g.u, g.numEs, x)
      ensures forall x :: 0 <= x < wts.Length ==>
                wts[x] == old(wts[x]) + UndirList(g.u, g.v, g.wts, g.wts, g.numEs, x)
    {
      ghost var vts0, wts0 := vts[..], wts[..];
      for i := 0 to g.numEs
        invariant Valid() && numEs == old(numEs) + 2 * i
        invariant vts[..] == UndirLists(vts0, g.u, g.v, g.v, g.u, i)
        invariant wtSize > 0 ==> wts[..] == UndirLists(wts0, g.u, g.v, g.wts, g.wts, i)
        invariant wtSize == 0 ==> wts[..] == []
      {
        PushPair(g.u[i], g.v[i], if wtSize > 0 then Some(g.wts[i]) else None);
      }
      forall x | 0 <= x < numVts
        ensures vts[x] == old(vts[x]) + UndirList(g.u, g.v, g.v, g.u, g.numEs, x)
      {
        UndirListsAt(vts0, g.u, g.v, g.v, g.u, g.numEs, x);
      }
      forall x | 0 <= x < wts.Length
        ensures wts[x] == old(wts[x]) + UndirList(g.u, g.v, g.wts, g.wts, g.numEs, x)
      {
        UndirListsAt(wts0, g.u, g.v, g.wts, g.wts, g.numEs, x);
      }
    }

    /** adj_lst_add_dir_edge: when the coin answers nonzero, adds the edge (u, v) with its weight; otherwise nothing. */
    method AddDirEdge(u: nat, v: nat, wt: Option<W>, bern: bool)
      requires Valid() && u < numVts && v < numVts && (wt.Some? <==> wtSize > 0)
      modifies this`numEs, vts, wts
      ensures Valid() && numEs == old(numEs) + (if bern then 1 else 0)
      ensures vts[..] == PushIf(old(vts[..]), u, v, bern)
      ensures wts[..] == if wt.Some? then PushIf(old(wts[..]), u, wt.value, bern) else old(wts[..])
    {
      if bern {
        PushEdge(u, v, wt);
      }
    }

    /**
     * adj_lst_add_undir_edge: when the coin answers nonzero, pushes v onto u's
     * stacks and u onto v's, with the weight, and counts two edges.
     */
    method AddUndirEdge(u: nat, v: nat, wt: Option<W>, bern: bool)
      requires Valid() && u < numVts && v < numVts && (wt.Some? <==> wtSize > 0)
      modifies this`numEs, vts, wts
      ensures Valid() && numEs == old(numEs) + (if bern then 2 else 0)
      ensures vts[..] == PushIf(PushIf(old(vts[..]), u, v, bern), v, u, bern)
      ensures wts[..] == if wt.Some? then PushIf(PushIf(old(wts[..]), u, wt.value, bern), v, wt.value, bern)
                         else old(wts[..])
    {
      if bern {
        PushPair(u, v, wt);
      }
    }
  }

  /** Pair (i, j) of adj_lst_rand_dir: the two calls decide the edges (i, j) and (j, i). */
  method DirPair<W>(a: AdjLst<W>, n: nat, coin: nat -> bool, i: nat, j: nat, calls: nat)
    requires a.Valid() && a.numVts == n && a.wtSize == 0 && i < j < n
    requires calls == RowStart(n, 2, i) + 2 * (j - i - 1)
    requires a.vts[..] == RandState(n, true, coin, i, j)
    modifies a`numEs, a.vts, a.wts
    ensures a.Valid() && a.vts[..] == RandState(n, true, coin, i, j + 1)
  {
    assert calls == Call(n, true, i, j) && calls + 1 == Call(n, true, j, i);
    RandStep(n, true, coin, i, j);
    ghost var s := a.vts[..];
    a.AddDirEdge(i, j, None, coin(calls));
    ghost var s' := a.vts[..];
    assert s' == PushIf(s, i, j, coin(calls));
    a.AddDirEdge(j, i, None, coin(calls + 1));
    assert a.vts[..] == PushIf(s', j, i, coin(calls + 1));
  }

  /**
   * adj_lst_rand_dir: a fresh unweighted adjacency list of n vertices in which
   * each of the n(n - 1) possible edges (x, y) is added when the bern call
   * numbered Call(n, true, x, y) answers nonzero; coin(c) is the answer of
   * call number c.
   */
  method RandDir<W>(n: nat, coin: nat -> bool) returns (a: AdjLst<W>)
    ensures fresh(a) && fresh(a.vts) && fresh(a.wts) && a.Valid()
    ensures a.numVts == n && a.wtSize == 0
    ensures forall x :: 0 <= x < n ==> a.vts[x] == RandList(n, true, coin, x, n)
  {
    a := new AdjLst(BaseInit(n, 0));
    if n < 1 {
      return;
    }
    RandStart(n, true, coin);
    assert a.vts[..] == seq(n, x => []);
    var calls := 0;
    for i := 0 to n - 1
      invariant a.Valid() && a.numVts == n && a.wtSize == 0
      invariant calls == RowStart(n, 2, i)
      invariant a.vts[..] == RandState(n, true, coin, i, i + 1)
    {
      for j := i + 1 to n
        invariant a.Valid() && a.numVts == n && a.wtSize == 0
        invariant calls == RowStart(n, 2, i) + 2 * (j - i - 1)
        invariant a.vts[..] == RandState(n, true, coin, i, j)
      {
        DirPair(a, n, coin, i, j, calls);
        calls := calls + 2;
      }
      RandRow(n, true, coin, i);
    }
    RandDone(n, true, coin);
  }

  /** Pair (i, j) of adj_lst_rand_undir: one call decides the edge {i, j} in both directions. */
  method UndirPair<W>(a: AdjLst<W>, n: nat, coin: nat -> bool, i: nat, j: nat, calls: nat)
    requires a.Valid() && a.numVts == n && a.wtSize == 0 && i < j < n
    requires calls == RowStart(n, 1, i) + (j - i - 1)
    requires a.vts[..] == RandState(n, false, coin, i, j)
    modifies a`numEs, a.vts, a.wts
    ensures a.Valid() && a.vts[..] == RandState(n, false, coin, i, j + 1)
  {
    assert calls == Call(n, false, i, j) == Call(n, false, j, i);
    RandStep(n, false, coin, i, j);
    a.AddUndirEdge(i, j, None, coin(calls));
  }

  /**
   * adj_lst_rand_undir: a fresh unweighted adjacency list of n vertices in
   * which each of the n(n - 1)/2 possible edges {x, y} is added, in both
   * directions, when the bern call numbered Call(n, false, x, y) answers nonzero.
   */
  method RandUndir<W>(n: nat, coin: nat -> bool) returns (a: AdjLst<W>)
    ensures fresh(a) && fresh(a.vts) && fresh(a.wts) && a.Valid()
    ensures a.numVts == n && a.wtSize == 0
    ensures forall x :: 0 <= x < n ==> a.vts[x] == RandList(n, false, coin, x, n)
  {
    a := new AdjLst(BaseInit(n, 0));
    if n < 1 {
      return;
    }
    RandStart(n, false, coin);
    assert a.vts[..] == seq(n, x => []);
    var calls := 0;
    for i := 0 to n - 1
      invariant a.Valid() && a.numVts == n && a.wtSize == 0
      invariant calls == RowStart(n, 1, i)
      invariant a.vts[..] == RandState(n, false, coin, i, i + 1)
    {
      for j := i + 1 to n
        invariant a.Valid() && a.numVts == n && a.wtSize == 0
        invariant calls == RowStart(n, 1, i) + (j - i - 1)
        invariant a.vts[..] == RandState(n, false, coin, i, j)
      {
        UndirPair(a, n, coin, i, j, calls);
        calls := calls + 1;
      }
      RandRow(n, false, coin, i);
    }
    RandDone(n, false, coin);
  }

  /** Five lists agree when they agree one by one. */
  lemma Same5<T>(a: seq<seq<T>>, b: seq<seq<T>>)
    requires |a| == 5 && |b| == 5
    requires a[0] == b[0] && a[1] == b[1] && a[2] == b[2] && a[3] == b[3] && a[4] == b[4]
    ensures a == b
  {
  }

  /**
   * The five-vertex sample graph with edges (0, 1), (0, 2), (0, 3), (1, 3)
   * weighted 4, 3, 2, 1, built directed: vertex 0 lists 1, 2, 3 and vertex 1
   * lists 3, with their weights.
   */
  lemma DirSample()
    ensures DirLists([[], [], [], [], []], [0, 0, 0, 1], [1, 2, 3, 3], 4) == [[1, 2, 3], [3], [], [], []]
    ensures DirLists([[], [], [], [], []], [0, 0, 0, 1], [4, 3, 2, 1], 4) == [[4, 3, 2], [1], [], [], []]
  {
    var e: seq<seq<nat>> := [[], [], [], [], []];
    var u: seq<nat> := [0, 0, 0, 1];
    var r := DirLists(e, u, [1, 2, 3, 3], 4);
    Same5(r, [[1, 2, 3], [3], [], [], []]);
    var w := DirLists(e, u, [4, 3, 2, 1], 4);
    Same5(w, [[4, 3, 2], [1], [], [], []]);
  }

  /** The same sample built undirected: 0 lists 1, 2, 3; 1 lists 0, 3; 2 lists 0; 3 lists 0, 1. */
  lemma UndirSample()
    ensures UndirLists([[], [], [], [], []], [0, 0, 0, 1], [1, 2, 3, 3], [1, 2, 3, 3], [0, 0, 0, 1], 4) ==
            [[1, 2, 3], [0, 3], [0], [0, 1], []]
    ensures UndirLists([[], [], [], [], []], [0, 0, 0, 1], [1, 2, 3, 3], [4, 3, 2, 1], [4, 3, 2, 1], 4) ==
            [[4, 3, 2], [4, 1], [3], [2, 1], []]
  {
    var e: seq<seq<nat>> := [[], [], [], [], []];
    var u: seq<nat>, v: seq<nat> := [0, 0, 0, 1], [1, 2, 3, 3];
    var r := UndirLists(e, u, v, v, u, 4);
    Same5(r, [[1, 2, 3], [0, 3], [0], [0, 1], []]);
    var w := UndirLists(e, u, v, [4, 3, 2, 1], [4, 3, 2, 1], 4);
    Same5(w, [[4, 3, 2], [4, 1], [3], [2, 1], []]);
  }
}
