/**
 * A generic indexed min-heap: an array of (priority, element) entries in
 * binary-heap order, paired with a hash table that maps every stored element
 * to its current slot, so that an element's priority can be found and changed
 * without a scan. Sifting moves a hole: the entry being sifted is held in a
 * buffer, entries are copied into the hole one at a time (each copy re-points
 * the index), and the buffered entry is written once at the end.
 *
 * Priorities are integers under their usual order and elements are compared
 * for equality; the hash table is represented by the map it implements.
 */
module Heap {
  import opened Base
  import opened HeapOrder
  import Stack

  datatype Entry<E> = Entry(pty: int, elt: E)

  /** The priorities of a sequence of entries. */
  function Ptys<E>(s: seq<Entry<E>>): (r: seq<int>)
    ensures |r| == |s| && forall i :: 0 <= i < |s| ==> r[i] == s[i].pty
  {
    seq(|s|, i requires 0 <= i < |s| => s[i].pty)
  }

  /** The elements of a sequence of entries. */
  function Elts<E>(s: seq<Entry<E>>): (r: seq<E>)
    ensures |r| == |s| && forall i :: 0 <= i < |s| ==> r[i] == s[i].elt
  {
    seq(|s|, i requires 0 <= i < |s| => s[i].elt)
  }

  /**
   * The index while slot h is a hole whose entry is held in the buffer: the
   * logical sequence has the buffered entry at h, every other slot is indexed
   * as usual, and only the buffered element's own index entry may be stale.
   */
  ghost predicate HoleIndexed<E>(elts: seq<E>, ptys: seq<int>, index: map<E, nat>, m: map<E, int>, h: nat)
  {
    |elts| == |ptys| && h < |elts| &&
    index.Keys == m.Keys &&
    elts[h] in m && m[elts[h]] == ptys[h] &&
    (forall e :: e in index && e != elts[h] ==>
       index[e] < |elts| && elts[index[e]] == e && ptys[index[e]] == m[e]) &&
    (forall i :: 0 <= i < |elts| && i != h ==>
       elts[i] != elts[h] && elts[i] in index && index[elts[i]] == i)
  }

  /** Lifting the entry at h into the buffer opens a hole there. */
  lemma HoleOpen<E>(elts: seq<E>, ptys: seq<int>, index: map<E, nat>, m: map<E, int>, h: nat)
    requires Indexed(elts, ptys, index, m) && h < |elts|
    ensures HoleIndexed(elts, ptys, index, m, h)
  {
  }

  /** Copying the entry at j into the hole at h re-points its element and moves the hole to j. */
  lemma HoleMove<E>(elts: seq<E>, ptys: seq<int>, index: map<E, nat>, m: map<E, int>, h: nat, j: nat)
    requires HoleIndexed(elts, ptys, index, m, h) && j < |elts| && j != h
    ensures HoleIndexed(Swap(elts, h, j), Swap(ptys, h, j), index[elts[j] := h], m, j)
  {
    var es := Swap(elts, h, j);
    var ix := index[elts[j] := h];
    forall i | 0 <= i < |es| && i != j
      ensures es[i] != es[j] && es[i] in ix && ix[es[i]] == i
    {
      if i != h {
        assert es[i] == elts[i] && index[elts[i]] == i;
      }
    }
  }

  /** Writing the buffered entry into the hole at h and pointing its element at h closes the hole. */
  lemma HoleFill<E>(elts: seq<E>, ptys: seq<int>, index: map<E, nat>, m: map<E, int>, h: nat)
    requires HoleIndexed(elts, ptys, index, m, h)
    ensures Indexed(elts, ptys, index[elts[h] := h], m)
  {
  }

  /** A copy into the hole followed by moving the hole is a swap of the logical sequence. */
  lemma HoleShift<T>(a: seq<T>, h: nat, j: nat, buf: T)
    requires h < |a| && j < |a| && h != j
    ensures a[h := a[j]][j := buf] == Swap(a[h := buf], h, j)
  {
  }

  /** Swapping two entries swaps their priorities and their elements. */
  lemma ViewSwap<E>(s: seq<Entry<E>>, i: nat, j: nat)
    requires i < |s| && j < |s|
    ensures Ptys(Swap(s, i, j)) == Swap(Ptys(s), i, j)
    ensures Elts(Swap(s, i, j)) == Swap(Elts(s), i, j)
  {
  }

  /** heap_push's first half: the new entry in a new last slot, indexed, starts a sift-up. */
  lemma PushView<E>(s: seq<Entry<E>>, x: Entry<E>, index: map<E, nat>, m: map<E, int>)
    requires Indexed(Elts(s), Ptys(s), index, m) && IsHeap(Ptys(s)) && x.elt !in m
    ensures Indexed(Elts(s + [x]), Ptys(s + [x]), index[x.elt := |s|], m[x.elt := x.pty])
    ensures UpOk(Ptys(s + [x]), |s|, |s|)
  {
    assert Elts(s + [x]) == Elts(s) + [x.elt];
    assert Ptys(s + [x]) == Ptys(s) + [x.pty];
    IndexedPush(Elts(s), Ptys(s), index, m, x.elt, x.pty);
    PushStart(Ptys(s), x.pty);
  }

  /** heap_update's first half: a new priority written at slot i starts a sift-up there. */
  lemma UpdateView<E>(s: seq<Entry<E>>, i: nat, p: int, index: map<E, nat>, m: map<E, int>)
    requires Indexed(Elts(s), Ptys(s), index, m) && IsHeap(Ptys(s)) && i < |s|
    ensures Indexed(Elts(s[i := s[i].(pty := p)]), Ptys(s[i := s[i].(pty := p)]), index, m[s[i].elt := p])
    ensures UpOk(Ptys(s[i := s[i].(pty := p)]), i, i)
  {
    assert Elts(s[i := s[i].(pty := p)]) == Elts(s);
    assert Ptys(s[i := s[i].(pty := p)]) == Ptys(s)[i := p];
    IndexedSetPty(Elts(s), Ptys(s), index, m, i, p);
    UpdateStart(Ptys(s), i, p);
  }

  /** The entries of a sequence without its last one, projected. */
  lemma ViewDropLast<E>(t: seq<Entry<E>>)
    requires |t| > 0
    ensures Elts(t[..|t| - 1]) == Elts(t)[..|t| - 1]
    ensures Ptys(t[..|t| - 1]) == Ptys(t)[..|t| - 1]
  {
  }

  /**
   * heap_pop's first half: after the root and the last entry are swapped, the
   * index re-pointed and the old root dropped, the rest is indexed without it,
   * and a sift-down from the root is due when anything is left.
   */
  lemma PopView<E>(s: seq<Entry<E>>, index: map<E, nat>, m: map<E, int>)
    requires Indexed(Elts(s), Ptys(s), index, m) && IsHeap(Ptys(s)) && |s| > 0
    ensures Indexed(Elts(Swap(s, 0, |s| - 1)[..|s| - 1]), Ptys(Swap(s, 0, |s| - 1)[..|s| - 1]),
                    index[s[|s| - 1].elt := 0][s[0].elt := |s| - 1] - {s[0].elt}, m - {s[0].elt})
    ensures |s| >= 2 ==> DownOk(Ptys(Swap(s, 0, |s| - 1)[..|s| - 1]), 0)
  {
    var n := |s|;
    var t := Swap(s, 0, n - 1);
    var es, ps := Elts(s), Ptys(s);
    var ix := index[s[n - 1].elt := 0][s[0].elt := n - 1];
    ViewSwap(s, 0, n - 1);
    ViewDropLast(t);
    assert Elts(t) == Swap(es, 0, n - 1) && Ptys(t) == Swap(ps, 0, n - 1);
    assert es[n - 1] == s[n - 1].elt && es[0] == s[0].elt;
    IndexedSwap(es, ps, index, m, 0, n - 1);
    assert Elts(t)[n - 1] == s[0].elt;
    IndexedDropLast(Elts(t), Ptys(t), ix, m);
    if n >= 2 {
      PopStart(ps);
    }
  }

  /** Every priority in a heap's index is at least the root's. */
  lemma RootIsMinOfAll<E>(s: seq<Entry<E>>, index: map<E, nat>, m: map<E, int>)
    requires Indexed(Elts(s), Ptys(s), index, m) && IsHeap(Ptys(s)) && |s| > 0
    ensures s[0].elt in m && m[s[0].elt] == s[0].pty
    ensures forall e :: e in m ==> s[0].pty <= m[e]
  {
    forall e | e in m
      ensures s[0].pty <= m[e]
    {
      RootIsMin(Ptys(s), index[e]);
    }
  }

  /** One move of heapify_up, on the logical sequence: the order invariant moves to the parent. */
  lemma UpMove<E>(L: seq<Entry<E>>, h: nat, i0: nat)
    requires UpOk(Ptys(L), h, i0) && h > 0 && L[h].pty < L[(h - 1) / 2].pty
    ensures UpOk(Ptys(Swap(L, h, (h - 1) / 2)), (h - 1) / 2, i0)
  {
    ViewSwap(L, h, (h - 1) / 2);
    UpStep(Ptys(L), h, i0);
  }

  /** One move of heapify_down to the least child j, on the logical sequence. */
  lemma DownMove<E>(L: seq<Entry<E>>, h: nat, j: nat)
    requires DownOk(Ptys(L), h)
    requires j < |L| && (j == 2 * h + 1 || j == 2 * h + 2) && L[j].pty < L[h].pty
    requires AtMostChildren(Ptys(L), L[j].pty, h)
    ensures DownOk(Ptys(Swap(L, h, j)), j)
  {
    ViewSwap(L, h, j);
    DownStep(Ptys(L), h, j);
  }

  class Heap<E(0,==)> {
    var count: nat
    const countMax: nat
    var numElts: nat
    var ptyElts: array<Entry<E>>
    /** The hash table from each stored element to its slot. */
    var index: map<E, nat>
    /** The stored entries, slot by slot. */
    ghost var Slots: seq<Entry<E>>
    /** Each stored element's priority. */
    ghost var M: map<E, int>
    ghost var Repr: set<object>

    ghost predicate Shape()
      reads this
    {
      Repr == {this, ptyElts} &&
      ptyElts.Length == count &&
      0 < count <= countMax <= SIZE_MAX &&
      numElts <= count
    }

    ghost predicate Valid()
      reads this, Repr
    {
      Shape() &&
      ptyElts[..numElts] == Slots &&
      Indexed(Elts(Slots), Ptys(Slots), index, M) &&
      IsHeap(Ptys(Slots))
    }

    /** heap_init: an empty heap of initCount slots; a count above the maximum is an exit (null). */
    static method Init(initCount: nat, countMax: nat) returns (h: Heap?<E>)
      requires 0 < initCount && countMax <= SIZE_MAX
      ensures h == null <==> initCount > countMax
      ensures h != null ==> fresh(h.Repr) && h.Valid() && h.M == map[] && h.numElts == 0 &&
                            h.count == initCount && h.countMax == countMax
    {
      if initCount > countMax {
        return null;
      }
      h := new Heap(initCount, countMax);
    }

    constructor (initCount: nat, countMax: nat)
      requires 0 < initCount <= countMax <= SIZE_MAX
      ensures fresh(Repr) && Valid() && M == map[] && numElts == 0
      ensures count == initCount && this.countMax == countMax
    {
      count := initCount;
      this.countMax := countMax;
      numElts := 0;
      var a := new Entry<E>[initCount];
      ptyElts := a;
      index := map[];
      Slots := [];
      M := map[];
      Repr := {this, a};
    }

    /** heap_search: the priority of elt, or None when elt is not in the heap. */
    function Search(elt: E): (r: Option<int>)
      requires Valid()
      reads this, Repr
      ensures r == if elt in M then Some(M[elt]) else None
    {
      if elt in index then Some(ptyElts[index[elt]].pty) else None
    }

    /** heap_push: adds elt, which must not be in the heap, with priority pty. */
    method Push(pty: int, elt: E) returns (exited: bool)
      requires Valid() && elt !in M
      modifies this, ptyElts
      ensures Valid() && fresh(Repr - old(Repr))
      ensures exited <==> old(numElts) == old(count) && old(count) == countMax
      ensures exited ==> M == old(M) && numElts == old(numElts)
      ensures !exited ==> M == old(M)[elt := pty] && numElts == old(numElts) + 1
      ensures old(numElts) < old(count) ==> count == old(count)
      ensures old(numElts) == old(count) && !exited ==> count == Stack.GrownCount(old(count), countMax)
    {
      var ix := numElts;
      if count == ix {
        exited := Grow();
        if exited {
          return;
        }
      }
      exited := false;
      Append(pty, elt);
    }

    /** heap_push once there is room: the entry goes into the first free slot and is sifted up. */
    method Append(pty: int, elt: E)
      requires Valid() && elt !in M && numElts < count
      modifies ptyElts, this`index, this`Slots, this`M, this`numElts
      ensures Valid() && M == old(M)[elt := pty] && numElts == old(numElts) + 1
    {
      var ix := numElts;
      PushView(Slots, Entry(pty, elt), index, M);
      ptyElts[ix] := Entry(pty, elt);
      index := index[elt := ix];
      Slots := Slots + [Entry(pty, elt)];
      M := M[elt := pty];
      numElts := numElts + 1;
      assert ptyElts[..numElts] == Slots;
      HeapifyUp(ix);
      DownDone(Ptys(Slots), ix);
    }

    /** heap_update: gives elt, which must be in the heap, the priority pty. */
    method Update(pty: int, elt: E)
      requires Valid() && elt in M
      modifies this`index, this`Slots, this`M, ptyElts
      ensures Valid()
      ensures M == old(M)[elt := pty]
    {
      var ix := index[elt];
      SetPty(ix, pty);
      HeapifyUp(ix);
      HeapifyDown(ix);
    }

    /** heap_update's write: slot ix gets priority pty, which starts a sift-up there. */
    method SetPty(ix: nat, pty: int)
      requires Valid() && ix < numElts
      modifies ptyElts, this`Slots, this`M
      ensures Shape() && ptyElts[..numElts] == Slots
      ensures Indexed(Elts(Slots), Ptys(Slots), index, M)
      ensures UpOk(Ptys(Slots), ix, ix)
      ensures M == old(M)[old(Slots)[ix].elt := pty]
    {
      UpdateView(Slots, ix, pty, index, M);
      ptyElts[ix] := ptyElts[ix].(pty := pty);
      Slots := Slots[ix := Slots[ix].(pty := pty)];
      M := M[ptyElts[ix].elt := pty];
    }

    /**
     * heap_pop: removes and returns an entry of minimal priority; on an empty
     * heap the buffers are returned unchanged.
     */
    method Pop(ptyBuf: int, eltBuf: E) returns (pty: int, elt: E)
      requires Valid()
      modifies this`index, this`Slots, this`M, this`numElts, ptyElts
      ensures Valid()
      ensures old(numElts) == 0 ==> pty == ptyBuf && elt == eltBuf && M == old(M) && numElts == 0
      ensures old(numElts) > 0 ==> elt in old(M) && pty == old(M)[elt] &&
                                   (forall e :: e in old(M) ==> pty <= old(M)[e])
      ensures old(numElts) > 0 ==> M == old(M) - {elt} && numElts == old(numElts) - 1
    {
      if numElts == 0 {
        return ptyBuf, eltBuf;
      }
      pty := ptyElts[0].pty;
      elt := ptyElts[0].elt;
      ghost var s := Slots;
      RootIsMinOfAll(s, index, M);
      PopView(s, index, M);
      Swap(0, numElts - 1);
      index := index - {elt};
      M := M - {elt};
      numElts := numElts - 1;
      Slots := HeapOrder.Swap(s, 0, |s| - 1)[..|s| - 1];
      if numElts > 0 {
        HeapifyDown(0);
      }
    }

    /** The heap holds as many elements as it counts. */
    lemma CountIsSize()
      requires Valid()
      ensures |M| == numElts
    {
      var es := Elts(Slots);
      forall i, j | 0 <= i < j < |es|
        ensures es[i] != es[j]
      {
        assert index[es[i]] == i && index[es[j]] == j;
      }
      forall k | k in M
        ensures k in es
      {
        assert es[index[k]] == k;
      }
      DistinctKeysSize(es, M);
    }

    /** heap_free: the elements handed to the element destructor, slot by slot (none without a destructor). */
    method Free(hasFreeElt: bool) returns (freed: seq<E>)
      requires Valid()
      ensures freed == if hasFreeElt then Elts(Slots) else []
      ensures hasFreeElt ==> forall e :: e in M ==> e in freed
    {
      freed := [];
      if hasFreeElt {
        for i := 0 to numElts
          invariant freed == Elts(Slots[..i])
        {
          assert Elts(Slots[..i + 1]) == Elts(Slots[..i]) + [ptyElts[i].elt];
          freed := freed + [ptyElts[i].elt];
        }
        assert Slots[..numElts] == Slots;
        forall e | e in M
          ensures e in freed
        {
          assert freed[index[e]] == e;
        }
      }
    }

    /** swap: exchanges the entries at i and j and points both elements at their new slots. */
    method Swap(i: nat, j: nat)
      requires Shape() && i < numElts && j < numElts
      modifies ptyElts, this`index
      ensures ptyElts[..numElts] == HeapOrder.Swap(old(ptyElts[..numElts]), i, j)
      ensures index == if i == j then old(index)
                       else old(index)[old(ptyElts[j]).elt := i][old(ptyElts[i]).elt := j]
    {
      if i == j {
        return;
      }
      var buf := ptyElts[i];
      ptyElts[i] := ptyElts[j];
      ptyElts[j] := buf;
      index := index[ptyElts[i].elt := i];
      index := index[ptyElts[j].elt := j];
    }

    /** half_swap: copies the entry at s to t and points its element at t. */
    method HalfSwap(t: nat, s: nat)
      requires Shape() && t < numElts && s < numElts
      modifies ptyElts, this`index
      ensures ptyElts[..numElts] == old(ptyElts[..numElts])[t := old(ptyElts[s])]
      ensures index == if s == t then old(index) else old(index)[old(ptyElts[s]).elt := t]
    {
      if s == t {
        return;
      }
      ptyElts[t] := ptyElts[s];
      index := index[ptyElts[t].elt := t];
    }

    /** The end of a sift: the buffered entry is written into the hole and its element pointed at it. */
    method FillHole(h: nat, buf: Entry<E>, ghost L: seq<Entry<E>>)
      requires Shape() && h < numElts && L == ptyElts[..numElts][h := buf]
      requires HoleIndexed(Elts(L), Ptys(L), index, M, h)
      modifies ptyElts, this`index
      ensures ptyElts[..numElts] == L
      ensures Indexed(Elts(L), Ptys(L), index, M)
    {
      HoleFill(Elts(L), Ptys(L), index, M, h);
      ptyElts[h] := buf;
      index := index[buf.elt := h];
    }

    /**
     * One move of a sift: the entry at j is copied into the hole at h (by
     * half_swap), which moves the hole to j. On the logical sequence this
     * swaps slots h and j.
     */
    method MoveHole(h: nat, j: nat, buf: Entry<E>, ghost L: seq<Entry<E>>) returns (ghost L': seq<Entry<E>>)
      requires Shape() && h < numElts && j < numElts && h != j && L == ptyElts[..numElts][h := buf]
      requires HoleIndexed(Elts(L), Ptys(L), index, M, h)
      modifies ptyElts, this`index
      ensures L' == HeapOrder.Swap(L, h, j) && L' == ptyElts[..numElts][j := buf]
      ensures HoleIndexed(Elts(L'), Ptys(L'), index, M, j)
    {
      ViewSwap(L, h, j);
      HoleMove(Elts(L), Ptys(L), index, M, h, j);
      ghost var a := ptyElts[..numElts];
      HalfSwap(h, j);
      HoleShift(a, h, j, buf);
      L' := HeapOrder.Swap(L, h, j);
    }

    /** heap_grow: doubles the count (clamped to the maximum), keeping the entries; at the maximum it exits. */
    method Grow() returns (exited: bool)
      requires Valid()
      modifies this
      ensures Valid() && fresh(Repr - old(Repr))
      ensures exited <==> old(count) == countMax
      ensures exited ==> count == old(count)
      ensures !exited ==> count == Stack.GrownCount(old(count), countMax)
      ensures numElts == old(numElts) && Slots == old(Slots) && M == old(M) && index == old(index)
    {
      if count == countMax {
        return true;
      }
      exited := false;
      var newCount := if countMax - count < count then countMax else count * 2;
      var a := new Entry<E>[newCount];
      forall i | 0 <= i < count {
        a[i] := ptyElts[i];
      }
      assert a[..numElts] == Slots;
      count := newCount;
      ptyElts := a;
      Repr := {this, a};
    }

    /**
     * heapify_up: sifts the entry at i up towards the root. On return only
     * the children of slot i may be out of order.
     */
    method HeapifyUp(i: nat)
      requires Shape() && i < numElts && ptyElts[..numElts] == Slots
      requires Indexed(Elts(Slots), Ptys(Slots), index, M)
      requires UpOk(Ptys(Slots), i, i)
      modifies ptyElts, this`index, this`Slots
      ensures ptyElts[..numElts] == Slots
      ensures Indexed(Elts(Slots), Ptys(Slots), index, M)
      ensures DownOk(Ptys(Slots), i)
    {
      var buf := ptyElts[i];
      var h := i;
      ghost var L := Slots;
      HoleOpen(Elts(L), Ptys(L), index, M, h);
      while h > 0
        invariant h <= i && |L| == numElts && L == ptyElts[..numElts][h := buf]
        invariant HoleIndexed(Elts(L), Ptys(L), index, M, h)
        invariant UpOk(Ptys(L), h, i)
        decreases h
      {
        var ju := (h - 1) / 2;
        if ptyElts[ju].pty > buf.pty {
          assert L[h] == buf && L[ju] == ptyElts[ju];
          UpMove(L, h, i);
          L := MoveHole(h, ju, buf, L);
          h := ju;
        } else {
          break;
        }
      }
      UpDone(Ptys(L), h, i);
      FillHole(h, buf, L);
      Slots := L;
    }

    /**
     * heapify_down: sifts the entry at i down towards the leaves, always
     * towards a child of least priority (the left one on a tie), and
     * comparing only the left child when it is the only one.
     */
    method HeapifyDown(i: nat)
      requires Shape() && i < numElts && ptyElts[..numElts] == Slots
      requires Indexed(Elts(Slots), Ptys(Slots), index, M)
      requires DownOk(Ptys(Slots), i)
      modifies ptyElts, this`index, this`Slots
      ensures ptyElts[..numElts] == Slots
      ensures Indexed(Elts(Slots), Ptys(Slots), index, M)
      ensures IsHeap(Ptys(Slots))
    {
      var buf := ptyElts[i];
      ghost var L := Slots;
      HoleOpen(Elts(L), Ptys(L), index, M, i);
      var h;
      h, L := DownLoop(i, buf, L);
      h, L := LastChild(h, buf, L);
      Settle(h, buf, L);
    }

    /** The rounds of heapify_down over slots with two children, until the buffered entry stops or reaches a slot with fewer children. */
    method DownLoop(i: nat, buf: Entry<E>, ghost L0: seq<Entry<E>>) returns (h: nat, ghost L: seq<Entry<E>>)
      requires Shape() && i < numElts && |L0| == numElts && L0 == ptyElts[..numElts][i := buf]
      requires HoleIndexed(Elts(L0), Ptys(L0), index, M, i) && DownOk(Ptys(L0), i)
      modifies ptyElts, this`index
      ensures h < numElts && L == ptyElts[..numElts][h := buf]
      ensures HoleIndexed(Elts(L), Ptys(L), index, M, h) && DownOk(Ptys(L), h)
      ensures h + 2 <= numElts - 1 - h ==> AtMostChildren(Ptys(L), buf.pty, h)
    {
      h, L := i, L0;
      while h + 2 <= numElts - 1 - h
        invariant h < numElts && |L| == numElts && L == ptyElts[..numElts][h := buf]
        invariant HoleIndexed(Elts(L), Ptys(L), index, M, h)
        invariant DownOk(Ptys(L), h)
        decreases numElts - h
      {
        var stop;
        h, L, stop := DownStep(h, buf, L);
        if stop {
          return;
        }
      }
    }

    /**
     * One round of heapify_down at a slot h with two children: the
     * buffered entry moves down to the child of least priority (the left
     * one on a tie) if that child's priority is less, and otherwise stops,
     * being at most both children.
     */
    method DownStep(h: nat, buf: Entry<E>, ghost L: seq<Entry<E>>) returns (h': nat, ghost L': seq<Entry<E>>, stop: bool)
      requires Shape() && h < numElts && |L| == numElts && L == ptyElts[..numElts][h := buf]
      requires HoleIndexed(Elts(L), Ptys(L), index, M, h) && DownOk(Ptys(L), h)
      requires h + 2 <= numElts - 1 - h
      modifies ptyElts, this`index
      ensures h' < numElts && |L'| == numElts && L' == ptyElts[..numElts][h' := buf]
      ensures HoleIndexed(Elts(L'), Ptys(L'), index, M, h') && DownOk(Ptys(L'), h')
      ensures stop ==> AtMostChildren(Ptys(L'), buf.pty, h')
      ensures !stop ==> h < h'
    {
      var jl := 2 * h + 1;
      var jr := 2 * h + 2;
      assert L[h] == buf && L[jl] == ptyElts[jl] && L[jr] == ptyElts[jr];
      var j;
      h', L', stop := h, L, false;
      if buf.pty > ptyElts[jl].pty && ptyElts[jl].pty <= ptyElts[jr].pty {
        j := jl;
      } else if buf.pty > ptyElts[jr].pty {
        j := jr;
      } else {
        assert AtMostChildren(Ptys(L), buf.pty, h);
        stop := true;
        return;
      }
      DownMove(L, h, j);
      L' := MoveHole(h, j, buf, L);
      h' := j;
    }

    /**
     * The tail of heapify_down: when slot h has a left child only, the
     * buffered entry moves down to it if its priority is greater. Afterwards
     * the buffered entry is at most the children of its slot.
     */
    method LastChild(h: nat, buf: Entry<E>, ghost L: seq<Entry<E>>) returns (h': nat, ghost L': seq<Entry<E>>)
      requires Shape() && h < numElts && L == ptyElts[..numElts][h := buf]
      requires HoleIndexed(Elts(L), Ptys(L), index, M, h) && DownOk(Ptys(L), h)
      requires h + 2 <= numElts - 1 - h ==> AtMostChildren(Ptys(L), buf.pty, h)
      modifies ptyElts, this`index
      ensures h' < numElts && L' == ptyElts[..numElts][h' := buf]
      ensures HoleIndexed(Elts(L'), Ptys(L'), index, M, h') && DownOk(Ptys(L'), h')
      ensures AtMostChildren(Ptys(L'), L'[h'].pty, h')
    {
      h', L' := h, L;
      if h + 1 == numElts - 1 - h {
        var jl := 2 * h + 1;
        assert L[h] == buf && L[jl] == ptyElts[jl];
        if buf.pty > ptyElts[jl].pty {
          DownMove(L, h, jl);
          L' := MoveHole(h, jl, buf, L);
          h' := jl;
        }
      }
    }

    /** The end of heapify_down: the buffered entry, at most its children, closes the hole and leaves a heap. */
    method Settle(h: nat, buf: Entry<E>, ghost L: seq<Entry<E>>)
      requires Shape() && h < numElts && L == ptyElts[..numElts][h := buf]
      requires HoleIndexed(Elts(L), Ptys(L), index, M, h)
      requires DownOk(Ptys(L), h) && AtMostChildren(Ptys(L), L[h].pty, h)
      modifies ptyElts, this`index, this`Slots
      ensures ptyElts[..numElts] == Slots
      ensures Indexed(Elts(Slots), Ptys(Slots), index, M)
      ensures IsHeap(Ptys(Slots))
    {
      DownDone(Ptys(L), h);
      FillHole(h, buf, L);
      Slots := L;
    }
  }

  /** Pushing elements 0..n-1 with the given priorities into a fresh heap stores each with its priority. */
  method PushAll(ptys: seq<int>) returns (h: Heap<nat>)
    requires |ptys| <= SIZE_MAX
    ensures h.Valid() && fresh(h.Repr) && h.numElts == |ptys|
    ensures forall e: nat :: e in h.M <==> e < |ptys|
    ensures forall e :: e in h.M ==> h.M[e] == ptys[e]
  {
    h := new Heap<nat>(1, SIZE_MAX);
    for i := 0 to |ptys|
      invariant h.Valid() && fresh(h.Repr) && h.countMax == SIZE_MAX
      invariant h.numElts == i
      invariant forall e: nat :: e in h.M <==> e < i
      invariant forall e :: e in h.M ==> h.M[e] == ptys[e]
    {
      var exited := h.Push(ptys[i], i);
    }
  }

  /**
   * After some pops from a heap of elements 0..n-1 with priorities ptys: m
   * holds the elements not yet popped with their priorities, and the popped
   * elements are distinct, carry their own priorities, come in non-decreasing
   * order and are no greater than any priority still in the heap.
   */
  ghost predicate Drained(ptys: seq<int>, m: map<nat, int>, popped: seq<int>, order: seq<nat>)
  {
    |popped| == |order| &&
    (forall e :: e in m ==> e < |ptys| && m[e] == ptys[e]) &&
    (forall k :: 0 <= k < |order| ==> order[k] < |ptys| && order[k] !in m && popped[k] == ptys[order[k]]) &&
    (forall k, l :: 0 <= k < l < |order| ==> order[k] != order[l]) &&
    (forall k :: 0 < k < |popped| ==> popped[k - 1] <= popped[k]) &&
    (|popped| > 0 ==> forall e :: e in m ==> popped[|popped| - 1] <= m[e])
  }

  /** Popping a least entry of m keeps the drained state. */
  lemma DrainedPop(ptys: seq<int>, m: map<nat, int>, popped: seq<int>, order: seq<nat>, pty: int, elt: nat)
    requires Drained(ptys, m, popped, order)
    requires elt in m && pty == m[elt] && forall e :: e in m ==> pty <= m[e]
    ensures Drained(ptys, m - {elt}, popped + [pty], order + [elt])
  {
  }

  /**
   * Pushing elements 0..n-1 with the given priorities into a fresh heap and
   * then popping n times yields every element exactly once, each with its
   * own priority, in non-decreasing order of priority.
   */
  method PushAllPopAll(ptys: seq<int>) returns (popped: seq<int>, order: seq<nat>)
    requires |ptys| <= SIZE_MAX
    ensures |popped| == |order| == |ptys|
    ensures forall k :: 0 <= k < |order| ==> order[k] < |ptys| && popped[k] == ptys[order[k]]
    ensures forall k, l :: 0 <= k < l < |order| ==> order[k] != order[l]
    ensures forall k :: 0 < k < |popped| ==> popped[k - 1] <= popped[k]
  {
    var h := PushAll(ptys);
    popped, order := [], [];
    for i := 0 to |ptys|
      invariant h.Valid() && fresh(h.Repr)
      invariant h.numElts == |ptys| - i && |order| == i
      invariant Drained(ptys, h.M, popped, order)
    {
      ghost var m := h.M;
      var pty, elt := h.Pop(0, 0);
      DrainedPop(ptys, m, popped, order, pty, elt);
      popped, order := popped + [pty], order + [elt];
    }
  }
}
