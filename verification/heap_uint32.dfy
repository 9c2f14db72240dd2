/**
 * A generic min-heap of at most 2^32 - 2 elements with 32-bit indices. The
 * priorities and the elements live in two parallel arrays, and a
 * division-method hash table maps every stored element to its index. Sifting
 * swaps whole slots (both arrays and both index entries) at each move.
 *
 * Priorities are integers under their usual order and elements are compared
 * for equality; the hash table is represented by the map it implements. The
 * program's `assert`s are modelled as an aborted result with nothing changed.
 * Indices are declared as `U32`, so every index the sifts compute is checked
 * to fit in 32 bits.
 */
module HeapUint32 {
  import opened Base
  import opened HeapOrder
  import Stack

  /** A `uint32_t`. */
  type U32 = x: nat | x < HALF

  /** The largest heap size: 2^32 - 2, so that i + 2 in heapify_down cannot wrap. */
  const HEAP_MAX_SIZE: U32 := HALF - 2

  class HeapUint32<E(0,==)> {
    var heapSize: U32
    var numElts: U32
    var ptys: array<int>
    var elts: array<E>
    /** The hash table from each stored element to its index. */
    var index: map<E, nat>
    /** The stored priorities and elements, slot by slot. */
    ghost var Ps: seq<int>
    ghost var Es: seq<E>
    /** Each stored element's priority. */
    ghost var M: map<E, int>
    ghost var Repr: set<object>

    ghost predicate Shape()
      reads this
    {
      Repr == {this, ptys, elts} && (ptys as object) != (elts as object) &&
      ptys.Length == elts.Length == heapSize &&
      0 < heapSize <= HEAP_MAX_SIZE && numElts <= heapSize
    }

    /** The ghost sequences are the arrays' used prefixes. */
    ghost predicate Mirrors()
      reads this, ptys, elts
      requires Shape()
    {
      ptys[..numElts] == Ps && elts[..numElts] == Es
    }

    ghost predicate Valid()
      reads this, Repr
    {
      Shape() && Mirrors() && Indexed(Es, Ps, index, M) && IsHeap(Ps)
    }

    /**
     * heap_uint32_init: an empty heap of initHeapSize slots; a size above
     * 2^32 - 2 fails the program's assert (null).
     */
    static method Init(initHeapSize: U32) returns (h: HeapUint32?<E>)
      requires 0 < initHeapSize
      ensures h == null <==> initHeapSize > HEAP_MAX_SIZE
      ensures h != null ==> fresh(h.Repr) && h.Valid() && h.M == map[] && h.numElts == 0 &&
                            h.heapSize == initHeapSize
    {
      if initHeapSize > HEAP_MAX_SIZE {
        return null;
      }
      h := new HeapUint32(initHeapSize);
    }

    constructor (initHeapSize: U32)
      requires 0 < initHeapSize <= HEAP_MAX_SIZE
      ensures fresh(Repr) && Valid() && M == map[] && numElts == 0 && heapSize == initHeapSize
    {
      heapSize := initHeapSize;
      numElts := 0;
      var p := new int[initHeapSize];
      var e := new E[initHeapSize];
      ptys, elts := p, e;
      index := map[];
      Ps, Es := [], [];
      M := map[];
      Repr := {this, p, e};
    }

    /** heap_uint32_search: the priority of elt, or None when elt is not in the heap. */
    function Search(elt: E): (r: Option<int>)
      requires Valid()
      reads this, Repr
      ensures r == if elt in M then Some(M[elt]) else None
    {
      if elt in index then Some(ptys[index[elt]]) else None
    }

    /**
     * heap_uint32_push: adds elt, which must not be in the heap, with
     * priority pty. A full heap of the maximal size fails an assert in
     * heap_grow.
     */
    method Push(pty: int, elt: E) returns (aborted: bool)
      requires Valid() && elt !in M
      modifies this, ptys, elts
      ensures Valid() && fresh(Repr - old(Repr))
      ensures aborted <==> old(numElts) == old(heapSize) == HEAP_MAX_SIZE
      ensures aborted ==> M == old(M) && numElts == old(numElts)
      ensures !aborted ==> M == old(M)[elt := pty] && numElts == old(numElts) + 1
      ensures old(numElts) < old(heapSize) ==> heapSize == old(heapSize)
      ensures old(numElts) == old(heapSize) && !aborted ==>
                heapSize == Stack.GrownCount(old(heapSize), HEAP_MAX_SIZE)
    {
      if heapSize == numElts {
        aborted := Grow();
        if aborted {
          return;
        }
      }
      aborted := false;
      Append(pty, elt);
    }

    /** heap_uint32_push once there is room: the entry goes into the first free slot and is sifted up. */
    method Append(pty: int, elt: E)
      requires Valid() && elt !in M && numElts < heapSize
      modifies ptys, elts, this`index, this`Ps, this`Es, this`M, this`numElts
      ensures Valid() && M == old(M)[elt := pty] && numElts == old(numElts) + 1
    {
      var ix := numElts;
      IndexedPush(Es, Ps, index, M, elt, pty);
      PushStart(Ps, pty);
      elts[ix] := elt;
      ptys[ix] := pty;
      index := index[elt := ix];
      Ps, Es := Ps + [pty], Es + [elt];
      M := M[elt := pty];
      numElts := numElts + 1;
      assert ptys[..numElts] == Ps && elts[..numElts] == Es;
      HeapifyUp(ix);
      DownDone(Ps, ix);
    }

    /**
     * heap_uint32_update: gives elt the priority pty; when elt is not in the
     * heap, the program's assert fails.
     */
    method Update(pty: int, elt: E) returns (aborted: bool)
      requires Valid()
      modifies ptys, elts, this`index, this`Ps, this`Es, this`M
      ensures Valid()
      ensures aborted <==> elt !in old(M)
      ensures M == if aborted then old(M) else old(M)[elt := pty]
    {
      if elt !in index {
        return true;
      }
      aborted := false;
      var ix: U32 := index[elt];
      SetPty(ix, pty);
      HeapifyUp(ix);
      HeapifyDown(ix);
    }

    /** heap_uint32_update's write: slot ix gets priority pty, which starts a sift-up there. */
    method SetPty(ix: nat, pty: int)
      requires Valid() && ix < numElts
      modifies ptys, this`Ps, this`M
      ensures Shape() && Mirrors() && Indexed(Es, Ps, index, M) && UpOk(Ps, ix, ix)
      ensures M == old(M)[Es[ix] := pty]
    {
      IndexedSetPty(Es, Ps, index, M, ix, pty);
      UpdateStart(Ps, ix, pty);
      ptys[ix] := pty;
      Ps := Ps[ix := pty];
      M := M[Es[ix] := pty];
    }

    /**
     * heap_uint32_pop: removes and returns an entry of minimal priority; on
     * an empty heap the buffers are returned unchanged.
     */
    method Pop(ptyBuf: int, eltBuf: E) returns (pty: int, elt: E)
      requires Valid()
      modifies ptys, elts, this`index, this`Ps, this`Es, this`M, this`numElts
      ensures Valid()
      ensures old(numElts) == 0 ==> pty == ptyBuf && elt == eltBuf && M == old(M) && numElts == 0
      ensures old(numElts) > 0 ==> elt in old(M) && pty == old(M)[elt] &&
                                   (forall e :: e in old(M) ==> pty <= old(M)[e])
      ensures old(numElts) > 0 ==> M == old(M) - {elt} && numElts == old(numElts) - 1
    {
      if numElts == 0 {
        return ptyBuf, eltBuf;
      }
      elt := elts[0];
      pty := ptys[0];
      RootFacts();
      DropRoot();
      if numElts > 0 {
        HeapifyDown(0);
      }
    }

    /**
     * heap_uint32_pop's removal: the root is swapped with the last slot and
     * dropped, with its index entry; a sift-down from the root is then due.
     */
    method DropRoot()
      requires Shape() && Mirrors() && Indexed(Es, Ps, index, M) && numElts > 0
      requires numElts >= 2 ==> DownOk(HeapOrder.Swap(Ps, 0, numElts - 1)[..numElts - 1], 0)
      modifies ptys, elts, this`index, this`Ps, this`Es, this`M, this`numElts
      ensures Shape() && Mirrors() && Indexed(Es, Ps, index, M)
      ensures M == old(M) - {old(Es)[0]} && numElts == old(numElts) - 1
      ensures numElts > 0 ==> DownOk(Ps, 0)
    {
      var last := numElts - 1;
      var elt := elts[0];
      Swap(0, last);
      ghost var P1, E1 := Ps, Es;
      assert |E1| == |P1| == last + 1 && E1[last] == elt;
      IndexedDropLast(E1, P1, index, M);
      assert ptys[..last] == P1[..last] && elts[..last] == E1[..last];
      index := index - {elt};
      M := M - {elt};
      numElts := last;
      Ps, Es := P1[..last], E1[..last];
    }

    /** The root holds a least priority of the heap, and after a swap with the last slot a sift-down from the root is due. */
    lemma RootFacts()
      requires Valid() && numElts > 0
      ensures Es[0] in M && M[Es[0]] == Ps[0] && forall e :: e in M ==> Ps[0] <= M[e]
      ensures numElts >= 2 ==> DownOk(HeapOrder.Swap(Ps, 0, numElts - 1)[..numElts - 1], 0)
    {
      forall e | e in M
        ensures Ps[0] <= M[e]
      {
        RootIsMin(Ps, index[e]);
      }
      if numElts >= 2 {
        PopStart(Ps);
      }
    }

    /** heap_uint32_free: the elements handed to the element destructor, slot by slot (none without a destructor). */
    method Free(hasFreeElt: bool) returns (freed: seq<E>)
      requires Valid()
      ensures freed == if hasFreeElt then Es else []
      ensures hasFreeElt ==> forall e :: e in M ==> e in freed
    {
      freed := [];
      if hasFreeElt {
        for i := 0 to numElts
          invariant freed == Es[..i]
        {
          freed := freed + [elts[i]];
        }
        assert Es[..numElts] == Es;
        forall e | e in M
          ensures e in freed
        {
          assert freed[index[e]] == e;
        }
      }
    }

    /**
     * swap: exchanges the slots i and j of both arrays and points both
     * elements at their new slots (the index is then the one Indexed
     * determines for the swapped elements).
     */
    method Swap(i: U32, j: U32)
      requires Shape() && Mirrors() && i < numElts && j < numElts
      requires Indexed(Es, Ps, index, M)
      modifies ptys, elts, this`index, this`Ps, this`Es
      ensures Mirrors() && Indexed(Es, Ps, index, M)
      ensures Ps == HeapOrder.Swap(old(Ps), i, j) && Es == HeapOrder.Swap(old(Es), i, j)
    {
      if i == j {
        return;
      }
      IndexedSwap(Es, Ps, index, M, i, j);
      SwapIn(elts, i, j, numElts);
      SwapIn(ptys, i, j, numElts);
      index := index[elts[i] := i];
      index := index[elts[j] := j];
      Ps, Es := HeapOrder.Swap(Ps, i, j), HeapOrder.Swap(Es, i, j);
    }

    /**
     * heap_grow: doubles the size (clamped to 2^32 - 2), keeping the
     * entries; a heap already at the maximal size fails an assert.
     */
    method Grow() returns (aborted: bool)
      requires Valid()
      modifies this
      ensures Valid() && fresh(Repr - old(Repr))
      ensures aborted <==> old(heapSize) == HEAP_MAX_SIZE
      ensures aborted ==> heapSize == old(heapSize)
      ensures !aborted ==> heapSize == Stack.GrownCount(old(heapSize), HEAP_MAX_SIZE)
      ensures numElts == old(numElts) && Ps == old(Ps) && Es == old(Es) && M == old(M) && index == old(index)
    {
      if heapSize == HEAP_MAX_SIZE {
        return true;
      }
      aborted := false;
      var newSize: U32 := if HEAP_MAX_SIZE - heapSize < heapSize then HEAP_MAX_SIZE else heapSize * 2;
      var e := Resized(elts, newSize);
      var p := Resized(ptys, newSize);
      assert p[..numElts] == Ps && e[..numElts] == Es by {
        assert p[..numElts] == p[..heapSize][..numElts];
        assert e[..numElts] == e[..heapSize][..numElts];
      }
      heapSize := newSize;
      ptys, elts := p, e;
      Repr := {this, p, e};
    }

    /** Exchanges slots i and j of an array, within its first n slots. */
    static method SwapIn<T>(a: array<T>, i: nat, j: nat, n: nat)
      requires i < n && j < n && n <= a.Length
      modifies a
      ensures a[..n] == HeapOrder.Swap(old(a[..n]), i, j)
    {
      a[i], a[j] := a[j], a[i];
    }

    /** realloc: a fresh array of the new size that starts with the old contents. */
    static method Resized<T(0)>(a: array<T>, size: nat) returns (b: array<T>)
      requires a.Length <= size
      ensures fresh(b) && b.Length == size && b[..a.Length] == a[..]
    {
      b := new T[size];
      forall i | 0 <= i < a.Length {
        b[i] := a[i];
      }
    }

    /**
     * heapify_up: swaps the entry at i with its parent while the parent's
     * priority is greater. On return only the children of slot i may be out
     * of order.
     */
    method HeapifyUp(i: U32)
      requires Shape() && Mirrors() && i < numElts
      requires Indexed(Es, Ps, index, M) && UpOk(Ps, i, i)
      modifies ptys, elts, this`index, this`Ps, this`Es
      ensures Mirrors() && Indexed(Es, Ps, index, M) && DownOk(Ps, i)
    {
      var h: U32 := i;
      while h > 0
        invariant h <= i && Mirrors() && Indexed(Es, Ps, index, M) && UpOk(Ps, h, i)
        decreases h
      {
        var ju: U32 := (h - 1) / 2;
        if ptys[ju] > ptys[h] {
          UpStep(Ps, h, i);
          Swap(h, ju);
          h := ju;
        } else {
          break;
        }
      }
      UpDone(Ps, h, i);
    }

    /**
     * heapify_down: swaps the entry at i with a child of least priority (the
     * left one on a tie) while its priority is greater, comparing only the
     * left child when it is the only one.
     */
    method HeapifyDown(i: U32)
      requires Shape() && Mirrors() && i < numElts
      requires Indexed(Es, Ps, index, M) && DownOk(Ps, i)
      modifies ptys, elts, this`index, this`Ps, this`Es
      ensures Mirrors() && Indexed(Es, Ps, index, M) && IsHeap(Ps)
    {
      var h: U32 := i;
      while h + 2 <= numElts - 1 - h
        invariant h < numElts && Mirrors() && Indexed(Es, Ps, index, M) && DownOk(Ps, h)
        decreases numElts - h
      {
        var jl: U32 := 2 * h + 1;
        var jr: U32 := 2 * h + 2;
        if ptys[h] > ptys[jl] && ptys[jl] <= ptys[jr] {
          DownStep(Ps, h, jl);
          Swap(h, jl);
          h := jl;
        } else if ptys[h] > ptys[jr] {
          DownStep(Ps, h, jr);
          Swap(h, jr);
          h := jr;
        } else {
          assert AtMostChildren(Ps, Ps[h], h);
          break;
        }
      }
      LastChild(h);
    }

    /**
     * The tail of heapify_down: when slot h has a left child only, the two
     * are swapped if the child's priority is smaller.
     */
    method LastChild(h: U32)
      requires Shape() && Mirrors() && h < numElts
      requires Indexed(Es, Ps, index, M) && DownOk(Ps, h)
      requires h + 2 <= numElts - 1 - h ==> AtMostChildren(Ps, Ps[h], h)
      modifies ptys, elts, this`index, this`Ps, this`Es
      ensures Mirrors() && Indexed(Es, Ps, index, M) && IsHeap(Ps)
    {
      if h + 1 == numElts - 1 - h {
        var jl: U32 := 2 * h + 1;
        if ptys[h] > ptys[jl] {
          DownStep(Ps, h, jl);
          Swap(h, jl);
          DownDone(Ps, jl);
          return;
        }
      }
      DownDone(Ps, h);
    }
  }
}
