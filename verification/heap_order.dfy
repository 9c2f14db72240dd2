/**
 * Binary min-heap order over a sequence of priorities, and the element index
 * that both heaps keep beside their arrays. Slot c > 0 has parent (c - 1) / 2.
 *
 * Sifting is described on the logical sequence of priorities: for heap.c,
 * which moves a hole rather than swapping, that is the array with the hole
 * filled by the buffered entry, so every move is a swap of two slots.
 */
module HeapOrder {

  /** s with slots i and j exchanged. */
  function Swap<T>(s: seq<T>, i: nat, j: nat): (r: seq<T>)
    requires i < |s| && j < |s|
    ensures |r| == |s| && r[i] == s[j] && r[j] == s[i]
    ensures forall k :: 0 <= k < |s| && k != i && k != j ==> r[k] == s[k]
  {
    s[i := s[j]][j := s[i]]
  }

  /** Slot c is no smaller than its parent (trivially so for the root and outside s). */
  ghost predicate InOrder(s: seq<int>, c: int)
  {
    0 < c < |s| ==> s[(c - 1) / 2] <= s[c]
  }

  /** Every parent's priority is at most its children's. */
  ghost predicate IsHeap(s: seq<int>)
  {
    forall c :: InOrder(s, c)
  }

  /** The value at h is at most both children of slot k (those that exist). */
  ghost predicate AtMostChildren(s: seq<int>, v: int, k: nat)
  {
    (2 * k + 1 < |s| ==> v <= s[2 * k + 1]) &&
    (2 * k + 2 < |s| ==> v <= s[2 * k + 2])
  }

  /**
   * The sift-up invariant: the value at h is being moved up from i0. Every
   * slot not touching h is in order, h's parent is at most h's children, and
   * once the value has moved it is at most its children.
   */
  ghost predicate UpOk(s: seq<int>, h: nat, i0: nat)
  {
    h <= i0 < |s| &&
    (forall c :: c != h && (c - 1) / 2 != h ==> InOrder(s, c)) &&
    (h > 0 ==> AtMostChildren(s, s[(h - 1) / 2], h)) &&
    (h < i0 ==> AtMostChildren(s, s[h], h))
  }

  /**
   * The sift-down invariant: every slot whose parent is not h is in order,
   * and h's parent is at most h's children.
   */
  ghost predicate DownOk(s: seq<int>, h: nat)
  {
    h < |s| &&
    (forall c :: (c - 1) / 2 != h ==> InOrder(s, c)) &&
    (h > 0 ==> AtMostChildren(s, s[(h - 1) / 2], h))
  }

  /** The root of a heap holds a minimal priority. */
  lemma {:induction false} RootIsMin(s: seq<int>, i: nat)
    requires IsHeap(s) && i < |s|
    ensures s[0] <= s[i]
    decreases i
  {
    if i > 0 {
      assert InOrder(s, i);
      RootIsMin(s, (i - 1) / 2);
    }
  }

  /** Appending a value to a heap starts a sift-up at the new last slot. */
  lemma PushStart(s: seq<int>, v: int)
    requires IsHeap(s)
    ensures UpOk(s + [v], |s|, |s|)
  {
    var t := s + [v];
    forall c | c != |s| && (c - 1) / 2 != |s|
      ensures InOrder(t, c)
    {
      assert InOrder(s, c);
    }
  }

  /** Overwriting one priority of a heap starts a sift-up at that slot. */
  lemma UpdateStart(s: seq<int>, i: nat, v: int)
    requires IsHeap(s) && i < |s|
    ensures UpOk(s[i := v], i, i)
  {
    var t := s[i := v];
    forall c | c != i && (c - 1) / 2 != i
      ensures InOrder(t, c)
    {
      assert InOrder(s, c);
    }
    if i > 0 {
      assert InOrder(s, i) && InOrder(s, 2 * i + 1) && InOrder(s, 2 * i + 2);
    }
  }

  /** One sift-up move: a value below its parent changes places with it. */
  lemma UpStep(s: seq<int>, h: nat, i0: nat)
    requires UpOk(s, h, i0) && h > 0 && s[h] < s[(h - 1) / 2]
    ensures UpOk(Swap(s, h, (h - 1) / 2), (h - 1) / 2, i0)
  {
    var p := (h - 1) / 2;
    var t := Swap(s, h, p);
    forall c | c != p && (c - 1) / 2 != p
      ensures InOrder(t, c)
    {
      if 0 < c < |t| && (c - 1) / 2 == h {
        assert c == 2 * h + 1 || c == 2 * h + 2;
      } else {
        assert InOrder(s, c);
      }
    }
    var q := if h == 2 * p + 1 then 2 * p + 2 else 2 * p + 1;
    assert InOrder(s, q);
    if p > 0 {
      assert InOrder(s, p);
    }
  }

  /** A sift-up that stops leaves at most the children of its start slot out of order. */
  lemma UpDone(s: seq<int>, h: nat, i0: nat)
    requires UpOk(s, h, i0) && (h == 0 || s[(h - 1) / 2] <= s[h])
    ensures DownOk(s, i0)
  {
    forall c | (c - 1) / 2 != i0
      ensures InOrder(s, c)
    {
      if 0 < c < |s| && (c - 1) / 2 == h {
        assert c == 2 * h + 1 || c == 2 * h + 2;
      }
    }
    if h < i0 {
      assert InOrder(s, i0) by {
        forall c | true
          ensures InOrder(s, c)
        {
          if 0 < c < |s| && (c - 1) / 2 == h {
            assert c == 2 * h + 1 || c == 2 * h + 2;
          }
        }
      }
      assert InOrder(s, 2 * i0 + 1) && InOrder(s, 2 * i0 + 2);
    }
  }

  /** One sift-down move: a value above its least child changes places with it. */
  lemma DownStep(s: seq<int>, h: nat, j: nat)
    requires DownOk(s, h) && j < |s| && (j == 2 * h + 1 || j == 2 * h + 2) && s[j] < s[h]
    requires AtMostChildren(s, s[j], h)
    ensures DownOk(Swap(s, h, j), j)
  {
    var t := Swap(s, h, j);
    forall c | (c - 1) / 2 != j
      ensures InOrder(t, c)
    {
      if 0 < c < |t| && (c - 1) / 2 == h {
        assert c == 2 * h + 1 || c == 2 * h + 2;
      } else if c != h {
        assert InOrder(s, c);
      }
    }
    assert InOrder(s, 2 * j + 1) && InOrder(s, 2 * j + 2);
  }

  /** A sift-down that stops with the value at most its children leaves a heap. */
  lemma DownDone(s: seq<int>, h: nat)
    requires DownOk(s, h) && AtMostChildren(s, s[h], h)
    ensures IsHeap(s)
  {
    forall c | true
      ensures InOrder(s, c)
    {
      if 0 < c < |s| && (c - 1) / 2 == h {
        assert c == 2 * h + 1 || c == 2 * h + 2;
      }
    }
  }

  /** Moving the last value of a heap to the root and dropping the old root starts a sift-down at 0. */
  lemma PopStart(s: seq<int>)
    requires IsHeap(s) && |s| >= 2
    ensures DownOk(Swap(s, 0, |s| - 1)[..|s| - 1], 0)
  {
    var t := Swap(s, 0, |s| - 1)[..|s| - 1];
    forall c | (c - 1) / 2 != 0
      ensures InOrder(t, c)
    {
      assert InOrder(s, c);
    }
  }

  /**
   * The element index of a heap: index maps each stored element to its slot,
   * and m gives each stored element's priority. elts and ptys are the stored
   * elements and priorities, slot by slot.
   */
  ghost predicate Indexed<E>(elts: seq<E>, ptys: seq<int>, index: map<E, nat>, m: map<E, int>)
  {
    |elts| == |ptys| &&
    index.Keys == m.Keys &&
    (forall e :: e in index ==> index[e] < |elts| && elts[index[e]] == e && ptys[index[e]] == m[e]) &&
    (forall i :: 0 <= i < |elts| ==> elts[i] in index && index[elts[i]] == i)
  }

  /** An index of no slots is empty, and a non-empty one has an entry. */
  lemma IndexedEmpty<E>(elts: seq<E>, ptys: seq<int>, index: map<E, nat>, m: map<E, int>)
    requires Indexed(elts, ptys, index, m)
    ensures |elts| == 0 <==> m == map[]
  {
    if |elts| == 0 {
      forall e | true
        ensures e !in m
      {
        assert e !in index;
      }
      assert m.Keys == {};
    } else {
      assert elts[0] in m;
    }
  }

  /** Swapping two slots and re-pointing both elements keeps the index. */
  lemma IndexedSwap<E>(elts: seq<E>, ptys: seq<int>, index: map<E, nat>, m: map<E, int>, i: nat, j: nat)
    requires Indexed(elts, ptys, index, m) && i < |elts| && j < |elts|
    ensures Indexed(Swap(elts, i, j), Swap(ptys, i, j), index[elts[j] := i][elts[i] := j], m)
  {
  }

  /** Storing a new element in a new last slot extends the index. */
  lemma IndexedPush<E>(elts: seq<E>, ptys: seq<int>, index: map<E, nat>, m: map<E, int>, e: E, p: int)
    requires Indexed(elts, ptys, index, m) && e !in m
    ensures Indexed(elts + [e], ptys + [p], index[e := |elts|], m[e := p])
  {
  }

  /** Dropping the last slot removes its element from the index. */
  lemma IndexedDropLast<E>(elts: seq<E>, ptys: seq<int>, index: map<E, nat>, m: map<E, int>)
    requires Indexed(elts, ptys, index, m) && |elts| > 0
    ensures Indexed(elts[..|elts| - 1], ptys[..|ptys| - 1],
                    index - {elts[|elts| - 1]}, m - {elts[|elts| - 1]})
  {
  }

  /** Changing the priority in one slot changes that element's priority only. */
  lemma IndexedSetPty<E>(elts: seq<E>, ptys: seq<int>, index: map<E, nat>, m: map<E, int>, i: nat, p: int)
    requires Indexed(elts, ptys, index, m) && i < |elts|
    ensures Indexed(elts, ptys[i := p], index, m[elts[i] := p])
  {
  }
}
