/**
 * A dynamically allocated FIFO queue over an array. The live elements occupy
 * the window elts[numPoppedElts .. numPoppedElts + numElts); pushing writes
 * past the window, popping advances its start, and once the popped prefix is
 * at least as long as the rest of the buffer the window is moved to the front.
 */
module Queue {
  import opened Base
  import Stack

  class Queue<T(0)> {
    var count: nat
    const countMax: nat
    var numElts: nat
    var numPoppedElts: nat
    var elts: array<T>
    ghost var Repr: set<object>

    /** The window lies inside the buffer. */
    ghost predicate Window()
      reads this, Repr
    {
      Repr == {this, elts} &&
      elts.Length == count &&
      0 < count <= countMax <= SIZE_MAX &&
      numPoppedElts + numElts <= count
    }

    /** Between operations the popped prefix is also shorter than the rest of the buffer. */
    ghost predicate Valid()
      reads this, Repr
    {
      Window() && 2 * numPoppedElts < count
    }

    /** The queue's elements, front first. */
    function Elements(): seq<T>
      requires Window()
      reads this, Repr
    {
      elts[numPoppedElts..numPoppedElts + numElts]
    }

    /** queue_init: an empty queue of initCount slots; a count above the maximum is an exit (null). */
    static method Init(initCount: nat, countMax: nat) returns (q: Queue?<T>)
      requires 0 < initCount && countMax <= SIZE_MAX
      ensures q == null <==> initCount > countMax
      ensures q != null ==> fresh(q.Repr) && q.Valid() && q.Elements() == [] &&
                            q.numPoppedElts == 0 && q.count == initCount && q.countMax == countMax
    {
      if initCount > countMax {
        return null;
      }
      q := new Queue(initCount, countMax);
    }

    constructor (initCount: nat, countMax: nat)
      requires 0 < initCount <= countMax <= SIZE_MAX
      ensures fresh(Repr) && Valid() && Elements() == [] && numPoppedElts == 0
      ensures count == initCount && this.countMax == countMax
    {
      count := initCount;
      this.countMax := countMax;
      numElts := 0;
      numPoppedElts := 0;
      var a := new T[initCount];
      elts := a;
      Repr := {this, a};
    }

    /** queue_grow: doubles the count (clamped to the maximum), keeping the buffer's contents; at the maximum it exits. */
    method Grow() returns (exited: bool)
      requires Valid()
      modifies this
      ensures Valid() && fresh(Repr - old(Repr))
      ensures exited <==> old(count) == countMax
      ensures exited ==> count == old(count) && elts == old(elts)
      ensures !exited ==> count == Stack.GrownCount(old(count), countMax)
      ensures numElts == old(numElts) && numPoppedElts == old(numPoppedElts)
      ensures Elements() == old(Elements())
    {
      if count == countMax {
        return true;
      }
      exited := false;
      var newCount := if countMax - count < count then countMax else count * 2;
      var a := new T[newCount];
      forall i | 0 <= i < count {
        a[i] := elts[i];
      }
      count := newCount;
      elts := a;
      Repr := {this, a};
    }

    /**
     * queue_move: copies the window to the front of the buffer and resets the
     * popped count. The source and destination regions must not overlap.
     */
    method Move()
      requires Window() && numElts <= numPoppedElts
      modifies elts, this
      ensures Valid() && Repr == old(Repr) && count == old(count)
      ensures numPoppedElts == 0 && numElts == old(numElts)
      ensures Elements() == old(Elements())
    {
      for i := 0 to numElts
        modifies elts
        invariant elts[..i] == old(Elements())[..i]
        invariant elts[numPoppedElts..numPoppedElts + numElts] == old(Elements())
      {
        elts[i] := elts[numPoppedElts + i];
      }
      numPoppedElts := 0;
    }

    /** queue_push: x joins the back; when the buffer is full and cannot grow, the program exits. */
    method Push(x: T) returns (exited: bool)
      requires Valid()
      modifies this, elts
      ensures Valid() && fresh(Repr - old(Repr))
      ensures exited <==> old(numPoppedElts + numElts) == old(count) && old(count) == countMax
      ensures exited ==> Elements() == old(Elements())
      ensures !exited ==> Elements() == old(Elements()) + [x]
      ensures numPoppedElts == old(numPoppedElts)
      ensures old(numPoppedElts + numElts) < old(count) ==> count == old(count)
      ensures old(numPoppedElts + numElts) == old(count) && !exited ==>
                count == Stack.GrownCount(old(count), countMax)
    {
      if count == numPoppedElts + numElts {
        exited := Grow();
        if exited {
          return;
        }
      }
      exited := false;
      elts[numPoppedElts + numElts] := x;
      numElts := numElts + 1;
    }

    /**
     * queue_pop: removes and returns the front element; on an empty queue it
     * returns `buffer` unchanged. Afterwards the window is moved to the front
     * when the popped prefix is at least as long as the remaining buffer.
     */
    method Pop(buffer: T) returns (x: T)
      requires Valid()
      modifies this, elts
      ensures Valid() && Repr == old(Repr) && count == old(count)
      ensures old(Elements()) == [] ==> x == buffer && Elements() == [] &&
                                        numPoppedElts == old(numPoppedElts)
      ensures old(Elements()) != [] ==> old(Elements()) == [x] + Elements()
      ensures old(Elements()) != [] ==>
                numPoppedElts == (if count - (old(numPoppedElts) + 1) <= old(numPoppedElts) + 1
                                  then 0 else old(numPoppedElts) + 1)
      ensures 2 * numPoppedElts < count
    {
      if numElts == 0 {
        return buffer;
      }
      x := elts[numPoppedElts];
      numElts := numElts - 1;
      numPoppedElts := numPoppedElts + 1;
      assert old(Elements()) == [x] + Elements();
      if count - numPoppedElts <= numPoppedElts {
        Move();
      }
    }

    /** queue_first: the front element, or None on an empty queue. */
    function First(): (r: Option<T>)
      requires Valid()
      reads this, Repr
      ensures r == None <==> Elements() == []
      ensures r.Some? ==> r.value == Elements()[0]
    {
      if numElts == 0 then None else Some(elts[numPoppedElts])
    }

    /** queue_free: the elements handed to the element destructor, front first (none without a destructor). */
    method Free(hasFreeElt: bool) returns (freed: seq<T>)
      requires Valid()
      ensures freed == if hasFreeElt then Elements() else []
    {
      freed := [];
      if hasFreeElt {
        for i := 0 to numElts
          invariant freed == elts[numPoppedElts..numPoppedElts + i]
        {
          freed := freed + [elts[numPoppedElts + i]];
        }
      }
    }
  }

  /**
   * Pushing a sequence of elements onto a fresh queue and then popping as many
   * returns them in the order pushed, and the buffer ends with room for all.
   */
  method PushAllPopAll<T(0)>(xs: seq<T>, buffer: T) returns (popped: seq<T>, finalCount: nat)
    requires |xs| <= SIZE_MAX
    ensures popped == xs
    ensures finalCount >= |xs|
  {
    var q := new Queue<T>(1, SIZE_MAX);
    for i := 0 to |xs|
      invariant q.Valid() && fresh(q.Repr)
      invariant q.Elements() == xs[..i] && q.numPoppedElts == 0
      invariant q.count >= i
    {
      var exited := q.Push(xs[i]);
      assert xs[..i + 1] == xs[..i] + [xs[i]];
    }
    assert xs[..|xs|] == xs;
    popped := [];
    for i := 0 to |xs|
      invariant q.Valid() && fresh(q.Repr)
      invariant q.Elements() == xs[i..]
      invariant popped == xs[..i]
      invariant q.count >= |xs|
    {
      var x := q.Pop(buffer);
      assert xs[i..] == [xs[i]] + xs[i + 1..];
      assert xs[..i + 1] == xs[..i] + [xs[i]];
      popped := popped + [x];
    }
    finalCount := q.count;
  }

  /**
   * The queue_first scenario: all elements are pushed, then all are popped.
   * While pushing, the front is None on the empty queue and otherwise stays
   * the first element pushed; while popping, the front is always the next
   * element in push order, and None once the last one is gone.
   */
  method FirstWhilePushingAndPopping<T(0)>(xs: seq<T>, buffer: T)
    returns (beforePush: seq<Option<T>>, afterPush: seq<Option<T>>,
             beforePop: seq<Option<T>>, afterPop: seq<Option<T>>, left: nat, finalCount: nat)
    requires |xs| <= SIZE_MAX
    ensures |beforePush| == |afterPush| == |beforePop| == |afterPop| == |xs|
    ensures |xs| > 0 ==> beforePush[0] == None
    ensures forall i :: 0 < i < |xs| ==> beforePush[i] == Some(xs[0])
    ensures forall i :: 0 <= i < |xs| ==> afterPush[i] == Some(xs[0])
    ensures forall i :: 0 <= i < |xs| ==> beforePop[i] == Some(xs[i])
    ensures forall i :: 0 <= i < |xs| - 1 ==> afterPop[i] == Some(xs[i + 1])
    ensures |xs| > 0 ==> afterPop[|xs| - 1] == None
    ensures left == 0 && finalCount >= |xs|
  {
    var q := new Queue<T>(1, SIZE_MAX);
    beforePush, afterPush := PushWatchingFront(q, xs);
    finalCount := q.count;
    beforePop, afterPop := PopWatchingFront(q, xs, buffer);
    left := q.numElts;
  }

  /** The push phase of the queue_first scenario, reading the front before and after each push. */
  method PushWatchingFront<T(0)>(q: Queue<T>, xs: seq<T>) returns (beforePush: seq<Option<T>>, afterPush: seq<Option<T>>)
    requires q.Valid() && q.Elements() == [] && q.numPoppedElts == 0 && q.countMax == SIZE_MAX && |xs| <= SIZE_MAX
    modifies q, q.elts
    ensures q.Valid() && fresh(q.Repr - old(q.Repr)) && q.Elements() == xs && q.count >= |xs|
    ensures |beforePush| == |afterPush| == |xs|
    ensures |xs| > 0 ==> beforePush[0] == None
    ensures forall i :: 0 < i < |xs| ==> beforePush[i] == Some(xs[0])
    ensures forall i :: 0 <= i < |xs| ==> afterPush[i] == Some(xs[0])
  {
    beforePush, afterPush := [], [];
    for i := 0 to |xs|
      invariant q.Valid() && fresh(q.Repr - old(q.Repr)) && q.countMax == SIZE_MAX
      invariant q.Elements() == xs[..i] && q.numPoppedElts == 0
      invariant q.count >= i
      invariant |beforePush| == |afterPush| == i
      invariant i > 0 ==> beforePush[0] == None
      invariant forall j :: 0 < j < i ==> beforePush[j] == Some(xs[0])
      invariant forall j :: 0 <= j < i ==> afterPush[j] == Some(xs[0])
    {
      beforePush := beforePush + [q.First()];
      var exited := q.Push(xs[i]);
      assert xs[..i + 1] == xs[..i] + [xs[i]];
      assert q.Elements()[0] == xs[0];
      afterPush := afterPush + [q.First()];
    }
    assert xs[..|xs|] == xs;
  }

  /** The pop phase of the queue_first scenario, reading the front before and after each pop. */
  method PopWatchingFront<T(0)>(q: Queue<T>, xs: seq<T>, buffer: T) returns (beforePop: seq<Option<T>>, afterPop: seq<Option<T>>)
    requires q.Valid() && q.Elements() == xs
    modifies q, q.elts
    ensures q.Valid() && q.Elements() == [] && q.count == old(q.count) && q.numElts == 0
    ensures |beforePop| == |afterPop| == |xs|
    ensures forall i :: 0 <= i < |xs| ==> beforePop[i] == Some(xs[i])
    ensures forall i :: 0 <= i < |xs| - 1 ==> afterPop[i] == Some(xs[i + 1])
    ensures |xs| > 0 ==> afterPop[|xs| - 1] == None
  {
    beforePop, afterPop := [], [];
    for i := 0 to |xs|
      invariant q.Valid() && q.Repr == old(q.Repr) && q.count == old(q.count)
      invariant q.Elements() == xs[i..]
      invariant |beforePop| == |afterPop| == i
      invariant forall j :: 0 <= j < i ==> beforePop[j] == Some(xs[j])
      invariant forall j :: 0 <= j < i && j + 1 < |xs| ==> afterPop[j] == Some(xs[j + 1])
      invariant i == |xs| > 0 ==> afterPop[|xs| - 1] == None
    {
      assert xs[i..][1..] == xs[i + 1..];
      var before, after := PopWatched(q, buffer);
      beforePop, afterPop := beforePop + [before], afterPop + [after];
    }
  }

  /** One pop of a nonempty queue, with the front read before and after it. */
  method PopWatched<T(0)>(q: Queue<T>, buffer: T) returns (before: Option<T>, after: Option<T>)
    requires q.Valid() && q.Elements() != []
    modifies q, q.elts
    ensures q.Valid() && q.Repr == old(q.Repr) && q.count == old(q.count)
    ensures q.Elements() == old(q.Elements())[1..]
    ensures before == Some(old(q.Elements())[0])
    ensures after == if |old(q.Elements())| > 1 then Some(old(q.Elements())[1]) else None
  {
    before := q.First();
    var x := q.Pop(buffer);
    after := q.First();
  }
}
