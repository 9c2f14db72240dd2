/**
 * A dynamically allocated stack over an array that doubles when full, up to
 * a maximum count. Elements are stored bottom to top in elts[0..numElts).
 */
module Stack {
  import opened Base

  /** The count after growing from `count` with the given maximum: doubled, or clamped to the maximum. */
  function GrownCount(count: nat, countMax: nat): (r: nat)
    requires 0 < count < countMax
    ensures count < r <= countMax
    ensures r == 2 * count || r == countMax
  {
    if countMax - count < count then countMax else 2 * count
  }

  class Stack<T(0)> {
    var count: nat
    const countMax: nat
    var numElts: nat
    var elts: array<T>
    ghost var Repr: set<object>

    ghost predicate Valid()
      reads this, Repr
    {
      Repr == {this, elts} &&
      elts.Length == count &&
      0 < count <= countMax <= SIZE_MAX &&
      numElts <= count
    }

    /** The stack's elements, bottom first. */
    function Elements(): seq<T>
      requires Valid()
      reads this, Repr
    {
      elts[..numElts]
    }

    /** stack_init: an empty stack of initCount slots; a count above the maximum is an exit (null). */
    static method Init(initCount: nat, countMax: nat) returns (s: Stack?<T>)
      requires 0 < initCount && countMax <= SIZE_MAX
      ensures s == null <==> initCount > countMax
      ensures s != null ==> fresh(s.Repr) && s.Valid() && s.Elements() == [] &&
                            s.count == initCount && s.countMax == countMax
    {
      if initCount > countMax {
        return null;
      }
      s := new Stack(initCount, countMax);
    }

    constructor (initCount: nat, countMax: nat)
      requires 0 < initCount <= countMax <= SIZE_MAX
      ensures fresh(Repr) && Valid() && Elements() == []
      ensures count == initCount && this.countMax == countMax
    {
      count := initCount;
      this.countMax := countMax;
      numElts := 0;
      var a := new T[initCount];
      elts := a;
      Repr := {this, a};
    }

    /** stack_grow: doubles the count (clamped to the maximum), keeping the elements; at the maximum it exits. */
    method Grow() returns (exited: bool)
      requires Valid()
      modifies this
      ensures Valid() && fresh(Repr - old(Repr))
      ensures exited <==> old(count) == countMax
      ensures exited ==> count == old(count) && elts == old(elts)
      ensures !exited ==> count == GrownCount(old(count), countMax)
      ensures numElts == old(numElts) && Elements() == old(Elements())
    {
      if count == countMax {
        return true;
      }
      exited := false;
      var newCount := if countMax - count < count then countMax else count * 2;
      var a := new T[newCount];
      forall i | 0 <= i < count {
        a[i] := elts[i];
      }
      count := newCount;
      elts := a;
      Repr := {this, a};
    }

    /** stack_push: x goes on top; when the stack is full and cannot grow, the program exits. */
    method Push(x: T) returns (exited: bool)
      requires Valid()
      modifies this, elts
      ensures Valid() && fresh(Repr - old(Repr))
      ensures exited <==> old(numElts) == old(count) && old(count) == countMax
      ensures exited ==> Elements() == old(Elements())
      ensures !exited ==> Elements() == old(Elements()) + [x]
      ensures old(numElts) < old(count) ==> count == old(count)
      ensures old(numElts) == old(count) && !exited ==> count == GrownCount(old(count), countMax)
    {
      if numElts == count {
        exited := Grow();
        if exited {
          return;
        }
      }
      exited := false;
      elts[numElts] := x;
      numElts := numElts + 1;
    }

    /** stack_pop: removes and returns the top element; on an empty stack it returns `buffer` unchanged. */
    method Pop(buffer: T) returns (x: T)
      requires Valid()
      modifies this
      ensures Valid() && Repr == old(Repr) && count == old(count)
      ensures old(Elements()) == [] ==> x == buffer && Elements() == []
      ensures old(Elements()) != [] ==> old(Elements()) == Elements() + [x]
    {
      if numElts == 0 {
        return buffer;
      }
      x := elts[numElts - 1];
      numElts := numElts - 1;
      assert old(Elements()) == Elements() + [x];
    }

    /** stack_first: the top element, or None on an empty stack. */
    function First(): (r: Option<T>)
      requires Valid()
      reads this, Repr
      ensures r == None <==> Elements() == []
      ensures r.Some? ==> r.value == Elements()[|Elements()| - 1]
    {
      if numElts == 0 then None else Some(elts[numElts - 1])
    }

    /** stack_free: the elements handed to the element destructor, bottom first (none without a destructor). */
    method Free(hasFreeElt: bool) returns (freed: seq<T>)
      requires Valid()
      ensures freed == if hasFreeElt then Elements() else []
    {
      freed := [];
      if hasFreeElt {
        for i := 0 to numElts
          invariant freed == elts[..i]
        {
          freed := freed + [elts[i]];
        }
      }
    }
  }

  /**
   * Pushing a sequence of elements onto a fresh stack and then popping as many
   * returns them in reverse order, and leaves the stack empty with room for all.
   */
  method PushAllPopAll<T(0)>(xs: seq<T>, buffer: T) returns (popped: seq<T>, finalCount: nat)
    requires |xs| <= SIZE_MAX
    ensures popped == Reverse(xs)
    ensures finalCount >= |xs|
  {
    var s := new Stack<T>(1, SIZE_MAX);
    for i := 0 to |xs|
      invariant s.Valid() && fresh(s.Repr)
      invariant s.Elements() == xs[..i]
      invariant s.count >= i
    {
      var exited := s.Push(xs[i]);
      assert xs[..i + 1] == xs[..i] + [xs[i]];
    }
    assert xs[..|xs|] == xs;
    popped := [];
    for i := 0 to |xs|
      invariant s.Valid() && fresh(s.Repr)
      invariant s.Elements() == xs[..|xs| - i]
      invariant popped == Reverse(xs[|xs| - i..])
      invariant s.count >= |xs|
    {
      var x := s.Pop(buffer);
      assert xs[|xs| - i - 1..] == [xs[|xs| - i - 1]] + xs[|xs| - i..];
      popped := popped + [x];
    }
    finalCount := s.count;
  }
}
