/** com.highbar.util.UnsynchronizedStack: a list-backed stack whose top is the
    last element of the list. */
module UnsynchronizedStacks {
  import opened Wrappers

  class UnsynchronizedStack<T> {
    /** The backing list, bottom first. */
    var list: seq<T>

    /** A stack with no elements. */
    constructor ()
      ensures list == []
    {
      list := [];
    }

    /** The copy constructor: a new, independent stack with the same contents. */
    constructor Copy(stack: UnsynchronizedStack<T>)
      ensures list == stack.list
    {
      list := stack.list;
    }

    /** `push`: the element goes on top; everything below is kept. */
    method Push(x: T)
      modifies this
      ensures list == old(list) + [x]
    {
      list := list + [x];
    }

    /** `pop`: the top element is returned and removed; on an empty stack an
        EmptyStackException, with nothing changed. */
    method Pop() returns (r: Result<T>)
      modifies this
      ensures old(list) == [] ==> r == Err(EmptyStack) && list == []
      ensures old(list) != [] ==> r == Ok(old(list)[|old(list)| - 1]) && list == old(list)[..|old(list)| - 1]
    {
      var length := |list|;
      if length == 0 {
        return Err(EmptyStack);
      }
      var x := list[length - 1];
      list := list[..length - 1];
      return Ok(x);
    }

    /** `peek`: the top element, or an EmptyStackException on an empty stack. */
    method Peek() returns (r: Result<T>)
      ensures list == [] <==> r == Err(EmptyStack)
      ensures list != [] ==> r == Ok(list[|list| - 1])
    {
      var length := |list|;
      if length == 0 {
        return Err(EmptyStack);
      }
      return Ok(list[length - 1]);
    }

    /** `clear`: no elements remain. */
    method Clear()
      modifies this
      ensures list == [] && Size() == 0
    {
      list := [];
    }

    function Size(): (n: nat)
      reads this
      ensures n == |list|
    {
      |list|
    }

    /** `isEmpty`: holds exactly when the size is 0. */
    function IsEmpty(): (b: bool)
      reads this
      ensures b <==> Size() == 0
      ensures b <==> list == []
    {
      |list| == 0
    }
  }

  /** `push(x)` then `pop()` returns `x` and restores the previous contents;
      `peek` after `push(x)` sees `x`. */
  method PushThenPop<T>(s: UnsynchronizedStack<T>, x: T) returns (popped: Result<T>, top: Result<T>)
    modifies s
    ensures top == Ok(x)
    ensures popped == Ok(x) && s.list == old(s.list)
  {
    s.Push(x);
    top := s.Peek();
    popped := s.Pop();
  }

  /** The copy is independent both ways: after the copy, pushing onto the
      original leaves the copy as it was, and pushing onto the copy leaves
      the original as it was. */
  method CopyIsIndependent<T>(s: UnsynchronizedStack<T>, x: T, y: T) returns (c: UnsynchronizedStack<T>)
    modifies s
    ensures fresh(c)
    ensures s.list == old(s.list) + [x]
    ensures c.list == old(s.list) + [y]
  {
    c := new UnsynchronizedStack.Copy(s);
    s.Push(x);
    c.Push(y);
  }
}
