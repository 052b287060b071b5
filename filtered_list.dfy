/** com.highbar.util.FilteredList: a view of another list holding only the
    elements a filter accepts. The view is a stored copy that is rebuilt only
    when `onFilterModify` runs; the underlying list and the filter are shared
    with the caller, who may change them in between. */
module FilteredLists {
  import opened Wrappers

  /** The elements of `s` that `accepts` holds for, in their order in `s`. */
  function Filtered<T>(s: seq<T>, accepts: T -> bool): (r: seq<T>)
    ensures |r| <= |s|
  {
    if s == [] then []
    else Filtered(s[..|s| - 1], accepts) + (if accepts(s[|s| - 1]) then [s[|s| - 1]] else [])
  }

  /** The positions in `s` of the elements `accepts` holds for, ascending. */
  function AcceptedIndices<T>(s: seq<T>, accepts: T -> bool): seq<nat>
  {
    if s == [] then []
    else AcceptedIndices(s[..|s| - 1], accepts) + (if accepts(s[|s| - 1]) then [|s| - 1] else [])
  }

  /** The view is the subsequence of `s` picked by the ascending list of every
      accepted position, and of no other position. */
  lemma {:induction false} FilteredPicksAccepted<T>(s: seq<T>, accepts: T -> bool)
    ensures var idx, r := AcceptedIndices(s, accepts), Filtered(s, accepts);
      && |idx| == |r|
      && (forall k :: 0 <= k < |idx| ==> idx[k] < |s| && r[k] == s[idx[k]])
      && (forall k, l :: 0 <= k < l < |idx| ==> idx[k] < idx[l])
      && (forall i :: 0 <= i < |s| ==> (accepts(s[i]) <==> i in idx))
  {
    if s != [] {
      var front := s[..|s| - 1];
      FilteredPicksAccepted(front, accepts);
      var idx0 := AcceptedIndices(front, accepts);
      var idx := AcceptedIndices(s, accepts);
      var r := Filtered(s, accepts);
      assert idx[..|idx0|] == idx0;
      assert r[..|idx0|] == Filtered(front, accepts);
      forall i | 0 <= i < |s| ensures accepts(s[i]) <==> i in idx {
        if i < |s| - 1 {
          assert s[i] == front[i];
          assert i in idx0 <==> i in idx;
        } else if i !in idx0 {
          assert i in idx <==> accepts(s[i]);
        } else {
          assert false;
        }
      }
    }
  }

  /** An element is in the view exactly when it is in the list and accepted. */
  lemma FilteredMembers<T>(s: seq<T>, accepts: T -> bool, x: T)
    ensures x in Filtered(s, accepts) <==> x in s && accepts(x)
  {
    FilteredPicksAccepted(s, accepts);
    var idx, r := AcceptedIndices(s, accepts), Filtered(s, accepts);
    if x in r {
      var k :| 0 <= k < |r| && r[k] == x;
      assert s[idx[k]] == x;
    }
    if x in s && accepts(x) {
      var i :| 0 <= i < |s| && s[i] == x;
      var k :| 0 <= k < |idx| && idx[k] == i;
      assert r[k] == x;
    }
  }

  /** Filtering the view again with the same filter changes nothing. */
  lemma {:induction false} FilteredIdempotent<T>(s: seq<T>, accepts: T -> bool)
    ensures Filtered(Filtered(s, accepts), accepts) == Filtered(s, accepts)
  {
    if s != [] {
      var front := s[..|s| - 1];
      var x := s[|s| - 1];
      FilteredIdempotent(front, accepts);
      var r := Filtered(s, accepts);
      if accepts(x) {
        assert r[..|r| - 1] == Filtered(front, accepts);
      } else {
        assert r == Filtered(front, accepts);
      }
    }
  }

  /** A filter that accepts everything gives back the list itself. */
  lemma {:induction false} FilteredAll<T>(s: seq<T>, accepts: T -> bool)
    requires forall x :: accepts(x)
    ensures Filtered(s, accepts) == s
  {
    if s != [] {
      FilteredAll(s[..|s| - 1], accepts);
      assert s[..|s| - 1] + [s[|s| - 1]] == s;
    }
  }

  /** Filtering the concatenation of two lists filters each part. */
  lemma {:induction false} FilteredAppend<T>(a: seq<T>, b: seq<T>, accepts: T -> bool)
    ensures Filtered(a + b, accepts) == Filtered(a, accepts) + Filtered(b, accepts)
  {
    if b != [] {
      var front := b[..|b| - 1];
      FilteredAppend(a, front, accepts);
      assert (a + b)[..|a + b| - 1] == a + front;
    } else {
      assert a + b == a;
    }
  }

  /** Under criteria that accept no more than `wider` does, the view is the
      view of the wider view: a stricter filter only removes rows. */
  lemma {:induction false} FilteredNarrower<T>(s: seq<T>, narrower: T -> bool, wider: T -> bool)
    requires forall x :: narrower(x) ==> wider(x)
    ensures Filtered(s, narrower) == Filtered(Filtered(s, wider), narrower)
  {
    if s != [] {
      var front := s[..|s| - 1];
      var x := s[|s| - 1];
      FilteredNarrower(front, narrower, wider);
      var w := Filtered(s, wider);
      if wider(x) {
        assert w == Filtered(front, wider) + [x];
        assert w[..|w| - 1] == Filtered(front, wider) && w[|w| - 1] == x;
      } else {
        assert w == Filtered(front, wider);
      }
    }
  }

  /** The caller's list, shared by reference with every view built on it. */
  class ListHandle<T> {
    var elements: seq<T>

    constructor (elements: seq<T>)
      ensures this.elements == elements
    {
      this.elements := elements;
    }

    /** Any change to the shared list by its owner. */
    method SetElements(elements: seq<T>)
      modifies this
      ensures this.elements == elements
    {
      this.elements := elements;
    }
  }

  /** The filter criteria, shared by reference; `accept` answers with the
      criteria current at the time of the call. */
  class FilterHandle<T> {
    var accepts: T -> bool

    constructor (accepts: T -> bool)
      ensures this.accepts == accepts
    {
      this.accepts := accepts;
    }

    /** A change of the criteria by their owner (a check box, a slider). */
    method SetCriteria(accepts: T -> bool)
      modifies this
      ensures this.accepts == accepts
    {
      this.accepts := accepts;
    }

    function Accept(x: T): (b: bool)
      reads this
      ensures b == accepts(x)
    {
      accepts(x)
    }
  }

  class FilteredList<T> {
    /** The underlying list, aliased and not copied. */
    const unfilteredList: ListHandle<T>
    const filter: FilterHandle<T>
    /** The stored view. */
    var filteredList: seq<T>

    /** The view matches the current list and criteria: true after every
        `onFilterModify`, until the list or the criteria change. */
    ghost predicate Current()
      reads this, unfilteredList, filter
    {
      filteredList == Filtered(unfilteredList.elements, filter.accepts)
    }

    /** The constructor keeps references to both arguments and computes the
        view at once. */
    constructor (list: ListHandle<T>, filter: FilterHandle<T>)
      ensures unfilteredList == list && this.filter == filter
      ensures filteredList == Filtered(list.elements, filter.accepts)
    {
      this.unfilteredList := list;
      this.filter := filter;
      this.filteredList := [];
      new;
      OnFilterModify();
    }

    /** `get`: the element at `index` of the view; an index outside the view
        raises IndexOutOfBoundsException. While the view is current the
        element is the one at the index-th accepted position of the list. */
    method Get(index: int) returns (r: Result<T>)
      ensures 0 <= index < |filteredList| ==> r == Ok(filteredList[index])
      ensures !(0 <= index < |filteredList|) ==> r == Err(IndexOutOfBounds)
      ensures Current() && r.Ok? ==>
        var idx := AcceptedIndices(unfilteredList.elements, filter.accepts);
        index < |idx| && idx[index] < |unfilteredList.elements|
        && r.value == unfilteredList.elements[idx[index]]
        && filter.accepts(r.value)
    {
      if 0 <= index < |filteredList| {
        FilteredPicksAccepted(unfilteredList.elements, filter.accepts);
        r := Ok(filteredList[index]);
      } else {
        r := Err(IndexOutOfBounds);
      }
    }

    /** `size`: the length of the view, never more than the underlying list's
        while the view is current. */
    method Size() returns (n: int)
      ensures n == |filteredList|
      ensures Current() ==> n <= |unfilteredList.elements|
    {
      n := |filteredList|;
    }

    /** `onFilterModify`: clears the view and refills it with the accepted
        elements in list order. Neither the list nor the criteria change, so
        a second call in a row gives the same view. */
    method OnFilterModify()
      modifies this
      ensures filteredList == Filtered(unfilteredList.elements, filter.accepts)
      ensures Current()
    {
      filteredList := [];
      var elements := unfilteredList.elements;
      for i := 0 to |elements|
        invariant filteredList == Filtered(elements[..i], filter.accepts)
      {
        assert elements[..i + 1][..i] == elements[..i];
        if filter.Accept(elements[i]) {
          filteredList := filteredList + [elements[i]];
        }
      }
      assert elements[..|elements|] == elements;
    }
  }
}
