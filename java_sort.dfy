/** `Collections.sort(list)` with a comparator that is only asked whether
    one element belongs after another: insertion of each element in turn,
    moving it left past every element that belongs after it. This is what the
    merge sort of `java.util.Arrays` does on short lists, and on longer ones
    it yields the same list whenever "belongs after" separates different keys
    only. */
module JavaSort {

  function Last<T>(s: seq<T>): T
    requires s != []
  {
    s[|s| - 1]
  }

  lemma SplitLast<T>(s: seq<T>)
    requires s != []
    ensures s == s[..|s| - 1] + [Last(s)]
  {
  }

  /** One insertion step: `x` moves left past every element `after` puts
      after it. */
  function Insert<T>(s: seq<T>, x: T, after: (T, T) -> bool): (r: seq<T>)
    ensures |r| == |s| + 1 && multiset(r) == multiset(s) + multiset{x}
    ensures Last(r) == x || (s != [] && Last(r) == Last(s))
  {
    if s != [] && after(Last(s), x) then
      SplitLast(s);
      Insert(s[..|s| - 1], x, after) + [Last(s)]
    else s + [x]
  }

  function Sort<T>(s: seq<T>, after: (T, T) -> bool): (r: seq<T>)
    ensures |r| == |s|
  {
    if s == [] then [] else Insert(Sort(s[..|s| - 1], after), Last(s), after)
  }

  ghost predicate Asymmetric<T(!new)>(after: (T, T) -> bool)
  {
    forall a, b :: after(a, b) ==> !after(b, a)
  }

  /** No element belongs after its successor. */
  predicate Sorted<T>(s: seq<T>, after: (T, T) -> bool)
  {
    forall i :: 0 < i < |s| ==> !after(s[i - 1], s[i])
  }

  /** `after` only ever separates elements with different keys. */
  ghost predicate SeparatesKeys<T(!new), K>(after: (T, T) -> bool, key: T -> K)
  {
    forall a, b :: after(a, b) ==> key(a) != key(b)
  }

  /** The elements with key `k`, in order. */
  ghost function WithKey<T, K>(s: seq<T>, key: T -> K, k: K): seq<T>
  {
    if s == [] then []
    else WithKey(s[..|s| - 1], key, k) + (if key(Last(s)) == k then [Last(s)] else [])
  }

  lemma {:induction false} InsertSorted<T(!new)>(s: seq<T>, x: T, after: (T, T) -> bool)
    requires Asymmetric(after) && Sorted(s, after)
    ensures Sorted(Insert(s, x, after), after)
    decreases |s|
  {
    if s != [] && after(Last(s), x) {
      var init := s[..|s| - 1];
      InsertSorted(init, x, after);
      var r := Insert(init, x, after);
      assert Insert(s, x, after) == r + [Last(s)];
      assert !after(Last(r), Last(s));
    }
  }

  lemma {:induction false} InsertWithKey<T(!new), K>(s: seq<T>, x: T, after: (T, T) -> bool, key: T -> K, k: K)
    requires SeparatesKeys(after, key)
    ensures WithKey(Insert(s, x, after), key, k) == WithKey(s, key, k) + (if key(x) == k then [x] else [])
    decreases |s|
  {
    var r := Insert(s, x, after);
    if s != [] && after(Last(s), x) {
      var init := s[..|s| - 1];
      InsertWithKey(init, x, after, key, k);
      assert r[..|r| - 1] == Insert(init, x, after);
    } else {
      assert r[..|r| - 1] == s;
    }
  }

  /** The sort is a permutation. */
  lemma {:induction false} SortIsPermutation<T>(s: seq<T>, after: (T, T) -> bool)
    ensures multiset(Sort(s, after)) == multiset(s)
  {
    if s != [] {
      SortIsPermutation(s[..|s| - 1], after);
      SplitLast(s);
    }
  }

  /** With an asymmetric `after`, no element of the result belongs after
      the next one. */
  lemma {:induction false} SortIsSorted<T(!new)>(s: seq<T>, after: (T, T) -> bool)
    requires Asymmetric(after)
    ensures Sorted(Sort(s, after), after)
  {
    if s != [] {
      SortIsSorted(s[..|s| - 1], after);
      InsertSorted(Sort(s[..|s| - 1], after), Last(s), after);
    }
  }

  /** The sort is stable: elements with equal keys keep their order. */
  lemma {:induction false} SortIsStable<T(!new), K>(s: seq<T>, after: (T, T) -> bool, key: T -> K, k: K)
    requires SeparatesKeys(after, key)
    ensures WithKey(Sort(s, after), key, k) == WithKey(s, key, k)
  {
    if s != [] {
      SortIsStable(s[..|s| - 1], after, key, k);
      InsertWithKey(Sort(s[..|s| - 1], after), Last(s), after, key, k);
    }
  }
}
