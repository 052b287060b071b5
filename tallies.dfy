/** The invocation counters of com.highbar.tools.mri.monitor.MRIProfiler: a
    `HashMap` from a key to an `Integer` that is looked up, defaulted to 0 and
    written back incremented. An entry list stands for the map, in the order
    keys were first added; `id` is what the key's `equals` compares, and the
    key object stored is the first one added. */
module Tallies {

  /** The index of the entry whose key equals `x`, or `|entries|` if none. */
  function Find<T, K(==)>(entries: seq<(T, nat)>, k: K, id: T -> K): (i: nat)
    ensures i <= |entries|
    ensures i < |entries| ==> id(entries[i].0) == k
    ensures forall j :: 0 <= j < i ==> id(entries[j].0) != k
  {
    if entries == [] then 0
    else if id(entries[0].0) == k then 0
    else 1 + Find(entries[1..], k, id)
  }

  /** `put(key, ++count)` after `get(key)`, with a missing count read as 0. */
  function Bump<T, K(==)>(entries: seq<(T, nat)>, x: T, id: T -> K): seq<(T, nat)>
  {
    var i := Find(entries, id(x), id);
    if i < |entries| then entries[i := (entries[i].0, entries[i].1 + 1)]
    else entries + [(x, 1)]
  }

  /** The counter after the keys of `log` were added in turn to an empty map. */
  function Tally<T, K(==)>(log: seq<T>, id: T -> K): seq<(T, nat)>
  {
    if log == [] then [] else Bump(Tally(log[..|log| - 1], id), log[|log| - 1], id)
  }

  /** How many elements of `log` are equal to a key `k`. */
  function Occurrences<T, K(==)>(log: seq<T>, k: K, id: T -> K): nat
  {
    if log == [] then 0
    else Occurrences(log[..|log| - 1], k, id) + (if id(log[|log| - 1]) == k then 1 else 0)
  }

  /** No two entries have equal keys. */
  ghost predicate DistinctKeys<T, K>(entries: seq<(T, nat)>, id: T -> K)
  {
    forall i, j :: 0 <= i < j < |entries| ==> id(entries[i].0) != id(entries[j].0)
  }

  /** The count stored for a key that was added. */
  function Count<T, K(==)>(entries: seq<(T, nat)>, k: K, id: T -> K): nat
  {
    var i := Find(entries, k, id);
    if i < |entries| then entries[i].1 else 0
  }

  /** What the counter means: the count read for any key is how many times
      a key equal to it was added, 0 for a key never added. */
  lemma {:induction false} TallyCounts<T, K>(log: seq<T>, id: T -> K, k: K)
    ensures Count(Tally(log, id), k, id) == Occurrences(log, k, id)
  {
    if log != [] {
      TallyCounts(log[..|log| - 1], id, k);
      BumpCounts(Tally(log[..|log| - 1], id), log[|log| - 1], id, k);
    }
  }

  /** Every key in the counter was added at least once. */
  lemma {:induction false} TallyPositive<T, K>(log: seq<T>, id: T -> K)
    ensures forall i :: 0 <= i < |Tally(log, id)| ==> Tally(log, id)[i].1 > 0
  {
    if log != [] {
      TallyPositive(log[..|log| - 1], id);
    }
  }

  /** The counter holds one entry per key. */
  lemma {:induction false} TallyDistinct<T, K>(log: seq<T>, id: T -> K)
    ensures DistinctKeys(Tally(log, id), id)
  {
    if log != [] {
      TallyDistinct(log[..|log| - 1], id);
    }
  }

  /** Adding a key raises its own count by one and leaves every other count
      as it was. */
  lemma BumpCounts<T, K>(entries: seq<(T, nat)>, x: T, id: T -> K, k: K)
    ensures Count(Bump(entries, x, id), k, id) == Count(entries, k, id) + (if k == id(x) then 1 else 0)
  {
    var i := Find(entries, id(x), id);
    if i < |entries| {
      FindSameKeys(entries, Bump(entries, x, id), k, id);
    } else {
      FindAppended(entries, (x, 1), k, id);
    }
  }

  /** Where only counts differ, every key is found at the same index. */
  lemma {:induction false} FindSameKeys<T, K>(entries: seq<(T, nat)>, after: seq<(T, nat)>, k: K, id: T -> K)
    requires |after| == |entries| && forall j :: 0 <= j < |entries| ==> after[j].0 == entries[j].0
    ensures Find(after, k, id) == Find(entries, k, id)
  {
    if entries != [] && id(entries[0].0) != k {
      FindSameKeys(entries[1..], after[1..], k, id);
    }
  }

  /** Appending an entry leaves the keys already present where they were. */
  lemma {:induction false} FindAppended<T, K>(entries: seq<(T, nat)>, e: (T, nat), k: K, id: T -> K)
    ensures Find(entries + [e], k, id) ==
      if Find(entries, k, id) < |entries| || id(e.0) == k then Find(entries, k, id) else |entries| + 1
  {
    if entries == [] {
      assert [e][1..] == [];
    } else {
      assert (entries + [e])[1..] == entries[1..] + [e];
      if id(entries[0].0) != k {
        FindAppended(entries[1..], e, k, id);
      }
    }
  }
}
