/** `new TreeMap<K, V>(map)` as the profiler's getters use it: the entries of
    the source map are put one at a time, in its iteration order, into a
    red-black tree ordered by the keys' `compareTo`. The tree is represented
    by its in-order entry list; `put` walks it the way a search walks the
    tree, which is the same walk as long as the list stays ordered for the
    key being put. */
module TreeMaps {
  import opened Wrappers

  /** `put(k, v)`: before the first entry the key compares below, or in
      place of the value of the first entry it compares equal to (keeping
      that entry's key), or at the end. */
  function Put<K, V>(entries: seq<(K, V)>, k: K, v: V, cmp: (K, K) -> int): (r: seq<(K, V)>)
    ensures |entries| <= |r| <= |entries| + 1
  {
    if entries == [] then [(k, v)]
    else
      var c := cmp(k, entries[0].0);
      if c < 0 then [(k, v)] + entries
      else if c == 0 then [(entries[0].0, v)] + entries[1..]
      else [entries[0]] + Put(entries[1..], k, v, cmp)
  }

  /** The copy constructor: every entry of `from` put in turn into an empty
      tree. */
  function Copy<K, V>(from: seq<(K, V)>, cmp: (K, K) -> int): (r: seq<(K, V)>)
    ensures |r| <= |from|
  {
    if from == [] then []
    else Put(Copy(from[..|from| - 1], cmp), from[|from| - 1].0, from[|from| - 1].1, cmp)
  }

  /** `get(k)`: the value of the first entry comparing equal to `k`. */
  function Get<K, V>(entries: seq<(K, V)>, k: K, cmp: (K, K) -> int): Option<V>
  {
    if entries == [] then None
    else if cmp(k, entries[0].0) == 0 then Some(entries[0].1)
    else Get(entries[1..], k, cmp)
  }

  /** `compareTo` is a total order: zero exactly on equal keys, antisymmetric
      and transitive. */
  ghost predicate TotalOrder<K(!new)>(cmp: (K, K) -> int)
  {
    (forall a, b :: cmp(a, b) == 0 <==> a == b)
    && (forall a, b :: cmp(a, b) < 0 <==> cmp(b, a) > 0)
    && (forall a, b, c :: cmp(a, b) < 0 && cmp(b, c) < 0 ==> cmp(a, c) < 0)
  }

  /** Keys strictly ascending: the in-order walk of a search tree. */
  ghost predicate Ascending<K, V>(entries: seq<(K, V)>, cmp: (K, K) -> int)
  {
    forall i, j :: 0 <= i < j < |entries| ==> cmp(entries[i].0, entries[j].0) < 0
  }

  /** Under a total order a put keeps the keys ascending. */
  lemma {:induction false} PutAscending<K(!new), V>(entries: seq<(K, V)>, k: K, v: V, cmp: (K, K) -> int)
    requires TotalOrder(cmp) && Ascending(entries, cmp)
    ensures Ascending(Put(entries, k, v, cmp), cmp)
  {
    if entries == [] {
    } else if cmp(k, entries[0].0) < 0 {
      BelowFirstAscending(entries, k, v, cmp);
    } else if cmp(k, entries[0].0) == 0 {
      ReplaceFirstAscending(entries, v, cmp);
    } else {
      AboveFirstBelowRest(entries, k, v, cmp);
      PutAscending(entries[1..], k, v, cmp);
      ConsAscending(entries[0], Put(entries[1..], k, v, cmp), cmp);
    }
  }

  /** A key above the first is put among the rest, all of whose keys stay
      above the first. */
  lemma AboveFirstBelowRest<K(!new), V>(entries: seq<(K, V)>, k: K, v: V, cmp: (K, K) -> int)
    requires TotalOrder(cmp) && Ascending(entries, cmp) && entries != [] && cmp(k, entries[0].0) > 0
    ensures forall j :: 0 <= j < |Put(entries[1..], k, v, cmp)| ==> cmp(entries[0].0, Put(entries[1..], k, v, cmp)[j].0) < 0
  {
    var rest := Put(entries[1..], k, v, cmp);
    PutKeys(entries[1..], k, v, cmp);
    forall j | 0 <= j < |rest| ensures cmp(entries[0].0, rest[j].0) < 0 {
      if rest[j].0 != k {
        var i :| 0 <= i < |entries[1..]| && entries[1..][i].0 == rest[j].0;
      }
    }
  }

  /** A key below the first goes in front. */
  lemma BelowFirstAscending<K(!new), V>(entries: seq<(K, V)>, k: K, v: V, cmp: (K, K) -> int)
    requires TotalOrder(cmp) && Ascending(entries, cmp) && entries != [] && cmp(k, entries[0].0) < 0
    ensures Ascending([(k, v)] + entries, cmp)
  {
    forall j | 0 < j < |entries| ensures cmp(k, entries[j].0) < 0 {
      assert cmp(entries[0].0, entries[j].0) < 0;
    }
    ConsAscending((k, v), entries, cmp);
  }

  /** A new value for the first key keeps the keys. */
  lemma ReplaceFirstAscending<K, V>(entries: seq<(K, V)>, v: V, cmp: (K, K) -> int)
    requires Ascending(entries, cmp) && entries != []
    ensures Ascending([(entries[0].0, v)] + entries[1..], cmp)
  {
    forall j | 0 <= j < |entries[1..]| ensures cmp(entries[0].0, entries[1..][j].0) < 0 {
      assert entries[1..][j] == entries[j + 1];
    }
    ConsAscending((entries[0].0, v), entries[1..], cmp);
  }

  /** An entry below every key of an ascending list can go in front. */
  lemma ConsAscending<K, V>(first: (K, V), rest: seq<(K, V)>, cmp: (K, K) -> int)
    requires Ascending(rest, cmp) && forall j :: 0 <= j < |rest| ==> cmp(first.0, rest[j].0) < 0
    ensures Ascending([first] + rest, cmp)
  {
    var r := [first] + rest;
    forall i, j | 0 <= i < j < |r| ensures cmp(r[i].0, r[j].0) < 0 {
      assert r[j] == rest[j - 1];
      if i > 0 {
        assert r[i] == rest[i - 1];
      }
    }
  }

  /** A put adds at most the key put: every key afterwards was there before
      or is `k`. */
  lemma {:induction false} PutKeys<K, V>(entries: seq<(K, V)>, k: K, v: V, cmp: (K, K) -> int)
    ensures forall j :: 0 <= j < |Put(entries, k, v, cmp)| ==>
      Put(entries, k, v, cmp)[j].0 == k || exists i :: 0 <= i < |entries| && entries[i].0 == Put(entries, k, v, cmp)[j].0
  {
    if entries != [] && cmp(k, entries[0].0) > 0 {
      PutKeys(entries[1..], k, v, cmp);
      var r := Put(entries, k, v, cmp);
      forall j | 0 <= j < |r| && r[j].0 != k
        ensures exists i :: 0 <= i < |entries| && entries[i].0 == r[j].0
      {
        if j > 0 {
          var i :| 0 <= i < |entries[1..]| && entries[1..][i].0 == r[j].0;
          assert entries[i + 1].0 == r[j].0;
        } else {
          assert entries[0].0 == r[j].0;
        }
      }
    }
  }

  /** A copy brings in no key of its own: every key of the copy is a key of
      `from`. */
  lemma {:induction false} CopyKeys<K, V>(from: seq<(K, V)>, cmp: (K, K) -> int)
    ensures forall j :: 0 <= j < |Copy(from, cmp)| ==> exists i :: 0 <= i < |from| && from[i].0 == Copy(from, cmp)[j].0
  {
    var r := Copy(from, cmp);
    if from != [] {
      var init, last := from[..|from| - 1], from[|from| - 1];
      CopyKeys(init, cmp);
      var c := Copy(init, cmp);
      PutKeys(c, last.0, last.1, cmp);
      assert r == Put(c, last.0, last.1, cmp);
      forall j | 0 <= j < |r| ensures exists i :: 0 <= i < |from| && from[i].0 == r[j].0 {
        if r[j].0 == last.0 {
          assert from[|from| - 1].0 == r[j].0;
        } else {
          var i :| 0 <= i < |c| && c[i].0 == r[j].0;
          var k :| 0 <= k < |init| && init[k].0 == c[i].0;
          assert from[k] == init[k];
        }
      }
    }
  }

  /** Reading back after a put: the value put for keys comparing equal to
      `k`, the earlier value for the others. */
  lemma {:induction false} GetAfterPut<K(!new), V>(entries: seq<(K, V)>, k: K, v: V, q: K, cmp: (K, K) -> int)
    requires TotalOrder(cmp)
    ensures Get(Put(entries, k, v, cmp), q, cmp) == if q == k then Some(v) else Get(entries, q, cmp)
  {
    if entries != [] && cmp(k, entries[0].0) > 0 {
      GetAfterPut(entries[1..], k, v, q, cmp);
    }
  }

  /** Under a total order the copy's keys are ascending. */
  lemma {:induction false} CopyAscending<K(!new), V>(from: seq<(K, V)>, cmp: (K, K) -> int)
    requires TotalOrder(cmp)
    ensures Ascending(Copy(from, cmp), cmp)
  {
    if from != [] {
      CopyAscending(from[..|from| - 1], cmp);
      PutAscending(Copy(from[..|from| - 1], cmp), from[|from| - 1].0, from[|from| - 1].1, cmp);
    }
  }

  /** The value of the last entry of `from` with key `q`. */
  ghost function LastValue<K, V>(from: seq<(K, V)>, q: K): Option<V>
  {
    if from == [] then None
    else if from[|from| - 1].0 == q then Some(from[|from| - 1].1)
    else LastValue(from[..|from| - 1], q)
  }

  /** Under a total order the copy maps every key to the value last given to
      it, and holds no other key. */
  lemma {:induction false} CopyGet<K(!new), V>(from: seq<(K, V)>, q: K, cmp: (K, K) -> int)
    requires TotalOrder(cmp)
    ensures Get(Copy(from, cmp), q, cmp) == LastValue(from, q)
  {
    if from != [] {
      CopyGet(from[..|from| - 1], q, cmp);
      GetAfterPut(Copy(from[..|from| - 1], cmp), from[|from| - 1].0, from[|from| - 1].1, q, cmp);
    }
  }

  /** A put whose key compares unequal to every key present inserts a new
      entry and loses none. */
  lemma {:induction false} PutInserts<K, V>(entries: seq<(K, V)>, k: K, v: V, cmp: (K, K) -> int)
    requires forall i :: 0 <= i < |entries| ==> cmp(k, entries[i].0) != 0
    ensures multiset(Put(entries, k, v, cmp)) == multiset(entries) + multiset{(k, v)}
  {
    if entries != [] && cmp(k, entries[0].0) > 0 {
      PutInserts(entries[1..], k, v, cmp);
      assert entries == [entries[0]] + entries[1..];
    }
  }

  /** If no key of `from` compares equal to an earlier one, the copy keeps
      every entry. */
  lemma {:induction false} CopyKeepsAll<K, V>(from: seq<(K, V)>, cmp: (K, K) -> int)
    requires forall i, j :: 0 <= i < j < |from| ==> cmp(from[j].0, from[i].0) != 0
    ensures multiset(Copy(from, cmp)) == multiset(from)
  {
    if from != [] {
      var init, last := from[..|from| - 1], from[|from| - 1];
      CopyKeepsAll(init, cmp);
      var c := Copy(init, cmp);
      forall i | 0 <= i < |c| ensures cmp(last.0, c[i].0) != 0 {
        assert c[i] in multiset(init);
        var j :| 0 <= j < |init| && init[j] == c[i];
      }
      PutInserts(c, last.0, last.1, cmp);
      assert from == init + [last];
    }
  }
}
