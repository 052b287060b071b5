/** The java.lang.String and commons-lang StringUtils operations the core relies
    on, stated over `seq<char>`. Case folding is ASCII only. */
module JavaStrings {
  import opened Strings

  predicate StartsWith(s: string, prefix: string)
  {
    |prefix| <= |s| && s[..|prefix|] == prefix
  }

  /** `s.indexOf(c)`: the first position of `c`, or -1. */
  function IndexOfChar(s: string, c: char): (r: int)
    ensures -1 <= r < |s|
    ensures r == -1 <==> forall k :: 0 <= k < |s| ==> s[k] != c
    ensures r >= 0 ==> s[r] == c && forall k :: 0 <= k < r ==> s[k] != c
  {
    if |s| == 0 then -1
    else if s[0] == c then 0
    else
      var k := IndexOfChar(s[1..], c);
      if k == -1 then -1 else k + 1
  }

  /** `s.lastIndexOf(c)`: the last position of `c`, or -1. */
  function LastIndexOfChar(s: string, c: char): (r: int)
    ensures -1 <= r < |s|
    ensures r == -1 <==> forall k :: 0 <= k < |s| ==> s[k] != c
    ensures r >= 0 ==> s[r] == c && forall k :: r < k < |s| ==> s[k] != c
  {
    if |s| == 0 then -1
    else if s[|s| - 1] == c then |s| - 1
    else LastIndexOfChar(s[..|s| - 1], c)
  }

  /** `sub` occurs in `s` starting at position `k`. */
  predicate OccursAt(s: string, sub: string, k: int)
  {
    0 <= k && k + |sub| <= |s| && s[k..k + |sub|] == sub
  }

  /** `s.indexOf(sub)`: the first position where `sub` occurs, or -1
      (`IndexOfFirst`: no occurrence before it). */
  function IndexOf(s: string, sub: string): (r: int)
    ensures -1 <= r <= |s|
    ensures r >= 0 ==> OccursAt(s, sub, r)
    decreases |s|
  {
    if |sub| > |s| then -1
    else if s[..|sub|] == sub then 0
    else
      var k := IndexOf(s[1..], sub);
      if k == -1 then -1
      else
        SliceOfTail(s, k + 1, k + 1 + |sub|);
        k + 1
  }

  /** `sub` occurs nowhere before the position `indexOf` finds, and nowhere
      at all when it finds none. */
  lemma {:induction false} IndexOfFirst(s: string, sub: string)
    ensures forall k :: 0 <= k && (IndexOf(s, sub) == -1 || k < IndexOf(s, sub)) ==> !OccursAt(s, sub, k)
    decreases |s|
  {
    if |sub| <= |s| && s[..|sub|] != sub {
      IndexOfFirst(s[1..], sub);
      forall k | 1 <= k && k + |sub| <= |s| && OccursAt(s, sub, k)
        ensures OccursAt(s[1..], sub, k - 1)
      {
        SliceOfTail(s, k, k + |sub|);
      }
    }
  }

  lemma SliceOfTail(s: string, a: int, b: int)
    requires 1 <= a <= b <= |s|
    ensures s[a..b] == s[1..][a - 1..b - 1]
  {
    assert forall i :: 0 <= i < b - a ==> s[a..b][i] == s[a + i] == s[1..][a - 1..b - 1][i];
  }

  predicate Contains(s: string, sub: string)
  {
    IndexOf(s, sub) != -1
  }

  /** Java's `trim()` removes every character up to U+0020 from both ends. */
  predicate IsTrimmable(c: char)
  {
    c <= ' '
  }

  function TrimStart(s: string): (r: string)
    ensures |r| <= |s| && r == s[|s| - |r|..]
    ensures r == [] || !IsTrimmable(r[0])
    ensures forall i :: 0 <= i < |s| - |r| ==> IsTrimmable(s[i])
  {
    if |s| > 0 && IsTrimmable(s[0]) then TrimStart(s[1..]) else s
  }

  function TrimEnd(s: string): (r: string)
    ensures |r| <= |s| && r == s[..|r|]
    ensures r == [] || !IsTrimmable(r[|r| - 1])
    ensures forall i :: |r| <= i < |s| ==> IsTrimmable(s[i])
  {
    if |s| > 0 && IsTrimmable(s[|s| - 1]) then TrimEnd(s[..|s| - 1]) else s
  }

  /** The number of characters `trim()` cuts from the front. */
  function TrimOffset(s: string): (n: nat)
    ensures n <= |s|
  {
    |s| - |TrimStart(s)|
  }

  /** `s.trim()`: the longest middle part that neither starts nor ends with
      a character up to U+0020; everything cut off is such a character. */
  function Trim(s: string): (r: string)
    ensures TrimOffset(s) + |r| <= |s|
    ensures r == s[TrimOffset(s)..TrimOffset(s) + |r|]
    ensures forall k :: 0 <= k < TrimOffset(s) ==> IsTrimmable(s[k])
    ensures forall k :: TrimOffset(s) + |r| <= k < |s| ==> IsTrimmable(s[k])
    ensures r == [] || (!IsTrimmable(r[0]) && !IsTrimmable(r[|r| - 1]))
  {
    TrimEnd(TrimStart(s))
  }

  function ToUpperAscii(c: char): char
  {
    if 'a' <= c <= 'z' then (c as int - 32) as char else c
  }

  function ToLowerAscii(c: char): char
  {
    if 'A' <= c <= 'Z' then (c as int + 32) as char else c
  }

  predicate CharEqualsIgnoreCase(a: char, b: char)
  {
    a == b || ToUpperAscii(a) == ToUpperAscii(b) || ToLowerAscii(a) == ToLowerAscii(b)
  }

  /** `a.equalsIgnoreCase(b)`: same length and every pair of characters equal
      up to case. */
  predicate EqualsIgnoreCase(a: string, b: string)
  {
    |a| == |b| && forall i :: 0 <= i < |a| ==> CharEqualsIgnoreCase(a[i], b[i])
  }

  /** `a.compareTo(b)`: the difference of the first differing characters, or
      the difference of the lengths when one string is a prefix of the other. */
  function CompareTo(a: string, b: string): int
  {
    if |a| == 0 || |b| == 0 then |a| - |b|
    else if a[0] != b[0] then a[0] as int - b[0] as int
    else CompareTo(a[1..], b[1..])
  }

  /** `compareTo` is zero exactly on equal strings. */
  lemma {:induction false} CompareToZeroIffEqual(a: string, b: string)
    ensures CompareTo(a, b) == 0 <==> a == b
  {
    if |a| > 0 && |b| > 0 && a[0] == b[0] {
      CompareToZeroIffEqual(a[1..], b[1..]);
      assert a == [a[0]] + a[1..] && b == [b[0]] + b[1..];
    }
  }

  /** Swapping the arguments negates the result. */
  lemma {:induction false} CompareToAntisymmetric(a: string, b: string)
    ensures CompareTo(a, b) == -CompareTo(b, a)
  {
    if |a| > 0 && |b| > 0 && a[0] == b[0] {
      CompareToAntisymmetric(a[1..], b[1..]);
    }
  }

  /** "Less than" under `compareTo` is transitive. */
  lemma {:induction false} CompareToTransitive(a: string, b: string, c: string)
    requires CompareTo(a, b) < 0 && CompareTo(b, c) < 0
    ensures CompareTo(a, c) < 0
  {
    if |a| > 0 && |b| > 0 && |c| > 0 && a[0] == b[0] && b[0] == c[0] {
      CompareToTransitive(a[1..], b[1..], c[1..]);
    }
  }

  /** `s.replaceAll("\\.", "/")` and similar: every `from` becomes `to`. */
  function ReplaceChar(s: string, from: char, to: char): (r: string)
    ensures |r| == |s|
    ensures forall i :: 0 <= i < |s| ==> r[i] == if s[i] == from then to else s[i]
  {
    if |s| == 0 then [] else [if s[0] == from then to else s[0]] + ReplaceChar(s[1..], from, to)
  }

  /** The number of leading characters of `s` that are not separators. */
  function TokenLength(s: string, seps: set<char>): (n: nat)
    ensures n <= |s|
    ensures forall i :: 0 <= i < n ==> s[i] !in seps
    ensures n < |s| ==> s[n] in seps
  {
    if |s| == 0 || s[0] in seps then 0 else 1 + TokenLength(s[1..], seps)
  }

  /** `s` with every separator character removed. */
  function Without(s: string, seps: set<char>): string
  {
    if |s| == 0 then [] else (if s[0] in seps then [] else [s[0]]) + Without(s[1..], seps)
  }

  function Concat(parts: seq<string>): string
  {
    if |parts| == 0 then [] else parts[0] + Concat(parts[1..])
  }

  /** commons-lang `StringUtils.split(s, separatorChars)`: the maximal runs of
      non-separator characters, so adjacent separators count as one and no
      token is empty. */
  function SplitAny(s: string, seps: set<char>): (r: seq<string>)
    ensures forall t :: t in r ==> |t| > 0
    ensures forall t :: t in r ==> forall i :: 0 <= i < |t| ==> t[i] !in seps
    decreases |s|
  {
    if |s| == 0 then []
    else if s[0] in seps then SplitAny(s[1..], seps)
    else
      var n := TokenLength(s, seps);
      [s[..n]] + SplitAny(s[n..], seps)
  }

  lemma {:induction false} WithoutAppend(a: string, b: string, seps: set<char>)
    ensures Without(a + b, seps) == Without(a, seps) + Without(b, seps)
  {
    if |a| > 0 {
      assert (a + b)[1..] == a[1..] + b;
      WithoutAppend(a[1..], b, seps);
    } else {
      assert a + b == b;
    }
  }

  lemma {:induction false} WithoutNoSeparators(t: string, seps: set<char>)
    requires forall i :: 0 <= i < |t| ==> t[i] !in seps
    ensures Without(t, seps) == t
  {
    if |t| > 0 {
      WithoutNoSeparators(t[1..], seps);
    }
  }

  /** The tokens, put back together, are the input with its separators
      dropped: splitting loses nothing but separators. */
  lemma {:induction false} SplitAnyKeepsText(s: string, seps: set<char>)
    ensures Concat(SplitAny(s, seps)) == Without(s, seps)
    decreases |s|
  {
    if |s| == 0 {
    } else if s[0] in seps {
      SplitAnyKeepsText(s[1..], seps);
    } else {
      var n := TokenLength(s, seps);
      SplitAnyKeepsText(s[n..], seps);
      assert s == s[..n] + s[n..];
      WithoutAppend(s[..n], s[n..], seps);
      WithoutNoSeparators(s[..n], seps);
      var r := SplitAny(s, seps);
      assert r == [s[..n]] + SplitAny(s[n..], seps);
      assert r[1..] == SplitAny(s[n..], seps);
    }
  }

  /** The pieces of `s` between the occurrences of `sep`, found left to right. */
  function RawSplit(s: string, sep: string): (r: seq<string>)
    requires |sep| > 0
    ensures |r| >= 1
    decreases |s|
  {
    var i := IndexOf(s, sep);
    if i == -1 then [s] else [s[..i]] + RawSplit(s[i + |sep|..], sep)
  }

  /** No piece contains the separator. */
  lemma {:induction false} RawSplitPieces(s: string, sep: string)
    requires |sep| > 0
    ensures forall p :: p in RawSplit(s, sep) ==> IndexOf(p, sep) == -1
    decreases |s|
  {
    var i := IndexOf(s, sep);
    if i != -1 {
      var r, tail := RawSplit(s, sep), RawSplit(s[i + |sep|..], sep);
      assert IndexOf(s[..i], sep) == -1 by {
        IndexOfFirst(s, sep);
        NoOccurrenceBefore(s, sep, i);
      }
      RawSplitPieces(s[i + |sep|..], sep);
      RawSplitStep(s, sep);
      forall j | 0 <= j < |r| ensures IndexOf(r[j], sep) == -1 {
        if j > 0 {
          assert r[j] == tail[j - 1];
        }
      }
    }
  }

  /** A prefix that ends before the first occurrence contains no occurrence. */
  lemma NoOccurrenceBefore(s: string, sep: string, i: int)
    requires |sep| > 0 && 0 <= i <= |s|
    requires forall k :: 0 <= k < i ==> !OccursAt(s, sep, k)
    ensures IndexOf(s[..i], sep) == -1
  {
    forall k | 0 <= k ensures !OccursAt(s[..i], sep, k) {
      if k + |sep| <= i {
        assert s[..i][k..k + |sep|] == s[k..k + |sep|];
        assert !OccursAt(s, sep, k);
      }
    }
  }

  function DropTrailingEmpty(r: seq<string>): (d: seq<string>)
    ensures |d| <= |r| && d == r[..|d|]
    ensures d == [] || d[|d| - 1] != []
    ensures forall i :: |d| <= i < |r| ==> r[i] == []
  {
    if |r| > 0 && r[|r| - 1] == [] then DropTrailingEmpty(r[..|r| - 1]) else r
  }

  /** `s.split(sep)` for a separator without regular-expression metacharacters:
      the input itself when `sep` does not occur, otherwise the pieces between
      the occurrences with trailing empty pieces removed. */
  function SplitLiteral(s: string, sep: string): (r: seq<string>)
    requires |sep| > 0
    ensures IndexOf(s, sep) == -1 ==> r == [s]
    ensures forall p :: p in r ==> IndexOf(p, sep) == -1
  {
    if IndexOf(s, sep) == -1 then [s]
    else
      RawSplitPieces(s, sep);
      DropTrailingEmpty(RawSplit(s, sep))
  }

  /** Past the first occurrence, the split goes on with the rest: the
      first piece and then the pieces of the rest. */
  lemma RawSplitStep(s: string, sep: string)
    requires |sep| > 0 && IndexOf(s, sep) != -1
    ensures var i := IndexOf(s, sep);
      var r, tail := RawSplit(s, sep), RawSplit(s[i + |sep|..], sep);
      r[0] == s[..i] && r[1..] == tail && r[|r| - 1] == tail[|tail| - 1]
  {
    var i := IndexOf(s, sep);
    var r, tail := RawSplit(s, sep), RawSplit(s[i + |sep|..], sep);
    assert r == [s[..i]] + tail;
  }

  /** Joining the pieces back with the separator restores the input. */
  lemma {:induction false} RawSplitJoin(s: string, sep: string)
    requires |sep| > 0
    ensures Join(RawSplit(s, sep), sep) == s
    decreases |s|
  {
    var i := IndexOf(s, sep);
    if i != -1 {
      var rest := s[i + |sep|..];
      RawSplitStep(s, sep);
      RawSplitJoin(rest, sep);
      assert s == s[..i] + s[i..i + |sep|] + rest;
    }
  }

  predicate EndsWith(s: string, suffix: string)
  {
    |suffix| <= |s| && s[|s| - |suffix|..] == suffix
  }

  /** The last piece of a split is empty only when the text ends with the
      separator. */
  lemma RawSplitLastEmpty(s: string, sep: string)
    requires |sep| > 0 && IndexOf(s, sep) != -1
    requires RawSplit(s, sep)[|RawSplit(s, sep)| - 1] == []
    ensures EndsWith(s, sep)
  {
    var r := RawSplit(s, sep);
    assert |r| >= 2 by {
      RawSplitStep(s, sep);
    }
    RawSplitJoin(s, sep);
    JoinEndsWithSeparator(r, sep);
  }

  /** Two or more items, the last one empty, join to text ending with the
      separator. */
  lemma {:induction false} JoinEndsWithSeparator(items: seq<string>, sep: string)
    requires |items| >= 2 && items[|items| - 1] == []
    ensures EndsWith(Join(items, sep), sep)
  {
    var front := items[0] + sep;
    if |items| == 2 {
      assert Join(items, sep) == front + Join(items[1..], sep) && Join(items[1..], sep) == [];
      assert Join(items, sep) == front;
    } else {
      var rest := Join(items[1..], sep);
      JoinEndsWithSeparator(items[1..], sep);
      assert (front + rest)[|front + rest| - |sep|..] == rest[|rest| - |sep|..];
    }
  }

  /** Splitting text that does not end with the separator loses nothing:
      the pieces joined back with the separator give the text again. */
  lemma SplitLiteralJoin(s: string, sep: string)
    requires |sep| > 0 && !EndsWith(s, sep)
    ensures Join(SplitLiteral(s, sep), sep) == s
  {
    if IndexOf(s, sep) != -1 {
      var r := RawSplit(s, sep);
      if r[|r| - 1] == [] {
        RawSplitLastEmpty(s, sep);
      }
      assert DropTrailingEmpty(r) == r;
      RawSplitJoin(s, sep);
    }
  }

  /** Java `int` arithmetic: wrap an integer into [-2^31, 2^31). */
  function Int32(x: int): (r: int)
    ensures -0x8000_0000 <= r < 0x8000_0000
    ensures (r - x) % 0x1_0000_0000 == 0
  {
    var m := x % 0x1_0000_0000;
    if m >= 0x8000_0000 then m - 0x1_0000_0000 else m
  }

  /** `s.hashCode()`: h = 31 * h + c over the characters, in `int` arithmetic. */
  function HashCode(s: string): int
  {
    if |s| == 0 then 0 else Int32(31 * HashCode(s[..|s| - 1]) + s[|s| - 1] as int)
  }
}
