/** The store's list commands as functions on sequences: index
    normalisation, LRANGE windows, LINDEX/LSET, LINSERT BEFORE a pivot value,
    LREM, and Python's own slicing, against which the adapter's slice
    translation is compared. */
module ListCommands {
  import opened Wrappers

  /** The sequence read from its last element to its first. */
  function Reverse<T>(s: seq<T>): (r: seq<T>)
    ensures |r| == |s|
  {
    if s == [] then [] else [s[|s| - 1]] + Reverse(s[..|s| - 1])
  }

  lemma {:induction false} ReverseAt<T>(s: seq<T>, i: nat)
    requires i < |s|
    ensures Reverse(s)[i] == s[|s| - 1 - i]
  {
    if i > 0 {
      ReverseAt(s[..|s| - 1], i - 1);
    }
  }

  lemma ReverseConcat<T>(a: seq<T>, b: seq<T>)
    ensures Reverse(a + b) == Reverse(b) + Reverse(a)
  {
    var l, r := Reverse(a + b), Reverse(b) + Reverse(a);
    forall i | 0 <= i < |l| ensures l[i] == r[i] {
      ReverseAt(a + b, i);
      if i < |b| {
        ReverseAt(b, i);
      } else {
        ReverseAt(a, i - |b|);
      }
    }
  }

  /** Reversing twice gives back the original order. */
  lemma ReverseInvolution<T>(s: seq<T>)
    ensures Reverse(Reverse(s)) == s
  {
    forall i | 0 <= i < |s| ensures Reverse(Reverse(s))[i] == s[i] {
      ReverseAt(Reverse(s), i);
      ReverseAt(s, |s| - 1 - i);
    }
  }

  /** A list index as the store reads it: negative indices count from the end. */
  function Normalize(n: nat, index: int): int {
    if index < 0 then n + index else index
  }

  /** The half-open bounds [lo, hi) of the inclusive window [start, stop]
      that LRANGE and ZRANGE read from a list of n elements: negative ends
      count from the end, a start before the head is clamped to 0, a stop
      past the tail to the last element, and an inverted window is empty. */
  function RangeBounds(n: nat, start: int, stop: int): (b: (nat, nat))
    ensures b.0 <= b.1 <= n
  {
    var s := if Normalize(n, start) < 0 then 0 else Normalize(n, start);
    var e := if Normalize(n, stop) >= n then n - 1 else Normalize(n, stop);
    if s > e || s >= n then (0, 0) else (s, e + 1)
  }

  /** LRANGE key start stop. */
  function LRange<T>(s: seq<T>, start: int, stop: int): seq<T> {
    s[RangeBounds(|s|, start, stop).0..RangeBounds(|s|, start, stop).1]
  }

  /** A window with a non-negative start is read from `start` onwards, up to
      and including `stop`, cut at the end of the list. */
  lemma ForwardWindow<T>(s: seq<T>, start: int, stop: int)
    requires 0 <= start <= stop
    ensures start < |s| ==>
              LRange(s, start, stop) == s[start..if stop + 1 < |s| then stop + 1 else |s|]
    ensures start >= |s| ==> LRange(s, start, stop) == []
  {
  }

  /** A window whose both ends are negative reads a suffix-relative slice:
      empty once `stop` points before the head, otherwise clamped at 0. */
  lemma BackwardWindow<T>(s: seq<T>, start: int, stop: int)
    requires start <= stop < 0
    ensures |s| + stop < 0 ==> LRange(s, start, stop) == []
    ensures |s| + stop >= 0 ==>
              LRange(s, start, stop) == s[if |s| + start < 0 then 0 else |s| + start..|s| + stop + 1]
  {
  }

  /** A window that returns anything starts before the end of the list. */
  lemma NonEmptyWindowStart<T>(s: seq<T>, start: int, stop: int)
    requires LRange(s, start, stop) != []
    ensures start < |s|
  {
  }

  /** LINDEX key index: the element, or nothing when out of range. */
  function LIndex<T>(s: seq<T>, index: int): (r: Option<T>)
    ensures r.Some? <==> -|s| <= index < |s|
    ensures r.Some? ==> r.value == s[Normalize(|s|, index)]
  {
    var j := Normalize(|s|, index);
    if 0 <= j < |s| then Some(s[j]) else None
  }

  /** LSET key index value: the list with one position overwritten, or
      nothing when the index is out of range. */
  function LSet<T>(s: seq<T>, index: int, v: T): (r: Option<seq<T>>)
    ensures r.Some? <==> -|s| <= index < |s|
    ensures r.Some? ==> r.value == s[Normalize(|s|, index) := v]
  {
    var j := Normalize(|s|, index);
    if 0 <= j < |s| then Some(s[j := v]) else None
  }

  /** The position of the first occurrence of x. */
  function FirstIndex<T(==)>(s: seq<T>, x: T): (r: Option<nat>)
    ensures r.None? <==> x !in s
    ensures r.Some? ==> r.value < |s| && s[r.value] == x && x !in s[..r.value]
  {
    if s == [] then None
    else if s[0] == x then Some(0)
    else match FirstIndex(s[1..], x)
      case None => None
      case Some(i) =>
        assert s[..i + 1] == [s[0]] + s[1..][..i];
        Some(i + 1)
  }

  /** LINSERT key BEFORE pivot v: v goes right before the first occurrence
      of the pivot; nothing when the pivot is absent. */
  function LInsertBefore<T(==)>(s: seq<T>, pivot: T, v: T): (r: Option<seq<T>>)
    ensures r.None? <==> pivot !in s
  {
    match FirstIndex(s, pivot)
    case None => None
    case Some(k) => Some(s[..k] + [v] + s[k..])
  }

  /** LREM key 0 x: every occurrence of x removed. */
  function RemoveAll<T(==,!new)>(s: seq<T>, x: T): (r: seq<T>)
    ensures x !in r
  {
    if s == [] then []
    else if s[0] == x then RemoveAll(s[1..], x) else [s[0]] + RemoveAll(s[1..], x)
  }

  /** Removing every x leaves no copy of x and every other value's count
      as it was. */
  lemma {:induction false} RemoveAllCounts<T(!new)>(s: seq<T>, x: T)
    ensures multiset(RemoveAll(s, x))[x] == 0
    ensures forall y :: y != x ==> multiset(RemoveAll(s, x))[y] == multiset(s)[y]
  {
    if s != [] {
      assert s == [s[0]] + s[1..];
      RemoveAllCounts(s[1..], x);
    }
  }

  lemma {:induction false} RemoveAllConcat<T(!new)>(a: seq<T>, b: seq<T>, x: T)
    ensures RemoveAll(a + b, x) == RemoveAll(a, x) + RemoveAll(b, x)
  {
    if a != [] {
      assert (a + b)[1..] == a[1..] + b;
      RemoveAllConcat(a[1..], b, x);
    } else {
      assert a + b == b;
    }
  }

  lemma {:induction false} RemoveAllAbsent<T(!new)>(s: seq<T>, x: T)
    requires x !in s
    ensures RemoveAll(s, x) == s
  {
    if s != [] {
      RemoveAllAbsent(s[1..], x);
    }
  }

  /** The first k occurrences of x removed, scanning from the head. */
  function RemoveFirst<T(==)>(s: seq<T>, x: T, k: nat): (r: seq<T>)
  {
    if s == [] || k == 0 then s
    else if s[0] == x then RemoveFirst(s[1..], x, k - 1)
    else [s[0]] + RemoveFirst(s[1..], x, k)
  }

  /** Removing the first k occurrences removes min(k, occurrences) copies of
      x and leaves every other value's count alone. */
  lemma RemoveFirstCounts<T(!new)>(s: seq<T>, x: T, k: nat)
    ensures multiset(RemoveFirst(s, x, k))[x] ==
              if multiset(s)[x] <= k then 0 else multiset(s)[x] - k
    ensures forall y :: y != x ==> multiset(RemoveFirst(s, x, k))[y] == multiset(s)[y]
  {
    RemoveFirstCount(s, x, k, x);
    forall y | y != x ensures multiset(RemoveFirst(s, x, k))[y] == multiset(s)[y] {
      RemoveFirstCount(s, x, k, y);
    }
  }

  /** The count of one value y after removing the first k occurrences of x. */
  lemma {:induction false} RemoveFirstCount<T(!new)>(s: seq<T>, x: T, k: nat, y: T)
    ensures multiset(RemoveFirst(s, x, k))[y] ==
              if y != x then multiset(s)[y]
              else if multiset(s)[x] <= k then 0 else multiset(s)[x] - k
  {
    if s != [] && k != 0 {
      var t := s[1..];
      assert multiset(s) == multiset{s[0]} + multiset(t) by {
        assert s == [s[0]] + t;
      }
      if s[0] == x {
        RemoveFirstCount(t, x, k - 1, y);
      } else {
        RemoveFirstCount(t, x, k, y);
        assert multiset(RemoveFirst(s, x, k)) == multiset{s[0]} + multiset(RemoveFirst(t, x, k));
      }
    }
  }

  /** LREM key count x: count = 0 removes all occurrences, count > 0 the
      first count ones from the head, count < 0 the first -count ones from
      the tail. */
  function LRem<T(==,!new)>(s: seq<T>, count: int, x: T): seq<T> {
    if count == 0 then RemoveAll(s, x)
    else if count > 0 then RemoveFirst(s, x, count)
    else Reverse(RemoveFirst(Reverse(s), x, -count))
  }

  /** Python's clamp of a slice bound to [0, n]. */
  function PyBound(n: nat, i: int): nat {
    if i < 0 then (if n + i < 0 then 0 else n + i) else if i > n then n else i
  }

  /** Python's `s[start:stop]` with step 1 (a missing bound is None). */
  function PySlice<T>(s: seq<T>, start: Option<int>, stop: Option<int>): seq<T> {
    var a := if start.None? then 0 else PyBound(|s|, start.value);
    var b := if stop.None? then |s| else PyBound(|s|, stop.value);
    if a < b then s[a..b] else []
  }

  /** The adapters' slice translation as written: a falsy start (None or 0)
      reads from 0, and a falsy stop (None or 0) becomes the inclusive stop
      -1, which the store reads as "up to the last element". */
  function SliceAsWritten<T>(s: seq<T>, start: Option<int>, stop: Option<int>): seq<T> {
    var first := if start.None? || start.value == 0 then 0 else start.value;
    var last := if stop.None? || stop.value == 0 then -1 else stop.value - 1;
    LRange(s, first, last)
  }

  /** The translation agrees with Python slicing whenever the stop is not 0. */
  lemma SliceAsWrittenAgrees<T>(s: seq<T>, start: Option<int>, stop: Option<int>)
    requires stop != Some(0)
    ensures SliceAsWritten(s, start, stop) == PySlice(s, start, stop)
  {
  }

  /** An explicit stop of 0 makes every Python slice empty. */
  lemma PySliceZeroStop<T>(s: seq<T>, start: Option<int>)
    ensures PySlice(s, start, Some(0)) == []
  {
  }

  /** ... but `s[0:0]` (and any `s[a:0]`) reads the whole tail instead of
      nothing: on a one-element list, `l[0:0]` returns that element. */
  lemma SliceAsWrittenZeroStop(x: string)
    ensures SliceAsWritten([x], None, Some(0)) == [x]
    ensures PySlice([x], None, Some(0)) == []
  {
  }

  /** The corrected translation: an explicit stop of 0 is an empty slice. */
  function Slice<T>(s: seq<T>, start: Option<int>, stop: Option<int>): (r: seq<T>)
    ensures r == PySlice(s, start, stop)
  {
    if stop == Some(0) then []
    else
      SliceAsWrittenAgrees(s, start, stop);
      SliceAsWritten(s, start, stop)
  }

  /** The index-addressed insert built from a sentinel: overwrite position j
      with u, insert v and then the old occupant before u, remove every u.
      When u is fresh (in neither the list nor v) the result is v at j and
      the rest shifted one place right. */
  lemma SentinelInsert(s: seq<string>, j: nat, v: string, u: string)
    requires j < |s| && u !in s && u != v
    ensures LInsertBefore(s[j := u], u, v) == Some(s[..j] + [v, u] + s[j + 1..])
    ensures LInsertBefore(s[..j] + [v, u] + s[j + 1..], u, s[j]) ==
              Some(s[..j] + [v, s[j], u] + s[j + 1..])
    ensures RemoveAll(s[..j] + [v, s[j], u] + s[j + 1..], u) == s[..j] + [v] + s[j..]
  {
    FreshAroundIndex(s, j, u);
    SentinelFirstInsert(s, j, v, u);
    SentinelSecondInsert(s, j, v, u);
    SentinelRemoval(s, j, v, u);
  }

  lemma FreshAroundIndex(s: seq<string>, j: nat, u: string)
    requires j < |s| && u !in s
    ensures u !in s[..j] && u !in s[j + 1..] && s[j] != u
  {
    assert forall y :: y in s[..j] ==> y in s;
    assert forall y :: y in s[j + 1..] ==> y in s;
  }

  lemma SentinelFirstInsert(s: seq<string>, j: nat, v: string, u: string)
    requires j < |s| && u !in s[..j]
    ensures LInsertBefore(s[j := u], u, v) == Some(s[..j] + [v, u] + s[j + 1..])
  {
    var s1 := s[j := u];
    assert s1 == s[..j] + ([u] + s[j + 1..]);
    FirstAfterFreshPrefix(s[..j], [u] + s[j + 1..], u);
    assert s1[..j] == s[..j] && s1[j..] == [u] + s[j + 1..];
    assert s1[..j] + [v] + s1[j..] == s[..j] + [v, u] + s[j + 1..];
  }

  lemma SentinelSecondInsert(s: seq<string>, j: nat, v: string, u: string)
    requires j < |s| && u !in s[..j] && u != v
    ensures LInsertBefore(s[..j] + [v, u] + s[j + 1..], u, s[j]) ==
              Some(s[..j] + [v, s[j], u] + s[j + 1..])
  {
    var s2 := s[..j] + [v, u] + s[j + 1..];
    assert s2 == (s[..j] + [v]) + ([u] + s[j + 1..]);
    assert u !in s[..j] + [v];
    FirstAfterFreshPrefix(s[..j] + [v], [u] + s[j + 1..], u);
    assert s2[..j + 1] == s[..j] + [v] && s2[j + 1..] == [u] + s[j + 1..];
    assert s2[..j + 1] + [s[j]] + s2[j + 1..] == s[..j] + [v, s[j], u] + s[j + 1..];
  }

  lemma SentinelRemoval(s: seq<string>, j: nat, v: string, u: string)
    requires j < |s| && u !in s[..j] && u !in s[j + 1..] && s[j] != u && u != v
    ensures RemoveAll(s[..j] + [v, s[j], u] + s[j + 1..], u) == s[..j] + [v] + s[j..]
  {
    var front, back := s[..j] + [v, s[j]], s[j + 1..];
    assert s[..j] + [v, s[j], u] + s[j + 1..] == front + [u] + back;
    assert u !in front;
    RemoveFresh(front, u, back);
    assert s[..j] + [v] + s[j..] == front + back;
  }

  /** Removing every copy of a value that occurs once drops just that
      copy. */
  lemma RemoveFresh<T(!new)>(a: seq<T>, u: T, b: seq<T>)
    requires u !in a && u !in b
    ensures RemoveAll(a + [u] + b, u) == a + b
  {
    RemoveAllConcat(a + [u], b, u);
    RemoveAllConcat(a, [u], u);
    RemoveAllAbsent(a, u);
    RemoveAllAbsent(b, u);
    assert RemoveAll([u], u) == RemoveAll([u][1..], u) == [];
    assert RemoveAll(a + [u], u) == a;
  }

  /** The index-addressed delete built from a sentinel: overwrite position j
      with a fresh u and remove every u. */
  lemma SentinelDelete(s: seq<string>, j: nat, u: string)
    requires j < |s| && u !in s
    ensures RemoveAll(s[j := u], u) == s[..j] + s[j + 1..]
  {
    var a, b := s[..j], s[j + 1..];
    assert s[j := u] == a + [u] + b;
    assert u !in a && u !in b by {
      assert s == a + [s[j]] + b;
    }
    RemoveFresh(a, u, b);
  }

  lemma FirstAfterFreshPrefix<T>(a: seq<T>, b: seq<T>, x: T)
    requires x !in a && b != [] && b[0] == x
    ensures FirstIndex(a + b, x) == Some(|a|)
  {
    assert (a + b)[|a|] == x;
    assert (a + b)[..|a|] == a;
  }
}
