/** Sequence counterparts of the numpy operations the fetch module applies to
    its columns: boolean masks, boolean-mask indexing, integer-array indexing,
    Python slicing and `searchsorted`. */
module Columns {

  /** Number of true entries of a mask. */
  function Count(m: seq<bool>): (n: nat)
    ensures n <= |m|
  {
    if |m| == 0 then 0 else Count(m[..|m| - 1]) + (if m[|m| - 1] then 1 else 0)
  }

  /** numpy.any */
  predicate Any(m: seq<bool>) {
    exists i :: 0 <= i < |m| && m[i]
  }

  /** numpy.all */
  predicate All(m: seq<bool>) {
    forall i :: 0 <= i < |m| ==> m[i]
  }

  /** Element-wise `~m`. */
  function Not(m: seq<bool>): (r: seq<bool>)
    ensures |r| == |m|
    ensures forall i :: 0 <= i < |m| ==> r[i] == !m[i]
  {
    seq(|m|, i requires 0 <= i < |m| => !m[i])
  }

  /** Element-wise `a | b` of two masks of one length. */
  function Or(a: seq<bool>, b: seq<bool>): (r: seq<bool>)
    requires |a| == |b|
    ensures |r| == |a|
    ensures forall i :: 0 <= i < |a| ==> r[i] == (a[i] || b[i])
  {
    seq(|a|, i requires 0 <= i < |a| => a[i] || b[i])
  }

  /** numpy.flatnonzero: the indices of the true entries, in increasing order,
      each exactly once. */
  function Flatnonzero(m: seq<bool>): (r: seq<nat>)
    ensures |r| == Count(m)
    ensures forall k :: 0 <= k < |r| ==> r[k] < |m| && m[r[k]]
  {
    if |m| == 0 then []
    else Flatnonzero(m[..|m| - 1]) + (if m[|m| - 1] then [|m| - 1] else [])
  }

  /** Boolean-mask indexing `s[keep]`: the entries of `s` at the positions where
      `keep` is true, in their original order. */
  function Select<T>(s: seq<T>, keep: seq<bool>): (r: seq<T>)
    requires |s| == |keep|
    ensures |r| == Count(keep)
    ensures forall k :: 0 <= k < |r| ==> r[k] == s[Flatnonzero(keep)[k]]
  {
    Take(s, Flatnonzero(keep))
  }

  /** Integer-array indexing `s[idx]`. */
  function Take<T>(s: seq<T>, idx: seq<nat>): (r: seq<T>)
    requires forall k :: 0 <= k < |idx| ==> idx[k] < |s|
    ensures |r| == |idx|
    ensures forall k :: 0 <= k < |idx| ==> r[k] == s[idx[k]]
  {
    seq(|idx|, k requires 0 <= k < |idx| => s[idx[k]])
  }

  /** How Python turns a slice bound into a position of a sequence of length
      `n`: negative bounds count from the end, and both ends are clamped. */
  function SliceBound(i: int, n: nat): (r: nat)
    ensures r <= n
    ensures 0 <= i <= n ==> r == i
    ensures i > n ==> r == n
    ensures i < 0 ==> r == (if n + i < 0 then 0 else n + i)
  {
    if i < 0 then (if n + i < 0 then 0 else n + i) else if i > n then n else i
  }

  /** Python slicing `s[lo:hi]`; a reversed range gives the empty sequence. */
  function PySlice<T>(s: seq<T>, lo: int, hi: int): (r: seq<T>)
    ensures |r| == (if SliceBound(lo, |s|) < SliceBound(hi, |s|)
                    then SliceBound(hi, |s|) - SliceBound(lo, |s|) else 0)
    ensures forall k :: 0 <= k < |r| ==> r[k] == s[SliceBound(lo, |s|) + k]
  {
    var a, b := SliceBound(lo, |s|), SliceBound(hi, |s|);
    if a < b then s[a..b] else []
  }

  /** Element `k` of a slice that starts inside the sequence. */
  lemma PySliceAt<T>(s: seq<T>, lo: int, hi: int, k: nat)
    requires 0 <= lo <= |s| && k < |PySlice(s, lo, hi)|
    ensures lo + k < |s| && PySlice(s, lo, hi)[k] == s[lo + k]
  {
  }

  /** numpy.searchsorted(a, x, side='left') on a sorted array: the first
      position whose entry is not below `x`. */
  function SearchSortedLeft(a: seq<real>, x: real): (r: nat)
    ensures r <= |a|
  {
    if |a| == 0 || a[0] >= x then 0 else 1 + SearchSortedLeft(a[1..], x)
  }

  /** Every entry before the searchsorted position is below `x`, and the
      entry at it, if any, is not. */
  lemma {:induction false} SearchSortedLeftBounds(a: seq<real>, x: real)
    ensures forall j :: 0 <= j < SearchSortedLeft(a, x) ==> a[j] < x
    ensures SearchSortedLeft(a, x) < |a| ==> a[SearchSortedLeft(a, x)] >= x
  {
    if |a| > 0 && a[0] < x {
      SearchSortedLeftBounds(a[1..], x);
      forall j | 0 < j < SearchSortedLeft(a, x)
        ensures a[j] < x
      {
        assert a[j] == a[1..][j - 1];
      }
    }
  }

  /** Non-decreasing order. */
  predicate Sorted(a: seq<real>) {
    forall i, j :: 0 <= i < j < |a| ==> a[i] <= a[j]
  }

  /** Strictly increasing order. */
  predicate Increasing(a: seq<real>) {
    forall i, j :: 0 <= i < j < |a| ==> a[i] < a[j]
  }

  /** No entry occurs twice. */
  ghost predicate Distinct<T>(s: seq<T>) {
    forall i, j :: 0 <= i < j < |s| ==> s[i] != s[j]
  }

  // ---------------------------------------------------------------------
  // Facts about counting and flatnonzero
  // ---------------------------------------------------------------------

  /** Every true entry is reported. */
  lemma {:induction false} FlatnonzeroComplete(m: seq<bool>, i: nat)
    requires i < |m| && m[i]
    ensures i in Flatnonzero(m)
  {
    var n := |m| - 1;
    assert Flatnonzero(m) == Flatnonzero(m[..n]) + (if m[n] then [n] else []);
    if i < n {
      FlatnonzeroComplete(m[..n], i);
    }
  }

  /** Counting a prefix one entry longer adds that entry. */
  lemma CountStep(m: seq<bool>, j: nat)
    requires j < |m|
    ensures Count(m[..j + 1]) == Count(m[..j]) + (if m[j] then 1 else 0)
  {
    assert m[..j + 1][..j] == m[..j];
  }

  /** Counting is monotone in the prefix length. */
  lemma {:induction false} CountMonotone(m: seq<bool>, a: nat, b: nat)
    requires a <= b <= |m|
    ensures Count(m[..a]) <= Count(m[..b])
    decreases b - a
  {
    if a < b {
      CountStep(m, b - 1);
      CountMonotone(m, a, b - 1);
    }
  }

  /** Count is additive over concatenation. */
  lemma {:induction false} CountAppend(a: seq<bool>, b: seq<bool>)
    ensures Count(a + b) == Count(a) + Count(b)
    decreases |b|
  {
    if |b| > 0 {
      var b' := b[..|b| - 1];
      assert (a + b)[..|a + b| - 1] == a + b';
      CountAppend(a, b');
    } else {
      assert a + b == a;
    }
  }

  /** Counting over a stretch of false entries adds nothing. */
  lemma {:induction false} CountNoneBetween(m: seq<bool>, a: nat, b: nat)
    requires a <= b <= |m|
    requires forall j :: a <= j < b ==> !m[j]
    ensures Count(m[..b]) == Count(m[..a])
    decreases b - a
  {
    if a < b {
      CountStep(m, b - 1);
      CountNoneBetween(m, a, b - 1);
    }
  }

  /** The whole sequence is its own longest prefix. */
  lemma CountFull(m: seq<bool>)
    ensures Count(m[..|m|]) == Count(m)
  {
    assert m[..|m|] == m;
  }

  /** The k-th index reported by flatnonzero has exactly k true entries before it. */
  lemma {:induction false} FlatnonzeroRank(m: seq<bool>, k: nat)
    requires k < |Flatnonzero(m)|
    ensures Count(m[..Flatnonzero(m)[k]]) == k
    decreases |m|
  {
    var n := |m| - 1;
    var f := Flatnonzero(m[..n]);
    assert Flatnonzero(m) == f + (if m[n] then [n] else []);
    if k < |f| {
      FlatnonzeroRank(m[..n], k);
      assert m[..n][..f[k]] == m[..f[k]];
    } else {
      assert Flatnonzero(m)[k] == n;
      assert |f| == Count(m[..n]);
    }
  }

  /** Up to and including the k-th reported index, exactly k + 1 entries are
      true. */
  lemma FlatnonzeroRankNext(m: seq<bool>, k: nat)
    requires k < |Flatnonzero(m)|
    ensures Flatnonzero(m)[k] < |m| && Count(m[..Flatnonzero(m)[k] + 1]) == k + 1
  {
    FlatnonzeroRank(m, k);
    CountStep(m, Flatnonzero(m)[k]);
  }

  /** Strictly after the a-th true entry of `x` and no later than the b-th
      true entry of `y`, at least a + 1 entries of `x` and at most b entries of
      `y` lie before position j. */
  lemma CountsBetween(x: seq<bool>, y: seq<bool>, a: nat, b: nat, j: nat)
    requires a < |Flatnonzero(x)| && b < |Flatnonzero(y)| && j <= |x|
    requires Flatnonzero(x)[a] < j <= Flatnonzero(y)[b]
    ensures Count(x[..j]) >= a + 1 && Count(y[..j]) <= b
  {
    FlatnonzeroRankNext(x, a);
    CountMonotone(x, Flatnonzero(x)[a] + 1, j);
    FlatnonzeroRank(y, b);
    CountMonotone(y, j, Flatnonzero(y)[b]);
  }

  /** If at most c entries are true before position i, the c-th reported
      index is at or after i. */
  lemma FlatnonzeroAtLeast(m: seq<bool>, c: nat, i: nat)
    requires c < |Flatnonzero(m)| && i <= |m|
    requires Count(m[..i]) <= c
    ensures Flatnonzero(m)[c] >= i
  {
    var f := Flatnonzero(m)[c];
    if f < i {
      FlatnonzeroRankNext(m, c);
      CountMonotone(m, f + 1, i);
    }
  }

  /** From a position with at least c true entries before it up to the c-th
      reported index, every entry is false. */
  lemma NoneBetween(m: seq<bool>, c: nat, i: nat, j: nat)
    requires c < |Flatnonzero(m)| && i <= j < Flatnonzero(m)[c]
    requires Count(m[..i]) >= c
    ensures !m[j]
  {
    var f := Flatnonzero(m)[c];
    CountMonotone(m, i, j);
    FlatnonzeroRank(m, c);
    CountMonotone(m, j, f);
    assert Count(m[..j]) == c;
    if m[j] {
      FlatnonzeroAt(m, j);
    }
  }

  /** If at most c entries are true up to and including position i, the c-th
      reported index lies after i. */
  lemma FlatnonzeroAfter(m: seq<bool>, c: nat, i: nat)
    requires c < |Flatnonzero(m)| && i < |m|
    requires Count(m[..i + 1]) <= c
    ensures Flatnonzero(m)[c] > i
  {
    var f := Flatnonzero(m)[c];
    if f <= i {
      FlatnonzeroRank(m, c);
      CountStep(m, f);
      CountMonotone(m, f + 1, i + 1);
    }
  }

  /** If more than c entries are true before position i, the c-th reported
      index lies before i. */
  lemma FlatnonzeroBefore(m: seq<bool>, c: nat, i: nat)
    requires c < |Flatnonzero(m)| && i <= |m|
    requires Count(m[..i]) > c
    ensures Flatnonzero(m)[c] < i
  {
    var f := Flatnonzero(m)[c];
    if f >= i {
      FlatnonzeroRank(m, c);
      CountMonotone(m, i, f);
    }
  }

  /** No true entry lies strictly between two consecutive reported indices. */
  lemma FlatnonzeroGap(m: seq<bool>, k: nat, j: nat)
    requires k + 1 < |Flatnonzero(m)|
    requires Flatnonzero(m)[k] < j < Flatnonzero(m)[k + 1]
    ensures !m[j]
  {
    if m[j] {
      CountsBetween(m, m, k, k + 1, j);
      FlatnonzeroAt(m, j);
    }
  }

  /** Appending one flag to a mask appends its position to `flatnonzero`
      when the flag is set, and nothing otherwise. */
  lemma FlatnonzeroSnoc(m: seq<bool>, b: bool)
    ensures Flatnonzero(m + [b]) == Flatnonzero(m) + (if b then [|m|] else [])
  {
    assert (m + [b])[..|m|] == m;
  }

  /** `idx` lists, in increasing order, exactly the positions where `m` is
      true. */
  ghost predicate TruePositions(m: seq<bool>, idx: seq<nat>) {
    && (forall k :: 0 <= k < |idx| ==> idx[k] < |m| && m[idx[k]])
    && (forall k, l :: 0 <= k < l < |idx| ==> idx[k] < idx[l])
    && (forall i :: 0 <= i < |m| && m[i] ==> i in idx)
  }

  /** In a strictly increasing list, every earlier entry is below the last. */
  lemma IncreasingBelowLast(idx: seq<nat>, j: nat)
    requires forall k, l :: 0 <= k < l < |idx| ==> idx[k] < idx[l]
    requires j < |idx|
    ensures j < |idx| - 1 ==> idx[j] < idx[|idx| - 1]
  {
  }

  /** Dropping a final true sample drops the last position. */
  lemma TruePositionsDropTrue(m: seq<bool>, idx: seq<nat>)
    requires TruePositions(m, idx) && |m| > 0 && m[|m| - 1]
    ensures |idx| > 0 && idx[|idx| - 1] == |m| - 1
    ensures TruePositions(m[..|m| - 1], idx[..|idx| - 1])
  {
    var n, last := |m| - 1, |idx| - 1;
    assert n in idx;
    var j :| 0 <= j < |idx| && idx[j] == n;
    // No position exceeds the last sample, and the last listed is the largest.
    assert idx[last] < |m|;
    IncreasingBelowLast(idx, j);
    assert j == last;
    var front, rest := m[..n], idx[..last];
    forall i | 0 <= i < |front| && front[i]
      ensures i in rest
    {
      var h :| 0 <= h < |idx| && idx[h] == i;
      assert rest[h] == i;
    }
  }

  /** Dropping a final false sample keeps the positions. */
  lemma TruePositionsDropFalse(m: seq<bool>, idx: seq<nat>)
    requires TruePositions(m, idx) && |m| > 0 && !m[|m| - 1]
    ensures TruePositions(m[..|m| - 1], idx)
  {
    forall k | 0 <= k < |idx|
      ensures idx[k] < |m| - 1
    {
      assert m[idx[k]];
    }
  }

  /** `flatnonzero` is the increasing list of exactly the true positions. */
  lemma {:induction false} FlatnonzeroExact(m: seq<bool>, idx: seq<nat>)
    requires TruePositions(m, idx)
    ensures Flatnonzero(m) == idx
    decreases |m|
  {
    if |m| == 0 {
      if |idx| > 0 {
        assert false;
      }
    } else {
      var n := |m| - 1;
      assert Flatnonzero(m) == Flatnonzero(m[..n]) + (if m[n] then [n] else []);
      if m[n] {
        TruePositionsDropTrue(m, idx);
        FlatnonzeroExact(m[..n], idx[..|idx| - 1]);
        assert idx == idx[..|idx| - 1] + [n];
      } else {
        TruePositionsDropFalse(m, idx);
        FlatnonzeroExact(m[..n], idx);
      }
    }
  }

  /** The reported indices are strictly increasing. */
  lemma FlatnonzeroIncreasing(m: seq<bool>, k: nat, l: nat)
    requires k < l < |Flatnonzero(m)|
    ensures Flatnonzero(m)[k] < Flatnonzero(m)[l]
  {
    var f := Flatnonzero(m);
    FlatnonzeroRank(m, k);
    FlatnonzeroRank(m, l);
    if f[l] <= f[k] {
      CountMonotone(m, f[l], f[k]);
    }
  }

  /** A true entry at position i is the reported index whose rank is the
      number of true entries before i. */
  lemma FlatnonzeroAt(m: seq<bool>, i: nat)
    requires i < |m| && m[i]
    ensures Count(m[..i]) < |Flatnonzero(m)| && Flatnonzero(m)[Count(m[..i])] == i
  {
    var f := Flatnonzero(m);
    FlatnonzeroComplete(m, i);
    var l :| 0 <= l < |f| && f[l] == i;
    FlatnonzeroRank(m, l);
  }

  /** The head of a sequence without repeats does not recur in its tail,
      which has no repeats either. */
  lemma DistinctTail<T>(s: seq<T>)
    requires Distinct(s) && |s| > 0
    ensures Distinct(s[1..]) && s[0] !in s[1..]
  {
    var rest := s[1..];
    forall i, j | 0 <= i < j < |rest|
      ensures rest[i] != rest[j]
    {
      assert rest[i] == s[i + 1] && rest[j] == s[j + 1];
    }
    forall k | 0 <= k < |rest|
      ensures rest[k] != s[0]
    {
      assert rest[k] == s[k + 1];
    }
  }

  /** Growing a prefix by one element adds exactly that element. */
  lemma PrefixMember<T>(s: seq<T>, i: nat)
    requires i < |s|
    ensures s[..i + 1] == s[..i] + [s[i]]
    ensures forall x :: x in s[..i + 1] <==> x in s[..i] || x == s[i]
  {
    assert s[..i + 1] == s[..i] + [s[i]];
  }

  // ---------------------------------------------------------------------
  // Facts about boolean-mask indexing
  // ---------------------------------------------------------------------

  /** An element survives a mask exactly when it stood at a kept position. */
  lemma SelectMember<T>(s: seq<T>, keep: seq<bool>, x: T)
    requires |s| == |keep|
    ensures x in Select(s, keep) <==> exists i :: 0 <= i < |s| && keep[i] && s[i] == x
  {
    var r, f := Select(s, keep), Flatnonzero(keep);
    if x in r {
      var k :| 0 <= k < |r| && r[k] == x;
      assert keep[f[k]] && s[f[k]] == x;
    }
    if exists i :: 0 <= i < |s| && keep[i] && s[i] == x {
      var i :| 0 <= i < |s| && keep[i] && s[i] == x;
      FlatnonzeroComplete(keep, i);
      var k :| 0 <= k < |f| && f[k] == i;
      assert r[k] == x;
    }
  }

  /** A mask that keeps everything is the identity (why the fetch module may skip
      the copy when no sample is bad). */
  lemma SelectAllKept<T>(s: seq<T>, keep: seq<bool>)
    requires |s| == |keep| && All(keep)
    ensures Select(s, keep) == s
  {
    var f := Flatnonzero(keep);
    assert |f| == |s| by {
      CountAllTrue(keep);
    }
    forall j, l | 0 <= j < l < |f|
      ensures f[j] < f[l]
    {
      FlatnonzeroIncreasing(keep, j, l);
    }
    forall k | 0 <= k < |s|
      ensures f[k] == k
    {
      IncreasingIndicesAreIdentity(f, |s|, k);
    }
  }

  /** A mask that is all true counts its whole length. */
  lemma {:induction false} CountAllTrue(m: seq<bool>)
    requires All(m)
    ensures Count(m) == |m|
  {
    if |m| > 0 {
      CountAllTrue(m[..|m| - 1]);
    }
  }

  /** n strictly increasing indices below n are 0, 1, ..., n-1. */
  lemma {:induction false} IncreasingIndicesAreIdentity(f: seq<nat>, n: nat, k: nat)
    requires |f| == n && k < n
    requires forall j :: 0 <= j < n ==> f[j] < n
    requires forall j, l :: 0 <= j < l < n ==> f[j] < f[l]
    ensures f[k] == k
  {
    LowerBound(f, n, k);
    UpperBound(f, n, k);
  }

  lemma {:induction false} LowerBound(f: seq<nat>, n: nat, k: nat)
    requires |f| == n && k < n
    requires forall j, l :: 0 <= j < l < n ==> f[j] < f[l]
    ensures f[k] >= k
  {
    if k > 0 {
      LowerBound(f, n, k - 1);
    }
  }

  lemma {:induction false} UpperBound(f: seq<nat>, n: nat, k: nat)
    requires |f| == n && k < n
    requires forall j :: 0 <= j < n ==> f[j] < n
    requires forall j, l :: 0 <= j < l < n ==> f[j] < f[l]
    ensures f[k] <= k
    decreases n - k
  {
    if k < n - 1 {
      UpperBound(f, n, k + 1);
    }
  }

  /** Masking keeps a sorted column sorted. */
  lemma SelectSorted(s: seq<real>, keep: seq<bool>)
    requires |s| == |keep| && Sorted(s)
    ensures Sorted(Select(s, keep))
  {
    var r, f := Select(s, keep), Flatnonzero(keep);
    forall i, j | 0 <= i < j < |r|
      ensures r[i] <= r[j]
    {
      FlatnonzeroIncreasing(keep, i, j);
    }
  }

  /** On a sorted array, every entry from the searchsorted position on is at
      least the key. */
  lemma SearchSortedLeftSorted(a: seq<real>, x: real)
    requires Sorted(a)
    ensures forall j :: SearchSortedLeft(a, x) <= j < |a| ==> a[j] >= x
  {
    var r := SearchSortedLeft(a, x);
    SearchSortedLeftBounds(a, x);
    forall j | r <= j < |a|
      ensures a[j] >= x
    {
      assert a[r] <= a[j];
    }
  }
}
