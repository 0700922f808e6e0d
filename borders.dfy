/** Specification of the notions the KMP matcher is built on: alignments,
    occurrences, borders of a pattern prefix and the failure ("next") table,
    together with the facts about borders that the forward scan relies on. */
module Borders {

  /** Pattern element `t` equals subject element `k + t`. */
  ghost predicate SameAt<T>(s: seq<T>, p: seq<T>, k: int, t: int)
  {
    0 <= t < |p| && 0 <= k + t < |s| && s[k + t] == p[t]
  }

  /** The first `len` elements of `p` appear in `s` starting at index `k`. */
  ghost predicate MatchesAt<T>(s: seq<T>, p: seq<T>, k: int, len: int)
  {
    0 <= k && 0 <= len <= |p| && k + len <= |s| &&
    forall t :: 0 <= t < len ==> SameAt(s, p, k, t)
  }

  /** The whole pattern `p` occurs in `s` at index `k`. */
  ghost predicate Occurs<T>(s: seq<T>, p: seq<T>, k: int)
  {
    MatchesAt(s, p, k, |p|)
  }

  /** `r` is what a forward search from `from` must answer: the least
      occurrence at or after `from`, or -1 when there is none. */
  ghost predicate IsFirstOccurrence<T>(s: seq<T>, p: seq<T>, from: int, r: int)
  {
    if r == -1 then
      forall k :: from <= k ==> !Occurs(s, p, k)
    else
      from <= r && Occurs(s, p, r) && forall k :: from <= k < r ==> !Occurs(s, p, k)
  }

  /** `r` is what a backward search with ceiling `upto` must answer: the greatest
      occurrence at or before `upto`, or -1 when there is none. */
  ghost predicate IsLastOccurrence<T>(s: seq<T>, p: seq<T>, upto: int, r: int)
  {
    if r == -1 then
      forall k :: k <= upto ==> !Occurs(s, p, k)
    else
      r <= upto && Occurs(s, p, r) && forall k :: r < k <= upto ==> !Occurs(s, p, k)
  }

  /** `b` is the length of a proper border of `p[..k]`: its first `b` elements
      equal its last `b` elements, and `b < k`. */
  ghost predicate IsBorder<T>(p: seq<T>, k: int, b: int)
  {
    0 <= b < k <= |p| && MatchesAt(p, p, k - b, b)
  }

  /** `b` is the length of the longest proper border of `p[..k]`. */
  ghost predicate IsLongestBorder<T>(p: seq<T>, k: int, b: int)
  {
    IsBorder(p, k, b) && forall d :: b < d < k ==> !IsBorder(p, k, d)
  }

  /** `f` is the failure table of the non-empty pattern `p`: `f[0]` is the
      sentinel -1 and every later `f[k]` is the length of the longest proper
      border of `p[..k]`. */
  ghost predicate IsFailureTable<T>(p: seq<T>, f: seq<int>)
  {
    |f| == |p| >= 1 && f[0] == -1 &&
    forall k :: 1 <= k < |p| ==> IsLongestBorder(p, k, f[k])
  }

  /** The longest proper border of `p[..k]` that is at most `c`. */
  ghost function LongestBorderUpTo<T>(p: seq<T>, k: int, c: int): (b: int)
    requires 1 <= k <= |p| && 0 <= c < k
    ensures 0 <= b <= c && IsBorder(p, k, b)
    ensures forall d :: b < d <= c ==> !IsBorder(p, k, d)
    decreases c
  {
    if c == 0 || IsBorder(p, k, c) then c else LongestBorderUpTo(p, k, c - 1)
  }

  /** The length of the longest proper border of `p[..k]`, found by trying
      every length from `k - 1` down. */
  ghost function LongestBorder<T>(p: seq<T>, k: int): (b: int)
    requires 1 <= k <= |p|
    ensures IsLongestBorder(p, k, b)
  {
    LongestBorderUpTo(p, k, k - 1)
  }

  /** The failure table of a non-empty pattern, computed entry by entry
      from the definition of a border. */
  ghost function FailureTable<T>(p: seq<T>): (f: seq<int>)
    requires |p| >= 1
    ensures IsFailureTable(p, f)
    ensures forall k :: 0 <= k < |f| ==> -1 <= f[k] < k
  {
    seq(|p|, k requires 0 <= k < |p| => if k == 0 then -1 else LongestBorder(p, k))
  }

  /** A pattern has exactly one failure table. */
  lemma FailureTableUnique<T>(p: seq<T>, f: seq<int>)
    requires IsFailureTable(p, f)
    ensures f == FailureTable(p)
  {
    var g := FailureTable(p);
    forall k | 1 <= k < |p|
      ensures f[k] == g[k]
    {
      assert IsLongestBorder(p, k, f[k]) && IsLongestBorder(p, k, g[k]);
    }
  }

  /** A partial match followed by one more matching element is one element longer. */
  lemma MatchesAtExtend<T>(s: seq<T>, p: seq<T>, k: int, len: int)
    requires MatchesAt(s, p, k, len) && len < |p| && k + len < |s| && s[k + len] == p[len]
    ensures MatchesAt(s, p, k, len + 1)
  {
  }

  /** Extending a border of `p[..k]` by one matching element gives a border of `p[..k+1]`. */
  lemma {:induction false} BorderExtend<T>(p: seq<T>, k: int, b: int)
    requires IsBorder(p, k, b) && k < |p| && p[b] == p[k]
    ensures IsBorder(p, k + 1, b + 1)
  {
    var off := k - b;
    forall t | 0 <= t < b + 1
      ensures SameAt(p, p, off, t)
    {
      if t < b {
        assert SameAt(p, p, k - b, t);
      }
    }
  }

  /** Conversely, a non-empty border of `p[..k+1]` is a border of `p[..k]`
      followed by one matching element. */
  lemma {:induction false} BorderShrink<T>(p: seq<T>, k: int, c: int)
    requires 1 <= k && 1 <= c && IsBorder(p, k + 1, c)
    ensures IsBorder(p, k, c - 1) && p[c - 1] == p[k]
  {
    assert SameAt(p, p, k + 1 - c, c - 1);
    var off := k + 1 - c;
    forall t | 0 <= t < c - 1
      ensures SameAt(p, p, off, t)
    {
      assert SameAt(p, p, k + 1 - c, t);
    }
  }

  /** A border of a border of `p[..i]` is a border of `p[..i]`. */
  lemma {:induction false} BorderOfBorder<T>(p: seq<T>, i: int, j: int, b: int)
    requires IsBorder(p, i, j) && IsBorder(p, j, b)
    ensures IsBorder(p, i, b)
  {
    var off := i - b;
    forall t | 0 <= t < b
      ensures SameAt(p, p, off, t)
    {
      assert SameAt(p, p, j - b, t);
      assert SameAt(p, p, i - j, j - b + t);
    }
  }

  /** Of two borders of `p[..i]`, the shorter is a border of the longer. */
  lemma {:induction false} ShorterBorderIsBorderOfLonger<T>(p: seq<T>, i: int, j: int, b: int)
    requires IsBorder(p, i, j) && IsBorder(p, i, b) && b < j
    ensures IsBorder(p, j, b)
  {
    var off := j - b;
    forall t | 0 <= t < b
      ensures SameAt(p, p, off, t)
    {
      assert SameAt(p, p, i - j, j - b + t);
      assert SameAt(p, p, i - b, t);
    }
  }

  /** The table builder's step on a match (or from the -1 sentinel): when `j`
      is -1 or a border of `p[..i]` with `p[j] == p[i]`, and no longer border
      of `p[..i]` is followed by `p[i]`, the longest border of `p[..i+1]` is `j + 1`. */
  lemma {:induction false} TableExtendStep<T>(p: seq<T>, i: int, j: int)
    requires 0 <= i < |p| - 1 && -1 <= j < i
    requires j == -1 || (IsBorder(p, i, j) && p[j] == p[i])
    requires forall b {:trigger IsBorder(p, i, b)} :: j < b < i && IsBorder(p, i, b) ==> p[b] != p[i]
    ensures IsLongestBorder(p, i + 1, j + 1)
  {
    if j >= 0 {
      BorderExtend(p, i, j);
    }
    var k := i + 1;
    assert IsBorder(p, k, j + 1);
    forall c | j + 1 < c < k
      ensures !IsBorder(p, k, c)
    {
      if IsBorder(p, k, c) {
        BorderShrink(p, i, c);
      }
    }
  }

  /** The table builder's step on a mismatch: with `j` a border of `p[..i]`,
      `p[j] != p[i]` and `nj` the table entry `next[j]`, retreating to `nj`
      skips no border of `p[..i]` that is followed by `p[i]`. */
  lemma {:induction false} TableRetreatStep<T>(p: seq<T>, i: int, j: int, nj: int)
    requires 0 <= j < i < |p| && IsBorder(p, i, j) && p[j] != p[i]
    requires forall b {:trigger IsBorder(p, i, b)} :: j < b < i && IsBorder(p, i, b) ==> p[b] != p[i]
    requires if j == 0 then nj == -1 else IsLongestBorder(p, j, nj)
    ensures nj == -1 || IsBorder(p, i, nj)
    ensures forall b {:trigger IsBorder(p, i, b)} :: nj < b < i && IsBorder(p, i, b) ==> p[b] != p[i]
  {
    if j > 0 {
      BorderOfBorder(p, i, j, nj);
      forall b | nj < b < j
        ensures !IsBorder(p, i, b)
      {
        if IsBorder(p, i, b) {
          ShorterBorderIsBorderOfLonger(p, i, j, b);
        }
      }
    }
  }

  /** The forward scan's step on a mismatch: with `p[..j]` aligned so that it
      ends just before `s[i]`, `s[i] != p[j]` and `nj` the table entry
      `next[j]`, retreating to `nj` keeps a valid partial match and skips no
      occurrence. */
  lemma {:induction false} RetreatSkipsNoOccurrence<T>(s: seq<T>, p: seq<T>, i: int, j: int, nj: int)
    requires 0 <= j < |p| && i < |s| && MatchesAt(s, p, i - j, j) && s[i] != p[j]
    requires if j == 0 then nj == -1 else IsLongestBorder(p, j, nj)
    ensures nj >= 0 ==> MatchesAt(s, p, i - nj, nj)
    ensures forall k :: i - j <= k < i - nj ==> !Occurs(s, p, k)
  {
    var off := i - nj;
    forall t | 0 <= t < nj
      ensures SameAt(s, p, off, t)
    {
      assert SameAt(s, p, i - j, j - nj + t);
      assert SameAt(p, p, j - nj, t);
    }
    forall k | i - j <= k < i - nj
      ensures !Occurs(s, p, k)
    {
      if k == i - j {
        assert !SameAt(s, p, k, j);
      } else {
        OccurrenceIsBorder(s, p, i, j, k);
      }
    }
  }

  /** An occurrence that starts inside a partial match of `p[..j]` ending
      just before `s[i]` makes its overlap with that match a border of `p[..j]`. */
  lemma {:induction false} OccurrenceIsBorder<T>(s: seq<T>, p: seq<T>, i: int, j: int, k: int)
    requires 0 <= j <= |p| && MatchesAt(s, p, i - j, j) && i - j < k <= i
    ensures Occurs(s, p, k) ==> IsBorder(p, j, i - k)
  {
    if Occurs(s, p, k) {
      var len := i - k;
      var off := j - len;
      forall t | 0 <= t < len
        ensures SameAt(p, p, off, t)
      {
        assert SameAt(s, p, i - j, off + t);
        assert SameAt(s, p, k, t);
      }
    }
  }

  /** A forward search has exactly one correct answer. */
  lemma FirstOccurrenceUnique<T>(s: seq<T>, p: seq<T>, from: int, r1: int, r2: int)
    requires IsFirstOccurrence(s, p, from, r1) && IsFirstOccurrence(s, p, from, r2)
    ensures r1 == r2
  {
    if r1 != -1 {
      assert Occurs(s, p, r1);
    }
    if r2 != -1 {
      assert Occurs(s, p, r2);
    }
  }

  /** A backward search has exactly one correct answer. */
  lemma LastOccurrenceUnique<T>(s: seq<T>, p: seq<T>, upto: int, r1: int, r2: int)
    requires IsLastOccurrence(s, p, upto, r1) && IsLastOccurrence(s, p, upto, r2)
    ensures r1 == r2
  {
    if r1 != -1 {
      assert Occurs(s, p, r1);
    }
    if r2 != -1 {
      assert Occurs(s, p, r2);
    }
  }

  /** A forward search and a backward search over the whole subject agree:
      the first occurrence is never after the last one, and when there is
      exactly one occurrence both name it. */
  lemma FirstNotAfterLast<T>(s: seq<T>, p: seq<T>, first: int, last: int)
    requires IsFirstOccurrence(s, p, 0, first)
    requires IsLastOccurrence(s, p, |s| - |p|, last)
    ensures first == -1 <==> last == -1
    ensures first != -1 ==> first <= last
    ensures forall k :: Occurs(s, p, k) && (forall k' :: Occurs(s, p, k') ==> k' == k) ==> first == k == last
  {
    if first != -1 {
      assert Occurs(s, p, first);
    }
    if last != -1 {
      assert Occurs(s, p, last);
    }
  }
}
