/** The backward scan of `lastIndexOf` as a function: the alignment of the
    pattern is anchored at `i` and compared left to right; on a mismatch at
    `j` the anchor moves left by `j - next[j]` and `next[j]` elements are taken
    as already matched, with `next` the forward failure table. */
module BackwardScan {
  import opened Borders

  /** `f` has an entry for every pattern position, each at least -1 and
      below its index: enough for the backward loop to terminate. */
  ghost predicate IsShiftTable<T>(p: seq<T>, f: seq<int>)
  {
    |f| == |p| && forall k :: 0 <= k < |f| ==> -1 <= f[k] < k
  }

  /** The value the backward loop ends with, using table `f`, starting from
      anchor `i` with `j` elements of the pattern taken as matched. */
  ghost function LastScan<T>(s: seq<T>, p: seq<T>, f: seq<int>, i: int, j: int): (r: int)
    requires 1 <= |p| <= |s| && i <= |s| - |p| && IsShiftTable(p, f)
    requires -1 <= j <= |p| && (j == |p| ==> i >= 0)
    ensures r == -1 || 0 <= r <= i
    decreases i + 1, |p| - j
  {
    if i < 0 || j == |p| then
      if j == |p| then i else -1
    else if j == -1 || s[i + j] == p[j] then
      LastScan(s, p, f, i, j + 1)
    else
      LastScan(s, p, f, i - (j - f[j]), f[j])
  }

  /** The backward loop's state: anchor `i` with `j` elements taken as
      matched, from where the scan with table `f` ends with `scan`. */
  ghost predicate BackwardState<T>(s: seq<T>, p: seq<T>, f: seq<int>, scan: int, i: int, j: int)
  {
    1 <= |p| <= |s| && i <= |s| - |p| && IsShiftTable(p, f) &&
    -1 <= j <= |p| && (j == |p| ==> i >= 0) &&
    LastScan(s, p, f, i, j) == scan
  }

  /** On a match (or from the sentinel) the loop takes one more element as matched. */
  lemma BackwardMatch<T>(s: seq<T>, p: seq<T>, f: seq<int>, scan: int, i: int, j: int)
    requires BackwardState(s, p, f, scan, i, j) && i >= 0 && j < |p|
    requires j == -1 || s[i + j] == p[j]
    ensures BackwardState(s, p, f, scan, i, j + 1)
  {
  }

  /** On a mismatch the loop moves the anchor left by `j - f[j]` to `i'` and
      takes `j' == f[j]` elements as matched. */
  lemma BackwardMismatch<T>(s: seq<T>, p: seq<T>, f: seq<int>, scan: int, i: int, j: int, i': int, j': int)
    requires BackwardState(s, p, f, scan, i, j) && i >= 0 && 0 <= j < |p|
    requires s[i + j] != p[j] && j' == f[j] && i' == i - (j - f[j])
    ensures BackwardState(s, p, f, scan, i', j')
  {
  }

  /** When the loop stops having started from the clamped `start` with the
      failure table, its answer is the backward search. */
  lemma BackwardDone<T>(s: seq<T>, p: seq<T>, f: seq<int>, scan: int, i: int, j: int, start: int)
    requires BackwardState(s, p, f, scan, i, j) && (i < 0 || j == |p|)
    requires start > 0 && IsFailureTable(p, f)
    requires scan == LastScan(s, p, f, if start > |s| - |p| then |s| - |p| else start, 0)
    ensures BackwardSearch(s, p, start) == if j == |p| then i else -1
  {
    BackwardSearchUsesTable(s, p, f, start);
  }

  /** What `lastIndexOf(start)` returns when elements are compared by equality:
      -1 for an empty subject or pattern, a pattern longer than the subject, or
      `start <= 0`; otherwise the backward scan with the pattern's failure
      table from `start` clamped to `|s| - |p|`. */
  ghost function BackwardSearch<T>(s: seq<T>, p: seq<T>, start: int): (r: int)
    ensures |s| == 0 || |p| == 0 || |p| > |s| || start <= 0 ==> r == -1
    ensures r == -1 || (0 <= r <= start && r + |p| <= |s|)
  {
    if |s| == 0 || |p| == 0 || |p| > |s| || start <= 0 then -1
    else LastScan(s, p, FailureTable(p), if start > |s| - |p| then |s| - |p| else start, 0)
  }

  /** Any failure table of `p` is a shift table, and running the scan with
      it is the backward search. */
  lemma BackwardSearchUsesTable<T>(s: seq<T>, p: seq<T>, f: seq<int>, start: int)
    requires 1 <= |p| <= |s| && start > 0 && IsFailureTable(p, f)
    ensures IsShiftTable(p, f)
    ensures BackwardSearch(s, p, start) == LastScan(s, p, f, if start > |s| - |p| then |s| - |p| else start, 0)
  {
    FailureTableUnique(p, f);
  }

  /** When the pattern occurs at the anchor, the scan matches it element by
      element and answers the anchor. */
  lemma {:induction false} LastScanFindsAnchor<T>(s: seq<T>, p: seq<T>, f: seq<int>, i: int, j: int)
    requires 1 <= |p| <= |s| && 0 <= i <= |s| - |p| && 0 <= j <= |p| && IsShiftTable(p, f)
    requires Occurs(s, p, i)
    ensures LastScan(s, p, f, i, j) == i
    decreases |p| - j
  {
    if j < |p| {
      assert SameAt(s, p, i, j);
      LastScanFindsAnchor(s, p, f, i, j + 1);
    }
  }

  /** If the alignment at the clamped start is an occurrence, the backward
      search returns it. */
  lemma BackwardSearchFindsClampedStart<T>(s: seq<T>, p: seq<T>, start: int)
    requires 1 <= |p| <= |s| && start > 0
    requires Occurs(s, p, if start > |s| - |p| then |s| - |p| else start)
    ensures BackwardSearch(s, p, start) == if start > |s| - |p| then |s| - |p| else start
  {
    LastScanFindsAnchor(s, p, FailureTable(p), if start > |s| - |p| then |s| - |p| else start, 0);
  }

  /** When no subject element equals the pattern's first element, the scan
      never gets past `j == 0` and answers -1. */
  lemma {:induction false} LastScanNeverStarts<T>(s: seq<T>, p: seq<T>, f: seq<int>, i: int, j: int)
    requires 1 <= |p| <= |s| && i <= |s| - |p| && IsShiftTable(p, f) && -1 <= j <= 0
    requires forall k :: 0 <= k < |s| ==> s[k] != p[0]
    ensures LastScan(s, p, f, i, j) == -1
    decreases i + 1, |p| - j
  {
    if i >= 0 {
      if j == -1 {
        LastScanNeverStarts(s, p, f, i, 0);
      } else {
        assert s[i + j] != p[j];
        LastScanNeverStarts(s, p, f, i - (j - f[j]), f[j]);
      }
    }
  }

  /** The backward search answers -1 when the pattern's first element does
      not appear in the subject. */
  lemma BackwardSearchAbsentFirst<T>(s: seq<T>, p: seq<T>, start: int)
    requires |p| >= 1 && forall k :: 0 <= k < |s| ==> s[k] != p[0]
    ensures BackwardSearch(s, p, start) == -1
  {
    if 1 <= |p| <= |s| && start > 0 {
      LastScanNeverStarts(s, p, FailureTable(p), if start > |s| - |p| then |s| - |p| else start, 0);
    }
  }
}
