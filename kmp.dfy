/** The Knuth-Morris-Pratt matcher: the failure-table builder and a matcher
    object holding a subject ("input"), a pattern ("target") and an element
    comparator, with a forward and a backward search. */
module Kmp {
  import opened Borders
  import opened BackwardScan
  import opened LoopStates

  /** A configuration field that may not have been set yet (Java's null). */
  datatype Option<T> = None | Some(value: T)

  /** The index predicate `compare(a, b)` tells whether pattern elements `a`
      and `b` are equal, for every pair of indices of `pattern`. */
  ghost predicate ComparesPattern<T>(compare: (int, int) --> bool, pattern: seq<T>)
  {
    forall a, b {:trigger compare.requires(a, b)} :: 0 <= a < |pattern| && 0 <= b < |pattern| ==>
      compare.requires(a, b) && (compare(a, b) <==> pattern[a] == pattern[b])
  }

  /** The element comparator is plain equality on every pair of pattern elements. */
  ghost predicate EqualOnPattern<E>(compare: (E, E) -> bool, p: seq<E>)
  {
    forall a, b {:trigger compare(p[a], p[b])} :: 0 <= a < |p| && 0 <= b < |p| ==> (compare(p[a], p[b]) <==> p[a] == p[b])
  }

  /** The element comparator is plain equality on every pair it can be
      applied to: a subject element against a pattern element, and two
      pattern elements. */
  ghost predicate ComparesByEquality<E>(compare: (E, E) -> bool, s: seq<E>, p: seq<E>)
  {
    (forall a, b {:trigger compare(s[a], p[b])} :: 0 <= a < |s| && 0 <= b < |p| ==> (compare(s[a], p[b]) <==> s[a] == p[b])) &&
    EqualOnPattern(compare, p)
  }

  /** The pattern comparison the searches hand to `GenerateNext` is equality
      on the pattern when the element comparator is. */
  lemma PatternCompareAgrees<E>(compare: (E, E) -> bool, p: seq<E>, patternCompare: (int, int) --> bool)
    requires EqualOnPattern(compare, p)
    requires forall a, b :: 0 <= a < |p| && 0 <= b < |p| ==>
               patternCompare.requires(a, b) && patternCompare(a, b) == compare(p[a], p[b])
    ensures ComparesPattern(patternCompare, p)
  {
  }

  /** Builds the failure table of a pattern of `length` elements, comparing
      pattern positions with `compare`. A zero `length` is excluded: the table's
      first entry would not exist. Whatever `compare` is, every entry is below
      its index; when `compare` is equality on `pattern`, the table is the
      pattern's failure table. `pattern` only serves to state that. */
  method GenerateNext<T>(length: int, compare: (int, int) --> bool, ghost pattern: seq<T>)
    returns (next: array<int>)
    requires length >= 1
    requires forall a, b :: 0 <= a < length && 0 <= b < length ==> compare.requires(a, b)
    ensures fresh(next) && next.Length == length && next[0] == -1
    ensures forall k :: 1 <= k < length ==> 0 <= next[k] < k
    ensures |pattern| == length && ComparesPattern(compare, pattern) ==> IsFailureTable(pattern, next[..])
  {
    next := new int[length];
    next[0] := -1;
    ghost var agree := |pattern| == length && ComparesPattern(compare, pattern);
    ghost var table := next[..];
    var i, j := 0, -1;
    while i < length - 1
      invariant 0 <= i < length && -1 <= j < i
      invariant next[..] == table
      invariant next[0] == -1 && forall k :: 1 <= k <= i ==> 0 <= next[k] < k
      invariant agree ==> BuilderState(pattern, table, i, j)
      decreases length - i, j + 1
    {
      if j == -1 || compare(i, j) {
        if agree {
          BuilderExtend(pattern, table, i, j);
        }
        i, j := i + 1, j + 1;
        next[i] := j;
        table := table[i := j];
      } else {
        if agree {
          BuilderRetreat(pattern, table, i, j);
        }
        j := next[j];
      }
    }
    if agree {
      BuilderDone(pattern, table, i, j);
    }
  }

  /** A matcher over elements of type `E`, configured field by field: a
      length supplier and an element accessor for each of the subject and the
      pattern, and an element comparator. A supplier is modelled by the
      length it supplies, an accessor by a function defined on the indices
      below that length. */
  class KMP<E(==)> {
    /** The subject's length supplier. */
    var inputLength: Option<nat>
    /** The subject's element accessor. */
    var inputAccessor: Option<int --> E>
    /** The pattern's length supplier. */
    var targetLength: Option<nat>
    /** The pattern's element accessor. */
    var targetAccessor: Option<int --> E>
    /** The element comparator, applied as compare(subject element, pattern element). */
    var compare: (E, E) -> bool

    /** Every supplier and accessor is set, and each accessor is defined on
      every index below its length. */
    ghost predicate Configured()
      reads this
    {
      inputLength.Some? && inputAccessor.Some? && targetLength.Some? && targetAccessor.Some? &&
      (forall k :: 0 <= k < inputLength.value ==> inputAccessor.value.requires(k)) &&
      (forall k :: 0 <= k < targetLength.value ==> targetAccessor.value.requires(k))
    }

    /** The subject the configuration describes. */
    ghost function Input(): (s: seq<E>)
      reads this
      requires Configured()
    {
      seq(inputLength.value, inputAccessor.value)
    }

    /** The pattern the configuration describes. */
    ghost function Target(): (p: seq<E>)
      reads this
      requires Configured()
    {
      seq(targetLength.value, targetAccessor.value)
    }

    /** A new matcher: no supplier or accessor set, `Objects::equals` as comparator. */
    constructor ()
      ensures inputLength == None && inputAccessor == None
      ensures targetLength == None && targetAccessor == None
      ensures forall a, b :: compare(a, b) <==> a == b
    {
      inputLength, inputAccessor := None, None;
      targetLength, targetAccessor := None, None;
      compare := (a, b) => a == b;
    }

    /** Sets the subject's length supplier. */
    method SetInputLength(n: nat)
      modifies this
      ensures inputLength == Some(n) && inputAccessor == old(inputAccessor)
      ensures targetLength == old(targetLength) && targetAccessor == old(targetAccessor)
      ensures compare == old(compare)
    {
      inputLength := Some(n);
    }

    /** Sets the subject's element accessor. */
    method SetInputAccessor(at: int --> E)
      modifies this
      ensures inputAccessor == Some(at) && inputLength == old(inputLength)
      ensures targetLength == old(targetLength) && targetAccessor == old(targetAccessor)
      ensures compare == old(compare)
    {
      inputAccessor := Some(at);
    }

    /** Sets the pattern's length supplier. */
    method SetTargetLength(n: nat)
      modifies this
      ensures targetLength == Some(n) && targetAccessor == old(targetAccessor)
      ensures inputLength == old(inputLength) && inputAccessor == old(inputAccessor)
      ensures compare == old(compare)
    {
      targetLength := Some(n);
    }

    /** Sets the pattern's element accessor. */
    method SetTargetAccessor(at: int --> E)
      modifies this
      ensures targetAccessor == Some(at) && targetLength == old(targetLength)
      ensures inputLength == old(inputLength) && inputAccessor == old(inputAccessor)
      ensures compare == old(compare)
    {
      targetAccessor := Some(at);
    }

    /** Sets the element comparator. */
    method SetCompare(c: (E, E) -> bool)
      modifies this
      ensures compare == c
      ensures inputLength == old(inputLength) && inputAccessor == old(inputAccessor)
      ensures targetLength == old(targetLength) && targetAccessor == old(targetAccessor)
    {
      compare := c;
    }

    /** The failure table both searches build: `GenerateNext` over the
      pattern's length, comparing pattern positions `a` and `b` by applying
      the comparator to the pattern elements there. */
    method TargetTable() returns (next: array<int>)
      requires Configured() && targetLength.value >= 1
      ensures fresh(next) && IsShiftTable(Target(), next[..])
      ensures EqualOnPattern(compare, Target()) ==> IsFailureTable(Target(), next[..])
    {
      var m, at, eq := targetLength.value, targetAccessor.value, compare;
      ghost var p := Target();
      var patternCompare := (a: int, b: int) requires 0 <= a < m && 0 <= b < m => eq(at(a), at(b));
      if EqualOnPattern(eq, p) {
        PatternCompareAgrees(eq, p, patternCompare);
      }
      next := GenerateNext(m, patternCompare, p);
    }

    /** Forward search: the first occurrence of the pattern at or after
      `start` (a negative `start` counts as 0), or -1. */
    method IndexOf(start: int) returns (r: int)
      requires Configured()
      ensures (inputLength.value == 0 || targetLength.value == 0 || targetLength.value > inputLength.value ||
               start >= inputLength.value) ==> r == -1
      ensures r == -1 || ((if start < 0 then 0 else start) <= r && r + targetLength.value <= inputLength.value)
      ensures ComparesByEquality(compare, Input(), Target()) && targetLength.value > 0 ==>
                IsFirstOccurrence(Input(), Target(), if start < 0 then 0 else start, r)
    {
      var n, m := inputLength.value, targetLength.value;
      if n == 0 || m == 0 || m > n {
        return -1;
      }
      if start >= n {
        return -1;
      }
      var from := if start < 0 then 0 else start;
      var input, target, eq := inputAccessor.value, targetAccessor.value, compare;
      ghost var s, p := Input(), Target();
      ghost var equality := ComparesByEquality(eq, s, p);
      var next := TargetTable();
      ghost var table := next[..];
      var i, j := from, 0;
      while i < n && j < m
        invariant from <= i <= n && -1 <= j <= m && from <= i - j
        invariant next.Length == m && next[..] == table && IsShiftTable(p, table)
        invariant equality ==> ForwardState(s, p, table, from, i, j)
        decreases n - i, j + 1
      {
        if j == -1 || eq(input(i), target(j)) {
          if equality {
            ForwardMatch(s, p, table, from, i, j);
          }
          i, j := i + 1, j + 1;
        } else {
          ghost var j0 := j;
          j := next[j];
          if equality {
            ForwardMismatch(s, p, table, from, i, j0, j);
          }
        }
      }
      if equality {
        ForwardDone(s, p, table, from, i, j);
      }
      if j == m {
        r := i - j;
      } else {
        r := -1;
      }
    }

    /** Backward search as the matcher performs it: -1 unless the subject and
      the pattern are non-empty, the pattern fits and `start > 0`; otherwise
      the backward scan from `start` clamped to `|input| - |target|`. Its
      result is -1 or an index at or before the clamped start; under equality
      it is `BackwardSearch`, which need not be an occurrence. */
    method LastIndexOf(start: int) returns (r: int)
      requires Configured()
      ensures (inputLength.value == 0 || targetLength.value == 0 || targetLength.value > inputLength.value ||
               start <= 0) ==> r == -1
      ensures r == -1 || (0 <= r <= start && r + targetLength.value <= inputLength.value)
      ensures ComparesByEquality(compare, Input(), Target()) ==> r == BackwardSearch(Input(), Target(), start)
    {
      var n, m := inputLength.value, targetLength.value;
      if n == 0 || m == 0 || m > n {
        return -1;
      }
      if start <= 0 {
        return -1;
      }
      var ceiling := if start > n - m then n - m else start;
      var input, target, eq := inputAccessor.value, targetAccessor.value, compare;
      ghost var s, p := Input(), Target();
      ghost var equality := ComparesByEquality(eq, s, p);
      var next := TargetTable();
      ghost var table := next[..];
      ghost var scan := LastScan(s, p, table, ceiling, 0);
      var i, j := ceiling, 0;
      while i >= 0 && j < m
        invariant i <= ceiling && -1 <= j <= m && (j == m ==> i >= 0)
        invariant next.Length == m && next[..] == table && IsShiftTable(p, table)
        invariant equality ==> BackwardState(s, p, table, scan, i, j)
        decreases i + 1, m - j
      {
        if j == -1 || eq(input(i + j), target(j)) {
          if equality {
            BackwardMatch(s, p, table, scan, i, j);
          }
          j := j + 1;
        } else {
          ghost var i0, j0 := i, j;
          i := i - (j - next[j]);
          j := next[j];
          if equality {
            BackwardMismatch(s, p, table, scan, i0, j0, i, j);
          }
        }
      }
      if equality {
        BackwardDone(s, p, table, scan, i, j, start);
      }
      if j == m {
        r := i;
      } else {
        r := -1;
      }
    }

    /** Backward search as evidently intended: the last occurrence of the
      pattern at or before `start`, or -1. Only a negative `start` is
      rejected, and on a mismatch the alignment moves left by one and
      matching restarts at the first pattern element. */
    method LastIndexOfCorrected(start: int) returns (r: int)
      requires Configured()
      ensures (inputLength.value == 0 || targetLength.value == 0 || targetLength.value > inputLength.value ||
               start < 0) ==> r == -1
      ensures r == -1 || (0 <= r <= start && r + targetLength.value <= inputLength.value)
      ensures ComparesByEquality(compare, Input(), Target()) && targetLength.value > 0 ==>
                IsLastOccurrence(Input(), Target(), start, r)
    {
      var n, m := inputLength.value, targetLength.value;
      if n == 0 || m == 0 || m > n {
        return -1;
      }
      if start < 0 {
        return -1;
      }
      var ceiling := if start > n - m then n - m else start;
      var input, target, eq := inputAccessor.value, targetAccessor.value, compare;
      ghost var s, p := Input(), Target();
      ghost var equality := ComparesByEquality(eq, s, p);
      var i, j := ceiling, 0;
      while i >= 0 && j < m
        invariant -1 <= i <= ceiling && 0 <= j <= m && (j > 0 ==> i >= 0)
        invariant equality && i >= 0 ==> MatchesAt(s, p, i, j)
        invariant equality ==> forall k :: i < k <= ceiling ==> !Occurs(s, p, k)
        decreases i + 1, m - j
      {
        if eq(input(i + j), target(j)) {
          j := j + 1;
        } else {
          if equality {
            assert !SameAt(s, p, i, j);
          }
          i, j := i - 1, 0;
        }
      }
      if j == m {
        r := i;
      } else {
        r := -1;
      }
    }
  }

  /** A forward search from 0 and a corrected backward search from the last
      alignment agree under equality: one finds an occurrence exactly when
      the other does, the first is never after the last, and both name the
      only occurrence when there is one. */
  method SearchBothWays<E(==)>(kmp: KMP<E>) returns (first: int, last: int)
    requires kmp.Configured()
    ensures ComparesByEquality(kmp.compare, kmp.Input(), kmp.Target()) && kmp.targetLength.value > 0 ==>
              (first == -1 <==> last == -1) && (first != -1 ==> first <= last) &&
              forall k :: Occurs(kmp.Input(), kmp.Target(), k) && (forall k' :: Occurs(kmp.Input(), kmp.Target(), k') ==> k' == k) ==>
                first == k == last
  {
    first := kmp.IndexOf(0);
    last := kmp.LastIndexOfCorrected(kmp.inputLength.value - kmp.targetLength.value);
    if ComparesByEquality(kmp.compare, kmp.Input(), kmp.Target()) && kmp.targetLength.value > 0 {
      FirstNotAfterLast(kmp.Input(), kmp.Target(), first, last);
    }
  }
}
