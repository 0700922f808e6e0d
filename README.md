# Knuth-Morris-Pratt matcher (`KMP.java`)

A Dafny model of `KMP<E>`, a configurable Knuth-Morris-Pratt matcher over an
abstract subject (the "input") and an abstract pattern (the "target"). The
model covers four parts:

- the static builder `generateNext`, which fills the failure table ("next
  array") in place;
- the forward search `indexOf(start)`;
- the backward search `lastIndexOf(start)`;
- the configuration fields and fluent setters the searches read.

Each of the subject and the pattern is described by a length supplier and an
element accessor. Elements are compared with a `BiPredicate`, which defaults
to `Objects::equals`.

Layout:

- `borders.dfy` (module `Borders`): the specification vocabulary.
  - Occurrences, first and last occurrences, borders and longest borders.
  - The reference failure table `FailureTable`, built from the definition of
    a border.
  - The lemmas about borders that the table builder and the forward search
    rely on.
- `states.dfy` (module `LoopStates`): the loop states of `generateNext` and
  `indexOf`, each with a lemma per loop step.
- `backward.dfy` (module `BackwardScan`): the backward scan of `lastIndexOf`
  as a function (`LastScan`, `BackwardSearch`), its loop state, and what it
  guarantees.
- `kmp.dfy` (module `Kmp`):
  - `GenerateNext` as a method over an `array<int>`;
  - the class `KMP` with the five configuration fields, the constructor, the
    setters and the two searches;
  - a corrected backward search.
- `examples.dfy` (module `KmpExamples`): concrete failure tables, some of
  the cases the repository's test suite asserts, and the inputs behind the
  findings below. The covered spans of `KMPTest.java` are 25-84, 117-132,
  142-176, 207-223 and 233-236. The list, `int` and `byte` cases (98-115 and
  189-205) are not derived here. The
  case-insensitive test (243-251) cannot be derived, because under a
  comparator other than equality the model proves only bounds.

How the source maps onto Dafny:

- A length supplier becomes the `nat` it supplies. An accessor becomes a
  partial function `int --> E`, defined on the indices below its length.
- A field that has not been set yet (Java `null`) is `None`.
- A search requires every field to be set (`Configured()`). The Java code
  reads only the two length suppliers before its guards, so it throws a
  `NullPointerException` for a missing accessor only once the table is
  built (the pattern accessor, through `generateNext`) or the scan starts.
- Every read of the subject, the pattern or `next` in the three loops is
  proved to be in bounds, and every loop is proved to terminate. The
  accessors are partial functions defined at least on those bounds.
- Correctness is stated for a comparator that is plain equality on the
  elements it is applied to (`ComparesByEquality`). For any other comparator
  the model proves only the guards, the bounds, in-bounds reads and
  termination.
- The backward search reuses the forward failure table and does not always
  return an occurrence. Its model therefore ties the method to the ghost
  function `BackwardSearch`. It also proves what that function does
  guarantee: if the alignment at the clamped start is an occurrence, the
  search returns it. `LastIndexOfCorrected` is the one proved to return the
  last occurrence.

## Model

| member | source | states |
|---|---|---|
| Borders.LongestBorderUpTo | src/main/java/com/github/zhitron/algorithm/KMP.java:210-217 | the longest proper border of the prefix `p[..k]` that is at most `c`: it is a border, and no length between it and `c` is one |
| Borders.LongestBorder | src/main/java/com/github/zhitron/algorithm/KMP.java:210-217 | the result is the longest proper border of the prefix `p[..k]`: it is a border and every longer length is not |
| Borders.FailureTable | src/main/java/com/github/zhitron/algorithm/KMP.java:210-217 | the reference table of a non-empty pattern is a failure table: entry 0 is -1 and entry k is the longest proper border of `p[..k]`; every entry lies in [-1, k) |
| Borders.FailureTableUnique | src/main/java/com/github/zhitron/algorithm/KMP.java:210-217 | any sequence satisfying the failure-table definition equals the reference table |
| Borders.MatchesAtExtend | src/main/java/com/github/zhitron/algorithm/KMP.java:337-339 | a partial match of `j` elements followed by one more equal element is a partial match of `j + 1` |
| Borders.BorderExtend | src/main/java/com/github/zhitron/algorithm/KMP.java:225-228 | a border `b` of `p[..k]` with `p[b] == p[k]` extends to a border `b + 1` of `p[..k+1]` |
| Borders.BorderShrink | src/main/java/com/github/zhitron/algorithm/KMP.java:225-228 | conversely, every non-empty border `c` of `p[..k+1]` comes from a border `c - 1` of `p[..k]` with `p[c-1] == p[k]` |
| Borders.BorderOfBorder | src/main/java/com/github/zhitron/algorithm/KMP.java:229-231 | a border of a border of `p[..i]` is itself a border of `p[..i]` |
| Borders.ShorterBorderIsBorderOfLonger | src/main/java/com/github/zhitron/algorithm/KMP.java:229-231 | of two borders of `p[..i]`, the shorter is a border of the longer |
| Borders.TableExtendStep | src/main/java/com/github/zhitron/algorithm/KMP.java:225-228 | on a match, or from `j == -1`, when no longer border of `p[..i]` is followed by `p[i]`, the value `j + 1` written to `next[i+1]` is the longest border of `p[..i+1]` |
| Borders.TableRetreatStep | src/main/java/com/github/zhitron/algorithm/KMP.java:229-231 | on a mismatch, falling back from `j` to `next[j]` keeps a border of `p[..i]` and skips no border followed by `p[i]` |
| Borders.RetreatSkipsNoOccurrence | src/main/java/com/github/zhitron/algorithm/KMP.java:340-343 | in the forward scan, falling back from `j` to `next[j]` on a mismatch keeps a valid partial match and skips no occurrence of the pattern |
| Borders.OccurrenceIsBorder | src/main/java/com/github/zhitron/algorithm/KMP.java:340-343 | an occurrence starting inside a partial match of `j` elements makes the overlap a border of `p[..j]` |
| Borders.FirstOccurrenceUnique | src/main/java/com/github/zhitron/algorithm/KMP.java:316-322 | the first occurrence at or after a start index is unique, so the forward search has exactly one correct answer |
| Borders.LastOccurrenceUnique | src/main/java/com/github/zhitron/algorithm/KMP.java:354-360 | the last occurrence at or before an index is unique |
| Borders.FirstNotAfterLast | src/main/java/com/github/zhitron/algorithm/KMP.java:316-360 | over the whole subject, the first occurrence exists exactly when the last does, is never after it, and both name the only occurrence when there is one |
| LoopStates.BuilderExtend | src/main/java/com/github/zhitron/algorithm/KMP.java:225-228 | the builder's match step, which writes `next[i+1] := j + 1`, preserves the builder's loop state |
| LoopStates.BuilderRetreat | src/main/java/com/github/zhitron/algorithm/KMP.java:229-231 | the builder's mismatch step `j := next[j]` preserves the builder's loop state |
| LoopStates.BuilderDone | src/main/java/com/github/zhitron/algorithm/KMP.java:223-234 | when the builder's loop ends, the array is the pattern's failure table |
| LoopStates.ForwardMatch | src/main/java/com/github/zhitron/algorithm/KMP.java:337-339 | the forward scan's match step preserves its state: the partial match grows and no occurrence was skipped |
| LoopStates.ForwardMismatch | src/main/java/com/github/zhitron/algorithm/KMP.java:340-343 | the forward scan's mismatch step `j := next[j]` preserves its state |
| LoopStates.ForwardDone | src/main/java/com/github/zhitron/algorithm/KMP.java:345-351 | when the forward loop ends, `i - j` is the first occurrence from `start`, or -1 when `j != m` and there is none |
| BackwardScan.LastScan | src/main/java/com/github/zhitron/algorithm/KMP.java:375-383 | the backward loop's final value from anchor `i` with `j` matched, as a function of the table: -1 or an anchor in [0, i]; it terminates on the measure (i + 1, m - j) |
| BackwardScan.BackwardMatch | src/main/java/com/github/zhitron/algorithm/KMP.java:376-377 | the backward loop's match step preserves its state, so the value the scan ends with does not change |
| BackwardScan.BackwardMismatch | src/main/java/com/github/zhitron/algorithm/KMP.java:378-381 | the backward loop's mismatch step preserves its state |
| BackwardScan.BackwardDone | src/main/java/com/github/zhitron/algorithm/KMP.java:385-389 | when the backward loop ends, its answer (`i` if `j == m`, else -1) is `BackwardSearch` of the original `start` |
| BackwardScan.BackwardSearch | src/main/java/com/github/zhitron/algorithm/KMP.java:366-389 | the answer of `lastIndexOf` under equality: -1 for an empty subject or pattern, a pattern longer than the subject, or `start <= 0`; otherwise -1 or an index in [0, start] at which the pattern fits |
| BackwardScan.BackwardSearchUsesTable | src/main/java/com/github/zhitron/algorithm/KMP.java:370-372 | any failure table of the pattern is a shift table, and scanning with it from the clamped start gives `BackwardSearch` |
| BackwardScan.LastScanFindsAnchor | src/main/java/com/github/zhitron/algorithm/KMP.java:375-377 | when the pattern occurs at anchor `i`, the scan from `i` matches it element by element and answers `i` |
| BackwardScan.BackwardSearchFindsClampedStart | src/main/java/com/github/zhitron/algorithm/KMP.java:366-389 | if the alignment at `start` clamped to `n - m` is an occurrence, the backward search returns that index |
| BackwardScan.LastScanNeverStarts | src/main/java/com/github/zhitron/algorithm/KMP.java:375-383 | when no subject element equals the pattern's first element, the scan from `j <= 0` never matches more than the sentinel and answers -1 |
| BackwardScan.BackwardSearchAbsentFirst | src/main/java/com/github/zhitron/algorithm/KMP.java:366-389 | the backward search answers -1 whenever the pattern's first element does not appear in the subject |
| KmpExamples.FailureTableABAB | src/main/java/com/github/zhitron/algorithm/KMP.java:218-235 | the failure table of "ABAB" is [-1, 0, 0, 1] |
| KmpExamples.BackwardSearchNotSound | src/main/java/com/github/zhitron/algorithm/KMP.java:378-381 | "ABAB" occurs nowhere in "XBABAX", yet the backward search from 6 answers 0 |
| KmpExamples.FailureTableABC | src/main/java/com/github/zhitron/algorithm/KMP.java:218-235 | the failure table of "ABC" is [-1, 0, 0] |
| KmpExamples.BackwardSearchExamples | src/test/java/com/github/zhitron/algorithm/KMPTest.java:142-171 | the expected backward results: "ABC" in "ABABCABC" gives 5 from 8 and 2 from 4; "AB" in "ABCAB" gives 3 from 5 |
| Kmp.PatternCompareAgrees | src/main/java/com/github/zhitron/algorithm/KMP.java:332 | the index predicate the searches build, `compare(target(i), target(j))`, is equality on pattern positions when the comparator is equality on pattern elements |
| Kmp.GenerateNext | src/main/java/com/github/zhitron/algorithm/KMP.java:218-235 | for `length >= 1`, the array is newly allocated, has `length` entries, `next[0] == -1` and `0 <= next[k] < k` for every other k; when the index predicate is equality on the pattern, the array is its failure table |
| Kmp.KMP.constructor | src/main/java/com/github/zhitron/algorithm/KMP.java:22-38 | a new matcher has no supplier or accessor set, and its comparator is equality (`Objects::equals`) |
| Kmp.KMP.SetInputLength | src/main/java/com/github/zhitron/algorithm/KMP.java:267-270 | sets the subject's length and leaves the other four fields unchanged |
| Kmp.KMP.SetInputAccessor | src/main/java/com/github/zhitron/algorithm/KMP.java:278-281 | sets the subject's accessor and leaves the other four fields unchanged |
| Kmp.KMP.SetTargetLength | src/main/java/com/github/zhitron/algorithm/KMP.java:289-292 | sets the pattern's length and leaves the other four fields unchanged |
| Kmp.KMP.SetTargetAccessor | src/main/java/com/github/zhitron/algorithm/KMP.java:300-303 | sets the pattern's accessor and leaves the other four fields unchanged |
| Kmp.KMP.SetCompare | src/main/java/com/github/zhitron/algorithm/KMP.java:311-314 | sets the comparator and leaves the other four fields unchanged |
| Kmp.KMP.TargetTable | src/main/java/com/github/zhitron/algorithm/KMP.java:332 | the table both searches build is newly allocated and has one entry per pattern element, each in [-1, k); under equality on the pattern it is the failure table |
| Kmp.KMP.IndexOf | src/main/java/com/github/zhitron/algorithm/KMP.java:323-352 | -1 for an empty subject or pattern, a pattern longer than the subject, or `start >= n`; otherwise -1 or an index in [max(start, 0), n - m]. Under equality the result is the first occurrence at or after max(start, 0), or -1 exactly when there is none |
| Kmp.KMP.LastIndexOf | src/main/java/com/github/zhitron/algorithm/KMP.java:361-390 | -1 for an empty subject or pattern, a pattern longer than the subject, or `start <= 0`; otherwise -1 or an index in [0, min(start, n - m)]. Under equality the result is `BackwardSearch` |
| Kmp.KMP.LastIndexOfCorrected | src/main/java/com/github/zhitron/algorithm/KMP.java:354-368 | the backward search as its documentation describes it: under equality, the last occurrence at or before `start`, or -1 exactly when there is none; only `start < 0` is rejected |
| Kmp.SearchBothWays | src/main/java/com/github/zhitron/algorithm/KMP.java:316-360 | under equality, a forward search from 0 and a corrected backward search from the last alignment find an occurrence together or not at all, the first result is never after the last, and both name the only occurrence when there is one |
| KmpExamples.NewMatcher | src/main/java/com/github/zhitron/algorithm/KMP.java:267-303 | configuring a new matcher with the four setters over sequences `s` and `p` describes exactly `s` and `p`, compared by equality |
| KmpExamples.FailureTableABABC | src/test/java/com/github/zhitron/algorithm/KMPTest.java:233-236 | the failure table of "ABABC" is [-1, 0, 0, 1, 2] |
| KmpExamples.GenerateNextABABC | src/test/java/com/github/zhitron/algorithm/KMPTest.java:233-236 | `generateNext(5, (i, j) -> p[i] == p[j])` on "ABABC" yields [-1, 0, 0, 1, 2] |
| KmpExamples.IndexOfFromStarts | src/test/java/com/github/zhitron/algorithm/KMPTest.java:46-52 | "AB" in "ABABC": `indexOf` from 0, 1, 2 and 3 gives 0, 2, 2 and -1 |
| KmpExamples.DegenerateInputs | src/test/java/com/github/zhitron/algorithm/KMPTest.java:54-70 | an empty pattern, an empty subject or a pattern longer than the subject give -1 in both directions, as at lines 54-70, 117-132, 152-162 and 207-223 of the same file; the backward call on the too-long pattern uses `start` 2, so it is the `m > n` guard, not `start <= 0`, that answers |
| KmpExamples.LastIndexOfFromEnd | src/test/java/com/github/zhitron/algorithm/KMPTest.java:142-171 | `lastIndexOf` gives 5 from 8 and 2 from 4 for "ABC" in "ABABCABC", and 3 from 5 for "AB" in "ABCAB" |
| KmpExamples.IndexOfInABCDE | src/test/java/com/github/zhitron/algorithm/KMPTest.java:25-33 | in "ABCDE", `indexOf(0)` finds "AB" at 0 and "CD" at 2 |
| KmpExamples.IndexOfInABCDEEnd | src/test/java/com/github/zhitron/algorithm/KMPTest.java:35-43 | in "ABCDE", `indexOf(0)` finds "DE" at 3 and "FG" nowhere (-1) |
| KmpExamples.FirstOccurrencesOfABC | src/test/java/com/github/zhitron/algorithm/KMPTest.java:73-79 | in "ABABCABC" the first occurrence of "ABC" from 0 is 2 and from 3 is 5 |
| KmpExamples.IndexOfCharArrays | src/test/java/com/github/zhitron/algorithm/KMPTest.java:73-79 | `indexOf(0)` and `indexOf(3)` for "ABC" in "ABABCABC" give 2 and 5 |
| KmpExamples.IndexOfNotFound | src/test/java/com/github/zhitron/algorithm/KMPTest.java:81-84 | `indexOf(0)` for "XYZ" in "ABABCABC" gives -1 |
| KmpExamples.LastIndexOfAbsent | src/test/java/com/github/zhitron/algorithm/KMPTest.java:147-176 | `lastIndexOf` from the end gives -1 for "FG" in "ABCAB" and for "XYZ" in "ABABCABC" |
| KmpExamples.LastIndexOfPhantomMatch | src/main/java/com/github/zhitron/algorithm/KMP.java:378-381 | `lastIndexOf(6)` for "ABAB" in "XBABAX" answers 0, which is not an occurrence; the corrected search answers -1 |
| KmpExamples.LastIndexOfAtZero | src/main/java/com/github/zhitron/algorithm/KMP.java:367 | `lastIndexOf(0)` for "AB" in "ABC" answers -1 although the pattern occurs at 0; the corrected search answers 0 |

## Left out

- The `of(...)` factories (`KMP.java:46-208`) are left out. They adapt Java arrays and lists, with `null` read as length 0, into length/accessor pairs. The model sets the fields directly with the setters, as `KmpExamples.NewMatcher` does.
- The `float` and `double` comparators of those factories are left out: they use floating-point comparison.
- `TwicePredicateInt` comes from another library. Here it is a partial function `(int, int) --> bool`, defined on the pattern's indices.
- The two-argument range forms `indexOf(start, end)` and `lastIndexOf(start, end)` are called by the tests. They have no implementation in `KMP.java`, so they are not part of this model.
- The getters `getInputLength` and `getTargetLength` are left out: they only read a field.
- The setters' fluent `return this` is left out: the Dafny setters return nothing.
- Setting a field back to `null` after it was set is left out.
- A supplier is modelled by the one value it supplies. A supplier whose value changes between calls is not captured.
- Lengths are `nat`: a supplier returning a negative length is not modelled. The factories never supply one.
- Java's 32-bit `int` is not modelled. Indices are unbounded, and the index arithmetic cannot wrap for sequences shorter than 2^31 elements.
- The test suite's list, `int` and `byte` cases (`KMPTest.java:98-115`, `189-205`) are not derived as examples. The case-insensitive test (`KMPTest.java:243-251`) cannot be derived: under a comparator other than equality only bounds are proved.
- The element comparator is modelled as a total, side-effect-free function.
- Kmp.GenerateNext: requires `length >= 1`. With `length == 0` the Java method throws when it writes `next[0]` into an empty array, and both callers exclude that case.
- Kmp.KMP.IndexOf: requires both accessors set, although the Java method returns -1 without reading them when a guard applies (an empty subject or pattern, a pattern longer than the subject, `start >= n`). Such a partly configured call is not modelled.
- Kmp.KMP.LastIndexOf: requires both accessors set, although the Java method returns -1 without reading them when a guard applies (an empty subject or pattern, a pattern longer than the subject, `start <= 0`). Such a partly configured call is not modelled.
- Kmp.KMP.IndexOf: correctness is proved only when the comparator is equality. For a general equivalence such as `String::equalsIgnoreCase` (the case-insensitive test) only the guards, the bounds, in-bounds reads and termination are proved.
- Kmp.KMP.LastIndexOf: states its result as `BackwardSearch` rather than as an occurrence, because the code does not return only occurrences (see Findings).
- Kmp.KMP.LastIndexOfCorrected: a plain backward scan that shifts by one on a mismatch. It is not linear-time.
- Running time: the linear-time bound of the forward algorithm is not modelled.

## Findings

| source | as written | input that shows it | evidently intended | confidence | as-written member | corrected member |
|---|---|---|---|---|---|---|
| src/main/java/com/github/zhitron/algorithm/KMP.java:378-381 | on a mismatch the backward scan moves the anchor left by `j - next[j]` and takes `next[j]` elements as matched, reusing the forward failure table | subject "XBABAX", pattern "ABAB", `lastIndexOf(6)` returns 0, but the pattern occurs nowhere | return the last occurrence at or before `start`, or -1 | not executed | KmpExamples.LastIndexOfPhantomMatch | Kmp.KMP.LastIndexOfCorrected |
| src/main/java/com/github/zhitron/algorithm/KMP.java:367 | `start <= 0` returns -1 | subject "ABC", pattern "AB", `lastIndexOf(0)` returns -1 although the pattern occurs at index 0 | only a negative `start` gives -1, so an occurrence at 0 is found from 0 | not executed | KmpExamples.LastIndexOfAtZero | Kmp.KMP.LastIndexOfCorrected |
