/** The loop states of the table builder and of the forward scan, and the
    facts that each step of those loops keeps them. */
module LoopStates {
  import opened Borders

  /** The table builder's state after processing `p[..i+1]`: `t[0]` is the
      sentinel, entries 1 to `i` are final, `j` is -1 or a border of `p[..i]`,
      and no longer border of `p[..i]` is followed by `p[i]`. */
  ghost predicate BuilderState<T>(p: seq<T>, t: seq<int>, i: int, j: int)
  {
    0 <= i < |p| == |t| && -1 <= j < i && t[0] == -1 &&
    (forall k :: 1 <= k <= i ==> IsLongestBorder(p, k, t[k])) &&
    (j == -1 || IsBorder(p, i, j)) &&
    (forall b {:trigger IsBorder(p, i, b)} :: j < b < i && IsBorder(p, i, b) ==> p[b] != p[i])
  }

  /** On a match (or from the sentinel) the builder advances both indices and
      records `j + 1` as the entry for `i + 1`. */
  lemma BuilderExtend<T>(p: seq<T>, t: seq<int>, i: int, j: int)
    requires BuilderState(p, t, i, j) && i < |p| - 1 && (j == -1 || p[j] == p[i])
    ensures BuilderState(p, t[i + 1 := j + 1], i + 1, j + 1)
  {
    TableExtendStep(p, i, j);
  }

  /** On a mismatch the builder falls back from `j` to the entry `t[j]`. */
  lemma BuilderRetreat<T>(p: seq<T>, t: seq<int>, i: int, j: int)
    requires BuilderState(p, t, i, j) && 0 <= j && p[j] != p[i]
    ensures BuilderState(p, t, i, t[j])
  {
    TableRetreatStep(p, i, j, t[j]);
  }

  /** Once the last index is reached, the table is complete. */
  lemma BuilderDone<T>(p: seq<T>, t: seq<int>, i: int, j: int)
    requires BuilderState(p, t, i, j) && i == |p| - 1
    ensures IsFailureTable(p, t)
  {
  }

  /** The forward scan's state: `t` is the failure table, `p[..j]` matches
      the subject just before `s[i]`, and no occurrence starts in
      `[from, i - j)`. */
  ghost predicate ForwardState<T>(s: seq<T>, p: seq<T>, t: seq<int>, from: int, i: int, j: int)
  {
    IsFailureTable(p, t) && 0 <= from <= i - j && i <= |s| && -1 <= j <= |p| &&
    (j >= 0 ==> MatchesAt(s, p, i - j, j)) &&
    forall k :: from <= k < i - j ==> !Occurs(s, p, k)
  }

  /** On a match (or from the sentinel) the scan advances in both sequences. */
  lemma ForwardMatch<T>(s: seq<T>, p: seq<T>, t: seq<int>, from: int, i: int, j: int)
    requires ForwardState(s, p, t, from, i, j) && i < |s| && j < |p|
    requires j == -1 || s[i] == p[j]
    ensures ForwardState(s, p, t, from, i + 1, j + 1)
  {
    if j >= 0 {
      MatchesAtExtend(s, p, i - j, j);
    }
  }

  /** On a mismatch the scan keeps its subject position and falls back to `j' == t[j]`. */
  lemma ForwardMismatch<T>(s: seq<T>, p: seq<T>, t: seq<int>, from: int, i: int, j: int, j': int)
    requires ForwardState(s, p, t, from, i, j) && i < |s| && 0 <= j < |p|
    requires s[i] != p[j] && j' == t[j]
    ensures ForwardState(s, p, t, from, i, j')
  {
    RetreatSkipsNoOccurrence(s, p, i, j, t[j]);
  }

  /** When the scan stops, it has found the first occurrence from `from`
      (the whole pattern is matched) or proved there is none (the subject is
      exhausted). */
  lemma ForwardDone<T>(s: seq<T>, p: seq<T>, t: seq<int>, from: int, i: int, j: int)
    requires ForwardState(s, p, t, from, i, j) && (i == |s| || j == |p|)
    ensures IsFirstOccurrence(s, p, from, if j == |p| then i - j else -1)
  {
    if j < |p| {
      forall k | from <= k
        ensures !Occurs(s, p, k)
      {
        if i - j <= k {
          assert k + |p| > |s|;
        }
      }
    }
  }
}
