/** Clients of the matcher on the inputs of the repository's test suite,
    and the inputs that show where the backward search goes wrong. */
module KmpExamples {
  import opened Borders
  import opened BackwardScan
  import opened Kmp

  /** A matcher over the characters of `s` and `p`, configured as the
      factories for arrays configure it: lengths `|s|` and `|p|`, accessors
      indexing the two sequences, and the default (equality) comparator. */
  method NewMatcher(s: string, p: string) returns (kmp: KMP<char>)
    ensures kmp.Configured() && kmp.Input() == s && kmp.Target() == p
    ensures ComparesByEquality(kmp.compare, s, p)
  {
    kmp := new KMP<char>();
    kmp.SetInputLength(|s|);
    kmp.SetInputAccessor((k: int) requires 0 <= k < |s| => s[k]);
    kmp.SetTargetLength(|p|);
    kmp.SetTargetAccessor((k: int) requires 0 <= k < |p| => p[k]);
    assert kmp.Input() == s;
    assert kmp.Target() == p;
  }

  /** The failure table of "ABABC" is [-1, 0, 0, 1, 2]. */
  lemma FailureTableABABC()
    ensures FailureTable("ABABC") == [-1, 0, 0, 1, 2]
  {
    var p := "ABABC";
    var f := FailureTable(p);
    assert !IsBorder(p, 2, 1) by { assert !SameAt(p, p, 1, 0); }
    assert IsBorder(p, 3, 1) by { assert SameAt(p, p, 2, 0); }
    assert !IsBorder(p, 3, 2) by { assert !SameAt(p, p, 1, 0); }
    assert IsBorder(p, 4, 2) by { assert SameAt(p, p, 2, 0) && SameAt(p, p, 2, 1); }
    assert !IsBorder(p, 4, 3) by { assert !SameAt(p, p, 1, 0); }
    assert f == [f[0], f[1], f[2], f[3], f[4]];
  }

  /** The failure table of "ABAB" is [-1, 0, 0, 1]. */
  lemma FailureTableABAB()
    ensures FailureTable("ABAB") == [-1, 0, 0, 1]
  {
    var p := "ABAB";
    var f := FailureTable(p);
    assert !IsBorder(p, 2, 1) by { assert !SameAt(p, p, 1, 0); }
    assert IsBorder(p, 3, 1) by { assert SameAt(p, p, 2, 0); }
    assert !IsBorder(p, 3, 2) by { assert !SameAt(p, p, 1, 0); }
    assert f == [f[0], f[1], f[2], f[3]];
  }

  /** The backward search can answer an index where the pattern does not
      occur: in "XBABAX" the pattern "ABAB" occurs nowhere, yet the search
      from 6 answers 0. After matching "ABA" at anchor 2 and failing at
      j = 3, it takes next[3] = 1 elements at anchor 0 as matched without
      ever comparing subject element 0. */
  lemma BackwardSearchNotSound()
    ensures BackwardSearch("XBABAX", "ABAB", 6) == 0
    ensures forall k :: !Occurs("XBABAX", "ABAB", k)
  {
    var s, p := "XBABAX", "ABAB";
    FailureTableABAB();
    var f := FailureTable(p);
    calc {
      BackwardSearch(s, p, 6);
      LastScan(s, p, f, 2, 0);
      LastScan(s, p, f, 2, 1);
      LastScan(s, p, f, 2, 2);
      LastScan(s, p, f, 2, 3);
      { assert s[5] != p[3]; }
      LastScan(s, p, f, 0, 1);
      LastScan(s, p, f, 0, 2);
      LastScan(s, p, f, 0, 3);
      LastScan(s, p, f, 0, 4);
      0;
    }
    forall k
      ensures !Occurs(s, p, k)
    {
      if k == 0 {
        assert !SameAt(s, p, 0, 0);
      } else if k == 1 {
        assert !SameAt(s, p, 1, 0);
      } else if k == 2 {
        assert !SameAt(s, p, 2, 3);
      }
    }
  }

  /** The failure table of "ABC" is [-1, 0, 0]. */
  lemma FailureTableABC()
    ensures FailureTable("ABC") == [-1, 0, 0]
  {
    var p := "ABC";
    var f := FailureTable(p);
    assert !IsBorder(p, 2, 1) by { assert !SameAt(p, p, 1, 0); }
    assert f == [f[0], f[1], f[2]];
  }

  /** The values the test suite expects from `lastIndexOf`: on "ABABCABC"
      with pattern "ABC", 5 from 8 and 2 from 4; on "ABCAB" with pattern
      "AB", 3 from 5. */
  lemma BackwardSearchExamples()
    ensures BackwardSearch("ABABCABC", "ABC", 8) == 5
    ensures BackwardSearch("ABABCABC", "ABC", 4) == 2
    ensures BackwardSearch("ABCAB", "AB", 5) == 3
  {
    var s, p := "ABABCABC", "ABC";
    BackwardSearchFindsClampedStart(s, p, 8);
    FailureTableABC();
    var f := FailureTable(p);
    calc {
      BackwardSearch(s, p, 4);
      LastScan(s, p, f, 4, 0);
      { assert s[4] != p[0]; }
      LastScan(s, p, f, 3, -1);
      LastScan(s, p, f, 3, 0);
      { assert s[3] != p[0]; }
      LastScan(s, p, f, 2, -1);
      LastScan(s, p, f, 2, 0);
      LastScan(s, p, f, 2, 1);
      LastScan(s, p, f, 2, 2);
      LastScan(s, p, f, 2, 3);
      2;
    }
    BackwardSearchFindsClampedStart("ABCAB", "AB", 5);
  }

  /** Building the table of "ABABC" with character equality as the index
      predicate gives [-1, 0, 0, 1, 2]. */
  method GenerateNextABABC() returns (next: array<int>)
    ensures next[..] == [-1, 0, 0, 1, 2]
  {
    var p := "ABABC";
    next := GenerateNext(5, (a: int, b: int) requires 0 <= a < 5 && 0 <= b < 5 => p[a] == p[b], p);
    FailureTableUnique(p, next[..]);
    FailureTableABABC();
  }

  /** Forward searches for "AB" in "ABABC" from 0, 1, 2 and 3 answer 0, 2, 2
      and -1. */
  method IndexOfFromStarts() returns (r0: int, r1: int, r2: int, r3: int)
    ensures r0 == 0 && r1 == 2 && r2 == 2 && r3 == -1
  {
    var s, p := "ABABC", "AB";
    var kmp := NewMatcher(s, p);
    r0 := kmp.IndexOf(0);
    r1 := kmp.IndexOf(1);
    r2 := kmp.IndexOf(2);
    r3 := kmp.IndexOf(3);
    assert Occurs(s, p, 0) by { assert SameAt(s, p, 0, 0) && SameAt(s, p, 0, 1); }
    assert Occurs(s, p, 2) by { assert SameAt(s, p, 2, 0) && SameAt(s, p, 2, 1); }
    assert !Occurs(s, p, 1) by { assert !SameAt(s, p, 1, 0); }
    assert !Occurs(s, p, 3) by { assert !SameAt(s, p, 3, 0); }
    assert IsFirstOccurrence(s, p, 0, 0);
    FirstOccurrenceUnique(s, p, 0, r0, 0);
    assert IsFirstOccurrence(s, p, 1, 2);
    FirstOccurrenceUnique(s, p, 1, r1, 2);
    assert IsFirstOccurrence(s, p, 2, 2);
    FirstOccurrenceUnique(s, p, 2, r2, 2);
  }

  /** Forward searches in "ABCDE" from 0 find "AB" at its start (0) and "CD"
      in its middle (2). */
  method IndexOfInABCDE() returns (r0: int, r1: int)
    ensures r0 == 0 && r1 == 2
  {
    var s := "ABCDE";
    var a := NewMatcher(s, "AB");
    r0 := a.IndexOf(0);
    assert Occurs(s, "AB", 0) by { assert SameAt(s, "AB", 0, 0) && SameAt(s, "AB", 0, 1); }
    FirstOccurrenceUnique(s, "AB", 0, r0, 0);
    var b := NewMatcher(s, "CD");
    r1 := b.IndexOf(0);
    assert Occurs(s, "CD", 2) by { assert SameAt(s, "CD", 2, 0) && SameAt(s, "CD", 2, 1); }
    assert !Occurs(s, "CD", 0) by { assert !SameAt(s, "CD", 0, 0); }
    assert !Occurs(s, "CD", 1) by { assert !SameAt(s, "CD", 1, 0); }
    FirstOccurrenceUnique(s, "CD", 0, r1, 2);
  }

  /** Forward searches in "ABCDE" from 0 find "DE" at its end (3) and "FG"
      nowhere. */
  method IndexOfInABCDEEnd() returns (r2: int, r3: int)
    ensures r2 == 3 && r3 == -1
  {
    var s := "ABCDE";
    var c := NewMatcher(s, "DE");
    r2 := c.IndexOf(0);
    assert Occurs(s, "DE", 3) by { assert SameAt(s, "DE", 3, 0) && SameAt(s, "DE", 3, 1); }
    assert !Occurs(s, "DE", 0) by { assert !SameAt(s, "DE", 0, 0); }
    assert !Occurs(s, "DE", 1) by { assert !SameAt(s, "DE", 1, 0); }
    assert !Occurs(s, "DE", 2) by { assert !SameAt(s, "DE", 2, 0); }
    FirstOccurrenceUnique(s, "DE", 0, r2, 3);
    var d := NewMatcher(s, "FG");
    r3 := d.IndexOf(0);
    forall k | 0 <= k
      ensures !Occurs(s, "FG", k)
    {
      if k < |s| {
        assert !SameAt(s, "FG", k, 0);
      }
    }
    FirstOccurrenceUnique(s, "FG", 0, r3, -1);
  }

  /** In "ABABCABC" the first occurrence of "ABC" from 0 is at 2, and from 3
      it is at 5. */
  lemma FirstOccurrencesOfABC()
    ensures IsFirstOccurrence("ABABCABC", "ABC", 0, 2)
    ensures IsFirstOccurrence("ABABCABC", "ABC", 3, 5)
  {
    var s, p := "ABABCABC", "ABC";
    assert Occurs(s, p, 2) by { assert SameAt(s, p, 2, 0) && SameAt(s, p, 2, 1) && SameAt(s, p, 2, 2); }
    assert Occurs(s, p, 5) by { assert SameAt(s, p, 5, 0) && SameAt(s, p, 5, 1) && SameAt(s, p, 5, 2); }
    assert !Occurs(s, p, 0) by { assert !SameAt(s, p, 0, 2); }
    assert !Occurs(s, p, 1) by { assert !SameAt(s, p, 1, 0); }
    assert !Occurs(s, p, 3) by { assert !SameAt(s, p, 3, 0); }
    assert !Occurs(s, p, 4) by { assert !SameAt(s, p, 4, 0); }
  }

  /** Forward searches for "ABC" in "ABABCABC": from 0 it is found at 2, from
      3 at 5. */
  method IndexOfCharArrays() returns (r0: int, r1: int)
    ensures r0 == 2 && r1 == 5
  {
    var s, p := "ABABCABC", "ABC";
    var kmp := NewMatcher(s, p);
    r0 := kmp.IndexOf(0);
    r1 := kmp.IndexOf(3);
    FirstOccurrencesOfABC();
    FirstOccurrenceUnique(s, p, 0, r0, 2);
    FirstOccurrenceUnique(s, p, 3, r1, 5);
  }

  /** A forward search for "XYZ" in "ABABCABC" finds nothing. */
  method IndexOfNotFound() returns (r: int)
    ensures r == -1
  {
    var s := "ABABCABC";
    var other := NewMatcher(s, "XYZ");
    r := other.IndexOf(0);
    forall k | 0 <= k
      ensures !Occurs(s, "XYZ", k)
    {
      if k < |s| {
        assert !SameAt(s, "XYZ", k, 0);
      }
    }
    FirstOccurrenceUnique(s, "XYZ", 0, r, -1);
  }

  /** Backward searches from the end for patterns whose first element is
      absent: "FG" in "ABCAB" and "XYZ" in "ABABCABC" both answer -1. */
  method LastIndexOfAbsent() returns (r0: int, r1: int)
    ensures r0 == -1 && r1 == -1
  {
    var a := NewMatcher("ABCAB", "FG");
    r0 := a.LastIndexOf(5);
    BackwardSearchAbsentFirst("ABCAB", "FG", 5);
    var b := NewMatcher("ABABCABC", "XYZ");
    r1 := b.LastIndexOf(8);
    BackwardSearchAbsentFirst("ABABCABC", "XYZ", 8);
  }

  /** Searches with an empty pattern, an empty subject or a pattern longer
      than the subject answer -1 in both directions. */
  method DegenerateInputs() returns (r0: int, r1: int, r2: int, r3: int, r4: int, r5: int)
    ensures r0 == -1 && r1 == -1 && r2 == -1 && r3 == -1 && r4 == -1 && r5 == -1
  {
    var a := NewMatcher("ABC", "");
    r0 := a.IndexOf(0);
    r1 := a.LastIndexOf(3);
    var b := NewMatcher("", "A");
    r2 := b.IndexOf(0);
    r3 := b.LastIndexOf(0);
    var c := NewMatcher("AB", "ABCD");
    r4 := c.IndexOf(0);
    r5 := c.LastIndexOf(2);
  }

  /** The backward searches the test suite checks: "ABC" in "ABABCABC" from 8
      and from 4, and "AB" in "ABCAB" from 5. */
  method LastIndexOfFromEnd() returns (r0: int, r1: int, r2: int)
    ensures r0 == 5 && r1 == 2 && r2 == 3
  {
    var kmp := NewMatcher("ABABCABC", "ABC");
    r0 := kmp.LastIndexOf(8);
    r1 := kmp.LastIndexOf(4);
    var other := NewMatcher("ABCAB", "AB");
    r2 := other.LastIndexOf(5);
    BackwardSearchExamples();
  }

  /** The backward search answers 0 for "ABAB" in "XBABAX" from 6, where the
      pattern occurs nowhere; the corrected search answers -1. */
  method LastIndexOfPhantomMatch() returns (asWritten: int, corrected: int)
    ensures asWritten == 0 && !Occurs("XBABAX", "ABAB", asWritten)
    ensures corrected == -1
  {
    var kmp := NewMatcher("XBABAX", "ABAB");
    asWritten := kmp.LastIndexOf(6);
    corrected := kmp.LastIndexOfCorrected(6);
    BackwardSearchNotSound();
  }

  /** With `start` 0 the backward search answers -1 even though the pattern
      occurs at index 0; the corrected search answers 0. */
  method LastIndexOfAtZero() returns (asWritten: int, corrected: int)
    ensures asWritten == -1 && corrected == 0
    ensures Occurs("ABC", "AB", 0)
  {
    var s, p := "ABC", "AB";
    var kmp := NewMatcher(s, p);
    asWritten := kmp.LastIndexOf(0);
    corrected := kmp.LastIndexOfCorrected(0);
    assert Occurs(s, p, 0) by { assert SameAt(s, p, 0, 0) && SameAt(s, p, 0, 1); }
    assert IsLastOccurrence(s, p, 0, 0);
    LastOccurrenceUnique(s, p, 0, corrected, 0);
  }
}
