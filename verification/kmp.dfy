/** The overlap matcher: a Knuth-Morris-Pratt variant that measures how far the
    end of one string runs into the start of another, together with the failure
    ("back-track") table it relies on. */
module Kmp {

  // ---------------------------------------------------------------------------
  // Reference definitions
  // ---------------------------------------------------------------------------

  /** The last k characters of a are the first k characters of b. */
  predicate IsOverlap(a: string, b: string, k: nat)
  {
    k <= |a| && k <= |b| && a[|a| - k..] == b[..k]
  }

  /** k is a border of w: w starts and ends with the same k characters. */
  predicate IsBorder(w: string, k: nat)
  {
    IsOverlap(w, w, k)
  }

  /** The longest overlap of a onto b that is at most `bound` characters long,
      found by trying the candidate lengths from the largest down. */
  function LongestOverlapUpTo(a: string, b: string, bound: nat): (r: nat)
    requires bound <= |a| && bound <= |b|
    ensures r <= bound && IsOverlap(a, b, r)
    ensures forall k :: r < k <= bound ==> !IsOverlap(a, b, k)
  {
    if bound == 0 || IsOverlap(a, b, bound) then bound
    else LongestOverlapUpTo(a, b, bound - 1)
  }

  function Min(x: int, y: int): int { if x <= y then x else y }

  /** The length of the longest suffix of a that is also a prefix of b. */
  function Overlap(a: string, b: string): nat
  {
    LongestOverlapUpTo(a, b, Min(|a|, |b|))
  }

  /** The length of the longest proper border of a non-empty string w. */
  function LongestProperBorder(w: string): nat
    requires |w| >= 1
  {
    LongestOverlapUpTo(w, w, |w| - 1)
  }

  // ---------------------------------------------------------------------------
  // Properties of the reference definitions
  // ---------------------------------------------------------------------------

  /** Overlap is the largest k for which the last k characters of a are the
      first k characters of b; no longer overlap exists. */
  lemma OverlapIsLongest(a: string, b: string)
    ensures IsOverlap(a, b, Overlap(a, b))
    ensures Overlap(a, b) <= |a| && Overlap(a, b) <= |b|
    ensures forall k :: Overlap(a, b) < k ==> !IsOverlap(a, b, k)
  {
  }

  /** One differing character inside the window rules out an overlap. */
  lemma MismatchRulesOut(a: string, b: string, k: nat, j: nat)
    requires k <= |a| && k <= |b| && j < k && a[|a| - k + j] != b[j]
    ensures !IsOverlap(a, b, k)
  {
    assert a[|a| - k..][j] == a[|a| - k + j];
  }

  /** Any overlap with no longer overlap above it is the Overlap. */
  lemma OverlapUnique(a: string, b: string, r: nat)
    requires IsOverlap(a, b, r)
    requires forall k :: r < k <= |a| ==> !IsOverlap(a, b, k)
    ensures Overlap(a, b) == r
  {
    OverlapIsLongest(a, b);
  }

  /** Any proper border with no longer proper border above it is the longest one. */
  lemma LongestProperBorderUnique(w: string, r: nat)
    requires r < |w| && IsBorder(w, r)
    requires forall k :: r < k < |w| ==> !IsBorder(w, k)
    ensures LongestProperBorder(w) == r
  {
    var l := LongestProperBorder(w);
    assert IsBorder(w, l) && IsOverlap(w, w, r);
  }

  /** A string overlaps itself completely. */
  lemma {:induction false} OverlapSelf(s: string)
    ensures Overlap(s, s) == |s|
  {
    assert IsOverlap(s, s, |s|);
  }

  /** Nothing overlaps from, or onto, the empty string. */
  lemma OverlapEmpty(s: string)
    ensures Overlap("", s) == 0 && Overlap(s, "") == 0
  {
  }

  /** Dropping all but the last |b| characters of a does not change its overlap
      onto b: no overlap is longer than b. */
  lemma {:induction false} OverlapOfTruncated(a: string, b: string)
    requires |a| > |b|
    ensures Overlap(a[|a| - |b|..], b) == Overlap(a, b)
  {
    var t := a[|a| - |b|..];
    forall k: nat | k <= |b|
      ensures IsOverlap(t, b, k) <==> IsOverlap(a, b, k)
    {
      assert t[|t| - k..] == a[|a| - k..];
    }
    OverlapIsLongest(a, b);
    OverlapUnique(t, b, Overlap(a, b));
  }

  /** A non-empty border of w[..p] is one character longer than a border of
      w[..p-1] that is followed by the character w[p-1]. */
  lemma BorderShrink(w: string, p: nat, b: nat)
    requires 1 <= b <= p <= |w|
    requires IsBorder(w[..p], b)
    ensures IsBorder(w[..p - 1], b - 1) && w[b - 1] == w[p - 1]
  {
    var u, v := w[..p], w[..p - 1];
    assert u[p - b..] == u[..b];
    assert u[p - 1] == u[..b][b - 1];
    assert v[p - 1 - (b - 1)..] == u[p - b..][..b - 1];
    assert v[..b - 1] == u[..b][..b - 1];
  }

  /** A border of w[..p-1] followed by w[p-1] extends to a border of w[..p]. */
  lemma BorderExtend(w: string, p: nat, c: nat)
    requires 1 <= p <= |w| && c < p - 1
    requires IsBorder(w[..p - 1], c) && w[c] == w[p - 1]
    ensures IsBorder(w[..p], c + 1)
  {
    var u, v := w[..p], w[..p - 1];
    assert v[p - 1 - c..] == v[..c];
    assert u[p - (c + 1)..] == v[p - 1 - c..] + [w[p - 1]];
    assert u[..c + 1] == v[..c] + [w[c]];
  }

  /** If x and y are borders of w with y <= x, then y is a border of the border
      w[..x], and conversely a border of w[..x] is a border of w. */
  lemma BorderOfBorder(w: string, x: nat, y: nat)
    requires y <= x <= |w| && IsBorder(w, x)
    ensures IsBorder(w, y) <==> IsBorder(w[..x], y)
  {
    var u := w[..x];
    assert w[|w| - x..] == u;
    assert u[x - y..] == w[|w| - y..];
    assert u[..y] == w[..y];
  }

  // ---------------------------------------------------------------------------
  // The back-track table
  // ---------------------------------------------------------------------------

  /** The state the table loop keeps: cnd is a proper border of s[..pos-1], and
      no border of s[..pos] is longer than cnd + 1. */
  predicate TableCandidate(s: string, pos: nat, cnd: nat)
    requires 2 <= pos <= |s|
  {
    cnd < pos - 1 &&
    IsBorder(s[..pos - 1], cnd) &&
    forall b :: cnd + 1 < b < pos ==> !IsBorder(s[..pos], b)
  }

  /** When s[pos-1] extends the candidate, the candidate plus one is the longest
      proper border of s[..pos], and it is the next candidate. */
  lemma MatchStep(s: string, pos: nat, cnd: nat)
    requires 2 <= pos < |s| && TableCandidate(s, pos, cnd)
    requires s[pos - 1] == s[cnd]
    ensures LongestProperBorder(s[..pos]) == cnd + 1
    ensures TableCandidate(s, pos + 1, cnd + 1)
  {
    BorderExtend(s, pos, cnd);
    LongestProperBorderUnique(s[..pos], cnd + 1);
    var u := s[..pos + 1];
    forall b: nat | cnd + 2 < b < pos + 1
      ensures !IsBorder(u, b)
    {
      if IsBorder(u, b) {
        BorderShrink(s, pos + 1, b);
      }
    }
    assert u[..pos] == s[..pos];
  }

  /** When s[pos-1] does not extend a non-empty candidate, the longest proper
      border of the candidate is again a candidate. */
  lemma FallbackStep(s: string, pos: nat, cnd: nat)
    requires 2 <= pos < |s| && TableCandidate(s, pos, cnd) && cnd > 0
    requires s[pos - 1] != s[cnd]
    ensures TableCandidate(s, pos, LongestProperBorder(s[..cnd]))
  {
    var next := LongestProperBorder(s[..cnd]);
    assert s[..pos - 1][..cnd] == s[..cnd];
    BorderOfBorder(s[..pos - 1], cnd, next);
    forall b: nat | next + 1 < b <= cnd + 1
      ensures !IsBorder(s[..pos], b)
    {
      if IsBorder(s[..pos], b) {
        BorderShrink(s, pos, b);
        BorderOfBorder(s[..pos - 1], cnd, b - 1);
      }
    }
  }

  /** When s[pos-1] does not extend the empty candidate, s[..pos] has no
      non-empty border, and the empty border is the next candidate. */
  lemma MismatchStep(s: string, pos: nat)
    requires 2 <= pos < |s| && TableCandidate(s, pos, 0)
    requires s[pos - 1] != s[0]
    ensures LongestProperBorder(s[..pos]) == 0
    ensures TableCandidate(s, pos + 1, 0)
  {
    if IsBorder(s[..pos], 1) {
      BorderShrink(s, pos, 1);
    }
    assert IsBorder(s[..pos], 0);
    LongestProperBorderUnique(s[..pos], 0);
    var u := s[..pos + 1];
    forall b: nat | 1 < b < pos + 1
      ensures !IsBorder(u, b)
    {
      if IsBorder(u, b) {
        BorderShrink(s, pos + 1, b);
      }
    }
    assert u[..pos] == s[..pos];
    assert IsBorder(u[..pos], 0);
  }

  /** Builds the failure table of pattern s: T[0] is -1 and, for 1 <= pos < |s|,
      T[pos] is the length of the longest proper border of s[..pos]. The first two
      entries are written unconditionally, so a pattern shorter than two
      characters is out of bounds. */
  method ComputeBackTrackTable(s: string) returns (T: array<int>)
    requires |s| >= 2
    ensures T.Length == |s| && T[0] == -1 && T[1] == 0
    ensures forall pos :: 1 <= pos < |s| ==> T[pos] == LongestProperBorder(s[..pos])
    ensures forall pos :: 1 <= pos < |s| ==> 0 <= T[pos] < pos
  {
    T := new int[|s|];
    var cnd: nat := 0;
    T[0] := -1;
    T[1] := 0;
    var pos := 2;
    assert IsBorder(s[..pos - 1], cnd);
    while pos < |s|
      invariant 2 <= pos <= |s| && TableCandidate(s, pos, cnd)
      invariant T.Length == |s| && T[0] == -1 && T[1] == 0
      invariant forall k :: 1 <= k < pos ==> T[k] == LongestProperBorder(s[..k]) && 0 <= T[k] < k
      decreases |s| - pos, cnd
    {
      if s[pos - 1] == s[cnd] {
        MatchStep(s, pos, cnd);
        T[pos] := cnd + 1;
        pos := pos + 1;
        cnd := cnd + 1;
      } else if cnd > 0 {
        FallbackStep(s, pos, cnd);
        cnd := T[cnd];
      } else {
        MismatchStep(s, pos);
        T[pos] := 0;
        pos := pos + 1;
      }
    }
  }

  // ---------------------------------------------------------------------------
  // The overlap matcher
  // ---------------------------------------------------------------------------

  /** The state the matcher loop keeps while sliding p along t (|t| <= |p|):
      the window starting at m has matched its first i characters, and no
      start position before m begins an overlap of t onto p. */
  predicate MatchState(t: string, p: string, m: nat, i: nat)
  {
    m + i <= |t| <= |p| &&
    t[m..m + i] == p[..i] &&
    forall k :: |t| - m < k <= |t| ==> !IsOverlap(t, p, k)
  }

  /** A matching character extends the window's match by one. */
  lemma AdvanceStep(t: string, p: string, m: nat, i: nat)
    requires MatchState(t, p, m, i) && m + i < |t| && p[i] == t[m + i]
    ensures MatchState(t, p, m, i + 1)
  {
    assert t[m..m + i + 1] == t[m..m + i] + [t[m + i]];
    assert p[..i + 1] == p[..i] + [p[i]];
  }

  /** A mismatch at the window's first character rules out its start position. */
  lemma RestartStep(t: string, p: string, m: nat)
    requires MatchState(t, p, m, 0) && m < |t| && p[0] != t[m]
    ensures MatchState(t, p, m + 1, 0)
  {
    assert t[m..][0] == t[m];
  }

  /** An overlap of t onto p that starts inside a window whose first i
      characters match p makes the part of the window it covers a border of the
      matched prefix p[..i]. */
  lemma OverlapInsideMatch(t: string, p: string, m: nat, i: nat, k: nat)
    requires m + i <= |t| <= |p| && t[m..m + i] == p[..i]
    requires |t| - (m + i) <= k <= |t| - m
    ensures IsOverlap(t, p, k) ==> IsBorder(p[..i], k - (|t| - (m + i)))
  {
    if IsOverlap(t, p, k) {
      var x, j, w := |t| - k, k - (|t| - (m + i)), p[..i];
      assert t[x..m + i] == t[x..][..j] == p[..k][..j] == w[..j];
      assert t[x..m + i] == t[m..m + i][i - j..];
    }
  }

  /** After a mismatch at t[m+i] against p[i] with 0 < i, sliding the window
      forward by i - b, where b is the longest proper border of the matched part
      p[..i], skips no start position of an overlap, and the first b characters
      of p are still matched. */
  lemma ShiftStep(t: string, p: string, m: nat, i: nat, b: nat)
    requires MatchState(t, p, m, i) && 0 < i && m + i < |t| && t[m + i] != p[i]
    requires b == LongestProperBorder(p[..i])
    ensures MatchState(t, p, m + i - b, b)
  {
    var w := p[..i];
    assert IsBorder(w, b);
    assert w[..b] == p[..b];
    assert t[m + i - b..m + i] == t[m..m + i][i - b..];
    forall k | |t| - (m + i - b) < k <= |t| - m
      ensures !IsOverlap(t, p, k)
    {
      if k < |t| - m {
        OverlapInsideMatch(t, p, m, i, k);
        assert !IsOverlap(w, w, k - (|t| - (m + i)));
      } else {
        assert t[m..][i] != p[..k][i];
      }
    }
  }

  /** When the window reaches the end of t, its match is the overlap. */
  lemma FinishStep(t: string, p: string, m: nat, i: nat)
    requires MatchState(t, p, m, i) && m + i == |t|
    ensures Overlap(t, p) == i
  {
    assert t[|t| - i..] == p[..i];
    OverlapUnique(t, p, i);
  }

  /** The length of the longest suffix of s1 that is a prefix of s2, computed by
      sliding s2 along the last |s2| characters of s1 and using the back-track
      table of s2 to skip start positions that cannot match. The table is built
      for s2 unconditionally, so s2 must be at least two characters long. */
  method OverlappedStringLength(s1: string, s2: string) returns (r: nat)
    requires |s2| >= 2
    ensures r == Overlap(s1, s2)
  {
    var t := s1;
    if |t| > |s2| {
      t := t[|t| - |s2|..];
    }
    var T := ComputeBackTrackTable(s2);
    var m: nat, i: nat := 0, 0;
    while m + i < |t|
      invariant MatchState(t, s2, m, i)
      modifies {}
      decreases |t| - m - i, i
    {
      if s2[i] == t[m + i] {
        AdvanceStep(t, s2, m, i);
        i := i + 1;
      } else {
        if i > 0 {
          ShiftStep(t, s2, m, i, T[i]);
        } else {
          RestartStep(t, s2, m);
        }
        m := m + i - T[i];
        if i > 0 {
          i := T[i];
        }
      }
    }
    FinishStep(t, s2, m, i);
    if |s1| > |s2| {
      OverlapOfTruncated(s1, s2);
    }
    r := i;
  }
}
