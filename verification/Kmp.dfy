/** Knuth-Morris-Pratt search (haha_web/base/stringView.cpp). */
module Kmp {
  import opened Text
  import Util

  /** t[..b] is a proper prefix and a suffix of t[..n]. */
  predicate IsBorder(t: string, n: nat, b: nat)
    requires n <= |t|
  {
    b < n && forall k :: 0 <= k < b ==> t[k] == t[n - b + k]
  }

  ghost predicate IsLongestBorder(t: string, n: nat, b: nat)
    requires n <= |t|
  {
    IsBorder(t, n, b) && forall c: nat :: IsBorder(t, n, c) ==> c <= b
  }

  /** next[0] is -1, and next[k] the longest proper border of t[..k]. */
  ghost predicate IsNext(t: string, next: seq<int>) {
    |next| == |t| && (next != [] ==> next[0] == -1)
    && forall k :: 1 <= k < |next| ==> next[k] >= 0 && IsLongestBorder(t, k, next[k])
  }

  /** Two borders of one prefix: the shorter is a border of the longer. */
  lemma BorderOfBorder(t: string, n: nat, c: nat, b: nat)
    requires n <= |t| && IsBorder(t, n, c) && IsBorder(t, n, b) && b < c
    ensures IsBorder(t, c, b)
  {
    forall k | 0 <= k < b
      ensures t[k] == t[c - b + k]
    {
      assert t[c - b + k] == t[n - c + (c - b + k)];
    }
  }

  lemma BorderTrans(t: string, n: nat, c: nat, b: nat)
    requires n <= |t| && IsBorder(t, n, c) && IsBorder(t, c, b)
    ensures IsBorder(t, n, b)
  {
    forall k | 0 <= k < b
      ensures t[k] == t[n - b + k]
    {
      assert t[c - b + k] == t[n - c + (c - b + k)];
    }
  }

  /** A border of t[..i + 1] is a border of t[..i] extended by one byte. */
  lemma BorderShrinks(t: string, i: nat, b: nat)
    requires i < |t| && b > 0
    ensures IsBorder(t, i + 1, b) <==> IsBorder(t, i, b - 1) && t[b - 1] == t[i]
  {
    if IsBorder(t, i, b - 1) && t[b - 1] == t[i] {
      forall k | 0 <= k < b
        ensures t[k] == t[i + 1 - b + k]
      {
        assert k < b - 1 ==> t[k] == t[i - (b - 1) + k];
      }
    }
    if IsBorder(t, i + 1, b) {
      assert t[b - 1] == t[i + 1 - b + (b - 1)];
    }
  }

  /** No border of t[..i] longer than j can be extended. */
  ghost predicate OnlyUpTo(t: string, i: nat, j: int)
    requires i < |t|
  {
    forall b: nat :: IsBorder(t, i, b) && t[b] == t[i] ==> b <= j
  }

  lemma ExtendBorder(t: string, i: nat, j: int)
    requires i + 1 < |t| && OnlyUpTo(t, i, j)
    requires j == -1 || (j >= 0 && IsBorder(t, i, j) && t[j] == t[i])
    ensures IsLongestBorder(t, i + 1, j + 1)
  {
    if j >= 0 {
      BorderShrinks(t, i, j + 1);
    }
    var n := i + 1;
    forall c: nat | IsBorder(t, n, c)
      ensures c <= j + 1
    {
      if c > 0 {
        BorderShrinks(t, i, c);
      }
    }
  }

  lemma FallBack(t: string, i: nat, j: nat, next: seq<int>)
    requires i < |t| && IsBorder(t, i, j) && t[j] != t[i] && OnlyUpTo(t, i, j)
    requires j < |next| && (j == 0 ==> next[0] == -1)
    requires j > 0 ==> next[j] >= 0 && IsLongestBorder(t, j, next[j])
    ensures OnlyUpTo(t, i, next[j])
    ensures j > 0 ==> IsBorder(t, i, next[j])
  {
    forall b: nat | IsBorder(t, i, b) && t[b] == t[i]
      ensures b <= next[j]
    {
      assert b < j;
      BorderOfBorder(t, i, j, b);
    }
    if j > 0 {
      BorderTrans(t, i, j, next[j]);
    }
  }

  method GetNext(t: string, next: array<int>)
    requires 0 < |t| <= Util.INT_MAX && next.Length == |t|
    modifies next
    ensures IsNext(t, next[..])
  {
    assert OnlyUpTo(t, 0, -1);
    hide IsBorder;
    var i, j := 0, -1;
    next[0] := -1;
    while i < |t| - 1
      invariant 0 <= i < |t| && -1 <= j < |t| && (i == 0 ==> j == -1)
      invariant next[0] == -1
      invariant forall k :: 1 <= k <= i ==> next[k] >= 0 && IsLongestBorder(t, k, next[k])
      invariant OnlyUpTo(t, i, j)
      invariant j >= 0 ==> j < i && IsBorder(t, i, j)
      decreases |t| - i, j + 1
    {
      if j == -1 || t[i] == t[j] {
        ExtendBorder(t, i, j);
        i, j := i + 1, j + 1;
        next[i] := j;
        BorderIsProper(t, i, j);
      } else {
        FallBack(t, i, j, next[..]);
        NextIsSmaller(t, j, next[..]);
        j := next[j];
      }
    }
  }

  lemma BorderIsProper(t: string, n: nat, b: nat)
    requires n <= |t| && IsBorder(t, n, b)
    ensures b < n
  {
  }

  lemma NextIsSmaller(t: string, j: nat, next: seq<int>)
    requires j < |t| && j < |next| && (j == 0 ==> next[0] == -1)
    requires j > 0 ==> next[j] >= 0 && IsLongestBorder(t, j, next[j])
    ensures -1 <= next[j] < j
  {
  }

  // ---------------------------------------------------------------- searching

  predicate MatchAt(s: string, t: string, p: int) {
    0 <= p && p + |t| <= |s| && forall k :: 0 <= k < |t| ==> s[p + k] == t[k]
  }

  /** Naive search: try every position in turn. */
  function NaiveSearch(s: string, t: string, from: nat): (r: int)
    ensures r >= 0 ==> MatchAt(s, t, r) && forall p :: from <= p < r ==> !MatchAt(s, t, p)
    ensures r < 0 ==> r == -1 && forall p :: from <= p ==> !MatchAt(s, t, p)
    decreases |s| - from
  {
    if MatchAt(s, t, from) then from
    else if from >= |s| then -1
    else NaiveSearch(s, t, from + 1)
  }

  /** t[..j] has been matched ending at i, and t occurs nowhere before. */
  ghost predicate Matched(s: string, t: string, i: nat, j: int) {
    && i <= |s| && j <= |t|
    && (j >= 0 ==> j <= i && forall k :: 0 <= k < j ==> s[i - j + k] == t[k])
    && (forall p :: 0 <= p < i - j ==> !MatchAt(s, t, p))
  }

  lemma SkipAhead(s: string, t: string, i: nat, j: nat, next: seq<int>)
    requires Matched(s, t, i, j) && i < |s| && j < |t| && s[i] != t[j]
    requires IsNext(t, next)
    ensures -1 <= next[j] < j && Matched(s, t, i, next[j])
  {
    var b := next[j];
    forall p | 0 <= p < i - b
      ensures !MatchAt(s, t, p)
    {
      if p == i - j {
        assert p + |t| <= |s| ==> s[p + j] != t[j];
      } else if p > i - j {
        NoMatchBetween(s, t, i, j, p);
      }
    }
    if b >= 0 {
      forall k | 0 <= k < b
        ensures s[i - b + k] == t[k]
      {
        assert t[k] == t[j - b + k];
        assert s[i - j + (j - b + k)] == t[j - b + k];
      }
    }
  }

  /** An occurrence starting inside the matched part would be a border of it. */
  lemma NoMatchBetween(s: string, t: string, i: nat, j: nat, p: nat)
    requires Matched(s, t, i, j) && j < |t| && i - j < p < i
    ensures MatchAt(s, t, p) ==> IsBorder(t, j, i - p)
  {
    if MatchAt(s, t, p) {
      var b := i - p;
      forall k | 0 <= k < b
        ensures t[k] == t[j - b + k]
      {
        assert s[p + k] == t[k];
        assert s[i - j + (j - b + k)] == t[j - b + k];
      }
    }
  }

  lemma Advance(s: string, t: string, i: nat, j: int)
    requires Matched(s, t, i, j) && i < |s| && -1 <= j < |t|
    requires j == -1 || s[i] == t[j]
    ensures Matched(s, t, i + 1, j + 1)
  {
  }

  /** The first occurrence of t in s, or -1; `turns` counts the turns of the loop. */
  method KmpSearch(s: string, t: string) returns (r: int, ghost turns: nat)
    requires 0 < |t| <= Util.INT_MAX && |s| <= Util.INT_MAX
    ensures r == NaiveSearch(s, t, 0)
    ensures r >= 0 ==> MatchAt(s, t, r) && forall p :: 0 <= p < r ==> !MatchAt(s, t, p)
    ensures r < 0 ==> r == -1 && forall p :: !MatchAt(s, t, p)
    ensures turns <= 2 * |s|
  {
    var i, j := 0, 0;
    var next := new int[|t|];
    GetNext(t, next);
    turns := 0;
    hide IsNext;
    while j == -1 || (i < |s| && j < |t|)
      invariant 0 <= i <= |s| && -1 <= j <= |t| && (j == -1 ==> i < |s|)
      invariant Matched(s, t, i, j) && IsNext(t, next[..])
      invariant turns <= 2 * i - j
      decreases 2 * (|s| - i) + j
    {
      turns := turns + 1;
      if j == -1 || s[i] == t[j] {
        Advance(s, t, i, j);
        i, j := i + 1, j + 1;
      } else {
        SkipAhead(s, t, i, j, next[..]);
        j := next[j];
      }
    }
    if j == |t| {
      r := i - j;
      assert MatchAt(s, t, r);
    } else {
      r := -1;
      assert forall p :: MatchAt(s, t, p) ==> p < i - j;
    }
  }
}
