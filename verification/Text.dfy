/** Byte strings and the std::string_view searches the sources use.
    A byte is modelled as a Dafny character. */
module Text {

  datatype Option<+T> = None | Some(value: T) {
    function GetOr(default: T): T { if Some? then value else default }
  }

  /** The bytes at k and k+1 are CR LF. */
  predicate CrlfAt(s: string, k: int) {
    0 <= k && k + 1 < |s| && s[k] == '\r' && s[k + 1] == '\n'
  }

  /** view.find("\r\n"), with -1 for npos. */
  function FindCrlf(s: string): (r: int)
    ensures -1 <= r < |s|
    ensures r >= 0 ==> CrlfAt(s, r)
    ensures forall k :: CrlfAt(s, k) ==> 0 <= r <= k
  {
    if |s| < 2 then -1
    else if CrlfAt(s, 0) then 0
    else
      var r := FindCrlf(s[1..]);
      assert forall k :: CrlfAt(s, k) ==> k > 0 && CrlfAt(s[1..], k - 1);
      if r < 0 then -1 else r + 1
  }

  /** view.find_first_of(c, from). */
  function FindChar(s: string, c: char, from: nat): (r: int)
    ensures -1 <= r < |s|
    ensures r >= 0 ==> from <= r && s[r] == c
    ensures forall k :: from <= k < |s| && s[k] == c ==> 0 <= r <= k
    decreases |s| - from
  {
    if from >= |s| then -1
    else if s[from] == c then from
    else FindChar(s, c, from + 1)
  }

  /** view.find_first_not_of(c, from). */
  function FindNotChar(s: string, c: char, from: nat): (r: int)
    ensures -1 <= r < |s|
    ensures r >= 0 ==> from <= r && s[r] != c
    ensures forall k :: from <= k < |s| && s[k] != c ==> 0 <= r <= k
    decreases |s| - from
  {
    if from >= |s| then -1
    else if s[from] != c then from
    else FindNotChar(s, c, from + 1)
  }

  /** s.compare(0, |p|, p) == 0. */
  predicate StartsWith(s: string, p: string) {
    |p| <= |s| && s[..|p|] == p
  }

  /** s.find(p) != npos. */
  predicate Contains(s: string, p: string) {
    exists k {:trigger s[k..]} :: 0 <= k <= |s| && StartsWith(s[k..], p)
  }

  predicate IsDigit(c: char) { '0' <= c <= '9' }

  /** std::to_string of an int. */
  function IntText(i: int): string {
    if i < 0 then "-" + NatText(-i) else NatText(i)
  }

  function NatText(n: nat): (r: string)
    ensures r != "" && forall c <- r :: IsDigit(c)
  {
    var d := ['0' + (n % 10) as char];
    if n < 10 then d else NatText(n / 10) + d
  }

  function ToLower(c: char): char {
    if 'A' <= c <= 'Z' then c + ('a' - 'A') else c
  }

  function ToLowers(s: string): (r: string)
    ensures |r| == |s|
  {
    seq(|s|, i requires 0 <= i < |s| => ToLower(s[i]))
  }

  /** The same letter up to case: the codes of the two cases are 32 apart. */
  predicate SameLetter(a: char, b: char) {
    a == b || ('A' <= a <= 'Z' && b as int == a as int + 32) || ('A' <= b <= 'Z' && a as int == b as int + 32)
  }

  predicate SameUpToCase(s: string, t: string) {
    |s| == |t| && forall i :: 0 <= i < |s| ==> SameLetter(s[i], t[i])
  }

  predicate StartsUpToCase(s: string, p: string) { |p| <= |s| && SameUpToCase(s[..|p|], p) }

  predicate NoUpper(s: string) { forall i :: 0 <= i < |s| ==> !('A' <= s[i] <= 'Z') }

  /** ToLowers forgets the case and nothing else. */
  lemma LowersForget(s: string, t: string)
    ensures ToLowers(s) == ToLowers(t) <==> SameUpToCase(s, t)
    ensures SameUpToCase(ToLowers(s), s) && NoUpper(ToLowers(s))
  {
    if SameUpToCase(s, t) {
      assert forall i :: 0 <= i < |s| ==> ToLowers(s)[i] == ToLowers(t)[i];
    }
    if ToLowers(s) == ToLowers(t) {
      forall i | 0 <= i < |s|
        ensures SameLetter(s[i], t[i])
      {
        assert ToLowers(s)[i] == ToLowers(t)[i];
      }
    }
  }

  lemma LowerStays(s: string)
    requires NoUpper(s)
    ensures ToLowers(s) == s
  {
  }

  /** All the pieces, one after the other. */
  function Concat(pieces: seq<string>): string {
    if pieces == [] then "" else pieces[0] + Concat(pieces[1..])
  }

  lemma {:induction false} ConcatAppend(xs: seq<string>, ys: seq<string>)
    ensures Concat(xs + ys) == Concat(xs) + Concat(ys)
  {
    if xs == [] {
      assert xs + ys == ys;
    } else {
      assert (xs + ys)[1..] == xs[1..] + ys;
      ConcatAppend(xs[1..], ys);
    }
  }

  /** A later CRLF does not move the first one. */
  lemma FindCrlfExtend(p: string, q: string)
    requires FindCrlf(p) >= 0
    ensures FindCrlf(p + q) == FindCrlf(p)
  {
    var r := FindCrlf(p);
    assert CrlfAt(p + q, r);
    var f := FindCrlf(p + q);
    assert CrlfAt(p + q, f);
    assert f <= r;
    assert CrlfAt(p, f);
  }

  /** The first CRLF after a text that has none of its own. */
  lemma FindCrlfAfter(p: string, q: string)
    requires FindCrlf(p) < 0
    ensures FindCrlf(p + "\r\n" + q) == |p|
  {
    var s := p + "\r\n" + q;
    assert CrlfAt(s, |p|);
    assert !CrlfAt(p, FindCrlf(s));
  }

  lemma SliceAppend(p: string, q: string, n: nat)
    requires n <= |p|
    ensures (p + q)[..n] == p[..n]
    ensures (p + q)[n..] == p[n..] + q
  {
  }

  lemma CrlfAtAppend(p: string, q: string, n: nat)
    requires n + 1 < |p|
    ensures CrlfAt(p + q, n) == CrlfAt(p, n)
  {
  }
}
