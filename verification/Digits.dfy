/** Hexadecimal digits by their place in the alphabet, in either case, and the numbers they write: what
    the conversions of haha_web/base/util.cpp and their users are held to. */
module Digits {
  import opened Text
  import opened Util

  const LOWER_DIGITS := "0123456789abcdef"
  const UPPER_DIGITS := "0123456789ABCDEF"

  predicate IsDigitOf(c: char, d: nat) { d < 16 && (LOWER_DIGITS[d] == c || UPPER_DIGITS[d] == c) }

  predicate DigitsOf(s: string, ds: seq<nat>) {
    |s| == |ds| && forall i :: 0 <= i < |s| ==> IsDigitOf(s[i], ds[i])
  }

  /** The number the digits write, the most significant first. */
  function PlaceValue(radix: nat, ds: seq<nat>): nat {
    if ds == [] then 0 else PlaceValue(radix, ds[..|ds| - 1]) * radix + ds[|ds| - 1]
  }

  /** A digit has its place in the alphabet as its value, whatever its case. */
  lemma DigitRead(c: char, d: nat)
    requires IsDigitOf(c, d)
    ensures IsXDigit(c) && Hex2Dec(c) == d
  {
    assert d < 10 ==> LOWER_DIGITS[d] == '0' + d as char && UPPER_DIGITS[d] == '0' + d as char;
    assert d >= 10 ==> LOWER_DIGITS[d] == 'a' + (d - 10) as char && UPPER_DIGITS[d] == 'A' + (d - 10) as char;
  }

  /** And there are no other digits. */
  lemma DigitSpelled(c: char)
    requires IsXDigit(c)
    ensures IsDigitOf(c, Hex2Dec(c))
  {
    var d := Hex2Dec(c);
    assert d < 10 ==> LOWER_DIGITS[d] == '0' + d as char;
    assert d >= 10 ==> LOWER_DIGITS[d] == 'a' + (d - 10) as char && UPPER_DIGITS[d] == 'A' + (d - 10) as char;
  }

  function ValuesOf(s: string): seq<nat> { seq(|s|, i requires 0 <= i < |s| => Hex2Dec(s[i])) }

  lemma DigitsSpelled(s: string)
    requires AllXDigits(s)
    ensures DigitsOf(s, ValuesOf(s))
  {
    forall i | 0 <= i < |s|
      ensures IsDigitOf(s[i], ValuesOf(s)[i])
    {
      assert s[i] in s;
      DigitSpelled(s[i]);
    }
  }

  lemma DigitsAreX(s: string, ds: seq<nat>)
    requires DigitsOf(s, ds)
    ensures AllXDigits(s)
  {
    forall c <- s
      ensures IsXDigit(c)
    {
      var i :| 0 <= i < |s| && s[i] == c;
      DigitRead(c, ds[i]);
    }
  }

  // ---------------------------------------------------------------- reading

  /** hexString2Int reads the number the digits write, as long as it is an int. */
  lemma {:induction false} NumberRead(radix: nat, s: string, ds: seq<nat>)
    requires DigitsOf(s, ds) && 1 <= radix && PlaceValue(radix, ds) <= INT_MAX
    ensures HexString2Int(radix, s) == PlaceValue(radix, ds)
    decreases |s|
  {
    hide IsDigitOf, IsXDigit, Hex2Dec, Wrap32;
    if s != "" {
      var n := |s| - 1;
      var front, c := s[..n], s[n];
      var high := PlaceValue(radix, ds[..n]);
      HighFits(radix, high, ds[n]);
      NumberRead(radix, front, ds[..n]);
      DigitRead(c, ds[n]);
      assert s == front + [c];
      HexSnoc(radix, 0, front, c);
      HexOne(radix, high, c);
    }
  }

  lemma HighFits(radix: nat, high: nat, d: nat)
    requires 1 <= radix
    ensures high <= high * radix + d
  {
  }

  const WORD := 0x1_0000_0000

  /** Some digits from the front make a number that a 32-bit int takes for a negative one. */
  predicate TurnsNegative(radix: nat, ds: seq<nat>) {
    exists n :: 0 <= n <= |ds| && PlaceValue(radix, ds[..n]) % WORD > INT_MAX
  }

  /** With as many digits as one likes it reads the number modulo the word, or -1 if that turns negative on
      the way. */
  lemma {:induction false} AnyNumberRead(radix: nat, s: string, ds: seq<nat>)
    requires DigitsOf(s, ds)
    ensures HexString2Int(radix, s) == if TurnsNegative(radix, ds) then -1 else PlaceValue(radix, ds) % WORD
    decreases |s|
  {
    hide IsDigitOf, Wrap32, TurnsNegative, HexString2Int, PlaceValue;
    if s == "" {
      NoneNegative(radix, ds);
      assert HexString2Int(radix, "") == 0 by { NothingRead(radix); }
    } else {
      var n := |s| - 1;
      var front, c, high := s[..n], s[n], PlaceValue(radix, ds[..n]);
      AnyNumberRead(radix, front, ds[..n]);
      assert s == front + [c];
      LastRead(radix, front, c, ds[n]);
      LastNegative(radix, ds);
      PlaceLast(radix, ds);
      WordRead(high, radix, ds[n]);
    }
  }

  lemma PlaceLast(radix: nat, ds: seq<nat>)
    requires ds != []
    ensures PlaceValue(radix, ds) == PlaceValue(radix, ds[..|ds| - 1]) * radix + ds[|ds| - 1]
  {
  }

  lemma WordRead(high: nat, radix: nat, d: nat)
    ensures var next, x := Wrap32(high % WORD * radix + d), (high * radix + d) % WORD;
      (next < 0 <==> x > INT_MAX) && (next >= 0 ==> next == x)
  {
    hide Wrap32;
    WordStep(high, radix, d);
    Wraps(high % WORD * radix + d);
  }

  lemma NothingRead(radix: nat)
    ensures HexString2Int(radix, "") == 0
  {
  }

  lemma LastRead(radix: nat, front: string, c: char, d: nat)
    requires IsDigitOf(c, d)
    ensures HexString2Int(radix, front + [c]) ==
      var x := HexString2Int(radix, front);
      if x < 0 || Wrap32(x * radix + d) < 0 then -1 else Wrap32(x * radix + d)
  {
    hide IsDigitOf, IsXDigit, Hex2Dec, Wrap32;
    DigitRead(c, d);
    HexSnoc(radix, 0, front, c);
    assert [c][1..] == "";
  }

  lemma NoneNegative(radix: nat, ds: seq<nat>)
    requires ds == []
    ensures !TurnsNegative(radix, ds) && PlaceValue(radix, ds) % WORD == 0
  {
  }

  lemma LastNegative(radix: nat, ds: seq<nat>)
    requires ds != []
    ensures TurnsNegative(radix, ds) <==>
      TurnsNegative(radix, ds[..|ds| - 1]) || PlaceValue(radix, ds) % WORD > INT_MAX
  {
    hide PlaceValue;
    var front := ds[..|ds| - 1];
    forall n: nat | n <= |front|
      ensures front[..n] == ds[..n]
    {
    }
    assert ds[..|ds|] == ds;
  }

  lemma WordStep(high: nat, radix: nat, d: nat)
    ensures (high % WORD * radix + d) % WORD == (high * radix + d) % WORD
  {
    var words, low := high / WORD, high % WORD;
    var k := words * radix;
    assert high == words * WORD + low;
    assert high * radix == k * WORD + low * radix;
    assert (k * WORD + (low * radix + d)) % WORD == (low * radix + d) % WORD;
  }

  lemma Wraps(x: nat)
    ensures Wrap32(x) < 0 <==> x % WORD > INT_MAX
    ensures Wrap32(x) >= 0 ==> Wrap32(x) == x % WORD
  {
  }

  /** A text with anything but digits in it is refused. */
  lemma {:induction false} OtherRefused(radix: nat, acc: int, s: string)
    requires !AllXDigits(s)
    ensures HexFrom(radix, acc, s) == -1
    decreases |s|
  {
    if IsXDigit(s[0]) {
      assert s == [s[0]] + s[1..];
      assert !AllXDigits(s[1..]);
      OtherRefused(radix, Wrap32(acc * radix + Hex2Dec(s[0])), s[1..]);
    }
  }

  // ---------------------------------------------------------------- writing

  /** int2HexString writes the digits of the number, in upper case and without a leading zero. */
  lemma {:induction false} NumberWritten(radix: nat, n: nat) returns (ds: seq<nat>)
    requires 2 <= radix <= 16
    ensures var t := Int2Hex(radix, n);
      |ds| == |t| && (forall i :: 0 <= i < |t| ==> ds[i] < radix && t[i] == UPPER_DIGITS[ds[i]])
    ensures PlaceValue(radix, ds) == n && (ds != [] ==> ds[0] != 0)
  {
    hide Dec2Hex;
    if n == 0 {
      ds := [];
    } else {
      var front := NumberWritten(radix, n / radix);
      ds := front + [n % radix];
      DigitWritten(n % radix);
      assert ds[..|ds| - 1] == front;
      Recompose(radix, n);
      FirstDigit(radix, n, front);
    }
  }

  lemma FirstDigit(radix: nat, n: nat, front: seq<nat>)
    requires 2 <= radix && n != 0 && PlaceValue(radix, front) == n / radix
    ensures front == [] ==> n % radix == n != 0
  {
    Recompose(radix, n);
  }

  lemma DigitWritten(d: nat)
    requires d < 16
    ensures Dec2Hex(d) == UPPER_DIGITS[d]
  {
    assert d < 10 ==> UPPER_DIGITS[d] == '0' + d as char;
    assert d >= 10 ==> UPPER_DIGITS[d] == 'A' + (d - 10) as char;
  }

  /** A number is printed in decimal, without a zero in front of other digits. */
  lemma {:induction false} DecimalWritten(n: nat) returns (ds: seq<nat>)
    ensures |ds| == |NatText(n)| > 0 && PlaceValue(10, ds) == n && (|ds| > 1 ==> ds[0] != 0)
    ensures forall i :: 0 <= i < |ds| ==> ds[i] < 10 && NatText(n)[i] == LOWER_DIGITS[ds[i]]
  {
    var d := n % 10;
    assert LOWER_DIGITS[d] == '0' + d as char;
    if n < 10 {
      ds := [n];
      assert ds[..0] == [];
    } else {
      var front := DecimalWritten(n / 10);
      ds := front + [d];
      assert ds[..|ds| - 1] == front;
      assert |front| == 1 ==> front[..0] == [] && front[0] == n / 10;
    }
  }

  /** Its digits are no more than its order of magnitude. */
  lemma {:induction false} DecimalLength(n: nat, k: nat)
    requires n < Pow10(k + 1)
    ensures |NatText(n)| <= k + 1
  {
    if k > 0 && n >= 10 {
      DecimalLength(n / 10, k - 1);
    }
  }

  function Pow10(k: nat): nat { if k == 0 then 1 else 10 * Pow10(k - 1) }
}
