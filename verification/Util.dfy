/** Chunk-size text (haha_web/base/util.cpp). The radix is a parameter; the code uses 10. */
module Util {
  import opened Text

  const INT_MAX := 0x7FFF_FFFF

  /** Conversion of a mathematical integer to a 32-bit int. */
  function Wrap32(x: int): (r: int)
    ensures -0x8000_0000 <= r <= INT_MAX
    ensures -0x8000_0000 <= x <= INT_MAX ==> r == x
  {
    var m := x % 0x1_0000_0000;
    if m > INT_MAX then m - 0x1_0000_0000 else m
  }

  predicate IsXDigit(c: char) {
    '0' <= c <= '9' || 'a' <= c <= 'f' || 'A' <= c <= 'F'
  }

  /** hex2dec: any ASCII letter has a value, whatever isxdigit says. */
  function Hex2Dec(c: char): (r: nat)
    ensures IsXDigit(c) ==> r < 16
  {
    if '0' <= c <= '9' then (c - '0') as int
    else if 'a' <= c <= 'z' then (c - 'a') as int + 10
    else if 'A' <= c <= 'Z' then (c - 'A') as int + 10
    else c as int
  }

  function Dec2Hex(d: nat): (c: char)
    requires d < 16
    ensures IsXDigit(c) && Hex2Dec(c) == d
  {
    if d <= 9 then '0' + d as char else 'A' + (d - 10) as char
  }

  /** hexString2Int: the loop's accumulator after the digits s, -1 at the first non-digit or overflow. */
  function HexFrom(radix: nat, acc: int, s: string): int
    decreases |s|
  {
    if s == "" then acc
    else if !IsXDigit(s[0]) then -1
    else
      var next := Wrap32(acc * radix + Hex2Dec(s[0]));
      if next < 0 then -1 else HexFrom(radix, next, s[1..])
  }

  function HexString2Int(radix: nat, s: string): int { HexFrom(radix, 0, s) }

  /** The digits int2HexString produces, most significant first; no digits for zero. */
  function Int2Hex(radix: nat, n: nat): string
    requires 2 <= radix <= 16
  {
    if n == 0 then "" else Int2Hex(radix, n / radix) + [Dec2Hex(n % radix)]
  }

  /** int2HexString: digits are collected from the right, then reversed. */
  method Int2HexString(radix: nat, dec: nat) returns (hex: string)
    requires 2 <= radix <= 16
    ensures hex == Int2Hex(radix, dec)
  {
    var rev := "";
    var n: nat := dec;
    hide Dec2Hex, Hex2Dec, IsXDigit, Int2Hex, Reverse;
    Int2HexStart(radix, dec);
    while n != 0
      invariant Int2Hex(radix, dec) == Int2Hex(radix, n) + Reverse(rev)
    {
      Int2HexTurn(radix, n, rev);
      rev := rev + [Dec2Hex(n % radix)];
      n := n / radix;
    }
    Int2HexStart(radix, 0);
    hex := Reverse(rev);
  }

  lemma Int2HexStart(radix: nat, n: nat)
    requires 2 <= radix <= 16
    ensures Int2Hex(radix, 0) == "" && Int2Hex(radix, n) + Reverse("") == Int2Hex(radix, n)
  {
  }

  lemma Int2HexTurn(radix: nat, n: nat, rev: string)
    requires 2 <= radix <= 16 && n != 0
    ensures n / radix < n
    ensures Int2Hex(radix, n) + Reverse(rev) == Int2Hex(radix, n / radix) + Reverse(rev + [Dec2Hex(n % radix)])
  {
    hide Dec2Hex, Hex2Dec, IsXDigit;
    ReverseSnoc(rev, Dec2Hex(n % radix));
  }

  function Reverse(s: string): string {
    if s == "" then "" else Reverse(s[1..]) + [s[0]]
  }

  lemma {:induction false} ReverseSnoc(s: string, c: char)
    ensures Reverse(s + [c]) == [c] + Reverse(s)
  {
    if s != "" {
      assert (s + [c])[1..] == s[1..] + [c];
      ReverseSnoc(s[1..], c);
    }
  }

  /** hexString2Int over its input, as the source loops. */
  method ParseHexString(radix: nat, s: string) returns (res: int)
    ensures res == HexString2Int(radix, s)
  {
    res := 0;
    for i := 0 to |s|
      invariant res >= 0 && HexString2Int(radix, s) == HexFrom(radix, res, s[i..])
    {
      assert s[i..][1..] == s[i + 1..];
      if !IsXDigit(s[i]) {
        return -1;
      }
      res := Wrap32(res * radix + Hex2Dec(s[i]));
      if res < 0 {
        return -1;
      }
    }
  }

  lemma {:induction false} HexSnoc(radix: nat, acc: int, s: string, c: char)
    requires acc >= 0
    ensures HexFrom(radix, acc, s + [c]) ==
      var x := HexFrom(radix, acc, s); if x < 0 then -1 else HexFrom(radix, x, [c])
    decreases |s|
  {
    if s != "" {
      assert (s + [c])[0] == s[0] && (s + [c])[1..] == s[1..] + [c];
      if IsXDigit(s[0]) {
        var next := Wrap32(acc * radix + Hex2Dec(s[0]));
        if next >= 0 {
          HexSnoc(radix, next, s[1..], c);
        }
      }
    } else {
      assert s + [c] == [c];
    }
  }

  lemma HexOne(radix: nat, acc: nat, c: char)
    requires IsXDigit(c) && acc * radix + Hex2Dec(c) <= INT_MAX
    ensures HexFrom(radix, acc, [c]) == acc * radix + Hex2Dec(c)
  {
    hide Wrap32, Hex2Dec, IsXDigit;
    assert [c][1..] == "";
  }

  lemma Recompose(radix: nat, n: nat)
    requires 2 <= radix
    ensures n / radix * radix + n % radix == n
  {
  }

  /** Reading back a printed size gives the size, in any radix the digits allow. */
  lemma {:induction false} HexRoundTrip(radix: nat, n: nat)
    requires 2 <= radix <= 16 && n <= INT_MAX
    ensures HexString2Int(radix, Int2Hex(radix, n)) == n
  {
    hide Wrap32, Dec2Hex, Hex2Dec, IsXDigit;
    if n != 0 {
      var m, d := n / radix, n % radix;
      HexRoundTrip(radix, m);
      HexSnoc(radix, 0, Int2Hex(radix, m), Dec2Hex(d));
      Recompose(radix, n);
      HexOne(radix, m, Dec2Hex(d));
    }
  }

  lemma {:induction false} HexDigits(radix: nat, n: nat)
    requires 2 <= radix <= 16
    ensures forall c <- Int2Hex(radix, n) :: IsXDigit(c)
  {
    if n != 0 {
      HexDigits(radix, n / radix);
    }
  }

  predicate AllXDigits(s: string) { forall c <- s :: IsXDigit(c) }

  predicate OnlyLastNonZero(s: string) { forall i :: 0 <= i < |s| - 1 ==> s[i] == '0' }

  /** The code reads chunk sizes in radix 10 where section 7.1 of RFC 9112 writes them in 16: of the
      texts that cannot overflow, exactly those whose digits before the last are all 0 agree. */
  lemma {:induction false} RadixTenAgreesIff(s: string)
    requires AllXDigits(s) && |s| <= 7
    ensures HexString2Int(10, s) == HexString2Int(16, s) <==> OnlyLastNonZero(s)
  {
    HexGap(s);
  }

  /** The two readings of s, the second being larger unless only the last digit counts. */
  lemma {:induction false} HexGap(s: string)
    requires AllXDigits(s) && |s| <= 7
    ensures 0 <= HexString2Int(10, s) <= HexString2Int(16, s) < Pow16(|s|)
    ensures HexString2Int(10, s) == HexString2Int(16, s) <==> OnlyLastNonZero(s)
    ensures HexString2Int(16, s) == 0 <==> forall i :: 0 <= i < |s| ==> s[i] == '0'
  {
    hide Wrap32;
    if s != "" {
      var init, c := s[..|s| - 1], s[|s| - 1];
      assert s == init + [c];
      HexGap(init);
      var a, b := HexString2Int(10, init), HexString2Int(16, init);
      Pow16Bound(|init|);
      assert HexString2Int(10, s) == a * 10 + Hex2Dec(c) by {
        HexSnoc(10, 0, init, c);
        HexOne(10, a, c);
      }
      assert HexString2Int(16, s) == b * 16 + Hex2Dec(c) by {
        HexSnoc(16, 0, init, c);
        HexOne(16, b, c);
      }
      assert c in s && IsXDigit(c);
      assert Hex2Dec(c) == 0 <==> c == '0';
      assert forall i :: 0 <= i < |init| ==> init[i] == s[i];
    }
  }

  lemma Pow16Bound(n: nat)
    requires n <= 6
    ensures 16 * Pow16(n) <= 0x1000_0000
  {
    if n > 0 {
      Pow16Bound(n - 1);
    }
    assert n < 3 ==> Pow16(n) <= 256;
    assert 3 <= n < 6 ==> Pow16(n) == 4096 * Pow16(n - 3);
  }

  function Pow16(n: nat): nat { if n == 0 then 1 else 16 * Pow16(n - 1) }
}
