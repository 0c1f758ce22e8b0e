/** Unicode escapes in JSON strings: what the parser makes of \uXXXX and of surrogate pairs
    (section 7 of RFC 8259), judged by a strict UTF-8 decoder (section 3 of RFC 3629). */
module JsonUnicode {
  import opened Text
  import opened JsonModel
  import Digits
  import Util

  /** A Unicode scalar value: a code point that is no surrogate. */
  predicate IsScalar(cp: nat) { cp < 0xD800 || 0xE000 <= cp <= 0x10FFFF }

  // ---------------------------------------------------------------- writing escapes

  function Nibbles(n: nat): seq<nat> { [n / 4096, n / 256 % 16, n / 16 % 16, n % 16] }

  /** Four hexadecimal digits, each in either case. */
  predicate IsHex4(t: string, n: nat) { Digits.DigitsOf(t, Nibbles(n)) }

  /** \uXXXX, or a surrogate pair beyond the basic plane. */
  predicate IsEscape(t: string, cp: nat)
    requires IsScalar(cp)
  {
    if cp < 0x1_0000 then |t| == 6 && t[..2] == "\\u" && IsHex4(t[2..], cp)
    else
      |t| == 12 && t[..2] == "\\u" && IsHex4(t[2..6], 0xD800 + (cp - 0x1_0000) / 1024)
      && t[6..8] == "\\u" && IsHex4(t[8..], 0xDC00 + (cp - 0x1_0000) % 1024)
  }

  /** Each text is an escape of its scalar value. */
  predicate AreEscapes(ts: seq<string>, cps: seq<nat>) {
    |ts| == |cps| && forall i :: 0 <= i < |ts| ==> IsScalar(cps[i]) && IsEscape(ts[i], cps[i])
  }

  // ---------------------------------------------------------------- a strict decoder

  predicate IsTail(c: char) { 0x80 <= c as int <= 0xBF }

  function Low6(c: char): nat
    requires IsTail(c)
  {
    c as int - 0x80
  }

  /** The scalar value at the front of s and the number of bytes it takes; None if s does not start
      with the shortest encoding of a scalar value. */
  function DecodeOne(s: string): (r: Option<(nat, nat)>)
    ensures r.Some? ==> IsScalar(r.value.0) && 1 <= r.value.1 <= |s|
  {
    if s == "" then None
    else
      var b := s[0] as int;
      if b < 0x80 then Some((b, 1))
      else if 0xC0 <= b < 0xE0 && |s| >= 2 && IsTail(s[1]) then
        var cp := (b - 0xC0) * 64 + Low6(s[1]);
        if cp >= 0x80 then Some((cp, 2)) else None
      else if 0xE0 <= b < 0xF0 && |s| >= 3 && IsTail(s[1]) && IsTail(s[2]) then
        var cp := ((b - 0xE0) * 64 + Low6(s[1])) * 64 + Low6(s[2]);
        if cp >= 0x800 && IsScalar(cp) then Some((cp, 3)) else None
      else if 0xF0 <= b < 0xF8 && |s| >= 4 && IsTail(s[1]) && IsTail(s[2]) && IsTail(s[3]) then
        var cp := (((b - 0xF0) * 64 + Low6(s[1])) * 64 + Low6(s[2])) * 64 + Low6(s[3]);
        if cp >= 0x1_0000 && IsScalar(cp) then Some((cp, 4)) else None
      else None
  }

  function Decode(s: string): Option<seq<nat>>
    decreases |s|
  {
    if s == "" then Some([])
    else
      match DecodeOne(s)
      case None => None
      case Some((cp, n)) =>
        match Decode(s[n..])
        case None => None
        case Some(cps) => Some([cp] + cps)
  }

  // ---------------------------------------------------------------- reading escapes

  lemma Hex4Read(t: string, n: nat)
    requires n < 0x1_0000 && IsHex4(t, n)
    ensures |t| == 4 && ParseHex4(t) == n
  {
    hide Digits.IsDigitOf, Util.IsXDigit, Util.Hex2Dec;
    Digits.DigitRead(t[0], n / 4096);
    Digits.DigitRead(t[1], n / 256 % 16);
    Digits.DigitRead(t[2], n / 16 % 16);
    Digits.DigitRead(t[3], n % 16);
    NibblesMake(n);
  }

  lemma NibblesMake(n: nat)
    ensures ((n / 4096 * 16 + n / 256 % 16) * 16 + n / 16 % 16) * 16 + n % 16 == n
  {
    var x, y := n / 16, n / 256;
    assert x / 16 == y && y / 16 == n / 4096;
    assert y == y / 16 * 16 + y % 16 && x == x / 16 * 16 + x % 16 && n == n / 16 * 16 + n % 16;
  }

  /** An escape in any casing is read as the encoding of its scalar value. */
  lemma EscapeRead(t: string, cp: nat, more: string)
    requires IsScalar(cp) && IsEscape(t, cp)
    ensures NextPiece(t + more) == Done(Utf8(cp), more)
  {
    hide IsHex4, ParseHex4, Utf8;
    var s := t + more;
    assert s[..2] == t[..2] == "\\u" && s[0] == s[..2][0] && s[1] == s[..2][1];
    if cp < 0x1_0000 {
      Hex4Read(t[2..], cp);
      assert s[2..6] == t[2..] && s[6..] == more;
    } else {
      var hi, lo := 0xD800 + (cp - 0x1_0000) / 1024, 0xDC00 + (cp - 0x1_0000) % 1024;
      Halves(cp);
      Hex4Read(t[2..6], hi);
      Hex4Read(t[8..], lo);
      assert s[2..6] == t[2..6] && s[6..8] == t[6..8] && s[8..12] == t[8..] && s[12..] == more;
      assert s[6] == s[6..8][0] && s[7] == s[6..8][1];
    }
  }

  lemma Halves(cp: nat)
    requires 0x1_0000 <= cp <= 0x10FFFF
    ensures var hi, lo := 0xD800 + (cp - 0x1_0000) / 1024, 0xDC00 + (cp - 0x1_0000) % 1024;
      hi <= 0xDBFF && 0x1_0000 + hi % 1024 * 1024 + lo % 1024 == cp
  {
    var n := cp - 0x1_0000;
    assert (0xD800 + n / 1024) % 1024 == n / 1024 && (0xDC00 + n % 1024) % 1024 == n % 1024;
  }

  lemma Utf8Decodes(cp: nat, more: string)
    requires IsScalar(cp)
    ensures DecodeOne(Utf8(cp) + more) == Some((cp, |Utf8(cp)|)) && Utf8(cp) != ""
  {
    if cp < 0x80 {
    } else if cp < 0x800 {
      TwoBytes(cp, more);
    } else if cp < 0x1_0000 {
      ThreeBytes(cp, more);
    } else {
      FourBytes(cp, more);
    }
  }

  lemma TwoBytes(cp: nat, more: string)
    requires 0x80 <= cp < 0x800
    ensures DecodeOne(Utf8(cp) + more) == Some((cp, 2))
  {
    var s := Utf8(cp) + more;
    assert s[0] == (0xC0 + cp / 64) as char && s[1] == Continuation(cp);
    assert cp / 64 * 64 + cp % 64 == cp;
  }

  lemma ThreeBytes(cp: nat, more: string)
    requires 0x800 <= cp < 0x1_0000 && IsScalar(cp)
    ensures DecodeOne(Utf8(cp) + more) == Some((cp, 3))
  {
    var s := Utf8(cp) + more;
    var x := cp / 64;
    assert x / 64 == cp / 4096;
    assert s[0] == (0xE0 + cp / 4096) as char && s[1] == Continuation(x) && s[2] == Continuation(cp);
    assert x / 64 * 64 + x % 64 == x && x * 64 + cp % 64 == cp;
  }

  lemma FourBytes(cp: nat, more: string)
    requires 0x1_0000 <= cp <= 0x10FFFF
    ensures DecodeOne(Utf8(cp) + more) == Some((cp, 4))
  {
    var s := Utf8(cp) + more;
    var x, y := cp / 64, cp / 4096;
    assert x / 64 == y && y / 64 == cp / 262144;
    assert s[0] == (0xF0 + cp / 262144) as char;
    assert s[1] == Continuation(y) && s[2] == Continuation(x) && s[3] == Continuation(cp);
    assert y / 64 * 64 + y % 64 == y && y * 64 + x % 64 == x && x * 64 + cp % 64 == cp;
  }

  /** The UTF-8 text of some scalar values. */
  function Utf8All(cps: seq<nat>): string
    requires forall cp <- cps :: IsScalar(cp)
  {
    if cps == [] then ""
    else
      assert IsScalar(cps[0]);
      Utf8(cps[0]) + Utf8All(cps[1..])
  }

  lemma {:induction false} Utf8AllDecodes(cps: seq<nat>)
    requires forall cp <- cps :: IsScalar(cp)
    ensures Decode(Utf8All(cps)) == Some(cps)
  {
    hide DecodeOne, Utf8;
    if cps != [] {
      var more := Utf8All(cps[1..]);
      Utf8Decodes(cps[0], more);
      Utf8AllDecodes(cps[1..]);
      assert (Utf8(cps[0]) + more)[|Utf8(cps[0])|..] == more;
      assert [cps[0]] + cps[1..] == cps;
    }
  }

  lemma EscapeStart(t: string, cp: nat)
    requires IsScalar(cp) && IsEscape(t, cp)
    ensures |t| > 0 && t[0] == '\\'
  {
    assert t[0] == t[..2][0];
  }

  lemma {:induction false} EscapesScanned(ts: seq<string>, cps: seq<nat>, output: string, rest: string)
    requires AreEscapes(ts, cps)
    ensures (forall cp <- cps :: IsScalar(cp))
    ensures ScanString(Concat(ts) + ("\"" + rest), output) == Done(output + Utf8All(cps), rest)
    decreases |ts|
  {
    hide NextPiece, IsEscape, Utf8;
    var s := Concat(ts) + ("\"" + rest);
    if ts == [] {
      assert s == "\"" + rest && output + "" == output;
    } else {
      var more := Concat(ts[1..]) + ("\"" + rest);
      assert s == ts[0] + more;
      EscapeStart(ts[0], cps[0]);
      EscapeRead(ts[0], cps[0], more);
      EscapesScanned(ts[1..], cps[1..], output + Utf8(cps[0]), rest);
      assert output + Utf8(cps[0]) + Utf8All(cps[1..]) == output + (Utf8(cps[0]) + Utf8All(cps[1..]));
    }
  }

  /** A string written entirely in escapes, in any casing, is read as bytes that decode to just those
      scalar values. */
  lemma EscapedTextDecodes(ts: seq<string>, cps: seq<nat>, rest: string)
    requires AreEscapes(ts, cps)
    ensures var r := ParseString("\"" + (Concat(ts) + ("\"" + rest)));
      r.Done? && r.rest == rest && Decode(r.value) == Some(cps)
  {
    hide ScanString, Concat, Decode;
    var body := Concat(ts) + ("\"" + rest);
    assert ("\"" + body)[1..] == body;
    EscapesScanned(ts, cps, "", rest);
    Utf8AllDecodes(cps);
    assert "" + Utf8All(cps) == Utf8All(cps);
  }

  /** Whatever escape is accepted, it yields the encoding of exactly one scalar value: never a
      surrogate, never an overlong form. (Four characters that are no digits count as zero.) */
  lemma AcceptedEscapeIsOneScalar(s: string)
    requires |s| >= 2 && Utf16Literal(s).Done?
    ensures var cps := Decode(Utf16Literal(s).value);
      cps.Some? && |cps.value| == 1 && IsScalar(cps.value[0]) && Utf16Literal(s).value == Utf8(cps.value[0])
  {
    hide Utf8, ParseHex4, Decode;
    var first := ParseHex4(s[2..6]);
    var cp := if 0xD800 <= first <= 0xDBFF then 0x1_0000 + first % 1024 * 1024 + ParseHex4(s[8..12]) % 1024 else first;
    assert IsScalar(cp) && Utf16Literal(s).value == Utf8(cp);
    Utf8AllDecodes([cp]);
    assert Utf8All([cp]) == Utf8(cp) by { assert [cp][1..] == [] && Utf8(cp) + "" == Utf8(cp); }
  }

  /** A surrogate without its other half is refused. */
  lemma LoneSurrogateRefused(t: string, n: nat, more: string)
    requires 0xD800 <= n <= 0xDFFF && IsHex4(t, n)
    requires n >= 0xDC00 || |more| < 6 || more[0] != '\\' || more[1] != 'u'
             || !(0xDC00 <= ParseHex4(more[2..6]) <= 0xDFFF)
    ensures NextPiece("\\u" + t + more) == Fail
  {
    hide IsHex4, ParseHex4;
    var s := "\\u" + t + more;
    Hex4Read(t, n);
    assert s[0] == '\\' && s[1] == 'u' && s[2..6] == t;
    if |more| >= 6 {
      assert s[6] == more[0] && s[7] == more[1] && s[8..12] == more[2..6];
    }
  }

  /** Four characters that are not all digits are read as zero: so the escape is one zero byte. */
  lemma NoDigitsAreZero(t: string, more: string)
    requires |t| == 4 && !Util.AllXDigits(t)
    ensures NextPiece("\\u" + t + more) == Done([0 as char], more)
  {
    var s := "\\u" + t + more;
    assert s[0] == '\\' && s[1] == 'u' && s[2..6] == t && s[6..] == more;
    assert t == [t[0], t[1], t[2], t[3]];
  }
}
