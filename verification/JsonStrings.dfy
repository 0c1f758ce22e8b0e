/** Strings as the JSON parser accepts them, as a grammar: bytes as they are, escapes in any casing, pairs of
    surrogates. Whatever is written so is read to the bytes it stands for, and whatever is read is written so. */
module JsonStrings {
  import opened Text
  import Digits
  import Util
  import opened JsonValue
  import opened JsonModel

  /** A byte as it is; a backslash and a letter; \x and digits; \u and four bytes; two of those, for the halves
      of a surrogate pair. */
  datatype Piece =
    | Plain(c: char)
    | Short(letter: char, code: nat)
    | Hex(digits: string, n: nat)
    | One(text: string, cp: nat)
    | Two(first: string, hi: nat, second: string, lo: nat)

  /** The letters behind a backslash and the bytes they stand for; the quotation mark is not among them. */
  const SHORT: seq<(char, nat)> := [('\\', 92), ('t', 9), ('n', 10), ('r', 13), ('0', 0), ('b', 8), ('f', 12)]

  /** A text of digits that write n. */
  ghost predicate Writes(digits: string, n: nat) {
    exists ds :: Digits.DigitsOf(digits, ds) && Digits.PlaceValue(16, ds) == n
  }

  /** Four bytes: the number their digits write, or zero if one of them is no digit. */
  ghost predicate IsFour(t: string, n: nat) {
    |t| == 4 && if Util.AllXDigits(t) then Writes(t, n) else n == 0
  }

  ghost predicate PieceOk(p: Piece) {
    match p
    case Plain(c) => c != '\\' && c != '"'
    case Short(letter, code) => (letter, code) in SHORT
    case Hex(digits, n) => digits != "" && Writes(digits, n)
    case One(t, cp) => IsFour(t, cp) && !(0xD800 <= cp <= 0xDFFF)
    case Two(t, hi, u, lo) => IsFour(t, hi) && 0xD800 <= hi <= 0xDBFF && IsFour(u, lo) && 0xDC00 <= lo <= 0xDFFF
  }

  function PieceText(p: Piece): string {
    match p
    case Plain(c) => [c]
    case Short(letter, _) => ['\\', letter]
    case Hex(digits, _) => "\\x" + digits
    case One(t, _) => "\\u" + t
    case Two(t, _, u, _) => "\\u" + t + ("\\u" + u)
  }

  /** The bytes a piece stands for: \x gives its number in decimal, at most the largest int. */
  ghost function PieceBytes(p: Piece): string
    requires PieceOk(p)
  {
    match p
    case Plain(c) => [c]
    case Short(_, code) => [code as char]
    case Hex(_, n) => IntText(if n > Util.INT_MAX then Util.INT_MAX else n)
    case One(_, cp) => FourBound(p.text, cp); Utf8(cp)
    case Two(_, hi, _, lo) => Utf8(0x1_0000 + (hi - 0xD800) * 1024 + (lo - 0xDC00))
  }

  function PiecesText(ps: seq<Piece>): string {
    if ps == [] then "" else PieceText(ps[0]) + PiecesText(ps[1..])
  }

  /** The digits of \x end where the digits end. */
  ghost predicate PiecesOk(ps: seq<Piece>) {
    ps == [] ||
    (PieceOk(ps[0]) && PiecesOk(ps[1..])
     && (ps[0].Hex? && ps[1..] != [] ==> !Util.IsXDigit((PiecesText(ps[1..]) + "\"")[0])))
  }

  ghost function PiecesBytes(ps: seq<Piece>): string
    requires PiecesOk(ps)
  {
    if ps == [] then "" else PieceBytes(ps[0]) + PiecesBytes(ps[1..])
  }

  function StringText(ps: seq<Piece>): string { "\"" + (PiecesText(ps) + "\"") }

  lemma FourBound(t: string, n: nat)
    requires IsFour(t, n)
    ensures n < 0x1_0000
  {
    FourRead(t, n);
  }

  /** parse_hex4 reads four bytes so. */
  lemma FourRead(t: string, n: nat)
    requires IsFour(t, n)
    ensures ParseHex4(t) == n
  {
    if Util.AllXDigits(t) {
      var ds :| Digits.DigitsOf(t, ds) && Digits.PlaceValue(16, ds) == n;
      FourDigits(t, ds);
    } else {
      assert t == [t[0], t[1], t[2], t[3]];
    }
  }

  lemma FourDigits(t: string, ds: seq<nat>)
    requires |t| == 4 && Digits.DigitsOf(t, ds)
    ensures ParseHex4(t) == Digits.PlaceValue(16, ds)
  {
    hide Digits.IsDigitOf, Util.IsXDigit, Util.Hex2Dec;
    Digits.DigitRead(t[0], ds[0]);
    Digits.DigitRead(t[1], ds[1]);
    Digits.DigitRead(t[2], ds[2]);
    Digits.DigitRead(t[3], ds[3]);
    assert ds[..3][..2] == ds[..2] && ds[..2][..1] == ds[..1] && ds[..1][..0] == [];
    assert Digits.PlaceValue(16, ds[..1]) == ds[0];
    assert Digits.PlaceValue(16, ds[..2]) == ds[0] * 16 + ds[1];
    assert Digits.PlaceValue(16, ds[..3]) == (ds[0] * 16 + ds[1]) * 16 + ds[2];
  }

  lemma FourSpelled(t: string)
    requires |t| == 4
    ensures IsFour(t, ParseHex4(t))
  {
    if Util.AllXDigits(t) {
      Digits.DigitsSpelled(t);
      FourDigits(t, Digits.ValuesOf(t));
    } else {
      assert t == [t[0], t[1], t[2], t[3]];
    }
  }

  lemma {:induction false} HexNumberRead(s: string, ds: seq<nat>)
    requires Digits.DigitsOf(s, ds)
    ensures HexNumber(s) == Digits.PlaceValue(16, ds)
    decreases |s|
  {
    hide Digits.IsDigitOf, Util.IsXDigit, Util.Hex2Dec;
    if s != "" {
      var n := |s| - 1;
      Digits.DigitRead(s[n], ds[n]);
      HexNumberRead(s[..n], ds[..n]);
    }
  }

  lemma {:induction false} SpanIs(digits: string, more: string)
    requires Util.AllXDigits(digits) && (more == "" || !Util.IsXDigit(more[0]))
    ensures HexSpan(digits + more) == |digits|
  {
    if digits == "" {
      assert digits + more == more;
    } else {
      assert digits[0] in digits && (digits + more)[1..] == digits[1..] + more;
      SpanIs(digits[1..], more);
    }
  }

  lemma ShortRead(letter: char, code: nat)
    requires (letter, code) in SHORT
    ensures ShortEscape(letter) == Some(code as char) && code < 256
  {
    var k :| 0 <= k < |SHORT| && SHORT[k] == (letter, code);
  }

  lemma ShortSpelled(letter: char)
    ensures ShortEscape(letter).Some? ==> (letter, ShortEscape(letter).value as nat) in SHORT
    ensures ShortEscape('x').None? && ShortEscape('u').None?
  {
    assert SHORT[0] in SHORT && SHORT[1] in SHORT && SHORT[2] in SHORT && SHORT[3] in SHORT;
    assert SHORT[4] in SHORT && SHORT[5] in SHORT && SHORT[6] in SHORT;
  }

  /** One piece, with something behind it that does not go on the digits of \x. */
  lemma PieceRead(p: Piece, more: string)
    requires PieceOk(p) && (p.Hex? ==> more == "" || !Util.IsXDigit(more[0]))
    ensures NextPiece(PieceText(p) + more) == Done(PieceBytes(p), more)
  {
    hide Writes, IsFour, ParseHex4, Utf8, ShortEscape, HexSpan, HexNumber, IntText;
    var s := PieceText(p) + more;
    match p
    case Plain(c) => assert s[0] == c && s[1..] == more;
    case Short(letter, code) =>
      ShortRead(letter, code);
      assert s[0] == '\\' && s[1] == letter && s[2..] == more;
    case Hex(digits, n) =>
      HexRead(digits, n, more);
    case One(t, cp) =>
      FourRead(t, cp);
      ShortSpelled('u');
      FourLength(t, cp);
      assert s[0] == '\\' && s[1] == 'u' && s[2..6] == t && s[6..] == more;
    case Two(t, hi, u, lo) =>
      FourRead(t, hi);
      FourRead(u, lo);
      ShortSpelled('u');
      FourLength(t, hi);
      FourLength(u, lo);
      assert s[0] == '\\' && s[1] == 'u' && s[2..6] == t && s[6] == '\\' && s[7] == 'u';
      assert s[8..12] == u && s[12..] == more;
      PairMakes(hi, lo);
  }

  lemma FourLength(t: string, n: nat)
    requires IsFour(t, n)
    ensures |t| == 4
  {
  }

  lemma PairMakes(hi: nat, lo: nat)
    requires 0xD800 <= hi <= 0xDBFF && 0xDC00 <= lo <= 0xDFFF
    ensures 0x1_0000 + hi % 1024 * 1024 + lo % 1024 == 0x1_0000 + (hi - 0xD800) * 1024 + (lo - 0xDC00)
  {
    assert hi == 54 * 1024 + (hi - 0xD800) && lo == 55 * 1024 + (lo - 0xDC00);
  }

  lemma HexRead(digits: string, n: nat, more: string)
    requires digits != "" && Writes(digits, n) && (more == "" || !Util.IsXDigit(more[0]))
    ensures NextPiece("\\x" + digits + more) == Done(IntText(if n > Util.INT_MAX then Util.INT_MAX else n), more)
  {
    hide HexSpan, HexNumber, IntText, ShortEscape;
    var s := "\\x" + digits + more;
    var ds :| Digits.DigitsOf(digits, ds) && Digits.PlaceValue(16, ds) == n;
    Digits.DigitsAreX(digits, ds);
    SpanIs(digits, more);
    HexNumberRead(digits, ds);
    ShortSpelled('x');
    assert s[0] == '\\' && s[1] == 'x' && s[2..] == digits + more;
    assert s[2..][..|digits|] == digits && s[2..][|digits|..] == more;
  }

  lemma PieceStart(p: Piece, more: string)
    requires PieceOk(p)
    ensures (PieceText(p) + more) != "" && (PieceText(p) + more)[0] != '"'
  {
  }

  lemma {:induction false} PiecesRead(ps: seq<Piece>, output: string, rest: string)
    requires PiecesOk(ps)
    ensures ScanString(PiecesText(ps) + ("\"" + rest), output) == Done(output + PiecesBytes(ps), rest)
    decreases |ps|
  {
    hide NextPiece, PieceOk, PieceBytes, PieceText;
    var s := PiecesText(ps) + ("\"" + rest);
    if ps == [] {
      assert s == "\"" + rest && output + "" == output;
    } else {
      var more := PiecesText(ps[1..]) + ("\"" + rest);
      assert s == PieceText(ps[0]) + more;
      FollowingByte(ps[1..], rest);
      PieceStart(ps[0], more);
      PieceRead(ps[0], more);
      PiecesRead(ps[1..], output + PieceBytes(ps[0]), rest);
      assert output + PieceBytes(ps[0]) + PiecesBytes(ps[1..]) == output + (PieceBytes(ps[0]) + PiecesBytes(ps[1..]));
    }
  }

  lemma FollowingByte(ps: seq<Piece>, rest: string)
    ensures (PiecesText(ps) + ("\"" + rest))[0] == (PiecesText(ps) + "\"")[0]
    ensures ps == [] ==> (PiecesText(ps) + "\"")[0] == '"' && !Util.IsXDigit('"')
  {
    var t := PiecesText(ps);
    assert t == "" ==> t + ("\"" + rest) == "\"" + rest && t + "\"" == "\"";
  }

  /** A string of such pieces is read to the bytes they stand for. */
  lemma StringRead(ps: seq<Piece>, rest: string)
    requires PiecesOk(ps)
    ensures ParseString(StringText(ps) + rest) == Done(PiecesBytes(ps), rest)
  {
    hide ScanString, PiecesOk, PiecesText;
    var s := StringText(ps) + rest;
    assert s[0] == '"' && s[1..] == PiecesText(ps) + ("\"" + rest);
    PiecesRead(ps, "", rest);
    assert "" + PiecesBytes(ps) == PiecesBytes(ps);
  }

  // ---------------------------------------------------------------- strings, from the text

  lemma PieceSpelled(s: string) returns (p: Piece)
    requires s != "" && s[0] != '"' && NextPiece(s).Done?
    ensures PieceOk(p) && s == PieceText(p) + NextPiece(s).rest && NextPiece(s).value == PieceBytes(p)
    ensures p.Hex? ==> NextPiece(s).rest == "" || !Util.IsXDigit(NextPiece(s).rest[0])
  {
    hide Writes, IsFour, ParseHex4, Utf8, ShortEscape, HexSpan, HexNumber, IntText;
    if s[0] != '\\' {
      p := Plain(s[0]);
      assert s == [s[0]] + s[1..];
    } else if ShortEscape(s[1]).Some? {
      ShortSpelled(s[1]);
      p := Short(s[1], ShortEscape(s[1]).value as nat);
      assert s == ['\\', s[1]] + s[2..];
    } else if s[1] == 'x' {
      p := HexSpelled(s);
    } else {
      p := UnicodeSpelled(s);
    }
  }

  lemma HexSpelled(s: string) returns (p: Piece)
    requires |s| >= 2 && s[0] == '\\' && s[1] == 'x' && NextPiece(s).Done?
    ensures p.Hex? && PieceOk(p) && s == PieceText(p) + NextPiece(s).rest && NextPiece(s).value == PieceBytes(p)
    ensures NextPiece(s).rest == "" || !Util.IsXDigit(NextPiece(s).rest[0])
  {
    hide HexSpan, HexNumber, IntText, ShortEscape;
    ShortSpelled('x');
    var n := HexSpan(s[2..]);
    var digits := s[2..][..n];
    SpanEnds(s[2..]);
    Digits.DigitsSpelled(digits);
    HexNumberRead(digits, Digits.ValuesOf(digits));
    p := Hex(digits, HexNumber(digits));
    assert s == "\\x" + digits + s[2..][n..];
  }

  lemma {:induction false} SpanEnds(s: string)
    ensures var n := HexSpan(s); Util.AllXDigits(s[..n]) && (n < |s| ==> !Util.IsXDigit(s[n]))
  {
    if s != "" && Util.IsXDigit(s[0]) {
      SpanEnds(s[1..]);
      var n := HexSpan(s[1..]);
      assert s[..n + 1] == [s[0]] + s[1..][..n];
    }
  }

  lemma UnicodeSpelled(s: string) returns (p: Piece)
    requires |s| >= 2 && s[0] == '\\' && s[1] == 'u' && Utf16Literal(s).Done?
    ensures (p.One? || p.Two?) && PieceOk(p) && s == PieceText(p) + Utf16Literal(s).rest
    ensures Utf16Literal(s).value == PieceBytes(p)
  {
    hide IsFour, ParseHex4, Utf8;
    var first := ParseHex4(s[2..6]);
    FourSpelled(s[2..6]);
    if 0xD800 <= first <= 0xDBFF {
      var second := ParseHex4(s[8..12]);
      FourSpelled(s[8..12]);
      PairMakes(first, second);
      p := Two(s[2..6], first, s[8..12], second);
      assert s == "\\u" + s[2..6] + ("\\u" + s[8..12]) + s[12..];
    } else {
      p := One(s[2..6], first);
      assert s == "\\u" + s[2..6] + s[6..];
    }
  }

  lemma {:induction false} PiecesSpelled(s: string, output: string) returns (ps: seq<Piece>)
    requires ScanString(s, output).Done?
    ensures PiecesOk(ps) && s == PiecesText(ps) + ("\"" + ScanString(s, output).rest)
    ensures ScanString(s, output).value == output + PiecesBytes(ps)
    decreases |s|
  {
    hide NextPiece, PieceOk, PieceBytes, PieceText;
    if s[0] == '"' {
      ps := [];
      assert s == "" + ("\"" + s[1..]) && output + "" == output;
    } else {
      var p := PieceSpelled(s);
      var piece, more := NextPiece(s).value, NextPiece(s).rest;
      var tail := PiecesSpelled(more, output + piece);
      ps := [p] + tail;
      FollowingByte(tail, ScanString(s, output).rest);
      assert ps[1..] == tail;
      assert output + piece + PiecesBytes(tail) == output + (piece + PiecesBytes(tail));
      assert PieceText(p) + (PiecesText(tail) + ("\"" + ScanString(s, output).rest)) ==
             PieceText(p) + PiecesText(tail) + ("\"" + ScanString(s, output).rest);
    }
  }

  lemma StringSpelled(s: string) returns (ps: seq<Piece>)
    requires ParseString(s).Done?
    ensures PiecesOk(ps) && s == StringText(ps) + ParseString(s).rest && ParseString(s).value == PiecesBytes(ps)
  {
    hide ScanString, PiecesOk, PiecesText;
    ps := PiecesSpelled(s[1..], "");
    assert s == "\"" + s[1..] && "" + PiecesBytes(ps) == PiecesBytes(ps);
    assert "\"" + (PiecesText(ps) + ("\"" + ParseString(s).rest)) == StringText(ps) + ParseString(s).rest;
  }
}
