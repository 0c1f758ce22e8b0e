/** Percent-encoding (haha_web/base/EncodeUtil.cpp; sections 2.1 and 2.3 of RFC 3986). */
module UrlCode {
  import opened Text
  import Digits
  import Util

  /** A byte that is not escaped. */
  predicate IsUnreserved(c: char) {
    '0' <= c <= '9' || 'a' <= c <= 'z' || 'A' <= c <= 'Z' || c == '-' || c == '_' || c == '.' || c == '~'
  }

  /** A byte as one character of a string is below 256. */
  predicate IsBytes(s: string) { forall i :: 0 <= i < |s| ==> s[i] as int < 256 }

  function EncodeByte(c: char): string
    requires c as int < 256
  {
    if IsUnreserved(c) then [c] else ['%', Util.Dec2Hex(c as int / 16), Util.Dec2Hex(c as int % 16)]
  }

  function Encode(s: string): string
    requires IsBytes(s)
  {
    if s == "" then "" else EncodeByte(s[0]) + Encode(s[1..])
  }

  /** The byte a triple stands for. */
  function Merge(hi: char, lo: char): char
    requires Util.IsXDigit(hi) && Util.IsXDigit(lo)
  {
    (Util.Hex2Dec(hi) * 16 + Util.Hex2Dec(lo)) as char
  }

  /** None where the source gives up and returns an empty string. */
  function Decode(s: string): Option<string>
    decreases |s|
  {
    if s == "" then Some("")
    else if s[0] == '%' then
      if |s| > 2 && Util.IsXDigit(s[1]) && Util.IsXDigit(s[2]) then
        match Decode(s[3..])
        case None => None
        case Some(more) => Some([Merge(s[1], s[2])] + more)
      else None
    else
      match Decode(s[1..])
      case None => None
      case Some(more) => Some([if s[0] == '+' then ' ' else s[0]] + more)
  }

  method UrlEncode(value: string) returns (escaped: string)
    requires IsBytes(value)
    ensures escaped == Encode(value)
  {
    escaped := "";
    for i := 0 to |value|
      invariant escaped + Encode(value[i..]) == Encode(value)
    {
      assert value[i..][1..] == value[i + 1..];
      escaped := escaped + EncodeByte(value[i]);
    }
  }

  ghost function Continued(escaped: string, more: Option<string>): Option<string> {
    if more.None? then None else Some(escaped + more.value)
  }

  lemma ContinuedFirst(more: Option<string>)
    ensures Continued("", more) == more
  {
    assert more.Some? ==> "" + more.value == more.value;
  }

  lemma ContinuedTwice(a: string, b: string, more: Option<string>)
    ensures Continued(a, Continued(b, more)) == Continued(a + b, more)
  {
    assert more.Some? ==> a + (b + more.value) == a + b + more.value;
  }

  method UrlDecode(value: string) returns (escaped: string)
    ensures escaped == Decode(value).GetOr("")
  {
    hide Merge, Util.IsXDigit;
    escaped := "";
    var i := 0;
    assert value[0..] == value;
    ContinuedFirst(Decode(value));
    while i < |value|
      invariant 0 <= i <= |value|
      invariant Decode(value) == Continued(escaped, Decode(value[i..]))
    {
      if value[i] == '%' && i + 2 < |value| && Util.IsXDigit(value[i + 1]) && Util.IsXDigit(value[i + 2]) {
        assert value[i..][3..] == value[i + 3..];
        ContinuedTwice(escaped, [Merge(value[i + 1], value[i + 2])], Decode(value[i + 3..]));
        escaped := escaped + [Merge(value[i + 1], value[i + 2])];
        i := i + 2;
      } else if value[i] == '%' {
        return "";
      } else {
        assert value[i..][1..] == value[i + 1..];
        ContinuedTwice(escaped, [if value[i] == '+' then ' ' else value[i]], Decode(value[i + 1..]));
        escaped := escaped + [if value[i] == '+' then ' ' else value[i]];
      }
      i := i + 1;
    }
  }

  lemma ByteDecoded(c: char, more: string)
    requires c as int < 256 && Decode(more).Some?
    ensures Decode(EncodeByte(c) + more) == Some([c] + Decode(more).value)
  {
    var e := EncodeByte(c);
    var s := e + more;
    if IsUnreserved(c) {
      assert s[0] == c && s[1..] == more;
    } else {
      assert s[0] == '%' && s[1] == e[1] && s[2] == e[2] && s[3..] == more;
      assert c as int / 16 * 16 + c as int % 16 == c as int;
    }
  }

  /** Decoding undoes encoding, whatever the bytes. */
  lemma {:induction false} DecodeEncode(s: string)
    requires IsBytes(s)
    ensures Decode(Encode(s)) == Some(s)
  {
    if s != "" {
      DecodeEncode(s[1..]);
      ByteDecoded(s[0], Encode(s[1..]));
      assert s == [s[0]] + s[1..];
    }
  }

  /** The unreserved characters: letters, digits and four marks. */
  const LOWER := "abcdefghijklmnopqrstuvwxyz"
  const UPPER := "ABCDEFGHIJKLMNOPQRSTUVWXYZ"
  const DIGITS := "0123456789"
  const MARKS := "-._~"

  predicate Unreserved(c: char) { c in LOWER || c in UPPER || c in DIGITS || c in MARKS }

  lemma UnreservedRead(c: char)
    ensures IsUnreserved(c) <==> Unreserved(c)
  {
    LowerAre(c);
    UpperAre(c);
    assert c in DIGITS <==> '0' <= c <= '9' by {
      assert '0' <= c <= '9' ==> DIGITS[c as int - '0' as int] == c;
    }
    assert c in MARKS <==> c == '-' || c == '.' || c == '_' || c == '~' by {
      assert MARKS[0] == '-' && MARKS[1] == '.' && MARKS[2] == '_' && MARKS[3] == '~';
    }
  }

  lemma LowerAre(c: char)
    ensures c in LOWER <==> 'a' <= c <= 'z'
  {
    assert 'a' <= c <= 'z' ==> LOWER[c as int - 'a' as int] == c;
  }

  lemma UpperAre(c: char)
    ensures c in UPPER <==> 'A' <= c <= 'Z'
  {
    assert 'A' <= c <= 'Z' ==> UPPER[c as int - 'A' as int] == c;
  }

  /** Only unreserved characters and the per cent sign are written, so nothing in the text means
      anything else in a URL. */
  lemma {:induction false} EncodeIsPlain(s: string)
    requires IsBytes(s)
    ensures forall c <- Encode(s) :: Unreserved(c) || c == '%'
  {
    hide Unreserved;
    forall c: char
      ensures IsUnreserved(c) <==> Unreserved(c)
    {
      UnreservedRead(c);
    }
    if s != "" {
      EncodeIsPlain(s[1..]);
      assert forall c <- EncodeByte(s[0]) :: IsUnreserved(c) || c == '%';
    }
  }

  /** A byte is written as it is if it is unreserved, and else as its two digits in upper case. */
  lemma ByteWritten(c: char)
    requires c as int < 256
    ensures EncodeByte(c) ==
      if Unreserved(c) then [c]
      else ['%', Digits.UPPER_DIGITS[c as int / 16], Digits.UPPER_DIGITS[c as int % 16]]
  {
    hide Unreserved;
    UnreservedRead(c);
    Digits.DigitWritten(c as int / 16);
    Digits.DigitWritten(c as int % 16);
  }

  // ---------------------------------------------------------------- any encoded text

  /** What stands for one byte: a character other than the per cent sign, or two digits in any casing. */
  datatype Unit = Plain(c: char) | Triple(hi: char, lo: char, byte: nat)

  predicate UnitOk(u: Unit) {
    match u
    case Plain(c) => c != '%'
    case Triple(hi, lo, b) => b < 256 && Digits.IsDigitOf(hi, b / 16) && Digits.IsDigitOf(lo, b % 16)
  }

  function UnitText(u: Unit): string {
    match u
    case Plain(c) => [c]
    case Triple(hi, lo, _) => ['%', hi, lo]
  }

  /** A plus sign stands for a blank. */
  function UnitByte(u: Unit): char
    requires UnitOk(u)
  {
    match u
    case Plain(c) => if c == '+' then ' ' else c
    case Triple(_, _, b) => b as char
  }

  function UnitsText(us: seq<Unit>): string {
    if us == [] then "" else UnitText(us[0]) + UnitsText(us[1..])
  }

  function UnitsBytes(us: seq<Unit>): string
    requires forall u <- us :: UnitOk(u)
  {
    if us == [] then "" else [UnitByte(us[0])] + UnitsBytes(us[1..])
  }

  lemma UnitDecoded(u: Unit, more: string)
    requires UnitOk(u)
    ensures Decode(UnitText(u) + more) ==
      match Decode(more) case None => None case Some(bytes) => Some([UnitByte(u)] + bytes)
  {
    var s := UnitText(u) + more;
    match u
    case Plain(c) => assert s[0] == c && s[1..] == more;
    case Triple(hi, lo, b) =>
      assert s[0] == '%' && s[1] == hi && s[2] == lo && s[3..] == more;
      Digits.DigitRead(hi, b / 16);
      Digits.DigitRead(lo, b % 16);
  }

  /** Any text of such units is decoded to their bytes. */
  lemma {:induction false} UnitsDecoded(us: seq<Unit>)
    requires forall u <- us :: UnitOk(u)
    ensures Decode(UnitsText(us)) == Some(UnitsBytes(us))
  {
    hide UnitText, UnitOk, UnitByte, Decode;
    if us == [] {
      assert Decode("") == Some("") by { NothingDecoded(); }
    } else {
      UnitsDecoded(us[1..]);
      UnitDecoded(us[0], UnitsText(us[1..]));
    }
  }

  lemma NothingDecoded()
    ensures Decode("") == Some("")
  {
  }

  /** And no other text is. */
  lemma {:induction false} UnitsSpelled(s: string) returns (us: seq<Unit>)
    requires Decode(s).Some?
    ensures (forall u <- us :: UnitOk(u)) && UnitsText(us) == s
    decreases |s|
  {
    hide Decode, UnitOk, UnitText;
    if s == "" {
      us := [];
    } else {
      var u, more := FirstUnit(s);
      us := UnitsSpelled(more);
      us := [u] + us;
      assert us[0] == u;
    }
  }

  lemma FirstUnit(s: string) returns (u: Unit, more: string)
    requires s != "" && Decode(s).Some?
    ensures UnitOk(u) && s == UnitText(u) + more && |more| < |s| && Decode(more).Some?
  {
    if s[0] == '%' {
      u := TripleSpelled(s[1], s[2]);
      more := s[3..];
      assert s == ['%', s[1], s[2]] + s[3..];
    } else {
      u, more := Plain(s[0]), s[1..];
    }
  }

  lemma TripleSpelled(hi: char, lo: char) returns (u: Unit)
    requires Util.IsXDigit(hi) && Util.IsXDigit(lo)
    ensures UnitOk(u) && u.Triple? && u.hi == hi && u.lo == lo
  {
    hide Digits.IsDigitOf;
    var h, l := Util.Hex2Dec(hi), Util.Hex2Dec(lo);
    Digits.DigitSpelled(hi);
    Digits.DigitSpelled(lo);
    u := Triple(hi, lo, h * 16 + l);
    assert (h * 16 + l) / 16 == h && (h * 16 + l) % 16 == l;
  }

  /** A text is decoded, to the bytes of its units, exactly when it is made of units; else nothing is. */
  lemma DecodedIff(s: string, bytes: string)
    ensures Decode(s) == Some(bytes) <==>
      exists us: seq<Unit> :: (forall u <- us :: UnitOk(u)) && UnitsText(us) == s && UnitsBytes(us) == bytes
  {
    hide Decode, UnitOk, UnitsText, UnitsBytes;
    if Decode(s) == Some(bytes) {
      var us := UnitsSpelled(s);
      UnitsDecoded(us);
    }
    forall us: seq<Unit> | (forall u <- us :: UnitOk(u)) && UnitsText(us) == s
      ensures Decode(s) == Some(UnitsBytes(us))
    {
      UnitsDecoded(us);
    }
  }
}
