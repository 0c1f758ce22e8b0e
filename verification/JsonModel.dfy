/** What the JSON parser computes, as functions over the text still to be read
    (haha_web/haha_json/haha_json/json.cpp, jsonUtil.cpp). */
module JsonModel {
  import opened Text
  import Util
  import opened JsonValue

  /** nullptr, or a value and the view left behind. */
  datatype Parsed<+T> = Fail | Done(value: T, rest: string)

  /** str[0]; the views that may be empty here point at a literal's terminating zero. */
  function Head(s: string): char { if s == "" then '\0' else s[0] }

  /** isCtrlAndSpace: a char is signed, so bytes from 128 on count too. */
  predicate IsCtrlAndSpace(c: char) { c as int <= 32 || c as int >= 128 }

  function Skip(s: string): (r: string)
    ensures |r| <= |s| && (r != "" ==> !IsCtrlAndSpace(r[0]))
  {
    if s != "" && IsCtrlAndSpace(s[0]) then Skip(s[1..]) else s
  }

  // ---------------------------------------------------------------- escapes

  /** parse_hex4: four digits, or 0 when one of them is none. */
  function ParseHex4(s: string): (h: nat)
    requires |s| >= 4
    ensures h < 0x1_0000
  {
    if Util.IsXDigit(s[0]) && Util.IsXDigit(s[1]) && Util.IsXDigit(s[2]) && Util.IsXDigit(s[3]) then
      ((Util.Hex2Dec(s[0]) * 16 + Util.Hex2Dec(s[1])) * 16 + Util.Hex2Dec(s[2])) * 16 + Util.Hex2Dec(s[3])
    else 0
  }

  /** A byte 10xxxxxx with the low six bits of n: `(n | 0x80) & 0xBF`. */
  function Continuation(n: nat): char { (0x80 + n % 64) as char }

  /** The encoding at the end of utf16_literal_to_utf8. */
  function Utf8(cp: nat): string
    requires cp <= 0x10FFFF
  {
    if cp < 0x80 then [cp as char]
    else if cp < 0x800 then [(0xC0 + cp / 64) as char, Continuation(cp)]
    else if cp < 0x1_0000 then [(0xE0 + cp / 4096) as char, Continuation(cp / 64), Continuation(cp)]
    else [(0xF0 + cp / 262144) as char, Continuation(cp / 4096), Continuation(cp / 64), Continuation(cp)]
  }

  /** utf16_literal_to_utf8 on a view that starts with \u. An empty result there is Fail here. */
  function Utf16Literal(s: string): (r: Parsed<string>)
    requires |s| >= 2
    ensures r.Done? ==> |r.rest| + 6 <= |s|
  {
    if |s| < 6 then Fail
    else
      var first := ParseHex4(s[2..6]);
      if 0xDC00 <= first <= 0xDFFF then Fail
      else if 0xD800 <= first <= 0xDBFF then
        if |s| < 12 || s[6] != '\\' || s[7] != 'u' then Fail
        else
          var second := ParseHex4(s[8..12]);
          if second < 0xDC00 || second > 0xDFFF then Fail
          else Done(Utf8(0x1_0000 + first % 1024 * 1024 + second % 1024), s[12..])
      else Done(Utf8(first), s[6..])
  }

  /** The leading hexadecimal digits. */
  function HexSpan(s: string): (n: nat)
    ensures n <= |s|
  {
    if s != "" && Util.IsXDigit(s[0]) then 1 + HexSpan(s[1..]) else 0
  }

  function HexNumber(s: string): nat {
    if s == "" then 0
    else
      var last := s[|s| - 1];
      HexNumber(s[..|s| - 1]) * 16 + if Util.IsXDigit(last) then Util.Hex2Dec(last) else 0
  }

  /** \x: the digits as a number, written in decimal; a stream stops at the largest int. */
  function HexEscape(digits: string): string {
    IntText(if HexNumber(digits) > Util.INT_MAX then Util.INT_MAX else HexNumber(digits))
  }

  /** The short escapes parse_string knows; \" is not among them. */
  function ShortEscape(c: char): Option<char> {
    match c
    case '\\' => Some('\\')
    case 't' => Some('\t')
    case 'n' => Some('\n')
    case 'r' => Some('\r')
    case '0' => Some('\0')
    case 'b' => Some(8 as char)
    case 'f' => Some(12 as char)
    case _ => None
  }

  /** One turn of parse_string's loop on a view that is neither empty nor at the closing quote: the
      bytes added to the output and the view left. */
  function NextPiece(s: string): (r: Parsed<string>)
    requires s != ""
    ensures r.Done? ==> |r.rest| < |s|
  {
    if s[0] != '\\' then Done([s[0]], s[1..])
    else if |s| < 2 then Fail
    else if ShortEscape(s[1]).Some? then Done([ShortEscape(s[1]).value], s[2..])
    else if s[1] == 'x' then
      var n := HexSpan(s[2..]);
      if n == 0 then Fail else Done(HexEscape(s[2..][..n]), s[2..][n..])
    else if s[1] == 'u' then Utf16Literal(s)
    else Fail
  }

  function ScanString(s: string, output: string): (r: Parsed<string>)
    ensures r.Done? ==> |r.rest| < |s|
    decreases |s|
  {
    if s == "" then Fail
    else if s[0] == '"' then Done(output, s[1..])
    else
      match NextPiece(s)
      case Fail => Fail
      case Done(piece, rest) => ScanString(rest, output + piece)
  }

  function ParseString(s: string): (r: Parsed<string>)
    ensures r.Done? ==> |r.rest| < |s|
  {
    if Head(s) != '"' then Fail
    else ScanString(s[1..], "")
  }

  // ---------------------------------------------------------------- numbers

  predicate IsNumberComponent(c: char) { IsDigit(c) || c == 'e' || c == 'E' || c == '-' || c == '.' }

  function NumberSpan(s: string): (n: nat)
    ensures n <= |s|
    ensures s != "" && IsNumberComponent(s[0]) ==> n > 0
  {
    if s != "" && IsNumberComponent(s[0]) then 1 + NumberSpan(s[1..]) else 0
  }

  /** std::stod, uninterpreted but on literals of 32-bit integers, which it reads exactly; None when
      it throws. */
  type Stod = string -> Option<real>

  predicate IntLiteral(s: string) {
    var digits := if s != "" && s[0] == '-' then s[1..] else s;
    digits != "" && forall c <- digits :: IsDigit(c)
  }

  function DigitsValue(s: string): int {
    if s == "" then 0 else DigitsValue(s[..|s| - 1]) * 10 + (s[|s| - 1] as int - '0' as int)
  }

  function IntLiteralValue(s: string): int
    requires s != ""
  {
    if s[0] == '-' then -DigitsValue(s[1..]) else DigitsValue(s)
  }

  ghost predicate ReadsIntegers(stod: Stod) {
    forall s :: IntLiteral(s) && -0x8000_0000 <= IntLiteralValue(s) <= Util.INT_MAX ==>
      stod(s) == Some(IntLiteralValue(s) as real)
  }

  /** (int)number. */
  function Truncate(d: real): int { if d >= 0.0 then d.Floor else -(-d).Floor }

  /** parse_number: isInt ends up saying only that the last character is not a point. */
  function ParseNumber(s: string, stod: Stod): (r: Parsed<Json>)
    requires s != "" && (IsDigit(s[0]) || s[0] == '-')
    ensures r.Done? ==> |r.rest| < |s|
  {
    var n := NumberSpan(s);
    var number := stod(s[..n]);
    if number.None? then Fail
    else if s[n - 1] != '.' && -0x8000_0000 as real <= number.value <= Util.INT_MAX as real then
      Done(JInt(Truncate(number.value)), s[n..])
    else Done(JDouble(number.value), s[n..])
  }

  // ---------------------------------------------------------------- arrays, objects, values

  /** What follows an item: another one, the end, or neither. A comma may stand before the end. */
  datatype After = More(rest: string) | End(rest: string) | Neither

  function AfterItem(s: string, close: char): (r: After)
    ensures r.More? ==> |r.rest| < |s|
    ensures r.End? ==> |r.rest| < |s|
  {
    if s == "" then Neither
    else if s[0] == ',' then
      if |s| > 1 && s[1] == close then End(s[2..]) else More(s[1..])
    else if s[0] == close then End(s[1..])
    else Neither
  }

  function ParseItems(s: string, items: seq<Json>, stod: Stod): (r: Parsed<Json>)
    ensures r.Done? ==> |r.rest| < |s|
    decreases |s|, 2
  {
    var s1 := Skip(s);
    if s1 == "" then Fail
    else
      match ParseValue(s1, stod)
      case Fail => Fail
      case Done(v, rest) =>
        match AfterItem(Skip(rest), ']')
        case Neither => Fail
        case End(rest) => Done(JArray(items + [v]), rest)
        case More(rest) => ParseItems(rest, items + [v], stod)
  }

  /** A key, a colon and a value. */
  function ParseMember(s: string, stod: Stod): (r: Parsed<Member>)
    requires s != ""
    ensures r.Done? ==> |r.rest| < |s|
    decreases |s|, 2
  {
    match ParseString(s)
    case Fail => Fail
    case Done(key, rest) =>
      var s1 := Skip(rest);
      if Head(s1) != ':' then Fail
      else
        var s2 := Skip(s1[1..]);
        if s2 == "" then Fail
        else
          match ParseValue(s2, stod)
          case Fail => Fail
          case Done(v, rest) => Done(Member(key, v), rest)
  }

  function ParseMembers(s: string, ms: seq<Member>, stod: Stod): (r: Parsed<Json>)
    ensures r.Done? ==> |r.rest| < |s|
    decreases |s|, 3
  {
    var s1 := Skip(s);
    if s1 == "" then Fail
    else
      match ParseMember(s1, stod)
      case Fail => Fail
      case Done(m, rest) =>
        var ms' := Insert(ms, m.key, m.value);
        match AfterItem(Skip(rest), '}')
        case Neither => Fail
        case End(rest) => Done(JObject(ms'), rest)
        case More(rest) => ParseMembers(rest, ms', stod)
  }

  function ParseValue(s: string, stod: Stod): (r: Parsed<Json>)
    ensures r.Done? ==> |r.rest| < |s|
    decreases |s|, 1
  {
    if s == "" then Fail
    else if s[0] == '{' then
      if |s| > 1 && s[1] == '}' then Done(JObject([]), s[2..]) else ParseMembers(s[1..], [], stod)
    else if s[0] == '[' then
      if |s| > 1 && s[1] == ']' then Done(JArray([]), s[2..]) else ParseItems(s[1..], [], stod)
    else if s[0] == '"' then
      match ParseString(s)
      case Fail => Fail
      case Done(text, rest) => Done(JString(text), rest)
    else if s[0] == '-' || IsDigit(s[0]) then ParseNumber(s, stod)
    else if StartsWith(s, "null") then Done(JNull, s[4..])
    else if StartsWith(s, "true") then Done(JBool(true), s[4..])
    else if StartsWith(s, "false") then Done(JBool(false), s[5..])
    else Fail
  }

  function SkipBom(s: string): string {
    if |s| >= 3 && s[0] as int == 0xEF && s[1] as int == 0xBB && s[2] as int == 0xBF then s[3..] else s
  }

  /** parse: nullptr is None; what follows the value is not looked at. */
  function Parse(s: string, stod: Stod): Option<Json> {
    match ParseValue(Skip(SkipBom(s)), stod)
    case Fail => None
    case Done(v, _) => Some(v)
  }
}
