/** The JSON parser and printer in the form the sources have: parse functions that eat a shared view
    from the front, print functions that append to a result
    (haha_web/haha_json/haha_json/json.cpp, jsonUtil.cpp, jsonValue.h, jsonValue.cpp). */
module JsonParser {
  import opened Text
  import opened JsonValue
  import JsonModel
  import Bits
  import Util

  /** The std::string_view& every parse function takes. */
  class StringView {
    var view: string

    constructor (s: string)
      ensures view == s
    {
      view := s;
    }

    method RemovePrefix(n: nat)
      requires n <= |view|
      modifies this
      ensures view == old(view)[n..]
    {
      view := view[n..];
    }
  }

  /** What a parse function returned (nullptr is None) and left in the view agree with the model. On
      failure the view is left anywhere. */
  ghost predicate Agrees<T(!new)>(p: JsonModel.Parsed<T>, r: Option<T>, view: string) {
    match p
    case Fail => r.None?
    case Done(v, rest) => r == Some(v) && view == rest
  }

  // ---------------------------------------------------------------- jsonUtil.cpp

  method SkipCtrlAndSpace(str: StringView)
    modifies str
    ensures str.view == JsonModel.Skip(old(str.view))
  {
    while str.view != "" && JsonModel.IsCtrlAndSpace(str.view[0])
      invariant JsonModel.Skip(str.view) == JsonModel.Skip(old(str.view))
      decreases |str.view|
    {
      str.RemovePrefix(1);
    }
  }

  method ParseHex4(input: string) returns (h: nat)
    requires |input| >= 4
    ensures h == JsonModel.ParseHex4(input)
  {
    h := 0;
    for i := 0 to 4
      invariant forall k :: 0 <= k < i ==> Util.IsXDigit(input[k])
      invariant i == 1 ==> h == Util.Hex2Dec(input[0]) * 16
      invariant i == 2 ==> h == (Util.Hex2Dec(input[0]) * 16 + Util.Hex2Dec(input[1])) * 16
      invariant i == 3 ==> h == ((Util.Hex2Dec(input[0]) * 16 + Util.Hex2Dec(input[1])) * 16
                                 + Util.Hex2Dec(input[2])) * 16
      invariant i == 0 ==> h == 0
      invariant i == 4 ==> h == JsonModel.ParseHex4(input)
    {
      if !Util.IsXDigit(input[i]) {
        return 0;
      }
      h := h + Util.Hex2Dec(input[i]);
      if i < 3 {
        Bits.Bits4(h);
        h := Bits.Shl(h, 4);
      }
    }
  }

  /** The encoder's loop: it fills the bytes from the back, six bits at a time. */
  method EncodeUtf8(cp: nat) returns (output: string)
    requires cp <= 0x10FFFF
    ensures output == JsonModel.Utf8(cp)
  {
    hide Bits.And, Bits.Or, Bits.Shr;
    var codepoint := cp;
    var length, mark := 1, 0;
    if codepoint < 0x80 {
    } else if codepoint < 0x800 {
      length, mark := 2, 0xC0;
    } else if codepoint < 0x1_0000 {
      length, mark := 3, 0xE0;
    } else {
      length, mark := 4, 0xF0;
    }
    output := seq(length, _ => '\0');
    var position := length - 1;
    while position > 0
      invariant 0 <= position < length == |output|
      invariant position == length - 1 ==> codepoint == cp
      invariant position == length - 2 ==> codepoint == cp / 64 && output[length - 1] == JsonModel.Continuation(cp)
      invariant position == length - 3 ==> codepoint == cp / 4096 && output[length - 1] == JsonModel.Continuation(cp)
                                           && output[length - 2] == JsonModel.Continuation(cp / 64)
      invariant position == length - 4 ==> codepoint == cp / 262144 && output[length - 1] == JsonModel.Continuation(cp)
                                           && output[length - 2] == JsonModel.Continuation(cp / 64)
                                           && output[length - 3] == JsonModel.Continuation(cp / 4096)
    {
      Bits.ContinuationBits(codepoint);
      Bits.Bits6(codepoint);
      output := output[position := Bits.And(Bits.Or(codepoint, 0x80), 0xBF) as char];
      codepoint := Bits.Shr(codepoint, 6);
      position := position - 1;
    }
    if length > 1 {
      Bits.MarkBits(codepoint, mark);
      output := output[0 := Bits.And(Bits.Or(codepoint, mark), 0xFF) as char];
    } else {
      Bits.SevenBits(codepoint);
      output := output[0 := Bits.And(codepoint, 0x7F) as char];
    }
  }

  /** An empty result is the failure; the parser cannot take it for an encoded character. */
  method Utf16LiteralToUtf8(str: StringView) returns (output: string)
    requires |str.view| >= 2
    modifies str
    ensures output != "" || JsonModel.Utf16Literal(old(str.view)).Fail?
    ensures Agrees(JsonModel.Utf16Literal(old(str.view)), if output == "" then None else Some(output), str.view)
  {
    hide JsonModel.ParseHex4, JsonModel.Continuation, Bits.And, Bits.Or, Bits.Shl;
    ghost var s := str.view;
    str.RemovePrefix(2);
    if |str.view| < 4 {
      return "";
    }
    var first := ParseHex4(str.view[..4]);
    assert s[2..][..4] == s[2..6];
    if 0xDC00 <= first <= 0xDFFF {
      return "";
    }
    str.RemovePrefix(4);
    assert str.view == s[6..];
    var codepoint := first;
    if 0xD800 <= first <= 0xDBFF {
      if |str.view| < 6 || str.view[0] != '\\' || str.view[1] != 'u' {
        return "";
      }
      str.RemovePrefix(2);
      var second := ParseHex4(str.view[..4]);
      assert str.view == s[8..] && s[8..][..4] == s[8..12];
      if second < 0xDC00 || second > 0xDFFF {
        return "";
      }
      Bits.JoinBits(first, second);
      codepoint := 0x1_0000 + Bits.Or(Bits.Shl(Bits.And(first, 0x3FF), 10), Bits.And(second, 0x3FF));
      str.RemovePrefix(4);
      assert str.view == s[12..];
    }
    output := EncodeUtf8(codepoint);
  }

  // ---------------------------------------------------------------- json.cpp

  /** The digits after \x. */
  method ParseHexDigits(str: StringView) returns (hexs: string)
    modifies str
    ensures var n := JsonModel.HexSpan(old(str.view)); hexs == old(str.view)[..n] && str.view == old(str.view)[n..]
  {
    ghost var s := str.view;
    hexs := "";
    while str.view != "" && Util.IsXDigit(str.view[0])
      invariant |hexs| <= |s| && hexs == s[..|hexs|] && str.view == s[|hexs|..]
      invariant JsonModel.HexSpan(s) == |hexs| + JsonModel.HexSpan(str.view)
      decreases |str.view|
    {
      hexs := hexs + [str.view[0]];
      str.RemovePrefix(1);
    }
  }

  /** One turn of parse_string's loop. */
  method ParsePiece(str: StringView) returns (piece: Option<string>)
    requires str.view != ""
    modifies str
    ensures Agrees(JsonModel.NextPiece(old(str.view)), piece, str.view)
  {
    if str.view[0] != '\\' {
      piece := Some([str.view[0]]);
      str.RemovePrefix(1);
      return;
    }
    if |str.view| < 2 {
      return None;
    }
    match JsonModel.ShortEscape(str.view[1])
    case Some(c) =>
      piece := Some([c]);
      str.RemovePrefix(2);
    case None =>
      if str.view[1] == 'x' {
        str.RemovePrefix(2);
        var hexs := ParseHexDigits(str);
        piece := if hexs == "" then None else Some(JsonModel.HexEscape(hexs));
      } else if str.view[1] == 'u' {
        var temp := Utf16LiteralToUtf8(str);
        piece := if temp == "" then None else Some(temp);
      } else {
        piece := None;
      }
  }

  method ParseString(str: StringView) returns (r: Option<string>)
    modifies str
    ensures Agrees(JsonModel.ParseString(old(str.view)), r, str.view)
  {
    hide JsonModel.NextPiece;
    if JsonModel.Head(str.view) != '"' {
      return None;
    }
    ghost var s := str.view;
    str.RemovePrefix(1);
    var output := "";
    while str.view != "" && str.view[0] != '"'
      invariant JsonModel.ScanString(s[1..], "") == JsonModel.ScanString(str.view, output)
      decreases |str.view|
    {
      var piece := ParsePiece(str);
      if piece == None {
        return None;
      }
      output := output + piece.value;
    }
    if str.view == "" {
      return None;
    }
    str.RemovePrefix(1);
    r := Some(output);
  }

  method ParseNumber(str: StringView, stod: JsonModel.Stod) returns (r: Option<Json>)
    requires str.view != "" && (IsDigit(str.view[0]) || str.view[0] == '-')
    modifies str
    ensures Agrees(JsonModel.ParseNumber(old(str.view), stod), r, str.view)
  {
    ghost var s := str.view;
    var isInt, text := true, "";
    while str.view != "" && JsonModel.IsNumberComponent(str.view[0])
      invariant |text| <= |s| && text == s[..|text|] && str.view == s[|text|..]
      invariant JsonModel.NumberSpan(s) == |text| + JsonModel.NumberSpan(str.view)
      invariant text != "" ==> isInt == (text[|text| - 1] != '.')
      decreases |str.view|
    {
      isInt := str.view[0] != '.';
      text := text + [str.view[0]];
      str.RemovePrefix(1);
    }
    var number := stod(text);
    if number == None {
      return None;
    }
    if isInt && -0x8000_0000 as real <= number.value <= 0x7FFF_FFFF as real {
      r := Some(JInt(JsonModel.Truncate(number.value)));
    } else {
      r := Some(JDouble(number.value));
    }
  }

  /** check_func of parse_array and parse_object: whether another item follows. */
  method CheckMore(str: StringView, close: char) returns (more: bool)
    requires str.view != "" && close != '\0' && close != ','
    modifies str
    ensures match JsonModel.AfterItem(old(str.view), close)
      case More(rest) => more && str.view == rest
      case End(rest) => !more && str.view != "" && str.view[0] == close && str.view[1..] == rest
      case Neither => !more && str.view != "" && str.view[0] != close
    ensures |str.view| <= |old(str.view)|
  {
    more := false;
    if str.view[0] == ',' {
      str.RemovePrefix(1);
      more := str.view == "" || str.view[0] != close;
    }
  }

  /** One item, up to the mark behind it. */
  method ParseItem(str: StringView, stod: JsonModel.Stod) returns (r: Option<Json>)
    modifies str
    ensures var s := JsonModel.Skip(old(str.view));
      match if s == "" then JsonModel.Fail else JsonModel.ParseValue(s, stod)
      case Fail => r.None?
      case Done(v, rest) => r == Some(v) && str.view == JsonModel.Skip(rest) && |rest| < |old(str.view)|
    decreases |str.view|, 2
  {
    SkipCtrlAndSpace(str);
    if str.view == "" {
      return None;
    }
    r := ParseValue(str, stod);
    SkipCtrlAndSpace(str);
  }

  method ParseArray(str: StringView, stod: JsonModel.Stod) returns (r: Option<Json>)
    modifies str
    ensures JsonModel.Head(old(str.view)) == '[' ==> Agrees(JsonModel.ParseValue(old(str.view), stod), r, str.view)
    ensures JsonModel.Head(old(str.view)) != '[' ==> r == None
    decreases |str.view|, 0
  {
    if JsonModel.Head(str.view) != '[' {
      return None;
    }
    ghost var s := str.view;
    str.RemovePrefix(1);
    if str.view != "" && str.view[0] == ']' {
      str.RemovePrefix(1);
      return Some(JArray([]));
    }
    var arr, more := [], true;
    while more
      invariant |str.view| < |s|
      invariant more ==> JsonModel.ParseItems(s[1..], [], stod) == JsonModel.ParseItems(str.view, arr, stod)
      invariant !more ==> JsonModel.ParseItems(s[1..], [], stod)
                          == if JsonModel.Head(str.view) == ']' then JsonModel.Done(JArray(arr), str.view[1..])
                             else JsonModel.Fail
      decreases more, |str.view|
    {
      ghost var t, before := str.view, arr;
      var jv := ParseItem(str, stod);
      if jv == None {
        return None;
      }
      arr := arr + [jv.value];
      assert JsonModel.ParseItems(t, before, stod) ==
             match JsonModel.AfterItem(str.view, ']')
             case Neither => JsonModel.Fail
             case End(rest) => JsonModel.Done(JArray(arr), rest)
             case More(rest) => JsonModel.ParseItems(rest, arr, stod);
      if str.view == "" {
        more := false;
      } else {
        more := CheckMore(str, ']');
      }
    }
    if JsonModel.Head(str.view) != ']' {
      return None;
    }
    str.RemovePrefix(1);
    r := Some(JArray(arr));
  }

  /** A key, the colon and the value behind it. */
  method ParseMember(str: StringView, stod: JsonModel.Stod) returns (r: Option<Member>)
    modifies str
    ensures var s := JsonModel.Skip(old(str.view));
      match if s == "" then JsonModel.Fail else JsonModel.ParseMember(s, stod)
      case Fail => r.None?
      case Done(m, rest) => r == Some(m) && str.view == JsonModel.Skip(rest) && |rest| < |old(str.view)|
    decreases |str.view|, 2
  {
    SkipCtrlAndSpace(str);
    if str.view == "" {
      return None;
    }
    var k := ParseString(str);
    if k == None {
      return None;
    }
    SkipCtrlAndSpace(str);
    if JsonModel.Head(str.view) != ':' {
      return None;
    }
    str.RemovePrefix(1);
    SkipCtrlAndSpace(str);
    if str.view == "" {
      return None;
    }
    var v := ParseValue(str, stod);
    if v == None {
      return None;
    }
    r := Some(Member(k.value, v.value));
    SkipCtrlAndSpace(str);
  }

  method ParseObject(str: StringView, stod: JsonModel.Stod) returns (r: Option<Json>)
    modifies str
    ensures JsonModel.Head(old(str.view)) == '{' ==> Agrees(JsonModel.ParseValue(old(str.view), stod), r, str.view)
    ensures JsonModel.Head(old(str.view)) != '{' ==> r == None
    decreases |str.view|, 0
  {
    if JsonModel.Head(str.view) != '{' {
      return None;
    }
    ghost var s := str.view;
    str.RemovePrefix(1);
    if str.view != "" && str.view[0] == '}' {
      str.RemovePrefix(1);
      return Some(JObject([]));
    }
    var obj, more := [], true;
    while more
      invariant |str.view| < |s|
      invariant more ==> JsonModel.ParseMembers(s[1..], [], stod) == JsonModel.ParseMembers(str.view, obj, stod)
      invariant !more ==> JsonModel.ParseMembers(s[1..], [], stod)
                          == if JsonModel.Head(str.view) == '}' then JsonModel.Done(JObject(obj), str.view[1..])
                             else JsonModel.Fail
      decreases more, |str.view|
    {
      ghost var t, before := str.view, obj;
      var m := ParseMember(str, stod);
      if m == None {
        return None;
      }
      obj := Insert(obj, m.value.key, m.value.value);
      assert JsonModel.ParseMembers(t, before, stod) ==
             match JsonModel.AfterItem(str.view, '}')
             case Neither => JsonModel.Fail
             case End(rest) => JsonModel.Done(JObject(obj), rest)
             case More(rest) => JsonModel.ParseMembers(rest, obj, stod);
      if str.view == "" {
        more := false;
      } else {
        more := CheckMore(str, '}');
      }
    }
    if JsonModel.Head(str.view) != '}' {
      return None;
    }
    str.RemovePrefix(1);
    r := Some(JObject(obj));
  }

  method ParseValue(str: StringView, stod: JsonModel.Stod) returns (r: Option<Json>)
    modifies str
    ensures Agrees(JsonModel.ParseValue(old(str.view), stod), r, str.view)
    decreases |str.view|, 1
  {
    if str.view == "" {
      return None;
    }
    if str.view[0] == '{' {
      r := ParseObject(str, stod);
      return;
    }
    if str.view[0] == '[' {
      r := ParseArray(str, stod);
      return;
    }
    if str.view[0] == '"' {
      var text := ParseString(str);
      r := if text.Some? then Some(JString(text.value)) else None;
      return;
    }
    if str.view[0] == '-' || IsDigit(str.view[0]) {
      r := ParseNumber(str, stod);
      return;
    }
    if StartsWith(str.view, "null") {
      str.RemovePrefix(4);
      return Some(JNull);
    }
    if StartsWith(str.view, "true") {
      str.RemovePrefix(4);
      return Some(JBool(true));
    }
    if StartsWith(str.view, "false") {
      str.RemovePrefix(5);
      return Some(JBool(false));
    }
    r := None;
  }

  method Parse(s: string, stod: JsonModel.Stod) returns (r: Option<Json>)
    ensures r == JsonModel.Parse(s, stod)
  {
    var view := new StringView(JsonModel.SkipBom(s));
    SkipCtrlAndSpace(view);
    r := ParseValue(view, stod);
  }

  // ---------------------------------------------------------------- printing

  method StringToString(s: string) returns (res: string)
    ensures res == Quote(s)
  {
    res := "\"";
    var view := s;
    while view != ""
      invariant res + EscapeText(view) == "\"" + EscapeText(s)
      decreases |view|
    {
      res := res + EscapeChar(view[0]);
      view := view[1..];
    }
    res := res + "\"";
  }

  /** What toString appends for one item: its new line, its text, the comma and the blank behind it. */
  ghost function Appended(text: string, fmt: Layout, depth: nat, last: bool): string {
    (if fmt == NEWLINE then "\n" + Tabs(depth + 1) else "") + text
    + if last then "" else if fmt == SPACE then ", " else ","
  }

  lemma Regroup(res: string, lead: string, text: string, comma: string)
    ensures res + lead + text + comma == res + (lead + text + comma)
  {
  }

  /** The lead of an item and the comma and blank behind it. */
  method Append(res: string, text: string, fmt: Layout, depth: nat, last: bool) returns (r: string)
    ensures r == res + Appended(text, fmt, depth, last)
  {
    r := res;
    if fmt == NEWLINE {
      r := r + ("\n" + Tabs(depth + 1));
    }
    r := r + text;
    if !last {
      r := r + ",";
      if fmt == SPACE {
        r := r + " ";
      }
    }
    ghost var comma := if last then "" else if fmt == SPACE then ", " else ",";
    ghost var lead := if fmt == NEWLINE then "\n" + Tabs(depth + 1) else "";
    assert r == res + lead + text + comma;
    Regroup(res, lead, text, comma);
  }

  lemma FirstItem(items: seq<Json>, fmt: Layout, depth: nat, dtos: real -> string)
    requires items != []
    ensures PrintItems(items, fmt, depth, true, dtos)
         == Appended(Print(items[0], fmt, depth + 1, dtos), fmt, depth, |items| == 1)
            + if |items| == 1 then "" else PrintItems(items[1..], fmt, depth, true, dtos)
  {
    hide Print, Tabs;
    var text := Print(items[0], fmt, depth + 1, dtos);
    if |items| > 1 {
      ItemsAfterComma(items[1..], fmt, depth, dtos);
      var more := PrintItems(items[1..], fmt, depth, true, dtos);
      AfterComma(Lead(fmt, depth, true) + text, fmt == SPACE, more);
    }
  }

  lemma AfterComma(s: string, blank: bool, more: string)
    ensures s + ("," + ((if blank then " " else "") + more)) == s + (if blank then ", " else ",") + more
  {
  }

  /** The blank that SPACE puts behind a comma stands before the next item. */
  lemma ItemsAfterComma(items: seq<Json>, fmt: Layout, depth: nat, dtos: real -> string)
    requires items != []
    ensures PrintItems(items, fmt, depth, false, dtos)
         == (if fmt == SPACE then " " else "") + PrintItems(items, fmt, depth, true, dtos)
  {
    hide Print, Tabs;
  }

  method ArrayToString(items: seq<Json>, fmt: Layout, depth: nat, dtos: real -> string) returns (res: string)
    ensures res == Print(JArray(items), fmt, depth, dtos)
    decreases items, 0
  {
    hide Tabs, PrintItems, Appended;
    res := "[";
    ghost var all := if items == [] then "" else PrintItems(items, fmt, depth, true, dtos);
    for i := 0 to |items|
      invariant res + (if i == |items| then "" else PrintItems(items[i..], fmt, depth, true, dtos)) == "[" + all
    {
      var text := ToString(items[i], fmt, depth + 1, dtos);
      FirstItem(items[i..], fmt, depth, dtos);
      assert items[i..][1..] == items[i + 1..];
      res := Append(res, text, fmt, depth, i + 1 == |items|);
    }
    assert res == "[" + all;
    ClosedWith(fmt, depth, all, "[");
    if fmt == NEWLINE && items != [] {
      res := res + ("\n" + Tabs(depth));
    }
    res := res + "]";
  }

  lemma FirstMember(ms: seq<Member>, fmt: Layout, depth: nat, dtos: real -> string)
    requires ms != []
    ensures PrintMembers(ms, fmt, depth, true, dtos)
         == Appended(MemberText(ms[0], fmt, depth, dtos), fmt, depth, |ms| == 1)
            + if |ms| == 1 then "" else PrintMembers(ms[1..], fmt, depth, true, dtos)
  {
    hide Print, Tabs, Quote;
    var text := MemberText(ms[0], fmt, depth, dtos);
    MemberGrouped(ms, fmt, depth, true, dtos);
    if |ms| > 1 {
      MembersAfterComma(ms[1..], fmt, depth, dtos);
      var more := PrintMembers(ms[1..], fmt, depth, true, dtos);
      AfterComma(Lead(fmt, depth, true) + text, fmt == SPACE, more);
    }
  }

  /** A member without what stands around it. */
  ghost function MemberText(m: Member, fmt: Layout, depth: nat, dtos: real -> string): string {
    Quote(m.key) + ":" + (if fmt == RAW then "" else " ") + Print(m.value, fmt, depth + 1, dtos)
  }

  lemma MemberGrouped(ms: seq<Member>, fmt: Layout, depth: nat, first: bool, dtos: real -> string)
    requires ms != []
    ensures PrintMembers(ms, fmt, depth, first, dtos)
         == Lead(fmt, depth, first) + MemberText(ms[0], fmt, depth, dtos)
            + if |ms| == 1 then "" else "," + PrintMembers(ms[1..], fmt, depth, false, dtos)
  {
    hide Print, Quote, Lead;
    var lead, key, blank := Lead(fmt, depth, first), Quote(ms[0].key), if fmt == RAW then "" else " ";
    var text := Print(ms[0].value, fmt, depth + 1, dtos);
    Regroup5(lead, key, ":", blank, text);
  }

  lemma Regroup5(a: string, b: string, c: string, d: string, e: string)
    ensures a + b + c + d + e == a + (b + c + d + e)
  {
  }

  lemma MembersAfterComma(ms: seq<Member>, fmt: Layout, depth: nat, dtos: real -> string)
    requires ms != []
    ensures PrintMembers(ms, fmt, depth, false, dtos)
         == (if fmt == SPACE then " " else "") + PrintMembers(ms, fmt, depth, true, dtos)
  {
    hide Print, Tabs, Quote, MemberText;
    MemberGrouped(ms, fmt, depth, false, dtos);
    MemberGrouped(ms, fmt, depth, true, dtos);
  }

  method ObjectToString(ms: seq<Member>, fmt: Layout, depth: nat, dtos: real -> string) returns (res: string)
    ensures res == Print(JObject(ms), fmt, depth, dtos)
    decreases ms, 0
  {
    hide Tabs, PrintMembers, Appended, Quote;
    res := "{";
    ghost var all := if ms == [] then "" else PrintMembers(ms, fmt, depth, true, dtos);
    for i := 0 to |ms|
      invariant res + (if i == |ms| then "" else PrintMembers(ms[i..], fmt, depth, true, dtos)) == "{" + all
    {
      var key := StringToString(ms[i].key);
      var text := ToString(ms[i].value, fmt, depth + 1, dtos);
      FirstMember(ms[i..], fmt, depth, dtos);
      assert ms[i..][1..] == ms[i + 1..];
      res := Append(res, key + ":" + (if fmt == RAW then "" else " ") + text, fmt, depth, i + 1 == |ms|);
    }
    assert res == "{" + all;
    ClosedWith(fmt, depth, all, "{");
    if fmt == NEWLINE && ms != [] {
      res := res + ("\n" + Tabs(depth));
    }
    res := res + "}";
  }

  /** The closing of a container that is not empty. */
  lemma ClosedWith(fmt: Layout, depth: nat, all: string, bracket: string)
    ensures fmt == NEWLINE ==> bracket + all + ("\n" + Tabs(depth)) == bracket + all + Trail(fmt, depth)
    ensures fmt != NEWLINE ==> bracket + all == bracket + all + Trail(fmt, depth)
  {
  }

  /** The virtual toString of the node types. */
  method ToString(v: Json, fmt: Layout, depth: nat, dtos: real -> string) returns (res: string)
    ensures res == Print(v, fmt, depth, dtos)
    decreases v, 1
  {
    match v
    case JNull => res := "null";
    case JBool(b) => res := if b then "true" else "false";
    case JInt(i) => res := IntText(i);
    case JDouble(d) => res := dtos(d);
    case JString(s) => res := StringToString(s);
    case JArray(items) => res := ArrayToString(items, fmt, depth, dtos);
    case JObject(ms) => res := ObjectToString(ms, fmt, depth, dtos);
  }
}
