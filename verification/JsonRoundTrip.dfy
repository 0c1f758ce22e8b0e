/** Printing and parsing back, in every layout and at every depth: exactly the values without a
    double quote in a string come back, and for them nothing after the text is touched. */
module JsonRoundTrip {
  import opened Text
  import Util
  import opened JsonValue
  import opened JsonModel

  /** What parsing the text of v, with `rest` behind it, comes to. */
  ghost function Expected(v: Json, rest: string): Parsed<Json> {
    if QuoteFree(v) then Done(v, rest) else Fail
  }

  /** The bytes behind a value do not continue a number. */
  predicate Ends(rest: string) { rest == "" || !IsNumberComponent(rest[0]) }

  // ---------------------------------------------------------------- strings

  lemma EscapedCharRead(c: char, more: string)
    ensures NextPiece(EscapeChar(c) + more) == if c == '"' then Fail else Done([c], more)
  {
    var s := EscapeChar(c) + more;
    assert |EscapeChar(c)| == 2 ==> s[0] == '\\' && s[1] == EscapeChar(c)[1] && s[2..] == more;
    assert |EscapeChar(c)| == 1 ==> s[0] == c && s[1..] == more;
  }

  lemma {:induction false} EscapedTextRead(t: string, output: string, rest: string)
    ensures ScanString(EscapeText(t) + ("\"" + rest), output) == if '"' in t then Fail else Done(output + t, rest)
    decreases |t|
  {
    hide NextPiece, EscapeChar;
    if t == "" {
      assert "" + ("\"" + rest) == "\"" + rest && output + t == output;
    } else {
      var more := EscapeText(t[1..]) + ("\"" + rest);
      var s := EscapeText(t) + ("\"" + rest);
      assert s == EscapeChar(t[0]) + more;
      EscapedCharRead(t[0], more);
      EscapedCharStart(t[0]);
      if t[0] != '"' {
        EscapedTextRead(t[1..], output + [t[0]], rest);
        assert output + [t[0]] + t[1..] == output + t;
      }
    }
  }

  lemma EscapedCharStart(c: char)
    ensures EscapeChar(c) != "" && EscapeChar(c)[0] != '"'
  {
  }

  lemma StringRead(t: string, rest: string)
    ensures ParseString(Quote(t) + rest) == if '"' in t then Fail else Done(t, rest)
  {
    hide ScanString, EscapeText;
    assert Quote(t) + rest == "\"" + (EscapeText(t) + ("\"" + rest));
    EscapedTextRead(t, "", rest);
    assert "" + t == t;
  }

  // ---------------------------------------------------------------- integers

  lemma {:induction false} NatTextRead(n: nat)
    ensures DigitsValue(NatText(n)) == n
  {
    if n >= 10 {
      NatTextRead(n / 10);
      assert NatText(n)[..|NatText(n)| - 1] == NatText(n / 10);
    }
  }

  lemma {:induction false} SpanIs(digits: string, rest: string)
    requires Ends(rest) && forall c <- digits :: IsNumberComponent(c)
    ensures NumberSpan(digits + rest) == |digits|
  {
    if digits == "" {
      assert digits + rest == rest;
    } else {
      assert (digits + rest)[1..] == digits[1..] + rest;
      SpanIs(digits[1..], rest);
    }
  }

  lemma IntLiteralText(i: int)
    ensures var t := IntText(i);
      IntLiteral(t) && IntLiteralValue(t) == i && (forall c <- t :: IsDigit(c) || c == '-') && t[|t| - 1] != '.'
  {
    NatTextRead(if i < 0 then -i else i);
    var t := IntText(i);
    assert t[0] in t && t[|t| - 1] in t;
    if i < 0 {
      assert t[1..] == NatText(-i);
    } else {
      assert IsDigit(t[0]);
    }
  }

  lemma TruncateInt(i: int)
    ensures Truncate(i as real) == i
  {
    assert (i as real).Floor == i && (-(i as real)).Floor == -i;
  }

  lemma IntRead(i: int, rest: string, stod: Stod)
    requires ReadsIntegers(stod) && Ends(rest) && -0x8000_0000 <= i <= Util.INT_MAX
    ensures var s := IntText(i) + rest;
      (IsDigit(s[0]) || s[0] == '-') && ParseNumber(s, stod) == Done(JInt(i), rest)
  {
    hide IntText, IntLiteralValue, DigitsValue, Truncate;
    var t := IntText(i);
    IntLiteralText(i);
    SpanIs(t, rest);
    var s := t + rest;
    assert s[..|t|] == t && s[|t|..] == rest && s[|t| - 1] == t[|t| - 1] && s[0] == t[0];
    TruncateInt(i);
    assert stod(t) == Some(i as real);
  }

  // ---------------------------------------------------------------- first bytes

  /** The first byte of a printed value: no blank, no closing bracket, no comma. */
  predicate StartsValue(s: string) {
    s != "" && !IsCtrlAndSpace(s[0]) && s[0] != ']' && s[0] != '}' && s[0] != ','
  }

  lemma PrintedStart(v: Json, fmt: Layout, depth: nat, dtos: real -> string)
    requires Proper(v)
    ensures StartsValue(Print(v, fmt, depth, dtos))
  {
    if v.JInt? {
      IntLiteralText(v.i);
      assert IntText(v.i)[0] in IntText(v.i);
    } else {
      hide IntText, EscapeText, PrintItems, PrintMembers;
    }
  }

  lemma {:induction false} SkipBlanks(blanks: string, s: string)
    requires forall c <- blanks :: IsCtrlAndSpace(c)
    requires s == "" || !IsCtrlAndSpace(s[0])
    ensures Skip(blanks + s) == s
  {
    if blanks == "" {
      assert blanks + s == s;
    } else {
      assert (blanks + s)[1..] == blanks[1..] + s;
      SkipBlanks(blanks[1..], s);
    }
  }

  lemma LeadIsBlank(fmt: Layout, depth: nat, first: bool)
    ensures forall c <- Lead(fmt, depth, first) :: IsCtrlAndSpace(c)
    ensures forall c <- Trail(fmt, depth) :: IsCtrlAndSpace(c)
  {
  }

  // ---------------------------------------------------------------- what follows an item

  /** The text behind the last item: the end of its container. */
  function Closing(fmt: Layout, depth: nat, close: char, rest: string): string {
    Trail(fmt, depth) + ([close] + rest)
  }

  lemma ClosingRead(fmt: Layout, depth: nat, close: char, rest: string)
    requires close == ']' || close == '}'
    ensures Ends(Closing(fmt, depth, close, rest))
    ensures AfterItem(Skip(Closing(fmt, depth, close, rest)), close) == End(rest)
  {
    LeadIsBlank(fmt, depth, true);
    SkipBlanks(Trail(fmt, depth), [close] + rest);
    assert ([close] + rest)[1..] == rest;
  }

  lemma CommaRead(others: string, close: char)
    requires close == ']' || close == '}'
    requires others != "" && others[0] != ']' && others[0] != '}'
    ensures Ends("," + others)
    ensures AfterItem(Skip("," + others), close) == More(others)
  {
    var s := "," + others;
    assert s[1..] == others && s[1] == others[0];
  }

  lemma PrintedItemsStart(items: seq<Json>, fmt: Layout, depth: nat, first: bool, dtos: real -> string)
    requires items != [] && Proper(items[0])
    ensures var s := PrintItems(items, fmt, depth, first, dtos); s != "" && s[0] != ']' && s[0] != '}'
  {
    PrintedStart(items[0], fmt, depth + 1, dtos);
  }

  lemma PrintedMembersStart(ms: seq<Member>, fmt: Layout, depth: nat, first: bool, dtos: real -> string)
    requires ms != []
    ensures var s := PrintMembers(ms, fmt, depth, first, dtos); s != "" && s[0] != ']' && s[0] != '}'
  {
    assert Quote(ms[0].key)[0] == '"';
  }

  // ---------------------------------------------------------------- the round trip

  lemma Regroup(a: string, b: string, c: string, d: string)
    ensures a + b + c + d == a + (b + (c + d))
    ensures a == "" ==> (b + c) + d == b + (c + d)
  {
  }

  /** The text behind the first of some items. */
  function ItemsBehind(items: seq<Json>, fmt: Layout, depth: nat, rest: string, dtos: real -> string): string
    requires items != []
  {
    if |items| == 1 then Closing(fmt, depth, ']', rest)
    else "," + (PrintItems(items[1..], fmt, depth, false, dtos) + Closing(fmt, depth, ']', rest))
  }

  lemma ItemsText(items: seq<Json>, fmt: Layout, depth: nat, first: bool, rest: string, dtos: real -> string)
    requires items != [] && Proper(items[0])
    ensures var s := Print(items[0], fmt, depth + 1, dtos) + ItemsBehind(items, fmt, depth, rest, dtos);
      s != "" && Skip(PrintItems(items, fmt, depth, first, dtos) + Closing(fmt, depth, ']', rest)) == s
  {
    hide Print, Closing, Lead, Skip;
    PrintedStart(items[0], fmt, depth + 1, dtos);
    LeadIsBlank(fmt, depth, first);
    var s := Print(items[0], fmt, depth + 1, dtos) + ItemsBehind(items, fmt, depth, rest, dtos);
    SkipBlanks(Lead(fmt, depth, first), s);
    var end := Closing(fmt, depth, ']', rest);
    if |items| == 1 {
      Regroup(Lead(fmt, depth, first), Print(items[0], fmt, depth + 1, dtos), "", end);
      assert "" + end == end;
    } else {
      var others := PrintItems(items[1..], fmt, depth, false, dtos);
      Regroup(Lead(fmt, depth, first), Print(items[0], fmt, depth + 1, dtos), "," + others, end);
      Regroup("", ",", others, end);
    }
  }

  lemma ItemsBehindRead(items: seq<Json>, fmt: Layout, depth: nat, rest: string, dtos: real -> string)
    requires items != [] && (|items| > 1 ==> Proper(items[1]))
    ensures Ends(ItemsBehind(items, fmt, depth, rest, dtos))
    ensures AfterItem(Skip(ItemsBehind(items, fmt, depth, rest, dtos)), ']') ==
      if |items| == 1 then End(rest)
      else More(PrintItems(items[1..], fmt, depth, false, dtos) + Closing(fmt, depth, ']', rest))
  {
    hide Closing, Skip, AfterItem, PrintItems;
    if |items| == 1 {
      ClosingRead(fmt, depth, ']', rest);
    } else {
      PrintedItemsStart(items[1..], fmt, depth, false, dtos);
      CommaRead(PrintItems(items[1..], fmt, depth, false, dtos) + Closing(fmt, depth, ']', rest), ']');
    }
  }

  lemma {:induction false} ItemsRead(items: seq<Json>, fmt: Layout, depth: nat, first: bool, acc: seq<Json>,
                                     rest: string, dtos: real -> string, stod: Stod)
    requires ReadsIntegers(stod) && items != [] && forall x <- items :: Proper(x)
    ensures ParseItems(PrintItems(items, fmt, depth, first, dtos) + Closing(fmt, depth, ']', rest), acc, stod) ==
      if forall x <- items :: QuoteFree(x) then Done(JArray(acc + items), rest) else Fail
    decreases items, 0
  {
    hide Skip, AfterItem, ParseValue, Print, PrintItems, ItemsBehind, QuoteFree, Proper, Closing, ReadsIntegers;
    var v := items[0];
    ItemsText(items, fmt, depth, first, rest, dtos);
    ItemsBehindRead(items, fmt, depth, rest, dtos);
    ValueRead(v, fmt, depth + 1, ItemsBehind(items, fmt, depth, rest, dtos), dtos, stod);
    if |items| == 1 {
      assert items == [v];
    } else if QuoteFree(v) {
      ItemsRead(items[1..], fmt, depth, false, acc + [v], rest, dtos, stod);
      assert acc + [v] + items[1..] == acc + items;
      assert (forall x <- items :: QuoteFree(x)) <==> forall x <- items[1..] :: QuoteFree(x);
    }
  }

  // ---------------------------------------------------------------- members

  function MembersBehind(ms: seq<Member>, fmt: Layout, depth: nat, rest: string, dtos: real -> string): string
    requires ms != []
  {
    if |ms| == 1 then Closing(fmt, depth, '}', rest)
    else "," + (PrintMembers(ms[1..], fmt, depth, false, dtos) + Closing(fmt, depth, '}', rest))
  }

  /** A colon, and a blank except in RAW. */
  function Colon(fmt: Layout): string { ":" + if fmt == RAW then "" else " " }

  lemma MembersText(ms: seq<Member>, fmt: Layout, depth: nat, first: bool, rest: string, dtos: real -> string)
    requires ms != []
    ensures var s := Quote(ms[0].key)
                + (Colon(fmt) + (Print(ms[0].value, fmt, depth + 1, dtos) + MembersBehind(ms, fmt, depth, rest, dtos)));
      s != "" && Skip(PrintMembers(ms, fmt, depth, first, dtos) + Closing(fmt, depth, '}', rest)) == s
  {
    hide Print, Closing, Lead, Skip, EscapeText;
    LeadIsBlank(fmt, depth, first);
    var lead, key, text := Lead(fmt, depth, first), Quote(ms[0].key), Print(ms[0].value, fmt, depth + 1, dtos);
    var end := Closing(fmt, depth, '}', rest);
    var s := key + (Colon(fmt) + (text + MembersBehind(ms, fmt, depth, rest, dtos)));
    assert s[0] == '"';
    SkipBlanks(lead, s);
    var more := if |ms| == 1 then "" else "," + PrintMembers(ms[1..], fmt, depth, false, dtos);
    Regroup5(lead, key, Colon(fmt), text, more, end);
    assert more + end == MembersBehind(ms, fmt, depth, rest, dtos) by {
      if |ms| == 1 {
        assert "" + end == end;
      } else {
        Regroup("", ",", PrintMembers(ms[1..], fmt, depth, false, dtos), end);
      }
    }
    assert lead + key + ":" + (if fmt == RAW then "" else " ") == lead + key + Colon(fmt);
  }

  lemma Regroup5(a: string, b: string, c: string, d: string, e: string, f: string)
    ensures a + b + c + d + e + f == a + (b + (c + (d + (e + f))))
  {
    Regroup(a, b, c, d);
    Regroup(a + (b + (c + d)), e, "", f);
    assert a + (b + (c + d)) + (e + f) == a + (b + (c + d) + (e + f));
    assert b + (c + d) + (e + f) == b + (c + (d + (e + f)));
  }

  lemma MembersBehindRead(ms: seq<Member>, fmt: Layout, depth: nat, rest: string, dtos: real -> string)
    requires ms != []
    ensures Ends(MembersBehind(ms, fmt, depth, rest, dtos))
    ensures AfterItem(Skip(MembersBehind(ms, fmt, depth, rest, dtos)), '}') ==
      if |ms| == 1 then End(rest)
      else More(PrintMembers(ms[1..], fmt, depth, false, dtos) + Closing(fmt, depth, '}', rest))
  {
    hide Closing, Skip, AfterItem, PrintMembers;
    if |ms| == 1 {
      ClosingRead(fmt, depth, '}', rest);
    } else {
      PrintedMembersStart(ms[1..], fmt, depth, false, dtos);
      CommaRead(PrintMembers(ms[1..], fmt, depth, false, dtos) + Closing(fmt, depth, '}', rest), '}');
    }
  }

  lemma ColonRead(fmt: Layout, more: string)
    requires more != "" && !IsCtrlAndSpace(more[0])
    ensures var s := Colon(fmt) + more; Skip(s) == s && Head(s) == ':' && Skip(s[1..]) == more
  {
    var s := Colon(fmt) + more;
    assert s[1..] == (if fmt == RAW then "" else " ") + more;
    SkipBlanks(if fmt == RAW then "" else " ", more);
  }

  lemma {:induction false} MemberRead(m: Member, fmt: Layout, depth: nat, rest: string,
                                      dtos: real -> string, stod: Stod)
    requires ReadsIntegers(stod) && Proper(m.value) && Ends(rest)
    ensures ParseMember(Quote(m.key) + (Colon(fmt) + (Print(m.value, fmt, depth, dtos) + rest)), stod) ==
      if '"' !in m.key && QuoteFree(m.value) then Done(m, rest) else Fail
    decreases m, 0
  {
    hide Skip, ParseString, ParseValue, Print, Quote, Colon, QuoteFree, Proper, ReadsIntegers, Ends;
    var more := Print(m.value, fmt, depth, dtos) + rest;
    PrintedStart(m.value, fmt, depth, dtos);
    StringRead(m.key, Colon(fmt) + more);
    ColonRead(fmt, more);
    ValueRead(m.value, fmt, depth, rest, dtos, stod);
    QuoteNotEmpty(m.key, Colon(fmt) + more);
  }

  lemma QuoteNotEmpty(t: string, more: string)
    ensures Quote(t) + more != ""
  {
  }

  lemma {:induction false} MembersRead(ms: seq<Member>, fmt: Layout, depth: nat, first: bool, acc: seq<Member>,
                                       rest: string, dtos: real -> string, stod: Stod)
    requires ReadsIntegers(stod) && ms != [] && (forall m <- ms :: Proper(m.value)) && Sorted(acc + ms)
    ensures ParseMembers(PrintMembers(ms, fmt, depth, first, dtos) + Closing(fmt, depth, '}', rest), acc, stod) ==
      if forall m <- ms :: '"' !in m.key && QuoteFree(m.value) then Done(JObject(acc + ms), rest) else Fail
    decreases ms, 0
  {
    hide Skip, AfterItem, ParseMember, Print, PrintMembers, MembersBehind, Quote, Colon, QuoteFree, Proper, Closing,
         ReadsIntegers, Insert, Less;
    var m := ms[0];
    MembersText(ms, fmt, depth, first, rest, dtos);
    MembersBehindRead(ms, fmt, depth, rest, dtos);
    MemberRead(m, fmt, depth + 1, MembersBehind(ms, fmt, depth, rest, dtos), dtos, stod);
    InsertNext(acc, ms);
    if |ms| == 1 {
      assert ms == [m];
    } else if '"' !in m.key && QuoteFree(m.value) {
      assert acc + [m] + ms[1..] == acc + ms;
      MembersRead(ms[1..], fmt, depth, false, acc + [m], rest, dtos, stod);
      assert (forall x <- ms :: '"' !in x.key && QuoteFree(x.value)) <==>
             forall x <- ms[1..] :: '"' !in x.key && QuoteFree(x.value);
    }
  }

  lemma InsertNext(acc: seq<Member>, ms: seq<Member>)
    requires ms != [] && Sorted(acc + ms)
    ensures Insert(acc, ms[0].key, ms[0].value) == acc + [ms[0]]
  {
    hide Less;
    forall x <- acc
      ensures Less(x.key, ms[0].key)
    {
      var i :| 0 <= i < |acc| && acc[i] == x;
      assert (acc + ms)[i] == x && (acc + ms)[|acc|] == ms[0];
    }
    InsertLast(acc, ms[0].key, ms[0].value);
  }

  // ---------------------------------------------------------------- values

  lemma ContainerText(open: char, text: string, fmt: Layout, depth: nat, close: char, rest: string)
    ensures var s := [open] + text + Trail(fmt, depth) + [close] + rest;
      s[0] == open && s[1..] == text + Closing(fmt, depth, close, rest) && (text != "" ==> |s| > 1 && s[1] == text[0])
  {
    hide Trail;
    Regroup([open] + text, Trail(fmt, depth), [close], rest);
    var inner := text + Closing(fmt, depth, close, rest);
    assert [open] + text + Closing(fmt, depth, close, rest) == [open] + inner;
    assert ([open] + inner)[1..] == inner;
  }

  lemma ArrayRead(v: Json, fmt: Layout, depth: nat, rest: string, dtos: real -> string, stod: Stod)
    requires ReadsIntegers(stod) && Proper(v) && v.JArray?
    ensures ParseValue(Print(v, fmt, depth, dtos) + rest, stod) == Expected(v, rest)
    decreases v, 0
  {
    var items := v.items;
    var s := Print(v, fmt, depth, dtos) + rest;
    if items == [] {
      assert s[2..] == rest;
    } else {
      hide ParseItems, PrintItems, Trail, ReadsIntegers, Closing;
      var text := PrintItems(items, fmt, depth, true, dtos);
      ContainerText('[', text, fmt, depth, ']', rest);
      PrintedItemsStart(items, fmt, depth, true, dtos);
      ItemsRead(items, fmt, depth, true, [], rest, dtos, stod);
      assert [] + items == items;
    }
  }

  lemma ObjectRead(v: Json, fmt: Layout, depth: nat, rest: string, dtos: real -> string, stod: Stod)
    requires ReadsIntegers(stod) && Proper(v) && v.JObject?
    ensures ParseValue(Print(v, fmt, depth, dtos) + rest, stod) == Expected(v, rest)
    decreases v, 0
  {
    var ms := v.members;
    var s := Print(v, fmt, depth, dtos) + rest;
    if ms == [] {
      assert s[2..] == rest;
    } else {
      hide ParseMembers, PrintMembers, Trail, ReadsIntegers, Less, Closing;
      var text := PrintMembers(ms, fmt, depth, true, dtos);
      ContainerText('{', text, fmt, depth, '}', rest);
      PrintedMembersStart(ms, fmt, depth, true, dtos);
      assert [] + ms == ms;
      MembersRead(ms, fmt, depth, true, [], rest, dtos, stod);
    }
  }

  lemma ScalarRead(v: Json, rest: string, dtos: real -> string, stod: Stod)
    requires v.JNull? || v.JBool? || v.JString?
    ensures ParseValue(Print(v, RAW, 0, dtos) + rest, stod) == Expected(v, rest)
  {
    var s := Print(v, RAW, 0, dtos) + rest;
    match v
    case JNull => assert s[..4] == "null" && s[4..] == rest && s[0] == 'n';
    case JBool(b) =>
      if b {
        assert s[..4] == "true" && s[4..] == rest && s[0] == 't' && s[..4][0] == 't';
      } else {
        assert s[..5] == "false" && s[5..] == rest && s[0] == 'f' && s[..4][0] == 'f';
      }
    case JString(t) =>
      hide ParseString;
      StringRead(t, rest);
      assert s[0] == '"';
  }

  /** The text of a value, with anything behind it that does not continue a number, parses to that
      value and leaves exactly what was behind it; unless some string has a quote in it, and then
      there is no value. */
  lemma {:induction false} ValueRead(v: Json, fmt: Layout, depth: nat, rest: string, dtos: real -> string, stod: Stod)
    requires ReadsIntegers(stod) && Proper(v) && Ends(rest)
    ensures ParseValue(Print(v, fmt, depth, dtos) + rest, stod) == Expected(v, rest)
    decreases v, 1
  {
    match v
    case JInt(i) =>
      hide ParseNumber, IntText, ReadsIntegers;
      IntRead(i, rest, stod);
    case JArray(_) => ArrayRead(v, fmt, depth, rest, dtos, stod);
    case JObject(_) => ObjectRead(v, fmt, depth, rest, dtos, stod);
    case JDouble(_) =>
    case _ => ScalarRead(v, rest, dtos, stod);
  }

  lemma WholeText(v: Json, fmt: Layout, depth: nat, dtos: real -> string, stod: Stod)
    requires ReadsIntegers(stod) && Proper(v)
    ensures Parse(Print(v, fmt, depth, dtos), stod) == if QuoteFree(v) then Some(v) else None
  {
    hide ParseValue, Print, QuoteFree, Proper, ReadsIntegers;
    var s := Print(v, fmt, depth, dtos);
    PrintedStart(v, fmt, depth, dtos);
    ValueRead(v, fmt, depth, "", dtos, stod);
    assert s + "" == s && SkipBom(s) == s && Skip(s) == s;
  }

  /** Printing in any layout and parsing gives the value back exactly when no string or key holds a
      double quote. */
  lemma RoundTripIff(v: Json, fmt: Layout, depth: nat, dtos: real -> string, stod: Stod)
    requires ReadsIntegers(stod) && Proper(v)
    ensures Parse(Print(v, fmt, depth, dtos), stod) == Some(v) <==> QuoteFree(v)
  {
    WholeText(v, fmt, depth, dtos, stod);
  }

  /** So every layout of a value parses to one tree, and printing that tree again in the same layout
      reproduces the text. */
  lemma LayoutsAgree(v: Json, fmt: Layout, fmt': Layout, depth: nat, depth': nat, dtos: real -> string, stod: Stod)
    requires ReadsIntegers(stod) && Proper(v) && QuoteFree(v)
    ensures var parsed := Parse(Print(v, fmt, depth, dtos), stod);
      parsed == Parse(Print(v, fmt', depth', dtos), stod)
      && parsed.Some? && Print(parsed.value, fmt, depth, dtos) == Print(v, fmt, depth, dtos)
  {
    WholeText(v, fmt, depth, dtos, stod);
    WholeText(v, fmt', depth', dtos, stod);
  }

  // ---------------------------------------------------------------- from any text

  /** Whatever text it came from, a parsed value without doubles has its objects in key order and its
      integers in range. */
  lemma {:induction false} ParsedProper(s: string, stod: Stod)
    ensures ParseValue(s, stod).Done? && DoubleFree(ParseValue(s, stod).value) ==> Proper(ParseValue(s, stod).value)
    decreases |s|, 1
  {
    hide ParseItems, ParseMembers, ParseString;
    if s != "" {
      if s[0] == '{' {
        ParsedMembersProper(s[1..], [], stod);
      } else if s[0] == '[' {
        ParsedItemsProper(s[1..], [], stod);
      } else if s[0] == '-' || IsDigit(s[0]) {
        ParsedNumberProper(s, stod);
      }
    }
  }

  lemma ParsedNumberProper(s: string, stod: Stod)
    requires s != "" && (IsDigit(s[0]) || s[0] == '-')
    ensures ParseNumber(s, stod).Done? ==> ParseNumber(s, stod).value.JDouble? || Proper(ParseNumber(s, stod).value)
  {
  }

  lemma {:induction false} ParsedItemsProper(s: string, items: seq<Json>, stod: Stod)
    requires forall x <- items :: DoubleFree(x) ==> Proper(x)
    ensures ParseItems(s, items, stod).Done? && DoubleFree(ParseItems(s, items, stod).value) ==>
      Proper(ParseItems(s, items, stod).value)
    decreases |s|, 2
  {
    hide ParseValue, AfterItem, Skip;
    var s1 := Skip(s);
    if s1 != "" {
      ParsedProper(s1, stod);
      match ParseValue(s1, stod)
      case Fail =>
      case Done(v, rest) =>
        match AfterItem(Skip(rest), ']')
        case More(rest) => ParsedItemsProper(rest, items + [v], stod);
        case _ =>
    }
  }

  lemma {:induction false} ParsedMembersProper(s: string, ms: seq<Member>, stod: Stod)
    requires Sorted(ms) && forall m <- ms :: DoubleFree(m.value) ==> Proper(m.value)
    ensures ParseMembers(s, ms, stod).Done? && DoubleFree(ParseMembers(s, ms, stod).value) ==>
      Proper(ParseMembers(s, ms, stod).value)
    decreases |s|, 3
  {
    hide ParseMember, AfterItem, Skip, Insert, Less;
    var s1 := Skip(s);
    if s1 != "" {
      ParsedMemberProper(s1, stod);
      match ParseMember(s1, stod)
      case Fail =>
      case Done(m, rest) =>
        InsertSorted(ms, m.key, m.value);
        match AfterItem(Skip(rest), '}')
        case More(rest) => ParsedMembersProper(rest, Insert(ms, m.key, m.value), stod);
        case _ =>
    }
  }

  lemma {:induction false} ParsedMemberProper(s: string, stod: Stod)
    requires s != ""
    ensures ParseMember(s, stod).Done? && DoubleFree(ParseMember(s, stod).value.value) ==>
      Proper(ParseMember(s, stod).value.value)
    decreases |s|, 2
  {
    hide ParseString, ParseValue, Skip;
    match ParseString(s)
    case Fail =>
    case Done(key, rest) =>
      var s1 := Skip(rest);
      if Head(s1) == ':' {
        ParsedProper(Skip(s1[1..]), stod);
      }
  }

  /** Printing what was parsed and parsing again changes nothing, from any text and in any layout,
      exactly when no parsed string holds a quote (an escape \u0022 can put one there). */
  lemma ReprintedTextIff(s: string, fmt: Layout, depth: nat, dtos: real -> string, stod: Stod)
    requires ReadsIntegers(stod) && Parse(s, stod).Some? && DoubleFree(Parse(s, stod).value)
    ensures var v := Parse(s, stod).value;
      Parse(Print(v, fmt, depth, dtos), stod) == Some(v) <==> QuoteFree(v)
  {
    hide ReadsIntegers;
    ParsedProper(Skip(SkipBom(s)), stod);
    WholeText(Parse(s, stod).value, fmt, depth, dtos, stod);
  }
}
