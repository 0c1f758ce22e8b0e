/** What the layouts of the JSON printer look like (haha_web/haha_json/haha_json/jsonValue.h:135-296), told from the
    compact text alone: which blanks stand where, and nothing else. */
module JsonLayout {
  import opened Text
  import opened JsonValue

  // ---------------------------------------------------------------- where a byte stands

  datatype Quoting = Out | In | Escaped

  /** Outside or inside a quoted string, behind a backslash there; how many brackets are open; and whether
      the byte before was an opening one. */
  datatype Place = Place(quoting: Quoting, depth: nat, atOpen: bool)

  const START := Place(Out, 0, false)

  predicate Opens(c: char) { c == '[' || c == '{' }

  predicate Closes(c: char) { c == ']' || c == '}' }

  function Requoted(q: Quoting, c: char): Quoting {
    match q
    case Out => if c == '"' then In else Out
    case In => if c == '\\' then Escaped else if c == '"' then Out else In
    case Escaped => In
  }

  function Past(p: Place, c: char): Place {
    var q := Requoted(p.quoting, c);
    if p.quoting != Out then Place(q, p.depth, false)
    else if Opens(c) then Place(q, p.depth + 1, true)
    else if Closes(c) && p.depth > 0 then Place(q, p.depth - 1, false)
    else Place(q, p.depth, false)
  }

  function PastAll(p: Place, s: string): Place
    decreases |s|
  {
    if s == "" then p else PastAll(Past(p, s[0]), s[1..])
  }

  // ---------------------------------------------------------------- the layouts

  /** A line feed and as many tabs as brackets are open. */
  function NewLine(depth: nat): string { "\n" + seq(depth, _ => '\t') }

  /** NEWLINE: a new line behind an opening bracket unless it is closed at once, and before a closing one
      unless it was just opened. */
  function Before(fmt: Layout, p: Place, c: char): string {
    if fmt != NEWLINE || p.quoting != Out then ""
    else if Closes(c) then if p.atOpen || p.depth == 0 then "" else NewLine(p.depth - 1)
    else if p.atOpen then NewLine(p.depth)
    else ""
  }

  /** Behind a colon a blank, behind a comma a blank or a new line. */
  function Behind(fmt: Layout, p: Place, c: char): string {
    if fmt == RAW || p.quoting != Out then ""
    else if c == ':' then " "
    else if c == ',' then if fmt == NEWLINE then NewLine(p.depth) else " "
    else ""
  }

  /** The compact text with the blanks of a layout put in. */
  function Laid(fmt: Layout, p: Place, raw: string): string
    decreases |raw|
  {
    if raw == "" then ""
    else Before(fmt, p, raw[0]) + ([raw[0]] + (Behind(fmt, p, raw[0]) + Laid(fmt, Past(p, raw[0]), raw[1..])))
  }

  predicate IsBlank(c: char) { c as int <= 32 }

  /** No blank or control byte outside quoted strings. */
  predicate Compact(p: Place, s: string)
    decreases |s|
  {
    s == "" || (!(p.quoting == Out && IsBlank(s[0])) && Compact(Past(p, s[0]), s[1..]))
  }

  /** The text without those. */
  function Squeezed(q: Quoting, s: string): string
    decreases |s|
  {
    if s == "" then ""
    else (if q == Out && IsBlank(s[0]) then "" else [s[0]]) + Squeezed(Requoted(q, s[0]), s[1..])
  }

  // ---------------------------------------------------------------- putting texts together

  lemma {:induction false} LaidAppend(fmt: Layout, p: Place, a: string, b: string)
    ensures PastAll(p, a + b) == PastAll(PastAll(p, a), b)
    ensures Laid(fmt, p, a + b) == Laid(fmt, p, a) + Laid(fmt, PastAll(p, a), b)
    ensures Compact(p, a + b) <==> Compact(p, a) && Compact(PastAll(p, a), b)
    decreases |a|
  {
    hide Before, Behind, Past;
    if a == "" {
      assert a + b == b;
    } else {
      assert (a + b)[0] == a[0] && (a + b)[1..] == a[1..] + b;
      LaidAppend(fmt, Past(p, a[0]), a[1..], b);
      Regroup(Before(fmt, p, a[0]), [a[0]], Behind(fmt, p, a[0]), Laid(fmt, Past(p, a[0]), a[1..]),
              Laid(fmt, PastAll(Past(p, a[0]), a[1..]), b));
    }
  }

  lemma Regroup(a: string, b: string, c: string, d: string, e: string)
    ensures a + (b + (c + d)) + e == a + (b + (c + (d + e)))
  {
  }

  lemma LaidOne(fmt: Layout, p: Place, c: char)
    ensures Laid(fmt, p, [c]) == Before(fmt, p, c) + ([c] + Behind(fmt, p, c))
    ensures PastAll(p, [c]) == Past(p, c) && (Compact(p, [c]) <==> !(p.quoting == Out && IsBlank(c)))
  {
    hide Before, Behind, Past;
    assert [c][1..] == "" && Behind(fmt, p, c) + "" == Behind(fmt, p, c);
  }

  // ---------------------------------------------------------------- scalars and strings

  /** A byte that is none of JSON's own marks, and no blank. */
  predicate Ordinary(c: char) { !IsBlank(c) && c != '"' && !Opens(c) && !Closes(c) && c != ',' && c != ':' }

  predicate OrdinaryText(s: string) { s != "" && forall c <- s :: Ordinary(c) }

  /** What std::to_string writes for doubles is such a text. */
  ghost predicate PlainDoubles(dtos: real -> string) { forall d :: OrdinaryText(dtos(d)) }

  /** What stands before a value that is the first of its container. */
  function Opened(fmt: Layout, p: Place): string {
    if fmt == NEWLINE && p.atOpen then NewLine(p.depth) else ""
  }

  lemma {:induction false} OrdinaryLaid(fmt: Layout, p: Place, s: string)
    requires p.quoting == Out && !p.atOpen && forall c <- s :: Ordinary(c)
    ensures Laid(fmt, p, s) == s && PastAll(p, s) == p && Compact(p, s)
    decreases |s|
  {
    if s != "" {
      assert s[0] in s && s == [s[0]] + s[1..];
      OrdinaryLaid(fmt, p, s[1..]);
    }
  }

  lemma AtomLaid(fmt: Layout, p: Place, s: string)
    requires p.quoting == Out && OrdinaryText(s)
    ensures Laid(fmt, p, s) == Opened(fmt, p) + s && PastAll(p, s) == p.(atOpen := false) && Compact(p, s)
  {
    hide Laid, PastAll, Compact;
    var c, more := s[0], s[1..];
    assert c in s && s == [c] + more;
    LaidOne(fmt, p, c);
    OrdinaryLaid(fmt, p.(atOpen := false), more);
    LaidAppend(fmt, p, [c], more);
    assert Past(p, c) == p.(atOpen := false) && Before(fmt, p, c) == Opened(fmt, p) && Behind(fmt, p, c) == "";
    Regroup(Opened(fmt, p), [c], "", "", more);
  }

  lemma {:induction false} EscapedLaid(fmt: Layout, p: Place, t: string)
    requires p.quoting == In && !p.atOpen
    ensures var s := EscapeText(t); Laid(fmt, p, s) == s && PastAll(p, s) == p && Compact(p, s)
    decreases |t|
  {
    hide EscapeChar;
    if t != "" {
      var e := EscapeChar(t[0]);
      EscapedCharLaid(fmt, p, t[0]);
      EscapedLaid(fmt, p, t[1..]);
      LaidAppend(fmt, p, e, EscapeText(t[1..]));
    }
  }

  lemma EscapedCharLaid(fmt: Layout, p: Place, c: char)
    requires p.quoting == In && !p.atOpen
    ensures var s := EscapeChar(c); Laid(fmt, p, s) == s && PastAll(p, s) == p && Compact(p, s)
  {
    var s := EscapeChar(c);
    if |s| == 2 {
      var p1 := Place(Escaped, p.depth, false);
      LaidOne(fmt, p, s[0]);
      LaidOne(fmt, p1, s[1]);
      LaidAppend(fmt, p, [s[0]], [s[1]]);
      assert s == [s[0]] + [s[1]];
    } else {
      LaidOne(fmt, p, c);
    }
  }

  lemma QuoteLaid(fmt: Layout, p: Place, t: string)
    requires p.quoting == Out
    ensures var s := Quote(t);
      Laid(fmt, p, s) == Opened(fmt, p) + s && PastAll(p, s) == p.(atOpen := false) && Compact(p, s)
  {
    hide EscapeText, Laid, PastAll, Compact, Opened;
    var inside := Place(In, p.depth, false);
    QuoteOpens(fmt, p);
    LaidOne(fmt, p, '"');
    EscapedLaid(fmt, inside, t);
    LaidOne(fmt, inside, '"');
    LaidAppend(fmt, inside, EscapeText(t), "\"");
    LaidAppend(fmt, p, "\"", EscapeText(t) + "\"");
    assert Quote(t) == "\"" + (EscapeText(t) + "\"");
  }

  lemma QuoteOpens(fmt: Layout, p: Place)
    requires p.quoting == Out
    ensures Before(fmt, p, '"') == Opened(fmt, p) && Behind(fmt, p, '"') == ""
    ensures Past(p, '"') == Place(In, p.depth, false)
  {
  }

  // ---------------------------------------------------------------- values

  lemma {:induction false} NatTextOrdinary(n: nat)
    ensures OrdinaryText(NatText(n))
  {
  }

  lemma IntTextOrdinary(i: int)
    ensures OrdinaryText(IntText(i))
  {
    NatTextOrdinary(if i < 0 then -i else i);
  }

  lemma WordsOrdinary()
    ensures OrdinaryText("null") && OrdinaryText("true") && OrdinaryText("false")
  {
  }

  /** The layout of a value at a place: what it adds to the compact text. */
  ghost predicate LaidOut(v: Json, fmt: Layout, p: Place, dtos: real -> string) {
    var raw := Print(v, RAW, p.depth, dtos);
    Laid(fmt, p, raw) == Opened(fmt, p) + Print(v, fmt, p.depth, dtos) && PastAll(p, raw) == p.(atOpen := false)
    && Compact(p, raw)
  }

  lemma {:induction false} ValueLaid(v: Json, fmt: Layout, p: Place, dtos: real -> string)
    requires p.quoting == Out && PlainDoubles(dtos)
    ensures LaidOut(v, fmt, p, dtos)
    decreases v, 1
  {
    hide Laid, Compact, PastAll, PrintItems, PrintMembers, OrdinaryText, IntText, EscapeText, Opened;
    WordsOrdinary();
    match v
    case JNull => AtomLaid(fmt, p, "null");
    case JBool(b) => AtomLaid(fmt, p, if b then "true" else "false");
    case JInt(i) =>
      IntTextOrdinary(i);
      AtomLaid(fmt, p, IntText(i));
    case JDouble(d) => AtomLaid(fmt, p, dtos(d));
    case JString(s) => QuoteLaid(fmt, p, s);
    case JArray(items) =>
      if items == [] {
        EmptyLaid(fmt, p, '[', ']');
      } else {
        ItemsLaid(items, fmt, Place(Out, p.depth + 1, true), true, dtos);
        ContainerLaid(fmt, p, '[', ']', PrintItems(items, RAW, p.depth, true, dtos),
                      PrintItems(items, fmt, p.depth, true, dtos));
      }
    case JObject(ms) =>
      if ms == [] {
        EmptyLaid(fmt, p, '{', '}');
      } else {
        MembersLaid(ms, fmt, Place(Out, p.depth + 1, true), true, dtos);
        ContainerLaid(fmt, p, '{', '}', PrintMembers(ms, RAW, p.depth, true, dtos),
                      PrintMembers(ms, fmt, p.depth, true, dtos));
      }
  }

  lemma EmptyLaid(fmt: Layout, p: Place, open: char, close: char)
    requires p.quoting == Out && Opens(open) && Closes(close)
    ensures var s := [open, close];
      Laid(fmt, p, s) == Opened(fmt, p) + s && PastAll(p, s) == p.(atOpen := false) && Compact(p, s)
  {
    LaidOne(fmt, p, open);
    LaidOne(fmt, Place(Out, p.depth + 1, true), close);
    LaidAppend(fmt, p, [open], [close]);
    assert [open, close] == [open] + [close];
  }

  /** A container around its items, which stand behind the bracket just atOpen. */
  lemma ContainerLaid(fmt: Layout, p: Place, open: char, close: char, raw: string, text: string)
    requires p.quoting == Out && Opens(open) && Closes(close)
    requires var inside := Place(Out, p.depth + 1, true);
      Laid(fmt, inside, raw) == text && PastAll(inside, raw) == inside.(atOpen := false) && Compact(inside, raw)
    ensures var s := [open] + raw + "" + [close];
      Laid(fmt, p, s) == Opened(fmt, p) + ([open] + text + Trail(fmt, p.depth) + [close])
      && PastAll(p, s) == p.(atOpen := false) && Compact(p, s)
  {
    hide Laid, Compact, PastAll;
    var inside := Place(Out, p.depth + 1, true);
    LaidOne(fmt, p, open);
    LaidOne(fmt, inside.(atOpen := false), close);
    LaidAppend(fmt, inside, raw, [close]);
    LaidAppend(fmt, p, [open], raw + [close]);
    assert [open] + raw + "" + [close] == [open] + (raw + [close]);
    var before := Opened(fmt, p);
    assert before + ([open] + "") + (text + (Trail(fmt, p.depth) + ([close] + ""))) ==
           before + ([open] + text + Trail(fmt, p.depth) + [close]);
  }

  lemma {:induction false} ItemsLaid(items: seq<Json>, fmt: Layout, p: Place, first: bool, dtos: real -> string)
    requires p.quoting == Out && p.depth > 0 && p.atOpen == first && items != [] && PlainDoubles(dtos)
    ensures var raw := PrintItems(items, RAW, p.depth - 1, first, dtos);
      && (if first then "" else Lead(fmt, p.depth - 1, false)) + Laid(fmt, p, raw)
         == PrintItems(items, fmt, p.depth - 1, first, dtos)
      && PastAll(p, raw) == p.(atOpen := false) && Compact(p, raw)
    decreases items, 0
  {
    hide Laid, Compact, PastAll, Print, PlainDoubles, Lead, Opened, Behind;
    var d := p.depth - 1;
    var raw, text := Print(items[0], RAW, d + 1, dtos), Print(items[0], fmt, d + 1, dtos);
    ValueLaid(items[0], fmt, p, dtos);
    LeadIs(fmt, p, first);
    Led(fmt, p, first, text, "");
    if |items| == 1 {
      Single(raw);
    } else {
      var more := PrintItems(items[1..], RAW, d, false, dtos);
      ItemsLaid(items[1..], fmt, p.(atOpen := false), false, dtos);
      OneMore(fmt, p, raw, more);
      SameBehind(fmt, p);
      Led(fmt, p, first, text, "," + PrintItems(items[1..], fmt, d, false, dtos));
    }
  }

  lemma SameBehind(fmt: Layout, p: Place)
    requires p.quoting == Out && p.depth > 0
    ensures Behind(fmt, p.(atOpen := false), ',') == Lead(fmt, p.depth - 1, false)
  {
  }

  /** What leads the first item stands behind the bracket, what leads another behind the comma. */
  lemma Led(fmt: Layout, p: Place, first: bool, text: string, more: string)
    requires p.quoting == Out && p.depth > 0 && p.atOpen == first
    ensures var lead := Lead(fmt, p.depth - 1, first);
      (if first then "" else Lead(fmt, p.depth - 1, false)) + (Opened(fmt, p) + text + more) == lead + text + more
  {
    hide Lead;
    LeadIs(fmt, p, first);
    assert "" + text == text;
  }

  lemma Single(raw: string)
    ensures "" + raw + "" == raw
  {
  }

  /** A comma and what comes behind it. */
  lemma OneMore(fmt: Layout, p: Place, raw: string, more: string)
    requires p.quoting == Out && PastAll(p, raw) == p.(atOpen := false)
    ensures var q := p.(atOpen := false); var s := "" + raw + ("," + more);
      && Laid(fmt, p, s) == Laid(fmt, p, raw) + ("," + (Behind(fmt, q, ',') + Laid(fmt, q, more)))
      && PastAll(p, s) == PastAll(q, more) && (Compact(p, raw) && Compact(q, more) ==> Compact(p, s))
  {
    hide Laid, Compact, PastAll, Behind;
    var q := p.(atOpen := false);
    LaidOne(fmt, q, ',');
    LaidAppend(fmt, q, ",", more);
    LaidAppend(fmt, p, raw, "," + more);
    assert "" + raw + ("," + more) == raw + ("," + more);
    assert "" + ("," + Behind(fmt, q, ',')) + Laid(fmt, q, more) == "," + (Behind(fmt, q, ',') + Laid(fmt, q, more));
  }

  /** A key, a colon and a value. */
  lemma MemberLaid(m: Member, fmt: Layout, p: Place, dtos: real -> string)
    requires p.quoting == Out && LaidOut(m.value, fmt, p.(atOpen := false), dtos)
    ensures var raw := Quote(m.key) + (":" + Print(m.value, RAW, p.depth, dtos));
      Laid(fmt, p, raw) == Opened(fmt, p) + (Quote(m.key) + (":" + ((if fmt == RAW then "" else " ")
                                                                   + Print(m.value, fmt, p.depth, dtos))))
      && PastAll(p, raw) == p.(atOpen := false) && Compact(p, raw)
  {
    hide Laid, Compact, PastAll, Print, Quote, Opened;
    var q := p.(atOpen := false);
    var raw, text := Print(m.value, RAW, p.depth, dtos), Print(m.value, fmt, p.depth, dtos);
    QuoteLaid(fmt, p, m.key);
    LaidOne(fmt, q, ':');
    LaidAppend(fmt, q, ":", raw);
    LaidAppend(fmt, p, Quote(m.key), ":" + raw);
    NotOpened(fmt, q);
    var blank := if fmt == RAW then "" else " ";
    var before, key := Opened(fmt, p), Quote(m.key);
    assert before + key + ("" + (":" + blank) + ("" + text)) == before + (key + (":" + (blank + text)));
  }

  lemma NotOpened(fmt: Layout, p: Place)
    ensures !p.atOpen ==> Opened(fmt, p) == ""
  {
  }

  lemma {:induction false} MembersLaid(ms: seq<Member>, fmt: Layout, p: Place, first: bool, dtos: real -> string)
    requires p.quoting == Out && p.depth > 0 && p.atOpen == first && ms != [] && PlainDoubles(dtos)
    ensures var raw := PrintMembers(ms, RAW, p.depth - 1, first, dtos);
      && (if first then "" else Lead(fmt, p.depth - 1, false)) + Laid(fmt, p, raw)
         == PrintMembers(ms, fmt, p.depth - 1, first, dtos)
      && PastAll(p, raw) == p.(atOpen := false) && Compact(p, raw)
    decreases ms, 0
  {
    hide Laid, Compact, PastAll, Print, PrintMembers, PlainDoubles, Quote, Opened, Lead, Behind;
    var d, m := p.depth - 1, ms[0];
    ValueLaid(m.value, fmt, p.(atOpen := false), dtos);
    MemberLaid(m, fmt, p, dtos);
    var raw := Quote(m.key) + (":" + Print(m.value, RAW, d + 1, dtos));
    var text := Quote(m.key) + (":" + ((if fmt == RAW then "" else " ") + Print(m.value, fmt, d + 1, dtos)));
    MemberPrinted(ms, RAW, d, first, dtos);
    MemberPrinted(ms, fmt, d, first, dtos);
    assert "" + Print(m.value, RAW, d + 1, dtos) == Print(m.value, RAW, d + 1, dtos);
    LeadIs(fmt, p, first);
    Led(fmt, p, first, text, "");
    if |ms| == 1 {
      Single(raw);
    } else {
      MembersLaid(ms[1..], fmt, p.(atOpen := false), false, dtos);
      OneMore(fmt, p, raw, PrintMembers(ms[1..], RAW, d, false, dtos));
      SameBehind(fmt, p);
      Led(fmt, p, first, text, "," + PrintMembers(ms[1..], fmt, d, false, dtos));
    }
  }

  lemma MemberPrinted(ms: seq<Member>, fmt: Layout, d: nat, first: bool, dtos: real -> string)
    requires ms != []
    ensures PrintMembers(ms, fmt, d, first, dtos) ==
      Lead(fmt, d, first)
      + (Quote(ms[0].key) + (":" + ((if fmt == RAW then "" else " ") + Print(ms[0].value, fmt, d + 1, dtos))))
      + if |ms| == 1 then "" else "," + PrintMembers(ms[1..], fmt, d, false, dtos)
  {
    hide Print, Quote, Lead;
    var more := if |ms| == 1 then "" else "," + PrintMembers(ms[1..], fmt, d, false, dtos);
    Regroup6(Lead(fmt, d, first), Quote(ms[0].key), ":", if fmt == RAW then "" else " ",
             Print(ms[0].value, fmt, d + 1, dtos), more);
  }

  lemma Regroup6(a: string, b: string, c: string, d: string, e: string, f: string)
    ensures a + b + c + d + e + f == a + (b + (c + (d + e))) + f
  {
  }

  /** Lead is what stands before the first item, or behind a comma. */
  lemma LeadIs(fmt: Layout, p: Place, first: bool)
    requires p.quoting == Out && p.depth > 0 && p.atOpen == first
    ensures Lead(fmt, p.depth - 1, first) == if first then Opened(fmt, p) else Behind(fmt, p, ',')
    ensures Lead(RAW, p.depth - 1, first) == ""
  {
  }

  // ---------------------------------------------------------------- whole texts

  /** Every layout of every value is its compact text with the blanks of the layout put in: in NEWLINE a new
      line behind each opening bracket and before each closing one, unless they are one behind the other,
      and behind each comma, with a tab for each bracket open there; a blank behind each colon; in SPACE a
      blank behind each comma and colon. The compact text has no blank, and its brackets pair off. */
  lemma LayoutIs(v: Json, fmt: Layout, dtos: real -> string)
    requires PlainDoubles(dtos)
    ensures var raw := Print(v, RAW, 0, dtos);
      Print(v, fmt, 0, dtos) == Laid(fmt, START, raw) && Compact(START, raw) && PastAll(START, raw) == START
  {
    hide Print, Laid, Compact, PastAll;
    ValueLaid(v, fmt, START, dtos);
    assert Opened(fmt, START) + Print(v, fmt, 0, dtos) == Print(v, fmt, 0, dtos);
  }

  lemma {:induction false} BlanksSqueezed(blanks: string, s: string)
    requires forall c <- blanks :: IsBlank(c)
    ensures Squeezed(Out, blanks + s) == Squeezed(Out, s)
    decreases |blanks|
  {
    if blanks == "" {
      assert blanks + s == s;
    } else {
      assert blanks[0] in blanks && (blanks + s)[1..] == blanks[1..] + s;
      BlanksSqueezed(blanks[1..], s);
    }
  }

  lemma BlanksAround(fmt: Layout, p: Place, c: char)
    ensures forall b <- Before(fmt, p, c) :: IsBlank(b)
    ensures forall b <- Behind(fmt, p, c) :: IsBlank(b)
    ensures p.quoting != Out ==> Before(fmt, p, c) == "" && Behind(fmt, p, c) == ""
    ensures Past(p, c).quoting == Requoted(p.quoting, c)
    ensures Behind(fmt, p, c) != "" ==> Requoted(p.quoting, c) == Out
  {
  }

  lemma {:induction false} LaidSqueezed(fmt: Layout, p: Place, raw: string)
    requires Compact(p, raw)
    ensures Squeezed(p.quoting, Laid(fmt, p, raw)) == raw
    decreases |raw|
  {
    hide Before, Behind, Past, Requoted;
    if raw != "" {
      var c, more := raw[0], Laid(fmt, Past(p, raw[0]), raw[1..]);
      var q := Requoted(p.quoting, c);
      BlanksAround(fmt, p, c);
      LaidSqueezed(fmt, Past(p, c), raw[1..]);
      var behind := Behind(fmt, p, c) + more;
      assert Squeezed(q, behind) == raw[1..] by {
        if Behind(fmt, p, c) == "" {
          assert behind == more;
        } else {
          BlanksSqueezed(Behind(fmt, p, c), more);
        }
      }
      SqueezedOne(p.quoting, c, behind);
      if Before(fmt, p, c) == "" {
        assert "" + ([c] + behind) == [c] + behind;
      } else {
        BlanksSqueezed(Before(fmt, p, c), [c] + behind);
      }
      assert raw == [c] + raw[1..];
    }
  }

  lemma SqueezedOne(q: Quoting, c: char, more: string)
    requires !(q == Out && IsBlank(c))
    ensures Squeezed(q, [c] + more) == [c] + Squeezed(Requoted(q, c), more)
  {
    assert ([c] + more)[1..] == more;
  }

  /** So the layouts differ in blanks outside strings alone. */
  lemma LayoutsSqueezeAlike(v: Json, fmt: Layout, dtos: real -> string)
    requires PlainDoubles(dtos)
    ensures Squeezed(Out, Print(v, fmt, 0, dtos)) == Print(v, RAW, 0, dtos)
  {
    hide Print, Laid, Compact, PastAll;
    LayoutIs(v, fmt, dtos);
    LaidSqueezed(fmt, START, Print(v, RAW, 0, dtos));
  }

  // ---------------------------------------------------------------- the compact text

  function Joined(texts: seq<string>, between: string): string {
    if texts == [] then ""
    else if |texts| == 1 then texts[0]
    else Joined(texts[..|texts| - 1], between) + between + texts[|texts| - 1]
  }

  function ItemTexts(items: seq<Json>, depth: nat, dtos: real -> string): seq<string> {
    seq(|items|, i requires 0 <= i < |items| => Print(items[i], RAW, depth, dtos))
  }

  function MemberText(m: Member, depth: nat, dtos: real -> string): string {
    Quote(m.key) + ":" + Print(m.value, RAW, depth, dtos)
  }

  function MemberTexts(ms: seq<Member>, depth: nat, dtos: real -> string): seq<string> {
    seq(|ms|, i requires 0 <= i < |ms| => MemberText(ms[i], depth, dtos))
  }

  /** An array is its items between commas and brackets, an object its keys, each with its value, the
      same: no comma is left over, no key unquoted. */
  lemma RawArray(items: seq<Json>, depth: nat, dtos: real -> string)
    ensures Print(JArray(items), RAW, depth, dtos)
         == "[" + Joined(ItemTexts(items, depth + 1, dtos), ",") + "]"
  {
    hide Joined, PrintItems;
    var texts := ItemTexts(items, depth + 1, dtos);
    if items == [] {
      assert texts == [];
      assert Joined([], ",") == "" by { NothingJoined(); }
      assert "[" + "" + "]" == "[]";
    } else {
      ItemsJoined(items, depth, true, dtos);
      assert "[" + Joined(texts, ",") + "" + "]" == "[" + Joined(texts, ",") + "]";
    }
  }

  lemma NothingJoined()
    ensures Joined([], ",") == ""
  {
  }

  lemma {:induction false} JoinedFirst(texts: seq<string>, between: string)
    requires |texts| > 1
    ensures Joined(texts, between) == texts[0] + (between + Joined(texts[1..], between))
    decreases |texts|
  {
    var front, last := texts[..|texts| - 1], texts[|texts| - 1];
    if |texts| > 2 {
      JoinedFirst(front, between);
      assert texts[1..][..|texts| - 2] == front[1..] && texts[1..][|texts| - 2] == last;
      Regroup6("", "", texts[0], between, Joined(front[1..], between), between + last);
      assert texts[0] + (between + Joined(front[1..], between)) + between + last ==
             texts[0] + (between + (Joined(front[1..], between) + between + last));
    } else {
      assert texts[0] + between + last == texts[0] + (between + last);
    }
  }

  lemma {:induction false} ItemsJoined(items: seq<Json>, depth: nat, first: bool, dtos: real -> string)
    requires items != []
    ensures PrintItems(items, RAW, depth, first, dtos)
         == Joined(ItemTexts(items, depth + 1, dtos), ",")
    decreases |items|
  {
    hide Print;
    var texts := ItemTexts(items, depth + 1, dtos);
    if |items| > 1 {
      var more := items[1..];
      ItemsJoined(more, depth, false, dtos);
      JoinedFirst(texts, ",");
      assert texts[1..] == ItemTexts(more, depth + 1, dtos);
      assert "" + texts[0] == texts[0];
    } else {
      assert "" + texts[0] + "" == texts[0];
    }
  }

  lemma RawObject(ms: seq<Member>, depth: nat, dtos: real -> string)
    ensures Print(JObject(ms), RAW, depth, dtos)
         == "{" + Joined(MemberTexts(ms, depth + 1, dtos), ",") + "}"
  {
    hide Joined, PrintMembers, MemberText;
    var texts := MemberTexts(ms, depth + 1, dtos);
    if ms == [] {
      assert texts == [];
      assert Joined([], ",") == "" by { NothingJoined(); }
      assert "{" + "" + "}" == "{}";
    } else {
      MembersJoined(ms, depth, true, dtos);
      assert "{" + Joined(texts, ",") + "" + "}" == "{" + Joined(texts, ",") + "}";
    }
  }

  lemma {:induction false} MembersJoined(ms: seq<Member>, depth: nat, first: bool, dtos: real -> string)
    requires ms != []
    ensures PrintMembers(ms, RAW, depth, first, dtos)
         == Joined(MemberTexts(ms, depth + 1, dtos), ",")
    decreases |ms|
  {
    hide Print, Quote, PrintMembers;
    var texts := MemberTexts(ms, depth + 1, dtos);
    MemberPrinted(ms, RAW, depth, first, dtos);
    var key, text := Quote(ms[0].key), Print(ms[0].value, RAW, depth + 1, dtos);
    assert "" + (key + (":" + ("" + text))) == key + ":" + text;
    if |ms| > 1 {
      var more := ms[1..];
      MembersJoined(more, depth, false, dtos);
      JoinedFirst(texts, ",");
      assert texts[1..] == MemberTexts(more, depth + 1, dtos);
    } else {
      assert texts[0] + "" == texts[0];
    }
  }

  // ---------------------------------------------------------------- scalars

  /** The bytes a string is printed with a backslash for, and the letters behind it. */
  const PRINTED: seq<(nat, char)> := [(34, '"'), (92, '\\'), (10, 'n'), (13, 'r'), (9, 't'), (8, 'b'), (12, 'f')]

  /** A byte of a string as it is printed: those with a letter get it, all others stay as they are. */
  ghost predicate PrintedByte(c: char, t: string) {
    || (exists k :: 0 <= k < |PRINTED| && PRINTED[k].0 == c as nat && t == ['\\', PRINTED[k].1])
    || (t == [c] && forall k :: 0 <= k < |PRINTED| ==> PRINTED[k].0 != c as nat)
  }

  lemma BytePrinted(c: char)
    ensures PrintedByte(c, EscapeChar(c))
  {
    assert PRINTED[0] == (34, '"') && PRINTED[1] == (92, '\\') && PRINTED[2] == (10, 'n') && PRINTED[3] == (13, 'r');
    assert PRINTED[4] == (9, 't') && PRINTED[5] == (8, 'b') && PRINTED[6] == (12, 'f');
  }

  /** A string is printed byte by byte between quotation marks. */
  lemma {:induction false} TextPrinted(s: string) returns (bytes: seq<string>)
    ensures |bytes| == |s| && forall i :: 0 <= i < |s| ==> PrintedByte(s[i], bytes[i])
    ensures EscapeText(s) == Concat(bytes) && Print(JString(s), RAW, 0, _ => "") == "\"" + Concat(bytes) + "\""
  {
    if s == "" {
      bytes := [];
    } else {
      hide PrintedByte, EscapeChar;
      BytePrinted(s[0]);
      var more := TextPrinted(s[1..]);
      bytes := [EscapeChar(s[0])] + more;
      assert bytes[1..] == more;
    }
  }

  lemma WordsPrinted(b: bool, i: int, fmt: Layout, depth: nat, dtos: real -> string)
    ensures Print(JNull, fmt, depth, dtos) == "null"
    ensures Print(JBool(b), fmt, depth, dtos) == if b then "true" else "false"
    ensures i >= 0 ==> Print(JInt(i), fmt, depth, dtos) == NatText(i)
    ensures i < 0 ==> Print(JInt(i), fmt, depth, dtos) == "-" + NatText(-i)
  {
  }
}
