/** The texts the JSON parser accepts, as a grammar with everything it lets through: blanks of any kind, a comma
    before a closing bracket, a member given twice, text behind the value. Whatever is written by it is
    parsed to what it means, and whatever is parsed is written by it. */
module JsonGrammar {
  import opened Text
  import Util
  import opened JsonValue
  import opened JsonModel
  import opened JsonStrings

  /** A value as it is written: a word, a number, a string, an array or an object; `comma` says that a comma
      stands before the closing bracket. */
  datatype Doc =
    | Null | True | False
    | Num(text: string)
    | Str(pieces: seq<Piece>)
    | Arr(items: seq<Elem>, comma: bool)
    | Obj(pairs: seq<Pair>, comma: bool)

  /** An item between what stands before and behind it, and a member with what stands around its colon. */
  datatype Elem = Elem(before: string, doc: Doc, after: string)
  datatype Pair = Pair(before: string, key: seq<Piece>, between: string, gap: string, doc: Doc, after: string)

  /** Bytes passed over: up to 32, and from 128 on, where a signed char is negative. */
  predicate IsBlank(c: char) { c as int <= 32 || c as int >= 128 }

  predicate Blanks(s: string) { forall c <- s :: IsBlank(c) }

  const NUMBER_BYTES := "0123456789eE-."

  predicate NumberText(t: string) {
    t != "" && (t[0] == '-' || IsDigit(t[0])) && forall c <- t :: c in NUMBER_BYTES
  }

  /** Nothing behind a number goes on with it. */
  predicate NumberEnds(rest: string) { rest == "" || rest[0] !in NUMBER_BYTES }

  ghost predicate DocOk(d: Doc, stod: Stod)
    decreases d
  {
    match d
    case Num(t) => NumberText(t) && stod(t).Some?
    case Str(ps) => PiecesOk(ps)
    case Arr(items, comma) =>
      (comma ==> items != []) && forall x <- items :: Blanks(x.before) && Blanks(x.after) && DocOk(x.doc, stod)
    case Obj(pairs, comma) =>
      (comma ==> pairs != []) && forall x <- pairs ::
        Blanks(x.before) && PiecesOk(x.key) && Blanks(x.between) && Blanks(x.gap) && Blanks(x.after)
        && DocOk(x.doc, stod)
    case _ => true
  }

  function DocText(d: Doc): string
    decreases d, 1
  {
    match d
    case Null => "null"
    case True => "true"
    case False => "false"
    case Num(t) => t
    case Str(ps) => StringText(ps)
    case Arr(items, comma) => "[" + ItemsText(items, comma, "]")
    case Obj(pairs, comma) => "{" + PairsText(pairs, comma, "}")
  }

  /** What stands behind the last item. */
  function EndText(comma: bool, close: string): string { if comma then "," + close else close }

  function ItemsText(items: seq<Elem>, comma: bool, close: string): string
    decreases items, 0
  {
    if items == [] then close
    else
      items[0].before + (DocText(items[0].doc) + (items[0].after +
        if |items| == 1 then EndText(comma, close) else "," + ItemsText(items[1..], comma, close)))
  }

  function PairsText(pairs: seq<Pair>, comma: bool, close: string): string
    decreases pairs, 0
  {
    if pairs == [] then close
    else
      pairs[0].before + (StringText(pairs[0].key) + (pairs[0].between + (":" + (pairs[0].gap
      + (DocText(pairs[0].doc) + (pairs[0].after +
         if |pairs| == 1 then EndText(comma, close) else "," + PairsText(pairs[1..], comma, close)))))))
  }

  /** A number is an integer if it does not end in a point and is within an int, cut off towards zero. */
  predicate NumberMeans(t: string, x: real, v: Json)
    requires t != ""
  {
    if t[|t| - 1] == '.' || x < -2147483648.0 || x > 2147483647.0 then v == JDouble(x)
    else v.JInt? && if x >= 0.0 then v.i as real <= x < v.i as real + 1.0 else v.i as real - 1.0 < x <= v.i as real
  }

  /** What a text means; of two members of one key the first counts. */
  ghost predicate Means(d: Doc, v: Json, stod: Stod)
    requires DocOk(d, stod)
    decreases d, 1
  {
    match d
    case Null => v == JNull
    case True => v == JBool(true)
    case False => v == JBool(false)
    case Num(t) => NumberMeans(t, stod(t).value, v)
    case Str(ps) => v == JString(PiecesBytes(ps))
    case Arr(items, _) =>
      v.JArray? && |v.items| == |items| && forall i :: 0 <= i < |items| ==> Means(items[i].doc, v.items[i], stod)
    case Obj(pairs, _) =>
      v.JObject? && exists vs: seq<Json> ::
        |vs| == |pairs| && (forall i :: 0 <= i < |pairs| ==> Means(pairs[i].doc, vs[i], stod))
        && v.members == Gathered(pairs, vs, [])
  }

  /** The members put into a map one after the other. */
  ghost function Gathered(pairs: seq<Pair>, vs: seq<Json>, ms: seq<Member>): seq<Member>
    requires |vs| == |pairs| && forall x <- pairs :: PiecesOk(x.key)
    decreases |pairs|
  {
    if pairs == [] then ms else Gathered(pairs[1..], vs[1..], Insert(ms, PiecesBytes(pairs[0].key), vs[0]))
  }

  // ---------------------------------------------------------------- reading

  lemma {:induction false} BlanksSkipped(blanks: string, s: string)
    requires Blanks(blanks) && (s == "" || !IsBlank(s[0]))
    ensures Skip(blanks + s) == s
  {
    if blanks == "" {
      assert blanks + s == s;
    } else {
      assert blanks[0] in blanks && (blanks + s)[1..] == blanks[1..] + s;
      BlanksSkipped(blanks[1..], s);
    }
  }

  lemma {:induction false} SkippedBlanks(s: string) returns (blanks: string)
    ensures Blanks(blanks) && s == blanks + Skip(s) && (Skip(s) == "" || !IsBlank(Skip(s)[0]))
  {
    hide Blanks;
    if s != "" && IsCtrlAndSpace(s[0]) {
      var more := SkippedBlanks(s[1..]);
      blanks := [s[0]] + more;
      BlankFirst(s[0], more);
      assert s == [s[0]] + (more + Skip(s)) == blanks + Skip(s);
    } else {
      blanks := "";
      assert Blanks("") by { NoBlanks(); }
      assert s == "" + Skip(s);
    }
  }

  lemma BlankFirst(c: char, more: string)
    requires IsBlank(c) && Blanks(more)
    ensures Blanks([c] + more)
  {
  }

  lemma NoBlanks()
    ensures Blanks("")
  {
  }

  lemma NumberBytes(c: char)
    ensures c in NUMBER_BYTES <==> IsNumberComponent(c)
  {
    assert NUMBER_BYTES[0] == '0' && NUMBER_BYTES[1] == '1' && NUMBER_BYTES[2] == '2' && NUMBER_BYTES[3] == '3';
    assert NUMBER_BYTES[4] == '4' && NUMBER_BYTES[5] == '5' && NUMBER_BYTES[6] == '6' && NUMBER_BYTES[7] == '7';
    assert NUMBER_BYTES[8] == '8' && NUMBER_BYTES[9] == '9' && NUMBER_BYTES[10] == 'e' && NUMBER_BYTES[11] == 'E';
    assert NUMBER_BYTES[12] == '-' && NUMBER_BYTES[13] == '.' && |NUMBER_BYTES| == 14;
    if IsDigit(c) {
      assert c == NUMBER_BYTES[c as int - '0' as int];
    }
  }

  lemma {:induction false} NumberSpans(t: string, rest: string)
    requires (forall c <- t :: c in NUMBER_BYTES) && NumberEnds(rest)
    ensures NumberSpan(t + rest) == |t|
  {
    hide IsNumberComponent;
    if t == "" {
      assert t + rest == rest;
      if rest != "" {
        NumberBytes(rest[0]);
      }
    } else {
      NumberBytes(t[0]);
      assert t[0] in t && (t + rest)[1..] == t[1..] + rest;
      NumberSpans(t[1..], rest);
    }
  }

  lemma {:induction false} SpannedNumber(s: string)
    ensures var n := NumberSpan(s); (forall c <- s[..n] :: c in NUMBER_BYTES) && NumberEnds(s[n..])
  {
    hide IsNumberComponent;
    if s != "" {
      NumberBytes(s[0]);
      if IsNumberComponent(s[0]) {
        SpannedNumber(s[1..]);
        var n := NumberSpan(s[1..]);
        assert s[..n + 1] == [s[0]] + s[1..][..n] && s[n + 1..] == s[1..][n..];
      }
    }
  }

  lemma TruncateMeans(x: real)
    ensures if x >= 0.0 then Truncate(x) as real <= x < Truncate(x) as real + 1.0
            else Truncate(x) as real - 1.0 < x <= Truncate(x) as real
  {
    var y := if x >= 0.0 then x else -x;
    assert y.Floor as real <= y < (y.Floor + 1) as real;
  }

  lemma OneTruncation(x: real, i: int)
    requires if x >= 0.0 then i as real <= x < i as real + 1.0 else i as real - 1.0 < x <= i as real
    ensures i == Truncate(x)
  {
    TruncateMeans(x);
    var j := Truncate(x);
    assert i < j ==> i as real + 1.0 <= j as real;
    assert j < i ==> j as real + 1.0 <= i as real;
  }

  lemma NumberRead(t: string, rest: string, v: Json, stod: Stod)
    requires NumberText(t) && stod(t).Some? && NumberEnds(rest) && NumberMeans(t, stod(t).value, v)
    ensures var s := t + rest; (IsDigit(s[0]) || s[0] == '-') && ParseNumber(s, stod) == Done(v, rest)
  {
    hide Truncate, IsNumberComponent;
    var s := t + rest;
    NumberSpans(t, rest);
    assert s[0] == t[0] && s[..|t|] == t && s[|t|..] == rest && s[|t| - 1] == t[|t| - 1];
    if v.JInt? {
      OneTruncation(stod(t).value, v.i);
    }
  }

  lemma NumberSpelled(s: string, stod: Stod) returns (t: string)
    requires s != "" && (IsDigit(s[0]) || s[0] == '-') && ParseNumber(s, stod).Done?
    ensures NumberText(t) && stod(t).Some?
    ensures s == t + ParseNumber(s, stod).rest && NumberEnds(ParseNumber(s, stod).rest)
    ensures NumberMeans(t, stod(t).value, ParseNumber(s, stod).value)
  {
    hide Truncate;
    var n := NumberSpan(s);
    t := s[..n];
    SpannedNumber(s);
    TruncateMeans(stod(t).value);
    assert s == t + s[n..] && t[0] == s[0] && t[|t| - 1] == s[n - 1];
  }

  /** The first byte of a value: no blank, no closing bracket, no comma. */
  predicate Starts(s: string) { s != "" && !IsBlank(s[0]) && s[0] != ']' && s[0] != '}' && s[0] != ',' }

  lemma DocStarts(d: Doc, stod: Stod)
    requires DocOk(d, stod)
    ensures Starts(DocText(d))
  {
    hide PiecesText, ItemsText, PairsText;
  }

  lemma StartsWithMore(s: string, more: string)
    requires Starts(s)
    ensures Starts(s + more) && (s + more)[0] == s[0]
  {
  }

  /** What stands behind the last item, or behind another one. */
  lemma EndRead(after: string, comma: bool, close: char, rest: string)
    requires Blanks(after) && (close == ']' || close == '}')
    ensures var s := after + (EndText(comma, [close]) + rest);
      AfterItem(Skip(s), close) == End(rest) && NumberEnds(s) && s != ""
  {
    var end := EndText(comma, [close]) + rest;
    BlanksSkipped(after, end);
    assert comma ==> end[0] == ',' && end[1] == close && end[2..] == rest;
    assert !comma ==> end[0] == close && end[1..] == rest;
    NoNumber(after, end);
  }

  lemma NoNumber(after: string, end: string)
    requires Blanks(after) && end != "" && (end[0] == ',' || end[0] == ']' || end[0] == '}')
    ensures NumberEnds(after + end)
  {
    NumberBytes((after + end)[0]);
    if after != "" {
      assert after[0] in after;
    }
  }

  lemma MoreRead(after: string, close: char, more: string)
    requires Blanks(after) && (close == ']' || close == '}') && more != "" && more[0] != close
    ensures var s := after + ("," + more); AfterItem(Skip(s), close) == More(more) && NumberEnds(s) && s != ""
  {
    var end := "," + more;
    BlanksSkipped(after, end);
    assert end[1..] == more && end[1] == more[0];
    NoNumber(after, end);
  }

  lemma BlanksThen(before: string, s: string)
    requires Blanks(before) && Starts(s)
    ensures (before + s) != "" && (before + s)[0] != ']' && (before + s)[0] != '}' && Skip(before + s) == s
  {
    BlanksSkipped(before, s);
    if before != "" {
      assert before[0] in before;
    }
  }

  lemma Regroup(a: string, b: string, c: string)
    ensures a + b + c == a + (b + c)
  {
  }

  // ---------------------------------------------------------------- items

  /** An item that is well written and means v. */
  ghost predicate ElemMeans(x: Elem, v: Json, stod: Stod) {
    Blanks(x.before) && Blanks(x.after) && DocOk(x.doc, stod) && Means(x.doc, v, stod)
  }

  ghost predicate ElemsMean(items: seq<Elem>, vs: seq<Json>, stod: Stod) {
    |vs| == |items| && forall i :: 0 <= i < |items| ==> ElemMeans(items[i], vs[i], stod)
  }

  lemma ElemsTail(items: seq<Elem>, vs: seq<Json>, stod: Stod)
    requires items != [] && |vs| == |items| && ElemMeans(items[0], vs[0], stod)
    ensures ElemsMean(items, vs, stod) <==> ElemsMean(items[1..], vs[1..], stod)
  {
    forall i | 0 < i < |items|
      ensures ElemMeans(items[i], vs[i], stod) <==> ElemMeans(items[1..][i - 1], vs[1..][i - 1], stod)
    {
    }
  }

  /** What follows the document of the first item. */
  function Following(items: seq<Elem>, comma: bool, rest: string): string
    requires items != []
  {
    items[0].after + (if |items| == 1 then EndText(comma, "]") + rest
                      else "," + (ItemsText(items[1..], comma, "]") + rest))
  }

  lemma ItemsOpen(items: seq<Elem>, comma: bool)
    requires items != []
    ensures ItemsText(items, comma, "]") ==
      items[0].before + (DocText(items[0].doc) + (items[0].after +
        if |items| == 1 then EndText(comma, "]") else "," + ItemsText(items[1..], comma, "]")))
  {
  }

  lemma ItemsGrouped(items: seq<Elem>, comma: bool, rest: string)
    requires items != []
    ensures ItemsText(items, comma, "]") + rest
         == items[0].before + (DocText(items[0].doc) + Following(items, comma, rest))
  {
    hide DocText, ItemsText, EndText;
    var x, doc := items[0], DocText(items[0].doc);
    ItemsOpen(items, comma);
    var end := if |items| == 1 then EndText(comma, "]") else "," + ItemsText(items[1..], comma, "]");
    Regroup(x.before, doc + (x.after + end), rest);
    Regroup(doc, x.after + end, rest);
    Regroup(x.after, end, rest);
    if |items| > 1 {
      Regroup(",", ItemsText(items[1..], comma, "]"), rest);
    }
  }

  lemma ItemsStart(items: seq<Elem>, v: Json, comma: bool, rest: string, stod: Stod)
    requires items != [] && ElemMeans(items[0], v, stod)
    ensures var s := ItemsText(items, comma, "]") + rest; s != "" && s[0] != ']'
  {
    hide DocText, ItemsText, DocOk, Blanks;
    var x, s := items[0], Following(items, comma, rest);
    ItemsGrouped(items, comma, rest);
    DocStarts(x.doc, stod);
    StartsWithMore(DocText(x.doc), s);
    BlanksThen(x.before, DocText(x.doc) + s);
  }

  lemma FollowingRead(items: seq<Elem>, vs: seq<Json>, comma: bool, rest: string, stod: Stod)
    requires items != [] && ElemsMean(items, vs, stod)
    ensures var s := Following(items, comma, rest);
      NumberEnds(s)
      && AfterItem(Skip(s), ']') == if |items| == 1 then End(rest) else More(ItemsText(items[1..], comma, "]") + rest)
  {
    hide DocText, ItemsText, DocOk, Means, Blanks, Skip, AfterItem, NumberEnds;
    assert ElemMeans(items[0], vs[0], stod);
    if |items| == 1 {
      EndRead(items[0].after, comma, ']', rest);
    } else {
      assert ElemMeans(items[1], vs[1], stod);
      ItemsStart(items[1..], vs[1], comma, rest, stod);
      MoreRead(items[0].after, ']', ItemsText(items[1..], comma, "]") + rest);
    }
  }

  /** One item after the other, up to their bracket. */
  lemma {:induction false} ItemsRead(
    items: seq<Elem>, vs: seq<Json>, comma: bool, acc: seq<Json>, rest: string, stod: Stod)
    requires items != [] && ElemsMean(items, vs, stod)
    ensures ParseItems(ItemsText(items, comma, "]") + rest, acc, stod) == Done(JArray(acc + vs), rest)
    decreases items, 0
  {
    hide DocText, ItemsText, DocOk, Means, Blanks, Skip, AfterItem, NumberEnds, ParseValue, Following;
    var x, s := items[0], Following(items, comma, rest);
    assert ElemMeans(x, vs[0], stod);
    ItemsGrouped(items, comma, rest);
    FollowingRead(items, vs, comma, rest, stod);
    DocStarts(x.doc, stod);
    StartsWithMore(DocText(x.doc), s);
    BlanksThen(x.before, DocText(x.doc) + s);
    DocRead(x.doc, vs[0], s, stod);
    if |items| == 1 {
      assert vs == [vs[0]];
    } else {
      ElemsTail(items, vs, stod);
      ItemsRead(items[1..], vs[1..], comma, acc + [vs[0]], rest, stod);
      assert acc + [vs[0]] + vs[1..] == acc + vs;
    }
  }

  // ---------------------------------------------------------------- members

  /** A member that is well written and whose value means v. */
  ghost predicate PairMeans(x: Pair, v: Json, stod: Stod) {
    Blanks(x.before) && PiecesOk(x.key) && Blanks(x.between) && Blanks(x.gap) && Blanks(x.after)
    && DocOk(x.doc, stod) && Means(x.doc, v, stod)
  }

  ghost predicate PairsMean(pairs: seq<Pair>, vs: seq<Json>, stod: Stod) {
    |vs| == |pairs| && forall i :: 0 <= i < |pairs| ==> PairMeans(pairs[i], vs[i], stod)
  }

  lemma PairsTail(pairs: seq<Pair>, vs: seq<Json>, stod: Stod)
    requires pairs != [] && |vs| == |pairs| && PairMeans(pairs[0], vs[0], stod)
    ensures PairsMean(pairs, vs, stod) <==> PairsMean(pairs[1..], vs[1..], stod)
  {
    forall i | 0 < i < |pairs|
      ensures PairMeans(pairs[i], vs[i], stod) <==> PairMeans(pairs[1..][i - 1], vs[1..][i - 1], stod)
    {
    }
  }

  function PairFollowing(pairs: seq<Pair>, comma: bool, rest: string): string
    requires pairs != []
  {
    pairs[0].after + (if |pairs| == 1 then EndText(comma, "}") + rest
                      else "," + (PairsText(pairs[1..], comma, "}") + rest))
  }

  /** A member from its key on, with what follows it. */
  function PairText(x: Pair, more: string): string {
    StringText(x.key) + (x.between + (":" + (x.gap + (DocText(x.doc) + more))))
  }

  lemma PairsOpen(pairs: seq<Pair>, comma: bool)
    requires pairs != []
    ensures PairsText(pairs, comma, "}") ==
      pairs[0].before + PairText(pairs[0], pairs[0].after +
        if |pairs| == 1 then EndText(comma, "}") else "," + PairsText(pairs[1..], comma, "}"))
  {
    hide StringText, EndText;
  }

  lemma PairAppend(x: Pair, more: string, rest: string)
    ensures PairText(x, more) + rest == PairText(x, more + rest)
  {
    hide DocText, StringText;
    var doc := DocText(x.doc);
    Regroup(StringText(x.key), x.between + (":" + (x.gap + (doc + more))), rest);
    Regroup(x.between, ":" + (x.gap + (doc + more)), rest);
    Regroup(":", x.gap + (doc + more), rest);
    Regroup(x.gap, doc + more, rest);
    Regroup(doc, more, rest);
  }

  lemma PairsGrouped(pairs: seq<Pair>, comma: bool, rest: string)
    requires pairs != []
    ensures PairsText(pairs, comma, "}") + rest
         == pairs[0].before + PairText(pairs[0], PairFollowing(pairs, comma, rest))
  {
    hide PairText, PairsText, EndText;
    var x := pairs[0];
    PairsOpen(pairs, comma);
    var end := if |pairs| == 1 then EndText(comma, "}") else "," + PairsText(pairs[1..], comma, "}");
    Regroup(x.before, PairText(x, x.after + end), rest);
    PairAppend(x, x.after + end, rest);
    Regroup(x.after, end, rest);
    if |pairs| > 1 {
      Regroup(",", PairsText(pairs[1..], comma, "}"), rest);
    }
  }

  lemma PairStarts(x: Pair, more: string)
    ensures Starts(PairText(x, more))
  {
    hide PiecesText, DocText;
  }

  lemma PairsStart(pairs: seq<Pair>, v: Json, comma: bool, rest: string, stod: Stod)
    requires pairs != [] && PairMeans(pairs[0], v, stod)
    ensures var s := PairsText(pairs, comma, "}") + rest; s != "" && s[0] != '}'
  {
    hide PairText, PairsText, DocOk, Means, Blanks, PiecesOk;
    PairsGrouped(pairs, comma, rest);
    PairStarts(pairs[0], PairFollowing(pairs, comma, rest));
    BlanksThen(pairs[0].before, PairText(pairs[0], PairFollowing(pairs, comma, rest)));
  }

  lemma PairFollowingRead(pairs: seq<Pair>, vs: seq<Json>, comma: bool, rest: string, stod: Stod)
    requires pairs != [] && PairsMean(pairs, vs, stod)
    ensures var s := PairFollowing(pairs, comma, rest);
      NumberEnds(s)
      && AfterItem(Skip(s), '}') == if |pairs| == 1 then End(rest) else More(PairsText(pairs[1..], comma, "}") + rest)
  {
    hide PairText, PairsText, DocOk, Means, Blanks, Skip, AfterItem, NumberEnds, PiecesOk;
    assert PairMeans(pairs[0], vs[0], stod);
    if |pairs| == 1 {
      EndRead(pairs[0].after, comma, '}', rest);
    } else {
      assert PairMeans(pairs[1], vs[1], stod);
      PairsStart(pairs[1..], vs[1], comma, rest, stod);
      MoreRead(pairs[0].after, '}', PairsText(pairs[1..], comma, "}") + rest);
    }
  }

  lemma ColonRead(between: string, gap: string, doc: string)
    requires Blanks(between) && Blanks(gap) && Starts(doc)
    ensures var s := Skip(between + (":" + (gap + doc))); s != "" && s[0] == ':' && Skip(s[1..]) == doc
  {
    BlanksSkipped(between, ":" + (gap + doc));
    BlanksSkipped(gap, doc);
    assert (":" + (gap + doc))[1..] == gap + doc;
  }

  lemma {:induction false} PairRead(x: Pair, v: Json, more: string, stod: Stod)
    requires PairMeans(x, v, stod) && NumberEnds(more)
    ensures PairText(x, more) != "" && ParseMember(PairText(x, more), stod) == Done(Member(PiecesBytes(x.key), v), more)
    decreases x, 1
  {
    hide DocText, DocOk, Means, Blanks, Skip, NumberEnds, ParseValue, ParseString, PiecesOk, PiecesBytes, StringText;
    var doc := DocText(x.doc) + more;
    DocStarts(x.doc, stod);
    StartsWithMore(DocText(x.doc), more);
    StringRead(x.key, x.between + (":" + (x.gap + doc)));
    ColonRead(x.between, x.gap, doc);
    DocRead(x.doc, v, more, stod);
    PairStarts(x, more);
  }

  /** One member after the other, put into the map as they come. */
  lemma {:induction false} PairsRead(
    pairs: seq<Pair>, vs: seq<Json>, comma: bool, acc: seq<Member>, rest: string, stod: Stod)
    requires pairs != [] && PairsMean(pairs, vs, stod)
    ensures forall x <- pairs :: PiecesOk(x.key)
    ensures ParseMembers(PairsText(pairs, comma, "}") + rest, acc, stod)
         == Done(JObject(Gathered(pairs, vs, acc)), rest)
    decreases pairs, 0
  {
    hide PairText, PairsText, DocOk, Means, Blanks, Skip, AfterItem, NumberEnds, ParseMember, PairFollowing;
    hide PiecesOk, PiecesBytes, Insert;
    var x, s := pairs[0], PairFollowing(pairs, comma, rest);
    assert PairMeans(x, vs[0], stod);
    PairsGrouped(pairs, comma, rest);
    PairFollowingRead(pairs, vs, comma, rest, stod);
    PairStarts(x, s);
    BlanksThen(x.before, PairText(x, s));
    PairRead(x, vs[0], s, stod);
    if |pairs| == 1 {
      assert pairs == [x];
    } else {
      PairsTail(pairs, vs, stod);
      PairsRead(pairs[1..], vs[1..], comma, Insert(acc, PiecesBytes(x.key), vs[0]), rest, stod);
      assert pairs == [x] + pairs[1..];
    }
  }

  // ---------------------------------------------------------------- whole values

  /** Whatever is written by the grammar is parsed to what it means, and what is behind it stays. */
  lemma {:induction false} DocRead(d: Doc, v: Json, rest: string, stod: Stod)
    requires DocOk(d, stod) && Means(d, v, stod) && (d.Num? ==> NumberEnds(rest))
    ensures ParseValue(DocText(d) + rest, stod) == Done(v, rest)
    decreases d, 2
  {
    hide ItemsText, PairsText, ParseItems, ParseMembers, ParseNumber, ParseString, StringText, PiecesOk, PiecesBytes;
    var s := DocText(d) + rest;
    match d
    case Null => assert s[..4] == "null" && s[4..] == rest && s[0] == 'n';
    case True => assert s[..4] == "true" && s[4..] == rest && s[0] == 't' && s[..4][0] == 't';
    case False => assert s[..5] == "false" && s[5..] == rest && s[0] == 'f' && s[..4][0] == 'f';
    case Num(t) => NumberRead(t, rest, v, stod);
    case Str(ps) =>
      StringRead(ps, rest);
      QuoteFirst(ps, rest);
    case Arr(items, comma) => ArrRead(d, v, rest, stod);
    case Obj(pairs, comma) => ObjRead(d, v, rest, stod);
  }

  lemma QuoteFirst(ps: seq<Piece>, rest: string)
    ensures (StringText(ps) + rest) != "" && (StringText(ps) + rest)[0] == '"'
  {
  }

  lemma ArrRead(d: Doc, v: Json, rest: string, stod: Stod)
    requires d.Arr? && DocOk(d, stod) && Means(d, v, stod)
    ensures ParseValue(DocText(d) + rest, stod) == Done(v, rest)
    decreases d, 1
  {
    hide ItemsText, ParseItems, Blanks;
    var s, text := DocText(d) + rest, ItemsText(d.items, d.comma, "]") + rest;
    assert s[0] == '[' && s[1..] == text;
    if d.items == [] {
      assert ItemsText([], d.comma, "]") == "]" by { NoItems(d.comma); }
      assert s[1] == ']' && s[2..] == rest;
    } else {
      assert ElemsMean(d.items, v.items, stod);
      ItemsStart(d.items, v.items[0], d.comma, rest, stod);
      ItemsRead(d.items, v.items, d.comma, [], rest, stod);
      assert [] + v.items == v.items && s[1] == text[0];
    }
  }

  lemma NoItems(comma: bool)
    ensures ItemsText([], comma, "]") == "]" && PairsText([], comma, "}") == "}"
  {
  }

  lemma ObjRead(d: Doc, v: Json, rest: string, stod: Stod)
    requires d.Obj? && DocOk(d, stod) && Means(d, v, stod)
    ensures ParseValue(DocText(d) + rest, stod) == Done(v, rest)
    decreases d, 1
  {
    hide PairsText, ParseMembers, Blanks, PiecesOk;
    var s, text := DocText(d) + rest, PairsText(d.pairs, d.comma, "}") + rest;
    assert s[0] == '{' && s[1..] == text;
    if d.pairs == [] {
      assert PairsText([], d.comma, "}") == "}" by { NoItems(d.comma); }
      assert s[1] == '}' && s[2..] == rest;
    } else {
      var vs: seq<Json> :| |vs| == |d.pairs| && (forall i :: 0 <= i < |d.pairs| ==> Means(d.pairs[i].doc, vs[i], stod))
                           && v.members == Gathered(d.pairs, vs, []);
      assert PairsMean(d.pairs, vs, stod);
      PairsStart(d.pairs, vs[0], d.comma, rest, stod);
      PairsRead(d.pairs, vs, d.comma, [], rest, stod);
      assert s[1] == text[0];
    }
  }

  // ---------------------------------------------------------------- from the text

  /** What ends an item is blanks and the closing bracket, perhaps behind a comma. */
  lemma EndSpelled(s: string, close: char) returns (after: string, comma: bool)
    requires AfterItem(Skip(s), close).End?
    ensures Blanks(after) && s == after + (EndText(comma, [close]) + AfterItem(Skip(s), close).rest)
  {
    var t := Skip(s);
    after := SkippedBlanks(s);
    if t[0] == ',' && |t| > 1 && t[1] == close {
      comma := true;
      assert t == [',', close] + t[2..] && "," + [close] == [',', close];
    } else {
      comma := false;
      assert t == [close] + t[1..];
    }
  }

  lemma MoreSpelled(s: string, close: char) returns (after: string)
    requires AfterItem(Skip(s), close).More?
    ensures Blanks(after) && s == after + ("," + AfterItem(Skip(s), close).rest)
  {
    after := SkippedBlanks(s);
    assert Skip(s) == "," + Skip(s)[1..];
  }

  lemma {:induction false} ItemsSpelled(s: string, acc: seq<Json>, stod: Stod)
    returns (items: seq<Elem>, vs: seq<Json>, comma: bool)
    requires ParseItems(s, acc, stod).Done?
    ensures items != [] && ElemsMean(items, vs, stod) && ParseItems(s, acc, stod).value == JArray(acc + vs)
    ensures s == ItemsText(items, comma, "]") + ParseItems(s, acc, stod).rest
    decreases |s|, 2
  {
    hide DocText, ItemsText, DocOk, Means, Blanks, Skip, AfterItem, NumberEnds, ParseValue, EndText;
    var before := SkippedBlanks(s);
    var d := DocSpelled(Skip(s), stod);
    var v, tail := ParseValue(Skip(s), stod).value, ParseValue(Skip(s), stod).rest;
    var next := AfterItem(Skip(tail), ']');
    if next.End? {
      var after, last := EndSpelled(tail, ']');
      items, vs, comma := [Elem(before, d, after)], [v], last;
      ItemsGrouped(items, comma, next.rest);
    } else {
      var after := MoreSpelled(tail, ']');
      var others, values, last := ItemsSpelled(next.rest, acc + [v], stod);
      items, vs, comma := [Elem(before, d, after)] + others, [v] + values, last;
      assert items[1..] == others && vs[1..] == values && acc + [v] + values == acc + vs;
      ElemsTail(items, vs, stod);
      ItemsGrouped(items, comma, ParseItems(s, acc, stod).rest);
    }
  }

  lemma {:induction false} MemberSpelled(s: string, stod: Stod)
    returns (key: seq<Piece>, between: string, gap: string, d: Doc)
    requires s != "" && ParseMember(s, stod).Done?
    ensures var Done(m, rest) := ParseMember(s, stod);
      PiecesOk(key) && Blanks(between) && Blanks(gap) && DocOk(d, stod) && Means(d, m.value, stod)
      && m.key == PiecesBytes(key) && s == StringText(key) + (between + (":" + (gap + (DocText(d) + rest))))
    decreases |s|, 2
  {
    hide DocText, DocOk, Means, Blanks, Skip, NumberEnds, ParseValue, ParseString, PiecesOk, PiecesBytes, StringText;
    key := StringSpelled(s);
    var tail := ParseString(s).rest;
    between := SkippedBlanks(tail);
    var s1 := Skip(tail);
    gap := SkippedBlanks(s1[1..]);
    d := DocSpelled(Skip(s1[1..]), stod);
    assert s1 == ":" + s1[1..];
  }

  lemma {:induction false} MembersSpelled(s: string, acc: seq<Member>, stod: Stod)
    returns (pairs: seq<Pair>, vs: seq<Json>, comma: bool)
    requires ParseMembers(s, acc, stod).Done?
    ensures pairs != [] && PairsMean(pairs, vs, stod) && forall x <- pairs :: PiecesOk(x.key)
    ensures ParseMembers(s, acc, stod).value == JObject(Gathered(pairs, vs, acc))
    ensures s == PairsText(pairs, comma, "}") + ParseMembers(s, acc, stod).rest
    decreases |s|, 3
  {
    hide DocText, PairsText, DocOk, Means, Blanks, Skip, AfterItem, NumberEnds, ParseMember, EndText, StringText;
    hide PiecesOk, PiecesBytes, Insert;
    var before := SkippedBlanks(s);
    var key, between, gap, d := MemberSpelled(Skip(s), stod);
    var m, tail := ParseMember(Skip(s), stod).value, ParseMember(Skip(s), stod).rest;
    var next := AfterItem(Skip(tail), '}');
    if next.End? {
      var after, last := EndSpelled(tail, '}');
      pairs, vs, comma := [Pair(before, key, between, gap, d, after)], [m.value], last;
      PairsGrouped(pairs, comma, next.rest);
    } else {
      var after := MoreSpelled(tail, '}');
      var others, values, last := MembersSpelled(next.rest, Insert(acc, m.key, m.value), stod);
      pairs, vs, comma := [Pair(before, key, between, gap, d, after)] + others, [m.value] + values, last;
      assert pairs[1..] == others && vs[1..] == values;
      PairsTail(pairs, vs, stod);
      PairsGrouped(pairs, comma, ParseMembers(s, acc, stod).rest);
    }
  }

  /** Whatever is parsed is written by the grammar and means what was parsed. */
  lemma {:induction false} DocSpelled(s: string, stod: Stod) returns (d: Doc)
    requires ParseValue(s, stod).Done?
    ensures DocOk(d, stod) && Means(d, ParseValue(s, stod).value, stod)
    ensures s == DocText(d) + ParseValue(s, stod).rest && (d.Num? ==> NumberEnds(ParseValue(s, stod).rest))
    decreases |s|, 1
  {
    hide ItemsText, PairsText, ParseItems, ParseMembers, ParseNumber, ParseString, StringText, PiecesOk, PiecesBytes;
    hide NumberMeans;
    var rest := ParseValue(s, stod).rest;
    if s[0] == '{' {
      d := ObjSpelled(s, stod);
    } else if s[0] == '[' {
      d := ArrSpelled(s, stod);
    } else if s[0] == '"' {
      var ps := StringSpelled(s);
      d := Str(ps);
    } else if s[0] == '-' || IsDigit(s[0]) {
      var t := NumberSpelled(s, stod);
      d := Num(t);
    } else if StartsWith(s, "null") {
      d := Null;
      assert s == s[..4] + s[4..];
    } else if StartsWith(s, "true") {
      d := True;
      assert s == s[..4] + s[4..];
    } else {
      d := False;
      assert s == s[..5] + s[5..];
    }
  }

  lemma ArrMeans(items: seq<Elem>, vs: seq<Json>, comma: bool, stod: Stod)
    requires ElemsMean(items, vs, stod) && (comma ==> items != [])
    ensures DocOk(Arr(items, comma), stod) && Means(Arr(items, comma), JArray(vs), stod)
  {
    hide Blanks;
    forall x <- items
      ensures Blanks(x.before) && Blanks(x.after) && DocOk(x.doc, stod)
    {
      var i :| 0 <= i < |items| && items[i] == x;
      assert ElemMeans(items[i], vs[i], stod);
    }
    assert forall i :: 0 <= i < |items| ==> ElemMeans(items[i], vs[i], stod);
  }

  lemma ObjMeans(pairs: seq<Pair>, vs: seq<Json>, comma: bool, stod: Stod)
    requires PairsMean(pairs, vs, stod) && (comma ==> pairs != [])
    ensures forall x <- pairs :: PiecesOk(x.key)
    ensures DocOk(Obj(pairs, comma), stod) && Means(Obj(pairs, comma), JObject(Gathered(pairs, vs, [])), stod)
  {
    hide Blanks, PiecesOk, Gathered;
    forall x <- pairs
      ensures Blanks(x.before) && PiecesOk(x.key) && Blanks(x.between) && Blanks(x.gap) && Blanks(x.after)
              && DocOk(x.doc, stod)
    {
      var i :| 0 <= i < |pairs| && pairs[i] == x;
      assert PairMeans(pairs[i], vs[i], stod);
    }
    assert forall i :: 0 <= i < |pairs| ==> PairMeans(pairs[i], vs[i], stod);
  }

  lemma ArrSpelled(s: string, stod: Stod) returns (d: Doc)
    requires s != "" && s[0] == '[' && ParseValue(s, stod).Done?
    ensures d.Arr? && DocOk(d, stod) && Means(d, ParseValue(s, stod).value, stod)
    ensures s == DocText(d) + ParseValue(s, stod).rest
    decreases |s|, 0
  {
    hide ItemsText, ParseItems, ElemMeans, DocOk, Means;
    if |s| > 1 && s[1] == ']' {
      d := Arr([], false);
      NoItems(false);
      ArrMeans([], [], false, stod);
      assert s == "[" + "]" + s[2..];
    } else {
      var items, vs, comma := ItemsSpelled(s[1..], [], stod);
      d := Arr(items, comma);
      ArrMeans(items, vs, comma, stod);
      assert [] + vs == vs;
      Regroup("[", ItemsText(items, comma, "]"), ParseValue(s, stod).rest);
      assert s == "[" + s[1..];
    }
  }

  lemma ObjSpelled(s: string, stod: Stod) returns (d: Doc)
    requires s != "" && s[0] == '{' && ParseValue(s, stod).Done?
    ensures d.Obj? && DocOk(d, stod) && Means(d, ParseValue(s, stod).value, stod)
    ensures s == DocText(d) + ParseValue(s, stod).rest
    decreases |s|, 0
  {
    hide PairsText, ParseMembers, PairMeans, PiecesOk, DocOk, Means;
    if |s| > 1 && s[1] == '}' {
      d := Obj([], false);
      NoItems(false);
      ObjMeans([], [], false, stod);
      assert s == "{" + "}" + s[2..];
    } else {
      var pairs, vs, comma := MembersSpelled(s[1..], [], stod);
      d := Obj(pairs, comma);
      ObjMeans(pairs, vs, comma, stod);
      Regroup("{", PairsText(pairs, comma, "}"), ParseValue(s, stod).rest);
      assert s == "{" + s[1..];
    }
  }

  // ---------------------------------------------------------------- the parser

  /** A text that is blanks, a value that means v, and anything that does not go on a number. */
  ghost predicate Written(s: string, blanks: string, d: Doc, rest: string, v: Json, stod: Stod) {
    Blanks(blanks) && DocOk(d, stod) && Means(d, v, stod) && (d.Num? ==> NumberEnds(rest))
    && s == blanks + (DocText(d) + rest)
  }

  /** The three bytes of a byte order mark are passed over like any others from 128 on. */
  lemma BomIsBlank(s: string)
    ensures Skip(SkipBom(s)) == Skip(s)
  {
    if SkipBom(s) != s {
      assert s[1..][1..] == s[2..] && s[2..][1..] == s[3..];
      assert Skip(s) == Skip(s[1..]) && Skip(s[1..]) == Skip(s[2..]) && Skip(s[2..]) == Skip(s[3..]);
    }
  }

  /** A text is parsed to v if and only if it is written by the grammar and means v. */
  lemma ParsedIff(s: string, v: Json, stod: Stod)
    ensures Parse(s, stod) == Some(v) <==> exists blanks, d, rest :: Written(s, blanks, d, rest, v, stod)
  {
    BomIsBlank(s);
    forall blanks, d, rest | Written(s, blanks, d, rest, v, stod)
      ensures Parse(s, stod) == Some(v)
    {
      WrittenRead(s, blanks, d, rest, v, stod);
    }
    if Parse(s, stod) == Some(v) {
      var blanks := SkippedBlanks(s);
      var d := DocSpelled(Skip(s), stod);
      assert Written(s, blanks, d, ParseValue(Skip(s), stod).rest, v, stod);
    }
  }

  lemma WrittenRead(s: string, blanks: string, d: Doc, rest: string, v: Json, stod: Stod)
    requires Written(s, blanks, d, rest, v, stod)
    ensures Parse(s, stod) == Some(v)
  {
    hide DocText, DocOk, Means, Blanks, Skip, NumberEnds, ParseValue;
    BomIsBlank(s);
    DocStarts(d, stod);
    StartsWithMore(DocText(d), rest);
    BlanksThen(blanks, DocText(d) + rest);
    DocRead(d, v, rest, stod);
  }
}
