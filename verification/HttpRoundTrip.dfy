/** What a well-formed request means to the parser: written out in any spelling and fed, cut up in any
    way, it gives back its parts; and when it does not. */
module HttpRoundTrip {
  import opened Text
  import Util
  import opened HttpModel
  import opened HttpFields
  import opened HttpGrammar
  import opened HttpResume
  import opened HttpLong
  import opened HttpSplit
  import HttpRefusal
  import MultiPart

  // ---------------------------------------------------------------- one head

  /** A stream begins with one head only. */
  lemma OneHead(e: Params, m: Message, m': Message, s: string)
    requires LineOk(e, m) && (forall h <- m.headers :: HeaderOk(h)) && Head(m) <= s
    requires LineOk(e, m') && (forall h <- m'.headers :: HeaderOk(h)) && Head(m') <= s
    ensures HeaderLength(m.headers) == HeaderLength(m'.headers)
  {
    hide LineOk, HeaderOk, HeaderLength, Head;
    var e1 := e.(maxHeader := |s|);
    var tail := HeadScanned(e, m, s);
    var tail' := HeadScanned(e, m', s);
  }

  lemma HeadScanned(e: Params, m: Message, s: string) returns (tail: string)
    requires LineOk(e, m) && (forall h <- m.headers :: HeaderOk(h)) && Head(m) <= s
    ensures var end := FindCrlf(s); 0 <= end <= |s| - 2 && tail == s[end + 2..]
    ensures ScanHeader(e.(maxHeader := |s|), tail, map[], 0).len == HeaderLength(m.headers)
  {
    hide FindCrlf, RenderLine, HeaderOk, ScanHeader, HeaderLength, HeaderMap, Lines;
    var e1 := e.(maxHeader := |s|);
    var line, rest := RenderLine(m), s[|Head(m)|..];
    tail := Lines(m.headers) + ("\r\n" + rest);
    assert s == line + "\r\n" + tail by {
      assert s == Head(m) + rest;
    }
    FindCrlfAfter(line, tail);
    assert s[|line| + 2..] == tail;
    HeaderLengthBound(m.headers);
    FewerHeaders(m.headers);
    HeadersRead(e1, m.headers, "\r\n" + rest, map[], 0);
    BlankLineRead(e1, rest, HeaderLength(m.headers));
    HeaderLeaves(e1, "\r\n" + rest, HeaderMap(m.headers, map[]), HeaderLength(m.headers));
  }

  /** With its header within the limit a request has no overlong head. */
  lemma FitsIsUncut(e: Params, m: Message, s: string, pieces: seq<string>)
    requires LineOk(e, m) && (forall h <- m.headers :: HeaderOk(h)) && Head(m) <= s
    requires HeaderLength(m.headers) <= e.maxHeader
    ensures !BlankLineCut(e, s, pieces)
  {
    hide LineOk, HeaderOk, HeaderLength, Head, CutAt;
    forall m' | OverlongHead(e, m') && Head(m') <= s
      ensures HeaderLength(m'.headers) == HeaderLength(m.headers)
    {
      OneHead(e, m, m', s);
    }
  }

  // ---------------------------------------------------------------- the line limit does not matter

  lemma SameUnlimited(e: Params, s: string, m: Message, rest: string)
    ensures var e' := Unlimited(e, s);
      && WellFormed(e', m) == WellFormed(e, m) && HeadersWithin(e', m.headers) == HeadersWithin(e, m.headers)
      && Handled(e', m, rest) == Handled(e, m, rest)
  {
    hide HeaderMap, HeaderLength, HeaderOk, HandleContent, LastValue, TypeMeant, KeepsAlive, IsChunked, Contains;
    SameChunks(e, s, m.payload);
  }

  lemma SameChunks(e: Params, s: string, p: Payload)
    ensures PayloadOk(Unlimited(e, s), p) == PayloadOk(e, p)
  {
  }

  /** Within the line limit every division is in time. */
  lemma {:induction false} ShortInTime(e: Params, buf: string, pieces: seq<string>)
    requires pieces != [] && |buf| + |Concat(pieces)| <= e.maxLine
    ensures LineInTime(e, buf, pieces)
    decreases |pieces|
  {
    if |pieces| > 1 {
      ShortInTime(e, buf + pieces[0], pieces[1..]);
    }
  }

  /** A header line that comes when the limit is passed refuses the whole. */
  lemma TooManyHeaders(e: Params, m: Message, rest: string)
    requires WellFormed(e, m) && !HeadersWithin(e, m.headers) && |Render(m) + rest| <= e.maxLine
    ensures ParseRequest(e, Fresh(Render(m) + rest)).ret == Bad
  {
    hide ParseRequest, HeaderOk, ReadFields, ScanHeader, HeaderLength, LineOk, PayloadOk, RenderPayload;
    hide RenderLine, Lines, FromHeader, Head;
    var tail := RenderPayload(m.payload) + rest;
    assert Render(m) + rest == Head(m) + tail;
    HeadParsed(e, m, tail);
    HeadersRefused(e, m.headers, "\r\n" + tail, map[], 0);
    BadFromHeader(e, LineDone(m, Lines(m.headers) + ("\r\n" + tail)));
  }

  lemma BadFromHeader(e: Params, r: Request)
    requires Valid(r) && r.state == Header && ScanHeader(e, r.buf, r.header, r.headerLen).ret == Bad
    ensures FromHeader(e, r).ret == Bad
  {
    hide ScanHeader, ReadFields;
  }

  // ---------------------------------------------------------------- any division, any length

  /** Every well-formed request, of any length and spelling, in any pieces, unless its body is left
      waiting. In time and with its header lines within the limit it ends with the handler of its
      content type; if parsing stops at a refusal, only when its blank line is not cut behind an overlong
      header. Otherwise it is refused. */
  lemma AnyDivisionHandled(e: Params, m: Message, rest: string, pieces: seq<string>)
    requires WellFormed(e, m) && !LeftWaiting(m, rest) && Division(Render(m) + rest, pieces)
    ensures LineInTime(e, "", pieces) && HeadersWithin(e, m.headers) ==>
      && (Feed(e, Fresh(""), pieces) == Handled(e, m, rest) <==> !BlankLineCut(e, Render(m) + rest, pieces))
      && FeedAll(e, Fresh(""), Again, pieces) == Handled(e, m, rest)
    ensures !LineInTime(e, "", pieces) || !HeadersWithin(e, m.headers) ==>
      Feed(e, Fresh(""), pieces).ret == Bad && FeedAll(e, Fresh(""), Again, pieces).ret == Bad
  {
    hide ParseRequest, LineInTime, BlankLineCut, CutInBlankLine, WellFormed, HeadersWithin, Handled, LeftWaiting;
    hide Feed, FeedAll, Stuck, Render;
    if LineInTime(e, "", pieces) {
      InTimeHandled(e, m, rest, pieces);
    } else {
      LateIsRefused(e, "", pieces);
      NotCutAtLine(Feed(e, Fresh(""), pieces));
      HttpRefusal.FeedsOnIff(e, Fresh(""), Again, pieces);
    }
  }

  lemma InTimeHandled(e: Params, m: Message, rest: string, pieces: seq<string>)
    requires WellFormed(e, m) && !LeftWaiting(m, rest) && Division(Render(m) + rest, pieces)
    requires LineInTime(e, "", pieces)
    ensures HeadersWithin(e, m.headers) ==>
      && (Feed(e, Fresh(""), pieces) == Handled(e, m, rest) <==> !BlankLineCut(e, Render(m) + rest, pieces))
      && FeedAll(e, Fresh(""), Again, pieces) == Handled(e, m, rest)
    ensures !HeadersWithin(e, m.headers) ==>
      Feed(e, Fresh(""), pieces).ret == Bad && FeedAll(e, Fresh(""), Again, pieces).ret == Bad
  {
    hide ParseRequest, LineInTime, BlankLineCut, CutInBlankLine, HeadersWithin, Handled, LeftWaiting;
    hide Feed, FeedAll, Stuck, Render, LineOk, HeaderOk, PayloadOk, Announced;
    var s := Render(m) + rest;
    var e' := Unlimited(e, s);
    SameUnlimited(e, s, m, rest);
    if HeadersWithin(e, m.headers) {
      RequestRead(e', m, rest);
      StuckIff(e, m, rest);
    } else {
      TooManyHeaders(e', m, rest);
      BadIsNotStuck(ParseRequest(e', Fresh(s)));
    }
    LongStreamsIff(e, s, pieces);
    AllLongStreams(e, s, pieces);
    CutIff(e, s, pieces);
    CutIsBad(Feed(e, Fresh(""), pieces));
  }

  lemma BadIsNotStuck(o: Outcome)
    ensures o.ret == Bad ==> !Stuck(o)
  {
  }

  lemma CutIsBad(o: Outcome)
    ensures CutInBlankLine(o) ==> o.ret == Bad
  {
  }

  lemma PlainHandled(e: Params, m: Message, rest: string)
    requires Announced(e, m) && (m.payload.NoBody? || !IsMultipart(m))
    ensures Handled(e, m, rest) == Understood(e, m, rest) && Handled(e, m, rest).ret == Ok && !LeftWaiting(m, rest)
  {
    hide HeaderMap, HeaderLength, LastValue, TypeMeant, KeepsAlive, IsChunked, LengthMeant, Contains;
  }

  /** A request that is not multipart is understood, fed in any pieces, exactly when its line comes in
      time, its header lines within the limit, and its blank line is not cut behind an overlong header;
      by a driver that parses on after a refusal, whatever is cut. */
  lemma AnyDivisionUnderstood(e: Params, m: Message, rest: string, pieces: seq<string>)
    requires WellFormed(e, m) && (m.payload.NoBody? || !IsMultipart(m)) && Division(Render(m) + rest, pieces)
    ensures Feed(e, Fresh(""), pieces) == Understood(e, m, rest) <==>
      LineInTime(e, "", pieces) && HeadersWithin(e, m.headers) && !BlankLineCut(e, Render(m) + rest, pieces)
    ensures FeedAll(e, Fresh(""), Again, pieces) == Understood(e, m, rest) <==>
      LineInTime(e, "", pieces) && HeadersWithin(e, m.headers)
  {
    hide ParseRequest, Feed, FeedAll, IsMultipart, LineOk, HeaderOk, PayloadOk, LineInTime, BlankLineCut;
    hide HeadersWithin, Render, Handled, Understood, LeftWaiting;
    PlainHandled(e, m, rest);
    AnyDivisionHandled(e, m, rest, pieces);
  }

  /** In particular, with keys and values within the limit: a body of any length, chunks of any size,
      in any pieces that bring the request line in time. */
  lemma AnyLengthUnderstood(e: Params, m: Message, rest: string, pieces: seq<string>)
    requires WellFormed(e, m) && (m.payload.NoBody? || !IsMultipart(m)) && HeaderLength(m.headers) <= e.maxHeader
    requires Division(Render(m) + rest, pieces) && LineInTime(e, "", pieces)
    ensures Feed(e, Fresh(""), pieces) == FeedAll(e, Fresh(""), Again, pieces) == Understood(e, m, rest)
  {
    hide Feed, FeedAll, IsMultipart, LineOk, HeaderOk, PayloadOk, Announced, LineInTime, BlankLineCut, HeaderLength;
    hide RenderPayload, Head, Understood;
    FewerHeaders(m.headers);
    FitsIsUncut(e, m, Render(m) + rest, pieces);
    AnyDivisionUnderstood(e, m, rest, pieces);
  }

  /** The same for a request fed whole. */
  lemma RequestRoundTrip(e: Params, m: Message, rest: string)
    requires WellFormed(e, m) && (m.payload.NoBody? || !IsMultipart(m)) && HeadersWithin(e, m.headers)
    requires |Render(m) + rest| <= e.maxLine
    ensures ParseRequest(e, Fresh(Render(m) + rest)) == Understood(e, m, rest)
  {
    hide ParseRequest, IsMultipart, LineOk, HeaderOk, PayloadOk, HeadersWithin, Render, Handled, Understood;
    RequestRead(e, m, rest);
    PlainHandled(e, m, rest);
  }

  // ---------------------------------------------------------------- multipart messages

  /** With no boundary set: bodies the parse is over with at once. */
  predicate EndsAtOnce(body: string) {
    body == "" || body == "--" || body == "--\r\n" || StartsWith(body, "----")
  }

  /** Bodies it never ends on: those that do not begin with two dashes, those where what follows the
      dashes is neither a line end nor two more, and those where no part follows the line end. */
  predicate NeverParses(body: string) {
    body != "" &&
    if !MultiPart.Dashes(body) then true
    else if |body| > 2 && MultiPart.Crlf(body[2..]) then
      |body| > 4 && !MultiPart.Strncasecmp(body[4..], "Content-Disposition")
    else |body| > 2 && !MultiPart.Dashes(body[2..])
  }

  lemma MultipartRun(body: string)
    ensures EndsAtOnce(body) ==>
      MultiPart.Run(MultiPart.Start(body, map[], map[]), "") == MultiPart.Finished(map[], map[])
    ensures NeverParses(body) ==>
      MultiPart.Run(MultiPart.Start(body, map[], map[]), "") == MultiPart.Stuck(map[], map[])
    ensures EndsAtOnce(body) || NeverParses(body)
      || (StartsWith(body, "--\r\n") && MultiPart.Strncasecmp(body[4..], "Content-Disposition"))
  {
    hide MultiPart.Run, MultiPart.Strncasecmp;
    MultiPart.EmptyEnds(map[], map[]);
    MultiPart.DashesEnd(map[], map[]);
    if StartsWith(body, "----") {
      MultiPart.FourDashesEnd(body[4..], map[], map[]);
      assert "----" + body[4..] == body;
    } else if MultiPart.Dashes(body) && |body| > 2 && MultiPart.Crlf(body[2..]) {
      assert "--\r\n" + body[4..] == body;
      if NeverParses(body) {
        MultiPart.NoPartHangs(body[4..], map[], map[]);
      }
    } else if NeverParses(body) {
      MultiPart.NoBoundaryHangs(body, map[], map[]);
    }
  }

  /** A multipart message, whatever its length and spelling, in any pieces that bring its line in time and
      do not cut an overlong header (or whole): it waits for a closing mark of four dashes and a line end;
      with that mark or a short body it is parsed, which is over at once, or never ends, or goes on to a
      first part. */
  lemma MultipartEnds(e: Params, m: Message, rest: string, pieces: seq<string>)
    requires WellFormed(e, m) && IsMultipart(m) && !m.payload.NoBody? && HeadersWithin(e, m.headers)
    requires Division(Render(m) + rest, pieces) && LineInTime(e, "", pieces)
    requires |pieces| == 1 || (!LeftWaiting(m, rest) && !BlankLineCut(e, Render(m) + rest, pieces))
    ensures var body := BodyOf(m.payload); var o := Feed(e, Fresh(""), pieces);
      if Unclosed(body) then o == Outcome(Received(e, m, rest), Again)
      else if EndsAtOnce(body) then o == Understood(e, m, rest)
      else if NeverParses(body) then o == Outcome(Received(e, m, rest), Hangs)
      else StartsWith(body, "--\r\n") && MultiPart.Strncasecmp(body[4..], "Content-Disposition")
  {
    hide ParseRequest, Feed, LineInTime, BlankLineCut, LeftWaiting, HeadersWithin, Render, MultiPart.Run;
    hide LineOk, HeaderOk, PayloadOk, Announced, EndsAtOnce, NeverParses, Unclosed, BodyOf, Handled;
    hide MultiPart.Strncasecmp, Received;
    if |pieces| == 1 {
      WholeFed(e, m, rest, pieces);
    } else {
      AnyDivisionHandled(e, m, rest, pieces);
    }
    MultipartRun(BodyOf(m.payload));
    MultipartHandled(e, m, rest);
    NothingHeld(e, m, rest);
  }

  lemma NothingHeld(e: Params, m: Message, rest: string)
    ensures var r := Received(e, m, rest); r.(form := map[], files := map[]) == r
    ensures var r := Understood(e, m, rest).req; r.(form := map[], files := map[]) == r
  {
  }

  lemma WholeFed(e: Params, m: Message, rest: string, pieces: seq<string>)
    requires WellFormed(e, m) && HeadersWithin(e, m.headers)
    requires Division(Render(m) + rest, pieces) && LineInTime(e, "", pieces) && |pieces| == 1
    ensures Feed(e, Fresh(""), pieces) == Handled(e, m, rest)
  {
    hide ParseRequest, WellFormed, HeadersWithin, Render, Handled, Feed, LineInTime;
    var s := Render(m) + rest;
    OnlyPiece(e, s, pieces);
    FeedOne(e, s);
    RequestRead(e, m, rest);
  }

  lemma OnlyPiece(e: Params, s: string, pieces: seq<string>)
    requires Division(s, pieces) && LineInTime(e, "", pieces) && |pieces| == 1
    ensures pieces == [s] && |s| <= e.maxLine
  {
    OnePieceIs(s, pieces);
    hide FindCrlf;
    assert LineInTime(e, "", [s]);
    assert "" + [s][0] == s;
  }

  lemma OnePieceIs(s: string, pieces: seq<string>)
    requires Division(s, pieces) && |pieces| == 1
    ensures pieces == [s]
  {
    hide Concat;
    assert pieces[1..] == [];
    assert Concat(pieces) == pieces[0] by { ConcatOne(pieces[0]); assert pieces == [pieces[0]]; }
  }

  lemma ConcatOne(p: string)
    ensures Concat([p]) == p
  {
    assert [p][1..] == [];
  }

  lemma FeedOne(e: Params, s: string)
    ensures Feed(e, Fresh(""), [s]) == ParseRequest(e, Fresh(s))
  {
    hide ParseRequest, Concat;
    var o := ParseRequest(e, Fresh(s));
    FreshReceives(s);
    ReceiveNothing(o.req);
    assert [s][1..] == [];
    assert Concat([]) == "" by { NoPieces(); }
  }

  lemma NoPieces()
    ensures Concat([]) == ""
  {
  }

  /** What the handler makes of a multipart body. */
  lemma MultipartHandled(e: Params, m: Message, rest: string)
    requires IsMultipart(m) && !m.payload.NoBody?
    ensures var body := BodyOf(m.payload); var run := MultiPart.Run(MultiPart.Start(body, map[], map[]), "");
      Handled(e, m, rest) ==
        if Unclosed(body) then Outcome(Received(e, m, rest), Again)
        else if run.Finished? then
          Outcome(Understood(e, m, rest).req.(form := run.form, files := run.files), Ok)
        else Outcome(Received(e, m, rest).(form := run.form, files := run.files), Hangs)
  {
    UnclosedWaits(BodyOf(m.payload));
    hide MultiPart.Run, Unclosed, BodyWaits, BodyOf, HeaderMap, HeaderLength, LastValue, TypeMeant, KeepsAlive;
    hide Contains;
  }

  /** Parts written behind the empty boundary are found: the request comes to hold what they amount to. */
  lemma PartsFound(e: Params, m: Message, rest: string, pieces: seq<string>,
                   items: seq<MultiPart.Item>, epilogue: string)
    requires WellFormed(e, m) && IsMultipart(m) && !m.payload.NoBody? && HeadersWithin(e, m.headers)
    requires Division(Render(m) + rest, pieces) && LineInTime(e, "", pieces)
    requires !BlankLineCut(e, Render(m) + rest, pieces)
    requires BodyOf(m.payload) == MultiPart.Body(items, "", epilogue) && !Unclosed(BodyOf(m.payload))
    requires forall item <- items :: MultiPart.Fits(item, "")
    ensures var (form, files) := MultiPart.AbsorbAll(items, map[], map[]);
      Feed(e, Fresh(""), pieces) == Outcome(Understood(e, m, rest).req.(form := form, files := files), Ok)
  {
    hide ParseRequest, Feed, LineInTime, BlankLineCut, HeadersWithin, Render, MultiPart.Run, WellFormed, Unclosed;
    hide MultiPart.Body, MultiPart.Fits, MultiPart.AbsorbAll, BodyOf, Handled, Understood, IsMultipart;
    AnyDivisionHandled(e, m, rest, pieces);
    MultipartHandled(e, m, rest);
    MultiPart.BodyRead(items, "", epilogue, map[], map[]);
  }

  // ---------------------------------------------------------------- which messages may be cut up

  /** Beyond the line limit: whether the limit falls behind the request line is all that matters. */
  lemma LongMessage(e: Params, m: Message, rest: string)
    requires LineOk(e, m) && |Render(m) + rest| > e.maxLine
    ensures LineFound(e, Render(m) + rest) <==> |RenderLine(m)| + 2 <= e.maxLine
  {
    hide FindCrlf, RenderLine, RenderPayload, Lines;
    var line := RenderLine(m);
    var s := Render(m) + rest;
    var tail := Lines(m.headers) + "\r\n" + RenderPayload(m.payload) + rest;
    assert s == line + "\r\n" + tail;
    var head := s[..e.maxLine];
    if |line| + 2 <= e.maxLine {
      var more := head[|line| + 2..];
      assert head == line + "\r\n" + more;
      FindCrlfAfter(line, more);
      assert head[..|line|] == line;
      LineScanned(e, m);
      MethodFound(e, line);
    } else {
      CutLine(line, tail, e.maxLine);
    }
  }

  lemma MethodFound(e: Params, line: string)
    ensures ScanLine(e, line).ret == Ok ==> MethodOf(line).Some?
  {
  }

  /** A line cut off before its end has no line end in it. */
  lemma CutLine(line: string, tail: string, n: nat)
    requires FindCrlf(line) < 0 && n < |line| + 2 && n <= |line + "\r\n" + tail|
    ensures FindCrlf((line + "\r\n" + tail)[..n]) < 0
  {
    var head := (line + "\r\n" + tail)[..n];
    forall k | CrlfAt(head, k)
      ensures CrlfAt(line, k)
    {
    }
  }

  /** Of all well-formed messages exactly these may not be cut anywhere: within the line limit, one left
      waiting; beyond the limit, one with its request line within it. */
  lemma MessageSafeIff(e: Params, m: Message, rest: string)
    requires WellFormed(e, m) && e.maxLine <= e.maxHeader
    ensures SafeToSplit(e, Render(m) + rest) <==>
      if |Render(m) + rest| <= e.maxLine then !LeftWaiting(m, rest) else |RenderLine(m)| + 2 > e.maxLine
  {
    hide ParseRequest, LineFound, RenderLine, RenderPayload, Announced, LineOk, HeaderOk, PayloadOk, HeaderLength;
    hide LeftWaiting, Lines, Handled, Stuck;
    if |Render(m) + rest| <= e.maxLine {
      HeaderLengthBound(m.headers);
      FewerHeaders(m.headers);
      assert |Lines(m.headers)| <= |Render(m) + rest|;
      RequestRead(e, m, rest);
      StuckIff(e, m, rest);
    } else {
      LongMessage(e, m, rest);
    }
  }

  // ---------------------------------------------------------------- there are such messages

  function MultipartField(): HeaderField { HeaderField("content-type", " ", "multipart/form-data") }

  function ChunkedField(): HeaderField { HeaderField("transfer-encoding", " ", "chunked") }

  /** A chunked multipart message whose body is not closed. */
  function OpenMultipart(): Message {
    Message(POST, ' ', "/", HTTP_1_1,
            [MultipartField(), ChunkedField()], Chunked([Chunk("7", "unended")], "0"))
  }

  lemma OpenMultipartLines(name: string)
    ensures var hs := OpenMultipart().headers;
      LastValue(hs, name) ==
        if SameUpToCase("transfer-encoding", name) then Some("chunked")
        else if SameUpToCase("content-type", name) then Some("multipart/form-data")
        else None
  {
    hide SameUpToCase;
    var hs := OpenMultipart().headers;
    var first := [MultipartField()];
    assert |hs| == 2 && hs[1] == ChunkedField() && hs[..1] == first && first[..0] == [];
    assert LastValue(first, name) == if SameUpToCase("content-type", name) then Some("multipart/form-data") else None;
  }

  lemma OpenMultipartFields(e: Params)
    ensures IsMultipart(OpenMultipart()) && Announced(e, OpenMultipart())
  {
    hide LastValue;
    OpenMultipartLines("content-length");
    OpenMultipartLines("content-type");
    OpenMultipartLines("transfer-encoding");
    assert |"content-type"| == 12 && |"transfer-encoding"| == 17 && |"content-length"| == 14;
    MultipartText();
  }

  lemma MultipartText()
    ensures FirstMatch("multipart/form-data", TYPES) == MULTIPART
  {
    hide StartsUpToCase;
    TypeChain("multipart/form-data");
    assert StartsUpToCase("multipart/form-data", TYPES[1].0) && !StartsUpToCase("multipart/form-data", TYPES[0].0) by {
      Multipart();
    }
  }

  lemma Multipart()
    ensures StartsUpToCase("multipart/form-data", "multipart/form-data")
    ensures !StartsUpToCase("multipart/form-data", "application/x-www-form-urlencoded")
  {
    assert |"application/x-www-form-urlencoded"| == 33;
    assert "multipart/form-data"[..19] == "multipart/form-data";
  }

  /** Both kinds of unsafe stream exist, whatever the parameters: the code's limits are far above. */
  lemma WaitingMultipartIsUnsafe(e: Params)
    requires e.chunkDigits >= 1 && e.urlOk("/") && 200 <= e.maxLine <= e.maxHeader
    ensures !SafeToSplit(e, Render(OpenMultipart()) + "xy")
  {
    hide IsMultipart, Announced, Render, PayloadOk, HeaderOk, LineOk;
    var m := OpenMultipart();
    OpenMultipartFields(e);
    OpenMultipartOk(e, m);
    OpenMultipartSize();
    MessageSafeIff(e, m, "xy");
    OpenMultipartWaits();
  }

  lemma OpenMultipartWaits()
    ensures Unclosed(BodyOf(OpenMultipart().payload))
  {
    var chunks := OpenMultipart().payload.chunks;
    assert chunks[1..] == [] && Data(chunks) == "unended" + "" == "unended";
    assert "unended"[|"unended"| - 6..][0] == 'n';
  }

  lemma OpenMultipartOk(e: Params, m: Message)
    requires m == OpenMultipart() && e.chunkDigits >= 1 && e.urlOk("/")
    ensures LineOk(e, m) && (forall h <- m.headers :: HeaderOk(h)) && PayloadOk(e, m.payload)
  {
    hide LineOk, HeaderOk, PayloadOk;
    RootOk(e, m);
    OpenHeadersOk();
    OneChunkOk(e);
  }

  lemma OpenHeadersOk()
    ensures forall h <- OpenMultipart().headers :: HeaderOk(h)
  {
    MultipartFieldOk();
    ChunkedFieldOk();
    hide HeaderOk, MultipartField, ChunkedField;
    assert OpenMultipart().headers == [MultipartField(), ChunkedField()];
  }

  lemma MultipartFieldOk()
    ensures HeaderOk(MultipartField())
  {
    hide HeaderOk;
    PlainHeader("content-type", "multipart/form-data");
  }

  lemma ChunkedFieldOk()
    ensures HeaderOk(ChunkedField())
  {
    hide HeaderOk;
    PlainHeader("transfer-encoding", "chunked");
  }

  lemma RootOk(e: Params, m: Message)
    requires m.url == "/" && m.mark == ' ' && e.urlOk("/")
    ensures LineOk(e, m)
  {
    NoCrIn(RenderLine(m));
  }

  lemma PlainHeader(key: string, value: string)
    requires '\r' !in key && ':' !in key && '\r' !in value && value != "" && value[0] != ' '
    ensures HeaderOk(HeaderField(key, " ", value))
  {
    NoCrIn(RenderHeader(HeaderField(key, " ", value)));
    assert FindNotChar(" ", ' ', 0) < 0;
  }

  lemma OneChunkOk(e: Params)
    requires e.chunkDigits >= 1
    ensures PayloadOk(e, OpenMultipart().payload)
  {
    assert "7"[1..] == "" && "0"[1..] == "";
    assert Util.HexString2Int(e.radix, "7") == 7 && Util.HexString2Int(e.radix, "0") == 0;
  }

  lemma OpenMultipartSize()
    ensures |Render(OpenMultipart()) + "xy"| <= 200
  {
    var m := OpenMultipart();
    assert m.headers[1..][1..] == [] && m.payload.chunks[1..] == [];
    assert |Lines(m.headers[1..])| <= 40;
    assert |Lines(m.headers)| <= 90;
    assert |RenderChunks(m.payload.chunks, m.payload.last)| <= 30;
  }

  /** A short request with a long tail behind it. */
  function Short(): Message { Message(GET, ' ', "/", HTTP_1_1, [], NoBody) }

  lemma ShortOk(e: Params)
    requires e.urlOk("/")
    ensures WellFormed(e, Short()) && |RenderLine(Short())| == 14 && |Render(Short())| == 18
  {
    RootOk(e, Short());
    hide LineOk;
    assert Lines([]) == "";
  }

  /** Beyond the line limit: fed whole it is refused, fed in two pieces its request is understood. */
  lemma OverlongIsUnsafe(e: Params)
    requires 18 <= e.maxLine <= e.maxHeader && e.urlOk("/")
    ensures var rest := seq(e.maxLine, _ => 'x'); var s := Render(Short()) + rest;
      && !SafeToSplit(e, s) && ParseRequest(e, Fresh(s)).ret == Bad
      && Feed(e, Fresh(""), [Render(Short()), rest]) == Understood(e, Short(), rest)
  {
    hide ParseRequest, Feed, FeedAll, WellFormed, SafeToSplit, IsMultipart, Understood, Render;
    var rest := seq(e.maxLine, _ => 'x');
    var s, pieces := Render(Short()) + rest, [Render(Short()), rest];
    ShortOk(e);
    MessageSafeIff(e, Short(), rest);
    TooLong(e, s);
    assert pieces[1..] == [rest] && [rest][1..] == [] && Concat([rest]) == rest + "" == rest;
    assert LineInTime(e, "", pieces) by {
      ShortInTime(e, "", [Render(Short())]);
      LineThere();
    }
    AnyLengthUnderstood(e, Short(), rest, pieces);
  }

  lemma LineThere()
    ensures FindCrlf("" + Render(Short())) >= 0
  {
    var s := Render(Short());
    assert CrlfAt("" + s, |RenderLine(Short())|);
  }
}
