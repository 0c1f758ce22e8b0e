/** Streams of any length whose request line comes in time: when their division matters, and to whom. */
module HttpLong {
  import opened Text
  import Util
  import opened HttpModel
  import opened HttpFields
  import opened HttpGrammar
  import opened HttpResume
  import HttpRefusal

  /** The pieces deliver the request line, or all there is, before more than maxLine bytes lie in the
      buffer. */
  predicate LineInTime(e: Params, buf: string, pieces: seq<string>)
    requires pieces != []
    decreases |pieces|
  {
    var b := buf + pieces[0];
    |b| <= e.maxLine && (FindCrlf(b) >= 0 || |pieces| == 1 || LineInTime(e, b, pieces[1..]))
  }

  /** The same parser without a limit on the line. */
  function Unlimited(e: Params, s: string): Params { e.(maxLine := e.maxLine + |s|) }

  lemma LimitUnseen(e: Params, n: nat, r: Request)
    requires Valid(r) && (r.state == RequestLine ==> |r.buf| <= e.maxLine)
    ensures ParseRequest(e, r) == ParseRequest(e.(maxLine := e.maxLine + n), r)
  {
    hide ScanLine, ReadFields, HandleContent;
    var e' := e.(maxLine := e.maxLine + n);
    match r.state
    case RequestLine =>
      assert forall line :: ScanLine(e, line) == ScanLine(e', line) by { LimitUnseenInLine(e, n); }
      var l := ParseLine(e, r);
      if l.ret == Ok {
        LimitUnseenInHeader(e, n, l.req.(state := Header));
      }
    case Header => LimitUnseenInHeader(e, n, r);
    case Content => LimitUnseenInContent(e, n, r);
    case Done =>
  }

  lemma LimitUnseenInLine(e: Params, n: nat)
    ensures forall line :: ScanLine(e, line) == ScanLine(e.(maxLine := e.maxLine + n), line)
  {
  }

  lemma LimitUnseenInHeader(e: Params, n: nat, r: Request)
    requires Valid(r) && r.state == Header
    ensures FromHeader(e, r) == FromHeader(e.(maxLine := e.maxLine + n), r)
  {
    hide ScanHeader;
    LimitUnseenInScan(e, n, r.buf, r.header, r.headerLen);
    var h := ParseHeader(e, r);
    if h.ret == Ok {
      LimitUnseenInContent(e, n, h.req.(state := Content));
    }
  }

  lemma LimitUnseenInTurn(e: Params, n: nat, buf: string, len: nat)
    ensures NextHeader(e.(maxLine := e.maxLine + n), buf, len) == NextHeader(e, buf, len)
  {
  }

  lemma {:induction false} LimitUnseenInScan(e: Params, n: nat, buf: string, header: map<string, string>, len: nat)
    ensures ScanHeader(e, buf, header, len) == ScanHeader(e.(maxLine := e.maxLine + n), buf, header, len)
    decreases |buf|
  {
    hide NextHeader, ScanHeader, ToLowers;
    assert NextHeader(e.(maxLine := e.maxLine + n), buf, len) == NextHeader(e, buf, len) by {
      LimitUnseenInTurn(e, n, buf, len);
    }
    match NextHeader(e, buf, len)
    case Leave(_, _) =>
      HeaderLeaves(e, buf, header, len);
      HeaderLeaves(e.(maxLine := e.maxLine + n), buf, header, len);
    case Field(k, key, value) =>
      HeaderGoes(e, buf, header, len);
      HeaderGoes(e.(maxLine := e.maxLine + n), buf, header, len);
      LimitUnseenInScan(e, n, buf[k..], header[ToLowers(key) := value], len + |key| + |value|);
  }

  lemma LimitUnseenInContent(e: Params, n: nat, r: Request)
    requires BodyFits(r) && r.state == Content
    ensures FromContent(e, r) == FromContent(e.(maxLine := e.maxLine + n), r)
  {
    hide ScanChunks, HandleContent;
    if r.fields.hasTransferEncoding {
      LimitUnseenInChunks(e, n, ChunksOf(r));
    }
  }

  lemma {:induction false} LimitUnseenInChunks(e: Params, n: nat, c: Chunks)
    requires c.Valid()
    ensures ScanChunks(e, c) == ScanChunks(e.(maxLine := e.maxLine + n), c)
    decreases |c.buf|
  {
    hide Util.HexString2Int, SizeEnd;
    match NextChunk(e, c)
    case Goes(d) => LimitUnseenInChunks(e, n, d);
    case Stops(_, _) =>
  }

  /** Waiting in the first state means that no line end has come. */
  lemma WaitingForLine(e: Params, r: Request)
    requires Valid(r) && r.state == RequestLine
    ensures var o := ParseRequest(e, r);
      o.ret == Again && o.req.state == RequestLine ==> o.req == r && FindCrlf(r.buf) < 0
  {
    hide ParseLine, ParseHeader, ParseContent;
    LineStage(e, r);
    var l := ParseLine(e, r);
    if l.ret == Ok {
      HeaderGoesOn(e, l.req.(state := Header));
    }
  }

  lemma HeaderGoesOn(e: Params, r: Request)
    requires Valid(r) && r.state == Header
    ensures FromHeader(e, r).req.state != RequestLine
  {
    hide ParseHeader, ParseContent;
    HeaderStage(e, r);
    var h := ParseHeader(e, r);
    if h.ret == Ok {
      ContentStage(e, h.req.(state := Content));
    }
  }

  lemma LineIsOver(e: Params, r: Request)
    requires Valid(r) && r.state != RequestLine
    ensures ParseRequest(e, r).req.state != RequestLine
  {
    hide ParseHeader, ParseContent;
    match r.state
    case Header => HeaderGoesOn(e, r);
    case Content => ContentStage(e, r);
    case Done =>
  }

  lemma {:induction false} LimitUnseenByFeed(e: Params, n: nat, r: Request, pieces: seq<string>)
    requires Valid(r) && pieces != [] && (r.state == RequestLine ==> LineInTime(e, r.buf, pieces))
    ensures Feed(e, r, pieces) == Feed(e.(maxLine := e.maxLine + n), r, pieces)
    decreases |pieces|
  {
    hide ParseRequest;
    var r' := Receive(r, pieces[0]);
    LimitUnseen(e, n, r');
    var o := ParseRequest(e, r');
    if o.ret == Again && |pieces| > 1 {
      if r.state == RequestLine {
        WaitingForLine(e, r');
      } else {
        LineIsOver(e, r');
      }
      LimitUnseenByFeed(e, n, o.req, pieces[1..]);
    }
  }

  lemma {:induction false} LimitUnseenByFeedAll(e: Params, n: nat, r: Request, ret: RetState, pieces: seq<string>)
    requires Valid(r) && pieces != [] && (r.state == RequestLine ==> LineInTime(e, r.buf, pieces))
    ensures FeedAll(e, r, ret, pieces) == FeedAll(e.(maxLine := e.maxLine + n), r, ret, pieces)
    decreases |pieces|
  {
    hide ParseRequest;
    var e' := e.(maxLine := e.maxLine + n);
    var r' := Receive(r, pieces[0]);
    LimitUnseen(e, n, r');
    var o := ParseRequest(e, r');
    if Returns(o.ret) && |pieces| > 1 {
      if o.req.state != RequestLine {
        LimitUnseenByFeedAll(e, n, o.req, o.ret, pieces[1..]);
      } else if o.ret == Again {
        StillAtLine(e, r');
        LimitUnseenByFeedAll(e, n, o.req, o.ret, pieces[1..]);
      } else if o.ret == Bad {
        HttpRefusal.RefusalStays(e, r', pieces[1..]);
        HttpRefusal.RefusalStays(e', r', pieces[1..]);
      } else {
        HttpRefusal.OkMeansDone(e, r');
      }
    }
  }

  lemma StillAtLine(e: Params, r: Request)
    requires Valid(r)
    ensures var o := ParseRequest(e, r);
      o.ret == Again && o.req.state == RequestLine ==> r.state == RequestLine && o.req == r && FindCrlf(r.buf) < 0
  {
    hide ParseRequest;
    if r.state == RequestLine {
      WaitingForLine(e, r);
    } else {
      LineIsOver(e, r);
    }
  }

  /** Without the request line in time the stream is refused. */
  lemma {:induction false} LateIsRefused(e: Params, buf: string, pieces: seq<string>)
    requires pieces != [] && !LineInTime(e, buf, pieces)
    ensures var o := Feed(e, Fresh(buf), pieces); o.ret == Bad && o.req.state == RequestLine
    decreases |pieces|
  {
    var b := buf + pieces[0];
    assert Receive(Fresh(buf), pieces[0]) == Fresh(b);
    if |b| <= e.maxLine && |pieces| > 1 {
      assert FindCrlf(b) < 0;
      LateIsRefused(e, b, pieces[1..]);
    }
  }

  // ---------------------------------------------------------------- a cut in the blank line

  /** The head of a request whose keys and values pass the header limit with the last line, not before. */
  predicate OverlongHead(e: Params, m: Message) {
    LineOk(e, m) && (forall h <- m.headers :: HeaderOk(h))
    && HeadersWithin(e, m.headers) && HeaderLength(m.headers) > e.maxHeader
  }

  /** Some piece ends n bytes into the stream. */
  predicate CutAt(pieces: seq<string>, n: int) {
    exists k :: 0 <= k <= |pieces| && |Concat(pieces[..k])| == n
  }

  /** The stream begins with an overlong head, and some piece ends between the CR and the LF of its
      blank line. */
  ghost predicate BlankLineCut(e: Params, s: string, pieces: seq<string>) {
    exists m :: OverlongHead(e, m) && Head(m) <= s && CutAt(pieces, |Head(m)| - 1)
  }

  lemma {:induction false} FeedPrefix(e: Params, r: Request, xs: seq<string>, ys: seq<string>)
    requires Valid(r) && xs != [] && Feed(e, r, xs).ret != Again
    ensures var f := Feed(e, r, xs); Feed(e, r, xs + ys) == Outcome(Receive(f.req, Concat(ys)), f.ret)
    decreases |xs|
  {
    hide ParseRequest;
    var o := ParseRequest(e, Receive(r, xs[0]));
    assert (xs + ys)[1..] == xs[1..] + ys;
    if o.ret == Again && |xs| > 1 {
      FeedPrefix(e, o.req, xs[1..], ys);
    } else {
      ConcatAppend(xs[1..], ys);
      ReceiveTwice(o.req, Concat(xs[1..]), Concat(ys));
    }
  }

  lemma {:induction false} InTimePrefix(e: Params, buf: string, pieces: seq<string>, k: nat)
    requires 0 < k <= |pieces| && LineInTime(e, buf, pieces)
    ensures LineInTime(e, buf, pieces[..k])
    decreases |pieces|
  {
    if k > 1 && FindCrlf(buf + pieces[0]) < 0 {
      InTimePrefix(e, buf + pieces[0], pieces[1..], k - 1);
      assert pieces[..k][1..] == pieces[1..][..k - 1];
    }
  }

  /** The piece at which a stream is refused in the middle of a blank line. */
  lemma {:induction false} CutFound(e: Params, r: Request, pieces: seq<string>) returns (k: nat)
    requires Valid(r) && pieces != [] && CutInBlankLine(Feed(e, r, pieces))
    ensures 0 < k <= |pieces|
    ensures var f := Feed(e, r, pieces[..k]);
      f.ret == Bad && f.req.state == Header && !CutInBlankLine(f) && CrlfAt(f.req.buf + Concat(pieces[k..]), 0)
    decreases |pieces|
  {
    hide ParseRequest;
    var r' := Receive(r, pieces[0]);
    var o := ParseRequest(e, r');
    if o.ret == Again && |pieces| > 1 {
      k := CutFound(e, o.req, pieces[1..]);
      k := k + 1;
      assert pieces[..k][1..] == pieces[1..][..k - 1] && pieces[1..][k - 1..] == pieces[k..];
    } else {
      k := 1;
      assert pieces[..1] == [pieces[0]] && pieces[..1][1..] == [];
      ReceiveNothing(o.req);
      HttpRefusal.NotAtBlankLine(e, r');
    }
  }

  /** A head read as far as the code comes before it refuses the header. */
  lemma HeadSpelled(e: Params, a: string) returns (m: Message)
    requires |a| <= e.maxLine
    requires ParseRequest(e, Fresh(a)).ret == Bad && ParseRequest(e, Fresh(a)).req.state == Header
    ensures LineOk(e, m) && (forall h <- m.headers :: HeaderOk(h)) && HeadersWithin(e, m.headers)
    ensures var buf := ParseRequest(e, Fresh(a)).req.buf;
      && a == RenderLine(m) + "\r\n" + (Lines(m.headers) + buf)
      && buf != "" && NextHeader(e, buf, HeaderLength(m.headers)) == Leave(0, Bad)
  {
    BadInHeader(e, a);
    hide ParseRequest, ScanLine, ScanHeader, ReadFields, LineOk, HeaderOk, HeadersWithin, RenderLine, Lines;
    var m0, tail := LineStageSpelled(e, a);
    var hs := HeadersSpelled(e, tail, map[], 0);
    HttpRefusal.HeaderRefusal(e, tail, map[], 0);
    m := m0.(headers := hs);
    SameLine(e, m0, m);
    assert HeadersWithin(e, hs) by { WithinIs(e, hs); }
  }

  lemma WithinIs(e: Params, hs: seq<HeaderField>)
    ensures HeadersWithin(e, hs) <==> hs == [] || 0 + HeaderLength(hs[..|hs| - 1]) <= e.maxHeader
  {
  }

  lemma BadInHeader(e: Params, a: string)
    requires ParseRequest(e, Fresh(a)).ret == Bad && ParseRequest(e, Fresh(a)).req.state == Header
    ensures ParseLine(e, Fresh(a)).ret == Ok
    ensures var l := ParseLine(e, Fresh(a)).req; var s := ScanHeader(e, l.buf, map[], 0);
      l.header == map[] && l.headerLen == 0 && s.ret == Bad && ParseRequest(e, Fresh(a)).req.buf == s.buf
  {
    hide ScanLine, ScanHeader, ReadFields, ParseContent;
    var l := ParseLine(e, Fresh(a));
    LineStage(e, Fresh(a));
    if l.ret == Ok {
      var r := l.req.(state := Header);
      HeaderStage(e, r);
      if ParseHeader(e, r).ret == Ok {
        ContentStage(e, ParseHeader(e, r).req.(state := Content));
      }
    }
  }

  /** What is left in the buffer then is the CR of the blank line. */
  lemma OnlyCr(e: Params, buf: string, len: nat, q: string)
    requires buf != "" && NextHeader(e, buf, len) == Leave(0, Bad) && CrlfAt(buf + q, 0)
    ensures buf == "\r" && len > e.maxHeader && q != "" && q[0] == '\n'
  {
    assert |buf| >= 2 ==> CrlfAt(buf, 0);
  }

  lemma CutMeansBlankLine(e: Params, s: string, pieces: seq<string>)
    requires Division(s, pieces) && CutInBlankLine(Feed(e, Fresh(""), pieces))
    ensures LineInTime(e, "", pieces) && BlankLineCut(e, s, pieces)
  {
    hide ParseRequest, LineInTime, CutInBlankLine, OverlongHead, Head;
    if !LineInTime(e, "", pieces) {
      LateIsRefused(e, "", pieces);
      NotCutAtLine(Feed(e, Fresh(""), pieces));
    }
    var k := CutFound(e, Fresh(""), pieces);
    var xs := pieces[..k];
    var a, q := Concat(xs), Concat(pieces[k..]);
    SplitPieces(s, pieces, k);
    var e' := Unlimited(e, s);
    InTimePrefix(e, "", pieces, k);
    LimitUnseenByFeed(e, |s|, Fresh(""), xs);
    FeedIsWholeIff(e', Fresh(""), xs);
    FreshReceives(a);
    var m := HeadSpelled(e', a);
    var f := ParseRequest(e', Fresh(a));
    OnlyCr(e', f.req.buf, HeaderLength(m.headers), q);
    HeadEnds(m, a, q);
    assert OverlongHead(e, m) by { SameLimits(e, s, m); }
    assert CutAt(pieces, |Head(m)| - 1);
  }

  lemma NotCutAtLine(o: Outcome)
    ensures o.req.state == RequestLine ==> !CutInBlankLine(o)
  {
  }

  lemma FreshReceives(a: string)
    ensures Receive(Fresh(""), a) == Fresh(a)
  {
    assert "" + a == a;
  }

  lemma SplitPieces(s: string, pieces: seq<string>, k: nat)
    requires Division(s, pieces) && k <= |pieces|
    ensures s == Concat(pieces[..k]) + Concat(pieces[k..]) && pieces == pieces[..k] + pieces[k..]
  {
    assert pieces == pieces[..k] + pieces[k..];
    ConcatAppend(pieces[..k], pieces[k..]);
  }

  lemma HeadEnds(m: Message, a: string, q: string)
    requires a == RenderLine(m) + "\r\n" + (Lines(m.headers) + "\r") && q != "" && q[0] == '\n'
    ensures Head(m) <= a + q && |Head(m)| == |a| + 1
  {
    assert Head(m) == a + "\n";
    assert (a + q)[..|a| + 1] == a + [q[0]];
  }

  lemma SameLimits(e: Params, s: string, m: Message)
    requires LineOk(Unlimited(e, s), m) && (forall h <- m.headers :: HeaderOk(h))
    requires HeadersWithin(Unlimited(e, s), m.headers) && HeaderLength(m.headers) > e.maxHeader
    ensures OverlongHead(e, m)
  {
  }

  /** A head without its last LF is refused with the CR left, when the header is over its limit. */
  lemma HeadRefused(e: Params, m: Message, a: string)
    requires OverlongHead(e, m) && a + "\n" == Head(m) && |a| <= e.maxLine
    ensures var o := ParseRequest(e, Fresh(a)); o.ret == Bad && o.req.state == Header && o.req.buf == "\r"
  {
    hide RenderLine, Lines, HeaderOk, ScanHeader, HeaderLength, HeaderMap, LineOk, ParseLine, ReadFields;
    var more := Lines(m.headers) + "\r";
    assert a == RenderLine(m) + "\r\n" + more by {
      assert Head(m)[..|a|] == a;
    }
    LineParsed(e, m, more);
    HeadersRead(e, m.headers, "\r", map[], 0);
    HeaderLeaves(e, "\r", HeaderMap(m.headers, map[]), HeaderLength(m.headers));
  }

  lemma BlankLineCuts(e: Params, s: string, pieces: seq<string>)
    requires Division(s, pieces) && LineInTime(e, "", pieces) && BlankLineCut(e, s, pieces)
    ensures CutInBlankLine(Feed(e, Fresh(""), pieces))
  {
    hide ParseRequest, LineInTime, OverlongHead, Head;
    var m :| OverlongHead(e, m) && Head(m) <= s && CutAt(pieces, |Head(m)| - 1);
    var k :| 0 <= k <= |pieces| && |Concat(pieces[..k])| == |Head(m)| - 1;
    var xs := pieces[..k];
    var a, q := Concat(xs), Concat(pieces[k..]);
    HeadFrame(m);
    SplitPieces(s, pieces, k);
    BeforeLf(s, Head(m), a, q);
    assert k > 0 by {
      assert k == 0 ==> xs == [];
    }
    var e' := Unlimited(e, s);
    assert OverlongHead(e', m) by { SameOverlong(e, s, m); }
    HeadRefused(e', m, a);
    InTimePrefix(e, "", pieces, k);
    LimitUnseenByFeed(e, |s|, Fresh(""), xs);
    FreshReceives(a);
    FeedIsWholeIff(e', Fresh(""), xs);
    FeedPrefix(e, Fresh(""), xs, pieces[k..]);
  }

  lemma HeadFrame(m: Message)
    ensures |Head(m)| >= 2 && Head(m)[|Head(m)| - 1] == '\n'
  {
  }

  lemma BeforeLf(s: string, head: string, a: string, q: string)
    requires head <= s == a + q && head != "" && head[|head| - 1] == '\n' && |a| == |head| - 1
    ensures a + "\n" == head && q != "" && q[0] == '\n'
  {
    assert a == s[..|a|] == head[..|a|];
    assert head == head[..|a|] + [head[|a|]];
  }

  lemma SameOverlong(e: Params, s: string, m: Message)
    requires OverlongHead(e, m)
    ensures OverlongHead(Unlimited(e, s), m)
  {
  }

  /** A parse that stops at the first result other than AGAIN is refused in the middle of a blank line
      exactly when the header is overlong and some piece ends there. */
  lemma CutIff(e: Params, s: string, pieces: seq<string>)
    requires Division(s, pieces)
    ensures CutInBlankLine(Feed(e, Fresh(""), pieces)) <==> LineInTime(e, "", pieces) && BlankLineCut(e, s, pieces)
  {
    if CutInBlankLine(Feed(e, Fresh(""), pieces)) {
      CutMeansBlankLine(e, s, pieces);
    }
    if LineInTime(e, "", pieces) && BlankLineCut(e, s, pieces) {
      BlankLineCuts(e, s, pieces);
    }
  }

  // ---------------------------------------------------------------- streams of any length

  /** A stream of any length, in any pieces that deliver the request line in time, gives what the whole
      gives without a line limit, exactly when no piece ends in the blank line of an overlong head. */
  lemma LongStreamsIff(e: Params, s: string, pieces: seq<string>)
    requires Division(s, pieces) && LineInTime(e, "", pieces)
    requires !Stuck(ParseRequest(Unlimited(e, s), Fresh(s)))
    ensures Feed(e, Fresh(""), pieces) == ParseRequest(Unlimited(e, s), Fresh(s)) <==> !BlankLineCut(e, s, pieces)
  {
    hide ParseRequest, LineInTime, BlankLineCut, CutInBlankLine;
    LimitUnseenByFeed(e, |s|, Fresh(""), pieces);
    FreshReceives(s);
    FeedIsWholeIff(Unlimited(e, s), Fresh(""), pieces);
    CutIff(e, s, pieces);
  }

  /** Parsing on after a refusal gives what the whole gives even then. */
  lemma {:induction false} FeedAllIsWhole(e: Params, r: Request, ret: RetState, pieces: seq<string>)
    requires Valid(r) && pieces != [] && Fits(e, r, Concat(pieces))
    requires !Stuck(ParseRequest(e, Receive(r, Concat(pieces))))
    ensures FeedAll(e, r, ret, pieces) == ParseRequest(e, Receive(r, Concat(pieces)))
    decreases |pieces|
  {
    hide ParseRequest;
    var rest := Concat(pieces[1..]);
    var r' := Receive(r, pieces[0]);
    ReceiveTwice(r, pieces[0], rest);
    Resume(e, r', rest);
    var o := ParseRequest(e, r');
    if |pieces| == 1 {
      ReceiveNothing(r');
      ReceiveNothing(o.req);
    } else if Resumes(o, rest) {
      FeedAllIsWhole(e, o.req, o.ret, pieces[1..]);
    } else if o.ret == Ok {
      HttpRefusal.OkMeansDone(e, r');
      HttpRefusal.FeedDone(e, o.req, pieces[1..]);
    } else if o.ret == Bad {
      HttpRefusal.RefusalStays(e, r', pieces[1..]);
    }
  }

  /** So whoever parses on after a refusal may be given a stream of any length cut anywhere, once the
      request line comes in time. */
  lemma AllLongStreams(e: Params, s: string, pieces: seq<string>)
    requires Division(s, pieces) && LineInTime(e, "", pieces)
    requires !Stuck(ParseRequest(Unlimited(e, s), Fresh(s)))
    ensures FeedAll(e, Fresh(""), Again, pieces) == ParseRequest(Unlimited(e, s), Fresh(s))
  {
    hide ParseRequest, LineInTime;
    LimitUnseenByFeedAll(e, |s|, Fresh(""), Again, pieces);
    FreshReceives(s);
    FeedAllIsWhole(Unlimited(e, s), Fresh(""), Again, pieces);
  }

  /** Parsing on after the result is final, as the driver in tests/test_httpRequest.cc does, differs from
      stopping there exactly for the streams whose request line comes in time, whose header passes its
      limit with the last line, and whose blank line is cut. */
  lemma FeedAllIsFeedIff(e: Params, s: string, pieces: seq<string>)
    requires Division(s, pieces)
    ensures FeedAll(e, Fresh(""), Again, pieces) != Feed(e, Fresh(""), pieces)
       <==> LineInTime(e, "", pieces) && BlankLineCut(e, s, pieces)
  {
    hide ParseRequest, LineInTime, BlankLineCut, CutInBlankLine;
    HttpRefusal.FeedsOnIff(e, Fresh(""), Again, pieces);
    CutIff(e, s, pieces);
  }

  // ---------------------------------------------------------------- there is such a stream

  function LongKey(n: nat): string { seq(n, _ => 'k') }

  /** A request with one header line whose key is one byte over the limit. */
  function OneOver(e: Params): Message {
    Message(GET, ' ', "/", HTTP_1_1, [HeaderField(LongKey(e.maxHeader + 1), " ", "")], NoBody)
  }

  function CutPieces(e: Params): seq<string> {
    ["GET / HTTP/1.1\r\n", LongKey(e.maxHeader + 1) + ": " + "\r\n", "\r", "\n"]
  }

  lemma OneOverIsOverlong(e: Params)
    requires e.urlOk("/")
    ensures OverlongHead(e, OneOver(e))
  {
    var m := OneOver(e);
    NoCrIn(RenderLine(m));
    NoCrIn(RenderHeader(m.headers[0]));
    assert m.headers[..0] == [] && m.headers[1..] == [];
  }

  lemma NoCrIn(s: string)
    requires forall k :: 0 <= k < |s| ==> s[k] != '\r'
    ensures FindCrlf(s) < 0
  {
  }

  lemma CutPiecesDivide(e: Params)
    ensures Division(Head(OneOver(e)), CutPieces(e)) && CutAt(CutPieces(e), |Head(OneOver(e))| - 1)
  {
    var m, p := OneOver(e), CutPieces(e);
    assert m.headers[1..] == [];
    assert RenderLine(m) + "\r\n" == p[0] && Lines(m.headers) == p[1];
    ConcatThree(p[0], p[1], p[2]);
    ConcatAppend([p[0], p[1], p[2]], [p[3]]);
    assert p == [p[0], p[1], p[2]] + [p[3]] && p[..3] == [p[0], p[1], p[2]];
    assert [p[3]][1..] == [] && Concat([p[3]]) == p[3];
    assert Head(m) == p[0] + p[1] + p[2] + p[3];
  }

  lemma ConcatThree(a: string, b: string, c: string)
    ensures Concat([a, b, c]) == a + b + c
  {
    assert [a, b, c][1..] == [b, c] && [b, c][1..] == [c] && [c][1..] == [];
    assert Concat([c]) == c;
    assert Concat([b, c]) == b + c;
    assert a + (b + c) == a + b + c;
  }

  /** Whatever the limits, the two ways of feeding this one differ. */
  lemma CutPiecesDiffer(e: Params)
    requires 16 <= e.maxLine && e.urlOk("/")
    ensures FeedAll(e, Fresh(""), Again, CutPieces(e)) != Feed(e, Fresh(""), CutPieces(e))
    ensures CutInBlankLine(Feed(e, Fresh(""), CutPieces(e)))
  {
    hide ParseRequest, CutInBlankLine, OverlongHead, Feed, FeedAll, Head, CutAt;
    var p := CutPieces(e);
    OneOverIsOverlong(e);
    CutPiecesDivide(e);
    assert LineInTime(e, "", p) by {
      assert "" + p[0] == p[0] && CrlfAt(p[0], 14);
    }
    assert Head(OneOver(e)) <= Head(OneOver(e));
    assert BlankLineCut(e, Head(OneOver(e)), p);
    FeedAllIsFeedIff(e, Head(OneOver(e)), p);
    CutIff(e, Head(OneOver(e)), p);
  }
}
