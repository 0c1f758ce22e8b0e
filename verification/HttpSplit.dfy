/** The way a byte stream is cut into pieces does not change what HttpRequest makes of it:
    when that is so, and exactly when it is not. */
module HttpSplit {
  import opened Text
  import opened HttpModel
  import opened HttpFields
  import opened HttpGrammar
  import opened HttpResume
  import opened HttpLong
  import MultiPart

  /** The first maxLine bytes hold a line that begins with a supported method. */
  predicate LineFound(e: Params, s: string) {
    var head := if |s| <= e.maxLine then s else s[..e.maxLine];
    FindCrlf(head) >= 0 && MethodOf(head[..FindCrlf(head)]).Some?
  }

  lemma {:induction false} FeedTooLong(e: Params, s: string, fed: string, pieces: seq<string>)
    requires |s| > e.maxLine && !LineFound(e, s)
    requires pieces != [] && fed + Concat(pieces) == s
    ensures Feed(e, Fresh(fed), pieces) == Outcome(Fresh(s), Bad)
    decreases |pieces|
  {
    var rest := Concat(pieces[1..]);
    var b := fed + pieces[0];
    assert b + rest == s;
    assert Receive(Fresh(fed), pieces[0]) == Fresh(b);
    if |b| <= e.maxLine {
      var head := s[..e.maxLine];
      if FindCrlf(b) >= 0 {
        assert head == b + head[|b|..];
        FindCrlfExtend(b, head[|b|..]);
        SliceAppend(b, head[|b|..], FindCrlf(b));
        assert WithLine(Fresh(b), LineScan(None, None, None, Bad)) == Fresh(b);
      }
      assert ParseLine(e, Fresh(b)).req == Fresh(b);
      if |pieces| > 1 {
        FeedTooLong(e, s, b, pieces[1..]);
      }
    }
    assert Receive(Fresh(b), rest) == Fresh(s);
  }

  /** When a division cannot matter: within the line limit, unless a multipart body is left waiting
      with bytes behind it; beyond the limit, only if no usable line appears early enough. */
  predicate SafeToSplit(e: Params, s: string) {
    if |s| <= e.maxLine then !Stuck(ParseRequest(e, Fresh(s)))
    else !LineFound(e, s)
  }

  /** Every division of a safe stream gives the result of the whole, down to the last field. */
  lemma SplitIndependence(e: Params, s: string, pieces: seq<string>)
    requires e.maxLine <= e.maxHeader
    requires Division(s, pieces) && SafeToSplit(e, s)
    ensures Feed(e, Fresh(""), pieces) == ParseRequest(e, Fresh(s))
  {
    if |s| <= e.maxLine {
      hide ParseRequest, CutInBlankLine, BlankLineCut;
      FreshReceives(s);
      FeedIsWholeIff(e, Fresh(""), pieces);
      CutIff(e, s, pieces);
      TooShortForCut(e, s, pieces);
    } else {
      assert "" + s == s;
      FeedTooLong(e, s, "", pieces);
    }
  }

  /** Keys and values are no longer than the stream. */
  lemma TooShortForCut(e: Params, s: string, pieces: seq<string>)
    requires |s| <= e.maxHeader
    ensures !BlankLineCut(e, s, pieces)
  {
    hide RenderLine, LineOk, HeaderOk, CutAt;
    forall m | OverlongHead(e, m)
      ensures |Head(m)| > e.maxHeader
    {
      HeaderLengthBound(m.headers);
    }
  }

  lemma VerbSticks(e: Params, r: Request)
    requires Valid(r) && r.verb.Some?
    ensures ParseRequest(e, r).req.verb.Some?
  {
    hide ParseLine, ParseHeader, ParseContent;
    match r.state
    case RequestLine =>
      LineStage(e, r);
      var l := ParseLine(e, r);
      if l.ret == Ok {
        VerbSticksFromHeader(e, l.req.(state := Header));
      }
    case Header => VerbSticksFromHeader(e, r);
    case Content => ContentStage(e, r);
    case Done =>
  }

  lemma VerbSticksFromHeader(e: Params, r: Request)
    requires Valid(r) && r.state == Header
    ensures FromHeader(e, r).req.verb == r.verb
  {
    hide ParseHeader, ParseContent;
    HeaderStage(e, r);
    var h := ParseHeader(e, r);
    if h.ret == Ok {
      ContentStage(e, h.req.(state := Content));
    }
  }

  lemma FeedTwo(e: Params, a: string, b: string)
    ensures Division(a + b, [a, b])
    ensures var o := ParseRequest(e, Fresh(a));
      Feed(e, Fresh(""), [a, b]) ==
        if o.ret != Again then Outcome(Receive(o.req, b), o.ret) else ParseRequest(e, Receive(o.req, b))
  {
    hide ParseRequest;
    var o := ParseRequest(e, Fresh(a));
    assert [a, b][1..] == [b] && [b][1..] == [];
    assert Concat([b]) == b + "" == b;
    assert Receive(Fresh(""), a) == Fresh(a);
    if o.ret == Again {
      assert Feed(e, o.req, [b]) == ParseRequest(e, Receive(o.req, b)) by {
        var o2 := ParseRequest(e, Receive(o.req, b));
        assert Receive(o2.req, "") == o2.req;
      }
    }
  }

  /** A division of an unsafe stream that shows a difference: cut at the line limit, or call the
      parser once more with no new bytes. */
  lemma UnsafeDivision(e: Params, s: string) returns (pieces: seq<string>)
    requires e.maxLine <= e.maxHeader && !SafeToSplit(e, s)
    ensures Division(s, pieces)
    ensures Feed(e, Fresh(""), pieces) != ParseRequest(e, Fresh(s))
  {
    hide ParseRequest;
    if |s| <= e.maxLine {
      pieces := [s, ""];
      FeedTwo(e, s, "");
      assert s + "" == s;
      var w := ParseRequest(e, Fresh(s)).req;
      assert Receive(w, "") == w;
      StuckMoves(e, w);
    } else {
      var a, b := s[..e.maxLine], s[e.maxLine..];
      pieces := [a, b];
      assert a + b == s;
      FeedTwo(e, a, b);
      FirstVerb(e, Fresh(a));
      VerbSticks(e, Receive(ParseRequest(e, Fresh(a)).req, b));
      assert ParseRequest(e, Fresh(s)) == Outcome(Fresh(s), Bad) by { TooLong(e, s); }
    }
  }

  lemma TooLong(e: Params, s: string)
    requires |s| > e.maxLine
    ensures ParseRequest(e, Fresh(s)) == Outcome(Fresh(s), Bad)
  {
  }

  lemma FirstVerb(e: Params, r: Request)
    requires r == Fresh(r.buf) && |r.buf| <= e.maxLine && LineFound(e, r.buf)
    ensures ParseRequest(e, r).req.verb.Some?
  {
    var l := ParseLine(e, r);
    assert l.req.verb.Some?;
    if l.ret == Ok {
      VerbSticks(e, l.req.(state := Header));
    }
  }

  lemma StuckMoves(e: Params, r: Request)
    requires Valid(r) && Stuck(Outcome(r, Again))
    ensures ParseRequest(e, r) != Outcome(r, Again)
  {
    hide HandleContent;
    assert NextChunk(e, ChunksOf(r)).Stops?;
  }

  /** Split independence holds exactly for the safe streams. */
  lemma SplitIndependentIffSafe(e: Params, s: string)
    requires e.maxLine <= e.maxHeader
    ensures SafeToSplit(e, s) <==>
      forall pieces :: Division(s, pieces) ==> Feed(e, Fresh(""), pieces) == ParseRequest(e, Fresh(s))
  {
    if SafeToSplit(e, s) {
      forall pieces | Division(s, pieces)
        ensures Feed(e, Fresh(""), pieces) == ParseRequest(e, Fresh(s))
      {
        SplitIndependence(e, s, pieces);
      }
    } else {
      var pieces := UnsafeDivision(e, s);
    }
  }

  /** Some line of the header, up to the blank one, announces multipart content. */
  predicate NamesMultipart(buf: string)
    decreases |buf|
  {
    buf != "" && !CrlfAt(buf, 0) && FindCrlf(buf) >= 0 &&
    var crlf := FindCrlf(buf);
    match HeaderLine(buf[..crlf])
    case None => false
    case Some((key, value)) =>
      || (ToLowers(key) == "content-type" && ContentTypeOf(ToLowers(value)) == MULTIPART)
      || NamesMultipart(buf[crlf + 2..])
  }

  /** No header line behind the request line announces multipart content. */
  predicate Unparted(s: string) {
    var end := FindCrlf(s);
    end >= 0 ==> !NamesMultipart(s[end + 2..])
  }

  lemma {:induction false} UnpartedHeader(e: Params, buf: string, header: map<string, string>, len: nat)
    requires !NamesMultipart(buf) && ContentTypeIn(header) != Some(MULTIPART)
    ensures ContentTypeIn(ScanHeader(e, buf, header, len).header) != Some(MULTIPART)
    decreases |buf|
  {
    hide NextHeader, NamesMultipart, ContentTypeIn;
    match NextHeader(e, buf, len)
    case Leave(n, ret) =>
    case Field(n, key, value) =>
      UnpartedStep(e, buf, header, len);
      UnpartedHeader(e, buf[n..], header[ToLowers(key) := value], len + |key| + |value|);
  }

  lemma UnpartedStep(e: Params, buf: string, header: map<string, string>, len: nat)
    requires !NamesMultipart(buf) && ContentTypeIn(header) != Some(MULTIPART) && NextHeader(e, buf, len).Field?
    ensures var step := NextHeader(e, buf, len);
      !NamesMultipart(buf[step.drop..]) && ContentTypeIn(header[ToLowers(step.key) := step.value]) != Some(MULTIPART)
  {
    hide ContentTypeOf, ToLowers, HttpModel.HeaderLine;
  }

  /** Within the line limit a stream whose header does not announce multipart content may be cut
      anywhere. */
  lemma UnpartedIsSafe(e: Params, s: string)
    requires |s| <= e.maxLine && Unparted(s)
    ensures SafeToSplit(e, s)
  {
    hide ScanLine, ParseHeader, ParseContent, NamesMultipart;
    LineStage(e, Fresh(s));
    var l := ParseLine(e, Fresh(s));
    if l.ret == Ok {
      HeaderStage(e, l.req.(state := Header));
      LineTaken(e, Fresh(s));
      HeaderNotMultipart(e, l.req.(state := Header));
      var h := ParseHeader(e, l.req.(state := Header));
      if h.ret == Ok {
        NeverStuck(e, h.req.(state := Content));
      }
    }
  }

  lemma LineTaken(e: Params, r: Request)
    requires ParseLine(e, r).ret == Ok
    ensures FindCrlf(r.buf) >= 0 && ParseLine(e, r).req.buf == r.buf[FindCrlf(r.buf) + 2..]
  {
    hide ScanLine;
  }

  lemma HeaderNotMultipart(e: Params, r: Request)
    requires !NamesMultipart(r.buf) && r.header == map[]
    ensures var h := ParseHeader(e, r); h.ret == Ok ==> h.req.fields.contentType != Some(MULTIPART)
  {
    hide NamesMultipart, ScanHeader, ContentTypeIn;
    assert ContentTypeIn(map[]) == None by { NoContentType(); }
    UnpartedHeader(e, r.buf, r.header, r.headerLen);
  }

  lemma NoContentType()
    ensures ContentTypeIn(map[]) == None
  {
  }

  lemma NeverStuck(e: Params, r: Request)
    requires BodyFits(r) && r.state == Content && r.fields.contentType != Some(MULTIPART)
    ensures !Stuck(FromContent(e, r))
  {
    hide ScanChunks;
    if r.fields.hasTransferEncoding {
      AgainWantsMore(e, ChunksOf(r));
    }
  }

  // ---------------------------------------------------------------- in time, of any length

  /** Without multipart content any two divisions that bring the request line in time agree, as long as
      neither cuts the blank line of an overlong head. */
  lemma LongUnpartedStreams(e: Params, s: string, pieces: seq<string>, pieces': seq<string>)
    requires Division(s, pieces) && LineInTime(e, "", pieces) && !BlankLineCut(e, s, pieces)
    requires Division(s, pieces') && LineInTime(e, "", pieces') && !BlankLineCut(e, s, pieces')
    requires Unparted(s)
    ensures Feed(e, Fresh(""), pieces) == Feed(e, Fresh(""), pieces')
  {
    hide ParseRequest, BlankLineCut, Unparted, LineInTime, Division;
    UnpartedIsSafe(Unlimited(e, s), s);
    LongStreamsIff(e, s, pieces);
    LongStreamsIff(e, s, pieces');
  }

  // ---------------------------------------------------------------- what an unsafe stream is

  /** A chunked multipart request whose body does not end as it should, with two bytes or more behind
      it. */
  predicate LeftWaiting(m: Message, rest: string) {
    m.payload.Chunked? && IsMultipart(m) && Unclosed(BodyOf(m.payload)) && |rest| >= 2
  }

  lemma UnclosedWaits(body: string)
    ensures Unclosed(body) <==> BodyWaits(body)
  {
  }

  lemma StuckIff(e: Params, m: Message, rest: string)
    requires Announced(e, m)
    ensures Stuck(Handled(e, m, rest)) <==> LeftWaiting(m, rest)
  {
    hide HeaderMap, HeaderLength, LastValue, TypeMeant, KeepsAlive, Unclosed, BodyWaits, BodyOf, MultiPart.Run;
    UnclosedWaits(BodyOf(m.payload));
    var c := HandleContent(Received(e, m, rest));
    assert c.req.buf == rest && c.req.state == Content && c.req.fields == Received(e, m, rest).fields;
    assert c.ret == Again <==> IsMultipart(m) && Unclosed(BodyOf(m.payload));
    assert c.req.chunkState == DONE <==> m.payload.Chunked?;
    assert m.payload.Chunked? ==> c.req.fields.hasTransferEncoding;
  }

  /** Of all streams exactly these may not be cut anywhere: within the line limit, those that begin with a
      request left waiting, however it is spelled; beyond it, those with a usable line that comes early. */
  lemma StreamSafeIff(e: Params, s: string)
    requires e.maxLine <= e.maxHeader
    ensures SafeToSplit(e, s) <==>
      if |s| <= e.maxLine then !exists m, rest :: Written(e, s, m, rest) && LeftWaiting(m, rest)
      else !LineFound(e, s)
  {
    hide ParseRequest, HeadersWithin, Render, Handled, LeftWaiting, Stuck, LineOk, HeaderOk, PayloadOk, Announced;
    if |s| <= e.maxLine {
      forall m, rest | Written(e, s, m, rest)
        ensures Stuck(ParseRequest(e, Fresh(s))) <==> LeftWaiting(m, rest)
      {
        RequestRead(e, m, rest);
        StuckIff(e, m, rest);
      }
      if Stuck(ParseRequest(e, Fresh(s))) {
        var m, rest := RequestSpelled(e, s);
        assert Written(e, s, m, rest);
      }
    }
  }
}
