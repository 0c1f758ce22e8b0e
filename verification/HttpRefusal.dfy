/** Feeding a request on after its result is final, as the driver in tests/test_httpRequest.cc does:
    what stays as it was, and the one refusal that does not. */
module HttpRefusal {
  import opened Text
  import Util
  import opened HttpModel
  import opened HttpResume

  lemma LineRefusal(e: Params, r: Request, q: string)
    requires ParseLine(e, r).ret == Bad
    ensures var o := ParseLine(e, r); ParseLine(e, Receive(o.req, q)) == Outcome(Receive(o.req, q), Bad)
  {
    hide ScanLine;
    var end := FindCrlf(r.buf);
    if |r.buf| <= e.maxLine && end >= 0 {
      FindCrlfExtend(r.buf, q);
      SliceAppend(r.buf, q, end);
    } else if |r.buf| <= e.maxLine {
      var end' := FindCrlf(r.buf + q);
      if end' >= 0 {
        var line := (r.buf + q)[..end'];
        MethodStart(line);
        assert line != "" ==> line[0] == r.buf[0];
        assert ScanLine(e, line) == LineScan(None, None, None, Bad) by { NoMethod(e, line); }
      }
    }
  }

  lemma {:induction false} HeaderRefusal(e: Params, buf: string, header: map<string, string>, len: nat)
    ensures var s := ScanHeader(e, buf, header, len);
      s.ret == Bad ==> s.buf != "" && NextHeader(e, s.buf, s.len) == Leave(0, Bad)
    decreases |buf|
  {
    hide NextHeader, ScanHeader, ToLowers;
    match NextHeader(e, buf, len)
    case Leave(n, ret) =>
      HeaderLeaves(e, buf, header, len);
      if ret == Bad {
        EmptyWaits(e, len);
      }
    case Field(n, key, value) =>
      HeaderGoes(e, buf, header, len);
      HeaderRefusal(e, buf[n..], header[ToLowers(key) := value], len + |key| + |value|);
  }

  lemma EmptyWaits(e: Params, len: nat)
    ensures NextHeader(e, "", len) == Leave(0, Again)
  {
  }

  lemma StillRefused(e: Params, buf: string, len: nat, q: string)
    requires NextHeader(e, buf, len) == Leave(0, Bad) && !CrlfAt(buf + q, 0)
    ensures NextHeader(e, buf + q, len) == Leave(0, Bad)
  {
    if len <= e.maxHeader {
      FindCrlfExtend(buf, q);
      SliceAppend(buf, q, FindCrlf(buf));
    }
  }

  lemma {:induction false} ChunkRefusal(e: Params, c: Chunks)
    requires c.Valid()
    ensures var (d, ret) := ScanChunks(e, c); ret == Bad ==> NextChunk(e, d) == Stops(d, Bad)
    decreases |c.buf|
  {
    hide Util.HexString2Int, SizeEnd;
    match NextChunk(e, c)
    case Goes(d) => ChunkRefusal(e, d);
    case Stops(d, ret) =>
  }

  lemma ContentRefusal(e: Params, r: Request, q: string)
    requires BodyFits(r) && ParseContent(e, r).ret == Bad
    ensures var o := ParseContent(e, r); ParseContent(e, Receive(o.req, q)) == Outcome(Receive(o.req, q), Bad)
  {
    hide HandleContent;
    if r.fields.hasTransferEncoding && r.fields.chunked {
      hide NextChunk;
      var (d, ret) := ScanChunks(e, ChunksOf(r));
      ChunkRefusal(e, ChunksOf(r));
      NextChunkExtend(e, d, q);
      assert ChunksOf(Receive(WithChunks(r, d), q)) == d.Receive(q);
      assert ScanChunks(e, d.Receive(q)) == (d.Receive(q), Bad);
    }
  }

  /** Once refused, and not between the CR and LF of the blank line, a request stays refused. */
  lemma Refusal(e: Params, r: Request, q: string)
    requires Valid(r) && ParseRequest(e, r).ret == Bad
    requires !CutInBlankLine(Outcome(Receive(ParseRequest(e, r).req, q), Bad))
    ensures var o := ParseRequest(e, r); ParseRequest(e, Receive(o.req, q)) == Outcome(Receive(o.req, q), Bad)
  {
    hide ParseLine, ParseHeader, ParseContent;
    match r.state
    case RequestLine =>
      var l := ParseLine(e, r);
      if l.ret == Bad {
        LineStays(e, r);
        LineRefusal(e, r, q);
      } else {
        LineStays(e, r);
        RefusalFromHeader(e, l.req.(state := Header), q);
      }
    case Header => RefusalFromHeader(e, r, q);
    case Content => RefusalFromContent(e, r, q);
    case Done =>
  }

  lemma LineStays(e: Params, r: Request)
    requires Valid(r) && r.state == RequestLine
    ensures var l := ParseLine(e, r); Valid(l.req) && l.req.state == RequestLine && Valid(l.req.(state := Header))
  {
  }

  lemma RefusalFromHeader(e: Params, r: Request, q: string)
    requires Valid(r) && r.state == Header && FromHeader(e, r).ret == Bad
    requires !CutInBlankLine(Outcome(Receive(FromHeader(e, r).req, q), Bad))
    ensures var o := FromHeader(e, r); ParseRequest(e, Receive(o.req, q)) == Outcome(Receive(o.req, q), Bad)
  {
    hide NextHeader, ReadFields, ParseContent;
    var h := ParseHeader(e, r);
    if h.ret == Bad {
      HeaderRefusal(e, r.buf, r.header, r.headerLen);
      StillRefused(e, h.req.buf, h.req.headerLen, q);
      assert (h.req.buf + q)[0..] == h.req.buf + q;
    } else {
      RefusalFromContent(e, h.req.(state := Content), q);
    }
  }

  lemma RefusalFromContent(e: Params, r: Request, q: string)
    requires BodyFits(r) && r.state == Content && FromContent(e, r).ret == Bad
    ensures var o := FromContent(e, r); ParseRequest(e, Receive(o.req, q)) == Outcome(Receive(o.req, q), Bad)
  {
    hide ScanChunks, HandleContent;
    ContentRefusal(e, r, q);
  }

  lemma {:induction false} RefusalStays(e: Params, r: Request, pieces: seq<string>)
    requires Valid(r) && ParseRequest(e, r).ret == Bad
    requires !CutInBlankLine(Outcome(Receive(ParseRequest(e, r).req, Concat(pieces)), Bad))
    ensures var o := ParseRequest(e, r); FeedAll(e, o.req, Bad, pieces) == Outcome(Receive(o.req, Concat(pieces)), Bad)
    decreases |pieces|
  {
    hide ParseRequest;
    var o := ParseRequest(e, r);
    if pieces == [] {
      assert o.req.buf + "" == o.req.buf;
    } else {
      var p, rest := pieces[0], Concat(pieces[1..]);
      ReceiveTwice(o.req, p, rest);
      assert CrlfAt(o.req.buf + p, 0) ==> CrlfAt(o.req.buf + p + rest, 0);
      Refusal(e, r, p);
      RefusalStays(e, Receive(o.req, p), pieces[1..]);
    }
  }

  /** No stage puts bytes back. */
  lemma BytesOnlyLeave(e: Params, r: Request)
    requires Valid(r)
    ensures |ParseRequest(e, r).req.buf| <= |r.buf|
  {
    hide ScanLine, ReadFields, HandleContent, ScanHeader, ScanChunks;
    match r.state
    case RequestLine =>
      var l := ParseLine(e, r);
      if l.ret == Ok {
        HeaderBytesLeave(e, l.req.(state := Header));
      }
    case Header => HeaderBytesLeave(e, r);
    case Content => ContentBytesLeave(e, r);
    case Done =>
  }

  lemma HeaderBytesLeave(e: Params, r: Request)
    requires Valid(r) && r.state == Header
    ensures |FromHeader(e, r).req.buf| <= |r.buf|
  {
    hide ReadFields, HandleContent, ScanHeader, ScanChunks;
    HeaderScanLeaves(e, r.buf, r.header, r.headerLen);
    var h := ParseHeader(e, r);
    if h.ret == Ok {
      ContentBytesLeave(e, h.req.(state := Content));
    }
  }

  lemma ContentBytesLeave(e: Params, r: Request)
    requires BodyFits(r) && r.state == Content
    ensures |FromContent(e, r).req.buf| <= |r.buf|
  {
    hide HandleContent, ScanChunks;
    if r.fields.hasTransferEncoding {
      ChunkScanLeaves(e, ChunksOf(r));
    }
  }

  lemma {:induction false} HeaderScanLeaves(e: Params, buf: string, header: map<string, string>, len: nat)
    ensures var s := ScanHeader(e, buf, header, len); |s.buf| <= |buf| && (s.ret == Ok ==> |s.buf| < |buf|)
    decreases |buf|
  {
    hide NextHeader;
    match NextHeader(e, buf, len)
    case Leave(n, ret) =>
    case Field(n, key, value) => HeaderScanLeaves(e, buf[n..], header[ToLowers(key) := value], len + |key| + |value|);
  }

  lemma {:induction false} ChunkScanLeaves(e: Params, c: Chunks)
    requires c.Valid()
    ensures |ScanChunks(e, c).0.buf| <= |c.buf|
    decreases |c.buf|
  {
    match NextChunk(e, c)
    case Goes(d) => ChunkScanLeaves(e, d);
    case Stops(d, ret) =>
  }

  lemma {:induction false} FeedAllBytesLeave(e: Params, r: Request, ret: RetState, pieces: seq<string>)
    requires Valid(r)
    ensures |FeedAll(e, r, ret, pieces).req.buf| <= |r.buf| + |Concat(pieces)|
    decreases |pieces|
  {
    hide ParseRequest;
    if pieces != [] {
      var o := ParseRequest(e, Receive(r, pieces[0]));
      BytesOnlyLeave(e, Receive(r, pieces[0]));
      if Returns(o.ret) {
        FeedAllBytesLeave(e, o.req, o.ret, pieces[1..]);
      }
    }
  }

  /** Parsing on from between the CR and the LF reads the blank line after all. */
  lemma {:induction false} RefusalUndone(e: Params, r: Request, pieces: seq<string>)
    requires Valid(r) && ParseRequest(e, r).ret == Bad
    requires CutInBlankLine(Outcome(Receive(ParseRequest(e, r).req, Concat(pieces)), Bad))
    ensures var o := ParseRequest(e, r); |FeedAll(e, o.req, Bad, pieces).req.buf| < |o.req.buf| + |Concat(pieces)|
    decreases |pieces|
  {
    hide ParseRequest;
    var o := ParseRequest(e, r);
    if pieces == [] {
      assert o.req.buf + "" == o.req.buf;
      NotAtBlankLine(e, r);
      assert false;
    }
    var p, rest := pieces[0], Concat(pieces[1..]);
    ReceiveTwice(o.req, p, rest);
    var r' := Receive(o.req, p);
    var o' := ParseRequest(e, r');
    if CrlfAt(o.req.buf + p, 0) {
      BlankLineRead(e, r');
      if Returns(o'.ret) {
        FeedAllBytesLeave(e, o'.req, o'.ret, pieces[1..]);
      }
    } else {
      Refusal(e, r, p);
      RefusalUndone(e, r', pieces[1..]);
    }
  }

  lemma NotAtBlankLine(e: Params, r: Request)
    requires Valid(r) && ParseRequest(e, r).ret == Bad && ParseRequest(e, r).req.state == Header
    ensures !CrlfAt(ParseRequest(e, r).req.buf, 0)
  {
    hide ParseLine, ParseHeader, ParseContent;
    match r.state
    case RequestLine =>
      LineStays(e, r);
      NotAtBlankFromHeader(e, ParseLine(e, r).req.(state := Header));
    case Header => NotAtBlankFromHeader(e, r);
    case Content => ContentKeepsState(e, r);
    case Done =>
  }

  lemma NotAtBlankFromHeader(e: Params, r: Request)
    requires Valid(r) && r.state == Header
    ensures var o := FromHeader(e, r); o.ret == Bad && o.req.state == Header ==> !CrlfAt(o.req.buf, 0)
  {
    hide ParseContent, ScanHeader;
    var h := ParseHeader(e, r);
    if h.ret == Ok {
      ContentKeepsState(e, h.req.(state := Content));
    } else if h.ret == Bad {
      NotAtBlankHeader(e, r);
    }
  }

  lemma ContentKeepsState(e: Params, r: Request)
    ensures BodyFits(r) ==> ParseContent(e, r).req.state == r.state
  {
    hide ScanChunks, HandleContent;
  }

  lemma NotAtBlankHeader(e: Params, r: Request)
    requires ParseHeader(e, r).ret == Bad
    ensures !CrlfAt(ParseHeader(e, r).req.buf, 0)
  {
    hide NextHeader, ReadFields;
    HeaderRefusal(e, r.buf, r.header, r.headerLen);
    BlankIsNoRefusal(e, ParseHeader(e, r).req.buf, ParseHeader(e, r).req.headerLen);
  }

  lemma BlankIsNoRefusal(e: Params, buf: string, len: nat)
    ensures CrlfAt(buf, 0) ==> NextHeader(e, buf, len) == Leave(2, Ok)
  {
  }

  lemma BlankLineRead(e: Params, r: Request)
    requires Valid(r) && r.state == Header && CrlfAt(r.buf, 0)
    ensures |ParseRequest(e, r).req.buf| < |r.buf|
  {
    hide ReadFields, ParseContent;
    BlankIsNoRefusal(e, r.buf, r.headerLen);
    var h := ParseHeader(e, r);
    if h.ret == Ok {
      hide FromContent;
      ContentBytesLeave(e, h.req.(state := Content));
    }
  }

  // ---------------------------------------------------------------- feeding on

  lemma OkMeansDone(e: Params, r: Request)
    requires Valid(r) && ParseRequest(e, r).ret == Ok
    ensures ParseRequest(e, r).req.state == HttpModel.Done
  {
    hide ParseLine, ParseHeader, ParseContent;
  }

  lemma {:induction false} FeedDone(e: Params, r: Request, pieces: seq<string>)
    requires r.state == HttpModel.Done
    ensures FeedAll(e, r, Ok, pieces) == Outcome(Receive(r, Concat(pieces)), Ok)
    decreases |pieces|
  {
    if pieces == [] {
      assert r.buf + "" == r.buf;
    } else {
      FeedDone(e, Receive(r, pieces[0]), pieces[1..]);
      ReceiveTwice(r, pieces[0], Concat(pieces[1..]));
    }
  }

  /** Parsing on after the result is final changes nothing, so both ways of feeding agree, but for
      one refusal: between the CR and the LF of a blank line behind too long a header. */
  lemma {:induction false} FeedsOnIff(e: Params, r: Request, ret: RetState, pieces: seq<string>)
    requires Valid(r) && pieces != []
    ensures FeedAll(e, r, ret, pieces) == Feed(e, r, pieces) <==> !CutInBlankLine(Feed(e, r, pieces))
    decreases |pieces|
  {
    hide ParseRequest;
    var o := ParseRequest(e, Receive(r, pieces[0]));
    var rest := pieces[1..];
    if o.ret == Again && |pieces| > 1 {
      FeedsOnIff(e, o.req, o.ret, rest);
    } else if o.ret == Ok {
      OkMeansDone(e, Receive(r, pieces[0]));
      FeedDone(e, o.req, rest);
    } else if o.ret == Again {
      assert Concat(rest) == "" && o.req.buf + "" == o.req.buf;
    } else if o.ret == Bad {
      if CutInBlankLine(Feed(e, r, pieces)) {
        RefusalUndone(e, Receive(r, pieces[0]), rest);
      } else {
        RefusalStays(e, Receive(r, pieces[0]), rest);
      }
    }
  }
}
