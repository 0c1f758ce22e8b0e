/** Feeding HttpRequest's parser a stream in pieces: what it makes of bytes that come later. */
module HttpResume {
  import opened Text
  import Util
  import opened HttpModel

  // ---------------------------------------------------------------- what each stage leaves alone

  lemma LineStage(e: Params, r: Request)
    requires Valid(r) && r.state == RequestLine
    ensures var l := ParseLine(e, r);
      && Valid(l.req) && l.req.state == RequestLine && Valid(l.req.(state := Header))
      && l.req.header == r.header && l.req.headerLen == r.headerLen && (r.verb.Some? ==> l.req.verb.Some?)
      && (l.ret == Again ==> l.req == r && FindCrlf(r.buf) < 0)
  {
    hide ScanLine;
    if FindCrlf(r.buf) >= 0 {
      LineNeverAgain(e, r.buf[..FindCrlf(r.buf)]);
    }
  }

  lemma LineNeverAgain(e: Params, line: string)
    ensures ScanLine(e, line).ret != Again
  {
  }

  lemma HeaderStage(e: Params, r: Request)
    requires Valid(r) && r.state == Header
    ensures var h := ParseHeader(e, r);
      && Valid(h.req) && h.req.state == Header && (h.ret == Ok ==> BodyFits(h.req.(state := Content)))
      && h.req.verb == r.verb
  {
    hide ScanHeader, ReadFields;
  }

  lemma ContentStage(e: Params, r: Request)
    requires BodyFits(r)
    ensures var c := ParseContent(e, r);
      BodyFits(c.req) && c.req.state == r.state && c.req.verb == r.verb && c.req.fields == r.fields
  {
    hide ScanChunks, HandleContent;
  }

  // ---------------------------------------------------------------- resuming one stage

  /** Refused at a header that is over its limit and at the CR of its blank line. */
  predicate CutInBlankLine(o: Outcome) {
    o.ret == Bad && o.req.state == Header && CrlfAt(o.req.buf, 0)
  }

  /** More bytes make a difference: the parse waits for them, or was refused between the CR and the LF
      of a blank line. */
  predicate Resumes(o: Outcome, q: string) {
    o.ret == Again || CutInBlankLine(Outcome(Receive(o.req, q), o.ret))
  }

  /** Parsing p ++ q is parsing p and, when more bytes make a difference, resuming with q. */
  function Resumed(o: Outcome, q: string, again: Outcome): Outcome {
    if Resumes(o, q) then again else Outcome(Receive(o.req, q), o.ret)
  }

  lemma ResumeLine(e: Params, r: Request, q: string)
    requires |r.buf| + |q| <= e.maxLine
    ensures var l := ParseLine(e, r);
      ParseLine(e, Receive(r, q)) == Resumed(l, q, ParseLine(e, Receive(l.req, q)))
  {
    if FindCrlf(r.buf) < 0 {
      if r.buf != "" && r.buf[0] !in "GPH" {
        NoMethodYet(e, r, q);
      }
    } else {
      hide ScanLine, FindCrlf, WithLine;
      var end := FindCrlf(r.buf);
      FindCrlfExtend(r.buf, q);
      SliceAppend(r.buf, q, end);
      SliceAppend(r.buf, q, end + 2);
      LineReceives(r, q, ScanLine(e, r.buf[..end]));
      LineNeverAgain(e, r.buf[..end]);
    }
  }

  lemma LineReceives(r: Request, q: string, l: LineScan)
    ensures WithLine(Receive(r, q), l) == Receive(WithLine(r, l), q)
    ensures WithLine(r, l).buf == r.buf
  {
  }

  /** A line that does not begin like a method is refused, whether it has ended or not. */
  lemma NoMethodYet(e: Params, r: Request, q: string)
    requires r.buf != "" && r.buf[0] !in "GPH" && FindCrlf(r.buf) < 0 && |r.buf| + |q| <= e.maxLine
    ensures ParseLine(e, r) == Outcome(r, Bad) && ParseLine(e, Receive(r, q)) == Outcome(Receive(r, q), Bad)
  {
    hide ScanLine, MethodOf;
    var end := FindCrlf(r.buf + q);
    if end >= 0 {
      var line := (r.buf + q)[..end];
      assert line != "" ==> line[0] == r.buf[0];
      MethodStart(line);
      NoMethod(e, line);
    }
  }

  lemma NoMethod(e: Params, line: string)
    ensures MethodOf(line).None? ==> ScanLine(e, line) == LineScan(None, None, None, Bad)
  {
  }

  /** A supported method begins with one of the three letters the early test looks for. */
  lemma MethodStart(line: string)
    ensures MethodOf(line).Some? ==> line != "" && line[0] in "GPH"
  {
    assert MethodOf(line).Some? ==> line[0] == MethodText(MethodOf(line).value)[0];
  }

  lemma NextHeaderExtend(e: Params, buf: string, len: nat, q: string)
    requires NextHeader(e, buf, len) != Leave(0, Again)
    requires NextHeader(e, buf, len) == Leave(0, Bad) ==> !CrlfAt(buf + q, 0)
    ensures NextHeader(e, buf + q, len) == NextHeader(e, buf, len)
  {
    if !CrlfAt(buf, 0) && len <= e.maxHeader {
      var crlf := FindCrlf(buf);
      FindCrlfExtend(buf, q);
      SliceAppend(buf, q, crlf);
    }
  }

  lemma {:induction false} ResumeScanHeader(e: Params, buf: string, header: map<string, string>, len: nat, q: string)
    ensures var s := ScanHeader(e, buf, header, len);
      ScanHeader(e, buf + q, header, len) ==
        if s.ret == Again || (s.ret == Bad && CrlfAt(s.buf + q, 0)) then ScanHeader(e, s.buf + q, s.header, s.len)
        else s.(buf := s.buf + q)
    decreases |buf|
  {
    hide NextHeader, ScanHeader, ToLowers;
    var step := NextHeader(e, buf, len);
    match step
    case Leave(n, ret) =>
      HeaderLeaves(e, buf, header, len);
      LeaveKeeps(e, buf, len);
      if ret != Again && !(ret == Bad && CrlfAt(buf + q, 0)) {
        NextHeaderExtend(e, buf, len, q);
        SliceAppend(buf, q, n);
        HeaderLeaves(e, buf + q, header, len);
      }
    case Field(n, key, value) =>
      NextHeaderExtend(e, buf, len, q);
      SliceAppend(buf, q, n);
      HeaderGoes(e, buf, header, len);
      HeaderGoes(e, buf + q, header, len);
      ResumeScanHeader(e, buf[n..], header[ToLowers(key) := value], len + |key| + |value|, q);
  }

  lemma LeaveKeeps(e: Params, buf: string, len: nat)
    requires NextHeader(e, buf, len).Leave?
    ensures NextHeader(e, buf, len).ret in {Ok, Again, Bad}
    ensures NextHeader(e, buf, len).ret != Ok ==> NextHeader(e, buf, len).drop == 0
  {
  }

  lemma ResumeHeader(e: Params, r: Request, q: string)
    requires r.state == Header
    ensures var h := ParseHeader(e, r);
      ParseHeader(e, Receive(r, q)) == Resumed(h, q, ParseHeader(e, Receive(h.req, q)))
  {
    hide ScanHeader, ReadFields;
    ResumeScanHeader(e, r.buf, r.header, r.headerLen, q);
  }

  lemma SizeEndExtend(s: string, n: nat, q: string)
    requires SizeEnd(s, n) >= 0
    ensures SizeEnd(s + q, n) == SizeEnd(s, n)
  {
    var window := if |s| < n then s else s[..n];
    var window' := if |s + q| < n then s + q else (s + q)[..n];
    assert window' == window + window'[|window|..];
    FindCrlfExtend(window, window'[|window|..]);
  }

  lemma NextChunkExtend(e: Params, c: Chunks, q: string)
    requires c.Valid()
    ensures match NextChunk(e, c)
      case Goes(d) => NextChunk(e, c.Receive(q)) == Goes(d.Receive(q))
      case Stops(d, ret) => if ret == Again then d == c else NextChunk(e, c.Receive(q)) == Stops(d.Receive(q), ret)
  {
    hide Util.HexString2Int;
    hide SizeEnd;
    match c.state
    case NO_LEN =>
      var pos := SizeEnd(c.buf, e.chunkDigits + 2);
      if pos >= 0 {
        SizeEndExtend(c.buf, e.chunkDigits + 2, q);
        SliceAppend(c.buf, q, pos);
        SliceAppend(c.buf, q, pos + 2);
      }
    case NO_DATA =>
      if |c.buf| >= c.size + 2 {
        CrlfAtAppend(c.buf, q, c.size);
        SliceAppend(c.buf, q, c.size);
        SliceAppend(c.buf, q, c.size + 2);
      }
    case DONE =>
      if |c.buf| >= 2 {
        SliceAppend(c.buf, q, 2);
      }
  }

  lemma {:induction false} ResumeChunks(e: Params, c: Chunks, q: string)
    requires c.Valid()
    ensures var (d, ret) := ScanChunks(e, c);
      d.Valid()
      && ScanChunks(e, c.Receive(q)) == if ret == Again then ScanChunks(e, d.Receive(q)) else (d.Receive(q), ret)
    decreases |c.buf|
  {
    NextChunkExtend(e, c, q);
    match NextChunk(e, c)
    case Goes(d) => ResumeChunks(e, d, q);
    case Stops(d, ret) =>
  }

  // ---------------------------------------------------------------- the content stage

  lemma ResumeChunkedContent(e: Params, r: Request, q: string)
    requires BodyFits(r) && r.state == Content && r.fields.hasTransferEncoding && r.fields.chunked
    requires !Stuck(ParseContent(e, Receive(r, q)))
    ensures var c := ParseContent(e, r);
      ParseContent(e, Receive(r, q)) == Resumed(c, q, ParseContent(e, Receive(c.req, q)))
  {
    hide ScanChunks, HandleContent;
    ResumeChunks(e, ChunksOf(r), q);
    var (d, ret) := ScanChunks(e, ChunksOf(r));
    assert ChunksOf(Receive(r, q)) == ChunksOf(r).Receive(q);
    assert WithChunks(Receive(r, q), d.Receive(q)) == Receive(WithChunks(r, d), q);
    if ret == Ok {
      OkIsDone(e, ChunksOf(r));
      HandleReceives(WithChunks(r, d), q);
      if HandleContent(WithChunks(r, d)).ret == Again {
        AgainUnchanged(WithChunks(r, d));
        assert |d.buf + q| < 2;
        WaitingReads(e, d, q);
      }
    } else if ret == Again {
      assert ChunksOf(Receive(WithChunks(r, d), q)) == d.Receive(q);
    }
  }

  /** The handlers look at the body alone. */
  lemma HandleReceives(r: Request, q: string)
    ensures HandleContent(Receive(r, q))
         == Outcome(Receive(HandleContent(r).req, q), HandleContent(r).ret)
  {
    hide MultiPart.Run;
  }

  lemma AgainUnchanged(r: Request)
    ensures HandleContent(r).ret == Again ==> HandleContent(r).req == r
  {
    hide MultiPart.Run;
  }

  /** With fewer than two bytes behind a complete body the decoder asks for more. */
  lemma WaitingReads(e: Params, d: Chunks, q: string)
    requires d.state == DONE && |d.buf + q| < 2
    ensures ScanChunks(e, d.Receive(q)) == (d.Receive(q), Again)
  {
    assert NextChunk(e, d.Receive(q)) == Stops(d.Receive(q), Again);
  }

  lemma ResumeContent(e: Params, r: Request, q: string)
    requires BodyFits(r) && r.state == Content
    requires !Stuck(ParseContent(e, Receive(r, q)))
    ensures var c := ParseContent(e, r);
      ParseContent(e, Receive(r, q)) == Resumed(c, q, ParseContent(e, Receive(c.req, q)))
  {
    if r.fields.hasTransferEncoding {
      if r.fields.chunked {
        ResumeChunkedContent(e, r, q);
      }
    } else if r.fields.hasContentLength {
      hide HandleContent;
      var n := r.fields.contentLength - |r.body|;
      if n <= |r.buf| {
        SliceAppend(r.buf, q, n);
        var taken := r.(body := r.body + r.buf[..n], buf := r.buf[n..]);
        HandleReceives(taken, q);
        AgainUnchanged(taken);
        NothingLeftToTake(e, Receive(taken, q));
      }
    }
  }

  /** With the announced length in the body, the content stage only calls the handler. */
  lemma NothingLeftToTake(e: Params, r: Request)
    requires !r.fields.hasTransferEncoding && r.fields.hasContentLength && |r.body| == r.fields.contentLength
    ensures ParseContent(e, r) == HandleContent(r)
  {
    hide HandleContent;
    assert r.buf[..0] == "" && r.buf[0..] == r.buf && r.body + "" == r.body;
  }

  /** The decoder returns OK only in its last state. */
  lemma {:induction false} OkIsDone(e: Params, c: Chunks)
    requires c.Valid()
    ensures ScanChunks(e, c).1 == Ok ==> ScanChunks(e, c).0.state == DONE
    decreases |c.buf|
  {
    match NextChunk(e, c)
    case Goes(d) => OkIsDone(e, d);
    case Stops(d, ret) =>
  }

  // ---------------------------------------------------------------- the whole machine

  /** The body has not been reached. */
  predicate Early(r: Request) { r.state == RequestLine || r.state == Header }

  /** Room for more bytes under the line limit. */
  predicate Fits(e: Params, r: Request, more: string) {
    r.state == RequestLine ==> |r.buf| + |more| <= e.maxLine
  }

  lemma ResumeFromContent(e: Params, r: Request, q: string)
    requires BodyFits(r) && r.state == Content
    requires !Stuck(FromContent(e, Receive(r, q)))
    ensures var c := FromContent(e, r);
      !Early(c.req) && FromContent(e, Receive(r, q)) == Resumed(c, q, ParseRequest(e, Receive(c.req, q)))
  {
    ContentStage(e, r);
    ResumeContent(e, r, q);
  }

  lemma ResumeFromHeader(e: Params, r: Request, q: string)
    requires Valid(r) && r.state == Header
    requires Early(FromHeader(e, r).req) || !Stuck(FromHeader(e, Receive(r, q)))
    ensures var h := FromHeader(e, r);
      h.req.state != RequestLine
      && FromHeader(e, Receive(r, q)) == Resumed(h, q, ParseRequest(e, Receive(h.req, q)))
  {
    hide ParseHeader, ParseContent;
    HeaderStage(e, r);
    HeaderStage(e, Receive(r, q));
    ResumeHeader(e, r, q);
    var h := ParseHeader(e, r);
    if h.ret == Ok {
      ContentStage(e, h.req.(state := Content));
      assert Receive(h.req.(state := Content), q) == Receive(h.req, q).(state := Content);
      ResumeFromContent(e, h.req.(state := Content), q);
    } else if Resumes(h, q) {
      assert Receive(h.req, q).state == Header;
      assert ParseHeader(e, Receive(r, q)) == ParseHeader(e, Receive(h.req, q));
    } else {
      assert FromHeader(e, Receive(r, q)) == Outcome(Receive(h.req, q), h.ret);
    }
  }

  /** The key lemma, in every state: parsing p ++ q is parsing p and resuming with q. */
  lemma Resume(e: Params, r: Request, q: string)
    requires Valid(r) && Fits(e, r, q)
    requires Early(ParseRequest(e, r).req) || !Stuck(ParseRequest(e, Receive(r, q)))
    ensures var o := ParseRequest(e, r);
      (Resumes(o, q) ==> Fits(e, o.req, q))
      && ParseRequest(e, Receive(r, q)) == Resumed(o, q, ParseRequest(e, Receive(o.req, q)))
  {
    hide ParseLine, ParseHeader, ParseContent;
    match r.state
    case RequestLine =>
      ResumeLine(e, r, q);
      LineStage(e, r);
      LineStage(e, Receive(r, q));
      var l := ParseLine(e, r);
      if l.ret == Ok {
        ResumeFromHeader(e, l.req.(state := Header), q);
      }
    case Header => ResumeFromHeader(e, r, q);
    case Content =>
      ContentStage(e, r);
      ResumeFromContent(e, r, q);
    case Done =>
  }

  /** At a blank line the header stage is over. */
  lemma PastBlankLine(e: Params, r: Request)
    requires Valid(r) && r.state == Header && CrlfAt(r.buf, 0)
    ensures var o := ParseRequest(e, r); !(o.ret == Bad && o.req.state == Header)
  {
    hide ReadFields, ParseContent;
    var h := ParseHeader(e, r);
    if h.ret == Ok {
      ContentStage(e, h.req.(state := Content));
    }
  }

  lemma NeverBack(e: Params, r: Request)
    requires Valid(r) && !Early(r)
    ensures !Early(ParseRequest(e, r).req)
  {
    hide ParseContent;
    if r.state == Content {
      ContentStage(e, r);
    }
  }

  // ---------------------------------------------------------------- feeding pieces

  /** Parse after each piece and stop at the first result other than AGAIN. The outcome shows the
      bytes not consumed: those unread in the buffer, then those never fed. */
  function Feed(e: Params, r: Request, pieces: seq<string>): Outcome
    requires Valid(r) && pieces != []
    decreases |pieces|
  {
    var o := ParseRequest(e, Receive(r, pieces[0]));
    if o.ret != Again || |pieces| == 1 then Outcome(Receive(o.req, Concat(pieces[1..])), o.ret)
    else Feed(e, o.req, pieces[1..])
  }

  /** An outcome that gives control back: not an exception, not a parse that never ends. */
  predicate Returns(ret: RetState) { ret == Ok || ret == Again || ret == Bad }

  /** Parse after every piece, whatever it returns (tests/test_httpRequest.cc:82-105). */
  function FeedAll(e: Params, r: Request, ret: RetState, pieces: seq<string>): Outcome
    requires Valid(r)
    decreases |pieces|
  {
    if pieces == [] then Outcome(r, ret)
    else
      var o := ParseRequest(e, Receive(r, pieces[0]));
      if Returns(o.ret) then FeedAll(e, o.req, o.ret, pieces[1..])
      else Outcome(Receive(o.req, Concat(pieces[1..])), o.ret)
  }

  /** The pieces, some perhaps empty, make up the stream s. */
  predicate Division(s: string, pieces: seq<string>) {
    pieces != [] && Concat(pieces) == s
  }

  lemma {:induction false} FeedNeverBack(e: Params, r: Request, pieces: seq<string>)
    requires Valid(r) && pieces != [] && !Early(r)
    ensures !Early(Feed(e, r, pieces).req)
    decreases |pieces|
  {
    hide ParseRequest;
    var r' := Receive(r, pieces[0]);
    NeverBack(e, r');
    if ParseRequest(e, r').ret == Again && |pieces| > 1 {
      FeedNeverBack(e, ParseRequest(e, r').req, pieces[1..]);
    }
  }

  lemma ReceiveTwice(r: Request, p: string, q: string)
    ensures Receive(Receive(r, p), q) == Receive(r, p + q)
  {
    assert r.buf + p + q == r.buf + (p + q);
  }

  lemma ReceiveNothing(r: Request)
    ensures Receive(r, "") == r
  {
    assert r.buf + "" == r.buf;
  }

  /** Stopping at the first result other than AGAIN gives what the whole gives, but for a refusal in
      the middle of a blank line; then the whole is not refused there. */
  lemma {:induction false} FeedIsWholeIff(e: Params, r: Request, pieces: seq<string>)
    requires Valid(r) && pieces != [] && Fits(e, r, Concat(pieces))
    ensures var f := Feed(e, r, pieces); var w := ParseRequest(e, Receive(r, Concat(pieces)));
      && (Early(f.req) || !Stuck(w) ==> (f == w <==> !CutInBlankLine(f)))
      && (CutInBlankLine(f) ==> !(w.ret == Bad && w.req.state == Header))
    decreases |pieces|
  {
    hide ParseRequest;
    var rest := Concat(pieces[1..]);
    var r' := Receive(r, pieces[0]);
    ReceiveTwice(r, pieces[0], rest);
    var o := ParseRequest(e, r');
    if o.ret == Again && |pieces| > 1 {
      if Early(o.req) {
        Resume(e, r', rest);
        FeedIsWholeIff(e, o.req, pieces[1..]);
      } else {
        FeedNeverBack(e, o.req, pieces[1..]);
        if !Stuck(ParseRequest(e, Receive(r', rest))) {
          Resume(e, r', rest);
          FeedIsWholeIff(e, o.req, pieces[1..]);
        }
      }
    } else {
      StopsAtWhole(e, r', rest);
      if |pieces| == 1 {
        ReceiveNothing(r');
        ReceiveNothing(o.req);
      }
    }
  }

  /** The last step of it. */
  lemma StopsAtWhole(e: Params, r: Request, q: string)
    requires Valid(r) && Fits(e, r, q)
    ensures var o := ParseRequest(e, r); var f := Outcome(Receive(o.req, q), o.ret);
      var w := ParseRequest(e, Receive(r, q));
      && (o.ret != Again && (Early(f.req) || !Stuck(w)) ==> (f == w <==> !CutInBlankLine(f)))
      && (CutInBlankLine(f) ==> !(w.ret == Bad && w.req.state == Header))
  {
    hide ParseRequest;
    var o := ParseRequest(e, r);
    if Early(o.req) || !Stuck(ParseRequest(e, Receive(r, q))) {
      Resume(e, r, q);
      if CutInBlankLine(Outcome(Receive(o.req, q), o.ret)) {
        PastBlankLine(e, Receive(o.req, q));
      }
    }
  }
}
