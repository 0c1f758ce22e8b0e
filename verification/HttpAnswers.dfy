/** What HttpRequest's parser answers to a stream it does not accept: when it waits, when it refuses, and
    when an exception leaves it (haha_web/http/HttpRequest.cpp). */
module HttpAnswers {
  import opened Text
  import Util
  import Digits
  import opened HttpModel
  import opened HttpFields
  import opened HttpGrammar
  import opened HttpResume

  // ---------------------------------------------------------------- the request line

  /** Some request has this line. */
  ghost predicate IsLine(e: Params, line: string) { exists m :: LineOk(e, m) && RenderLine(m) == line }

  /** Without a line end the parser waits, if the line may still be one: the first byte is that of a method
      or is yet to come. */
  lemma UnendedLine(e: Params, s: string)
    requires |s| <= e.maxLine && FindCrlf(s) < 0
    ensures ParseRequest(e, Fresh(s)) ==
      Outcome(Fresh(s), if s == "" || s[0] == 'G' || s[0] == 'P' || s[0] == 'H' then Again else Bad)
  {
    hide ParseLine, FromHeader;
    WaitsForLine(e, s);
  }

  lemma WaitsForLine(e: Params, s: string)
    requires |s| <= e.maxLine && FindCrlf(s) < 0
    ensures ParseLine(e, Fresh(s)) ==
      Outcome(Fresh(s), if s == "" || s[0] == 'G' || s[0] == 'P' || s[0] == 'H' then Again else Bad)
  {
    hide ScanLine, FindCrlf;
  }

  /** A stream longer than the line limit is refused as it is. */
  lemma LongLine(e: Params, s: string)
    requires |s| > e.maxLine
    ensures ParseRequest(e, Fresh(s)) == Outcome(Fresh(s), Bad)
  {
  }

  /** An ended line that is none is refused, unless it is a method and nothing more: then the code steps
      beyond its end. */
  lemma BadLine(e: Params, s: string)
    requires |s| <= e.maxLine && FindCrlf(s) >= 0 && !IsLine(e, s[..FindCrlf(s)])
    ensures var line := s[..FindCrlf(s)]; var o := ParseRequest(e, Fresh(s));
      o.req.state == RequestLine && o.req.buf == s
      && o.ret == if line == "GET" || line == "POST" || line == "HEAD" then Undefined else Bad
  {
    var line := s[..FindCrlf(s)];
    FirstLine(s, FindCrlf(s));
    LineIff(e, line);
    LineAnswer(e, line);
    hide ScanLine, IsLine;
  }

  /** The lines of requests are those the parser reads. */
  lemma LineIff(e: Params, line: string)
    requires FindCrlf(line) < 0
    ensures IsLine(e, line) <==> ScanLine(e, line).ret == Ok
  {
    hide ScanLine, LineOk, RenderLine, FindCrlf;
    if ScanLine(e, line).ret == Ok {
      var m := LineSpelled(e, line);
    }
    forall m | LineOk(e, m) && RenderLine(m) == line
      ensures ScanLine(e, line).ret == Ok
    {
      LineScanned(e, m);
    }
  }

  lemma LineAnswer(e: Params, line: string)
    ensures var ret := ScanLine(e, line).ret;
      ret in {Ok, Bad, Undefined} && (ret == Undefined <==> line == "GET" || line == "POST" || line == "HEAD")
  {
    hide MethodOf, VersionOf;
    MethodAlone(line);
  }

  lemma MethodAlone(line: string)
    ensures MethodOf(line).Some? && |line| <= |MethodText(MethodOf(line).value)|
       <==> line == "GET" || line == "POST" || line == "HEAD"
  {
    if line == "GET" || line == "POST" || line == "HEAD" {
      MethodIs(line);
    }
    if MethodOf(line).Some? {
      MethodSpelled(line);
    }
  }

  lemma MethodIs(line: string)
    requires line == "GET" || line == "POST" || line == "HEAD"
    ensures MethodOf(line).Some? && MethodText(MethodOf(line).value) == line
  {
    assert line[..|line|] == line;
    assert line[0] == (if line == "GET" then 'G' else if line == "POST" then 'P' else 'H');
    assert |line| >= 3 && line[..3][0] == line[0];
  }

  // ---------------------------------------------------------------- the header

  /** What header lines are followed by when no further line and no blank one can be read: the parser waits for
      more, unless the limit is passed or a line has no colon. */
  lemma OpenHeader(e: Params, m: Message, buf: string)
    requires LineOk(e, m) && (forall h <- m.headers :: HeaderOk(h)) && HeadersWithin(e, m.headers)
    requires |RenderLine(m) + "\r\n" + (Lines(m.headers) + buf)| <= e.maxLine && !CrlfAt(buf, 0)
    requires FindCrlf(buf) >= 0 ==> FindChar(buf[..FindCrlf(buf)], ':', 0) < 0
    ensures var o := ParseRequest(e, Fresh(RenderLine(m) + "\r\n" + (Lines(m.headers) + buf)));
      o.req.state == Header && o.req.buf == buf
      && o.ret == if buf == "" then Again
                  else if HeaderLength(m.headers) > e.maxHeader || FindCrlf(buf) >= 0 then Bad
                  else Again
  {
    hide RenderLine, Lines, HeaderOk, ScanHeader, HeaderLength, HeaderMap, LineOk, ParseLine, ReadFields, FindCrlf;
    LineParsed(e, m, Lines(m.headers) + buf);
    HeadersRead(e, m.headers, buf, map[], 0);
    HeaderLeaves(e, buf, HeaderMap(m.headers, map[]), HeaderLength(m.headers));
  }

  // ---------------------------------------------------------------- a whole head

  /** Behind a whole head the header lines and the method decide: a length that does not convert throws; a
      coding other than chunked, and a POST without a length, are refused; a body too short is waited for. */
  lemma HeadAnswers(e: Params, m: Message, tail: string)
    requires LineOk(e, m) && (forall h <- m.headers :: HeaderOk(h)) && HeadersWithin(e, m.headers)
    requires |Head(m) + tail| <= e.maxLine
    ensures var o := ParseRequest(e, Fresh(Head(m) + tail));
      var length, coding := LastValue(m.headers, "content-length"), LastValue(m.headers, "transfer-encoding");
      if length.Some? && e.stoul(length.value).None? then o.ret == Raised
      else if coding.Some? && !SameUpToCase(coding.value, "chunked") then o.ret == Bad
      else if coding.None? && length.Some? && e.stoul(length.value).value > |tail| then
        o.ret == Again && o.req.buf == tail && o.req.body == ""
      else coding.None? && length.None? ==> o.ret == if m.verb == POST then Bad else Ok
  {
    hide RenderLine, Lines, HeaderOk, LineOk, ParseRequest, FromHeader, LastValue, Head;
    HeadParsed(e, m, tail);
    if LengthReads(e, m.headers) {
      HeaderParsed(e, m, tail);
      BodyAnswers(e, m, tail);
    } else {
      LengthThrows(e, m, tail);
    }
  }

  lemma BodyAnswers(e: Params, m: Message, tail: string)
    requires LengthReads(e, m.headers)
    ensures BodyFits(HeaderDone(e, m, tail))
    ensures var o := FromContent(e, HeaderDone(e, m, tail));
      var length, coding := LastValue(m.headers, "content-length"), LastValue(m.headers, "transfer-encoding");
      if coding.Some? && !IsChunked(m.headers) then o.ret == Bad
      else if coding.None? && length.Some? && LengthMeant(e, m.headers).value > |tail| then
        o.ret == Again && o.req.buf == tail && o.req.body == ""
      else coding.None? && length.None? ==> o.ret == if m.verb == POST then Bad else Ok
  {
    hide LastValue, TypeMeant, KeepsAlive, ScanChunks, HandleContent, HeaderMap, HeaderLength, Contains;
  }

  lemma LengthThrows(e: Params, m: Message, tail: string)
    requires (forall h <- m.headers :: HeaderOk(h)) && HeadersWithin(e, m.headers) && !LengthReads(e, m.headers)
    ensures FromHeader(e, LineDone(m, Lines(m.headers) + ("\r\n" + tail))).ret == Raised
  {
    hide ReadFields, ScanHeader, HeaderMap, HeaderLength, Lines, HeaderOk, FieldsMeant, LengthReads;
    FieldsRead(e, m.headers, m.version);
    HeadersRead(e, m.headers, "\r\n" + tail, map[], 0);
    BlankLineRead(e, tail, HeaderLength(m.headers));
    HeaderLeaves(e, "\r\n" + tail, HeaderMap(m.headers, map[]), HeaderLength(m.headers));
  }

  // ---------------------------------------------------------------- chunk sizes

  /** The size of a chunk is the number its digits write, in either case, in the radix of the code. */
  lemma SizeMeans(e: Params, size: string, ds: seq<nat>)
    requires |size| <= e.chunkDigits && Digits.DigitsOf(size, ds)
    requires 1 <= e.radix && Digits.PlaceValue(e.radix, ds) <= Util.INT_MAX
    ensures SizeOk(e, size, Digits.PlaceValue(e.radix, ds))
  {
    Digits.DigitsAreX(size, ds);
    Digits.NumberRead(e.radix, size, ds);
  }

  /** The decoder behind whole chunks. */
  function Behind(chunks: seq<Chunk>, buf: string, size: int, body: string): Chunks {
    Chunks(buf, NO_LEN, if chunks == [] then size else |chunks[|chunks| - 1].data|, body + Data(chunks))
  }

  /** Behind whole chunks: without a line end within its limit a size is waited for, however long it grows;
      one with anything but digits is refused. */
  lemma OpenSize(e: Params, chunks: seq<Chunk>, buf: string, body: string, size: int)
    requires forall c <- chunks :: ChunkOk(e, c)
    ensures var c := ScanChunks(e, Chunks(ChunksText(chunks) + buf, NO_LEN, size, body));
      NoLineBefore(buf, e.chunkDigits + 1) ==> c == (Behind(chunks, buf, size, body), Again)
  {
    ChunksTaken(e, chunks, buf, size, body);
    if NoLineBefore(buf, e.chunkDigits + 1) {
      NoSize(e, Behind(chunks, buf, size, body));
    }
  }

  lemma SizeRefused(e: Params, chunks: seq<Chunk>, digits: string, more: string, body: string, size: int)
    requires (forall c <- chunks :: ChunkOk(e, c)) && |digits| <= e.chunkDigits
    requires FindCrlf(digits) < 0 && !Util.AllXDigits(digits)
    ensures ScanChunks(e, Chunks(ChunksText(chunks) + (digits + "\r\n" + more), NO_LEN, size, body)).1 == Bad
  {
    var buf := digits + "\r\n" + more;
    ChunksTaken(e, chunks, buf, size, body);
    FindCrlfAfter(digits, more);
    assert buf[..|digits|] == digits;
    BadSize(e, Behind(chunks, buf, size, body), |digits|);
  }

  /** No line end begins in the first n bytes. */
  predicate NoLineBefore(buf: string, n: nat) { forall k :: 0 <= k < n ==> !CrlfAt(buf, k) }

  function ChunksText(chunks: seq<Chunk>): string {
    if chunks == [] then ""
    else chunks[0].size + "\r\n" + (chunks[0].data + "\r\n" + ChunksText(chunks[1..]))
  }

  lemma {:induction false} ChunksTaken(e: Params, chunks: seq<Chunk>, buf: string, size: int, body: string)
    requires forall c <- chunks :: ChunkOk(e, c)
    ensures ScanChunks(e, Chunks(ChunksText(chunks) + buf, NO_LEN, size, body))
         == ScanChunks(e, Behind(chunks, buf, size, body))
    decreases |chunks|
  {
    hide NextChunk, SizeOk;
    var text := ChunksText(chunks) + buf;
    if chunks == [] {
      assert text == buf && body + "" == body;
    } else {
      var c := chunks[0];
      var more := ChunksText(chunks[1..]) + buf;
      assert text == c.size + "\r\n" + (c.data + "\r\n" + more);
      ChunkSizeRead(e, c, c.data + "\r\n" + more, size, body);
      ChunkDataRead(e, c.data, more, body);
      ChunksTaken(e, chunks[1..], buf, |c.data|, body + c.data);
      assert body + Data(chunks) == body + c.data + Data(chunks[1..]);
    }
  }

  lemma NoSize(e: Params, c: Chunks)
    requires c.state == NO_LEN && NoLineBefore(c.buf, e.chunkDigits + 1)
    ensures ScanChunks(e, c) == (c, Again)
  {
    var n := e.chunkDigits + 2;
    var window := if |c.buf| < n then c.buf else c.buf[..n];
    assert forall k :: CrlfAt(window, k) ==> CrlfAt(c.buf, k) && k <= e.chunkDigits;
    assert SizeEnd(c.buf, n) < 0;
    assert NextChunk(e, c) == Stops(c, Again);
  }

  lemma BadSize(e: Params, c: Chunks, k: nat)
    requires c.state == NO_LEN && k <= e.chunkDigits && FindCrlf(c.buf) == k
    requires !Util.AllXDigits(c.buf[..k])
    ensures ScanChunks(e, c).1 == Bad
  {
    var n := e.chunkDigits + 2;
    var window := if |c.buf| < n then c.buf else c.buf[..n];
    assert CrlfAt(window, k);
    assert forall j :: CrlfAt(window, j) ==> CrlfAt(c.buf, j);
    assert SizeEnd(c.buf, n) == k;
    Digits.OtherRefused(e.radix, 0, c.buf[..k]);
    assert NextChunk(e, c).Stops?;
  }

  /** Behind the size of a chunk its data and a line end are waited for; anything else behind the data is
      refused. */
  lemma OpenData(e: Params, c: Chunks)
    requires c.Valid() && c.state == NO_DATA
    ensures |c.buf| < c.size + 2 ==> ScanChunks(e, c) == (c, Again)
    ensures |c.buf| >= c.size + 2 && !CrlfAt(c.buf, c.size) ==> ScanChunks(e, c) == (c, Bad)
  {
    assert |c.buf| < c.size + 2 ==> NextChunk(e, c) == Stops(c, Again);
    assert |c.buf| >= c.size + 2 && !CrlfAt(c.buf, c.size) ==> NextChunk(e, c) == Stops(c, Bad);
  }

  /** And behind the last size a line end, at once. */
  lemma OpenEnd(e: Params, c: Chunks)
    requires c.Valid() && c.state == DONE
    ensures |c.buf| < 2 ==> ScanChunks(e, c) == (c, Again)
    ensures |c.buf| >= 2 && !CrlfAt(c.buf, 0) ==> ScanChunks(e, c) == (c, Bad)
  {
    assert |c.buf| < 2 ==> NextChunk(e, c) == Stops(c, Again);
    assert |c.buf| >= 2 && !CrlfAt(c.buf, 0) ==> NextChunk(e, c) == Stops(c, Bad);
  }
}
