/** HttpRequest itself (haha_web/http/HttpRequest.cpp): methods that update the request's fields and
    take bytes out of its receive buffer, proved against the functions of HttpModel. */
module HttpParser {
  import opened Text
  import Util
  import opened ByteBuffer
  import opened HttpModel
  import HttpMultiPart
  import HttpResume

  lemma ChunkGoes(e: Params, c: Chunks, d: Chunks)
    requires c.Valid() && NextChunk(e, c) == Goes(d)
    ensures d.Valid() && ScanChunks(e, c) == ScanChunks(e, d) && |d.buf| < |c.buf|
  {
  }

  lemma ChunkStops(e: Params, c: Chunks, d: Chunks, ret: RetState)
    requires c.Valid() && NextChunk(e, c) == Stops(d, ret)
    ensures d.Valid() && ScanChunks(e, c) == (d, ret)
  {
  }

  function StagesLeft(s: CheckState): nat {
    match s case RequestLine => 3 case Header => 2 case Content => 1 case Done => 0
  }

  lemma DoneStays(e: Params, r: Request)
    requires HttpModel.Valid(r) && r.state == Done
    ensures HttpModel.ParseRequest(e, r) == Outcome(r, Ok)
  {
  }

  class HttpRequest {
    const env: Params
    const recver: Buffer        // data_
    const multipart: HttpMultiPart.Parser
    var state: CheckState
    var retState: RetState
    var verb: Option<HttpMethod>
    var url: string
    var version: HttpVersion
    var header: map<string, string>
    var headerLen: nat
    var fields: Fields
    var chunkState: ChunkedState
    var chunkSize: int
    var body: string

    ghost function Value(): Request
      reads this, recver, recver.data, multipart
      requires recver.Valid()
    {
      Request(recver.Readable(), state, verb, url, version, header, headerLen, fields,
              chunkState, chunkSize, body, multipart.form, multipart.files)
    }

    ghost predicate Valid()
      reads this, recver, recver.data, multipart
    {
      recver.Valid() && HttpModel.Valid(Value()) && (state == Done ==> retState == Ok) && multipart.bd == ""
    }

    constructor (env: Params, recver: Buffer)
      requires recver.Valid()
      ensures Valid() && this.recver == recver && this.env == env && fresh(multipart)
      ensures Value() == Fresh(recver.Readable())
    {
      this.env, this.recver := env, recver;
      state, retState := RequestLine, Again;
      multipart := new HttpMultiPart.Parser("");
      verb, url, version := None, "", HTTP_1_0;
      header, headerLen, fields := map[], 0, NO_FIELDS;
      chunkState, chunkSize, body := NO_LEN, 0, "";
    }

    /** Run stages until one does not return OK, or all are done. */
    method ParseRequest() returns (ret: RetState)
      requires Valid()
      modifies this, recver`readPos, recver`writePos, multipart`form, multipart`files
      ensures Valid()
      ensures Outcome(Value(), ret) == HttpModel.ParseRequest(env, old(Value()))
      ensures retState == ret
    {
      hide HttpModel.ParseRequest, HttpModel.Valid;
      while state != Done
        invariant Valid()
        invariant HttpModel.ParseRequest(env, Value()) == HttpModel.ParseRequest(env, old(Value()))
        decreases StagesLeft(state)
      {
        ParseStage();
        if retState != Ok {
          return retState;
        }
      }
      DoneStays(env, Value());
      ret := retState;
    }

    /** One turn of the loop: the stage, and the next state when it returns OK. */
    method ParseStage()
      requires Valid() && state != Done
      modifies this, recver`readPos, recver`writePos, multipart`form, multipart`files
      ensures Valid()
      ensures if retState == Ok
        then StagesLeft(state) < StagesLeft(old(state))
             && HttpModel.ParseRequest(env, Value()) == HttpModel.ParseRequest(env, old(Value()))
        else Outcome(Value(), retState) == HttpModel.ParseRequest(env, old(Value()))
    {
      hide HttpModel.ParseLine, HttpModel.ParseHeader, HttpModel.ParseContent;
      match state {
        case RequestLine =>
          retState := ParseRequestLine();
          if retState == Ok {
            state := Header;
          }
        case Header =>
          retState := ParseRequestHeader();
          if retState == Ok {
            state := Content;
          }
        case Content =>
          retState := ParseRequestContent();
          if retState == Ok {
            state := Done;
          }
      }
    }

    method ParseRequestLine() returns (ret: RetState)
      requires Valid() && state == RequestLine
      modifies this`verb, this`url, this`version, recver`readPos, recver`writePos
      ensures recver.Valid()
      ensures Outcome(Value(), ret) == ParseLine(env, old(Value()))
      ensures HttpModel.Valid(Value()) && HttpModel.Valid(Value().(state := Header))
    {
      hide ScanLine, FindCrlf;
      var view := recver.Peek();
      if |view| > env.maxLine {
        return Bad;
      }
      var end := FindCrlf(view);
      if end < 0 {
        return if view != "" && view[0] !in "GPH" then Bad else Again;
      }
      ret := ReadLine(view[..end]);
      if ret == Ok {
        recver.Retrieve(end + 2);
      }
    }

    /** Method, URL and version, each stored as soon as it is read. */
    method ReadLine(whole: string) returns (ret: RetState)
      modifies this`verb, this`url, this`version
      ensures ret == ScanLine(env, whole).ret
      ensures var l := ScanLine(env, whole);
        verb == (if l.verb.Some? then l.verb else old(verb))
        && url == (if l.url.Some? then l.url.value else old(url))
        && version == (if l.version.Some? then l.version.value else old(version))
    {
      hide MethodOf, MethodText, VersionOf, FindChar;
      var i := ReadMethod(whole);
      if i == 0 {
        return Bad;
      }
      if i > |whole| {
        return Undefined;
      }
      var line := whole[i..];

      var pos := FindChar(line, ' ', 0);
      if pos < 0 {
        return Bad;
      }
      url := line[..pos];
      if !env.urlOk(url) {
        return Bad;
      }
      var ok := ReadVersion(line[pos + 1..]);
      ret := if ok then Ok else Bad;
    }

    /** How many bytes to step over; 0 for a method that is not supported. */
    method ReadMethod(line: string) returns (i: nat)
      modifies this`verb
      ensures MethodOf(line).None? ==> i == 0 && verb == old(verb)
      ensures MethodOf(line).Some? ==> i == |MethodText(MethodOf(line).value)| + 1 && verb == MethodOf(line)
    {
      i := 0;
      if StartsWith(line, "GET") {
        verb := Some(GET);
        i := i + 4;
      } else if StartsWith(line, "POST") {
        verb := Some(POST);
        i := i + 5;
      } else if StartsWith(line, "HEAD") {
        verb := Some(HEAD);
        i := i + 5;
      }
    }

    method ReadVersion(line: string) returns (ok: bool)
      modifies this`version
      ensures ok == VersionOf(line).Some?
      ensures version == if ok then VersionOf(line).value else old(version)
    {
      ok := true;
      if line == "HTTP/1.0" {
        version := HTTP_1_0;
      } else if line == "HTTP/1.1" {
        version := HTTP_1_1;
      } else if line == "HTTP/2.0" {
        version := HTTP_2_0;
      } else {
        ok := false;
      }
    }

    method ParseRequestHeader() returns (ret: RetState)
      requires Valid() && state == Header
      modifies this`header, this`headerLen, this`fields, recver`readPos, recver`writePos
      ensures recver.Valid()
      ensures Outcome(Value(), ret) == ParseHeader(env, old(Value()))
    {
      hide ScanHeader, ReadFields;
      ret := ParseHeaderLines();
      if ret == Ok {
        var ok := ParseFields();
        ret := if ok then Ok else Raised;
      }
    }

    /** The loop of parseRequestHeader: one header line a turn, up to the blank line. */
    method ParseHeaderLines() returns (ret: RetState)
      requires recver.Valid()
      modifies this`header, this`headerLen, recver`readPos, recver`writePos
      ensures recver.Valid()
      ensures HeaderScan(recver.Readable(), header, headerLen, ret)
        == ScanHeader(env, old(recver.Readable()), old(header), old(headerLen))
    {
      hide HttpModel.HeaderLine, ToLowers, FindCrlf, ScanHeader;
      var view := recver.Peek();
      ghost var goal := ScanHeader(env, view, header, headerLen);
      while view != ""
        invariant recver.Valid() && view == recver.Readable()
        invariant ScanHeader(env, view, header, headerLen) == goal
        decreases |view|
      {
        if CrlfAt(view, 0) {
          HeaderLeaves(env, view, header, headerLen);
          recver.Retrieve(2);
          return Ok;
        }
        if headerLen > env.maxHeader {
          HeaderLeaves(env, view, header, headerLen);
          return Bad;
        }
        var crlf := FindCrlf(view);
        if crlf < 0 {
          break;
        }
        var kv := HeaderLine(view[..crlf]);
        if kv.None? {
          HeaderLeaves(env, view, header, headerLen);
          return Bad;
        }
        HeaderGoes(env, view, header, headerLen);
        AddHeader(kv.value.0, kv.value.1);
        view := view[crlf + 2..];
        recver.Retrieve(crlf + 2);
      }
      HeaderLeaves(env, view, header, headerLen);
      return Again;
    }

    /** HttpHeader::add: the length grows even when a value is replaced. */
    method AddHeader(key: string, value: string)
      modifies this`header, this`headerLen
      ensures header == old(header)[ToLowers(key) := value]
      ensures headerLen == old(headerLen) + |key| + |value|
    {
      header := header[ToLowers(key) := value];
      headerLen := headerLen + |key| + |value|;
    }

    /** The parseXxx calls at the end of the header, in the source's order; false when stoul throws. */
    method ParseFields() returns (ok: bool)
      modifies this`fields
      ensures (fields, ok) == ReadFields(env, header, version)
    {
      hide KeepAliveOf, CompressedOf, ContentTypeIn, ContentLengthOf, AcceptEncodingIn, TransferEncodingIn;
      fields := NO_FIELDS;
      ParseKeepAlive();
      ParseAcceptEncoding();
      ParseContentType();
      fields := fields.(hasCookies := "cookie" in header);
      ok := ParseContentLength();
      if ok {
        ParseTransferEncoding();
      }
    }

    method ParseKeepAlive()
      requires !fields.keepAlive
      modifies this`fields
      ensures fields == old(fields).(keepAlive := KeepAliveOf(header, version))
    {
      if version != HTTP_1_0 {
        fields := fields.(keepAlive := true);
      }
      if "connection" in header {
        fields := fields.(keepAlive := ToLowers(header["connection"]) == "keep-alive");
      }
    }

    method ParseAcceptEncoding()
      requires !fields.compressed && fields.acceptEncoding == ""
      modifies this`fields
      ensures fields == old(fields).(compressed := CompressedOf(header), acceptEncoding := AcceptEncodingIn(header))
    {
      if "accept-encoding" in header {
        fields := fields.(acceptEncoding := header["accept-encoding"]);
        fields := fields.(compressed := Contains(header["accept-encoding"], "gzip"));
      }
    }

    method ParseContentType()
      requires fields.contentType.None?
      modifies this`fields
      ensures fields == old(fields).(contentType := ContentTypeIn(header))
    {
      hide ContentTypeOf;
      if "content-type" in header {
        fields := fields.(contentType := Some(ContentTypeOf(ToLowers(header["content-type"]))));
      }
    }

    method ParseContentLength() returns (ok: bool)
      requires !fields.hasContentLength && fields.contentLength == 0
      modifies this`fields
      ensures ok == ContentLengthOf(env, header).Some?
      ensures fields == old(fields).(hasContentLength := "content-length" in header,
                                     contentLength := if ok then ContentLengthOf(env, header).value else 0)
    {
      if "content-length" in header {
        fields := fields.(hasContentLength := true);
        var n := env.stoul(header["content-length"]);
        if n.None? {
          return false;
        }
        fields := fields.(contentLength := n.value);
      }
      return true;
    }

    method ParseTransferEncoding()
      requires !fields.chunked && !fields.hasTransferEncoding && fields.transferEncoding == ""
      modifies this`fields
      ensures fields == old(fields).(hasTransferEncoding := "transfer-encoding" in header,
                                     chunked := TransferEncodingIn(header) == "chunked",
                                     transferEncoding := TransferEncodingIn(header))
    {
      if "transfer-encoding" in header {
        fields := fields.(hasTransferEncoding := true);
        fields := fields.(transferEncoding := ToLowers(header["transfer-encoding"]));
        if fields.transferEncoding == "chunked" {
          fields := fields.(chunked := true);
        }
      }
    }

    method ParseRequestContent() returns (ret: RetState)
      requires Valid() && state == Content
      modifies this`chunkState, this`chunkSize, this`body, recver`readPos, recver`writePos
      modifies multipart`form, multipart`files
      ensures recver.Valid()
      ensures Outcome(Value(), ret) == ParseContent(env, old(Value()))
    {
      hide ScanChunks, HandleContent;
      if fields.hasTransferEncoding {
        if fields.chunked {
          ret := ParseChunked();
          if ret != Ok {
            return;
          }
        } else {
          return Bad;
        }
      } else if fields.hasContentLength {
        if fields.contentLength > |body| + recver.ReadableBytes() {
          return Again;
        }
        TakeBody(fields.contentLength - |body|);
      } else if verb == Some(GET) || verb == Some(HEAD) {
        return Ok;
      } else {
        return Bad;
      }

      ret := HandleBody();
    }

    method TakeBody(n: nat)
      requires recver.Valid() && n <= |recver.Readable()|
      modifies this`body, recver`readPos, recver`writePos
      ensures recver.Valid()
      ensures Value()
           == old(Value()).(body := old(body) + old(recver.Readable())[..n], buf := old(recver.Readable())[n..])
    {
      var view := recver.Peek();
      body := body + view[..n];
      recver.Retrieve(n);
    }

    /** What the content type asks for once the body is there. */
    method HandleBody() returns (ret: RetState)
      requires recver.Valid() && multipart.bd == ""
      modifies multipart`form, multipart`files
      ensures Outcome(Value(), ret) == HandleContent(old(Value()))
    {
      ret := Ok;
      if fields.contentType == Some(MULTIPART) {
        var eob := "--" + multipart.bd + "--\r\n";
        assert eob == END_OF_BODY;
        if |body| > |eob| && !(body[|body| - |eob|..] == eob) {
          return Again;
        }
        var hangs := multipart.Parse(body);
        ret := if hangs then Hangs else Ok;
      }
    }

    method ParseChunked() returns (ret: RetState)
      requires recver.Valid() && ChunksOf(Value()).Valid()
      modifies this`chunkState, this`chunkSize, this`body, recver`readPos, recver`writePos
      ensures recver.Valid()
      ensures Outcome(Value(), ret) == HttpModel.ParseChunked(env, old(Value()))
    {
      hide NextChunk, ScanChunks;
      var view := recver.Peek();
      while true
        invariant recver.Valid() && view == recver.Readable() && ChunksOf(Value()).Valid()
        invariant ScanChunks(env, ChunksOf(Value())) == old(ScanChunks(env, ChunksOf(Value())))
        decreases |view|
      {
        ghost var before := ChunksOf(Value());
        var more;
        more, view, ret := ChunkTurn(view);
        if !more {
          ChunkStops(env, before, ChunksOf(Value()), ret);
          return;
        }
        ChunkGoes(env, before, ChunksOf(Value()));
      }
      return Again;
    }

    /** One turn of the decoder's loop. */
    method ChunkTurn(unread: string) returns (more: bool, view: string, ret: RetState)
      requires recver.Valid() && unread == recver.Readable() && ChunksOf(Value()).Valid()
      modifies this`chunkState, this`chunkSize, this`body, recver`readPos, recver`writePos
      ensures recver.Valid() && (more ==> view == recver.Readable())
      ensures var c := ChunksOf(Value());
        NextChunk(env, old(ChunksOf(Value()))) == if more then Goes(c) else Stops(c, ret)
    {
      hide Util.HexString2Int, SizeEnd;
      more, view, ret := false, unread, Again;
      match chunkState {
        case NO_LEN =>
          var pos := SizeEnd(view, env.chunkDigits + 2);
          if pos < 0 {
            return;
          }
          if pos > env.chunkDigits {
            ret := Bad;
            return;
          }
          chunkSize := Util.ParseHexString(env.radix, view[..pos]);
          if chunkSize == 0 {
            recver.Retrieve(pos + 2);
            view := view[pos + 2..];
            chunkState := DONE;
          } else {
            if chunkSize < 0 {
              ret := Bad;
              return;
            }
            recver.Retrieve(pos + 2);
            view := view[pos + 2..];
            chunkState := NO_DATA;
          }
          more := true;
        case NO_DATA =>
          if |view| < chunkSize + 2 {
            return;
          } else if CrlfAt(view, chunkSize) {
            body := body + view[..chunkSize];
            recver.Retrieve(chunkSize + 2);
            view := view[chunkSize + 2..];
            chunkState := NO_LEN;
            more := true;
          } else {
            ret := Bad;
          }
        case DONE =>
          if |view| < 2 {
            return;
          } else if CrlfAt(view, 0) {
            recver.Retrieve(2);
            ret := Ok;
          } else {
            ret := Bad;
          }
      }
    }
  }

  /** As the server does: append each piece to the receive buffer and parse, until a result other
      than AGAIN. */
  method ParsePieces(req: HttpRequest, pieces: seq<string>) returns (ret: RetState, fed: nat)
    requires req.Valid() && pieces != []
    modifies req, req.recver, req.recver.data, req.multipart`form, req.multipart`files
    ensures req.Valid() && 0 < fed <= |pieces|
    ensures Outcome(Receive(req.Value(), Concat(pieces[fed..])), ret)
      == HttpResume.Feed(req.env, old(req.Value()), pieces)
  {
    hide HttpModel.ParseRequest, HttpModel.Valid;
    ghost var goal := HttpResume.Feed(req.env, req.Value(), pieces);
    fed := 0;
    while true
      invariant req.Valid() && fed < |pieces|
      invariant req.recver.data == old(req.recver.data) || fresh(req.recver.data)
      invariant HttpResume.Feed(req.env, req.Value(), pieces[fed..]) == goal
      decreases |pieces| - fed
    {
      ghost var before := req.Value();
      assert pieces[fed..][1..] == pieces[fed + 1..];
      req.recver.Append(pieces[fed]);
      assert req.Value() == Receive(before, pieces[fed]);
      AlwaysReceives(before, pieces[fed]);
      fed := fed + 1;
      ret := req.ParseRequest();
      if ret != Again || fed == |pieces| {
        break;
      }
    }
  }

  lemma AlwaysReceives(r: Request, q: string)
    requires HttpModel.Valid(r)
    ensures HttpModel.Valid(Receive(r, q))
  {
  }

  /** As the test does: parse after every piece, whatever it returns. A piece whose parse throws or
      never ends is the last. */
  method ParseBySplit(req: HttpRequest, pieces: seq<string>) returns (ret: RetState, fed: nat)
    requires req.Valid()
    modifies req, req.recver, req.recver.data, req.multipart`form, req.multipart`files
    ensures req.Valid() && fed <= |pieces|
    ensures Outcome(Receive(req.Value(), Concat(pieces[fed..])), ret)
         == HttpResume.FeedAll(req.env, old(req.Value()), old(req.retState), pieces)
  {
    hide HttpModel.ParseRequest, HttpModel.Valid;
    ghost var goal := HttpResume.FeedAll(req.env, req.Value(), req.retState, pieces);
    ret, fed := req.retState, 0;
    while fed < |pieces|
      invariant req.Valid() && fed <= |pieces|
      invariant req.recver.data == old(req.recver.data) || fresh(req.recver.data)
      invariant HttpResume.FeedAll(req.env, req.Value(), ret, pieces[fed..]) == goal
    {
      ghost var before := req.Value();
      assert pieces[fed..][1..] == pieces[fed + 1..];
      req.recver.Append(pieces[fed]);
      assert req.Value() == Receive(before, pieces[fed]);
      AlwaysReceives(before, pieces[fed]);
      fed := fed + 1;
      ret := req.ParseRequest();
      if !HttpResume.Returns(ret) {
        return;
      }
    }
    NothingReceived(req.Value());
  }

  lemma NothingReceived(r: Request)
    ensures Receive(r, Concat([])) == r
  {
    assert r.buf + "" == r.buf;
  }
}
