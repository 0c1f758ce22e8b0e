/** What HttpRequest's parser computes, as functions over the values of its fields
    (haha_web/http/HttpRequest.cpp). */
module HttpModel {
  import opened Text
  import Util
  import MultiPart

  datatype CheckState = RequestLine | Header | Content | Done

  /** RET_STATE, with three more outcomes the code has: an exception thrown by std::stoul,
      string_view::remove_prefix beyond the end of the line, which C++ leaves undefined, and a
      multipart parse that never returns. */
  datatype RetState = Ok | Again | Bad | Raised | Undefined | Hangs

  datatype HttpMethod = GET | POST | HEAD
  datatype HttpVersion = HTTP_1_0 | HTTP_1_1 | HTTP_2_0
  datatype ChunkedState = NO_LEN | NO_DATA | DONE
  datatype ContentType = URLENCODED | MULTIPART | PLAIN | HTML | JSON | UNKNOWN

  /** The limits of the constructor, the radix of hexString2Int, and the library calls that
      stay uninterpreted: whether a URL parses, and what stoul gives (None when it throws). */
  datatype Params = Params(maxLine: nat, maxHeader: nat, chunkDigits: nat, radix: nat,
                           urlOk: string -> bool, stoul: string -> Option<nat>)

  /** What the seven parseXxx calls at the end of the header read out of it. */
  datatype Fields = Fields(keepAlive: bool, compressed: bool, contentType: Option<ContentType>,
                           hasCookies: bool, hasContentLength: bool, contentLength: nat,
                           hasTransferEncoding: bool, chunked: bool,
                           acceptEncoding: string, transferEncoding: string)

  datatype Request = Request(
    buf: string,            // readable bytes of data_
    state: CheckState,
    verb: Option<HttpMethod>,   // method_, not initialised before the first match
    url: string,
    version: HttpVersion,
    header: map<string, string>,
    headerLen: nat,         // HttpHeader::length_
    fields: Fields,
    chunkState: ChunkedState,
    chunkSize: int,
    body: string,
    form: MultiPart.Form,   // what multipart_ holds
    files: MultiPart.Files)

  const NO_FIELDS := Fields(false, false, None, false, false, 0, false, false, "", "")

  /** The state a stage leaves behind and the RET_STATE it returns. */
  datatype Outcome = Outcome(req: Request, ret: RetState)

  /** A freshly constructed request over a buffer. */
  function Fresh(buf: string): Request {
    Request(buf, RequestLine, None, "", HTTP_1_0, map[], 0, NO_FIELDS, NO_LEN, 0, "", map[], map[])
  }

  /** More bytes arrive in the receive buffer. */
  function Receive(r: Request, q: string): Request { r.(buf := r.buf + q) }

  // ---------------------------------------------------------------- request line

  function MethodOf(line: string): Option<HttpMethod> {
    if StartsWith(line, "GET") then Some(GET)
    else if StartsWith(line, "POST") then Some(POST)
    else if StartsWith(line, "HEAD") then Some(HEAD)
    else None
  }

  function MethodText(m: HttpMethod): string {
    match m case GET => "GET" case POST => "POST" case HEAD => "HEAD"
  }

  function VersionOf(s: string): Option<HttpVersion> {
    if s == "HTTP/1.0" then Some(HTTP_1_0)
    else if s == "HTTP/1.1" then Some(HTTP_1_1)
    else if s == "HTTP/2.0" then Some(HTTP_2_0)
    else None
  }

  function VersionText(v: HttpVersion): string {
    match v case HTTP_1_0 => "HTTP/1.0" case HTTP_1_1 => "HTTP/1.1" case HTTP_2_0 => "HTTP/2.0"
  }

  /** What is read out of one request line before reading stops. */
  datatype LineScan = LineScan(verb: Option<HttpMethod>, url: Option<string>, version: Option<HttpVersion>,
                               ret: RetState)

  function ScanLine(e: Params, line: string): LineScan {
    match MethodOf(line)
    case None => LineScan(None, None, None, Bad)
    case Some(m) =>
      var skip := |MethodText(m)| + 1;
      if skip > |line| then LineScan(Some(m), None, None, Undefined)
      else
        var rest := line[skip..];
        var pos := FindChar(rest, ' ', 0);
        if pos < 0 then LineScan(Some(m), None, None, Bad)
        else if !e.urlOk(rest[..pos]) then LineScan(Some(m), Some(rest[..pos]), None, Bad)
        else
          var v := VersionOf(rest[pos + 1..]);
          LineScan(Some(m), Some(rest[..pos]), v, if v.Some? then Ok else Bad)
  }

  function WithLine(r: Request, l: LineScan): Request {
    r.(verb := if l.verb.Some? then l.verb else r.verb,
       url := if l.url.Some? then l.url.value else r.url,
       version := if l.version.Some? then l.version.value else r.version)
  }

  function ParseLine(e: Params, r: Request): Outcome {
    if |r.buf| > e.maxLine then Outcome(r, Bad)
    else
      var end := FindCrlf(r.buf);
      if end < 0 then
        Outcome(r, if r.buf != "" && r.buf[0] !in "GPH" then Bad else Again)
      else
        var l := ScanLine(e, r.buf[..end]);
        var r' := WithLine(r, l);
        if l.ret == Ok then Outcome(r'.(buf := r.buf[end + 2..]), Ok) else Outcome(r', l.ret)
  }

  // ---------------------------------------------------------------- header

  /** The key and value of one header line: the value starts at the first non-blank after the
      first blank that follows the colon, and right after the colon when there is no blank. */
  function HeaderLine(line: string): (r: Option<(string, string)>)
    ensures r.Some? ==> |r.value.0| + |r.value.1| <= |line|
  {
    var colon := FindChar(line, ':', 0);
    if colon < 0 then None
    else
      var blank := FindChar(line, ' ', colon);
      var from := if blank < 0 then colon + 1 else blank;
      var start := FindNotChar(line, ' ', from);
      Some((line[..colon], if start < 0 then "" else line[start..]))
  }

  function ContentTypeOf(val: string): ContentType {
    if StartsWith(val, "application/x-www-form-urlencoded") then URLENCODED
    else if StartsWith(val, "multipart/form-data") then MULTIPART
    else if StartsWith(val, "text/plain") then PLAIN
    else if StartsWith(val, "text/html") then HTML
    else if StartsWith(val, "application/json") then JSON
    else UNKNOWN
  }

  function KeepAliveOf(h: map<string, string>, v: HttpVersion): bool {
    if "connection" in h then ToLowers(h["connection"]) == "keep-alive" else v != HTTP_1_0
  }

  function CompressedOf(h: map<string, string>): bool {
    "accept-encoding" in h && Contains(h["accept-encoding"], "gzip")
  }

  function AcceptEncodingIn(h: map<string, string>): string {
    if "accept-encoding" in h then h["accept-encoding"] else ""
  }

  function ContentTypeIn(h: map<string, string>): Option<ContentType> {
    if "content-type" in h then Some(ContentTypeOf(ToLowers(h["content-type"]))) else None
  }

  /** None when stoul throws. */
  function ContentLengthOf(e: Params, h: map<string, string>): Option<nat> {
    if "content-length" in h then e.stoul(h["content-length"]) else Some(0)
  }

  function TransferEncodingIn(h: map<string, string>): string {
    if "transfer-encoding" in h then ToLowers(h["transfer-encoding"]) else ""
  }

  /** parseKeepAlive to parseTransferEncoding; the flag is false when stoul throws, which leaves
      the transfer encoding unread. */
  function ReadFields(e: Params, h: map<string, string>, v: HttpVersion): (Fields, bool) {
    var f := Fields(KeepAliveOf(h, v), CompressedOf(h), ContentTypeIn(h), "cookie" in h,
                    "content-length" in h, 0, false, false, AcceptEncodingIn(h), "");
    var len := ContentLengthOf(e, h);
    if len.None? then (f, false)
    else
      (f.(contentLength := len.value, hasTransferEncoding := "transfer-encoding" in h,
          chunked := TransferEncodingIn(h) == "chunked", transferEncoding := TransferEncodingIn(h)), true)
  }

  /** One turn of the header loop: bytes retrieved, and either a header read or the loop left. */
  datatype HeaderStep = Field(drop: nat, key: string, value: string) | Leave(drop: nat, ret: RetState)

  function NextHeader(e: Params, buf: string, len: nat): (r: HeaderStep)
    ensures r.drop <= |buf|
    ensures r.Field? ==> 0 < r.drop && |r.key| + |r.value| <= r.drop
    ensures r.Leave? ==> r.drop == if r.ret == Ok then 2 else 0
  {
    if buf == "" then Leave(0, Again)
    else if CrlfAt(buf, 0) then Leave(2, Ok)
    else if len > e.maxHeader then Leave(0, Bad)
    else
      var crlf := FindCrlf(buf);
      if crlf < 0 then Leave(0, Again)
      else
        match HeaderLine(buf[..crlf])
        case None => Leave(0, Bad)
        case Some((key, value)) => Field(crlf + 2, key, value)
  }

  /** The header loop over the unread bytes: what it leaves, the header it has filled, its length_. */
  datatype HeaderScan = HeaderScan(buf: string, header: map<string, string>, len: nat, ret: RetState)

  function ScanHeader(e: Params, buf: string, header: map<string, string>, len: nat): HeaderScan
    decreases |buf|
  {
    match NextHeader(e, buf, len)
    case Leave(n, ret) => HeaderScan(buf[n..], header, len, ret)
    case Field(n, key, value) =>
      ScanHeader(e, buf[n..], header[ToLowers(key) := value], len + |key| + |value|)
  }

  /** One turn of the header loop, and what it means for the rest of it. */
  lemma HeaderGoes(e: Params, buf: string, header: map<string, string>, len: nat)
    requires NextHeader(e, buf, len).Field?
    ensures var step := NextHeader(e, buf, len);
      ScanHeader(e, buf, header, len)
      == ScanHeader(e, buf[step.drop..], header[ToLowers(step.key) := step.value], len + |step.key| + |step.value|)
  {
    hide NextHeader, ToLowers;
  }

  lemma HeaderLeaves(e: Params, buf: string, header: map<string, string>, len: nat)
    requires NextHeader(e, buf, len).Leave?
    ensures var step := NextHeader(e, buf, len);
      ScanHeader(e, buf, header, len)
      == HeaderScan(if step.drop == 0 then buf else buf[step.drop..], header, len, step.ret)
  {
    hide NextHeader, ToLowers;
    assert buf[0..] == buf;
  }

  function ParseHeader(e: Params, r: Request): Outcome {
    var s := ScanHeader(e, r.buf, r.header, r.headerLen);
    var r' := r.(buf := s.buf, header := s.header, headerLen := s.len);
    if s.ret == Ok then
      var (f, ok) := ReadFields(e, s.header, r.version);
      Outcome(r'.(fields := f), if ok then Ok else Raised)
    else Outcome(r', s.ret)
  }

  // ---------------------------------------------------------------- content

  /** The state of the chunk decoder. */
  datatype Chunks = Chunks(buf: string, state: ChunkedState, size: int, body: string)
  {
    predicate Valid() { state == NO_DATA ==> size > 0 }
    function Receive(q: string): Chunks { this.(buf := buf + q) }
  }

  /** view.substr(0, n).find("\r\n"). */
  function SizeEnd(s: string, n: nat): (r: int)
    ensures -1 <= r && (r >= 0 ==> r + 2 <= |s|)
  {
    FindCrlf(if |s| < n then s else s[..n])
  }

  /** One turn of the chunk loop. */
  datatype ChunkStep = Goes(next: Chunks) | Stops(last: Chunks, ret: RetState)

  function NextChunk(e: Params, c: Chunks): (r: ChunkStep)
    requires c.Valid()
    ensures r.Goes? ==> r.next.Valid() && |r.next.buf| < |c.buf|
    ensures r.Stops? ==> r.last.Valid()
  {
    match c.state
    case NO_LEN =>
      var pos := SizeEnd(c.buf, e.chunkDigits + 2);
      if pos < 0 then Stops(c, Again)
      else if pos > e.chunkDigits then Stops(c, Bad)
      else
        var n := Util.HexString2Int(e.radix, c.buf[..pos]);
        if n == 0 then Goes(Chunks(c.buf[pos + 2..], DONE, n, c.body))
        else if n < 0 then Stops(c.(size := n), Bad)
        else Goes(Chunks(c.buf[pos + 2..], NO_DATA, n, c.body))
    case NO_DATA =>
      if |c.buf| < c.size + 2 then Stops(c, Again)
      else if CrlfAt(c.buf, c.size) then
        Goes(Chunks(c.buf[c.size + 2..], NO_LEN, c.size, c.body + c.buf[..c.size]))
      else Stops(c, Bad)
    case DONE =>
      if |c.buf| < 2 then Stops(c, Again)
      else if CrlfAt(c.buf, 0) then Stops(c.(buf := c.buf[2..]), Ok)
      else Stops(c, Bad)
  }

  function ScanChunks(e: Params, c: Chunks): (r: (Chunks, RetState))
    requires c.Valid()
    ensures r.0.Valid()
    decreases |c.buf|
  {
    match NextChunk(e, c)
    case Goes(d) => ScanChunks(e, d)
    case Stops(d, ret) => (d, ret)
  }

  function ChunksOf(r: Request): Chunks { Chunks(r.buf, r.chunkState, r.chunkSize, r.body) }

  function WithChunks(r: Request, c: Chunks): Request {
    r.(buf := c.buf, chunkState := c.state, chunkSize := c.size, body := c.body)
  }

  function ParseChunked(e: Params, r: Request): Outcome
    requires ChunksOf(r).Valid()
  {
    var (c, ret) := ScanChunks(e, ChunksOf(r));
    Outcome(WithChunks(r, c), ret)
  }

  /** "--" + boundary + "--\r\n", with the boundary that nothing ever sets. */
  const END_OF_BODY := "----\r\n"

  /** The end-of-body test for multipart content (the negation binds before the comparison,
      so a body that does not end with the marker waits). */
  predicate BodyWaits(body: string) {
    |body| > |END_OF_BODY| && body[|body| - |END_OF_BODY|..] != END_OF_BODY
  }

  /** multipart_.parse(body_), with no boundary set; the handlers for the other types only read the
      body. */
  function HandleContent(r: Request): (o: Outcome)
    ensures o.req == r.(form := o.req.form, files := o.req.files)
    ensures o.ret in {Ok, Again, Hangs}
  {
    if r.fields.contentType != Some(MULTIPART) then Outcome(r, Ok)
    else if BodyWaits(r.body) then Outcome(r, Again)
    else
      match MultiPart.Run(MultiPart.Start(r.body, r.form, r.files), "")
      case Finished(form, files) => Outcome(r.(form := form, files := files), Ok)
      case Stuck(form, files) => Outcome(r.(form := form, files := files), Hangs)
  }

  function ParseContent(e: Params, r: Request): (o: Outcome)
    requires BodyFits(r)
    ensures BodyFits(o.req)
  {
    if r.fields.hasTransferEncoding then
      if r.fields.chunked then
        var c := ParseChunked(e, r);
        if c.ret == Ok then HandleContent(c.req) else c
      else Outcome(r, Bad)
    else if r.fields.hasContentLength then
      if r.fields.contentLength > |r.body| + |r.buf| then Outcome(r, Again)
      else
        var n := r.fields.contentLength - |r.body|;
        HandleContent(r.(body := r.body + r.buf[..n], buf := r.buf[n..]))
    else if r.verb == Some(GET) || r.verb == Some(HEAD) then Outcome(r, Ok)
    else Outcome(r, Bad)
  }

  /** The body never outgrows the announced length. */
  predicate BodyFits(r: Request) {
    if r.fields.hasTransferEncoding then
      ChunksOf(r).Valid()
    else if r.fields.hasContentLength then |r.body| <= r.fields.contentLength
    else true
  }

  // ---------------------------------------------------------------- the whole machine

  predicate Valid(r: Request) {
    match r.state
    case RequestLine => r.body == "" && r.chunkState == NO_LEN && r.header == map[] && r.headerLen == 0
    case Header => r.body == "" && r.chunkState == NO_LEN
    case Content => BodyFits(r)
    case Done => true
  }

  function FromContent(e: Params, r: Request): (o: Outcome)
    requires BodyFits(r) && r.state == Content
    ensures Valid(o.req)
  {
    var c := ParseContent(e, r);
    if c.ret == Ok then Outcome(c.req.(state := Done), Ok) else c
  }

  function FromHeader(e: Params, r: Request): (o: Outcome)
    requires Valid(r) && r.state == Header
    ensures Valid(o.req)
  {
    var h := ParseHeader(e, r);
    if h.ret == Ok then FromContent(e, h.req.(state := Content)) else h
  }

  function FromLine(e: Params, r: Request): (o: Outcome)
    requires Valid(r) && r.state == RequestLine
    ensures Valid(o.req)
  {
    var l := ParseLine(e, r);
    if l.ret == Ok then FromHeader(e, l.req.(state := Header)) else l
  }

  /** HttpRequest::parseRequest: run stages until one does not return OK, or all are done. */
  function ParseRequest(e: Params, r: Request): (o: Outcome)
    requires Valid(r)
    ensures Valid(o.req)
  {
    match r.state
    case RequestLine => FromLine(e, r)
    case Header => FromHeader(e, r)
    case Content => FromContent(e, r)
    case Done => Outcome(r, Ok)   // retState_ is still OK
  }

  /** Waiting with the chunked body complete and two or more bytes unread: a multipart body that
      does not end in the marker. The next call would read those bytes as the body's last CRLF. */
  predicate Stuck(o: Outcome) {
    o.ret == Again && o.req.state == Content && o.req.fields.hasTransferEncoding
    && o.req.chunkState == DONE && |o.req.buf| >= 2
  }

  lemma {:induction false} AgainWantsMore(e: Params, c: Chunks)
    requires c.Valid()
    ensures var (d, ret) := ScanChunks(e, c); ret == Again && d.state == DONE ==> |d.buf| < 2
    decreases |c.buf|
  {
    match NextChunk(e, c)
    case Goes(d) => AgainWantsMore(e, d);
    case Stops(d, ret) =>
  }
}
