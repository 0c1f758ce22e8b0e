/** The requests HttpRequest's parser accepts, as a grammar with every spelling the code lets through:
    whatever is written by it is read, and whatever the parser reads is written by it. */
module HttpGrammar {
  import opened Text
  import Util
  import opened HttpModel
  import opened HttpFields
  import MultiPart

  /** A chunk and its size as it is written. */
  datatype Chunk = Chunk(size: string, data: string)

  datatype Payload = NoBody | Sized(text: string) | Chunked(chunks: seq<Chunk>, last: string)

  /** A request; the byte behind the method is whatever the code skips. */
  datatype Message = Message(verb: HttpMethod, mark: char, url: string, version: HttpVersion,
                             headers: seq<HeaderField>, payload: Payload)

  /** The methods and versions as they are written. */
  function Word(v: HttpMethod): string {
    match v case GET => "GET" case POST => "POST" case HEAD => "HEAD"
  }

  function Protocol(v: HttpVersion): string {
    match v case HTTP_1_0 => "HTTP/1.0" case HTTP_1_1 => "HTTP/1.1" case HTTP_2_0 => "HTTP/2.0"
  }

  function RenderLine(m: Message): string {
    Word(m.verb) + ([m.mark] + (m.url + " " + Protocol(m.version)))
  }

  function RenderHeader(h: HeaderField): string { h.key + ":" + (h.gap + h.value) }

  function Lines(hs: seq<HeaderField>): string {
    if hs == [] then "" else RenderHeader(hs[0]) + "\r\n" + Lines(hs[1..])
  }

  function Head(m: Message): string { RenderLine(m) + "\r\n" + (Lines(m.headers) + "\r\n") }

  function RenderChunks(chunks: seq<Chunk>, last: string): string {
    if chunks == [] then last + "\r\n" + "\r\n"
    else chunks[0].size + "\r\n" + (chunks[0].data + "\r\n" + RenderChunks(chunks[1..], last))
  }

  function RenderPayload(p: Payload): string {
    match p
    case NoBody => ""
    case Sized(text) => text
    case Chunked(chunks, last) => RenderChunks(chunks, last)
  }

  function Render(m: Message): string { Head(m) + RenderPayload(m.payload) }

  function Data(chunks: seq<Chunk>): string {
    if chunks == [] then "" else chunks[0].data + Data(chunks[1..])
  }

  function BodyOf(p: Payload): string {
    match p case NoBody => "" case Sized(text) => text case Chunked(chunks, _) => Data(chunks)
  }

  /** What the code counts of the header: keys and values. */
  function HeaderLength(hs: seq<HeaderField>): nat {
    if hs == [] then 0 else |hs[0].key| + |hs[0].value| + HeaderLength(hs[1..])
  }

  // ---------------------------------------------------------------- what a client must respect

  predicate LineOk(e: Params, m: Message) {
    FindCrlf(RenderLine(m)) < 0 && FindChar(m.url, ' ', 0) < 0 && e.urlOk(m.url)
  }

  /** What may stand between colon and value: nothing, if the value has no blank, or else anything
      up to the first blank and the blanks from there on. */
  predicate GapOk(gap: string, value: string) {
    var blank := FindChar(gap, ' ', 0);
    if blank < 0 then gap == "" && FindChar(value, ' ', 0) < 0
    else FindNotChar(gap, ' ', blank) < 0 && (value == "" || value[0] != ' ')
  }

  predicate HeaderOk(h: HeaderField) {
    FindCrlf(RenderHeader(h)) < 0 && FindChar(h.key, ':', 0) < 0 && GapOk(h.gap, h.value)
  }

  predicate SizeOk(e: Params, size: string, n: nat) {
    |size| <= e.chunkDigits && Util.AllXDigits(size) && Util.HexString2Int(e.radix, size) == n
  }

  predicate ChunkOk(e: Params, c: Chunk) { c.data != "" && SizeOk(e, c.size, |c.data|) }

  /** The headers announce the payload. */
  predicate Announced(e: Params, m: Message) {
    var length, coding := LastValue(m.headers, "content-length"), LastValue(m.headers, "transfer-encoding");
    LengthReads(e, m.headers) &&
    match m.payload
    case NoBody => coding.None? && length.None? && m.verb != POST
    case Sized(text) => coding.None? && length.Some? && LengthMeant(e, m.headers) == Some(|text|)
    case Chunked(_, _) => IsChunked(m.headers)
  }

  predicate PayloadOk(e: Params, p: Payload) {
    p.Chunked? ==> (forall c <- p.chunks :: ChunkOk(e, c)) && SizeOk(e, p.last, 0)
  }

  predicate WellFormed(e: Params, m: Message) {
    LineOk(e, m) && (forall h <- m.headers :: HeaderOk(h)) && PayloadOk(e, m.payload) && Announced(e, m)
  }

  /** No header line comes when the limit is passed already; the last one may pass it. */
  predicate HeadersWithin(e: Params, hs: seq<HeaderField>) {
    hs == [] || HeaderLength(hs[..|hs| - 1]) <= e.maxHeader
  }

  /** A multipart body with no closing mark, longer than the mark of an empty boundary. */
  predicate Unclosed(body: string) { |body| > 6 && body[|body| - 6..] != "----\r\n" }

  /** The headers ask for multipart handling. */
  predicate IsMultipart(m: Message) { TypeMeant(m.headers) == Some(MULTIPART) }

  /** The request with everything read out of the message, the bytes `rest` behind it unread. */
  function Received(e: Params, m: Message, rest: string): Request {
    Request(rest, Content, Some(m.verb), m.url, m.version, HeaderMap(m.headers, map[]), HeaderLength(m.headers),
            FieldsMeant(e, m.headers, m.version),
            if m.payload.Chunked? then DONE else NO_LEN, 0, BodyOf(m.payload), map[], map[])
  }

  /** The request the parser should end with. */
  function Understood(e: Params, m: Message, rest: string): Outcome {
    Outcome(Received(e, m, rest).(state := Done), Ok)
  }

  /** What the parser does end with: a message with a body goes through the handler of its type. */
  function Handled(e: Params, m: Message, rest: string): Outcome {
    if m.payload.NoBody? then Understood(e, m, rest)
    else
      var c := HandleContent(Received(e, m, rest));
      if c.ret == Ok then Outcome(c.req.(state := Done), Ok) else c
  }

  // ---------------------------------------------------------------- the request line

  lemma UrlRead(url: string, v: string)
    requires FindChar(url, ' ', 0) < 0
    ensures var tail := url + " " + v;
      FindChar(tail, ' ', 0) == |url| && tail[..|url|] == url && tail[|url| + 1..] == v
  {
    var tail := url + " " + v;
    assert tail[|url|] == ' ';
    assert forall k :: 0 <= k < |url| ==> tail[k] == url[k];
  }

  lemma LineScanned(e: Params, m: Message)
    requires LineOk(e, m)
    ensures ScanLine(e, RenderLine(m)) == LineScan(Some(m.verb), Some(m.url), Some(m.version), Ok)
  {
    hide MethodOf, VersionOf, FindCrlf;
    var tail := m.url + " " + Protocol(m.version);
    var line := RenderLine(m);
    assert line[|Word(m.verb)| + 1..] == tail;
    MethodRead(m.verb, [m.mark] + tail);
    UrlRead(m.url, Protocol(m.version));
    VersionRead(m.version);
  }

  lemma MethodRead(v: HttpMethod, tail: string)
    ensures MethodOf(Word(v) + tail) == Some(v) && Word(v) == MethodText(v)
  {
    var line := Word(v) + tail;
    assert line[..|Word(v)|] == Word(v);
    assert line[0] == Word(v)[0];
    assert v == HEAD ==> line[0] == 'H' && line[..3][0] == 'H' && line[..4][0] == 'H';
    assert v == POST ==> line[0] == 'P' && line[..3][0] == 'P';
  }

  lemma VersionRead(v: HttpVersion)
    ensures VersionOf(Protocol(v)) == Some(v)
  {
    var t := Protocol(v);
    assert t[5] == (if v == HTTP_2_0 then '2' else '1') && t[7] == (if v == HTTP_1_1 then '1' else '0');
    assert "HTTP/1.0"[7] == '0' && "HTTP/1.1"[7] == '1' && "HTTP/2.0"[5] == '2' && "HTTP/1.0"[5] == '1';
  }

  /** Every line that is read is written so. */
  lemma LineSpelled(e: Params, line: string) returns (m: Message)
    requires ScanLine(e, line).ret == Ok && FindCrlf(line) < 0
    ensures m.headers == [] && m.payload == NoBody && LineOk(e, m) && RenderLine(m) == line
    ensures ScanLine(e, line) == LineScan(Some(m.verb), Some(m.url), Some(m.version), Ok)
  {
    hide FindCrlf, FindChar, MethodOf, VersionOf;
    var verb := MethodOf(line).value;
    var n := |MethodText(verb)|;
    var rest := line[n + 1..];
    var pos := FindChar(rest, ' ', 0);
    var v := VersionOf(rest[pos + 1..]).value;
    VersionSpelled(rest[pos + 1..]);
    MethodSpelled(line);
    NoneBefore(rest, ' ', pos);
    Rejoined(line, n);
    SplitAround(rest, pos, " ");
    m := Message(verb, line[n], rest[..pos], v, [], NoBody);
  }

  lemma MethodSpelled(line: string)
    requires MethodOf(line).Some?
    ensures StartsWith(line, Word(MethodOf(line).value))
    ensures Word(MethodOf(line).value) == MethodText(MethodOf(line).value)
  {
  }

  lemma NoneBefore(s: string, c: char, n: nat)
    requires FindChar(s, c, 0) == n
    ensures FindChar(s[..n], c, 0) < 0
  {
    assert forall k :: 0 <= k < n ==> s[..n][k] == s[k];
  }

  lemma Rejoined(s: string, n: nat)
    requires n < |s|
    ensures s == s[..n] + ([s[n]] + s[n + 1..])
  {
  }

  lemma SplitAround(s: string, n: nat, c: string)
    requires n < |s| && c == [s[n]]
    ensures s == s[..n] + c + s[n + 1..]
  {
  }

  lemma VersionSpelled(s: string)
    ensures VersionOf(s).Some? ==> Protocol(VersionOf(s).value) == s
  {
  }

  // ---------------------------------------------------------------- header lines

  lemma HeaderRead(h: HeaderField)
    requires HeaderOk(h)
    ensures HeaderLine(RenderHeader(h)) == Some((h.key, h.value))
  {
    hide FindCrlf, FindChar, FindNotChar, GapOk, RenderHeader;
    var line, k := RenderHeader(h), |h.key|;
    Positions(h);
    ColonRead(h, line);
    GapRead(h, line);
  }

  /** Where the parts of a header line are. */
  lemma Positions(h: HeaderField)
    ensures var line := RenderHeader(h); var from := |h.key| + 1 + |h.gap|;
      |line| == from + |h.value| && line[..|h.key|] == h.key && line[|h.key|] == ':' && line[from..] == h.value
      && (forall i :: 0 <= i < |h.gap| ==> line[|h.key| + 1 + i] == h.gap[i])
      && (forall i :: 0 <= i < |h.value| ==> line[from + i] == h.value[i])
  {
  }

  lemma ColonRead(h: HeaderField, line: string)
    requires FindChar(h.key, ':', 0) < 0 && |h.key| < |line| && line[..|h.key|] == h.key && line[|h.key|] == ':'
    ensures FindChar(line, ':', 0) == |h.key|
  {
    assert forall i :: 0 <= i < |h.key| ==> line[i] == h.key[i];
  }

  lemma GapRead(h: HeaderField, line: string)
    requires GapOk(h.gap, h.value)
    requires var from := |h.key| + 1 + |h.gap|;
      |line| == from + |h.value| && line[|h.key|] == ':'
      && (forall i :: 0 <= i < |h.gap| ==> line[|h.key| + 1 + i] == h.gap[i])
      && (forall i :: 0 <= i < |h.value| ==> line[from + i] == h.value[i])
    ensures var k := |h.key|; var blank := FindChar(line, ' ', k);
      var start := FindNotChar(line, ' ', if blank < 0 then k + 1 else blank);
      start == if h.value == "" then -1 else k + 1 + |h.gap|
  {
    var k, b := |h.key|, FindChar(h.gap, ' ', 0);
    var blank := FindChar(line, ' ', k);
    if b < 0 {
      forall i | k < i < |line|
        ensures line[i] != ' '
      {
        assert line[i] == h.value[i - k - 1];
      }
      var start := FindNotChar(line, ' ', k + 1);
      assert h.value != "" ==> line[k + 1] == h.value[0] != ' ';
    } else {
      assert line[k + 1 + b] == ' ';
      forall i | k < i < k + 1 + b
        ensures line[i] != ' '
      {
        assert line[i] == h.gap[i - k - 1];
      }
      assert blank == k + 1 + b;
      forall i | blank <= i < k + 1 + |h.gap|
        ensures line[i] == ' '
      {
        assert h.gap[i - k - 1] == ' ';
      }
      assert h.value != "" ==> line[k + 1 + |h.gap|] == h.value[0] != ' ';
    }
  }

  /** Every line that is read is written so. */
  lemma HeaderSpelled(line: string) returns (h: HeaderField)
    requires HeaderLine(line).Some? && FindCrlf(line) < 0
    ensures HeaderOk(h) && RenderHeader(h) == line && HeaderLine(line) == Some((h.key, h.value))
  {
    hide FindCrlf, FindChar, GapOk, HeaderLine, HeaderOk, RenderHeader;
    var colon, end := LineParts(line);
    h := HeaderField(line[..colon], line[colon + 1..end], line[end..]);
    NoneBefore(line, ':', colon);
    SplitAround(line, colon, ":");
    assert line[colon + 1..] == h.gap + h.value;
    Assembled(h, line);
  }

  lemma Assembled(h: HeaderField, line: string)
    requires line == h.key + ":" + (h.gap + h.value)
    requires FindCrlf(line) < 0 && FindChar(h.key, ':', 0) < 0 && GapOk(h.gap, h.value)
    ensures HeaderOk(h) && RenderHeader(h) == line
  {
    hide FindCrlf, FindChar, GapOk;
  }

  lemma LineParts(line: string) returns (colon: nat, end: nat)
    requires HeaderLine(line).Some?
    ensures colon + 1 <= end <= |line| && line[colon] == ':' && FindChar(line, ':', 0) == colon
    ensures HeaderLine(line) == Some((line[..colon], line[end..])) && GapOk(line[colon + 1..end], line[end..])
  {
    hide FindChar, FindNotChar, GapOk;
    colon := FindChar(line, ':', 0);
    var blank := FindChar(line, ' ', colon);
    var start := FindNotChar(line, ' ', if blank < 0 then colon + 1 else blank);
    end := if blank < 0 then colon + 1 else if start < 0 then |line| else start;
    GapSpelled(line, colon, blank, start, end);
    assert line[|line|..] == "";
  }

  lemma GapSpelled(line: string, colon: nat, blank: int, start: int, end: nat)
    requires colon < |line| && line[colon] == ':' && blank == FindChar(line, ' ', colon)
    requires start == FindNotChar(line, ' ', if blank < 0 then colon + 1 else blank)
    requires end == if blank < 0 then colon + 1 else if start < 0 then |line| else start
    ensures blank < 0 && start < 0 ==> end == |line|
    ensures start >= 0 ==> start == end
    ensures colon + 1 <= end <= |line| && GapOk(line[colon + 1..end], line[end..])
  {
    var gap, value := line[colon + 1..end], line[end..];
    if blank < 0 {
      assert gap == "";
      assert forall i :: 0 <= i < |value| ==> value[i] == line[end + i];
    } else {
      var b := blank - colon - 1;
      assert blank < end;
      assert gap[b] == line[blank] == ' ';
      assert forall i :: 0 <= i < |gap| ==> gap[i] == line[colon + 1 + i];
      assert FindChar(gap, ' ', 0) == b;
      assert forall i :: b <= i < |gap| ==> gap[i] == ' ';
      assert value != "" ==> value[0] == line[start];
    }
  }

  lemma OneHeaderRead(e: Params, h: HeaderField, more: string, len: nat)
    requires HeaderOk(h) && len <= e.maxHeader
    ensures var buf := RenderHeader(h) + "\r\n" + more; var n := |RenderHeader(h)| + 2;
      NextHeader(e, buf, len) == Field(n, h.key, h.value) && buf[n..] == more
  {
    hide HeaderLine, FindCrlf;
    var line := RenderHeader(h);
    var buf := line + "\r\n" + more;
    HeaderRead(h);
    FindCrlfAfter(line, more);
    assert buf[..|line|] == line;
  }

  lemma HeaderTooLate(e: Params, h: HeaderField, more: string, len: nat)
    requires HeaderOk(h) && len > e.maxHeader
    ensures NextHeader(e, RenderHeader(h) + "\r\n" + more, len) == Leave(0, Bad)
  {
    var line := RenderHeader(h);
    FindCrlfAfter(line, more);
  }

  lemma BlankLineRead(e: Params, rest: string, len: nat)
    ensures NextHeader(e, "\r\n" + rest, len) == Leave(2, Ok) && ("\r\n" + rest)[2..] == rest
  {
  }

  lemma LinesGrouped(hs: seq<HeaderField>, more: string)
    requires hs != []
    ensures Lines(hs) + more == RenderHeader(hs[0]) + "\r\n" + (Lines(hs[1..]) + more)
  {
  }

  lemma WithinTail(e: Params, hs: seq<HeaderField>, len: nat)
    requires hs != []
    ensures HeaderLength(hs[..|hs| - 1]) + len <= e.maxHeader ==> len <= e.maxHeader
    ensures |hs| > 1 ==> hs[1..][..|hs| - 2] == hs[..|hs| - 1][1..]
    ensures |hs| > 1 ==> HeaderLength(hs[..|hs| - 1]) == |hs[0].key| + |hs[0].value| + HeaderLength(hs[1..][..|hs| - 2])
  {
    if |hs| > 1 {
      assert hs[1..][..|hs| - 2] == hs[..|hs| - 1][1..];
    }
  }

  /** Header lines within the limit are read one after the other, up to whatever follows. */
  lemma {:induction false} HeadersRead(e: Params, hs: seq<HeaderField>, more: string, m: map<string, string>, len: nat)
    requires forall h <- hs :: HeaderOk(h)
    requires hs == [] || len + HeaderLength(hs[..|hs| - 1]) <= e.maxHeader
    ensures ScanHeader(e, Lines(hs) + more, m, len) == ScanHeader(e, more, HeaderMap(hs, m), len + HeaderLength(hs))
    decreases |hs|
  {
    hide NextHeader, ScanHeader, RenderHeader, HeaderOk, ToLowers;
    if hs == [] {
      assert "" + more == more;
    } else {
      var h, rest := hs[0], Lines(hs[1..]) + more;
      var buf := Lines(hs) + more;
      LinesGrouped(hs, more);
      WithinTail(e, hs, len);
      OneHeaderRead(e, h, rest, len);
      HeaderGoes(e, buf, m, len);
      HeadersRead(e, hs[1..], more, m[ToLowers(h.key) := h.value], len + |h.key| + |h.value|);
    }
  }

  /** A line that comes when the limit is passed is refused. */
  lemma {:induction false} HeadersRefused(e: Params, hs: seq<HeaderField>, more: string,
                                          m: map<string, string>, len: nat)
    requires hs != [] && (forall h <- hs :: HeaderOk(h))
    requires len + HeaderLength(hs[..|hs| - 1]) > e.maxHeader
    ensures ScanHeader(e, Lines(hs) + more, m, len).ret == Bad
    decreases |hs|
  {
    hide NextHeader, ScanHeader, RenderHeader, HeaderOk, ToLowers;
    var h, rest := hs[0], Lines(hs[1..]) + more;
    var buf := Lines(hs) + more;
    LinesGrouped(hs, more);
    WithinTail(e, hs, len);
    if len > e.maxHeader {
      HeaderTooLate(e, h, rest, len);
      HeaderLeaves(e, buf, m, len);
    } else {
      OneHeaderRead(e, h, rest, len);
      HeaderGoes(e, buf, m, len);
      HeadersRefused(e, hs[1..], more, m[ToLowers(h.key) := h.value], len + |h.key| + |h.value|);
    }
  }

  /** Whatever the header loop reads is written so: header lines, and the blank line if it returns OK. */
  lemma {:induction false} HeadersSpelled(e: Params, buf: string, m: map<string, string>, len: nat)
    returns (hs: seq<HeaderField>)
    ensures forall h <- hs :: HeaderOk(h)
    ensures hs == [] || len + HeaderLength(hs[..|hs| - 1]) <= e.maxHeader
    ensures var s := ScanHeader(e, buf, m, len);
      && buf == Lines(hs) + (if s.ret == Ok then "\r\n" + s.buf else s.buf)
      && s.header == HeaderMap(hs, m) && s.len == len + HeaderLength(hs)
    decreases |buf|
  {
    hide NextHeader, ScanHeader, HeaderOk, RenderHeader, ToLowers;
    match NextHeader(e, buf, len)
    case Leave(n, ret) =>
      HeaderLeaves(e, buf, m, len);
      LeftAt(e, buf, len);
      hs := [];
    case Field(n, key, value) =>
      HeaderGoes(e, buf, m, len);
      var h := FieldSpelled(e, buf, len);
      var tail := HeadersSpelled(e, buf[n..], m[ToLowers(key) := value], len + |key| + |value|);
      hs := [h] + tail;
      SpelledOnto(h, tail);
      WithinTail(e, hs, len);
      FewerLengths(h, tail);
  }

  lemma FewerLengths(h: HeaderField, tail: seq<HeaderField>)
    ensures var hs := [h] + tail;
      HeaderLength(hs) == |h.key| + |h.value| + HeaderLength(tail) && (tail == [] ==> HeaderLength(hs[..|hs| - 1]) == 0)
  {
  }

  lemma LeftAt(e: Params, buf: string, len: nat)
    requires NextHeader(e, buf, len).Leave?
    ensures NextHeader(e, buf, len).ret == Ok ==> NextHeader(e, buf, len).drop == 2 && buf == "\r\n" + buf[2..]
    ensures NextHeader(e, buf, len).ret != Ok ==> NextHeader(e, buf, len).drop == 0
    ensures "" + buf == buf
  {
  }

  lemma FieldSpelled(e: Params, buf: string, len: nat) returns (h: HeaderField)
    requires NextHeader(e, buf, len).Field?
    ensures var step := NextHeader(e, buf, len);
      HeaderOk(h) && h.key == step.key && h.value == step.value && len <= e.maxHeader
      && buf == RenderHeader(h) + "\r\n" + buf[step.drop..]
  {
    hide FindCrlf, HeaderLine;
    var crlf := FindCrlf(buf);
    FirstLine(buf, crlf);
    h := HeaderSpelled(buf[..crlf]);
    assert buf == buf[..crlf] + "\r\n" + buf[crlf + 2..];
  }

  lemma SpelledOnto(h: HeaderField, tail: seq<HeaderField>)
    ensures var hs := [h] + tail;
      hs != [] && hs[0] == h && hs[1..] == tail && Lines(hs) == RenderHeader(h) + "\r\n" + Lines(tail)
  {
  }

  lemma FirstLine(buf: string, crlf: nat)
    requires FindCrlf(buf) == crlf
    ensures FindCrlf(buf[..crlf]) < 0
  {
    assert forall k :: CrlfAt(buf[..crlf], k) ==> CrlfAt(buf, k) && k < crlf;
  }

  lemma {:induction false} HeaderLengthBound(hs: seq<HeaderField>)
    ensures HeaderLength(hs) <= |Lines(hs)|
  {
    if hs != [] {
      HeaderLengthBound(hs[1..]);
    }
  }

  lemma {:induction false} FewerHeaders(hs: seq<HeaderField>)
    ensures hs != [] ==> HeaderLength(hs[..|hs| - 1]) <= HeaderLength(hs)
  {
    if |hs| > 1 {
      FewerHeaders(hs[1..]);
      assert hs[1..][..|hs| - 2] == hs[..|hs| - 1][1..];
    }
  }

  // ---------------------------------------------------------------- chunks

  lemma NoCrlfInDigits(s: string)
    requires Util.AllXDigits(s)
    ensures FindCrlf(s) < 0
  {
    forall k | 0 <= k < |s|
      ensures s[k] != '\r'
    {
      assert s[k] in s;
    }
  }

  lemma SizeRead(e: Params, digits: string, rest: string)
    requires |digits| <= e.chunkDigits && Util.AllXDigits(digits)
    ensures var buf := digits + "\r\n" + rest;
      SizeEnd(buf, e.chunkDigits + 2) == |digits| && buf[..|digits|] == digits && buf[|digits| + 2..] == rest
  {
    hide FindCrlf;
    var buf := digits + "\r\n" + rest;
    var n := e.chunkDigits + 2;
    var window := if |buf| < n then buf else buf[..n];
    NoCrlfInDigits(digits);
    assert window == digits + "\r\n" + window[|digits| + 2..];
    FindCrlfAfter(digits, window[|digits| + 2..]);
  }

  lemma ChunkSizeRead(e: Params, c: Chunk, data: string, size: int, body: string)
    requires ChunkOk(e, c)
    ensures NextChunk(e, Chunks(c.size + "\r\n" + data, NO_LEN, size, body))
      == Goes(Chunks(data, NO_DATA, |c.data|, body))
  {
    hide Util.HexString2Int, SizeEnd;
    SizeRead(e, c.size, data);
  }

  lemma ChunkDataRead(e: Params, data: string, more: string, body: string)
    requires data != ""
    ensures NextChunk(e, Chunks(data + "\r\n" + more, NO_DATA, |data|, body))
      == Goes(Chunks(more, NO_LEN, |data|, body + data))
  {
    hide Util.HexString2Int, SizeEnd;
    var buf := data + "\r\n" + more;
    assert CrlfAt(buf, |data|) && buf[..|data|] == data && buf[|data| + 2..] == more;
  }

  lemma LastChunkRead(e: Params, last: string, rest: string, size: int, body: string)
    requires SizeOk(e, last, 0)
    ensures ScanChunks(e, Chunks(last + "\r\n" + ("\r\n" + rest), NO_LEN, size, body))
      == (Chunks(rest, DONE, 0, body), Ok)
  {
    hide Util.HexString2Int, SizeEnd;
    var end := "\r\n" + rest;
    SizeRead(e, last, end);
    assert CrlfAt(end, 0) && end[2..] == rest;
    assert NextChunk(e, Chunks(last + "\r\n" + end, NO_LEN, size, body)) == Goes(Chunks(end, DONE, 0, body));
    assert NextChunk(e, Chunks(end, DONE, 0, body)) == Stops(Chunks(rest, DONE, 0, body), Ok);
  }

  /** Chunks decode to their data, and what follows them stays unread. */
  lemma {:induction false} ChunksRead(e: Params, chunks: seq<Chunk>, last: string, rest: string,
                                      size: int, body: string)
    requires (forall c <- chunks :: ChunkOk(e, c)) && SizeOk(e, last, 0)
    ensures ScanChunks(e, Chunks(RenderChunks(chunks, last) + rest, NO_LEN, size, body))
      == (Chunks(rest, DONE, 0, body + Data(chunks)), Ok)
    decreases |chunks|
  {
    hide NextChunk, SizeOk;
    var buf := RenderChunks(chunks, last) + rest;
    if chunks == [] {
      assert buf == last + "\r\n" + ("\r\n" + rest);
      LastChunkRead(e, last, rest, size, body);
      assert body + Data(chunks) == body;
    } else {
      var c := chunks[0];
      var more := RenderChunks(chunks[1..], last) + rest;
      assert buf == c.size + "\r\n" + (c.data + "\r\n" + more);
      ChunkSizeRead(e, c, c.data + "\r\n" + more, size, body);
      ChunkDataRead(e, c.data, more, body);
      ChunksRead(e, chunks[1..], last, rest, |c.data|, body + c.data);
      assert body + Data(chunks) == body + c.data + Data(chunks[1..]);
    }
  }

  /** The test generator's form of a chunked body (haha_web/http/HttpTest.cpp:163-190). */
  function Generated(radix: nat, texts: seq<string>): seq<Chunk>
    requires 2 <= radix <= 16
  {
    if texts == [] then [] else [Chunk(Util.Int2Hex(radix, |texts[0]|), texts[0])] + Generated(radix, texts[1..])
  }

  /** The chunks it writes are well-formed, as long as their sizes have digits enough. */
  lemma {:induction false} GeneratedOk(e: Params, texts: seq<string>)
    requires 2 <= e.radix <= 16 && e.chunkDigits >= 1
    requires forall t <- texts :: 0 < |t| <= Util.INT_MAX && |Util.Int2Hex(e.radix, |t|)| <= e.chunkDigits
    ensures PayloadOk(e, Chunked(Generated(e.radix, texts), "0")) && Data(Generated(e.radix, texts)) == Concat(texts)
  {
    hide Util.Int2Hex;
    assert Util.HexString2Int(e.radix, "0") == 0 by { assert "0"[1..] == ""; }
    if texts != [] {
      var t := texts[0];
      GeneratedOk(e, texts[1..]);
      Util.HexDigits(e.radix, |t|);
      Util.HexRoundTrip(e.radix, |t|);
      assert ChunkOk(e, Chunk(Util.Int2Hex(e.radix, |t|), t));
    }
  }

  lemma {:induction false} DigitsOnly(radix: nat, acc: int, s: string)
    requires Util.HexFrom(radix, acc, s) >= 0
    ensures Util.AllXDigits(s)
    decreases |s|
  {
    if s != "" {
      DigitsOnly(radix, Util.Wrap32(acc * radix + Util.Hex2Dec(s[0])), s[1..]);
      assert s == [s[0]] + s[1..];
    }
  }

  /** One chunk, or the last size, as the decoder reads it. */
  lemma ChunkSpelled(e: Params, c: Chunks) returns (size: string, more: string)
    requires c.Valid() && c.state == NO_LEN && NextChunk(e, c).Goes?
    ensures var d := NextChunk(e, c).next;
      c.buf == size + "\r\n" + more && d.buf == more && d.body == c.body && d.size >= 0
      && SizeOk(e, size, d.size) && d.state == if d.size == 0 then DONE else NO_DATA
  {
    hide FindCrlf, SizeEnd, Util.HexFrom, Util.AllXDigits;
    var pos := SizeEnd(c.buf, e.chunkDigits + 2);
    size, more := c.buf[..pos], c.buf[pos + 2..];
    SizeSpelled(c.buf, e.chunkDigits + 2);
    DigitsOnly(e.radix, 0, size);
  }

  lemma SizeSpelled(s: string, n: nat)
    requires SizeEnd(s, n) >= 0
    ensures var pos := SizeEnd(s, n); s == s[..pos] + "\r\n" + s[pos + 2..]
  {
    var pos := SizeEnd(s, n);
    assert CrlfAt(s, pos);
  }

  lemma DataSpelled(e: Params, c: Chunks) returns (more: string)
    requires c.Valid() && c.state == NO_DATA && NextChunk(e, c).Goes?
    ensures c.size > 0 && c.size + 2 <= |c.buf| && c.buf == c.buf[..c.size] + "\r\n" + more
    ensures NextChunk(e, c).next == Chunks(more, NO_LEN, c.size, c.body + c.buf[..c.size])
  {
    more := c.buf[c.size + 2..];
  }

  /** Every body that is decoded is written so. */
  lemma {:induction false} ChunksSpelled(e: Params, c: Chunks) returns (chunks: seq<Chunk>, last: string)
    requires c.Valid() && c.state == NO_LEN && ScanChunks(e, c).1 == Ok
    ensures PayloadOk(e, Chunked(chunks, last))
    ensures var d := ScanChunks(e, c).0;
      c.buf == RenderChunks(chunks, last) + d.buf && d == Chunks(d.buf, DONE, 0, c.body + Data(chunks))
    decreases |c.buf|
  {
    hide NextChunk, SizeOk;
    StopsShort(e, c);
    var d := NextChunk(e, c).next;
    var size, more := ChunkSpelled(e, c);
    if d.size == 0 {
      EndSpelled(e, d);
      chunks, last := [], size;
      assert c.body + "" == c.body;
    } else {
      StopsShort(e, d);
      var next := NextChunk(e, d).next;
      var more' := DataSpelled(e, d);
      var tail;
      tail, last := ChunksSpelled(e, next);
      var chunk := Chunk(size, d.buf[..d.size]);
      chunks := [chunk] + tail;
      OneMoreChunk(chunk, tail, last, ScanChunks(e, c).0.buf, c.body);
    }
  }

  lemma OneMoreChunk(c: Chunk, tail: seq<Chunk>, last: string, rest: string, body: string)
    ensures var chunks := [c] + tail; var more := RenderChunks(tail, last) + rest;
      RenderChunks(chunks, last) + rest == c.size + "\r\n" + (c.data + "\r\n" + more)
      && body + Data(chunks) == body + c.data + Data(tail)
  {
  }

  /** Before its last state the decoder does not stop with OK. */
  lemma StopsShort(e: Params, c: Chunks)
    requires c.Valid() && c.state != DONE && ScanChunks(e, c).1 == Ok
    ensures NextChunk(e, c).Goes? && ScanChunks(e, c) == ScanChunks(e, NextChunk(e, c).next)
  {
    hide Util.HexString2Int, SizeEnd;
  }

  lemma EndSpelled(e: Params, d: Chunks)
    requires d.Valid() && d.state == DONE && ScanChunks(e, d).1 == Ok
    ensures |d.buf| >= 2 && d.buf == "\r\n" + d.buf[2..] && ScanChunks(e, d).0 == d.(buf := d.buf[2..])
  {
    assert NextChunk(e, d).Stops?;
  }

  // ---------------------------------------------------------------- whole requests

  lemma LineParsed(e: Params, m: Message, tail: string)
    requires LineOk(e, m) && |RenderLine(m) + "\r\n" + tail| <= e.maxLine
    ensures ParseLine(e, Fresh(RenderLine(m) + "\r\n" + tail)) ==
      Outcome(Fresh(tail).(verb := Some(m.verb), url := m.url, version := m.version), Ok)
  {
    hide ScanLine, FindCrlf, RenderLine;
    var line := RenderLine(m);
    var buf := line + "\r\n" + tail;
    LineScanned(e, m);
    FindCrlfAfter(line, tail);
    assert buf[..|line|] == line && buf[|line| + 2..] == tail;
  }

  lemma ContentParsed(e: Params, m: Message, r: Request, rest: string)
    requires PayloadOk(e, m.payload) && Announced(e, m)
    requires r.buf == RenderPayload(m.payload) + rest
    requires r.(buf := rest, body := BodyOf(m.payload), chunkState := if m.payload.Chunked? then DONE else NO_LEN)
          == Received(e, m, rest)
    requires r.body == "" && r.chunkState == NO_LEN
    ensures ParseContent(e, r) ==
      if m.payload.NoBody? then Outcome(Received(e, m, rest), Ok) else HandleContent(Received(e, m, rest))
  {
    hide LastValue, TypeMeant, KeepsAlive, ScanChunks, RenderChunks, SizeOk, ChunkOk, HandleContent;
    match m.payload
    case NoBody => assert "" + rest == rest;
    case Sized(text) =>
      assert r.buf[..|text|] == text && r.buf[|text|..] == rest && "" + text == text;
    case Chunked(chunks, last) =>
      ChunksRead(e, chunks, last, rest, 0, "");
      assert "" + Data(chunks) == Data(chunks);
  }

  /** The state behind the request line. */
  function LineDone(m: Message, buf: string): Request {
    Fresh(buf).(verb := Some(m.verb), url := m.url, version := m.version, state := Header)
  }

  /** The state in front of the body. */
  function HeaderDone(e: Params, m: Message, buf: string): Request {
    Received(e, m, buf).(chunkState := NO_LEN, body := "")
  }

  lemma HeadParsed(e: Params, m: Message, tail: string)
    requires LineOk(e, m) && (forall h <- m.headers :: HeaderOk(h)) && |Head(m) + tail| <= e.maxLine
    ensures ParseRequest(e, Fresh(Head(m) + tail))
         == FromHeader(e, LineDone(m, Lines(m.headers) + ("\r\n" + tail)))
  {
    hide ParseLine, ParseHeader, ParseContent, RenderLine, Lines;
    var more := Lines(m.headers) + ("\r\n" + tail);
    assert Head(m) + tail == RenderLine(m) + "\r\n" + more;
    LineParsed(e, m, more);
  }

  lemma HeaderParsed(e: Params, m: Message, tail: string)
    requires (forall h <- m.headers :: HeaderOk(h)) && HeadersWithin(e, m.headers)
    requires LengthReads(e, m.headers)
    ensures FromHeader(e, LineDone(m, Lines(m.headers) + ("\r\n" + tail))) == FromContent(e, HeaderDone(e, m, tail))
  {
    hide ReadFields, ScanHeader, ParseContent, HeaderMap, HeaderLength, Lines, HeaderOk, FieldsMeant, LengthReads;
    FieldsRead(e, m.headers, m.version);
    HeadersRead(e, m.headers, "\r\n" + tail, map[], 0);
    BlankLineRead(e, tail, HeaderLength(m.headers));
    HeaderLeaves(e, "\r\n" + tail, HeaderMap(m.headers, map[]), HeaderLength(m.headers));
  }

  /** A well-formed request, fed whole, is read to its end and handed to the handler of its content
      type; nothing behind it is touched. */
  lemma RequestRead(e: Params, m: Message, rest: string)
    requires WellFormed(e, m) && HeadersWithin(e, m.headers) && |Render(m) + rest| <= e.maxLine
    ensures ParseRequest(e, Fresh(Render(m) + rest)) == Handled(e, m, rest)
  {
    hide ParseRequest, FromHeader, ParseContent, FieldsMeant, HandleContent, LineOk, HeaderOk, PayloadOk, HeadersWithin;
    hide LengthReads, LastValue, IsChunked, LengthMeant;
    hide RenderLine, RenderPayload, HeaderMap, HeaderLength, Head, Lines;
    var tail := RenderPayload(m.payload) + rest;
    assert Render(m) + rest == Head(m) + tail;
    HeadParsed(e, m, tail);
    HeaderParsed(e, m, tail);
    ContentParsed(e, m, HeaderDone(e, m, tail), rest);
  }

  // ---------------------------------------------------------------- whatever is read is written so

  /** The parse came to the end of the body: it is accepted, or it is with the handler of its type. */
  predicate Complete(o: Outcome) { o.ret == Ok || o.ret == Hangs || Stuck(o) }

  lemma ContentSpelled(e: Params, r: Request) returns (p: Payload, rest: string)
    requires BodyFits(r) && r.state == Content && r.body == "" && r.chunkState == NO_LEN && r.chunkSize == 0
    requires r.verb.Some? && Complete(ParseContent(e, r))
    ensures PayloadOk(e, p) && r.buf == RenderPayload(p) + rest
    ensures match p
      case NoBody => !r.fields.hasTransferEncoding && !r.fields.hasContentLength && r.verb != Some(POST)
      case Sized(text) =>
        !r.fields.hasTransferEncoding && r.fields.hasContentLength && r.fields.contentLength == |text|
      case Chunked(_, _) => r.fields.hasTransferEncoding && r.fields.chunked
    ensures var read := r.(buf := rest, body := BodyOf(p), chunkState := if p.Chunked? then DONE else NO_LEN);
      ParseContent(e, r) == if p.NoBody? then Outcome(read, Ok) else HandleContent(read)
  {
    hide ScanChunks, HandleContent, PayloadOk;
    if r.fields.hasTransferEncoding {
      var (d, ret) := ScanChunks(e, ChunksOf(r));
      AgainWantsMore(e, ChunksOf(r));
      OnlyOkComplete(e, r);
      var chunks, last := ChunksSpelled(e, ChunksOf(r));
      p, rest := Chunked(chunks, last), d.buf;
      assert "" + Data(chunks) == Data(chunks);
    } else if r.fields.hasContentLength {
      var n := r.fields.contentLength;
      p, rest := Sized(r.buf[..n]), r.buf[n..];
      assert "" + r.buf[..n] == r.buf[..n] && r.buf == r.buf[..n] + r.buf[n..];
      assert PayloadOk(e, p) by { NoChunks(e, p); }
    } else {
      p, rest := NoBody, r.buf;
      assert "" + rest == rest;
      assert PayloadOk(e, p) by { NoChunks(e, p); }
    }
  }

  lemma NoChunks(e: Params, p: Payload)
    requires !p.Chunked?
    ensures PayloadOk(e, p)
  {
  }

  lemma OnlyOkComplete(e: Params, r: Request)
    requires ChunksOf(r).Valid() && r.state == Content && r.fields.hasTransferEncoding && r.chunkState == NO_LEN
    requires Complete(ParseContent(e, r))
    ensures r.fields.chunked && ScanChunks(e, ChunksOf(r)).1 == Ok
  {
    hide ScanChunks, HandleContent;
    AgainWantsMore(e, ChunksOf(r));
    NeverHangs(e, ChunksOf(r));
  }

  lemma {:induction false} NeverHangs(e: Params, c: Chunks)
    requires c.Valid()
    ensures ScanChunks(e, c).1 in {Ok, Again, Bad}
    decreases |c.buf|
  {
    match NextChunk(e, c)
    case Goes(d) => NeverHangs(e, d);
    case Stops(d, ret) =>
  }

  lemma LineStageSpelled(e: Params, s: string) returns (m: Message, tail: string)
    requires ParseLine(e, Fresh(s)).ret == Ok
    ensures m.headers == [] && m.payload == NoBody && LineOk(e, m) && s == RenderLine(m) + "\r\n" + tail
    ensures ParseLine(e, Fresh(s)).req.(state := Header) == LineDone(m, tail)
  {
    hide ScanLine, LineOk, RenderLine;
    var end := FindCrlf(s);
    FirstLine(s, end);
    m := LineSpelled(e, s[..end]);
    tail := s[end + 2..];
    assert s == s[..end] + "\r\n" + tail;
  }

  lemma HeaderStageSpelled(e: Params, m: Message, tail: string) returns (hs: seq<HeaderField>, buf: string)
    requires ParseHeader(e, LineDone(m, tail)).ret == Ok
    ensures (forall h <- hs :: HeaderOk(h)) && HeadersWithin(e, hs) && tail == Lines(hs) + ("\r\n" + buf)
    ensures var m' := m.(headers := hs, payload := NoBody);
      ParseHeader(e, LineDone(m, tail)).req.(state := Content) == HeaderDone(e, m', buf)
      && LengthReads(e, hs)
  {
    hide ScanHeader, ReadFields, HeaderMap, HeaderLength, Lines, HeaderOk, FieldsMeant, LengthReads;
    hs := HeadersSpelled(e, tail, map[], 0);
    FieldsRead(e, hs, m.version);
    buf := ScanHeader(e, tail, map[], 0).buf;
  }

  lemma StagesComplete(e: Params, s: string)
    requires Complete(ParseRequest(e, Fresh(s)))
    ensures ParseLine(e, Fresh(s)).ret == Ok && Valid(ParseLine(e, Fresh(s)).req.(state := Header))
    ensures var h := ParseHeader(e, ParseLine(e, Fresh(s)).req.(state := Header)); var r := h.req.(state := Content);
      h.ret == Ok && BodyFits(r) && ParseRequest(e, Fresh(s)) == FromContent(e, r) && Complete(ParseContent(e, r))
  {
    hide ScanLine, ReadFields, ScanHeader, ParseContent;
    HeaderLoopEnds(e, ParseLine(e, Fresh(s)).req.buf, map[], 0);
    LineEnds(e, s);
  }

  lemma LineEnds(e: Params, s: string)
    ensures ParseLine(e, Fresh(s)).ret != Hangs
  {
  }

  lemma {:induction false} HeaderLoopEnds(e: Params, buf: string, m: map<string, string>, len: nat)
    ensures ScanHeader(e, buf, m, len).ret in {Ok, Again, Bad}
    decreases |buf|
  {
    hide ScanHeader, ToLowers;
    match NextHeader(e, buf, len)
    case Leave(n, ret) => HeaderLeaves(e, buf, m, len);
    case Field(n, key, value) =>
      HeaderGoes(e, buf, m, len);
      HeaderLoopEnds(e, buf[n..], m[ToLowers(key) := value], len + |key| + |value|);
  }

  /** Every stream the parser reads to the end of a body begins with a well-formed request. */
  lemma RequestSpelled(e: Params, s: string) returns (m: Message, rest: string)
    requires |s| <= e.maxLine && Complete(ParseRequest(e, Fresh(s)))
    ensures WellFormed(e, m) && HeadersWithin(e, m.headers) && s == Render(m) + rest
    ensures ParseRequest(e, Fresh(s)) == Handled(e, m, rest)
  {
    StagesComplete(e, s);
    hide *;
    var m0, tail := LineStageSpelled(e, s);
    var hs, buf := HeaderStageSpelled(e, m0, tail);
    var m1 := m0.(headers := hs, payload := NoBody);
    m, rest := BodyStageSpelled(e, m1, buf);
    SameLine(e, m0, m);
    Reassembled(m, rest, tail);
    WellFormedIs(e, m);
    RequestRead(e, m, rest);
  }

  lemma BodyStageSpelled(e: Params, m: Message, buf: string) returns (m': Message, rest: string)
    requires LengthReads(e, m.headers) && BodyFits(HeaderDone(e, m, buf))
    requires Complete(ParseContent(e, HeaderDone(e, m, buf)))
    ensures m' == m.(payload := m'.payload) && PayloadOk(e, m'.payload) && Announced(e, m')
    ensures buf == RenderPayload(m'.payload) + rest
  {
    hide ParseContent, PayloadOk, HeaderMap, HeaderLength, RenderPayload, HandleContent, BodyOf, Complete;
    hide LastValue, TypeMeant, KeepsAlive;
    var p;
    p, rest := ContentSpelled(e, HeaderDone(e, m, buf));
    m' := m.(payload := p);
  }

  lemma WellFormedIs(e: Params, m: Message)
    ensures WellFormed(e, m) <==>
      LineOk(e, m) && (forall h <- m.headers :: HeaderOk(h)) && PayloadOk(e, m.payload) && Announced(e, m)
  {
  }

  lemma SameLine(e: Params, m: Message, m': Message)
    requires m' == m.(headers := m'.headers, payload := m'.payload)
    ensures RenderLine(m') == RenderLine(m) && LineOk(e, m') == LineOk(e, m)
  {
  }

  lemma Reassembled(m: Message, rest: string, tail: string)
    requires tail == Lines(m.headers) + ("\r\n" + (RenderPayload(m.payload) + rest))
    ensures RenderLine(m) + "\r\n" + tail == Render(m) + rest
  {
  }

  /** The stream begins with the well-formed request m, with `rest` behind it. */
  predicate Written(e: Params, s: string, m: Message, rest: string) {
    WellFormed(e, m) && HeadersWithin(e, m.headers) && s == Render(m) + rest
  }

  /** The grammar is exact: the parser accepts a stream, or hands its body to a handler that never
      returns, if and only if the stream begins with a well-formed request that ends so. */
  lemma AcceptedIff(e: Params, s: string, ret: RetState)
    requires |s| <= e.maxLine && ret in {Ok, Hangs}
    ensures ParseRequest(e, Fresh(s)).ret == ret
       <==> exists m, rest :: Written(e, s, m, rest) && Handled(e, m, rest).ret == ret
  {
    hide ParseRequest, WellFormed, HeadersWithin, Render, Handled;
    if ParseRequest(e, Fresh(s)).ret == ret {
      var m, rest := RequestSpelled(e, s);
      assert Written(e, s, m, rest);
    }
    forall m, rest | Written(e, s, m, rest)
      ensures ParseRequest(e, Fresh(s)) == Handled(e, m, rest)
    {
      RequestRead(e, m, rest);
    }
  }
}
