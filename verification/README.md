# haha_web, modelled and proved

haha_web is an event-driven HTTP server in C++ with its own JSON library and asynchronous logger. This
project models its cores in Dafny and proves what they are relied on for. Each core that the server
writes as a loop over mutable fields is a class or a method here, proved equal to a function over
values; the laws are then proved about that function, for all inputs or all runs.

| files | what they model |
|---|---|
| `HttpModel`, `HttpParser`, `HttpFields`, `HttpGrammar`, `HttpAnswers`, `HttpResume`, `HttpRefusal`, `HttpLong`, `HttpSplit`, `HttpRoundTrip` | the resumable request parser; what header lines mean; the grammar of what it accepts, in every spelling, and what it answers to anything else; what cutting a stream into pieces can change, at any length, and what parsing on after a refusal can; requests written out, cut up and read back, chunked and multipart ones included |
| `JsonValue`, `JsonModel`, `JsonParser`, `JsonStrings`, `JsonGrammar`, `JsonLayout`, `JsonRoundTrip`, `JsonUnicode`, `Bits` | the JSON printer and parser; the grammar of all texts the parser accepts and what they mean; what the layouts look like; the round trip; escaped Unicode with its bit operations |
| `LogModel`, `LogAppender`, `LogStream` | the double-buffered log appender: producers, and one flusher that swaps, drops, writes and recycles; the small buffer a line is formatted in, and its decimal numbers |
| `TimerHeap`, `TimerQueue`, `ServerModel`, `TcpServer` | the timer heap and its drain; connections, reused descriptors and their timers, first as steps over maps and then as handlers over one real heap a loop |
| `EventLoop`, `EventLoopMethods` | the hand-off of tasks to a loop and its wakeup, as steps of all threads and as the methods, with other threads at work in between |
| `MultiPart`, `HttpMultiPart` | the multipart/form-data machine and bodies written for it |
| `SendPath`, `Buffer`, `Os` | sending over a socket that takes what it likes; the growable byte buffer |
| `Kmp`, `Util`, `Digits`, `UrlCode`, `ConfigIndex`, `Text` | KMP search, chunk sizes, digits and the numbers they write, percent-encoding, the dotted-key index, byte strings |

A byte is a Dafny `char`. Numeric limits (2048, 8192, 5 digits, radix 10, 25 buffers, 4000*1000 bytes) are
parameters, so the theorems hold for any; the multipart buffer is the constant 4096. `std::stoul`, the
URL parser, `std::stod` away from literals of 32-bit integers and the printing of doubles are
uninterpreted functions; what a system call answers is arbitrary, and every
call is logged with what was offered and what was answered. An exception out of `std::stoul`, a `remove_prefix`
beyond the end of a line and a parse that never ends are outcomes of their own (`Raised`, `Undefined`, `Hangs`).

## What does not hold, and exactly when

- A stream may be cut anywhere with the same outcome exactly if it is no longer than the line limit and
  does not begin with a chunked multipart request, in whatever spelling, whose body is left waiting with
  two bytes behind it (the next call takes them for its last line end); or if it is longer and no usable
  line comes within the limit of haha_web/http/HttpRequest.cpp:62, which measures the whole buffer
  (`HttpSplit.SplitIndependentIffSafe`, `HttpSplit.StreamSafeIff`). `HttpRoundTrip.MessageSafeIff` says
  the same of requests written out, with a stream of each unsafe kind.
- A request of any length that is not multipart is understood exactly if its line comes in time, no header
  line comes after the header limit is passed, and no piece ends between the CR and the LF of the blank
  line when the last header line passes it (`HttpRoundTrip.AnyDivisionUnderstood`).
- At such a cut parsing on after the refusal, as the driver in tests/test_httpRequest.cc does, reads the blank line
  after all. So it differs from stopping there exactly for these streams and cuts
  (`HttpLong.FeedAllIsFeedIff`), and it is not disturbed by any cut (`HttpLong.AllLongStreams`);
  `HttpLong.CutPiecesDiffer` is such a stream, whatever the limits.
- Nothing sets the boundary of a multipart body inside `HttpRequest`, so it looks for one that is empty. A
  body longer than six bytes waits until it ends in four dashes and a line end. Of the others the parse is
  over at once for the empty body, two dashes, two dashes and a line end, and whatever begins with four
  dashes; it goes on to a first part for two dashes, a line end and a disposition line; and it never ends
  on any other (`HttpRoundTrip.MultipartEnds`).
- Chunk sizes are read in radix 10, where section 7.1 of RFC 9112 has 16. `Util.RadixTenAgreesIff` says
  for which texts the readings agree.
- The JSON parser does not read what section 2 of RFC 8259 says but exactly the texts of a grammar of its own
  (`JsonGrammar.ParsedIff`). It takes any byte up to 32 or from 128 on between tokens, a comma at once before
  a closing bracket, `\0` and `\x`, four bytes that are no digits behind a `\u` (as zero), and any text behind the
  value; of two members of one key the first counts. It refuses `\"`, `\/` and blanks between the brackets of an
  empty array or object.
- Printing a JSON value and parsing the text gives it back exactly when no string or key has a double
  quote, because the parser has no case for `\"` (`JsonRoundTrip.RoundTripIff`).
- `TimerHeap.adjust` only sifts down: the heap stays in order exactly when the new expiry is not before
  the parent's (`TimerHeap.Heap.AdjustTimer`); `TimerHeap.AdjustOutOfOrder` makes one that is not. The
  server only postpones (`ServerModel.AdjustOnlyPostpones`), so its heaps stay in order.
- The assertions in the log flush hold in every run exactly when a flush may keep two buffers or more
  (`LogModel.FlushAssertionsHoldIff`).
- A log line loses every piece that does not fit into what is left of its 4000-byte buffer, without a
  trace (`LogStream.WholeIffRoom`). Once formatted it is never refused (`LogStream.NoLineRefused`).
- `TcpConnection::send` reports an error for a partial write on a blocking socket and when there is
  nothing to send; its byte count leaves out the buffer once the file has been tried.
- Of the parts of a multipart body all are found again exactly when no two of one kind and name differ
  (`MultiPart.RoundTripIff`), and all files are kept exactly when no two have one name
  (`MultiPart.AllFilesKeptIff`).
- On a malformed body the multipart parser goes round for ever exactly when it comes to one of the guards
  of `MultiPart.BadSpot` (`MultiPart.StuckIffBadSpot`).
- The configuration index answers every path with its own node exactly when no two paths to different
  nodes have one dotted form, and none has an empty one (`ConfigIndex.IndexRightIff`). Keys that are
  neither empty nor dotted are enough (`ConfigIndex.CleanIsUnambiguous`) and not necessary
  (`ConfigIndex.DottedKeyAlone`).

## Model

| member | source | states |
|---|---|---|
| `HttpSplit.SplitIndependentIffSafe` | haha_web/http/HttpRequest.cpp:27-248 | for every stream: all divisions into pieces give the outcome of the whole (result, every field, unread bytes) if and only if the stream is safe |
| `HttpSplit.StreamSafeIff` | haha_web/http/HttpRequest.cpp:60-248 | every stream is safe if and only if it does not begin with a request left waiting, or, beyond the line limit, with an early usable line |
| `HttpSplit.SplitIndependence` | haha_web/http/HttpRequest.cpp:27-248 | every division of a safe stream ends as the whole does, down to the last field and the bytes not consumed |
| `HttpSplit.UnsafeDivision` | haha_web/http/HttpRequest.cpp:27-248 | for every stream that is not safe, a division that ends differently |
| `HttpSplit.FeedTooLong` | haha_web/http/HttpRequest.cpp:62-64 | beyond the line limit, without an early usable line, every division is refused with nothing read |
| `HttpSplit.UnpartedIsSafe` | haha_web/http/HttpRequest.cpp:225-247 | within the line limit a stream with no header line that announces multipart content may be cut anywhere |
| `HttpSplit.LongUnpartedStreams` | haha_web/http/HttpRequest.cpp:27-248 | two divisions of a stream of any length that is not multipart agree, if both bring its line in time and neither cuts the blank line of an overlong head |
| `HttpResume.Resume` | haha_web/http/HttpRequest.cpp:27-58 | in every state of the machine, parsing p and q together is parsing p and, if that answers AGAIN or was refused in the middle of a blank line, resuming with q; else q changes nothing |
| `HttpResume.ResumeLine` | haha_web/http/HttpRequest.cpp:60-129 | the same for the request line, within the line limit |
| `HttpResume.ResumeHeader` | haha_web/http/HttpRequest.cpp:131-185 | the same for the header, with no bound on its length |
| `HttpResume.ResumeScanHeader` | haha_web/http/HttpRequest.cpp:131-185 | the same for the header loop from any point in it |
| `HttpResume.ResumeChunks` | haha_web/http/HttpRequest.cpp:335-397 | the same for the chunk decoder, with no bound on the length |
| `HttpResume.NextChunkExtend` | haha_web/http/HttpRequest.cpp:340-395 | one turn of the decoder that does not wait is not changed by bytes that arrive later |
| `HttpResume.ResumeContent` | haha_web/http/HttpRequest.cpp:189-248 | the same for the content stage, the multipart parse and its not ending included, unless a multipart body is left waiting with bytes behind it |
| `HttpResume.FeedIsWholeIff` | haha_web/http/HttpRequest.cpp:27-58 | stopping at the first result other than AGAIN ends as the whole does if and only if it is not refused in the middle of a blank line |
| `HttpRefusal.Refusal` | haha_web/http/HttpRequest.cpp:27-58 | in every state, a refused request stays refused, and as it is, whatever bytes come, but for that one place |
| `HttpLong.CutIff` | haha_web/http/HttpRequest.cpp:131-185 | refused there, if and only if the request line comes in time, every header line is one, keys and values pass the limit with the last and not before, and a piece ends between CR and LF of the blank line |
| `HttpLong.LongStreamsIff` | haha_web/http/HttpRequest.cpp:27-248 | a stream of any length, its line in time, ends as the whole would without the line limit if and only if it is not cut so |
| `HttpLong.AllLongStreams` | tests/test_httpRequest.cc:82-105 | parsing on after a refusal ends as the whole would in every division that brings the line in time |
| `HttpLong.FeedAllIsFeedIff` | tests/test_httpRequest.cc:82-105 | parsing on after the result is final, as the test does, differs from stopping there for exactly those streams and cuts |
| `HttpLong.CutPiecesDiffer` | haha_web/http/HttpRequest.cpp:149-155 | four pieces of a request with one key a byte over the limit on which the two differ |
| `HttpGrammar.AcceptedIff` | haha_web/http/HttpRequest.cpp:27-248 | within the line limit a stream is accepted, or never answered, if and only if it begins with a request of the grammar that ends so |
| `HttpGrammar.RequestRead` | haha_web/http/HttpRequest.cpp:27-248 | every well-formed request, in every spelling, multipart or not, is read to its parts (every field by what the last header line of its name says) and handed to the handler of its type; what follows it stays unread |
| `HttpGrammar.RequestSpelled` | haha_web/http/HttpRequest.cpp:27-248 | whatever stream is read to the end of a body begins with a well-formed request, and ends as that does |
| `HttpGrammar.HeadersRead` | haha_web/http/HttpRequest.cpp:131-185 | header lines, with anything the code passes over between colon and value, are read into the map, later ones replacing earlier ones, and counted, while the limit is not passed before the last |
| `HttpGrammar.HeadersSpelled` | haha_web/http/HttpRequest.cpp:131-185 | whatever the header loop reads is such lines, and the blank line if it answers OK |
| `HttpGrammar.HeadersRefused` | haha_web/http/HttpRequest.cpp:149-155 | a line that comes when the limit is passed is refused |
| `HttpGrammar.HeaderSpelled` | haha_web/http/HttpRequest.cpp:161-176 | every line with a colon is a key, a gap and a value |
| `HttpGrammar.ChunksRead` | haha_web/http/HttpRequest.cpp:335-397 | chunks, their sizes in any digits, decode to their data in any radix, and leave what follows |
| `HttpGrammar.ChunksSpelled` | haha_web/http/HttpRequest.cpp:335-397 | every body the decoder accepts is written so |
| `HttpGrammar.GeneratedOk` | haha_web/http/HttpTest.cpp:170-191 | chunks as the generator writes them are of this form and hold its text |
| `HttpRoundTrip.AnyDivisionUnderstood` | tests/test_httpRequest.cc:179-202 | a well-formed request that is not multipart, of any length, cut up in any way, is understood (method, URL, version, headers, fields, body, what follows unread) if and only if its line comes in time, its header lines within the limit, and its blank line is not cut behind an overlong header; by the test's driver, whatever is cut |
| `HttpRoundTrip.AnyLengthUnderstood` | tests/test_httpRequest.cc:179-202 | with keys and values within the limit, for both ways of feeding: any body, chunks of any size, any pieces that bring the line in time |
| `HttpRoundTrip.AnyDivisionHandled` | haha_web/http/HttpRequest.cpp:27-248 | the same for multipart requests, up to what their handler answers; in all other cases both ways of feeding end in a refusal |
| `HttpRoundTrip.RequestRoundTrip` | haha_web/http/HttpRequest.cpp:27-248 | a well-formed request that is not multipart, fed whole, is understood |
| `HttpRoundTrip.MessageSafeIff` | haha_web/http/HttpRequest.cpp:60-248 | of all well-formed requests, exactly which may be cut anywhere: by their length, their type, how their body ends and what follows |
| `HttpRoundTrip.MultipartEnds` | haha_web/http/HttpRequest.cpp:225-235 | of any length and in any such pieces, which multipart requests wait, which are finished, on which the parse never ends, and which go on to a first part |
| `HttpRoundTrip.PartsFound` | haha_web/http/HttpRequest.cpp:225-235 | parts written behind the empty boundary come to be what the request holds |
| `HttpRoundTrip.WaitingMultipartIsUnsafe` | haha_web/http/HttpRequest.cpp:226-232 | a real request that ends differently when cut up, for all limits as large as the code's |
| `HttpRoundTrip.OverlongIsUnsafe` | haha_web/http/HttpRequest.cpp:62-64 | a well-formed request with a long tail: refused whole, understood in two pieces |
| `HttpFields.MapHoldsLast` | haha_web/http/HttpHeader.h:28-31 | for every list of header lines and every name, the map holds the value of the last line of that name, up to case, and nothing else |
| `HttpFields.TypeRead` | haha_web/http/HttpRequest.cpp:273-298 | the content type is the first of the five whose text the value begins with, up to case |
| `HttpFields.FieldsRead` | haha_web/http/HttpRequest.cpp:253-333 | for every list of header lines, every field is what the last lines say (keep-alive, gzip, type, length, chunked, up to case), unless a length does not convert |
| `HttpAnswers.UnendedLine` | haha_web/http/HttpRequest.cpp:65-74 | without a line end the parser waits exactly if the first byte may be that of a method |
| `HttpAnswers.BadLine` | haha_web/http/HttpRequest.cpp:60-129 | an ended line that is none of the grammar is refused with nothing consumed, unless it is a method and nothing more |
| `HttpAnswers.OpenHeader` | haha_web/http/HttpRequest.cpp:131-185 | behind any header lines and before the blank one: waits, or refuses a line without a colon or beyond the limit |
| `HttpAnswers.HeadAnswers` | haha_web/http/HttpRequest.cpp:189-248 | behind a whole head: an exception for a length that does not convert, a refusal for another coding and for a POST without a length, AGAIN for a body too short |
| `HttpAnswers.SizeMeans` | haha_web/http/HttpRequest.cpp:345-363 | a chunk size is the number its digits write, in either case, in the radix of the code |
| `HttpAnswers.OpenSize` | haha_web/http/HttpRequest.cpp:340-343 | behind any chunks, a size without a line end is waited for |
| `HttpAnswers.SizeRefused` | haha_web/http/HttpRequest.cpp:348-359 | behind any chunks, a size with anything but digits is refused |
| `HttpAnswers.OpenData` | haha_web/http/HttpRequest.cpp:366-380 | behind a size, data and a line end are waited for, and anything else behind the data is refused |
| `HttpAnswers.OpenEnd` | haha_web/http/HttpRequest.cpp:382-394 | behind the last size a line end, at once |
| `HttpParser.HttpRequest.constructor` | haha_web/http/HttpRequest.cpp:5-24 | a new request is the fresh value over its buffer |
| `HttpParser.HttpRequest.ParseRequest` | haha_web/http/HttpRequest.cpp:27-58 | the stage loop computes the machine of `HttpModel` on the fields and the buffer, result and new state |
| `HttpParser.HttpRequest.ParseRequestLine` | haha_web/http/HttpRequest.cpp:60-129 | new state and result of the request-line stage |
| `HttpParser.HttpRequest.ReadLine` | haha_web/http/HttpRequest.cpp:82-126 | what is stored out of a line before reading stops, also when it is refused midway |
| `HttpParser.HttpRequest.ParseRequestHeader` | haha_web/http/HttpRequest.cpp:131-185 | new state and result of the header stage |
| `HttpParser.HttpRequest.ParseHeaderLines` | haha_web/http/HttpRequest.cpp:131-185 | the header loop leaves the buffer, map and length the scan leaves |
| `HttpParser.HttpRequest.AddHeader` | haha_web/http/HttpHeader.h:28-31 | keys in lower case; the length grows even when a value is replaced |
| `HttpParser.HttpRequest.ParseFields` | haha_web/http/HttpRequest.cpp:253-333 | all fields but the cookie and the session, read at the end of the header, the encodings as they were sent included; nothing after a length that does not convert |
| `HttpParser.HttpRequest.ParseKeepAlive` | haha_web/http/HttpRequest.cpp:253-271 | keep-alive by version, overridden by the connection header |
| `HttpParser.HttpRequest.ParseContentType` | haha_web/http/HttpRequest.cpp:273-298 | the content type, and no other field |
| `HttpParser.HttpRequest.ParseAcceptEncoding` | haha_web/http/HttpRequest.cpp:300-306 | the encodings and gzip, and no other field |
| `HttpParser.HttpRequest.ParseContentLength` | haha_web/http/HttpRequest.cpp:316-322 | the length, or that its conversion threw; `HttpFields.FieldsRead` says of which line |
| `HttpParser.HttpRequest.ParseTransferEncoding` | haha_web/http/HttpRequest.cpp:324-333 | the encoding in lower case, chunked or not, and no other field |
| `HttpParser.HttpRequest.ParseRequestContent` | haha_web/http/HttpRequest.cpp:189-248 | new state and result of the content stage, the maps of the multipart parse included |
| `HttpParser.HttpRequest.HandleBody` | haha_web/http/HttpRequest.cpp:225-247 | the handler of the content type: a multipart body waits, or is parsed by the multipart object, which may not end |
| `HttpParser.HttpRequest.ParseChunked` | haha_web/http/HttpRequest.cpp:335-397 | the decoder loop ends in the state and result of the scan |
| `HttpParser.HttpRequest.ChunkTurn` | haha_web/http/HttpRequest.cpp:337-395 | one turn of the decoder: goes on or stops, with the state and result the model gives |
| `HttpParser.ParsePieces` | haha_web/http/HttpRequest.cpp:27-58 | feeding pieces to the object until a result other than AGAIN is feeding them to the model |
| `HttpParser.ParseBySplit` | tests/test_httpRequest.cc:82-105 | the test's own driver, which parses after every piece |
| `ByteBuffer.Buffer.Retrieve` | haha_web/base/Buffer.cpp:30-40 | drops that many readable bytes from the front |
| `ByteBuffer.Buffer.MakeSpace` | haha_web/base/Buffer.cpp:172-183 | both branches, the overlapping move included, keep the readable bytes and make the room |
| `ByteBuffer.Buffer.EnsureWriteable` | haha_web/base/Buffer.cpp:91-96 | room for the bytes, readable bytes unchanged |
| `ByteBuffer.Buffer.Append` | haha_web/base/Buffer.cpp:80-85 | the bytes join the end of the readable ones |
| `ByteBuffer.Buffer.ReadFd` | haha_web/base/Buffer.cpp:98-121 | exactly one read, with room for the free bytes and 65535 more; whatever it delivered, over the free room or not, joins the end; an error changes nothing |
| `ByteBuffer.Buffer.WriteFd` | haha_web/base/Buffer.cpp:123-132 | exactly one write, offering every readable byte; what the descriptor took, and no more, leaves the front |
| `ByteBuffer.Drive` | haha_web/base/Buffer.cpp:30-132 | on one buffer, over any calls of append, read, retrieve, write and make room, whatever two descriptors answer: bytes taken, then readable ones, are the bytes there, then those put in |
| `ByteBuffer.FirstInFirstOut` | haha_web/base/Buffer.cpp:30-132 | the queue those calls amount to is first in, first out |
| `Util.Int2HexString` | haha_web/base/util.cpp:64-72 | digits collected and reversed are the number's digits in the radix, none for zero |
| `Util.ParseHexString` | haha_web/base/util.cpp:49-61 | the loop gives the folded value, -1 at a bad digit or an overflow; `Digits.AnyNumberRead` says which number that is |
| `Util.HexRoundTrip` | haha_web/base/util.cpp:34-72 | a printed size is read back, for every int and every radix the digits allow |
| `Util.RadixTenAgreesIff` | haha_web/base/util.cpp:49-61 | the code's radix 10 reads a size as radix 16 does exactly when only the last digit is not 0 |
| `Digits.DigitRead` | haha_web/base/util.cpp:14-22 | the value of a digit is its place in the alphabet, in either case |
| `Digits.DigitSpelled` | haha_web/base/util.cpp:14-22 | and nothing else is taken for a digit |
| `Digits.AnyNumberRead` | haha_web/base/util.cpp:49-61 | any digits in any radix are read as the number they write modulo the word, or -1 if an int takes that for negative on the way |
| `Digits.NumberRead` | haha_web/base/util.cpp:49-61 | and as that number itself if it is an int |
| `Digits.OtherRefused` | haha_web/base/util.cpp:49-61 | a text with anything but digits is refused |
| `Digits.NumberWritten` | haha_web/base/util.cpp:64-72 | a number is written in upper-case digits of its radix, without a leading zero |
| `Digits.DecimalWritten` | haha_web/log/LogStream.cpp:15-36 | a decimal number is written in digits that make it, without a leading zero |
| `JsonRoundTrip.ValueRead` | haha_web/haha_json/haha_json/json.cpp:236-266 | any proper value printed in any layout at any depth, before any text that does not go on a number, is read back with exactly that text left, or refused if it has a double quote |
| `JsonRoundTrip.RoundTripIff` | haha_web/haha_json/haha_json/json.cpp:268-274 | a printed value is parsed back if and only if no string or key holds a double quote |
| `JsonRoundTrip.LayoutsAgree` | haha_web/haha_json/haha_json/jsonValue.h:192-296 | all layouts of a value parse to one tree, and printing that tree again gives the text |
| `JsonRoundTrip.ParsedProper` | haha_web/haha_json/haha_json/json.cpp:236-266 | every parsed value without doubles is proper: keys in order and once each, 32-bit integers |
| `JsonRoundTrip.ReprintedTextIff` | haha_web/haha_json/haha_json/json.cpp:268-274 | what was parsed from any text survives printing and parsing unless it holds a double quote |
| `JsonRoundTrip.ItemsRead` | haha_web/haha_json/haha_json/json.cpp:128-168 | printed items are read one after the other up to their bracket |
| `JsonRoundTrip.MembersRead` | haha_web/haha_json/haha_json/json.cpp:171-233 | the same for members, put back in key order |
| `JsonRoundTrip.StringRead` | haha_web/haha_json/haha_json/json.cpp:12-94 | a quoted string is read back, or refused if it holds a double quote |
| `JsonRoundTrip.IntRead` | haha_web/haha_json/haha_json/json.cpp:97-125 | every 32-bit integer printed is read back as that integer |
| `JsonGrammar.ParsedIff` | haha_web/haha_json/haha_json/json.cpp:268-274 | any text is parsed to a value if and only if it is written by the grammar (blanks, commas, escapes in any casing, repeated members, anything behind the value) and means that value |
| `JsonGrammar.DocRead` | haha_web/haha_json/haha_json/json.cpp:236-266 | whatever is written by the grammar is read to what it means, and what is behind it stays in the view |
| `JsonGrammar.DocSpelled` | haha_web/haha_json/haha_json/json.cpp:236-266 | whatever is read, from any text, is written by the grammar and means what was read |
| `JsonGrammar.ItemsRead` | haha_web/haha_json/haha_json/json.cpp:128-168 | the same for items, with blanks before and behind each and a comma at the end or not |
| `JsonGrammar.PairsRead` | haha_web/haha_json/haha_json/json.cpp:171-233 | the same for members, put into the map as they come |
| `JsonGrammar.NumberRead` | haha_web/haha_json/haha_json/json.cpp:97-125 | a number is an int, cut off towards zero, unless it ends in a point or is beyond the ints |
| `JsonStrings.StringRead` | haha_web/haha_json/haha_json/json.cpp:12-94 | a string written piece by piece is read to the bytes the pieces stand for |
| `JsonStrings.StringSpelled` | haha_web/haha_json/haha_json/json.cpp:12-94 | whatever string is read is written so |
| `JsonStrings.FourRead` | haha_web/haha_json/haha_json/jsonUtil.cpp:61-94 | four bytes behind a `\u` are the number their digits write, in any casing, or zero |
| `JsonLayout.LayoutIs` | haha_web/haha_json/haha_json/jsonValue.h:192-296 | every layout is the compact text with exactly these blanks put in: line feeds and as many tabs as brackets are open behind opening brackets, before closing ones and behind commas, blanks behind colons, blanks behind commas; the compact text has none |
| `JsonLayout.LayoutsSqueezeAlike` | haha_web/haha_json/haha_json/jsonValue.h:192-296 | without the blanks outside strings all layouts are the compact text |
| `JsonLayout.RawArray` | haha_web/haha_json/haha_json/jsonValue.h:192-211 | a compact array is its items between commas and brackets |
| `JsonLayout.RawObject` | haha_web/haha_json/haha_json/jsonValue.h:276-296 | a compact object is its quoted keys, colons and values between commas and braces |
| `JsonLayout.TextPrinted` | haha_web/haha_json/haha_json/jsonValue.cpp:149-206 | a string is printed byte by byte, the seven bytes of the table as a backslash and their letter, all others as they are |
| `JsonValue.InsertSorted` | haha_web/haha_json/haha_json/jsonValue.h:243-251 | a map stays in key order, keeps what it had, and holds the new key |
| `JsonValue.LessIff` | haha_web/haha_json/haha_json/jsonValue.h:243-251 | the key order is that of the first bytes that differ, a prefix before what it begins |
| `JsonParser.SkipCtrlAndSpace` | haha_web/haha_json/haha_json/jsonUtil.cpp:20-29 | the view moves to the first byte that is no control byte or blank |
| `JsonParser.ParseHex4` | haha_web/haha_json/haha_json/jsonUtil.cpp:61-94 | the shifting loop gives the four digits' value, or 0 when one is no digit; `JsonStrings.FourRead` says of any digits which |
| `JsonParser.EncodeUtf8` | haha_web/haha_json/haha_json/jsonUtil.cpp:180-229 | filling the bytes from the back, with shifts and masks, gives the encoding |
| `JsonParser.Utf16LiteralToUtf8` | haha_web/haha_json/haha_json/jsonUtil.cpp:132-230 | the escape's bytes and the view behind it, an empty result for one that is refused |
| `JsonParser.ParsePiece` | haha_web/haha_json/haha_json/json.cpp:18-85 | one turn of the string loop: what is added and the view left |
| `JsonParser.ParseString` | haha_web/haha_json/haha_json/json.cpp:12-94 | the loop over the shared view gives the string and the view left, or fails, as the model |
| `JsonParser.ParseNumber` | haha_web/haha_json/haha_json/json.cpp:97-125 | the same for numbers |
| `JsonParser.CheckMore` | haha_web/haha_json/haha_json/json.cpp:139-149 | another item, the end (a comma may stand before it), or neither |
| `JsonParser.ParseArray` | haha_web/haha_json/haha_json/json.cpp:128-168 | the loop gives the array the model gives, with the view behind it |
| `JsonParser.ParseMember` | haha_web/haha_json/haha_json/json.cpp:198-225 | key, colon and value |
| `JsonParser.ParseObject` | haha_web/haha_json/haha_json/json.cpp:171-233 | the same as for arrays; the first of two equal keys stays |
| `JsonParser.ParseValue` | haha_web/haha_json/haha_json/json.cpp:236-266 | the recursion through one cursor agrees with the model on value, view and failure |
| `JsonParser.Parse` | haha_web/haha_json/haha_json/json.cpp:268-274 | the whole parser |
| `JsonParser.StringToString` | haha_web/haha_json/haha_json/jsonValue.cpp:149-206 | the quoted text |
| `JsonParser.ArrayToString` | haha_web/haha_json/haha_json/jsonValue.h:192-211 | the accumulating loop gives the recursive text in every layout, which is what `JsonLayout.LayoutIs` says |
| `JsonParser.ObjectToString` | haha_web/haha_json/haha_json/jsonValue.h:276-296 | the same for members in key order |
| `JsonParser.ToString` | haha_web/haha_json/haha_json/jsonValue.h:135-296 | the dispatch over node types |
| `JsonUnicode.EscapedTextDecodes` | haha_web/haha_json/haha_json/json.cpp:69-77 | any scalar values written as escapes (section 7 of RFC 8259), their digits in either case, are read as bytes that a strict UTF-8 decoder (section 3 of RFC 3629) maps back to them |
| `JsonUnicode.EscapeRead` | haha_web/haha_json/haha_json/jsonUtil.cpp:132-230 | one escape or surrogate pair, in either case, before any text |
| `JsonUnicode.Utf8Decodes` | haha_web/haha_json/haha_json/jsonUtil.cpp:180-229 | the encoding of a scalar value is the shortest one and decodes to it |
| `JsonUnicode.AcceptedEscapeIsOneScalar` | haha_web/haha_json/haha_json/jsonUtil.cpp:132-230 | whatever escape is accepted yields exactly one scalar value, never a surrogate |
| `JsonUnicode.LoneSurrogateRefused` | haha_web/haha_json/haha_json/jsonUtil.cpp:150-172 | a surrogate without its other half is refused |
| `JsonUnicode.NoDigitsAreZero` | haha_web/haha_json/haha_json/jsonUtil.cpp:61-94 | an escape with a byte that is no digit is read as the zero byte |
| `Bits.ContinuationBits` | haha_web/haha_json/haha_json/jsonUtil.cpp:212-221 | the masked byte the loop fills in is the mark 10 and the six low bits |
| `Bits.MarkBits` | haha_web/haha_json/haha_json/jsonUtil.cpp:222-229 | the first byte is its mark and the bits left, for every length |
| `Bits.JoinBits` | haha_web/haha_json/haha_json/jsonUtil.cpp:171-171 | the masked and shifted halves of a pair join without carry |
| `LogModel.LogConserved` | haha_web/log/LogAppender.cpp:87-196 | over every interleaving: the accepted bytes are what flushes have decided about, what was swapped out, the filled buffers and the current one, in order; the file and what is left to write are the former without the dropped buffers |
| `LogModel.StepKeepsInv` | haha_web/log/LogAppender.cpp:87-196 | every step of a producer or of the flusher keeps that and the counting of spare buffers |
| `LogModel.FlushAssertionsHoldIff` | haha_web/log/LogAppender.cpp:134-194 | the assertions in flush hold in every run if and only if a flush may keep at least two buffers |
| `LogModel.NothingDroppedNothingMissing` | haha_web/log/LogAppender.cpp:131-196 | between flushes, with nothing dropped, file and buffers are exactly the accepted lines |
| `LogModel.DropKeepsTheFirst` | haha_web/log/LogAppender.cpp:152-164 | a flush that sees too many buffers keeps exactly the first ones, in order, drops the rest whole, and writes a notice of how many |
| `LogModel.LineAcceptedIff` | haha_web/log/LogUtil.h:26-34 | a line is accepted whole if and only if it is shorter than a buffer |
| `LogModel.AppendMeans` | haha_web/log/LogAppender.cpp:87-128 | a line that leaves room joins the current buffer; otherwise that goes behind the filled ones and the line begins the next, if it is shorter than a buffer; nothing else changes |
| `LogStream.WholeIffRoom` | haha_web/log/LogStream.h:13-101 | a formatted line is whole if and only if every piece had room behind those before it; otherwise it is shorter |
| `LogStream.LongTextLost` | haha_web/log/LogUtil.h:26-34 | a piece of text is left out exactly when it would fill the small buffer |
| `LogStream.OnePiece` | haha_web/log/LogStream.cpp:68-76 | which text and which number is appended behind a line, by the bytes left |
| `LogStream.Convert` | haha_web/log/LogStream.cpp:15-36 | the digit loop over truncating division, reversed, gives the decimal text of every integer, negative ones included |
| `LogStream.MachineFits` | haha_web/log/LogStream.cpp:56-66 | no integer of up to 64 bits takes more than 20 bytes |
| `LogStream.WrittenIsShort` | haha_web/log/LogStream.cpp:68-76 | whatever is written, the line stays shorter than the small buffer |
| `LogStream.NoLineRefused` | haha_web/log/LogAppender.cpp:87-128 | in every run of producers and flusher the lines accepted are all the lines formatted, in order |
| `LogStream.Stream.Write` | haha_web/log/LogStream.h:18-88 | text joins the line if it leaves a byte free, a number in decimal if room for the longest was free, else nothing changes |
| `LogStream.Stream.FormatNumber` | haha_web/log/LogStream.cpp:68-76 | the digits of the number are appended whenever room for the longest number is free |
| `LogStream.Stream.Format` | haha_web/log/LogStream.h:13-101 | a line is what its pieces amount to, one after the other |
| `LogAppender.FixedBuffer.Append` | haha_web/log/LogUtil.h:26-34 | the line joins the text if room is left after it, else nothing changes |
| `LogAppender.FixedBuffer.Reset` | haha_web/log/LogUtil.h:44-44 | the buffer is empty |
| `LogAppender.NewAppender` | haha_web/log/LogAppender.cpp:57-66 | four buffers, each in one slot |
| `LogAppender.AsyncLogAppender.Append` | haha_web/log/LogAppender.cpp:87-128 | on the buffers as objects, appending is the model's step, and each buffer stays in exactly one slot |
| `LogAppender.AsyncLogAppender.FlushSwap` | haha_web/log/LogAppender.cpp:138-150 | the swap under the lock: the model's step, the current buffer last in the list |
| `LogAppender.AsyncLogAppender.FlushDrop` | haha_web/log/LogAppender.cpp:152-164 | the model's step; what is kept is a front part of the list |
| `LogAppender.AsyncLogAppender.FlushWrite` | haha_web/log/LogAppender.cpp:166-170 | one buffer goes to the file |
| `LogAppender.AsyncLogAppender.FlushRecycle` | haha_web/log/LogAppender.cpp:172-194 | both spares are back, empty and different, and the list is clear |
| `LogAppender.AsyncLogAppender.SparesAtEntry` | haha_web/log/LogAppender.cpp:134-136 | both spares are there and empty whenever a flush begins |
| `LogAppender.AsyncLogAppender.EnoughToRecycle` | haha_web/log/LogAppender.cpp:178-192 | recycling never runs out of buffers |
| `LogAppender.AsyncLogAppender.Flush` | haha_web/log/LogAppender.cpp:131-196 | a flush left alone leaves nothing buffered, and the file is the accepted bytes less the dropped buffers |
| `TimerHeap.ParentIndex` | haha_web/net/TimerHeap.cpp:15-20 | the size_t-to-int conversion gives the parent, and -1 at the root |
| `TimerHeap.Heap.SwapNode` | haha_web/net/TimerHeap.cpp:40-46 | two entries change places and the index follows |
| `TimerHeap.Heap.SiftUp` | haha_web/net/TimerHeap.cpp:12-22 | a heap out of order above one position is put in order, same timers |
| `TimerHeap.Heap.SiftDown` | haha_web/net/TimerHeap.cpp:24-38 | a heap out of order at one position is put in order below it, same timers; whether anything moved |
| `TimerHeap.Heap.Del` | haha_web/net/TimerHeap.cpp:48-65 | that timer goes, the others stay, in order |
| `TimerHeap.Heap.PushTimer` | haha_web/net/TimerHeap.cpp:67-88 | insert or replace on the map from descriptor to timer, every other timer as it was; order and index kept |
| `TimerHeap.Heap.AdjustTimer` | haha_web/net/TimerHeap.cpp:90-99 | a new expiry, the old callback, every other timer as it was; in order if and only if the expiry is not before the parent's, and always if the timer is brought before no other |
| `TimerHeap.AdjustOutOfOrder` | haha_web/net/TimerHeap.cpp:90-99 | two pushes and an adjust whose root is not the earliest timer |
| `TimerHeap.Heap.RemoveTimer` | haha_web/net/TimerHeap.cpp:101-109 | delete on the map; order and index kept |
| `TimerHeap.Heap.Top` | haha_web/net/TimerHeap.h:58-62 | a timer that no other expires before |
| `TimerHeap.Heap.IsEmpty` | haha_web/net/TimerHeap.h:64-68 | no timer is scheduled |
| `TimerHeap.Heap.Pop` | haha_web/net/TimerHeap.cpp:111-116 | the timer that top returns is deleted |
| `TimerHeap.RootIsEarliest` | haha_web/net/TimerHeap.cpp:12-38 | heap order puts an earliest timer at the root |
| `TimerHeap.AdjustOutcome` | haha_web/net/TimerHeap.cpp:90-99 | when a sift down alone restores the order after a change of expiry |
| `TimerHeap.SizeBound` | haha_web/net/TimerHeap.cpp:15-15 | distinct descriptors keep positions within the conversions |
| `TimerQueue.Queue.HandleTimeout` | haha_web/net/TimerQueue.cpp:54-74 | fires exactly the timers that have expired, each once, in order of expiry, leaves exactly the others in a valid heap, and ends |
| `ServerModel.OneTimerEach` | haha_web/net/TcpServer.cpp:172-192 | in every run each registered connection in the table has exactly one timer bound to it, in its own loop |
| `ServerModel.FiringTouchesOnlyItsOwner` | haha_web/net/TcpServer.cpp:140-169 | in every run a timer that fires, stale or not, disturbs no connection but the one it is bound to, and closes that only after a whole timeout of silence |
| `ServerModel.AdjustOnlyPostpones` | haha_web/net/TcpServer.cpp:105-109 | in every run every adjust finds the connection's own timer and gives it a later or equal expiry |
| `ServerModel.StepKeepsInv` | haha_web/net/TcpServer.cpp:58-282 | every handler, in any order over the loops, keeps table, phases and timers consistent |
| `ServerModel.ServedMeans` | haha_web/net/TcpServer.cpp:91-130 | what a read or write event does to its connection and timer, and that it leaves every other as it was |
| `ServerModel.AcceptMeans` | haha_web/net/TcpServer.cpp:58-88 | the same for a new connection |
| `ServerModel.ConnectMeans` | haha_web/net/TcpServer.cpp:172-192 | the same for the start of its timer |
| `TcpServer.NewServer` | haha_web/net/TcpServer.cpp:8-30 | a server with an empty heap for each of its loops |
| `TcpServer.TcpServer.AddTimer` | haha_web/net/TcpServer.cpp:187-191 | on the loop's own heap; every heap stays in order |
| `TcpServer.TcpServer.AdjustTimer` | haha_web/net/TcpServer.cpp:105-109 | the same for a timer that is there and not brought forward |
| `TcpServer.TcpServer.DelTimer` | haha_web/net/TcpServer.cpp:210-214 | the same for deletion |
| `TcpServer.TcpServer.HandleServerAccept` | haha_web/net/TcpServer.cpp:58-88 | the new connection is in the table under its descriptor, waits to be read and has its onConnect queued, all else is as it was; every invariant and every heap kept |
| `TcpServer.TcpServer.OnConnect` | haha_web/net/TcpServer.cpp:172-192 | the channel registered and a timer bound to the connection for a whole timeout, all else as it was; the same kept |
| `TcpServer.TcpServer.HandleConnectionRead` | haha_web/net/TcpServer.cpp:91-230 | after AGAIN the connection lives, waits to be read if the message is incomplete and to be written otherwise, with its timer a whole timeout from now; after the end or an error it is closed and its timer gone; every other connection and timer is as it was; the same kept |
| `TcpServer.TcpServer.HandleConnectionWrite` | haha_web/net/TcpServer.cpp:116-282 | a send that is not over waits to write on, one that is over and kept alive waits to read, both with the timer a whole timeout from now, and everything else closes; every other connection and timer is as it was; the same kept |
| `TcpServer.TcpServer.HandleConnectionClose` | haha_web/net/TcpServer.cpp:140-169 | once per connection; its own table entry goes, no other |
| `TcpServer.TcpServer.HandleTimeout` | haha_web/net/TimerQueue.cpp:63-73 | top and pop on the loop's heap take out exactly the expired timers and close exactly its registered connections that were silent for the timeout |
| `EventLoop.StepKeepsInv` | haha_web/net/EventLoop.cpp:31-149 | every step of the loop or of another thread keeps queue order and announcement |
| `EventLoop.NoLostWakeup` | haha_web/net/EventLoop.cpp:99-149 | in every reachable state, a loop that waits while tasks are pending or quit is set has a readable eventfd or a thread about to write it |
| `EventLoop.HandoffOrder` | haha_web/net/EventLoop.cpp:115-140 | in every interleaving executed tasks, the rest of the batch and pending ones are the queued tasks in push order, none twice |
| `EventLoop.WokenLoopRunsEverything` | haha_web/net/EventLoop.cpp:43-51 | in every run of the loop's own steps from such a wait it is never blocked before everything queued is executed, after four steps and one a task at most |
| `EventLoopMethods.EventLoop.QueueInLoop` | haha_web/net/EventLoop.cpp:129-140 | the task is queued and pending; from another thread, with others between push and write, the eventfd is readable after it; from its own, it is written to exactly while tasks are being called |
| `EventLoopMethods.EventLoop.RunInLoop` | haha_web/net/EventLoop.cpp:142-149 | called at once in the loop's thread, queued and announced from any other |
| `EventLoopMethods.EventLoop.Quit` | haha_web/net/EventLoop.cpp:91-97 | the flag, and a wakeup unless in the loop's thread |
| `EventLoopMethods.EventLoop.HandleWakeup` | haha_web/net/EventLoop.cpp:107-113 | the counter is read away, and nothing else changes |
| `EventLoopMethods.EventLoop.DoPendingTasks` | haha_web/net/EventLoop.cpp:115-127 | with others pushing throughout, everything pending at the swap is called, in order, and what comes later is left pending; the invariant holds at every state passed |
| `EventLoopMethods.EventLoop.Turn` | haha_web/net/EventLoop.cpp:44-50 | one turn of the loop, others at work: what was pending is called |
| `EventLoopMethods.EventLoop.RunLoop` | haha_web/net/EventLoop.cpp:31-52 | the loop over any number of turns passes through reachable states of the model only |
| `Kmp.GetNext` | haha_web/base/stringView.cpp:7-22 | the array holds the longest proper border of every prefix |
| `Kmp.KmpSearch` | haha_web/base/stringView.cpp:24-47 | the first occurrence, or -1 when there is none, as naive search; at most 2 turns a byte of s |
| `SendPath.Socket.Send` | haha_web/net/Socket.cpp:160-175 | the calls made: all of the buffer is offered, then what is left as long as the answers are positive, until one is not, nothing is left or the socket blocks; what went out is the front of the buffer and leaves it |
| `SendPath.Socket.Recv` | haha_web/net/Socket.cpp:177-192 | the calls made: reads with room for 65535 bytes and more until an answer is not positive, or one if the socket blocks; everything delivered joins the buffer; the count and the last answer |
| `SendPath.FileSendStream.Send` | haha_web/base/FileUtil.cpp:215-246 | the same as for the buffer, for the rest of the file |
| `SendPath.TcpConnection.Sendable` | haha_web/net/TcpConnection.cpp:83-88 | something is left to send |
| `SendPath.TcpConnection.Recv` | haha_web/net/TcpConnection.cpp:32-49 | everything received joins the receive buffer, and the status follows from the last answer, if and only if |
| `SendPath.TcpConnection.Send` | haha_web/net/TcpConnection.cpp:51-76 | calls are made exactly if something is unsent, the buffer before the file and the file only behind the whole of it; the status by the answer to the last of them, if and only if; wire plus unsent bytes conserved; what the count leaves out |
| `SendPath.TcpConnection.SendRepeatedly` | haha_web/net/TcpConnection.cpp:51-76 | over any number of calls the response goes out in order; COMPLETED means all of it |
| `MultiPart.RoundTripIff` | haha_web/http/HttpMultiPart.cpp:24-196 | any parts, written as section 4 of RFC 7578 and section 5.1.1 of RFC 2046 say and in every other spelling of their header lines that is let through, are all found again with their data if and only if no two of one kind and name differ; never anything else than the last value and first file of each name |
| `MultiPart.AllFoundIff` | haha_web/http/HttpMultiPart.cpp:165-185 | the same condition on the maps, for any list of parts |
| `MultiPart.LastValueFirstFile` | haha_web/http/HttpMultiPart.cpp:165-185 | for every list and name, the maps hold the last value and the first file, with its name, file name, type and data |
| `MultiPart.AllFilesKeptIff` | haha_web/http/HttpMultiPart.cpp:170-180 | each name keeps all its files if and only if no file name is used twice |
| `MultiPart.BodyRead` | haha_web/http/HttpMultiPart.cpp:24-196 | any list of parts, names repeated or not, their header names in any case and with any words around the quoted texts, is read to its end into exactly the maps they amount to, whatever epilogue follows |
| `MultiPart.DataRead` | haha_web/http/HttpMultiPart.cpp:142-152 | the first delimiter found is the one written, because a boundary without CR cannot overlap another |
| `MultiPart.DispositionRead` | haha_web/http/HttpMultiPart.cpp:70-99 | the header line gives name and file name, whatever words stand around them |
| `MultiPart.SecondFileLost` | haha_web/http/HttpMultiPart.cpp:170-180 | of two different files of one name, whatever stands around them, one is not found |
| `MultiPart.FinishedIffTurnsEnd` | haha_web/http/HttpMultiPart.cpp:34-195 | the machine ends exactly when some number of turns reaches the end of the body; otherwise no number does |
| `MultiPart.StandsStillIff` | haha_web/http/HttpMultiPart.cpp:36-190 | the turns that change nothing are exactly those at the listed guards |
| `MultiPart.StuckIffBadSpot` | haha_web/http/HttpMultiPart.cpp:34-195 | the loop never ends if and only if some turn comes to such a guard |
| `MultiPart.NoBoundaryHangs` | haha_web/http/HttpMultiPart.cpp:36-60 | with no boundary set, the bodies the loop never ends on |
| `MultiPart.NoPartHangs` | haha_web/http/HttpMultiPart.cpp:61-69 | nor on two dashes, a line end and something else than a part |
| `MultiPart.DashesEnd` | haha_web/http/HttpMultiPart.cpp:34-60 | it ends on two dashes, and on two dashes and a line end |
| `MultiPart.StrncasecmpMeans` | haha_web/http/HttpMultiPart.cpp:61-69 | the header names are compared up to the case of their letters |
| `HttpMultiPart.Parser.ReadData` | haha_web/http/HttpMultiPart.cpp:139-164 | data of any length across the 4096-byte buffer is gathered whole, up to the first delimiter |
| `HttpMultiPart.Parser.ReadDisposition` | haha_web/http/HttpMultiPart.cpp:70-99 | the inner loop computes the model's scan |
| `HttpMultiPart.Parser.ReadType` | haha_web/http/HttpMultiPart.cpp:118-129 | the type up to the line end |
| `HttpMultiPart.Parser.GatherTurn` | haha_web/http/HttpMultiPart.cpp:70-164 | the turns that gather a header line, a type or the data, over the index, are the model's |
| `HttpMultiPart.Parser.MarkTurn` | haha_web/http/HttpMultiPart.cpp:36-190 | the turns that look for a mark, and which of them would never move on |
| `HttpMultiPart.Parser.AddPart` | haha_web/http/HttpMultiPart.cpp:165-185 | a form value replaces, a second file is lost |
| `HttpMultiPart.Parser.Parse` | haha_web/http/HttpMultiPart.cpp:24-196 | for every body the maps the model gives, or that the loop would never end |
| `ConfigIndex.IndexRightIff` | haha_web/config/config.h:56-91 | for objects in key order, every path is answered with its own node if and only if no dotted form is empty or shared by paths to different nodes |
| `ConfigIndex.IndexHoldsPaths` | haha_web/config/config.h:56-91 | whatever the keys, every entry is the dotted form of a path, with the node at its end |
| `ConfigIndex.CleanIsUnambiguous` | haha_web/config/config.h:77-91 | keys that are neither empty nor dotted meet that condition |
| `ConfigIndex.IndexIsTree` | haha_web/config/config.h:56-91 | with such keys the index holds exactly the dotted forms of the object paths, each mapped to the node its path leads to |
| `ConfigIndex.DottedKeyAlone` | haha_web/config/config.h:69-71 | a tree with a dotted key that is indexed right all the same |
| `ConfigIndex.DottedInjective` | haha_web/config/config.h:87-88 | dotted forms tell paths of clean keys apart |
| `ConfigIndex.ListAllMember` | haha_web/config/config.h:77-91 | the recursion appends the listing of the tree to the output |
| `ConfigIndex.Config.constructor` | haha_web/config/config.h:56-74 | the index of the listing, the first entry of a key staying; empty when there is no object |
| `ConfigIndex.InsertAll` | haha_web/config/config.h:69-71 | inserting one entry after another keeps the first of each key |
| `ConfigIndex.DotInKeyHidesPath` | haha_web/config/config.h:69-71 | a dotted key can be answered with another node |
| `ConfigIndex.EmptyKeyHidden` | haha_web/config/config.h:81-83 | an empty key at the root is left out and its members pass for the root's |
| `UrlCode.UrlEncode` | haha_web/base/EncodeUtil.cpp:90-112 | the loop writes each byte plain or as a triple |
| `UrlCode.UrlDecode` | haha_web/base/EncodeUtil.cpp:53-77 | the decoded bytes, or nothing at the first bad triple; `UrlCode.DecodedIff` says of which texts |
| `UrlCode.DecodeEncode` | haha_web/base/EncodeUtil.cpp:53-112 | decoding undoes encoding for every byte string |
| `UrlCode.EncodeIsPlain` | haha_web/base/EncodeUtil.cpp:94-108 | only unreserved characters (section 2.3 of RFC 3986) and the per cent sign are written |
| `UrlCode.ByteWritten` | haha_web/base/EncodeUtil.cpp:94-108 | a byte that is not unreserved is a per cent sign and the two digits that write it |
| `UrlCode.UnreservedRead` | haha_web/base/EncodeUtil.cpp:94-97 | the bytes left as they are, are the letters, the digits and the four marks of section 2.3 of RFC 3986 |
| `UrlCode.DecodedIff` | haha_web/base/EncodeUtil.cpp:53-77 | a text is decoded to given bytes if and only if it is made of plain bytes, plus signs and triples, in either case, that stand for them |

## Left out

- Sockets, epoll, timerfd, eventfd, OpenSSL, mmap, sendfile, files, clocks and pthreads: their answers are parameters or arbitrary results.
- Time as a C++ int: a timeout beyond 2147 seconds overflows in `TimeStamp::nowSecond`; times here are unbounded.
- `HttpServer::onMessage` and the destructor of `HttpResponse`, servlet dispatch, sessions and their timers; whether a message was complete is a parameter of the read handler.
- The handlers for form and JSON bodies: they fill members nothing here reads. A JSON body that ends in a backslash and `u` would stop at an assertion. `HttpUrl` is whether a URL parses.
- `HttpParser.HttpRequest.ParseFields`: of cookies only their being there is kept, and the session drawn from them is not modelled.
- `HttpParser.HttpRequest.ParseRequest`: a line shorter than its method and one byte more ends in the outcome `Undefined`, of which nothing more is said.
- `HttpRoundTrip.MultipartEnds`: what becomes of a first part is `HttpRoundTrip.PartsFound` for parts that are written well, and for others `MultiPart.StuckIffBadSpot`.
- `Util.ParseHexString`: a signed overflow, undefined in C++, wraps around here; a text of at most seven digits (the decoder takes five) cannot overflow in radix 10 or 16.
- `ServerModel.StepKeepsInv`: a handler is one step; what an event does to a connection object already gone is that the weak pointer does not lock.
- `TcpServer.TcpServer.HandleServerAccept`: the loop that takes the connection, which the pool chooses, is a parameter.
- `EventLoopMethods.EventLoop.DoPendingTasks`: tasks are numbers; what other threads and the tasks themselves do meanwhile is any list of their steps. Channels other than the wakeup, and the idle timeout, are not modelled.
- `LogStream.Stream.Write`: integers of up to 64 bits in decimal; hexadecimal and floating-point formatting are not modelled.
- `LogAppender.AsyncLogAppender.Flush`: runs without a producer in between; its stages interleave with producers in `LogModel`. File rolling and the mutex are not modelled.
- `JsonParser.ParseValue`: reading `str[0]` of a view that has become empty is read as a terminating zero, which is what follows it in memory; a `\u` that ends the text fails here where an assertion would abort.
- `JsonRoundTrip.ValueRead`: doubles are left out of the round trip, because the parser decides by the last character whether a number is an integer. `\x` escapes are parsed but never printed.
- `JsonLayout.LayoutIs`: what `std::to_string` writes for a double, left uninterpreted, is taken to have no blank, bracket, comma, colon or quotation mark in it.
- `JsonGrammar.ParsedIff`: which numbers a text of number bytes writes, and which it refuses, is what `std::stod` says of it.
- `MultiPart.RoundTripIff`: quoted names have no double quote or line end and do not end in `=`, content types have no line end, the boundary has no CR and no zero byte; other text is not read back as it was meant.
- `ConfigIndex.IndexRightIff`: nodes are compared by value, where the code hands out pointers. Objects are in key order, as `std::map` keeps them.
- `SendPath.TcpConnection.Send`: the SSL variants of the socket and the file stream.
- `ThreadPool`: the hand-off to an event loop is the stronger version of the same idea.
- Log formatting, log file naming, `ProcessInfo`, uuid, MurmurHash, webbench: thin, or bound to libraries.
