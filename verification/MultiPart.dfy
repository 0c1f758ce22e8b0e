/** multipart/form-data bodies (haha_web/http/HttpMultiPart.cpp): the parser as a state machine over
    the bytes still to come, the same parser as a method over an index, and the round trip with the
    bodies section 4 of RFC 7578 describes. */
module MultiPart {
  import opened Text

  datatype Part = Part(name: string, fileName: string, fileType: string, data: string)

  type Form = map<string, string>
  type Files = map<string, seq<Part>>

  datatype Phase =
    | StartBody | StartBoundary | EndBoundary
    | StartDisposition | EndDisposition
    | StartType | EndType
    | StartData | EndData
    | EndBody

  /** The locals of parse and the two maps; rest is the body from index i on. */
  datatype State = State(rest: string, phase: Phase, name: string, filename: string, fileType: string, data: string,
                         fileMark: bool, form: Form, files: Files)

  /** The loop ends with the body, or goes round for ever without moving. */
  datatype Outcome = Finished(form: Form, files: Files) | Stuck(form: Form, files: Files)

  // ---------------------------------------------------------------- C strings

  /** strncmp(s, t, |t|) == 0; both end in a terminating zero. */
  predicate Strncmp(s: string, t: string) {
    t == "" ||
    var c := if s == "" then '\0' else s[0];
    c == t[0] && (c == '\0' || Strncmp(s[1..], t[1..]))
  }

  /** strncasecmp(s, t, |t|) == 0 for a t without zeros. */
  predicate Strncasecmp(s: string, t: string) {
    |t| <= |s| && forall k :: 0 <= k < |t| ==> ToLower(s[k]) == ToLower(t[k])
  }

  lemma StrncasecmpMeans(s: string, t: string)
    ensures Strncasecmp(s, t) <==> StartsUpToCase(s, t)
  {
    if |t| <= |s| {
      forall k | 0 <= k < |t|
        ensures ToLower(s[k]) == ToLower(t[k]) <==> SameLetter(s[..|t|][k], t[k])
      {
      }
    }
  }

  predicate Crlf(s: string) { CrlfAt(s, 0) }

  predicate OpensQuote(s: string) { |s| >= 2 && s[0] == '=' && s[1] == '"' }

  predicate Dashes(s: string) { |s| >= 2 && s[0] == '-' && s[1] == '-' }

  /** The body from index i on; the index may have stepped past the end. */
  function From(body: string, i: nat): string { if i <= |body| then body[i..] else "" }

  // ---------------------------------------------------------------- one turn of the machine

  /** The inner loop of start_content_disposition. */
  function ScanDisposition(st: State, open: bool, isName: bool): (r: State)
    ensures |r.rest| <= |st.rest|
    ensures r.form == st.form && r.files == st.files
    ensures r.data == st.data && r.fileType == st.fileType && r.fileMark == st.fileMark
    ensures r.rest != "" ==> r.phase == EndDisposition
    decreases |st.rest|
  {
    var s := st.rest;
    if s == "" then st
    else if Crlf(s) then st.(rest := s[2..], phase := EndDisposition)
    else if OpensQuote(s) then ScanDisposition(st.(rest := s[2..]), true, isName)
    else if s[0] == '"' then ScanDisposition(st.(rest := s[1..]), false, !isName)
    else if open then
      ScanDisposition(if isName then st.(rest := s[1..], name := st.name + [s[0]])
                      else st.(rest := s[1..], filename := st.filename + [s[0]]), open, isName)
    else ScanDisposition(st.(rest := s[1..]), open, isName)
  }

  /** The line end that ends a content type; -1 when there is none. */
  function ScanType(st: State): (r: State)
    ensures st.rest != "" ==> |r.rest| < |st.rest|
  {
    var n := FindCrlf(st.rest);
    if n < 0 then st.(rest := "", fileType := st.fileType + st.rest)
    else st.(rest := st.rest[n + 2..], fileType := st.fileType + st.rest[..n], phase := EndType)
  }

  /** CR LF, two dashes and the boundary. */
  predicate DelimiterAt(s: string, bd: string, k: nat) {
    k + 4 < |s| && s[k..k + 4] == "\r\n--" && Strncmp(s[k + 4..], bd)
  }

  /** The first delimiter from k on, or -1. */
  function FindDelimiter(s: string, bd: string, k: nat): (r: int)
    ensures r >= 0 ==> k <= r && DelimiterAt(s, bd, r)
    ensures forall j: nat :: k <= j && DelimiterAt(s, bd, j) ==> 0 <= r <= j
    decreases |s| - k
  {
    if k >= |s| then -1
    else if DelimiterAt(s, bd, k) then k
    else FindDelimiter(s, bd, k + 1)
  }

  function ScanData(st: State, bd: string): (r: State)
    ensures st.rest != "" ==> |r.rest| < |st.rest|
  {
    var n := FindDelimiter(st.rest, bd, 0);
    if n < 0 then st.(rest := "")
    else st.(rest := st.rest[n + 2..], data := st.rest[..n], phase := EndData)
  }

  /** form_.add overwrites; the second file of a name is added to a copy and lost. */
  function Store(form: Form, files: Files, isFile: bool, part: Part): (Form, Files) {
    if !isFile then (form[part.name := part.data], files)
    else if part.name in files then (form, files)
    else (form, files[part.name := [part]])
  }

  /** One turn of the outer loop: it moves on, or it changes nothing at all. */
  function Step(st: State, bd: string): (r: State)
    requires st.rest != ""
    ensures r == st || |r.rest| < |st.rest| || (|r.rest| == |st.rest| && st.phase == EndData && r.phase == StartBody)
  {
    var s := st.rest;
    match st.phase
    case StartBody => if Dashes(s) then st.(rest := s[2..], phase := StartBoundary) else st
    case StartBoundary =>
      if !Strncmp(s, bd) then st
      else
        var s := From(s, |bd|);
        if Crlf(s) then st.(rest := s[2..], phase := EndBoundary)
        else if Dashes(s) then st.(rest := s[2..], phase := EndBody)
        else st.(rest := s)
    case EndBoundary =>
      if Strncasecmp(s, "Content-Disposition") then st.(rest := From(s, 19), phase := StartDisposition) else st
    case StartDisposition => ScanDisposition(st.(rest := From(s, 13)), false, true)
    case EndDisposition =>
      if Crlf(s) then st.(rest := s[2..], phase := StartData, fileMark := false)
      else if Strncasecmp(s, "Content-Type") then st.(rest := From(s, 14), phase := StartType, fileMark := true)
      else st
    case StartType => ScanType(st)
    case EndType => if Crlf(s) then st.(rest := s[2..], phase := StartData) else st
    case StartData => ScanData(st, bd)
    case EndData =>
      var (form, files) := Store(st.form, st.files, st.fileMark, Part(st.name, st.filename, st.fileType, st.data));
      State(s, StartBody, "", "", "", "", false, form, files)
    case EndBody => st.(rest := From(s, 2))
  }

  function Run(st: State, bd: string): Outcome
    decreases |st.rest|, st.phase == EndData
  {
    if st.rest == "" then Finished(st.form, st.files)
    else if Step(st, bd) == st then Stuck(st.form, st.files)
    else Run(Step(st, bd), bd)
  }

  function Start(body: string, form: Form, files: Files): State {
    State(body, StartBody, "", "", "", "", false, form, files)
  }

  /** n turns of the outer loop. */
  function Turns(st: State, bd: string, n: nat): State
    decreases n
  {
    if n == 0 || st.rest == "" then st else Turns(Step(st, bd), bd, n - 1)
  }

  /** Run tells the two ends apart: some number of turns reaches the end of the body, or none does. */
  lemma {:induction false} FinishedIffTurnsEnd(st: State, bd: string)
    ensures Run(st, bd).Finished? ==> exists n :: Turns(st, bd, n).rest == ""
    ensures Run(st, bd).Stuck? ==> forall n :: Turns(st, bd, n).rest != ""
    decreases |st.rest|, st.phase == EndData
  {
    hide Step;
    if st.rest == "" {
      assert Turns(st, bd, 0).rest == "";
    } else if Step(st, bd) == st {
      forall n: nat
        ensures Turns(st, bd, n).rest != ""
      {
        StandsStill(st, bd, n);
      }
    } else {
      var next := Step(st, bd);
      assert |next.rest| < |st.rest| || (|next.rest| == |st.rest| && st.phase == EndData && next.phase == StartBody);
      FinishedIffTurnsEnd(next, bd);
      if Run(st, bd).Finished? {
        var n: nat :| Turns(next, bd, n).rest == "";
        assert Turns(st, bd, n + 1).rest == "";
      } else {
        forall n: nat
          ensures Turns(st, bd, n).rest != ""
        {
          if n > 0 {
            assert Turns(st, bd, n) == Turns(next, bd, n - 1);
          }
        }
      }
    }
  }

  lemma {:induction false} StandsStill(st: State, bd: string, n: nat)
    requires st.rest != "" && Step(st, bd) == st
    ensures Turns(st, bd, n) == st
  {
    if n > 0 {
      StandsStill(st, bd, n - 1);
    }
  }

  // ---------------------------------------------------------------- writing a body

  /** One form-data part: its headers are its name, its file name and its type, the last two optional; and how
      they are spelled. */
  datatype Item = Item(name: string, filename: Option<string>, fileType: Option<string>, data: string, how: Spelling)

  /** The names of the two header fields, in any case, and what stands around the quoted texts: any 13 bytes behind
      the first name (section 4 of RFC 7578 has ": form-data; " there), any words before each quoted text and
      before the line end, and any two bytes behind the second name. */
  datatype Spelling = Spelling(disposition: string, intro: string, key: string, fileKey: string, tail: string,
                               contentType: string, gap: string)

  const USUAL :=
    Spelling("Content-Disposition", ": form-data; ", "name", "; filename", "", "Content-Type", ": ")

  predicate Skippable(s: string) { '"' !in s && FindCrlf(s) < 0 }

  ghost predicate SpellingOk(w: Spelling) {
    && SameUpToCase(w.disposition, "Content-Disposition") && SameUpToCase(w.contentType, "Content-Type")
    && |w.intro| == 13 && |w.gap| == 2 && Skippable(w.key) && Skippable(w.fileKey) && Skippable(w.tail)
  }

  lemma UsualIsOk()
    ensures SpellingOk(USUAL)
  {
    hide SameUpToCase, Skippable;
    SameAsItself(USUAL.disposition);
    SameAsItself(USUAL.contentType);
    NoCr(USUAL.key);
    NoCr(USUAL.fileKey);
    NoCr(USUAL.tail);
  }

  lemma SameAsItself(s: string)
    ensures SameUpToCase(s, s)
  {
  }

  lemma NoCr(s: string)
    requires '\r' !in s && '"' !in s
    ensures Skippable(s)
  {
  }

  /** What may stand between the quotes. */
  predicate Quotable(s: string) {
    '"' !in s && FindCrlf(s) < 0 && (s != "" ==> s[|s| - 1] != '=')
  }

  predicate CleanBoundary(bd: string) { '\r' !in bd && '\0' !in bd }

  ghost predicate Fits(item: Item, bd: string) {
    && Quotable(item.name)
    && (item.filename.Some? ==> Quotable(item.filename.value))
    && (item.fileType.Some? ==> FindCrlf(item.fileType.value) < 0)
    && !Contains(item.data, "\r\n--" + bd)
    && SpellingOk(item.how)
  }

  /** Each piece of a body is written in front of what follows it. */
  function Quoted(s: string, more: string): string { "=\"" + (s + ("\"" + more)) }

  function WithType(item: Item, more: string): string {
    if item.fileType.Some? then item.how.contentType + (item.how.gap + (item.fileType.value + ("\r\n" + more)))
    else more
  }

  function WithFilename(item: Item, more: string): string {
    if item.filename.Some? then item.how.fileKey + Quoted(item.filename.value, more) else more
  }

  function Keys(item: Item, more: string): string {
    item.how.key + Quoted(item.name, WithFilename(item, item.how.tail + ("\r\n" + more)))
  }

  function Headers(item: Item, more: string): string {
    item.how.disposition + (item.how.intro + Keys(item, WithType(item, "\r\n" + more)))
  }

  /** section 5.1.1 of RFC 2046: every part behind its delimiter, the closing delimiter, an epilogue. */
  function Body(items: seq<Item>, bd: string, epilogue: string): string {
    if items == [] then "--" + (bd + ("--" + epilogue))
    else "--" + (bd + ("\r\n" + Headers(items[0], items[0].data + ("\r\n" + Body(items[1..], bd, epilogue)))))
  }

  function Filed(item: Item): Part {
    Part(item.name, item.filename.GetOr(""), item.fileType.GetOr(""), item.data)
  }

  /** What a part should do to the two maps. */
  function Absorb(item: Item, form: Form, files: Files): (Form, Files) {
    Store(form, files, item.fileType.Some?, Filed(item))
  }

  function AbsorbAll(items: seq<Item>, form: Form, files: Files): (Form, Files) {
    if items == [] then (form, files)
    else var (form, files) := Absorb(items[0], form, files); AbsorbAll(items[1..], form, files)
  }

  // ---------------------------------------------------------------- reading it back

  lemma {:induction false} StrncmpPrefix(s: string, t: string, more: string)
    requires s == t + more && '\0' !in t
    ensures Strncmp(s, t)
  {
    if t != "" {
      assert t == [t[0]] + t[1..];
      assert s[1..] == t[1..] + more;
      StrncmpPrefix(s[1..], t[1..], more);
    }
  }

  lemma {:induction false} StrncmpMeansPrefix(s: string, t: string)
    requires Strncmp(s, t) && '\0' !in t
    ensures StartsWith(s, t)
  {
    if t != "" {
      assert s != "";
      StrncmpMeansPrefix(s[1..], t[1..]);
      assert s == [s[0]] + s[1..] && t == [t[0]] + t[1..];
    }
  }

  /** Reading a quoted text collects it and stops behind the closing quote. */
  lemma {:induction false} QuotedRead(st: State, s: string, more: string, isName: bool)
    requires st.rest == s + ("\"" + more) && Quotable(s)
    ensures ScanDisposition(st, true, isName)
         == ScanDisposition(if isName then st.(rest := more, name := st.name + s)
                            else st.(rest := more, filename := st.filename + s), false, !isName)
    decreases |s|
  {
    hide FindCrlf, Quotable;
    if s == "" {
      QuoteCloses(st, more, isName);
      assert st.name + s == st.name && st.filename + s == st.filename;
    } else {
      hide ScanDisposition;
      var tail := s[1..];
      QuotedHead(st, s, more);
      QuotableTail(s);
      var st' := Collect(st, isName);
      CollectOne(st, isName);
      QuotedRead(st', tail, more, isName);
      AppendHead(st.name, s);
      AppendHead(st.filename, s);
    }
  }

  lemma AppendHead(a: string, s: string)
    requires s != ""
    ensures a + [s[0]] + s[1..] == a + s
  {
  }

  lemma QuoteCloses(st: State, more: string, isName: bool)
    requires st.rest == "" + ("\"" + more)
    ensures ScanDisposition(st, true, isName) == ScanDisposition(st.(rest := more), false, !isName)
  {
    assert st.rest == "\"" + more && st.rest[1..] == more;
  }

  function Collect(st: State, isName: bool): State
    requires st.rest != ""
  {
    if isName then st.(rest := st.rest[1..], name := st.name + [st.rest[0]])
    else st.(rest := st.rest[1..], filename := st.filename + [st.rest[0]])
  }

  lemma CollectOne(st: State, isName: bool)
    requires st.rest != "" && !Crlf(st.rest) && st.rest[0] != '"' && !OpensQuote(st.rest)
    ensures ScanDisposition(st, true, isName) == ScanDisposition(Collect(st, isName), true, isName)
  {
  }

  lemma QuotedHead(st: State, s: string, more: string)
    requires st.rest == s + ("\"" + more) && Quotable(s) && s != ""
    ensures st.rest[0] == s[0] && st.rest[1..] == s[1..] + ("\"" + more)
    ensures !Crlf(st.rest) && st.rest[0] != '"' && !OpensQuote(st.rest)
  {
    QuotableHead(s);
    QuotableTail(s);
    assert |s| > 1 ==> st.rest[1] == s[1];
    assert |s| == 1 ==> st.rest[1] == '"';
  }

  lemma QuotableHead(s: string)
    requires Quotable(s) && s != ""
    ensures s[0] != '"' && !CrlfAt(s, 0) && (s[0] == '=' ==> |s| > 1)
  {
    assert s[0] in s;
  }

  lemma QuotableTail(s: string)
    requires Quotable(s) && s != ""
    ensures Quotable(s[1..]) && !(|s| > 1 && s[0] == '=' && s[1] == '"')
  {
    assert |s| > 1 ==> s[1] in s;
    assert forall k :: CrlfAt(s[1..], k) ==> CrlfAt(s, k + 1);
  }

  /** Words without quotes or line ends are passed over. */
  lemma {:induction false} WordSkipped(st: State, word: string, more: string, isName: bool)
    requires st.rest == word + more && Skippable(word)
    requires more != "" && more[0] != '"' && more[0] != '\n'
    ensures ScanDisposition(st, false, isName) == ScanDisposition(st.(rest := more), false, isName)
    decreases |word|
  {
    if word == "" {
      assert st.rest == more && st == st.(rest := more);
    } else {
      var tail := word[1..];
      assert st.rest[0] == word[0] && word[0] in word;
      assert st.rest[1..] == tail + more;
      assert tail != "" ==> tail[0] in word && st.rest[1] == tail[0];
      assert CrlfAt(st.rest, 0) ==> CrlfAt(word, 0);
      assert forall k :: CrlfAt(tail, k) ==> CrlfAt(word, k + 1);
      WordSkipped(st.(rest := st.rest[1..]), word[1..], more, isName);
    }
  }

  lemma KeyRead(st: State, word: string, s: string, more: string, isName: bool)
    requires st.rest == word + Quoted(s, more)
    requires Skippable(word) && Quotable(s)
    ensures ScanDisposition(st, false, isName)
         == ScanDisposition(if isName then st.(rest := more, name := st.name + s)
                            else st.(rest := more, filename := st.filename + s), false, !isName)
  {
    WordSkipped(st, word, Quoted(s, more), isName);
    var st' := st.(rest := Quoted(s, more));
    var st'' := st.(rest := s + ("\"" + more));
    assert st'.rest[0] == '=' && st'.rest[1] == '"' && st'.rest[2..] == st''.rest;
    assert ScanDisposition(st', false, isName) == ScanDisposition(st'', true, isName) by { hide Quotable; }
    QuotedRead(st'', s, more, isName);
  }

  /** The whole header line. */
  lemma DispositionRead(st: State, item: Item, more: string)
    requires st.name == "" && st.filename == "" && st.rest == Keys(item, more)
    requires Quotable(item.name) && (item.filename.Some? ==> Quotable(item.filename.value)) && SpellingOk(item.how)
    ensures ScanDisposition(st, false, true)
         == st.(rest := more, phase := EndDisposition, name := item.name, filename := item.filename.GetOr(""))
  {
    hide Quotable, Quoted, ScanDisposition, Skippable;
    var end := item.how.tail + ("\r\n" + more);
    KeyRead(st, item.how.key, item.name, WithFilename(item, end), true);
    var st' := st.(rest := WithFilename(item, end), name := "" + item.name);
    assert "" + item.name == item.name;
    if item.filename.Some? {
      KeyRead(st', item.how.fileKey, item.filename.value, end, false);
      assert "" + item.filename.value == item.filename.value;
      LineEnds(st'.(rest := end, filename := item.filename.value), item.how.tail, more, true);
    } else {
      LineEnds(st', item.how.tail, more, false);
    }
  }

  lemma LineEnds(st: State, tail: string, more: string, isName: bool)
    requires st.rest == tail + ("\r\n" + more) && Skippable(tail)
    ensures ScanDisposition(st, false, isName) == st.(rest := more, phase := EndDisposition)
  {
    var end := "\r\n" + more;
    WordSkipped(st, tail, end, isName);
    assert Crlf(end) && end[2..] == more;
  }

  /** A boundary has no CR, so a delimiter cannot begin inside another one: the first delimiter is
      the one that was written. */
  lemma DataRead(data: string, bd: string, more: string)
    requires CleanBoundary(bd) && !Contains(data, "\r\n--" + bd)
    requires more != ""
    ensures FindDelimiter(data + ("\r\n" + ("--" + (bd + more))), bd, 0) == |data|
  {
    hide DelimiterAt, Contains;
    var s := data + ("\r\n" + ("--" + (bd + more)));
    DelimiterWritten(data, bd, more);
    forall j: nat | DelimiterAt(s, bd, j)
      ensures j >= |data|
    {
      NoEarlierDelimiter(data, bd, more, j);
    }
  }

  lemma DelimiterWritten(data: string, bd: string, more: string)
    requires CleanBoundary(bd) && more != ""
    ensures DelimiterAt(data + ("\r\n" + ("--" + (bd + more))), bd, |data|)
  {
    var tail := "\r\n" + ("--" + (bd + more));
    var s := data + tail;
    assert s[|data|..] == tail && tail[..4] == "\r\n--" && tail[4..] == bd + more;
    assert s[|data| + 4..] == tail[4..] && s[|data|..|data| + 4] == tail[..4];
    StrncmpPrefix(bd + more, bd, more);
  }

  lemma OneCr(bd: string)
    requires CleanBoundary(bd)
    ensures forall k :: 1 <= k < 4 + |bd| ==> ("\r\n--" + bd)[k] != '\r'
  {
  }

  lemma PrefixAt(s: string, mark: string, j: nat, k: nat)
    requires j <= k < |s| && k < j + |mark| <= |s| && s[j..][..|mark|] == mark
    ensures mark[k - j] == s[k]
  {
  }

  lemma NoEarlierDelimiter(data: string, bd: string, more: string, j: nat)
    requires CleanBoundary(bd) && !Contains(data, "\r\n--" + bd)
    requires DelimiterAt(data + ("\r\n" + ("--" + (bd + more))), bd, j)
    ensures j >= |data|
  {
    var s := data + ("\r\n" + ("--" + (bd + more)));
    StrncmpMeansPrefix(s[j + 4..], bd);
    var mark := "\r\n--" + bd;
    OneCr(bd);
    assert s[j..][..|mark|] == mark by {
      assert s[j..][..4] == s[j..j + 4] && s[j..][4..] == s[j + 4..];
      assert s[j..][..|mark|] == s[j..][..4] + s[j..][4..][..|bd|];
    }
    MarkInside(data, s, mark, j);
    if j < |data| && j + |mark| > |data| {
      PrefixAt(s, mark, j, |data|);
      assert false;
    }
  }

  /** A mark that ends before the data does is in the data. */
  lemma MarkInside(data: string, s: string, mark: string, j: nat)
    requires data <= s && j <= |s| && StartsWith(s[j..], mark)
    ensures j + |mark| <= |data| ==> Contains(data, mark)
  {
    if j + |mark| <= |data| {
      assert data[j..][..|mark|] == s[j..][..|mark|];
      assert StartsWith(data[j..], mark);
    }
  }

  // ---------------------------------------------------------------- the turns of one part

  lemma TurnTaken(st: State, next: State, bd: string)
    requires st.rest != "" && Step(st, bd) == next && next != st
    ensures Run(st, bd) == Run(next, bd)
  {
  }

  /** From the dashes to the end of the delimiter line. */
  lemma DelimiterTurns(st: State, bd: string, more: string)
    requires st.phase == StartBody && st.rest == "--" + (bd + ("\r\n" + more)) && CleanBoundary(bd)
    ensures Run(st, bd) == Run(st.(rest := more, phase := EndBoundary), bd)
  {
    var tail := "\r\n" + more;
    var st1 := st.(rest := bd + tail, phase := StartBoundary);
    assert st.rest[2..] == st1.rest;
    TurnTaken(st, st1, bd);
    StrncmpPrefix(st1.rest, bd, tail);
    assert From(st1.rest, |bd|) == tail && tail[2..] == more;
    TurnTaken(st1, st.(rest := more, phase := EndBoundary), bd);
  }

  lemma HeaderTurns(st: State, item: Item, bd: string, more: string)
    requires st.phase == EndBoundary && st.name == "" && st.filename == "" && st.fileType == ""
    requires st.rest == Headers(item, more) && Fits(item, bd)
    ensures Run(st, bd)
         == Run(st.(rest := more, phase := StartData, name := item.name, filename := item.filename.GetOr(""),
                    fileType := item.fileType.GetOr(""), fileMark := item.fileType.Some?), bd)
  {
    hide ScanDisposition, Quoted, WithFilename, Quotable, Strncasecmp, SameUpToCase, Keys;
    var end := WithType(item, "\r\n" + more);
    var fields := Keys(item, end);
    var st1 := st.(rest := item.how.intro + fields, phase := StartDisposition);
    WordTaken(item.how.disposition, "Content-Disposition", st1.rest);
    assert st1.rest != st.rest;
    TurnTaken(st, st1, bd);
    assert From(st1.rest, 13) == fields;
    DispositionRead(st1.(rest := fields), item, end);
    var st2 := st1.(rest := end, phase := EndDisposition, name := item.name, filename := item.filename.GetOr(""));
    TurnTaken(st1, st2, bd);
    TypeTurns(st2, item, bd, more);
  }

  lemma TypeTurns(st: State, item: Item, bd: string, more: string)
    requires st.phase == EndDisposition && st.fileType == ""
    requires st.rest == WithType(item, "\r\n" + more)
    requires (item.fileType.Some? ==> FindCrlf(item.fileType.value) < 0) && SpellingOk(item.how)
    ensures Run(st, bd) == Run(st.(rest := more, phase := StartData, fileType := item.fileType.GetOr(""),
                                   fileMark := item.fileType.Some?), bd)
  {
    hide FindCrlf, Skippable, SameUpToCase;
    var blank := "\r\n" + more;
    assert blank[2..] == more && Crlf(blank);
    match item.fileType
    case None => TurnTaken(st, st.(rest := more, phase := StartData, fileMark := false), bd);
    case Some(t) => TypeLineTurns(st, item.how, t, bd, blank);
      TurnTaken(st.(rest := blank, phase := EndType, fileType := t, fileMark := true),
                st.(rest := more, phase := StartData, fileType := t, fileMark := true), bd);
  }

  lemma TypeLineTurns(st: State, how: Spelling, t: string, bd: string, more: string)
    requires st.phase == EndDisposition && st.fileType == "" && SpellingOk(how)
    requires st.rest == how.contentType + (how.gap + (t + ("\r\n" + more))) && FindCrlf(t) < 0
    ensures Run(st, bd) == Run(st.(rest := more, phase := EndType, fileType := t, fileMark := true), bd)
  {
    hide FindCrlf, Strncasecmp, SameUpToCase, Skippable;
    var line := t + ("\r\n" + more);
    var st1 := st.(rest := line, phase := StartType, fileMark := true);
    TypeWord(how, line);
    TurnTaken(st, st1, bd);
    assert line == t + "\r\n" + more;
    FindCrlfAfter(t, more);
    assert line[|t| + 2..] == more && line[..|t|] == t && "" + t == t;
    TurnTaken(st1, st1.(rest := more, phase := EndType, fileType := t), bd);
  }

  lemma TypeWord(how: Spelling, line: string)
    requires SpellingOk(how)
    ensures var s := how.contentType + (how.gap + line);
      Strncasecmp(s, "Content-Type") && From(s, 14) == line && !Crlf(s)
  {
    hide Strncasecmp, Skippable;
    WordTaken(how.contentType, "Content-Type", how.gap + line);
    assert SameLetter(how.contentType[0], 'C');
    assert (how.gap + line)[2..] == line;
  }

  /** A header name is taken in any case. */
  lemma WordTaken(word: string, name: string, more: string)
    requires SameUpToCase(word, name)
    ensures Strncasecmp(word + more, name) && From(word + more, |name|) == more
  {
    StrncasecmpMeans(word + more, name);
    assert (word + more)[..|name|] == word;
  }

  lemma DataTurns(st: State, data: string, bd: string, more: string)
    requires st.phase == StartData && st.rest == data + ("\r\n" + ("--" + (bd + more)))
    requires CleanBoundary(bd) && !Contains(data, "\r\n--" + bd) && more != ""
    ensures var (form, files) := Store(st.form, st.files, st.fileMark, Part(st.name, st.filename, st.fileType, data));
      Run(st, bd) == Run(Start("--" + (bd + more), form, files), bd)
  {
    hide FindDelimiter, Contains;
    var tail := "--" + (bd + more);
    DataRead(data, bd, more);
    assert st.rest[|data| + 2..] == tail && st.rest[..|data|] == data by {
      assert st.rest[|data|..] == "\r\n" + tail && ("\r\n" + tail)[2..] == tail;
    }
    var st1 := st.(rest := tail, data := data, phase := EndData);
    TurnTaken(st, st1, bd);
    var (form, files) := Store(st.form, st.files, st.fileMark, Part(st.name, st.filename, st.fileType, data));
    TurnTaken(st1, Start(tail, form, files), bd);
  }

  /** The closing delimiter; an epilogue is passed over two bytes at a time. */
  lemma ClosingTurns(epilogue: string, bd: string, form: Form, files: Files)
    requires CleanBoundary(bd)
    ensures Run(Start("--" + (bd + ("--" + epilogue)), form, files), bd) == Finished(form, files)
  {
    var st := Start("--" + (bd + ("--" + epilogue)), form, files);
    var tail := "--" + epilogue;
    var st1 := st.(rest := bd + tail, phase := StartBoundary);
    assert st.rest[2..] == st1.rest;
    TurnTaken(st, st1, bd);
    StrncmpPrefix(st1.rest, bd, tail);
    assert From(st1.rest, |bd|) == tail && tail[2..] == epilogue && !Crlf(tail);
    TurnTaken(st1, st.(rest := epilogue, phase := EndBody), bd);
    EpilogueSkipped(st.(rest := epilogue, phase := EndBody), bd);
  }

  lemma {:induction false} EpilogueSkipped(st: State, bd: string)
    requires st.phase == EndBody
    ensures Run(st, bd) == Finished(st.form, st.files)
    decreases |st.rest|
  {
    if st.rest != "" {
      var next := st.(rest := From(st.rest, 2));
      TurnTaken(st, next, bd);
      EpilogueSkipped(next, bd);
    }
  }

  lemma BodyNext(items: seq<Item>, bd: string, epilogue: string) returns (more: string)
    ensures Body(items, bd, epilogue) == "--" + (bd + more) && more != ""
  {
    more := if items == [] then "--" + epilogue
            else "\r\n" + Headers(items[0], items[0].data + ("\r\n" + Body(items[1..], bd, epilogue)));
  }

  /** Every body written from parts is read to its end, and puts into the two maps exactly what the
      parts say, in order: a later form value replaces an earlier one, a later file is lost. */
  lemma {:induction false} BodyRead(items: seq<Item>, bd: string, epilogue: string, form: Form, files: Files)
    requires CleanBoundary(bd) && forall item <- items :: Fits(item, bd)
    ensures var (form', files') := AbsorbAll(items, form, files);
      Run(Start(Body(items, bd, epilogue), form, files), bd) == Finished(form', files')
    decreases |items|
  {
    hide Headers, Fits, Run, Contains, Store;
    if items == [] {
      ClosingTurns(epilogue, bd, form, files);
    } else {
      var item := items[0];
      FitsData(item, bd);
      var next := Body(items[1..], bd, epilogue);
      var st := Start(Body(items, bd, epilogue), form, files);
      var content := item.data + ("\r\n" + next);
      DelimiterTurns(st, bd, Headers(item, content));
      HeaderTurns(st.(rest := Headers(item, content), phase := EndBoundary), item, bd, content);
      var st' := st.(rest := content, phase := StartData, name := item.name, filename := item.filename.GetOr(""),
                     fileType := item.fileType.GetOr(""), fileMark := item.fileType.Some?);
      var more := BodyNext(items[1..], bd, epilogue);
      DataTurns(st', item.data, bd, more);
      var (form', files') := Absorb(item, form, files);
      BodyRead(items[1..], bd, epilogue, form', files');
    }
  }

  lemma FitsData(item: Item, bd: string)
    requires Fits(item, bd)
    ensures !Contains(item.data, "\r\n--" + bd)
  {
  }

  // ---------------------------------------------------------------- what is found

  predicate IsFile(item: Item) { item.fileType.Some? }

  /** The parts of one kind and name, in order. */
  function Named(items: seq<Item>, file: bool, name: string): seq<Item> {
    if items == [] then []
    else
      var front, last := Named(items[..|items| - 1], file, name), items[|items| - 1];
      if IsFile(last) == file && last.name == name then front + [last] else front
  }

  lemma {:induction false} NamedAre(items: seq<Item>, file: bool, name: string)
    ensures forall item <- Named(items, file, name) :: item in items && IsFile(item) == file && item.name == name
    ensures forall item <- items :: IsFile(item) == file && item.name == name ==> item in Named(items, file, name)
  {
    if items != [] {
      NamedAre(items[..|items| - 1], file, name);
      assert items == items[..|items| - 1] + [items[|items| - 1]];
    }
  }

  /** The maps hold the last value of every form name and the first file of every file name, and
      nothing else. */
  ghost predicate HeldUnder(items: seq<Item>, form: Form, files: Files, name: string) {
    var values, sent := Named(items, false, name), Named(items, true, name);
    && (name in form <==> values != []) && (values != [] ==> form[name] == values[|values| - 1].data)
    && (name in files <==> sent != []) && (sent != [] ==> |files[name]| == 1 && IsPartOf(files[name][0], sent[0]))
  }

  /** A part holds its item's name and data, and its file name and type, or nothing for those not given. */
  predicate IsPartOf(part: Part, item: Item) {
    && part.name == item.name && part.data == item.data
    && part.fileName == (match item.filename case Some(t) => t case None => "")
    && part.fileType == (match item.fileType case Some(t) => t case None => "")
  }

  lemma PartOfIsFiled(part: Part, item: Item)
    ensures IsPartOf(part, item) <==> part == Filed(item)
  {
  }

  lemma {:induction false} LastValueFirstFile(items: seq<Item>, name: string)
    ensures var (form, files) := AbsorbAll(items, map[], map[]); HeldUnder(items, form, files, name)
  {
    if items != [] {
      var front, last := items[..|items| - 1], items[|items| - 1];
      LastValueFirstFile(front, name);
      AbsorbLast(items, map[], map[]);
    }
  }

  lemma {:induction false} AbsorbLast(items: seq<Item>, form: Form, files: Files)
    requires items != []
    ensures var (f, g) := AbsorbAll(items[..|items| - 1], form, files);
      AbsorbAll(items, form, files) == Absorb(items[|items| - 1], f, g)
  {
    hide Absorb;
    var front := items[..|items| - 1];
    if |items| > 1 {
      var (f, g) := Absorb(items[0], form, files);
      AbsorbLast(items[1..], f, g);
      assert front[1..] == items[1..][..|items| - 2];
    } else {
      assert AbsorbAll(items[1..], form, files) == (form, files);
    }
  }

  /** The part is found again: its value under its name, or the file among those of its name. */
  predicate Found(item: Item, form: Form, files: Files) {
    if IsFile(item) then item.name in files && Filed(item) in files[item.name]
    else item.name in form && form[item.name] == item.data
  }

  /** Two parts of one kind and name that are not the same. */
  predicate Conflict(a: Item, b: Item) {
    a.name == b.name && IsFile(a) == IsFile(b) && if IsFile(a) then Filed(a) != Filed(b) else a.data != b.data
  }

  /** Every part is found exactly when no two of one kind and name differ. */
  lemma AllFoundIff(items: seq<Item>)
    ensures var (form, files) := AbsorbAll(items, map[], map[]);
      (forall item <- items :: Found(item, form, files)) <==> forall a <- items, b <- items :: !Conflict(a, b)
  {
    hide Filed, AbsorbAll, HeldUnder, Found, Conflict;
    var (form, files) := AbsorbAll(items, map[], map[]);
    forall item <- items
      ensures HeldUnder(items, form, files, item.name)
    {
      LastValueFirstFile(items, item.name);
    }
    if forall a <- items, b <- items :: !Conflict(a, b) {
      forall item <- items
        ensures Found(item, form, files)
      {
        FoundIfAgreed(items, item, form, files);
      }
    }
    if forall item <- items :: Found(item, form, files) {
      forall a <- items, b <- items
        ensures !Conflict(a, b)
      {
        BothFound(items, a, b, form, files);
      }
    }
  }

  lemma FoundIfAgreed(items: seq<Item>, item: Item, form: Form, files: Files)
    requires item in items && HeldUnder(items, form, files, item.name)
    requires forall b <- items :: !Conflict(item, b)
    ensures Found(item, form, files)
  {
    hide Filed, IsPartOf;
    forall part, sent
      ensures IsPartOf(part, sent) <==> part == Filed(sent)
    {
      PartOfIsFiled(part, sent);
    }
    var same := Named(items, IsFile(item), item.name);
    NamedAre(items, IsFile(item), item.name);
    assert same[0] in items && same[|same| - 1] in items;
  }

  lemma BothFound(items: seq<Item>, a: Item, b: Item, form: Form, files: Files)
    requires HeldUnder(items, form, files, a.name) && Found(a, form, files) && Found(b, form, files)
    ensures !Conflict(a, b)
  {
    hide Filed, Named, IsPartOf;
    forall part, sent
      ensures IsPartOf(part, sent) <==> part == Filed(sent)
    {
      PartOfIsFiled(part, sent);
    }
  }

  /** The files of each name are all there, in order, exactly when no file name is used twice: the
      vector kept for a name never grows beyond its first file. */
  lemma AllFilesKeptIff(items: seq<Item>)
    ensures var (form, files) := AbsorbAll(items, map[], map[]);
      (forall name <- files :: |files[name]| == |Named(items, true, name)|)
      <==> forall i, j ::
        0 <= i < j < |items| && IsFile(items[i]) && IsFile(items[j]) ==> items[i].name != items[j].name
  {
    var (form, files) := AbsorbAll(items, map[], map[]);
    forall name: string
      ensures HeldUnder(items, form, files, name)
    {
      LastValueFirstFile(items, name);
    }
    if i, j :| 0 <= i < j < |items| && IsFile(items[i]) && IsFile(items[j]) && items[i].name == items[j].name {
      NamedTwice(items, i, j);
      assert HeldUnder(items, form, files, items[i].name);
      assert items[i].name in files;
    }
    if name :| name in files && |files[name]| != |Named(items, true, name)| {
      assert HeldUnder(items, form, files, name);
      var i, j := TwiceNamed(items, name);
    }
  }

  lemma {:induction false} NamedTwice(items: seq<Item>, i: nat, j: nat)
    requires i < j < |items| && IsFile(items[i]) && IsFile(items[j]) && items[i].name == items[j].name
    ensures |Named(items, true, items[i].name)| >= 2
  {
    var front := items[..|items| - 1];
    if j < |front| {
      NamedTwice(front, i, j);
    } else {
      NamedAre(front, true, items[i].name);
      assert front[i] in Named(front, true, items[i].name);
    }
  }

  lemma {:induction false} TwiceNamed(items: seq<Item>, name: string) returns (i: nat, j: nat)
    requires |Named(items, true, name)| >= 2
    ensures i < j < |items| && IsFile(items[i]) && IsFile(items[j]) && items[i].name == items[j].name == name
  {
    var front := items[..|items| - 1];
    if |Named(front, true, name)| >= 2 {
      i, j := TwiceNamed(front, name);
    } else {
      NamedAre(front, true, name);
      assert Named(front, true, name)[0] in front;
      i :| 0 <= i < |front| && front[i] == Named(front, true, name)[0];
      j := |front|;
    }
  }

  /** The round trip: any list of parts, written and parsed, is found again whole exactly when no two of
      one kind and name differ. In any case only what was sent is found: the last value and the first
      file of each name. */
  lemma RoundTripIff(items: seq<Item>, bd: string, epilogue: string)
    requires CleanBoundary(bd) && forall item <- items :: Fits(item, bd)
    ensures var r := Run(Start(Body(items, bd, epilogue), map[], map[]), bd);
      r.Finished?
      && (forall name :: HeldUnder(items, r.form, r.files, name))
      && ((forall item <- items :: Found(item, r.form, r.files)) <==> forall a <- items, b <- items :: !Conflict(a, b))
  {
    hide *;
    BodyRead(items, bd, epilogue, map[], map[]);
    AllFoundIff(items);
    var (form, files) := AbsorbAll(items, map[], map[]);
    forall name: string
      ensures HeldUnder(items, form, files, name)
    {
      LastValueFirstFile(items, name);
    }
  }

  /** Of two different files of one name, whatever stands around them, one is lost. */
  lemma SecondFileLost(items: seq<Item>, i: nat, j: nat, bd: string, epilogue: string)
    requires CleanBoundary(bd) && forall item <- items :: Fits(item, bd)
    requires i < |items| && j < |items| && IsFile(items[i]) && Conflict(items[i], items[j])
    ensures var r := Run(Start(Body(items, bd, epilogue), map[], map[]), bd);
      r.Finished? && !(Found(items[i], r.form, r.files) && Found(items[j], r.form, r.files))
  {
    hide Run, Body, Fits, Filed, AbsorbAll;
    BodyRead(items, bd, epilogue, map[], map[]);
    LastValueFirstFile(items, items[i].name);
  }

  // ---------------------------------------------------------------- where the machine stands still

  /** The guards that fail without moving on. */
  predicate BadSpot(st: State, bd: string) {
    var s := st.rest;
    match st.phase
    case StartBody => !Dashes(s)
    case StartBoundary => !Strncmp(s, bd) || (bd == "" && !Crlf(s) && !Dashes(s))
    case EndBoundary => !Strncasecmp(s, "Content-Disposition")
    case EndDisposition => !Crlf(s) && !Strncasecmp(s, "Content-Type")
    case EndType => !Crlf(s)
    case _ => false
  }

  lemma StandsStillIff(st: State, bd: string)
    requires st.rest != ""
    ensures Step(st, bd) == st <==> BadSpot(st, bd)
  {
    hide ScanDisposition, FindDelimiter, FindCrlf, Strncmp, Strncasecmp;
  }

  /** After n turns the machine is at a bad spot. */
  predicate Trapped(st: State, bd: string, n: nat) {
    var now := Turns(st, bd, n); now.rest != "" && BadSpot(now, bd)
  }

  /** The loop goes round for ever exactly when some turn comes to a bad spot before the body ends. */
  lemma {:induction false} StuckIffBadSpot(st: State, bd: string)
    ensures Run(st, bd).Stuck? <==> exists n: nat :: Trapped(st, bd, n)
    decreases |st.rest|, st.phase == EndData
  {
    hide Step, BadSpot;
    if st.rest == "" {
      assert forall n :: Turns(st, bd, n) == st;
    } else {
      StandsStillIff(st, bd);
      assert Turns(st, bd, 0) == st;
      if Step(st, bd) == st {
        StandsRun(st, bd);
        assert Trapped(st, bd, 0);
      } else {
        var next := Step(st, bd);
        TurnTaken(st, next, bd);
        StuckIffBadSpot(next, bd);
        if n: nat :| Trapped(next, bd, n) {
          assert Trapped(st, bd, n + 1);
        }
        if n: nat :| Trapped(st, bd, n) {
          assert Trapped(next, bd, n - 1);
        }
      }
    }
  }

  /** With no boundary set, as inside HttpRequest, the loop never ends on a body that does not begin
      with two dashes, nor when something other than a line end or two more dashes follows them. */
  lemma NoBoundaryHangs(body: string, form: Form, files: Files)
    requires body != ""
    requires !Dashes(body) || (|body| > 2 && !Crlf(body[2..]) && !Dashes(body[2..]))
    ensures Run(Start(body, form, files), "") == Stuck(form, files)
  {
    hide Run;
    var st := Start(body, form, files);
    StandsStillIff(st, "");
    if Dashes(body) {
      var st1 := st.(rest := body[2..], phase := StartBoundary);
      TurnTaken(st, st1, "");
      StandsStillIff(st1, "");
      StandsRun(st1, "");
    } else {
      StandsRun(st, "");
    }
  }

  /** It does end on a body of four dashes and anything, without finding a part. */
  lemma FourDashesEnd(rest: string, form: Form, files: Files)
    ensures Run(Start("----" + rest, form, files), "") == Finished(form, files)
  {
    ClosingTurns(rest, "", form, files);
    assert "--" + ("" + ("--" + rest)) == "----" + rest;
  }

  lemma EmptyEnds(form: Form, files: Files)
    ensures Run(Start("", form, files), "") == Finished(form, files)
  {
  }

  /** Two dashes and a line end bring the machine to where it looks for a part. */
  lemma NoBoundaryLine(more: string, form: Form, files: Files)
    ensures Run(Start("--\r\n" + more, form, files), "")
         == Run(Start("", form, files).(rest := more, phase := EndBoundary), "")
  {
    DelimiterTurns(Start("--\r\n" + more, form, files), "", more);
    assert "--" + ("" + ("\r\n" + more)) == "--\r\n" + more;
  }

  /** It ends there when nothing follows, or before it, and never ends when no part does. */
  lemma DashesEnd(form: Form, files: Files)
    ensures Run(Start("--", form, files), "") == Finished(form, files)
    ensures Run(Start("--\r\n", form, files), "") == Finished(form, files)
  {
    var st := Start("--", form, files);
    TurnTaken(st, st.(rest := "", phase := StartBoundary), "");
    NoBoundaryLine("", form, files);
    assert "--\r\n" + "" == "--\r\n";
  }

  lemma NoPartHangs(more: string, form: Form, files: Files)
    requires more != "" && !Strncasecmp(more, "Content-Disposition")
    ensures Run(Start("--\r\n" + more, form, files), "") == Stuck(form, files)
  {
    hide Run;
    var st := Start("", form, files).(rest := more, phase := EndBoundary);
    NoBoundaryLine(more, form, files);
    StandsStillIff(st, "");
    StandsRun(st, "");
  }

  lemma StandsRun(st: State, bd: string)
    requires st.rest != "" && Step(st, bd) == st
    ensures Run(st, bd) == Stuck(st.form, st.files)
  {
  }
}
