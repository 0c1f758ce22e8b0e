/** HttpMultiPart::parse as the loop over an index that it is (haha_web/http/HttpMultiPart.cpp). */
module HttpMultiPart {
  import opened Text
  import opened MultiPart

  const BUF_SIZE := 4096

  lemma DelimiterShift(body: string, start: nat, i: nat, bd: string)
    requires start <= i <= |body|
    ensures DelimiterAt(body[start..], bd, i - start) <==>
            i + 4 < |body| && body[i] == '\r' && body[i + 1] == '\n' && body[i + 2] == '-' && body[i + 3] == '-'
            && Strncmp(body[i + 4..], bd)
  {
    var s := body[start..];
    if i + 4 < |body| {
      assert s[i - start..i - start + 4] == [body[i], body[i + 1], body[i + 2], body[i + 3]];
      assert s[i - start + 4..] == body[i + 4..];
    }
  }

  lemma FromNext(body: string, i: nat, n: nat)
    ensures From(body, i + n) == From(From(body, i), n)
    ensures i + n <= |body| ==> From(body, i + n) == From(body, i)[n..]
  {
  }

  lemma FromStart(body: string)
    ensures From(body, 0) == body
  {
  }

  lemma FromAll(body: string)
    ensures From(body, |body|) == ""
  {
  }

  lemma FromAt(body: string, i: nat)
    ensures (From(body, i) == "") == (i >= |body|)
    ensures i < |body| ==> From(body, i) == body[i..]
    ensures Crlf(From(body, i)) <==> i + 1 < |body| && body[i] == '\r' && body[i + 1] == '\n'
    ensures Dashes(From(body, i)) <==> i + 1 < |body| && body[i] == '-' && body[i + 1] == '-'
  {
  }

  lemma RunTurn(st: State, bd: string)
    requires st.rest != ""
    ensures Run(st, bd) == Run(Step(st, bd), bd)
  {
  }

  /** The four turns that gather something. */
  lemma StepIs(st: State, bd: string)
    requires st.rest != ""
    ensures st.phase == StartDisposition ==>
      Step(st, bd) == ScanDisposition(st.(rest := From(st.rest, 13)), false, true)
    ensures st.phase == StartType ==> Step(st, bd) == ScanType(st)
    ensures st.phase == StartData ==> Step(st, bd) == ScanData(st, bd)
    ensures st.phase == EndData ==>
      var (form, files) := Store(st.form, st.files, st.fileMark, Part(st.name, st.filename, st.fileType, st.data));
      Step(st, bd) == State(st.rest, StartBody, "", "", "", "", false, form, files)
  {
  }

  lemma RunEnds(st: State, bd: string)
    ensures st.rest == "" ==> Run(st, bd) == Finished(st.form, st.files)
    ensures st.rest != "" && Step(st, bd) == st ==> Run(st, bd) == Stuck(st.form, st.files)
  {
  }

  class Parser {
    var bd: string
    var form: Form
    var files: Files

    constructor (boundary: string)
      ensures bd == boundary && form == map[] && files == map[]
    {
      bd, form, files := boundary, map[], map[];
    }

    /** The data up to the delimiter, gathered in a buffer of fixed size that is emptied into the
        string whenever it is full. */
    method ReadData(body: string, start: nat) returns (i: nat, data: string, found: bool)
      requires start < |body|
      ensures i > start
      ensures var n := FindDelimiter(body[start..], bd, 0);
        if n < 0 then !found && i == |body|
        else found && i == start + n + 2 && i <= |body| && data == body[start..][..n]
    {
      hide DelimiterAt;
      ghost var s := body[start..];
      var buffer := new char[BUF_SIZE];
      var k := 0;
      i, data, found := start, "", false;
      while i < |body|
        invariant start <= i <= |body| && k < BUF_SIZE
        invariant data + buffer[..k] == body[start..i]
        invariant FindDelimiter(s, bd, 0) == FindDelimiter(s, bd, i - start)
      {
        DelimiterShift(body, start, i, bd);
        if i + 4 < |body| && body[i] == '\r' && body[i + 1] == '\n' && body[i + 2] == '-' && body[i + 3] == '-'
           && Strncmp(body[i + 4..], bd) {
          if k != 0 {
            data := data + buffer[..k];
          }
          assert data == body[start..i] == s[..i - start];
          data := data[..i - start];
          i := i + 2;
          found := true;
          return;
        }
        ghost var held := buffer[..k];
        buffer[k] := body[i];
        assert buffer[..k + 1] == held + [body[i]] && body[start..i + 1] == body[start..i] + [body[i]];
        assert data + buffer[..k + 1] == body[start..i + 1];
        k, i := k + 1, i + 1;
        if k >= BUF_SIZE {
          data := data + buffer[..BUF_SIZE];
          k := 0;
        }
      }
    }

    /** The line with name="..." and filename="...". */
    method ReadDisposition(body: string, start: nat, name0: string, filename0: string, ghost st: State)
      returns (i: nat, ended: bool, name: string, filename: string)
      requires st.rest == From(body, start) && st.phase == StartDisposition
      requires st.name == name0 && st.filename == filename0
      ensures i >= start
      ensures ScanDisposition(st, false, true)
           == st.(rest := From(body, i), phase := if ended then EndDisposition else StartDisposition,
                  name := name, filename := filename)
    {
      i, ended, name, filename := start, false, name0, filename0;
      var startNameFilename, isName := false, true;
      ghost var cur := st;
      while i < |body|
        invariant i >= start && cur == st.(rest := From(body, i), name := name, filename := filename)
        invariant ScanDisposition(st, false, true) == ScanDisposition(cur, startNameFilename, isName)
        decreases |body| - i
      {
        FromNext(body, i, 1);
        FromNext(body, i, 2);
        if i + 1 < |body| && body[i] == '\r' && body[i + 1] == '\n' {
          i := i + 2;
          ended := true;
          return;
        }
        if i + 1 < |body| && body[i] == '=' && body[i + 1] == '"' {
          i := i + 2;
          startNameFilename := true;
        } else if body[i] == '"' {
          startNameFilename := false;
          isName := !isName;
          i := i + 1;
        } else if startNameFilename {
          if isName {
            name := name + [body[i]];
          } else {
            filename := filename + [body[i]];
          }
          i := i + 1;
        } else {
          i := i + 1;
        }
        cur := st.(rest := From(body, i), name := name, filename := filename);
      }
    }

    method ReadType(body: string, start: nat, type0: string) returns (i: nat, ended: bool, fileType: string)
      requires start < |body|
      ensures var s := body[start..];
        var n := FindCrlf(s);
        if n < 0 then !ended && i == |body| && fileType == type0 + s
        else ended && i == start + n + 2 && fileType == type0 + s[..n]
    {
      i, ended, fileType := start, false, type0;
      ghost var s := body[start..];
      while i < |body|
        invariant start <= i <= |body| && fileType == type0 + s[..i - start]
        invariant forall k :: 0 <= k < i - start ==> !CrlfAt(s, k)
      {
        if i + 1 < |body| && body[i] == '\r' && body[i + 1] == '\n' {
          assert CrlfAt(s, i - start);
          i := i + 2;
          ended := true;
          return;
        }
        fileType := fileType + [body[i]];
        assert s[..i - start + 1] == s[..i - start] + [body[i]];
        i := i + 1;
      }
      assert s[..|s|] == s;
    }

    method AddPart(name: string, filename: string, fileType: string, data: string, fileMark: bool)
      modifies `form, `files
      ensures (form, files) == Store(old(form), old(files), fileMark, Part(name, filename, fileType, data))
    {
      if !fileMark {
        form := form[name := data];
      } else if name !in files {
        files := files[name := [Part(name, filename, fileType, data)]];
      }
    }

    /** The turns that look for a mark at i and step over it. */
    method MarkTurn(body: string, start: nat, phase0: Phase, mark0: bool, ghost st: State)
      returns (i: nat, phase: Phase, fileMark: bool, hangs: bool)
      requires start < |body| && st.rest == From(body, start) && st.phase == phase0 && st.fileMark == mark0
      requires phase0 in {StartBody, StartBoundary, EndBoundary, EndDisposition, EndType, EndBody}
      ensures Step(st, bd) == st.(rest := From(body, i), phase := phase, fileMark := fileMark)
      ensures hangs ==> Step(st, bd) == st
      ensures !hangs ==> i > start
      ensures phase != EndData
    {
      hide Run, Strncmp, Strncasecmp, From, Crlf, Dashes;
      i, phase, fileMark, hangs := start, phase0, mark0, true;
      FromAt(body, i);
      FromNext(body, i, 2);
      match phase {
      case StartBody =>
        if i + 1 < |body| && body[i] == '-' && body[i + 1] == '-' {
          i, phase, hangs := i + 2, StartBoundary, false;
        }
      case StartBoundary =>
        if Strncmp(body[i..], bd) {
          FromNext(body, i, |bd|);
          i := i + |bd|;
          FromAt(body, i);
          FromNext(body, i, 2);
          if i + 1 < |body| && body[i] == '\r' && body[i + 1] == '\n' {
            i, phase, hangs := i + 2, EndBoundary, false;
          } else if i + 1 < |body| && body[i] == '-' && body[i + 1] == '-' {
            i, phase, hangs := i + 2, EndBody, false;
          } else {
            hangs := bd == "";
          }
        }
      case EndBoundary =>
        if Strncasecmp(body[i..], "Content-Disposition") {
          FromNext(body, i, 19);
          i, phase, hangs := i + 19, StartDisposition, false;
        }
      case EndDisposition =>
        if i + 1 < |body| && body[i] == '\r' && body[i + 1] == '\n' {
          i, phase, fileMark, hangs := i + 2, StartData, false, false;
        } else if Strncasecmp(body[i..], "Content-Type") {
          FromNext(body, i, 14);
          i, phase, fileMark, hangs := i + 14, StartType, true, false;
        }
      case EndType =>
        if i + 1 < |body| && body[i] == '\r' && body[i + 1] == '\n' {
          i, phase, hangs := i + 2, StartData, false;
        }
      case EndBody =>
        i, hangs := i + 2, false;
      }
    }

    /** The turns that gather a header line, a type or the data. */
    method GatherTurn(body: string, start: nat, phase0: Phase, name0: string, filename0: string,
                      type0: string, data0: string, ghost st: State)
      returns (i: nat, phase: Phase, name: string, filename: string, fileType: string, data: string)
      requires start < |body| && st.rest == From(body, start) && st.phase == phase0
      requires st.name == name0 && st.filename == filename0 && st.fileType == type0
      requires phase0 in {StartDisposition, StartType, StartData}
      ensures i > start
      ensures Step(st, bd) == st.(rest := From(body, i), phase := phase, name := name, filename := filename,
                                  fileType := fileType, data := if phase == EndData then data else st.data)
    {
      hide Step, ScanDisposition, From, FindCrlf, FindDelimiter;
      FromAt(body, start);
      FromAll(body);
      StepIs(st, bd);
      phase, name, filename, fileType, data := phase0, name0, filename0, type0, data0;
      if phase == StartDisposition {
        FromNext(body, start, 13);
        var ended;
        ghost var st' := st.(rest := From(body, start + 13));
        i, ended, name, filename := ReadDisposition(body, start + 13, name, filename, st');
        phase := if ended then EndDisposition else phase;
      } else if phase == StartType {
        var ended;
        i, ended, fileType := ReadType(body, start, fileType);
        FromNext(body, start, i - start);
        phase := if ended then EndType else phase;
      } else {
        var found;
        i, data, found := ReadData(body, start);
        FromNext(body, start, i - start);
        phase := if found then EndData else phase;
      }
    }

    /** hangs: the loop has come to a point from which it would go on for ever. */
    method Parse(body: string) returns (hangs: bool)
      modifies `form, `files
      ensures match Run(Start(body, old(form), old(files)), bd)
        case Finished(f, g) => !hangs && form == f && files == g
        case Stuck(f, g) => hangs && form == f && files == g
    {
      hide Step, ScanDisposition, Run, From, Store, FindCrlf, FindDelimiter;
      var i: nat, phase := 0, StartBody;
      hangs := false;
      var name, filename, fileType, data, fileMark := "", "", "", "", false;
      ghost var cur := Start(body, form, files);
      ghost var first := cur;
      FromStart(body);
      while i < |body| && !hangs
        invariant cur.rest == From(body, i) && cur.phase == phase && cur.fileMark == fileMark
        invariant cur.name == name && cur.filename == filename && cur.fileType == fileType
        invariant cur.form == form && cur.files == files
        invariant phase == EndData ==> cur.data == data
        invariant Run(first, bd) == Run(cur, bd)
        invariant hangs ==> cur.rest != "" && Step(cur, bd) == cur
        decreases !hangs, |body| - i, phase == EndData
      {
        FromAt(body, i);
        FromAll(body);
        ghost var before := cur;
        StepIs(cur, bd);
        match phase {
        case EndData =>
          AddPart(name, filename, fileType, data, fileMark);
          name, filename, fileType, data, fileMark, phase := "", "", "", "", false, StartBody;
        case StartDisposition =>
          i, phase, name, filename, fileType, data := GatherTurn(body, i, phase, name, filename, fileType, data, cur);
        case StartType =>
          i, phase, name, filename, fileType, data := GatherTurn(body, i, phase, name, filename, fileType, data, cur);
        case StartData =>
          i, phase, name, filename, fileType, data := GatherTurn(body, i, phase, name, filename, fileType, data, cur);
        case _ =>
          i, phase, fileMark, hangs := MarkTurn(body, i, phase, fileMark, cur);
        }
        cur := Step(before, bd);
        if !hangs {
          RunTurn(before, bd);
        }
      }
      FromAt(body, i);
      RunEnds(cur, bd);
    }
  }
}
