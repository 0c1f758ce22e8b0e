/** The stream a log line is formatted into (haha_web/log/LogStream.h, LogStream.cpp): a small fixed buffer
    that leaves out every piece it has no room for. This is where log text is lost; a line once formatted is
    shorter than the appender's buffers and always accepted. */
module LogStream {
  import opened Text
  import Util
  import Digits
  import opened LogModel
  import opened LogAppender

  /** What operator<< writes: text as it is, or an integer in decimal. */
  datatype Piece = Chars(chars: string) | Number(value: int)

  function Shown(p: Piece): string {
    match p case Chars(text) => text case Number(value) => IntText(value)
  }

  /** kSmallBuffer, 4000 in the code, and kMaxNumericSize, 48. */
  datatype Limits = Limits(small: nat, numeric: nat)

  /** Text needs room left after it; a number needs as much as the longest number, however short it is. */
  predicate HasRoom(l: Limits, line: string, p: Piece) {
    match p
    case Chars(text) => Takes(l.small, line, text)
    case Number(_) => l.small >= |line| + l.numeric
  }

  function Written(l: Limits, line: string, pieces: seq<Piece>): string
    decreases |pieces|
  {
    if pieces == [] then line
    else Written(l, if HasRoom(l, line, pieces[0]) then line + Shown(pieces[0]) else line, pieces[1..])
  }

  function Meant(pieces: seq<Piece>): string {
    if pieces == [] then "" else Shown(pieces[0]) + Meant(pieces[1..])
  }

  /** Every piece that is not empty has room behind all those before it. */
  predicate AllHaveRoom(l: Limits, line: string, pieces: seq<Piece>)
    decreases |pieces|
  {
    pieces == [] ||
    ((Shown(pieces[0]) == "" || HasRoom(l, line, pieces[0]))
     && AllHaveRoom(l, line + Shown(pieces[0]), pieces[1..]))
  }

  lemma {:induction false} WrittenAtMost(l: Limits, line: string, pieces: seq<Piece>)
    ensures |line| <= |Written(l, line, pieces)| <= |line| + |Meant(pieces)|
    decreases |pieces|
  {
    if pieces != [] {
      WrittenAtMost(l, if HasRoom(l, line, pieces[0]) then line + Shown(pieces[0]) else line, pieces[1..]);
    }
  }

  /** The line is written whole exactly when there is room for every piece; else text is missing from it. */
  lemma {:induction false} WholeIffRoom(l: Limits, line: string, pieces: seq<Piece>)
    ensures Written(l, line, pieces) == line + Meant(pieces) <==> AllHaveRoom(l, line, pieces)
    decreases |pieces|
  {
    hide HasRoom;
    if pieces == [] {
      assert line + "" == line;
    } else {
      var p, rest := pieces[0], pieces[1..];
      assert line + Shown(p) + Meant(rest) == line + (Shown(p) + Meant(rest));
      if HasRoom(l, line, p) {
        WholeIffRoom(l, line + Shown(p), rest);
      } else if Shown(p) == "" {
        assert line + "" == line;
        WholeIffRoom(l, line, rest);
      } else {
        WrittenAtMost(l, line, rest);
      }
    }
  }

  /** A piece of text that brings the line to the size of the buffer is left out. */
  lemma LongTextLost(l: Limits, text: string)
    requires text != ""
    ensures Written(l, "", [Chars(text)]) == (if |text| < l.small then text else "")
  {
    assert [Chars(text)][1..] == [] && "" + text == text;
  }

  /** A piece on its own behind a line: text is appended if it leaves a byte free, a number in decimal if the
      room of the longest number was free; else the line stays as it is. */
  lemma OnePiece(l: Limits, line: string, text: string, i: int)
    ensures Written(l, line, [Chars(text)]) == (if |line| + |text| < l.small then line + text else line)
    ensures Written(l, line, [Number(i)]) == (if |line| + l.numeric <= l.small then line + IntText(i) else line)
  {
    assert [Chars(text)][1..] == [] && [Number(i)][1..] == [];
  }

  /** The values of short to unsigned long long. */
  predicate IsMachine(i: int) { -0x8000_0000_0000_0000 <= i < 0x1_0000_0000_0000_0000 }

  /** No such number takes more than 20 bytes. */
  lemma MachineFits(i: int)
    requires IsMachine(i)
    ensures |IntText(i)| <= 20
  {
    assert Digits.Pow10(5) == 100_000;
    assert Digits.Pow10(10) == 100_000 * Digits.Pow10(5);
    assert Digits.Pow10(15) == 100_000 * Digits.Pow10(10);
    assert Digits.Pow10(19) == 10_000 * Digits.Pow10(15);
    if i < 0 {
      Digits.DecimalLength(-i, 18);
    } else {
      Digits.DecimalLength(i, 19);
    }
  }

  predicate NumbersFit(l: Limits, pieces: seq<Piece>) {
    forall p <- pieces :: p.Number? ==> l.numeric > 20 && IsMachine(p.value)
  }

  lemma {:induction false} WrittenIsShort(l: Limits, line: string, pieces: seq<Piece>)
    requires |line| < l.small && NumbersFit(l, pieces)
    ensures |Written(l, line, pieces)| < l.small
    decreases |pieces|
  {
    if pieces != [] {
      assert pieces[0] in pieces;
      if pieces[0].Number? {
        MachineFits(pieces[0].value);
      }
      WrittenIsShort(l, if HasRoom(l, line, pieces[0]) then line + Shown(pieces[0]) else line, pieces[1..]);
    }
  }

  // ---------------------------------------------------------------- digits

  /** The table the digits are looked up in, its zero in the middle. */
  const DIGITS := "9876543210123456789"

  /** i % 10 and i / 10 of C++, both towards zero. */
  function Remainder(i: int): int { if i >= 0 then i % 10 else -(-i % 10) }

  function Quotient(i: int): int { if i >= 0 then i / 10 else -(-i / 10) }

  function Abs(i: int): nat { if i < 0 then -i else i }

  lemma DigitShown(i: int)
    ensures -9 <= Remainder(i) <= 9 && DIGITS[9 + Remainder(i)] == '0' + (Abs(i) % 10) as char
    ensures Abs(Quotient(i)) == Abs(i) / 10
  {
    var d := Abs(i) % 10;
    assert DIGITS[9 + d] == '0' + d as char && DIGITS[9 - d] == '0' + d as char;
  }

  /** convert: the digits from the last to the first, of a negative number by negative remainders, then the
      sign, and all of it reversed. */
  method Convert(value: int) returns (text: string)
    ensures text == IntText(value)
  {
    hide NatText;
    var i := value;
    DigitShown(i);
    var buf := [DIGITS[9 + Remainder(i)]];
    i := Quotient(i);
    Begun(value, buf[0]);
    while i != 0
      invariant NatText(Abs(value)) == (if i == 0 then "" else NatText(Abs(i))) + Util.Reverse(buf)
      decreases Abs(i)
    {
      DigitShown(i);
      OneDigit(i, buf);
      buf := buf + [DIGITS[9 + Remainder(i)]];
      i := Quotient(i);
    }
    if value < 0 {
      Util.ReverseSnoc(buf, '-');
      buf := buf + ['-'];
    }
    text := Util.Reverse(buf);
  }

  lemma Begun(value: int, digit: char)
    requires digit == '0' + (Abs(value) % 10) as char
    ensures Util.Reverse([digit]) == [digit]
    ensures NatText(Abs(value)) == (if Quotient(value) == 0 then "" else NatText(Abs(Quotient(value)))) + [digit]
  {
    assert [digit][1..] == "";
  }

  lemma OneDigit(i: int, buf: string)
    requires i != 0
    ensures var digit := '0' + (Abs(i) % 10) as char;
      NatText(Abs(i)) + Util.Reverse(buf)
      == (if Quotient(i) == 0 then "" else NatText(Abs(Quotient(i)))) + Util.Reverse(buf + [digit])
  {
    var digit := '0' + (Abs(i) % 10) as char;
    Begun(i, digit);
    Util.ReverseSnoc(buf, digit);
  }

  // ---------------------------------------------------------------- the stream

  /** The stream itself. */
  class Stream {
    const limits: Limits
    const buffer: FixedBuffer

    ghost predicate Valid()
      reads buffer
    {
      buffer.Valid() && buffer.size == limits.small
    }

    constructor (limits: Limits)
      ensures Valid() && fresh(buffer) && buffer.Text() == "" && this.limits == limits
    {
      this.limits := limits;
      buffer := new FixedBuffer(limits.small, Current);
    }

    method Write(p: Piece)
      requires Valid() && NumbersFit(limits, [p])
      modifies buffer
      ensures Valid()
      ensures var line := old(buffer.Text());
        buffer.Text() == if HasRoom(limits, line, p) then line + Shown(p) else line
      ensures var line := old(buffer.Text());
        match p
        case Chars(text) => buffer.Text() == if |line| + |text| < limits.small then line + text else line
        case Number(i) =>
          buffer.Text() == if |line| + limits.numeric <= limits.small then line + IntText(i) else line
    {
      match p {
        case Chars(text) =>
          buffer.Append(text);
          assert old(buffer.Text()) + "" == old(buffer.Text());
        case Number(value) => FormatNumber(value);
      }
    }

    /** formatInteger: the digits go straight to the write position. */
    method FormatNumber(value: int)
      requires Valid() && limits.numeric > 20 && IsMachine(value)
      modifies buffer
      ensures Valid()
      ensures var line := old(buffer.Text());
        buffer.Text() == if |line| + limits.numeric <= limits.small then line + IntText(value) else line
    {
      if buffer.Avail() >= limits.numeric {
        MachineFits(value);
        var text := Convert(value);
        buffer.data := buffer.data[..buffer.cur] + text + buffer.data[buffer.cur + |text|..];
        buffer.cur := buffer.cur + |text|;
      }
    }

    /** A whole line. */
    method Format(pieces: seq<Piece>) returns (logline: string)
      requires Valid() && NumbersFit(limits, pieces)
      modifies buffer
      ensures Valid() && logline == buffer.Text() == Written(limits, old(buffer.Text()), pieces)
    {
      for i := 0 to |pieces|
        invariant Valid()
        invariant Written(limits, buffer.Text(), pieces[i..]) == Written(limits, old(buffer.Text()), pieces)
      {
        assert pieces[i..][1..] == pieces[i + 1..] && pieces[i] in pieces;
        Write(pieces[i]);
      }
      logline := buffer.data[..buffer.cur];
    }
  }

  // ---------------------------------------------------------------- into the appender

  /** The lines handed to append. */
  function Lines(steps: seq<Step>): string {
    if steps == [] then "" else (if steps[0].Append? then steps[0].line else "") + Lines(steps[1..])
  }

  /** Each line comes out of a stream. */
  ghost predicate FromStreams(l: Limits, steps: seq<Step>) {
    forall step <- steps ::
      step.Append? ==> exists pieces :: NumbersFit(l, pieces) && step.line == Written(l, "", pieces)
  }

  lemma {:induction false} EveryLineAccepted(s: Log, steps: seq<Step>)
    requires CanRun(s, steps) && forall step <- steps :: step.Append? ==> |step.line| < s.size
    ensures After(s, steps).accepted == s.accepted + Lines(steps)
    decreases |steps|
  {
    hide Enabled, Blocks;
    if steps == [] {
      assert s.accepted + "" == s.accepted;
    } else {
      var step := steps[0];
      var s' := Apply(s, step);
      assert step in steps;
      StepAccepts(s, step);
      EveryLineAccepted(s', steps[1..]);
      var line := if step.Append? then step.line else "";
      assert s.accepted + line + Lines(steps[1..]) == s.accepted + (line + Lines(steps[1..]));
    }
  }

  lemma StepAccepts(s: Log, step: Step)
    requires Enabled(s, step) && (step.Append? ==> |step.line| < s.size)
    ensures Apply(s, step).accepted == s.accepted + (if step.Append? then step.line else "")
    ensures Apply(s, step).size == s.size
  {
    assert s.accepted + "" == s.accepted;
    if step.Append? && step.line != "" {
      LineAcceptedIff(s, step.line);
    }
  }

  /** In every run, whatever producers and flusher do, no formatted line is refused: the lines accepted are
      all the lines handed over, in order. The code's buffers hold 4000 and 4000*1000 bytes. */
  lemma NoLineRefused(l: Limits, start: Log, steps: seq<Step>)
    requires 0 < l.small <= start.size && Init(start) && CanRun(start, steps) && FromStreams(l, steps)
    ensures After(start, steps).accepted == Lines(steps)
  {
    forall step <- steps | step.Append?
      ensures |step.line| < start.size
    {
      var pieces :| NumbersFit(l, pieces) && step.line == Written(l, "", pieces);
      WrittenIsShort(l, "", pieces);
    }
    EveryLineAccepted(start, steps);
    assert "" + Lines(steps) == Lines(steps);
  }
}
