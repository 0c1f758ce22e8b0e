/** The asynchronous log appender as steps (haha_web/log/LogAppender.cpp): producers append under
    the lock; the one flusher swaps the filled buffers out under the lock, and then drops, writes
    and recycles them outside it. */
module LogModel {
  import opened Text

  /** What goes to the file: the text of a buffer, or the notice that so many buffers were dropped. */
  datatype Entry = Data(text: string) | Notice(dropped: nat)

  /** A buffer swapped out by a flush, and whether the flush kept it. */
  datatype Block = Block(text: string, kept: bool)

  datatype Stage = Idle | Swapped | Writing(written: nat)

  datatype Log = Log(
    size: nat,              // kLargeBuffer
    maxBuffers: nat,        // kbuffersMaxSize
    current: string,        // currentBuffer_
    hasNext: bool,          // nextBuffer_, always empty when there
    full: seq<string>,      // buffers_
    stage: Stage,
    toWrite: seq<string>,   // buffersToWrite
    new1: bool,             // newBuffer1, newBuffer2, always empty when there
    new2: bool,
    file: seq<Entry>,
    accepted: string,       // every line accepted so far
    taken: seq<Block>)      // every buffer a flush has decided about so far

  datatype Step = Append(line: string) | Swap | Drop | Write | Recycle

  predicate Init(s: Log) {
    s == Log(s.size, s.maxBuffers, "", true, [], Idle, [], true, true, [], "", [])
  }

  predicate Enabled(s: Log, step: Step) {
    match step
    case Append(_) => true
    case Swap => s.stage == Idle
    case Drop => s.stage == Swapped
    case Write => s.stage.Writing? && s.stage.written < |s.toWrite|
    case Recycle => s.stage.Writing? && s.stage.written == |s.toWrite|
  }

  /** FixedBuffer::append takes a line only if room is left after it. */
  predicate Takes(size: nat, text: string, line: string) { size > |text| + |line| }

  function Appended(s: Log, line: string): Log {
    if Takes(s.size, s.current, line) then
      s.(current := s.current + line, accepted := s.accepted + line)
    else
      var kept := if Takes(s.size, "", line) then line else "";
      s.(full := s.full + [s.current], hasNext := false, current := kept, accepted := s.accepted + kept)
  }

  function Blocks(texts: seq<string>, kept: bool): seq<Block> {
    if texts == [] then [] else [Block(texts[0], kept)] + Blocks(texts[1..], kept)
  }

  function Apply(s: Log, step: Step): Log
    requires Enabled(s, step)
  {
    match step
    case Append(line) => Appended(s, line)
    case Swap =>
      s.(toWrite := s.full + [s.current], full := [], current := "", new1 := false,
         hasNext := true, new2 := s.hasNext && s.new2, stage := Swapped)
    case Drop =>
      var n := |s.toWrite|;
      if n > s.maxBuffers then
        s.(file := s.file + [Notice(n - s.maxBuffers)], stage := Writing(0),
           taken := s.taken + Blocks(s.toWrite[..s.maxBuffers], true) + Blocks(s.toWrite[s.maxBuffers..], false),
           toWrite := s.toWrite[..s.maxBuffers])
      else s.(stage := Writing(0), taken := s.taken + Blocks(s.toWrite, true))
    case Write =>
      s.(file := s.file + [Data(s.toWrite[s.stage.written])], stage := Writing(s.stage.written + 1))
    case Recycle => s.(toWrite := [], new1 := true, new2 := true, stage := Idle)
  }

  function FileText(file: seq<Entry>): string {
    if file == [] then "" else EntryText(file[0]) + FileText(file[1..])
  }

  function EntryText(e: Entry): string { if e.Data? then e.text else "" }

  /** The text of the blocks; only of those kept, if asked. */
  function BlockText(blocks: seq<Block>, onlyKept: bool): string {
    if blocks == [] then ""
    else (if onlyKept && !blocks[0].kept then "" else blocks[0].text) + BlockText(blocks[1..], onlyKept)
  }

  // ---------------------------------------------------------------- what every step keeps

  /** Every accepted byte is in a buffer a flush has decided about, or still in a buffer, in order. */
  predicate NothingLost(s: Log) {
    s.accepted == BlockText(s.taken, false) + (if s.stage == Swapped then Concat(s.toWrite) else "")
                  + Concat(s.full) + s.current
  }

  /** The file, and then what is being written, hold exactly the kept blocks, in order. */
  predicate FileInOrder(s: Log) {
    match s.stage
    case Writing(n) => n <= |s.toWrite| && FileText(s.file) + Concat(s.toWrite[n..]) == BlockText(s.taken, true)
    case _ => FileText(s.file) == BlockText(s.taken, true)
  }

  /** Between flushes both spares are back; during one, there are buffers enough to refill them. */
  predicate SparesOk(s: Log) {
    && (!s.hasNext ==> s.full != [])
    && (s.stage == Idle ==> s.new1 && s.new2 && s.toWrite == [])
    && (s.stage != Idle ==> !s.new1 && |s.toWrite| >= 1)
    && (s.stage != Idle && !s.new2 ==> |s.toWrite| >= 2)
  }

  predicate Inv(s: Log) { NothingLost(s) && FileInOrder(s) && SparesOk(s) && |s.current| <= s.size }

  lemma InitInv(s: Log)
    requires Init(s)
    ensures Inv(s)
  {
    assert Concat([]) == "";
  }

  lemma Regroup(a: string, b: string, c: string)
    ensures a + (b + c) == a + b + c
  {
  }

  lemma {:induction false} FileTextSnoc(file: seq<Entry>, e: Entry)
    ensures FileText(file + [e]) == FileText(file) + EntryText(e)
  {
    hide EntryText;
    if file == [] {
      assert file + [e] == [e] && [e][1..] == [];
    } else {
      FileTextSnoc(file[1..], e);
      assert (file + [e])[0] == file[0] && (file + [e])[1..] == file[1..] + [e];
      Regroup(EntryText(file[0]), FileText(file[1..]), EntryText(e));
    }
  }

  lemma {:induction false} BlockTextAppend(a: seq<Block>, b: seq<Block>, onlyKept: bool)
    ensures BlockText(a + b, onlyKept) == BlockText(a, onlyKept) + BlockText(b, onlyKept)
  {
    if a == [] {
      assert a + b == b;
    } else {
      assert (a + b)[1..] == a[1..] + b;
      BlockTextAppend(a[1..], b, onlyKept);
    }
  }

  lemma {:induction false} BlocksText(texts: seq<string>, kept: bool, onlyKept: bool)
    ensures BlockText(Blocks(texts, kept), onlyKept) == if onlyKept && !kept then "" else Concat(texts)
  {
    if texts != [] {
      assert Blocks(texts, kept)[1..] == Blocks(texts[1..], kept);
      BlocksText(texts[1..], kept, onlyKept);
    }
  }

  lemma ConcatSnoc(xs: seq<string>, x: string)
    ensures Concat(xs + [x]) == Concat(xs) + x
  {
    ConcatAppend(xs, [x]);
    assert Concat([x]) == x + "" == x;
  }

  lemma AppendKeepsInv(s: Log, line: string)
    requires Inv(s)
    ensures Inv(Appended(s, line))
  {
    hide Concat, BlockText, FileText;
    var before := BlockText(s.taken, false) + (if s.stage == Swapped then Concat(s.toWrite) else "");
    ConcatSnoc(s.full, s.current);
    assert before + Concat(s.full) + s.current + line == before + Concat(s.full) + (s.current + line);
    assert before + Concat(s.full) + s.current + line == before + (Concat(s.full) + s.current) + line;
    assert before + Concat(s.full) + s.current + "" == before + (Concat(s.full) + s.current) + "";
  }

  lemma SwapKeepsInv(s: Log)
    requires Inv(s) && s.stage == Idle
    ensures Inv(Apply(s, Swap))
  {
    ConcatSnoc(s.full, s.current);
    assert Concat([]) == "";
  }

  lemma DropKeepsInv(s: Log)
    requires Inv(s) && s.stage == Swapped && s.maxBuffers >= 2
    ensures Inv(Apply(s, Drop))
  {
    hide Blocks, BlockText, FileText, Concat;
    DropKeepsTexts(s);
  }

  lemma DropKeepsTexts(s: Log)
    requires NothingLost(s) && FileInOrder(s) && s.stage == Swapped
    ensures NothingLost(Apply(s, Drop)) && FileInOrder(Apply(s, Drop))
  {
    hide Blocks, BlockText, FileText, Concat;
    var kept := Apply(s, Drop).toWrite;
    assert kept[0..] == kept;
    DecidedText(s.taken, kept, true);
    DecidedText(s.taken, kept, false);
    if |s.toWrite| > s.maxBuffers {
      var lost := s.toWrite[s.maxBuffers..];
      assert s.toWrite == kept + lost;
      ConcatAppend(kept, lost);
      DroppedText(s.taken + Blocks(kept, true), lost);
      Regroup(BlockText(s.taken, false), Concat(kept), Concat(lost));
      FileTextSnoc(s.file, Notice(|lost|));
    }
  }

  lemma DecidedText(taken: seq<Block>, kept: seq<string>, onlyKept: bool)
    ensures BlockText(taken + Blocks(kept, true), onlyKept) == BlockText(taken, onlyKept) + Concat(kept)
  {
    BlockTextAppend(taken, Blocks(kept, true), onlyKept);
    BlocksText(kept, true, onlyKept);
  }

  lemma DroppedText(taken: seq<Block>, lost: seq<string>)
    ensures BlockText(taken + Blocks(lost, false), false) == BlockText(taken, false) + Concat(lost)
    ensures BlockText(taken + Blocks(lost, false), true) == BlockText(taken, true)
  {
    BlockTextAppend(taken, Blocks(lost, false), false);
    BlockTextAppend(taken, Blocks(lost, false), true);
    BlocksText(lost, false, false);
    BlocksText(lost, false, true);
  }

  lemma WriteKeepsInv(s: Log)
    requires Inv(s) && Enabled(s, Write)
    ensures Inv(Apply(s, Write))
  {
    hide FileText, BlockText, Concat;
    var n := s.stage.written;
    FileTextSnoc(s.file, Data(s.toWrite[n]));
    ConcatFrom(s.toWrite, n);
    Regroup(FileText(s.file), s.toWrite[n], Concat(s.toWrite[n + 1..]));
  }

  lemma ConcatFrom(xs: seq<string>, n: nat)
    requires n < |xs|
    ensures Concat(xs[n..]) == xs[n] + Concat(xs[n + 1..])
  {
    assert xs[n..][1..] == xs[n + 1..];
  }

  lemma StepKeepsInv(s: Log, step: Step)
    requires Inv(s) && Enabled(s, step) && s.maxBuffers >= 2
    ensures Inv(Apply(s, step)) && Apply(s, step).maxBuffers == s.maxBuffers
  {
    match step
    case Append(line) => AppendKeepsInv(s, line);
    case Swap => SwapKeepsInv(s);
    case Drop => DropKeepsInv(s);
    case Write => WriteKeepsInv(s);
    case Recycle => assert s.toWrite[|s.toWrite|..] == [] && Concat([]) == "";
  }

  // ---------------------------------------------------------------- every run

  /** The state after a sequence of steps, each enabled where it is taken. */
  predicate CanRun(s: Log, steps: seq<Step>)
    decreases |steps|
  {
    steps == [] || (Enabled(s, steps[0]) && CanRun(Apply(s, steps[0]), steps[1..]))
  }

  function After(s: Log, steps: seq<Step>): Log
    requires CanRun(s, steps)
    decreases |steps|
  {
    if steps == [] then s else After(Apply(s, steps[0]), steps[1..])
  }

  lemma {:induction false} RunKeepsInv(s: Log, steps: seq<Step>)
    requires Inv(s) && CanRun(s, steps) && s.maxBuffers >= 2
    ensures Inv(After(s, steps)) && After(s, steps).maxBuffers == s.maxBuffers
    decreases |steps|
  {
    hide Inv, Apply, Enabled;
    if steps != [] {
      StepKeepsInv(s, steps[0]);
      RunKeepsInv(Apply(s, steps[0]), steps[1..]);
    }
  }

  /** Over every interleaving of producers with the stages of flush: the accepted bytes are the
      blocks decided about, the blocks just swapped out, the filled buffers and the current one, in
      that order; and the file with what is left to write is those blocks without the dropped ones. */
  lemma LogConserved(start: Log, steps: seq<Step>)
    requires Init(start) && start.maxBuffers >= 2 && CanRun(start, steps)
    ensures NothingLost(After(start, steps)) && FileInOrder(After(start, steps))
  {
    RunKeepsInv(start, steps);
  }

  /** The assertions in flush: both spares are there when it starts, something is always swapped
      out, and recycling never runs out of buffers. */
  predicate AssertionsHold(s: Log) {
    && (s.stage == Idle ==> s.new1 && s.new2 && s.toWrite == [])
    && (s.stage == Swapped ==> s.toWrite != [])
    && (s.stage.Writing? ==> |s.toWrite| >= (if s.new1 then 0 else 1) + (if s.new2 then 0 else 1))
  }

  /** They hold in every run exactly when a flush may keep at least two buffers; the code keeps 25. */
  lemma FlushAssertionsHoldIff(start: Log)
    requires Init(start)
    ensures start.maxBuffers >= 2 <==> forall steps :: CanRun(start, steps) ==> AssertionsHold(After(start, steps))
  {
    if start.maxBuffers >= 2 {
      forall steps | CanRun(start, steps)
        ensures AssertionsHold(After(start, steps))
      {
        RunKeepsInv(start, steps);
      }
    } else {
      var steps := TooFewBuffers(start);
    }
  }

  /** A line that fills the first buffer makes the next flush need both spares back. */
  lemma TooFewBuffers(start: Log) returns (steps: seq<Step>)
    requires Init(start) && start.maxBuffers < 2
    ensures CanRun(start, steps) && !AssertionsHold(After(start, steps))
  {
    var line := seq(start.size, _ => 'x');
    steps := [Append(line), Swap, Drop];
    var s1 := Apply(start, Append(line));
    var s2 := Apply(s1, Swap);
    var s3 := Apply(s2, Drop);
    assert steps[1..] == [Swap, Drop] && steps[1..][1..] == [Drop] && [Drop][1..] == [];
    assert CanRun(s3, []) && CanRun(s2, [Drop]) && CanRun(s1, [Swap, Drop]);
    assert After(s2, [Drop]) == s3 && After(s1, [Swap, Drop]) == s3;
  }

  /** Between flushes, with nothing ever dropped, the file holds the accepted lines up to those
      still buffered. */
  lemma NothingDroppedNothingMissing(start: Log, steps: seq<Step>)
    requires Init(start) && start.maxBuffers >= 2 && CanRun(start, steps)
    requires After(start, steps).stage == Idle && forall b <- After(start, steps).taken :: b.kept
    ensures var s := After(start, steps);
      FileText(s.file) + Concat(s.full) + s.current == s.accepted
  {
    RunKeepsInv(start, steps);
    AllKept(After(start, steps).taken);
  }

  lemma {:induction false} AllKept(blocks: seq<Block>)
    requires forall b <- blocks :: b.kept
    ensures BlockText(blocks, true) == BlockText(blocks, false)
  {
    if blocks != [] {
      AllKept(blocks[1..]);
    }
  }

  /** A line is accepted, whole and at the end, exactly when it is shorter than a buffer; a longer
      one is lost without a trace. */
  lemma LineAcceptedIff(s: Log, line: string)
    requires line != ""
    ensures |line| < s.size ==> Appended(s, line).accepted == s.accepted + line
    ensures |line| >= s.size ==> Appended(s, line).accepted == s.accepted
    ensures Appended(s, line).accepted == s.accepted + line <==> |line| < s.size
  {
    assert |s.accepted + line| > |s.accepted|;
    assert s.accepted + "" == s.accepted;
  }

  /** A line that leaves room behind it joins the current buffer. Otherwise that buffer goes behind the filled
      ones, and the line begins the next, if it is shorter than a buffer at all. */
  lemma AppendMeans(s: Log, line: string)
    ensures var s' := Appended(s, line);
      if |s.current| + |line| < s.size then
        s'.current == s.current + line && s'.full == s.full && s'.hasNext == s.hasNext
      else s'.current == (if |line| < s.size then line else "") && s'.full == s.full + [s.current] && !s'.hasNext
    ensures var s' := Appended(s, line);
      s'.file == s.file && s'.toWrite == s.toWrite && s'.taken == s.taken && s'.stage == s.stage
      && s'.new1 == s.new1 && s'.new2 == s.new2 && s'.size == s.size && s'.maxBuffers == s.maxBuffers
  {
  }

  lemma {:induction false} BlocksAre(texts: seq<string>, kept: bool)
    ensures Blocks(texts, kept) == seq(|texts|, i requires 0 <= i < |texts| => Block(texts[i], kept))
  {
    if texts != [] {
      BlocksAre(texts[1..], kept);
    }
  }

  /** A flush decides about every buffer it swapped out, in order, and keeps exactly the first
      maxBuffers of them, with a notice of the number of the others in the file. */
  lemma DropKeepsTheFirst(s: Log)
    requires s.stage == Swapped
    ensures var s' := Apply(s, Drop); var n := |s.taken|;
      |s'.taken| == n + |s.toWrite| && s'.taken[..n] == s.taken
      && (forall i :: 0 <= i < |s.toWrite| ==> s'.taken[n + i] == Block(s.toWrite[i], i < s.maxBuffers))
    ensures var s' := Apply(s, Drop); var k := |s.toWrite| - s.maxBuffers;
      s'.toWrite == s.toWrite[..if k > 0 then s.maxBuffers else |s.toWrite|]
      && s'.file == s.file + (if k > 0 then [Notice(k)] else [])
  {
    var k := if |s.toWrite| > s.maxBuffers then s.maxBuffers else |s.toWrite|;
    BlocksAre(s.toWrite[..k], true);
    BlocksAre(s.toWrite[k..], false);
    assert s.toWrite == s.toWrite[..k] + s.toWrite[k..];
    assert |s.toWrite| == k ==> s.toWrite[..k] == s.toWrite;
    assert Apply(s, Drop).taken == s.taken + Blocks(s.toWrite[..k], true) + Blocks(s.toWrite[k..], false);
  }
}
