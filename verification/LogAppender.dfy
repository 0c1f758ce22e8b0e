/** The appender with its buffers as objects (haha_web/log/LogAppender.cpp, haha_web/log/LogUtil.h).
    A unique_ptr's exclusive hold on a buffer is a mark on the buffer saying which slot it is in.
    Each method is one step of LogModel, so any interleaving of producers and flusher is some
    sequence of these calls. */
module LogAppender {
  import opened Text
  import opened LogModel

  /** The places a buffer can be. */
  datatype Place = Current | Next | New1 | New2 | Full(i: nat) | ToWrite(i: nat)

  /** FixedBuffer: `data` is the array inside the object, `cur` the write position. */
  class FixedBuffer {
    const size: nat
    var data: seq<char>
    var cur: nat
    ghost var place: Place

    ghost predicate Valid()
      reads this`data, this`cur
    {
      cur <= size == |data|
    }

    ghost function Text(): string
      reads this`data, this`cur
      requires Valid()
    {
      data[..cur]
    }

    ghost predicate IsEmpty(size: nat, p: Place)
      reads this
    {
      Valid() && cur == 0 && place == p && this.size == size
    }

    constructor (size: nat, ghost place: Place)
      ensures IsEmpty(size, place)
    {
      this.size := size;
      data := seq(size, _ => '\0');
      cur := 0;
      this.place := place;
    }

    function Avail(): int
      reads this`cur
    {
      size - cur
    }

    /** Nothing happens unless room is left after the line. */
    method Append(buf: string)
      requires Valid()
      modifies this`data, this`cur
      ensures Valid()
      ensures Text() == old(Text()) + if |old(Text())| + |buf| < size then buf else ""
    {
      if Avail() > |buf| {
        data := data[..cur] + buf + data[cur + |buf|..];
        cur := cur + |buf|;
      }
    }

    method Reset()
      requires Valid()
      modifies this`cur
      ensures Valid() && cur == 0 && Text() == ""
    {
      cur := 0;
    }
  }

  /** The texts of some buffers, in order. */
  ghost function Texts(bs: seq<FixedBuffer>): (t: seq<string>)
    reads bs`data, bs`cur
    requires forall b <- bs :: b.Valid()
    ensures |t| == |bs| && forall i :: 0 <= i < |bs| ==> t[i] == bs[i].Text()
  {
    if bs == [] then [] else [bs[0].Text()] + Texts(bs[1..])
  }

  class AsyncLogAppender {
    const size: nat
    const maxBuffers: nat
    var currentBuffer: FixedBuffer
    var nextBuffer: FixedBuffer?
    var buffers: seq<FixedBuffer>
    var newBuffer1: FixedBuffer?
    var newBuffer2: FixedBuffer?
    var buffersToWrite: seq<FixedBuffer>
    var stage: Stage
    var file: seq<Entry>
    ghost var accepted: string
    ghost var taken: seq<Block>

    ghost function Spares(): set<FixedBuffer>
      reads this`nextBuffer, this`newBuffer1, this`newBuffer2
    {
      (if nextBuffer == null then {} else {nextBuffer})
      + (if newBuffer1 == null then {} else {newBuffer1})
      + (if newBuffer2 == null then {} else {newBuffer2})
    }

    ghost function Listed(): set<FixedBuffer>
      reads this`buffers, this`buffersToWrite
    {
      (set b <- buffers) + (set b <- buffersToWrite)
    }

    ghost function Owned(): set<FixedBuffer>
      reads this`currentBuffer, this`nextBuffer, this`newBuffer1, this`newBuffer2, this`buffers, this`buffersToWrite
    {
      {currentBuffer} + Spares() + Listed()
    }

    /** A buffer of the right size, marked as being in this place. */
    ghost predicate Holds(b: FixedBuffer, p: Place)
      reads b
    {
      b.Valid() && b.size == size && b.place == p
    }

    ghost predicate SpareShape()
      reads this`nextBuffer, this`newBuffer1, this`newBuffer2, Spares()
    {
      && (nextBuffer != null ==> Holds(nextBuffer, Next) && nextBuffer.cur == 0)
      && (newBuffer1 != null ==> Holds(newBuffer1, New1) && newBuffer1.cur == 0)
      && (newBuffer2 != null ==> Holds(newBuffer2, New2) && newBuffer2.cur == 0)
    }

    ghost predicate ListShape()
      reads this`buffers, this`buffersToWrite, Listed()
    {
      && (forall i :: 0 <= i < |buffers| ==> Holds(buffers[i], Full(i)))
      && (forall i :: 0 <= i < |buffersToWrite| ==> Holds(buffersToWrite[i], ToWrite(i)))
    }

    /** Every buffer is in exactly one place, and the spare ones are empty. */
    ghost predicate Shape()
      reads this`currentBuffer, this`nextBuffer, this`newBuffer1, this`newBuffer2, this`buffers, this`buffersToWrite
      reads Owned()
    {
      Holds(currentBuffer, Current) && SpareShape() && ListShape()
    }

    ghost function Value(): Log
      reads this, Owned()
      requires Shape()
    {
      Log(size, maxBuffers, currentBuffer.Text(), nextBuffer != null, Texts(buffers), stage,
          Texts(buffersToWrite), newBuffer1 != null, newBuffer2 != null, file, accepted, taken)
    }

    ghost predicate Valid()
      reads this, Owned()
    {
      Shape() && Inv(Value()) && maxBuffers >= 2
    }

    constructor (size: nat, maxBuffers: nat, b0: FixedBuffer, b1: FixedBuffer, b2: FixedBuffer, b3: FixedBuffer)
      requires maxBuffers >= 2
      requires b0.IsEmpty(size, Current) && b1.IsEmpty(size, Next) && b2.IsEmpty(size, New1) && b3.IsEmpty(size, New2)
      ensures Valid() && Init(Value()) && this.size == size && this.maxBuffers == maxBuffers
      ensures Owned() == {b0, b1, b2, b3}
    {
      hide Inv;
      this.size, this.maxBuffers := size, maxBuffers;
      currentBuffer, nextBuffer, newBuffer1, newBuffer2 := b0, b1, b2, b3;
      buffers, buffersToWrite, stage, file := [], [], Idle, [];
      accepted, taken := "", [];
      new;
      InitInv(Value());
    }

    /** append: under the lock, from any thread, at any time. */
    method Append(logline: string)
      requires Valid()
      modifies this, Owned()
      ensures Valid() && Value() == Appended(old(Value()), logline)
    {
      hide Inv, SpareShape, ListShape, Texts;
      AppendKeepsInv(Value(), logline);
      accepted := Appended(Value(), logline).accepted;
      if currentBuffer.Avail() > |logline| {
        AppendToCurrent(logline);
      } else {
        Rotate();
        AppendToCurrent(logline);
        assert "" + logline == logline && "" + "" == "";
      }
    }

    /** currentBuffer_->append: no other buffer changes. */
    method AppendToCurrent(logline: string)
      requires Shape()
      modifies currentBuffer`data, currentBuffer`cur
      ensures Shape()
      ensures Value() == old(Value()).(current := old(Value()).current +
        if Takes(size, old(Value()).current, logline) then logline else "")
    {
      currentBuffer.Append(logline);
      assert Texts(buffers) == old(Texts(buffers));
      assert Texts(buffersToWrite) == old(Texts(buffersToWrite));
    }

    /** The current buffer joins the filled ones; the next one, or a new one, takes its place. */
    method Rotate()
      requires Shape()
      modifies this`currentBuffer, this`nextBuffer, this`buffers, currentBuffer`place, Spares()`place
      ensures Shape() && (fresh(currentBuffer) || currentBuffer in old(Owned()))
      ensures Value()
           == old(Value()).(full := old(Value()).full + [old(Value()).current], current := "", hasNext := false)
    {
      hide Texts, ListShape;
      Retire();
      Refill();
    }

    /** buffers_.push_back(std::move(currentBuffer_)). */
    method Retire()
      requires Shape()
      modifies this`buffers, currentBuffer`place
      ensures SpareShape() && ListShape() && buffers == old(buffers) + [currentBuffer]
      ensures Texts(buffers) == old(Texts(buffers)) + [currentBuffer.Text()]
      ensures Texts(buffersToWrite) == old(Texts(buffersToWrite))
    {
      hide Texts;
      MarkFull();
      TextsSnoc(buffers, currentBuffer);
      buffers := buffers + [currentBuffer];
    }

    ghost method MarkFull()
      requires Shape()
      modifies currentBuffer`place
      ensures SpareShape() && ListShape() && Holds(currentBuffer, Full(|buffers|))
      ensures Texts(buffers) == old(Texts(buffers)) && Texts(buffersToWrite) == old(Texts(buffersToWrite))
      ensures currentBuffer.Text() == old(currentBuffer.Text())
    {
      assert currentBuffer !in Listed() && currentBuffer !in Spares();
      hide Texts, SpareShape, ListShape;
      currentBuffer.place := Full(|buffers|);
    }

    /** The next buffer, or a new one, becomes the current one. */
    method Refill()
      requires SpareShape() && ListShape()
      modifies this`currentBuffer, this`nextBuffer, Spares()`place
      ensures Shape() && nextBuffer == null && currentBuffer.Text() == ""
      ensures fresh(currentBuffer) || currentBuffer in old(Spares())
      ensures Texts(buffers) == old(Texts(buffers)) && Texts(buffersToWrite) == old(Texts(buffersToWrite))
    {
      hide Texts;
      if nextBuffer != null {
        MoveNext();
      } else {
        currentBuffer := new FixedBuffer(size, Current);
      }
    }

    /** currentBuffer_ = std::move(nextBuffer_). */
    method MoveNext()
      requires SpareShape() && ListShape() && nextBuffer != null
      modifies this`currentBuffer, this`nextBuffer, nextBuffer`place
      ensures Shape() && nextBuffer == null && currentBuffer == old(nextBuffer) && currentBuffer.Text() == ""
      ensures Texts(buffers) == old(Texts(buffers)) && Texts(buffersToWrite) == old(Texts(buffersToWrite))
    {
      NextApart();
      currentBuffer := nextBuffer;
      nextBuffer := null;
      hide ListShape, Texts;
      currentBuffer.place := Current;
    }

    /** The next buffer is in no list. */
    lemma NextApart()
      requires SpareShape() && ListShape()
      ensures nextBuffer != null ==> nextBuffer !in buffers && nextBuffer !in buffersToWrite
    {
    }

    // -------------------------------------------------------------- flush, stage by stage

    /** flush with nobody appending meanwhile: afterwards no accepted byte is in a buffer, and the
        file holds exactly what was kept. */
    method Flush()
      requires Valid() && stage == Idle
      modifies this, Owned()
      ensures Valid() && stage == Idle && buffers == [] && Value().current == ""
      ensures accepted == old(accepted) == BlockText(taken, false) && FileText(file) == BlockText(taken, true)
    {
      hide Inv, Shape, SpareShape, ListShape, Texts, Blocks, FileText, BlockText;
      FlushSwap();
      assert forall b <- buffersToWrite :: b in old(Owned());
      FlushRest();
      Settled(Value());
    }

    /** What flush does outside the lock. */
    method FlushRest()
      requires Valid() && stage == Swapped
      modifies this`file, this`taken, this`stage, this`newBuffer1, this`newBuffer2
      modifies this`buffersToWrite, buffersToWrite`cur, buffersToWrite`place
      ensures Valid() && stage == Idle
      ensures Texts(buffers) == old(Texts(buffers)) && currentBuffer.Text() == old(currentBuffer.Text())
    {
      hide Inv, Shape, SpareShape, ListShape, Texts, Blocks, FileText, BlockText;
      FlushDrop();
      FlushWriteAll();
      FlushRecycle();
    }

    method FlushWriteAll()
      requires Valid() && stage == Writing(0)
      modifies this`file, this`stage
      ensures Valid() && stage == Writing(|buffersToWrite|)
      ensures Value() == old(Value()).(file := file, stage := stage)
    {
      hide Inv, Texts;
      while stage.written < |buffersToWrite|
        invariant Valid() && stage.Writing? && stage.written <= |buffersToWrite|
        invariant Value() == old(Value()).(file := file, stage := stage)
        decreases |buffersToWrite| - if stage.Writing? then stage.written else 0
      {
        FlushWrite();
      }
    }

    /** The first assertions of flush, and the stretch under the lock. */
    method FlushSwap()
      requires Valid() && stage == Idle
      modifies this, Owned()`place
      ensures Valid() && Value() == Apply(old(Value()), Swap)
      ensures buffersToWrite == old(buffers) + [old(currentBuffer)]
    {
      hide Inv, Texts, SpareShape, ListShape, Shape;
      SwapKeepsInv(Value());
      SparesAtEntry();
      ReplaceCurrent();
      SwapLists();
      if nextBuffer == null {
        MoveSpare2();
      }
      SetStage(Swapped);
    }

    /** buffers_.push_back(std::move(currentBuffer_)), then the first spare in its place. */
    method ReplaceCurrent()
      requires Shape() && newBuffer1 != null
      modifies this`buffers, this`currentBuffer, this`newBuffer1, currentBuffer`place, newBuffer1`place
      ensures Shape() && buffers == old(buffers) + [old(currentBuffer)]
      ensures Value() == old(Value()).(full := old(Value()).full + [old(Value()).current], current := "", new1 := false)
    {
      hide Texts, SpareShape, ListShape;
      Retire();
      MoveSpare1();
    }

    method SetStage(st: Stage)
      requires Shape()
      modifies this`stage
      ensures Shape() && Value() == old(Value()).(stage := st) && stage == st
    {
      stage := st;
      assert Texts(buffers) == old(Texts(buffers)) && Texts(buffersToWrite) == old(Texts(buffersToWrite));
    }

    /** assert(newBuffer1 && newBuffer1->length() == 0), and so on. */
    lemma SparesAtEntry()
      requires Valid() && stage == Idle
      ensures newBuffer1 != null && newBuffer1.cur == 0
      ensures newBuffer2 != null && newBuffer2.cur == 0
      ensures buffersToWrite == []
    {
    }

    /** currentBuffer_ = std::move(newBuffer1). */
    method MoveSpare1()
      requires SpareShape() && ListShape() && newBuffer1 != null
      modifies this`currentBuffer, this`newBuffer1, newBuffer1`place
      ensures Shape() && newBuffer1 == null && currentBuffer.Text() == ""
      ensures Texts(buffers) == old(Texts(buffers)) && Texts(buffersToWrite) == old(Texts(buffersToWrite))
    {
      assert newBuffer1 !in buffers && newBuffer1 !in buffersToWrite;
      currentBuffer := newBuffer1;
      newBuffer1 := null;
      hide ListShape, Texts;
      currentBuffer.place := Current;
    }

    /** buffersToWrite.swap(buffers_). */
    method SwapLists()
      requires Shape() && buffersToWrite == []
      modifies this`buffers, this`buffersToWrite, buffers`place
      ensures Shape() && buffers == []
      ensures Value() == old(Value()).(toWrite := old(Value()).full, full := []) && buffersToWrite == old(buffers)
    {
      hide Texts;
      MarkToWrite();
      buffersToWrite, buffers := buffers, [];
      assert Texts(buffers) == [];
    }

    /** The marks of a list about to be swapped out. */
    ghost method MarkToWrite()
      requires Shape() && buffersToWrite == []
      modifies buffers`place
      ensures forall i :: 0 <= i < |buffers| ==> Holds(buffers[i], ToWrite(i))
      ensures SpareShape() && Holds(currentBuffer, Current) && currentBuffer.Text() == old(currentBuffer.Text())
      ensures Texts(buffers) == old(Texts(buffers))
    {
      assert currentBuffer !in buffers && nextBuffer !in buffers && newBuffer1 !in buffers && newBuffer2 !in buffers;
      forall i | 0 <= i < |buffers| {
        buffers[i].place := ToWrite(i);
      }
    }

    /** nextBuffer_ = std::move(newBuffer2). */
    method MoveSpare2()
      requires Shape() && nextBuffer == null && newBuffer2 != null
      modifies this`nextBuffer, this`newBuffer2, newBuffer2`place
      ensures Shape() && Value() == old(Value()).(hasNext := true, new2 := false)
    {
      assert newBuffer2 !in buffers && newBuffer2 !in buffersToWrite;
      nextBuffer := newBuffer2;
      newBuffer2 := null;
      hide ListShape, Texts;
      nextBuffer.place := Next;
    }

    /** The check on too much data at once; a notice goes to the file in place of what is dropped. */
    method FlushDrop()
      requires Valid() && stage == Swapped
      modifies this`file, this`taken, this`stage, this`buffersToWrite
      ensures Valid() && Value() == Apply(old(Value()), Drop)
      ensures buffersToWrite <= old(buffersToWrite)
    {
      hide Inv, Texts, Blocks;
      DropKeepsInv(Value());
      taken := Apply(Value(), Drop).taken;
      if |buffersToWrite| > maxBuffers {
        file := file + [Notice(|buffersToWrite| - maxBuffers)];
        buffersToWrite := buffersToWrite[..maxBuffers];
        assert Texts(buffersToWrite) == old(Texts(buffersToWrite))[..maxBuffers];
      }
      stage := Writing(0);
    }

    /** One buffer written. */
    method FlushWrite()
      requires Valid() && Enabled(Value(), Write)
      modifies this`file, this`stage
      ensures Valid() && Value() == Apply(old(Value()), Write)
    {
      hide Inv, Texts;
      WriteKeepsInv(Value());
      var buffer := buffersToWrite[stage.written];
      file := file + [Data(buffer.data[..buffer.cur])];
      stage := Writing(stage.written + 1);
    }

    /** The written buffers refill the spares, from the back; the rest are freed. */
    method FlushRecycle()
      requires Valid() && Enabled(Value(), Recycle)
      modifies this`buffersToWrite, this`newBuffer1, this`newBuffer2, this`stage
      modifies buffersToWrite`cur, buffersToWrite`place
      ensures Valid() && Value() == Apply(old(Value()), Recycle)
    {
      hide Inv, Texts, SpareShape, ListShape;
      StepKeepsInv(Value(), Recycle);
      EnoughToRecycle();
      if |buffersToWrite| > 2 {
        KeepTwo();
      }
      if newBuffer1 == null {
        Recycle1();
      }
      if newBuffer2 == null {
        Recycle2();
      }
      ClearToWrite();
      SetStage(Idle);
    }

    /** assert(!buffersToWrite.empty()) before each spare is refilled. */
    lemma EnoughToRecycle()
      requires Valid() && stage.Writing?
      ensures newBuffer1 == null && |buffersToWrite| >= (if newBuffer2 == null then 2 else 1)
    {
    }

    /** buffersToWrite.resize(2). */
    method KeepTwo()
      requires Shape() && |buffersToWrite| > 2
      modifies this`buffersToWrite
      ensures Shape() && buffersToWrite == old(buffersToWrite)[..2]
      ensures Value() == old(Value()).(toWrite := Texts(buffersToWrite))
    {
      buffersToWrite := buffersToWrite[..2];
      assert Texts(buffers) == old(Texts(buffers));
    }

    /** std::move(buffersToWrite.back()), pop_back, reset. */
    method TakeBack(ghost p: Place) returns (b: FixedBuffer)
      requires Shape() && buffersToWrite != [] && p != Current
      modifies this`buffersToWrite, buffersToWrite`cur, buffersToWrite`place
      ensures Shape() && b.IsEmpty(size, p)
      ensures buffersToWrite == old(buffersToWrite)[..|old(buffersToWrite)| - 1]
      ensures Texts(buffers) == old(Texts(buffers)) && currentBuffer.Text() == old(currentBuffer.Text())
    {
      hide Texts, Shape;
      b := PopBack();
      b.Reset();
      b.place := p;
    }

    /** pop_back: the last buffer belongs to no place any more. */
    method PopBack() returns (b: FixedBuffer)
      requires Shape() && buffersToWrite != []
      modifies this`buffersToWrite
      ensures Shape() && b == old(buffersToWrite)[|old(buffersToWrite)| - 1]
      ensures b !in Owned() && b.Valid() && b.size == size
      ensures buffersToWrite == old(buffersToWrite)[..|old(buffersToWrite)| - 1]
      ensures Texts(buffers) == old(Texts(buffers)) && currentBuffer.Text() == old(currentBuffer.Text())
    {
      hide Texts;
      var n := |buffersToWrite| - 1;
      BackApart();
      b := buffersToWrite[n];
      buffersToWrite := buffersToWrite[..n];
    }

    method Recycle1()
      requires Shape() && newBuffer1 == null && buffersToWrite != []
      modifies this`newBuffer1, this`buffersToWrite, buffersToWrite`cur, buffersToWrite`place
      ensures Shape() && buffersToWrite == old(buffersToWrite)[..|old(buffersToWrite)| - 1]
      ensures Value() == old(Value()).(new1 := true, toWrite := Texts(buffersToWrite))
    {
      hide Texts;
      var b := TakeBack(New1);
      newBuffer1 := b;
    }

    method Recycle2()
      requires Shape() && newBuffer2 == null && buffersToWrite != []
      modifies this`newBuffer2, this`buffersToWrite, buffersToWrite`cur, buffersToWrite`place
      ensures Shape() && buffersToWrite == old(buffersToWrite)[..|old(buffersToWrite)| - 1]
      ensures Value() == old(Value()).(new2 := true, toWrite := Texts(buffersToWrite))
    {
      hide Texts;
      var b := TakeBack(New2);
      newBuffer2 := b;
    }

    /** The last buffer written is nowhere else. */
    lemma BackApart()
      requires Shape() && buffersToWrite != []
      ensures var n := |buffersToWrite| - 1; var b := buffersToWrite[n];
        b !in buffers && b !in buffersToWrite[..n] && b != currentBuffer && b !in Spares()
    {
    }

    method ClearToWrite()
      requires Shape()
      modifies this`buffersToWrite
      ensures Shape() && Value() == old(Value()).(toWrite := [])
    {
      buffersToWrite := [];
      assert Texts(buffers) == old(Texts(buffers));
    }
  }

  /** An appender with its four buffers. */
  method NewAppender(size: nat, maxBuffers: nat) returns (log: AsyncLogAppender)
    requires maxBuffers >= 2
    ensures fresh(log) && fresh(log.Owned()) && log.Valid() && Init(log.Value())
    ensures log.size == size && log.maxBuffers == maxBuffers
  {
    hide *;
    var b0 := new FixedBuffer(size, Current);
    var b1 := new FixedBuffer(size, Next);
    var b2 := new FixedBuffer(size, New1);
    var b3 := new FixedBuffer(size, New2);
    log := new AsyncLogAppender(size, maxBuffers, b0, b1, b2, b3);
  }

  lemma Settled(s: Log)
    requires Inv(s) && s.stage == Idle && s.full == [] && s.current == ""
    ensures s.accepted == BlockText(s.taken, false) && FileText(s.file) == BlockText(s.taken, true)
  {
    assert Concat([]) == "";
  }

  lemma TextsSnoc(bs: seq<FixedBuffer>, b: FixedBuffer)
    requires b.Valid() && forall x <- bs :: x.Valid()
    ensures Texts(bs + [b]) == Texts(bs) + [b.Text()]
  {
  }
}
