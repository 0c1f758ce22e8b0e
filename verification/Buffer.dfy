/** The growable byte buffer (haha_web/base/Buffer.cpp): bytes enter at writePos and leave at
    readPos, inside an array that is compacted or replaced when room runs out. */
module ByteBuffer {
  import opened Text
  import Os

  lemma SplitAppend(a: string, b: string, n: nat)
    requires n <= |b|
    ensures a + b[..n] + b[n..] == a + b
  {
  }

  class Buffer {
    var data: array<char>
    var readPos: nat
    var writePos: nat

    ghost predicate Valid()
      reads this
    {
      readPos <= writePos <= data.Length
    }

    /** The bytes a reader sees. */
    ghost function Readable(): string
      reads this, data
      requires Valid()
    {
      data[readPos..writePos]
    }

    constructor (initialSize: nat)
      ensures Valid() && fresh(data) && data.Length == initialSize && Readable() == ""
    {
      data := new char[initialSize](_ => '\0');
      readPos, writePos := 0, 0;
    }

    function ReadableBytes(): (n: nat)
      reads this, data
      requires Valid()
      ensures n == |Readable()|
    {
      writePos - readPos
    }

    function WritableBytes(): nat
      reads this
      requires Valid()
    {
      data.Length - writePos
    }

    function PrependableBytes(): nat
      reads this
    {
      readPos
    }

    /** The readable bytes as a string_view. */
    method Peek() returns (view: string)
      requires Valid()
      ensures view == Readable()
    {
      view := data[readPos..writePos];
    }

    method Retrieve(len: nat)
      requires Valid() && len <= |Readable()|
      modifies this`readPos, this`writePos
      ensures Valid() && Readable() == old(Readable())[len..]
    {
      if len < writePos - readPos {
        readPos := readPos + len;
      } else {
        RetrieveAll();
      }
    }

    method RetrieveAll()
      requires Valid()
      modifies this`readPos, this`writePos
      ensures Valid() && Readable() == "" && readPos == writePos == 0
    {
      readPos, writePos := 0, 0;
    }

    /** Room for len more bytes: a bigger array, or the readable bytes moved to the front. */
    method MakeSpace(len: nat)
      requires Valid()
      modifies this, data
      ensures Valid() && (data == old(data) || fresh(data))
      ensures Readable() == old(Readable()) && WritableBytes() >= len
    {
      if WritableBytes() + PrependableBytes() < len {
        var bigger := new char[writePos + len + 1](_ => '\0');
        for i := 0 to data.Length
          invariant unchanged(this) && unchanged(data)
          invariant forall k :: 0 <= k < i ==> bigger[k] == data[k]
        {
          bigger[i] := data[i];
        }
        data := bigger;
      } else {
        var readable := ReadableBytes();
        for i := 0 to readable
          invariant data == old(data) && readPos == old(readPos) && writePos == old(writePos)
          invariant forall k :: 0 <= k < i ==> data[k] == old(data[readPos + k])
          invariant forall k :: i <= k < data.Length ==> data[k] == old(data[k])
        {
          data[i] := data[readPos + i];
        }
        readPos, writePos := 0, readable;
      }
    }

    method EnsureWriteable(len: nat)
      requires Valid()
      modifies this, data
      ensures Valid() && (data == old(data) || fresh(data))
      ensures Readable() == old(Readable()) && WritableBytes() >= len
    {
      if WritableBytes() < len {
        MakeSpace(len);
      }
    }

    /** std::copy to the write position; the position itself moves later. */
    method CopyIn(str: string)
      requires Valid() && |str| <= WritableBytes()
      modifies data
      ensures Readable() == old(Readable()) && data[writePos..writePos + |str|] == str
    {
      for i := 0 to |str|
        invariant forall k :: 0 <= k < i ==> data[writePos + k] == str[k]
        invariant forall k :: 0 <= k < writePos ==> data[k] == old(data[k])
      {
        data[writePos + i] := str[i];
      }
    }

    method Append(str: string)
      requires Valid()
      modifies this, data
      ensures Valid() && (data == old(data) || fresh(data))
      ensures Readable() == old(Readable()) + str
    {
      EnsureWriteable(|str|);
      AppendInPlace(str);
    }

    method AppendInPlace(str: string)
      requires Valid() && |str| <= WritableBytes()
      modifies this`writePos, data
      ensures Valid() && Readable() == old(Readable()) + str && WritableBytes() == old(WritableBytes()) - |str|
    {
      CopyIn(str);
      writePos := writePos + |str|;
    }

    /** One readv into the free room and a 65535-byte overflow area: what was delivered joins the end. */
    method ReadFd(fd: Os.Inlet) returns (len: int)
      requires Valid()
      modifies this, data, fd
      ensures Valid() && (data == old(data) || fresh(data))
      ensures -1 <= len <= |old(fd.coming)| && len <= old(WritableBytes()) + 65535
      ensures var n := if len > 0 then len else 0;
        Readable() == old(Readable()) + old(fd.coming)[..n] && fd.coming == old(fd.coming)[n..]
      ensures len >= 0 ==> fd.errno == old(fd.errno)
      ensures len < 0 ==> fd.errno != Os.NoError
      ensures fd.calls == old(fd.calls) + [Os.ReadCall(old(WritableBytes()) + 65535, len)]
    {
      var writable := WritableBytes();
      var bytes;
      bytes, len := fd.Read(writable + 65535);
      if len < 0 {
        return;
      }
      if len <= writable {
        AppendInPlace(bytes);
      } else {
        ghost var before := Readable();
        AppendInPlace(bytes[..writable]);
        Append(bytes[writable..]);
        SplitAppend(before, bytes, writable);
      }
    }

    /** One write of everything readable; what the descriptor took is gone from the front. */
    method WriteFd(fd: Os.Wire) returns (len: int)
      requires Valid()
      modifies this`readPos, fd
      ensures Valid() && -1 <= len <= |old(Readable())|
      ensures var taken := if len > 0 then len else 0;
        Readable() == old(Readable())[taken..] && fd.sent == old(fd.sent) + old(Readable())[..taken]
      ensures len >= 0 ==> fd.errno == old(fd.errno)
      ensures len < 0 ==> fd.errno != Os.NoError
      ensures fd.calls == old(fd.calls) + [Os.WriteCall(old(Readable()), len)]
    {
      var bytes := Peek();
      len := fd.Write(bytes);
      if len < 0 {
        return;
      }
      readPos := readPos + len;
    }
  }

  // ---------------------------------------------------------------- the buffer as a queue

  /** What an operation does to the readable bytes: ReadFd and Append push, Retrieve and WriteFd
      pop, EnsureWriteable pushes nothing. */
  datatype Op = Push(bytes: string) | Pop(len: nat)

  predicate Legal(q: string, ops: seq<Op>)
    decreases |ops|
  {
    ops == [] ||
    match ops[0]
    case Push(b) => Legal(q + b, ops[1..])
    case Pop(n) => n <= |q| && Legal(q[n..], ops[1..])
  }

  function After(q: string, ops: seq<Op>): string
    requires Legal(q, ops)
    decreases |ops|
  {
    if ops == [] then q
    else match ops[0]
      case Push(b) => After(q + b, ops[1..])
      case Pop(n) => After(q[n..], ops[1..])
  }

  function Pushed(ops: seq<Op>): string {
    if ops == [] then "" else (if ops[0].Push? then ops[0].bytes else "") + Pushed(ops[1..])
  }

  function Popped(q: string, ops: seq<Op>): string
    requires Legal(q, ops)
    decreases |ops|
  {
    if ops == [] then ""
    else match ops[0]
      case Push(b) => Popped(q + b, ops[1..])
      case Pop(n) => q[..n] + Popped(q[n..], ops[1..])
  }

  /** First in, first out: bytes taken, then bytes left, are the bytes there and the bytes put in. */
  lemma {:induction false} FirstInFirstOut(q: string, ops: seq<Op>)
    requires Legal(q, ops)
    ensures Popped(q, ops) + After(q, ops) == q + Pushed(ops)
    decreases |ops|
  {
    if ops != [] {
      match ops[0]
      case Push(b) =>
        FirstInFirstOut(q + b, ops[1..]);
      case Pop(n) =>
        FirstInFirstOut(q[n..], ops[1..]);
        assert q == q[..n] + q[n..];
        assert Pushed(ops) == Pushed(ops[1..]);
        assert q[..n] + Popped(q[n..], ops[1..]) + After(q[n..], ops[1..]) == q[..n] + (q[n..] + Pushed(ops[1..]));
    }
  }

  // ---------------------------------------------------------------- any calls on one buffer

  datatype Call = AppendCall(bytes: string) | ReadCall | RetrieveCall(len: nat) | WriteCall | EnsureCall(len: nat)

  /** What a call did to the queue: Append and ReadFd push, Retrieve and WriteFd pop, EnsureWriteable
      leaves it alone. */
  predicate DoneBy(op: Op, call: Call) {
    match call
    case AppendCall(bytes) => op == Push(bytes)
    case ReadCall => op.Push?
    case RetrieveCall(len) => op == Pop(len)
    case WriteCall => op.Pop?
    case EnsureCall(_) => op == Push("")
  }

  lemma {:induction false} OneMoreOp(q: string, ops: seq<Op>, op: Op)
    requires Legal(q, ops) && (op.Pop? ==> op.len <= |After(q, ops)|)
    ensures Legal(q, ops + [op])
    ensures After(q, ops + [op]) == if op.Push? then After(q, ops) + op.bytes else After(q, ops)[op.len..]
    decreases |ops|
  {
    if ops == [] {
      assert ops + [op] == [op] && [op][1..] == [];
    } else {
      OneMoreOp(if ops[0].Push? then q + ops[0].bytes else q[ops[0].len..], ops[1..], op);
      assert (ops + [op])[0] == ops[0] && (ops + [op])[1..] == ops[1..] + [op];
    }
  }

  lemma {:induction false} OneMorePushed(ops: seq<Op>, op: Op)
    ensures Pushed(ops + [op]) == Pushed(ops) + if op.Push? then op.bytes else ""
  {
    if ops == [] {
      assert ops + [op] == [op] && [op][1..] == [];
      assert Pushed([op]) == (if op.Push? then op.bytes else "") + Pushed([]);
    } else {
      OneMorePushed(ops[1..], op);
      assert (ops + [op])[0] == ops[0] && (ops + [op])[1..] == ops[1..] + [op];
    }
  }

  /** The calls up to now, each by what it did. */
  predicate AllDone(ops: seq<Op>, calls: seq<Call>) {
    |ops| <= |calls| && forall i :: 0 <= i < |ops| ==> DoneBy(ops[i], calls[i])
  }

  /** What has been done up to now to a queue that held q. */
  ghost predicate Tally(q: string, calls: seq<Call>, ops: seq<Op>, taken: string, put: string, now: string) {
    AllDone(ops, calls) && Legal(q, ops) && After(q, ops) == now && put == Pushed(ops) && taken + now == q + put
  }

  lemma OneMoreDone(ops: seq<Op>, calls: seq<Call>, op: Op)
    requires AllDone(ops, calls) && |ops| < |calls| && DoneBy(op, calls[|ops|])
    ensures AllDone(ops + [op], calls)
  {
  }

  lemma NothingDone(q: string, calls: seq<Call>)
    ensures Tally(q, calls, [], "", "", q)
  {
    assert "" + q == q + "";
  }

  lemma OneCallDone(q: string, calls: seq<Call>, ops: seq<Op>, taken: string, put: string, now: string, op: Op)
    requires Tally(q, calls, ops, taken, put, now)
    requires |ops| < |calls| && DoneBy(op, calls[|ops|]) && (op.Pop? ==> op.len <= |now|)
    ensures Tally(q, calls, ops + [op], taken + (if op.Pop? then now[..op.len] else ""),
                  put + (if op.Push? then op.bytes else ""), if op.Push? then now + op.bytes else now[op.len..])
  {
    hide DoneBy, AllDone, Legal, After, Pushed, Popped;
    OneMoreOp(q, ops, op);
    OneMorePushed(ops, op);
    OneMoreDone(ops, calls, op);
    if op.Push? {
      Balance(taken, now, "", now + op.bytes, q, put, op.bytes);
    } else {
      Balance(taken, now, now[..op.len], now[op.len..], q, put, "");
    }
  }

  /** Any calls on one buffer, as long as none retrieves more than there is. Whatever the two descriptors
      answer, the buffer acts as a queue of the bytes: what was taken, then what is readable, is what was
      readable, then what was put in. */
  method Drive(buf: Buffer, inlet: Os.Inlet, wire: Os.Wire, calls: seq<Call>)
    returns (done: nat, taken: string, put: string, ghost ops: seq<Op>)
    requires buf.Valid()
    modifies buf, buf.data, inlet, wire
    ensures buf.Valid() && done == |ops| <= |calls|
    ensures done < |calls| ==> calls[done].RetrieveCall? && calls[done].len > |buf.Readable()|
    ensures AllDone(ops, calls)
    ensures Legal(old(buf.Readable()), ops) && After(old(buf.Readable()), ops) == buf.Readable()
    ensures taken == Popped(old(buf.Readable()), ops) && put == Pushed(ops)
    ensures taken + buf.Readable() == old(buf.Readable()) + put
  {
    hide Tally, DoneBy, AllDone, Legal, After, Pushed, Popped, Buffer.Readable, Buffer.Valid, Buffer.ReadableBytes;
    ghost var q := buf.Readable();
    done, taken, put, ops := 0, "", "", [];
    NothingDone(q, calls);
    while done < |calls|
      invariant buf.Valid() && done == |ops| <= |calls|
      invariant buf.data == old(buf.data) || fresh(buf.data)
      invariant Tally(q, calls, ops, taken, put, buf.Readable())
    {
      if calls[done].RetrieveCall? && calls[done].len > buf.ReadableBytes() {
        break;
      }
      ghost var op;
      ghost var before := buf.Readable();
      var pushed, popped;
      pushed, popped, op := OneCall(buf, inlet, wire, calls[done]);
      OneCallDone(q, calls, ops, taken, put, before, op);
      ops := ops + [op];
      taken, put, done := taken + popped, put + pushed, done + 1;
    }
    Finished(q, calls, ops, taken, put, buf.Readable());
  }

  lemma Finished(q: string, calls: seq<Call>, ops: seq<Op>, taken: string, put: string, now: string)
    requires Tally(q, calls, ops, taken, put, now)
    ensures AllDone(ops, calls) && Legal(q, ops) && After(q, ops) == now && put == Pushed(ops)
    ensures taken == Popped(q, ops) && taken + now == q + put
  {
    hide AllDone, Legal, After, Pushed, Popped;
    FirstInFirstOut(q, ops);
    SameFront(taken, Popped(q, ops), now);
  }

  method OneCall(buf: Buffer, inlet: Os.Inlet, wire: Os.Wire, call: Call)
    returns (pushed: string, popped: string, ghost op: Op)
    requires buf.Valid() && (call.RetrieveCall? ==> call.len <= |buf.Readable()|)
    modifies buf, buf.data, inlet, wire
    ensures buf.Valid() && (buf.data == old(buf.data) || fresh(buf.data))
    ensures DoneBy(op, call) && (op.Pop? ==> op.len <= |old(buf.Readable())|)
    ensures pushed == (if op.Push? then op.bytes else "")
    ensures popped == (if op.Pop? then old(buf.Readable())[..op.len] else "")
    ensures buf.Readable() == if op.Push? then old(buf.Readable()) + op.bytes else old(buf.Readable())[op.len..]
  {
    pushed, popped := "", "";
    match call {
      case AppendCall(bytes) =>
        buf.Append(bytes);
        pushed, op := bytes, Push(bytes);
      case ReadCall =>
        var coming := inlet.coming;
        var len := buf.ReadFd(inlet);
        pushed := coming[..if len > 0 then len else 0];
        op := Push(pushed);
      case RetrieveCall(len) =>
        var view := buf.Peek();
        buf.Retrieve(len);
        popped, op := view[..len], Pop(len);
      case WriteCall =>
        var view := buf.Peek();
        var len := buf.WriteFd(wire);
        popped, op := view[..if len > 0 then len else 0], Pop(if len > 0 then len else 0);
      case EnsureCall(len) =>
        buf.EnsureWriteable(len);
        op := Push("");
        assert old(buf.Readable()) + "" == old(buf.Readable());
    }
  }

  lemma Balance(taken: string, before: string, popped: string, after: string, q: string, put: string, pushed: string)
    requires taken + before == q + put && before + pushed == popped + after
    ensures taken + popped + after == q + (put + pushed)
  {
    assert taken + popped + after == taken + (popped + after);
    assert taken + (before + pushed) == taken + before + pushed;
  }

  lemma SameFront(a: string, b: string, rest: string)
    requires a + rest == b + rest
    ensures a == b
  {
    assert |a| == |b| && a == (a + rest)[..|a|] && b == (b + rest)[..|b|];
  }
}
