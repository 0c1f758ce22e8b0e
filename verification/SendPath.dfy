/** Sending a response over a socket that may take any part of it, and receiving until nothing more
    is there (haha_web/net/TcpConnection.cpp, haha_web/net/Socket.cpp, haha_web/base/FileUtil.cpp). */
module SendPath {
  import opened Text
  import opened ByteBuffer
  import Os

  /** What a send loop does to a descriptor: it offers all the bytes, then all that is left as long as the
      answers are positive, and stops at the first that is not, with nothing left, or on a blocking socket
      after one call. */
  predicate WritesOut(calls: seq<Os.WriteCall>, all: string, isBlocked: bool)
    decreases |calls|
  {
    calls != [] && calls[0].offered == all && calls[0].answer <= |all| &&
    if |calls| == 1 then isBlocked || calls[0].answer <= 0 || calls[0].answer == |all|
    else !isBlocked && 0 < calls[0].answer < |all| && WritesOut(calls[1..], all[calls[0].answer..], isBlocked)
  }

  /** The same before the last call: some bytes are left to offer. */
  predicate WritesOn(calls: seq<Os.WriteCall>, all: string, left: string)
    decreases |calls|
  {
    if calls == [] then left == all
    else calls[0].offered == all && 0 < calls[0].answer < |all| && WritesOn(calls[1..], all[calls[0].answer..], left)
  }

  lemma {:induction false} OneMoreWrite(calls: seq<Os.WriteCall>, all: string, left: string, n: int)
    requires WritesOn(calls, all, left) && 0 < n < |left|
    ensures WritesOn(calls + [Os.WriteCall(left, n)], all, left[n..])
    decreases |calls|
  {
    var call := Os.WriteCall(left, n);
    if calls == [] {
      assert calls + [call] == [call] && [call][1..] == [];
    } else {
      assert (calls + [call])[0] == calls[0] && (calls + [call])[1..] == calls[1..] + [call];
      OneMoreWrite(calls[1..], all[calls[0].answer..], left, n);
    }
  }

  lemma {:induction false} FinalWrite(calls: seq<Os.WriteCall>, all: string, left: string, n: int, isBlocked: bool)
    requires WritesOn(calls, all, left) && n <= |left| && (isBlocked ==> calls == [])
    requires isBlocked || n <= 0 || n == |left|
    ensures WritesOut(calls + [Os.WriteCall(left, n)], all, isBlocked)
    decreases |calls|
  {
    var call := Os.WriteCall(left, n);
    if calls == [] {
      assert calls + [call] == [call];
    } else {
      assert (calls + [call])[0] == calls[0] && (calls + [call])[1..] == calls[1..] + [call];
      FinalWrite(calls[1..], all[calls[0].answer..], left, n, isBlocked);
    }
  }

  /** In the middle of a send loop: n of the bytes are on the wire, and what has been called is in the log. */
  ghost predicate Sending(sent0: string, sent: string, all: string, n: nat, left: string,
                          log0: seq<Os.WriteCall>, log: seq<Os.WriteCall>, isBlocked: bool) {
    && n <= |all| && sent == sent0 + all[..n] && left == all[n..] && (all != "" ==> left != "")
    && log0 <= log && WritesOn(log[|log0|..], all, left) && (isBlocked ==> log == log0)
  }

  lemma StartsSending(sent: string, all: string, log: seq<Os.WriteCall>, isBlocked: bool)
    ensures Sending(sent, sent, all, 0, all, log, log, isBlocked)
  {
    assert sent + all[..0] == sent && all[0..] == all && log[|log|..] == [];
  }

  lemma SendingIs(sent0: string, sent: string, all: string, n: nat, left: string,
                  log0: seq<Os.WriteCall>, log: seq<Os.WriteCall>, isBlocked: bool)
    requires Sending(sent0, sent, all, n, left, log0, log, isBlocked)
    ensures n <= |all| && sent == sent0 + all[..n] && left == all[n..] && (all != "" ==> left != "")
  {
  }

  lemma SendsOn(sent0: string, sent: string, all: string, n: nat, left: string,
                log0: seq<Os.WriteCall>, log: seq<Os.WriteCall>, isBlocked: bool, k: int)
    requires Sending(sent0, sent, all, n, left, log0, log, isBlocked) && 0 < k < |left| && !isBlocked
    ensures Sending(sent0, sent + left[..k], all, n + k, left[k..], log0, log + [Os.WriteCall(left, k)], isBlocked)
  {
    hide WritesOn;
    TakeMore(all, n, k);
    Grown(sent0, all[..n], left[..k]);
    OneMoreWrite(log[|log0|..], all, left, k);
    assert (log + [Os.WriteCall(left, k)])[|log0|..] == log[|log0|..] + [Os.WriteCall(left, k)];
  }

  lemma StopsSending(sent0: string, sent: string, all: string, n: nat, left: string,
                     log0: seq<Os.WriteCall>, log: seq<Os.WriteCall>, isBlocked: bool, k: int)
    requires Sending(sent0, sent, all, n, left, log0, log, isBlocked) && k <= |left|
    requires isBlocked || k <= 0 || k == |left|
    ensures k > 0 ==> sent + left[..k] == sent0 + all[..n + k] && left[k..] == all[n + k..]
    ensures var log' := log + [Os.WriteCall(left, k)];
      log0 <= log' && WritesOut(log'[|log0|..], all, isBlocked) && log'[|log'| - 1].answer == k
  {
    hide WritesOn, WritesOut;
    if k > 0 {
      TakeMore(all, n, k);
      Grown(sent0, all[..n], left[..k]);
    }
    if isBlocked {
      assert log[|log0|..] == [];
    }
    FinalWrite(log[|log0|..], all, left, k, isBlocked);
    assert (log + [Os.WriteCall(left, k)])[|log0|..] == log[|log0|..] + [Os.WriteCall(left, k)];
  }

  /** What a receive loop does: reads with room for 65535 bytes at least, as long as the answers are positive,
      and on a blocking socket once. */
  predicate ReadsIn(calls: seq<Os.ReadCall>, len: int, isBlocked: bool) {
    && calls != [] && calls[|calls| - 1].answer == len && (forall call <- calls :: call.room >= 65535)
    && (forall i :: 0 <= i < |calls| - 1 ==> calls[i].answer > 0) && if isBlocked then |calls| == 1 else len <= 0
  }

  class Socket {
    const fd: Os.Wire
    const isBlocked: bool

    constructor (fd: Os.Wire, isBlocked: bool)
      ensures this.fd == fd && this.isBlocked == isBlocked
    {
      this.fd, this.isBlocked := fd, isBlocked;
    }

    /** Socket::send: write until the buffer is empty, or once on a blocking socket; `len` is the
        answer to the last write. */
    method Send(buff: Buffer) returns (sended: nat, len: int)
      requires buff.Valid()
      modifies buff`readPos, fd
      ensures buff.Valid()
      ensures sended <= |old(buff.Readable())| && len >= -1
      ensures fd.sent == old(fd.sent) + old(buff.Readable())[..sended]
      ensures buff.Readable() == old(buff.Readable())[sended..]
      ensures len < 0 ==> fd.errno != Os.NoError
      ensures old(buff.Readable()) != "" && len <= 0 ==> buff.Readable() != ""
      ensures len > 0 && !isBlocked ==> buff.Readable() == ""
      ensures len > 0 ==> sended > 0
      ensures isBlocked ==> sended == if len > 0 then len else 0
      ensures old(fd.calls) <= fd.calls
      ensures var calls := fd.calls[|old(fd.calls)|..];
        WritesOut(calls, old(buff.Readable()), isBlocked) && calls[|calls| - 1].answer == len
    {
      sended := 0;
      ghost var all := buff.Readable();
      ghost var sent0, log0 := fd.sent, fd.calls;
      StartsSending(sent0, all, log0, isBlocked);
      while true
        invariant buff.Valid() && Sending(sent0, fd.sent, all, sended, buff.Readable(), log0, fd.calls, isBlocked)
        invariant isBlocked ==> sended == 0
        decreases |buff.Readable()|
      {
        ghost var sent, left, log := fd.sent, buff.Readable(), fd.calls;
        SendingIs(sent0, sent, all, sended, left, log0, log, isBlocked);
        hide Sending, WritesOut, Buffer.Readable, Buffer.Valid;
        len := buff.WriteFd(fd);
        if len <= 0 {
          StopsSending(sent0, sent, all, sended, left, log0, log, isBlocked, len);
          break;
        }
        sended := sended + len;
        if isBlocked || buff.ReadableBytes() == 0 {
          StopsSending(sent0, sent, all, sended - len, left, log0, log, isBlocked, len);
          break;
        }
        SendsOn(sent0, sent, all, sended - len, left, log0, log, isBlocked, len);
      }
    }

    /** Socket::recv: read until an error or the end of the stream, or once on a blocking socket; `len` is
        the answer to the last read. What was received joins the buffer in order. */
    method Recv(inlet: Os.Inlet, buff: Buffer) returns (received: nat, len: int)
      requires buff.Valid()
      modifies buff, buff.data, inlet
      ensures buff.Valid() && (buff.data == old(buff.data) || fresh(buff.data))
      ensures received <= |old(inlet.coming)| && len >= -1
      ensures buff.Readable() == old(buff.Readable()) + old(inlet.coming)[..received]
      ensures inlet.coming == old(inlet.coming)[received..]
      ensures len < 0 ==> inlet.errno != Os.NoError
      ensures if isBlocked then received == (if len > 0 then len else 0) else len <= 0
      ensures old(inlet.calls) <= inlet.calls && ReadsIn(inlet.calls[|old(inlet.calls)|..], len, isBlocked)
    {
      received := 0;
      ghost var calls: seq<Os.ReadCall> := [];
      ghost var all := inlet.coming;
      ghost var before := buff.Readable();
      assert before + "" == before;
      while true
        invariant buff.Valid() && (buff.data == old(buff.data) || fresh(buff.data))
        invariant received <= |all| && (isBlocked ==> received == 0)
        invariant buff.Readable() == before + all[..received] && inlet.coming == all[received..]
        invariant inlet.calls == old(inlet.calls) + calls && (isBlocked ==> calls == [])
        invariant forall call <- calls :: call.room >= 65535 && call.answer > 0
        decreases |inlet.coming|
      {
        len := buff.ReadFd(inlet);
        ghost var call := inlet.calls[|inlet.calls| - 1];
        Regroup(old(inlet.calls), calls, call);
        assert inlet.calls[|old(inlet.calls)|..] == calls + [call];
        calls := calls + [call];
        if len <= 0 {
          assert all[received..][..0] == "" && all[received..][0..] == all[received..];
          break;
        }
        TakeMore(all, received, len);
        Grown(before, all[..received], all[received..][..len]);
        received := received + len;
        if isBlocked {
          break;
        }
      }
    }
  }

  lemma Regroup<T>(a: seq<T>, b: seq<T>, c: T)
    ensures a + b + [c] == a + (b + [c])
  {
  }

  lemma Grown(a: string, b: string, c: string)
    ensures a + b + c == a + (b + c)
  {
  }

  lemma TakeMore(all: string, n: nat, k: nat)
    requires n + k <= |all|
    ensures all[..n] + all[n..][..k] == all[..n + k] && all[n..][k..] == all[n + k..]
  {
  }

  lemma Conserved(sent: string, all: string, n: nat, rest: string)
    requires n <= |all|
    ensures sent + all[..n] + (all[n..] + rest) == sent + (all + rest)
  {
  }

  lemma EmptyBuffer(sent: string, file: string)
    ensures sent + ("" + file) == sent + (file + "") == sent + file
  {
  }

  /** FileSendStream: a file and how much of it has gone. */
  class FileSendStream {
    const content: string
    const fd: Os.Wire
    const isBlock: bool
    var remainBytes: nat
    var sendedBytes: nat

    ghost predicate Valid()
      reads this
    {
      sendedBytes + remainBytes == |content|
    }

    ghost function Rest(): string
      reads this
      requires Valid()
    {
      content[sendedBytes..]
    }

    constructor (content: string, fd: Os.Wire, isBlock: bool)
      ensures Valid() && Rest() == content && this.fd == fd && this.isBlock == isBlock
    {
      this.content, this.fd, this.isBlock := content, fd, isBlock;
      remainBytes, sendedBytes := |content|, 0;
    }

    predicate Sendable()
      reads this
    {
      remainBytes > 0
    }

    method Send() returns (n: nat, ret: int)
      requires Valid() && Sendable()
      modifies this, fd
      ensures Valid() && n <= |old(Rest())|
      ensures fd.sent == old(fd.sent) + old(Rest())[..n] && Rest() == old(Rest())[n..]
      ensures ret < 0 ==> fd.errno != Os.NoError
      ensures ret <= 0 ==> Rest() != ""
      ensures ret > 0 && !isBlock ==> Rest() == ""
      ensures (ret > 0 ==> n > 0) && ret >= -1
      ensures old(fd.calls) <= fd.calls
      ensures var calls := fd.calls[|old(fd.calls)|..];
        WritesOut(calls, old(Rest()), isBlock) && calls[|calls| - 1].answer == ret
    {
      n := 0;
      ghost var all := Rest();
      ghost var sent0, log0 := fd.sent, fd.calls;
      StartsSending(sent0, all, log0, isBlock);
      while true
        invariant Valid() && Sendable() && Sending(sent0, fd.sent, all, n, Rest(), log0, fd.calls, isBlock)
        decreases remainBytes
      {
        ghost var sent, left, log := fd.sent, Rest(), fd.calls;
        SendingIs(sent0, sent, all, n, left, log0, log, isBlock);
        hide Sending, WritesOut;
        ret := fd.Write(content[sendedBytes..]);
        if ret <= 0 {
          StopsSending(sent0, sent, all, n, left, log0, log, isBlock, ret);
          break;
        }
        n := n + ret;
        remainBytes := remainBytes - ret;
        sendedBytes := sendedBytes + ret;
        assert Rest() == left[ret..];
        if !Sendable() || isBlock {
          StopsSending(sent0, sent, all, n - ret, left, log0, log, isBlock, ret);
          break;
        }
        SendsOn(sent0, sent, all, n - ret, left, log0, log, isBlock, ret);
      }
    }
  }

  datatype StatusType = AGAIN | COMPLETED | ERROR | CLOSED

  predicate TookAll(call: Os.WriteCall) { call.answer == |call.offered| > 0 }

  /** The calls of one send: the buffer goes out first, if there is any, and the file only behind the whole of
      it. */
  ghost predicate Offers(calls: seq<Os.WriteCall>, buffer: string, file: string, isBlocked: bool) {
    if buffer == "" then if file == "" then calls == [] else WritesOut(calls, file, isBlocked)
    else exists k :: 0 < k <= |calls| && WritesOut(calls[..k], buffer, isBlocked) &&
                     if file != "" && TookAll(calls[k - 1]) then WritesOut(calls[k..], file, isBlocked)
                     else k == |calls|
  }

  lemma AllParts(a: seq<Os.WriteCall>, b: seq<Os.WriteCall>, buffer: string, file: string, isBlocked: bool)
    requires if buffer == "" then a == [] else WritesOut(a, buffer, isBlocked) && a != []
    requires if file != "" && (buffer == "" || TookAll(a[|a| - 1])) then WritesOut(b, file, isBlocked) else b == []
    ensures Offers(a + b, buffer, file, isBlocked)
  {
    hide WritesOut, TookAll;
    if buffer == "" {
      assert [] + b == b;
    } else {
      var k := |a|;
      assert (a + b)[..k] == a && (a + b)[k..] == b;
    }
  }

  /** The log of a send, out of the logs of its parts. */
  lemma TwoParts(log0: seq<Os.WriteCall>, log1: seq<Os.WriteCall>, log2: seq<Os.WriteCall>,
                 buffer: string, file: string, isBlocked: bool)
    requires log0 <= log1 <= log2
    requires if buffer == "" then log1 == log0 else log1 != log0 && WritesOut(log1[|log0|..], buffer, isBlocked)
    requires if file != "" && (buffer == "" || TookAll(log1[|log1| - 1]))
      then log2 != log1 && WritesOut(log2[|log1|..], file, isBlocked) else log2 == log1
    ensures log0 <= log2 && Offers(log2[|log0|..], buffer, file, isBlocked)
    ensures log2[|log0|..] == [] <==> buffer == "" && file == ""
    ensures log2 != log0 ==> log2[|log0|..][|log2| - |log0| - 1] == log2[|log2| - 1]
  {
    hide WritesOut, TookAll;
    LogParts(log0, log1, log2);
    AllParts(log1[|log0|..], log2[|log1|..], buffer, file, isBlocked);
  }

  lemma LogParts(log0: seq<Os.WriteCall>, log1: seq<Os.WriteCall>, log2: seq<Os.WriteCall>)
    requires log0 <= log1 <= log2
    ensures log0 <= log2 && log2[|log0|..] == log1[|log0|..] + log2[|log1|..]
    ensures log1[|log0|..] == [] <==> log1 == log0
    ensures log2[|log1|..] == [] <==> log2 == log1
    ensures log2 != log1 ==> log2[|log0|..][|log2| - |log0| - 1] == log2[|log1|..][|log2| - |log1| - 1]
  {
    assert log2 == log1 + log2[|log1|..];
  }

  /** The last call tells whether anything is left. */
  lemma {:induction false} LastTells(calls: seq<Os.WriteCall>, all: string, isBlocked: bool)
    requires WritesOut(calls, all, isBlocked) && all != ""
    ensures calls != []
    ensures var last := calls[|calls| - 1];
      && (last.answer <= 0 ==> !TookAll(last)) && (!isBlocked && last.answer > 0 ==> TookAll(last))
      && (isBlocked ==> last.offered == all)
    decreases |calls|
  {
    if |calls| > 1 {
      LastTells(calls[1..], all[calls[0].answer..], isBlocked);
    }
  }

  class TcpConnection {
    const sock: Socket
    const recver: Buffer
    const sender: Buffer
    const fileSender: FileSendStream?

    ghost predicate Valid()
      reads this, recver, sender, fileSender
    {
      recver.Valid() && sender.Valid() && recver != sender && recver.data != sender.data
      && (fileSender != null ==> fileSender.Valid() && fileSender.fd == sock.fd && fileSender.isBlock == sock.isBlocked)
    }

    /** The part of the response not yet sent: the buffer, then the file. */
    ghost function Unsent(): string
      reads this, recver, sender, sender.data, fileSender
      requires Valid()
    {
      sender.Readable() + FileRest()
    }

    ghost function FileRest(): string
      reads this, fileSender
      requires fileSender != null ==> fileSender.Valid()
    {
      if fileSender != null then fileSender.Rest() else ""
    }

    constructor (sock: Socket, recver: Buffer, sender: Buffer, fileSender: FileSendStream?)
      requires recver.Valid() && sender.Valid() && recver != sender && recver.data != sender.data
      requires fileSender != null ==>
        fileSender.Valid() && fileSender.fd == sock.fd && fileSender.isBlock == sock.isBlocked
      ensures Valid() && this.sock == sock && this.fileSender == fileSender
      ensures this.recver == recver && this.sender == sender
    {
      this.sock, this.recver, this.sender, this.fileSender := sock, recver, sender, fileSender;
    }

    /** What arrives joins the receive buffer; the answer to the last read gives the status. Only on a blocking
        socket can that answer be positive. */
    method Recv(inlet: Os.Inlet) returns (status: StatusType, n: nat)
      requires Valid()
      modifies recver, recver.data, inlet
      ensures Valid() && Unsent() == old(Unsent())
      ensures n <= |old(inlet.coming)| && inlet.coming == old(inlet.coming)[n..]
      ensures recver.Readable() == old(recver.Readable()) + old(inlet.coming)[..n]
      ensures old(inlet.calls) <= inlet.calls && |inlet.calls| > |old(inlet.calls)|
      ensures var last := inlet.calls[|inlet.calls| - 1].answer;
        && ReadsIn(inlet.calls[|old(inlet.calls)|..], last, sock.isBlocked)
        && (status == AGAIN <==> last > 0 || (last < 0 && inlet.errno == Os.EAGAIN))
        && (status == CLOSED <==> last == 0)
        && (status == ERROR <==> last < 0 && inlet.errno == Os.OtherError)
    {
      var len;
      n, len := sock.Recv(inlet, recver);
      if len > 0 {
        status := AGAIN;
      } else if len < 0 && inlet.errno == Os.EAGAIN {
        status := AGAIN;
      } else if len == 0 {
        status := CLOSED;
      } else {
        status := ERROR;
      }
    }

    function Sendable(): (b: bool)
      reads this, recver, sender, fileSender, sender.data
      requires Valid()
      ensures b <==> Unsent() != ""
    {
      if fileSender != null then fileSender.Sendable() || sender.ReadableBytes() > 0
      else sender.ReadableBytes() > 0
    }

    /** One call of send: what goes out is the front of what was unsent, buffer before file, in as many
        writes as it takes; none if nothing is unsent. The answer to the last of them gives the status: positive
        with nothing left COMPLETED, EAGAIN with something left AGAIN, none taken CLOSED, and anything
        else, no write at all included, ERROR. */
    method Send() returns (status: StatusType, n: nat)
      requires Valid()
      modifies sender`readPos, fileSender, sock.fd
      ensures Valid()
      ensures sock.fd.sent + Unsent() == old(sock.fd.sent + Unsent())
      ensures old(sock.fd.sent) <= sock.fd.sent && old(sock.fd.calls) <= sock.fd.calls
      ensures var calls := sock.fd.calls[|old(sock.fd.calls)|..];
        && Offers(calls, old(sender.Readable()), old(FileRest()), sock.isBlocked)
        && (status == COMPLETED <==> calls != [] && calls[|calls| - 1].answer > 0 && Unsent() == "")
        && (status == AGAIN <==> calls != [] && calls[|calls| - 1].answer < 0 && sock.fd.errno == Os.EAGAIN)
        && (status == CLOSED <==> calls != [] && calls[|calls| - 1].answer == 0)
        && (calls == [] <==> old(Unsent()) == "")
        && (calls != [] && calls[|calls| - 1].answer <= 0 ==> Unsent() != "")
      ensures !sock.isBlocked ==> (status == COMPLETED <==> old(Unsent()) != "" && Unsent() == "")
      ensures !sock.isBlocked && status == ERROR && old(Unsent()) != "" ==>
        Unsent() != "" && sock.fd.errno == Os.OtherError
      // the count returned leaves out the buffer's bytes when the file was tried as well
      ensures var fileTried := fileSender != null && old(FileRest()) != "" && sender.Readable() == "";
        n + (if fileTried then |old(sender.Readable())| else 0) == |sock.fd.sent| - |old(sock.fd.sent)|
    {
      hide Offers;
      var len;
      n, len := SendParts();
      if len > 0 && !Sendable() {
        status := COMPLETED;
      } else if len < 0 && sock.fd.errno == Os.EAGAIN && Sendable() {
        status := AGAIN;
      } else if len == 0 {
        status := CLOSED;
      } else {
        status := ERROR;
      }
    }

    /** The buffer and then the file, as far as they go; -10086 if neither is tried. */
    method SendParts() returns (n: nat, len: int)
      requires Valid()
      modifies sender`readPos, fileSender, sock.fd
      ensures Valid()
      ensures sock.fd.sent + Unsent() == old(sock.fd.sent + Unsent())
      ensures old(sock.fd.sent) <= sock.fd.sent && old(sock.fd.calls) <= sock.fd.calls
      ensures var calls := sock.fd.calls[|old(sock.fd.calls)|..];
        && Offers(calls, old(sender.Readable()), old(FileRest()), sock.isBlocked)
        && (calls == [] <==> old(Unsent()) == "") && (calls == [] ==> len == -10086)
        && (calls != [] ==> calls[|calls| - 1].answer == len && len >= -1)
      ensures old(Unsent()) != "" ==> (len < 0 ==> sock.fd.errno != Os.NoError) && (len <= 0 ==> Unsent() != "")
      ensures len > 0 && !sock.isBlocked ==> Unsent() == ""
      ensures var fileTried := fileSender != null && old(FileRest()) != "" && sender.Readable() == "";
        n + (if fileTried then |old(sender.Readable())| else 0) == |sock.fd.sent| - |old(sock.fd.sent)|
    {
      hide WritesOut, TookAll, Offers, Buffer.Readable, FileRest, Unsent;
      UnsentParts();
      ghost var buffer, file, log0 := sender.Readable(), FileRest(), sock.fd.calls;
      n, len := 0, -10086;
      if sender.ReadableBytes() > 0 {
        n, len := SendBuffer();
      }
      UnsentParts();
      ghost var log1 := sock.fd.calls;
      assert |sock.fd.sent| + |Unsent()| == |sock.fd.sent + Unsent()| == |old(sock.fd.sent)| + |old(Unsent())|;
      n, len := SendFileBehind(n, len);
      UnsentParts();
      TwoParts(log0, log1, sock.fd.calls, buffer, file, sock.isBlocked);
    }

    lemma UnsentParts()
      requires Valid()
      ensures Unsent() == "" <==> sender.Readable() == "" && FileRest() == ""
      ensures |Unsent()| == |sender.Readable()| + |FileRest()|
      ensures sender.ReadableBytes() == |sender.Readable()|
      ensures FileRest() != "" <==> fileSender != null && fileSender.Sendable()
    {
    }

    predicate FileIsNext(len: int)
      reads this, recver, sender, sender.data, fileSender
      requires Valid()
    {
      fileSender != null && fileSender.Sendable() && sender.ReadableBytes() == 0 && (len > 0 || len == -10086)
    }

    /** The file, if the buffer is out of the way. */
    method SendFileBehind(n0: nat, len0: int) returns (n: nat, len: int)
      requires Valid()
      modifies fileSender, sock.fd
      ensures Valid() && sock.fd.sent + Unsent() == old(sock.fd.sent + Unsent())
      ensures old(sock.fd.sent) <= sock.fd.sent && old(sock.fd.calls) <= sock.fd.calls
      ensures if old(FileIsNext(len0)) then
        && |sock.fd.sent| == |old(sock.fd.sent)| + n && (len < 0 ==> sock.fd.errno != Os.NoError)
        && (len <= 0 ==> Unsent() != "") && (len > 0 && !sock.isBlocked ==> Unsent() == "")
        && WritesOut(sock.fd.calls[|old(sock.fd.calls)|..], old(FileRest()), sock.isBlocked)
        && sock.fd.calls != old(sock.fd.calls) && sock.fd.calls[|sock.fd.calls| - 1].answer == len && len >= -1
      else
        && n == n0 && len == len0 && sock.fd.sent == old(sock.fd.sent) && sock.fd.calls == old(sock.fd.calls)
        && sock.fd.errno == old(sock.fd.errno) && FileRest() == old(FileRest())
    {
      n, len := n0, len0;
      if FileIsNext(len) {
        n, len := SendFile();
      }
    }

    method SendBuffer() returns (n: nat, len: int)
      requires Valid() && sender.Readable() != ""
      modifies sender`readPos, sock.fd
      ensures Valid() && sock.fd.sent + Unsent() == old(sock.fd.sent + Unsent())
      ensures |sock.fd.sent| == |old(sock.fd.sent)| + n && old(sock.fd.sent) <= sock.fd.sent
      ensures -1 <= len && (len < 0 ==> sock.fd.errno != Os.NoError)
      ensures (len <= 0 ==> sender.Readable() != "") && (len > 0 && !sock.isBlocked ==> sender.Readable() == "")
      ensures old(sock.fd.calls) <= sock.fd.calls
      ensures var calls := sock.fd.calls[|old(sock.fd.calls)|..];
        WritesOut(calls, old(sender.Readable()), sock.isBlocked)
      ensures var last := sock.fd.calls[|sock.fd.calls| - 1];
        last.answer == len && (TookAll(last) <==> sender.Readable() == "")
      ensures sock.fd.calls != old(sock.fd.calls)
    {
      hide WritesOut, Buffer.Readable;
      ghost var log0, all := sock.fd.calls, sender.Readable();
      n, len := sock.Send(sender);
      Conserved(old(sock.fd.sent), all, n, FileRest());
      LastTells(sock.fd.calls[|log0|..], all, sock.isBlocked);
    }

    method SendFile() returns (n: nat, len: int)
      requires Valid() && fileSender != null && fileSender.Sendable() && sender.Readable() == ""
      modifies fileSender, sock.fd
      ensures Valid() && sock.fd.sent + Unsent() == old(sock.fd.sent + Unsent())
      ensures |sock.fd.sent| == |old(sock.fd.sent)| + n && old(sock.fd.sent) <= sock.fd.sent
      ensures len < 0 ==> sock.fd.errno != Os.NoError
      ensures (len <= 0 ==> Unsent() != "") && (len > 0 && !sock.isBlocked ==> Unsent() == "")
      ensures old(sock.fd.calls) <= sock.fd.calls
      ensures var calls := sock.fd.calls[|old(sock.fd.calls)|..];
        WritesOut(calls, old(FileRest()), sock.isBlocked)
      ensures sock.fd.calls != old(sock.fd.calls) && sock.fd.calls[|sock.fd.calls| - 1].answer == len && len >= -1
    {
      n, len := fileSender.Send();
      Conserved(old(sock.fd.sent), old(fileSender.Rest()), n, "");
      EmptyBuffer(old(sock.fd.sent), old(fileSender.Rest()));
      EmptyBuffer(sock.fd.sent, fileSender.Rest());
    }

    /** Any number of calls, as the loop calls again after each AGAIN: at every point the wire and
        what is unsent make up the response. */
    method SendRepeatedly(calls: nat) returns (status: StatusType)
      requires Valid() && calls > 0
      modifies sender`readPos, fileSender, sock.fd
      ensures Valid() && sock.fd.sent + Unsent() == old(sock.fd.sent + Unsent())
      ensures status == COMPLETED ==> sock.fd.sent == old(sock.fd.sent + Unsent())
      ensures status == AGAIN ==> Unsent() != ""
    {
      var i := 0;
      status := AGAIN;
      while i < calls && status == AGAIN
        invariant i <= calls && Valid()
        invariant sock.fd.sent + Unsent() == old(sock.fd.sent + Unsent())
        invariant status == COMPLETED ==> Unsent() == ""
        invariant status == AGAIN && i > 0 ==> Unsent() != ""
      {
        var n;
        status, n := Send();
        i := i + 1;
      }
      assert status == COMPLETED ==> sock.fd.sent + Unsent() == sock.fd.sent;
    }
  }
}
