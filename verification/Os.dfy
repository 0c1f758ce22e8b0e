/** The operating system's side of a descriptor: any answer a non-blocking write may give. */
module Os {

  datatype Errno = NoError | EAGAIN | OtherError

  /** One system call: the bytes offered to a write, or the room offered to a read, and the answer. */
  datatype WriteCall = WriteCall(offered: string, answer: int)
  datatype ReadCall = ReadCall(room: nat, answer: int)

  /** A descriptor being written to, with everything it has accepted so far and every call made. */
  class Wire {
    var sent: string
    var errno: Errno
    ghost var calls: seq<WriteCall>

    constructor ()
      ensures sent == "" && errno == NoError && calls == []
    {
      sent, errno, calls := "", NoError, [];
    }

    /** write(2): takes some prefix of the bytes, or none and says so with 0 or -1. */
    method Write(bytes: string) returns (n: int)
      modifies this
      ensures -1 <= n <= |bytes|
      ensures sent == old(sent) + if n > 0 then bytes[..n] else ""
      ensures n >= 0 ==> errno == old(errno)
      ensures n < 0 ==> errno != NoError
      ensures calls == old(calls) + [WriteCall(bytes, n)]
    {
      n :| -1 <= n <= |bytes|;
      calls := calls + [WriteCall(bytes, n)];
      if n > 0 {
        sent := sent + bytes[..n];
      } else if n < 0 {
        var why: Errno :| why != NoError;
        errno := why;
      }
    }
  }

  /** A descriptor being read from: the bytes still to come from the peer, in order, and every call
      made. */
  class Inlet {
    var coming: string
    var errno: Errno
    ghost var calls: seq<ReadCall>

    constructor (coming: string)
      ensures this.coming == coming && errno == NoError && calls == []
    {
      this.coming, this.errno, calls := coming, NoError, [];
    }

    /** readv(2) into room for `room` bytes: some of what is to come, nothing at the end of the stream or
        for lack of room, or an error. */
    method Read(room: nat) returns (bytes: string, n: int)
      modifies this
      ensures -1 <= n <= |old(coming)| && n <= room
      ensures n >= 0 ==> bytes == old(coming)[..n] && coming == old(coming)[n..] && errno == old(errno)
      ensures n < 0 ==> bytes == "" && coming == old(coming) && errno != NoError
      ensures calls == old(calls) + [ReadCall(room, n)]
    {
      bytes := "";
      n :| -1 <= n <= |coming| && n <= room;
      calls := calls + [ReadCall(room, n)];
      if n >= 0 {
        bytes, coming := coming[..n], coming[n..];
      } else {
        var why: Errno :| why != NoError;
        errno := why;
      }
    }
  }
}
