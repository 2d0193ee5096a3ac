/** The read buffer of the target-side system calls: `_read`, `_read_buffered`,
    `_read_init_buffer`, `read_clear` and what `_close` does to it. */
module ReadBuffer {

  /** The host's answer to a read; `Failed` is the return value -1. */
  datatype Reply = Data(bytes: seq<char>) | Failed

  /** Bytes passed on for a descriptor, or its closing. */
  datatype Event = Got(fd: int, bytes: seq<char>) | Shut(fd: int)

  /** A host: its answer to a read of `len` bytes of `fd` after a given history. */
  type Host = (seq<Event>, int, int) -> Reply

  /** All that is asked of a host: never more bytes than requested. */
  ghost predicate Contract(host: Host) {
    forall h: seq<Event>, fd: int, len: int ::
      host(h, fd, len).Data? ==> |host(h, fd, len).bytes| <= (if len > 0 then len else 0)
  }

  function BytesOf(r: Reply): seq<char> {
    if r.Data? then r.bytes else []
  }

  /** A buffer of `len` zeros with `bytes` at its front. */
  function Padded(bytes: seq<char>, len: int): (sent: seq<char>)
    ensures |bytes| <= |sent| && sent[..|bytes|] == bytes
    ensures forall i | |bytes| <= i < |sent| :: sent[i] == '\0'
    ensures |sent| == if len > |bytes| then len else |bytes|
  {
    bytes + seq(if len > |bytes| then len - |bytes| else 0, _ => '\0')
  }

  function Returned(r: Reply): int {
    if r.Data? then |r.bytes| else -1
  }

  // ---- The effect of each function on the abstract state ----

  /** `unread` is read_buf[read_pos..read_end]; `full` says that the last fill
      reached the end of the buffer. */
  datatype State = State(fd: int, unread: seq<char>, full: bool)

  const CLEARED: State := State(-1, [], false)

  /** What a call passes to its caller, all that it writes into the caller's memory,
      its return value, and what changes. */
  datatype Outcome = Outcome(bytes: seq<char>, sent: seq<char>, ret: int, state: State, history: seq<Event>)

  function Fill(B: nat, host: Host, history: seq<Event>, fd: int): (State, seq<Event>) {
    var r := host(history, fd, B);
    (State(fd, BytesOf(r), r.Data? && |r.bytes| == B), history + [Got(fd, BytesOf(r))])
  }

  function Serve(s: State, history: seq<Event>, len: int): Outcome {
    var n := if len <= 0 then 0 else if len < |s.unread| then len else |s.unread|;
    Outcome(s.unread[..n], s.unread[..n], n, s.(unread := s.unread[n..]), history)
  }

  function ReadBuffered(B: nat, host: Host, s: State, history: seq<Event>, len: int): Outcome {
    if s.unread == [] && s.full then
      var (filled, h) := Fill(B, host, history, s.fd);
      Serve(filled, h, len)
    else Serve(s, history, len)
  }

  function Read(B: nat, host: Host, s: State, history: seq<Event>, fd: int, len: int): Outcome {
    if s.fd != -1 && fd == s.fd then ReadBuffered(B, host, s, history, len)
    else if s.fd == -1 && len > 0 then
      var (filled, h) := Fill(B, host, history, fd);
      Serve(filled, h, len)
    else
      var r := host(history, fd, len);
      Outcome(BytesOf(r), Padded(BytesOf(r), len), Returned(r), s, history + [Got(fd, BytesOf(r))])
  }

  function Closed(s: State, fd: int): State {
    if s.fd == fd then CLEARED else s
  }

  // ---- The static variables and their functions ----

  class Syscalls {
    var readFd: int
    var readPos: nat
    var readEnd: int
    const buffer: array<char>
    var history: seq<Event>
    const host: Host

    constructor (size: nat, host: Host)
      requires size >= 1 && Contract(host)
      ensures Valid() && Abstract() == CLEARED && history == []
      ensures buffer.Length == size && this.host == host && fresh(buffer)
    {
      readFd := -1;
      readPos := 0;
      readEnd := 0;
      buffer := new char[size];
      history := [];
      this.host := host;
    }

    /** Every index stays inside the buffer; a failed fill leaves read_end at -1. */
    ghost predicate Valid()
      reads this
    {
      && buffer.Length >= 1 && Contract(host)
      && readPos <= buffer.Length
      && ((readEnd == -1 && readPos == 0) || readPos <= readEnd <= buffer.Length)
    }

    ghost function Abstract(): State
      reads this, buffer
      requires Valid()
    {
      State(readFd, if readEnd == -1 then [] else buffer[readPos..readEnd], readEnd == buffer.Length)
    }

    /** mw_func_stub(mw_func_read, ...) into `dst`: the host copies a whole zeroed
        buffer of `len` bytes to the target, however few of them it has filled. */
    method HostRead(fd: int, dst: array<char>, len: int) returns (r: int)
      requires Contract(host) && len <= dst.Length
      modifies this`history, dst
      ensures var reply := host(old(history), fd, len);
              && r == Returned(reply) <= dst.Length && (r >= 0 ==> dst[..r] == BytesOf(reply))
              && history == old(history) + [Got(fd, BytesOf(reply))]
              && dst[..] == Padded(BytesOf(reply), len) + old(dst[..])[|Padded(BytesOf(reply), len)|..]
    {
      var reply := host(history, fd, len);
      history := history + [Got(fd, BytesOf(reply))];
      var sent := Padded(BytesOf(reply), len);
      forall i | 0 <= i < |sent| { dst[i] := sent[i]; }
      r := if reply.Data? then |reply.bytes| else -1;
    }

    method ReadClear()
      requires Valid()
      modifies this
      ensures Valid() && Abstract() == CLEARED && history == old(history)
    {
      readPos := 0;
      readEnd := 0;
      readFd := -1;
    }

    method ReadInitBuffer(fd: int)
      requires Valid()
      modifies this, buffer
      ensures Valid() && readPos == 0
      ensures (Abstract(), history) == Fill(buffer.Length, host, old(history), fd)
    {
      readFd := fd;
      readPos := 0;
      readEnd := HostRead(readFd, buffer, buffer.Length);
    }

    /** The copy loop of `_read_buffered`. */
    method CopyAvailable(ptr: array<char>, len: int) returns (r: int)
      requires Valid() && len <= ptr.Length && ptr != buffer
      modifies this`readPos, ptr
      ensures Valid()
      ensures var o := Serve(old(Abstract()), history, len);
              && r == o.ret && Abstract() == o.state
              && r == |o.bytes| <= ptr.Length && ptr[..] == o.bytes + old(ptr[..])[r..]
    {
      ghost var s, before := Abstract(), ptr[..];
      var i := 0;
      while readPos + i < readEnd && i < len
        modifies ptr
        invariant Valid() && Abstract() == s
        invariant 0 <= i <= |s.unread| && i <= ptr.Length && (i > 0 ==> i <= len)
        invariant ptr[..i] == s.unread[..i]
        invariant forall k | i <= k < ptr.Length :: ptr[k] == before[k]
      {
        ptr[i] := buffer[readPos + i];
        i := i + 1;
      }
      readPos := readPos + i;
      r := i;
      assert ptr[i..] == before[i..] && ptr[..] == ptr[..i] + ptr[i..];
    }

    method ReadBufferedInto(ptr: array<char>, len: int) returns (r: int)
      requires Valid() && len <= ptr.Length && ptr != buffer
      modifies this, buffer, ptr
      ensures Valid()
      ensures var o := ReadBuffered(buffer.Length, host, old(Abstract()), old(history), len);
              && r == o.ret && Abstract() == o.state && history == o.history
              && r == |o.bytes| <= ptr.Length && ptr[..] == o.bytes + old(ptr[..])[r..]
    {
      ghost var before := history;
      if readPos == readEnd && readEnd == buffer.Length {
        readPos := 0;
        readEnd := HostRead(readFd, buffer, buffer.Length);
        assert (Abstract(), history) == Fill(buffer.Length, host, before, readFd);
      }
      r := CopyAvailable(ptr, len);
    }

    method ReadInto(file: int, ptr: array<char>, len: int) returns (r: int)
      requires Valid() && len <= ptr.Length && ptr != buffer
      modifies this, buffer, ptr
      ensures Valid()
      ensures var o := Read(buffer.Length, host, old(Abstract()), old(history), file, len);
              && r == o.ret && Abstract() == o.state && history == o.history
              && |o.sent| <= ptr.Length && ptr[..] == o.sent + old(ptr[..])[|o.sent|..]
    {
      if readFd != -1 && file == readFd {
        r := ReadBufferedInto(ptr, len);
      } else if readFd == -1 && len > 0 {
        ReadInitBuffer(file);
        r := ReadBufferedInto(ptr, len);
      } else {
        r := HostRead(file, ptr, len);
      }
    }

    /** The read side of `_close`. */
    method Close(fildes: int)
      requires Valid()
      modifies this
      ensures Valid() && Abstract() == Closed(old(Abstract()), fildes)
      ensures history == old(history) + [Shut(fildes)]
    {
      if readFd == fildes {
        ReadClear();
      }
      history := history + [Shut(fildes)];
    }
  }
}
