/** The write buffer of the target-side system calls: `_write`, `_buffered_write`,
    `flush_write` and what `_close` does to it. */
module WriteBuffer {

  /** One host write: the stub stopped with func `mw_func_write`. */
  datatype Call = Call(fd: int, data: seq<char>)

  const NEWLINE: char := '\n'

  // ---- The effect of each function on the abstract state ----

  /** `fd` is `write_fd`, `pending` the first `write_pos` bytes of `write_buf`. */
  datatype State = State(fd: int, pending: seq<char>)

  const CLEARED: State := State(-1, [])

  /** What the host sees of a flushed segment. Writing a single byte goes back into
      the buffer: a lone newline is doubled there, any other lone byte is lost. */
  function Emit(fd: int, segment: seq<char>): seq<Call> {
    if segment == [] then []
    else if |segment| > 1 then [Call(fd, segment)]
    else if segment[0] == NEWLINE then [Call(fd, [NEWLINE, NEWLINE])]
    else []
  }

  function Flushed(s: State): State {
    if s.pending == [] then s else CLEARED
  }

  /** The calls and the state after `_write(fd, &c, 1)`. */
  function PutByte(B: nat, s: State, fd: int, c: char): (seq<Call>, State) {
    var full := fd != s.fd || |s.pending| == B;
    var calls := if full then Emit(s.fd, s.pending) else [];
    var pending := (if full then [] else s.pending) + [c];
    if c == NEWLINE then (calls + Emit(fd, pending), State(fd, []))
    else (calls, State(fd, pending))
  }

  /** The static state and its functions. `buffer` has MW_NEWLIB_BUFFER_SIZE bytes;
      `calls` records what reaches the host, `reply` is the host's answer to the
      call made after a given history. */
  class Syscalls {
    var writeFd: int
    var writePos: nat
    const buffer: array<char>
    var calls: seq<Call>
    const reply: seq<Call> -> int

    constructor (size: nat, reply: seq<Call> -> int)
      requires size >= 2
      ensures Valid() && Abstract() == CLEARED && calls == [] && buffer.Length == size
      ensures this.reply == reply && fresh(buffer)
    {
      writeFd := -1;
      writePos := 0;
      buffer := new char[size];
      calls := [];
      this.reply := reply;
    }

    ghost predicate Valid()
      reads this
    {
      buffer.Length >= 2 && writePos <= buffer.Length
    }

    /** Between calls from outside, no newline waits in the buffer. */
    ghost predicate Quiescent()
      reads this, buffer
    {
      Valid() && NEWLINE !in buffer[..writePos]
    }

    ghost function Abstract(): State
      reads this, buffer
      requires Valid()
    {
      State(writeFd, buffer[..writePos])
    }

    /** mw_func_stub(mw_func_write, ...). */
    method HostWrite(fd: int, data: array<char>, len: int) returns (r: int)
      requires len <= data.Length
      modifies this`calls
      ensures calls == old(calls) + [Call(fd, if len > 0 then data[..len] else [])]
      ensures r == reply(old(calls))
    {
      r := reply(calls);
      calls := calls + [Call(fd, if len > 0 then data[..len] else [])];
    }

    /** A write of one byte that only appends. A flush of one byte re-enters the
        buffer in this way, which ranks the calls flush_write -> _write ->
        _buffered_write -> flush_write. */
    ghost predicate Appends(fd: int)
      reads this
    {
      fd == writeFd && 1 <= writePos < buffer.Length
    }

    method FlushWrite()
      requires Valid()
      modifies this, buffer
      ensures Valid() && Abstract() == Flushed(old(Abstract()))
      ensures calls == old(calls) + Emit(old(writeFd), old(buffer[..writePos]))
      decreases if writePos == 1 then 4 else 1
    {
      if writePos > 0 {
        assert writePos == 1 ==> buffer[..writePos] == [buffer[0]];
        assert [buffer[0]] + [buffer[0]] == [buffer[0], buffer[0]];
        var _ := Write(writeFd, buffer, writePos);
        writeFd := -1;
        writePos := 0;
      }
    }

    /** `*ptr` is `ptr[0]`; from flush_write, `ptr` is the buffer itself. */
    method BufferedWrite(file: int, ptr: array<char>) returns (r: int)
      requires Valid() && ptr.Length > 0
      requires ptr == buffer ==> Appends(file)
      modifies this, buffer
      ensures Valid() && r == 1
      ensures var (emitted, s) := PutByte(buffer.Length, old(Abstract()), file, old(ptr[0]));
              calls == old(calls) + emitted && Abstract() == s
      ensures old(Quiescent()) ==> Quiescent()
      decreases if Appends(file) then 2 else 5
    {
      if file != writeFd || writePos == buffer.Length {
        FlushWrite();
        writeFd := file;
      }
      ghost var before := buffer[..writePos];
      buffer[writePos] := ptr[0];
      writePos := writePos + 1;
      assert buffer[..writePos] == before + [ptr[0]];
      if ptr[0] == NEWLINE {
        FlushWrite();
        writeFd := file;
      }
      r := 1;
    }

    method Write(file: int, ptr: array<char>, len: int) returns (r: int)
      requires Valid() && len <= ptr.Length
      requires ptr == buffer && len == 1 ==> Appends(file)
      modifies this, buffer
      ensures Valid()
      ensures len == 1 ==>
        var (emitted, s) := PutByte(buffer.Length, old(Abstract()), file, old(ptr[0]));
        calls == old(calls) + emitted && Abstract() == s && r == 1
      ensures len != 1 ==>
        && calls == old(calls) + [Call(file, if len > 0 then old(ptr[..len]) else [])]
        && Abstract() == old(Abstract()) && r == reply(old(calls))
      ensures old(Quiescent()) ==> Quiescent()
      decreases if len != 1 then 0 else if Appends(file) then 3 else 6
    {
      if len == 1 {
        r := BufferedWrite(file, ptr);
      } else {
        r := HostWrite(file, ptr, len);
      }
    }

    /** The write side of `_close`. */
    method Close()
      requires Valid()
      modifies this, buffer
      ensures Valid() && Abstract() == Flushed(old(Abstract()))
      ensures calls == old(calls) + Emit(old(writeFd), old(buffer[..writePos]))
      ensures old(Quiescent()) ==> Quiescent()
    {
      FlushWrite();
    }
  }
}
