/** Whole runs of reads and closes on any number of descriptors, against any host. */
module ReadRuns {
  import opened ReadBuffer

  datatype Op = ReadOp(fd: int, len: int) | CloseOp(fd: int)

  /** The buffer, what the host has been asked, and what the program has been given. */
  datatype System = System(state: State, host: seq<Event>, program: seq<Event>)

  const START: System := System(CLEARED, [], [])

  function Step(B: nat, host: Host, s: System, op: Op): System {
    match op
    case ReadOp(fd, len) =>
      var o := Read(B, host, s.state, s.host, fd, len);
      System(o.state, o.history, s.program + [Got(fd, o.bytes)])
    case CloseOp(fd) =>
      System(Closed(s.state, fd), s.host + [Shut(fd)], s.program + [Shut(fd)])
  }

  function Run(B: nat, host: Host, s: System, ops: seq<Op>): System
    decreases |ops|
  {
    if ops == [] then s else Run(B, host, Step(B, host, s, ops[0]), ops[1..])
  }

  /** What `fd` has received since it was closed last, one event later. */
  function After(before: seq<char>, e: Event, fd: int): seq<char> {
    if e.fd != fd then before else if e.Got? then before + e.bytes else []
  }

  /** What `fd` has received since it was closed last. */
  function Since(events: seq<Event>, fd: int): seq<char> {
    if events == [] then []
    else After(Since(events[..|events| - 1], fd), events[|events| - 1], fd)
  }

  lemma SinceNext(events: seq<Event>, e: Event, fd: int)
    ensures Since(events + [e], fd) == After(Since(events, fd), e, fd)
  {
    assert (events + [e])[..|events|] == events;
  }

  /** The bytes of `fd` that wait in the buffer. */
  function Unread(s: State, fd: int): seq<char> {
    if s.fd == fd then s.unread else []
  }

  /** What the program was given and what waits for it are together exactly what
      the host has handed out for `fd`. */
  predicate Conserved(s: System, fd: int) {
    Since(s.host, fd) == Since(s.program, fd) + Unread(s.state, fd)
  }

  /** Descriptors are not negative; -1 marks a free buffer, in which nothing waits. */
  predicate FreeIsEmpty(s: State) {
    s.fd == -1 ==> s.unread == []
  }

  predicate ValidOps(ops: seq<Op>) {
    forall i | 0 <= i < |ops| :: ops[i].fd >= 0
  }

  /** Whether a read of `fd` refills the buffer. */
  predicate Fills(s: State, fd: int, len: int) {
    if s.fd == fd then s.unread == [] && s.full else s.fd == -1 && len > 0
  }

  /** The three ways a read goes. */
  lemma ReadCases(B: nat, host: Host, s: State, h: seq<Event>, fd: int, len: int)
    requires fd >= 0
    ensures var o := Read(B, host, s, h, fd, len);
            if Fills(s, fd, len) then
              var (filled, h') := Fill(B, host, h, fd); o == Serve(filled, h', len)
            else if s.fd == fd then o == Serve(s, h, len)
            else o.state == s && o.history == h + [Got(fd, o.bytes)] && o.bytes == BytesOf(host(h, fd, len))
  {
  }

  /** Whether a read goes through the buffer. */
  predicate Buffered(s: State, fd: int, len: int) {
    s.fd == fd || (s.fd == -1 && len > 0)
  }

  /** What every read gives its caller, in every state and against every host. Through the
      buffer: as many bytes as fit or are there, and the buffer belongs to the descriptor
      afterwards; less than asked for only if nothing is left. Past the buffer: the
      answer of the host. The caller's memory gets the bytes, and behind them zeros only
      of a host that answered short. */
  lemma ReadDelivers(B: nat, host: Host, s: State, h: seq<Event>, fd: int, len: int)
    requires fd >= 0 && Contract(host)
    ensures var o := Read(B, host, s, h, fd, len);
            && (o.ret >= 0 ==> o.ret == |o.bytes|) && (len > 0 ==> o.ret <= len)
            && (o.ret < 0 <==> o.ret == -1)
            && (o.ret == -1 <==> !Buffered(s, fd, len) && host(h, fd, len).Failed?)
            && o.bytes <= o.sent && (forall i | |o.bytes| <= i < |o.sent| :: o.sent[i] == '\0')
            && (Buffered(s, fd, len) ==>
                  && o.state.fd == fd && o.sent == o.bytes
                  && (o.ret < len ==> o.state.unread == [])
                  && (len <= 0 ==> o.ret == 0))
            && (!Buffered(s, fd, len) ==>
                  && o.state == s && o.bytes == BytesOf(host(h, fd, len))
                  && |o.sent| == if len > 0 then len else 0)
  {
    ReadCases(B, host, s, h, fd, len);
    assert host(h, fd, len).Data? ==> |host(h, fd, len).bytes| <= (if len > 0 then len else 0);
  }

  /** When the host is asked: never as long as bytes of the descriptor wait; for a whole
      buffer if it is to be filled; else for what the caller asked. */
  lemma ReadAsks(B: nat, host: Host, s: State, h: seq<Event>, fd: int, len: int)
    requires fd >= 0
    ensures var o := Read(B, host, s, h, fd, len);
            && (Fills(s, fd, len) ==> o.history == h + [Got(fd, BytesOf(host(h, fd, B)))])
            && (s.fd == fd && s.unread != [] ==> o.history == h)
            && (!Buffered(s, fd, len) ==> o.history == h + [Got(fd, BytesOf(host(h, fd, len)))])
            && (Buffered(s, fd, len) && !Fills(s, fd, len) ==> o.history == h)
  {
  }

  /** A delivery from a buffer that holds `unread`. */
  lemma DeliveryConserves(given: seq<char>, s: State, history: seq<Event>, len: int)
    ensures var o := Serve(s, history, len);
            given + s.unread == given + o.bytes + o.state.unread
  {
    var o := Serve(s, history, len);
    assert s.unread == o.bytes + o.state.unread;
  }

  lemma FillConserves(B: nat, host: Host, s: System, fd: int, len: int, f: int)
    requires fd >= 0 && f >= 0 && FreeIsEmpty(s.state) && Conserved(s, f) && Fills(s.state, fd, len)
    ensures var s' := Step(B, host, s, ReadOp(fd, len));
            Conserved(s', f) && FreeIsEmpty(s'.state)
  {
    ReadCases(B, host, s.state, s.host, fd, len);
    var (filled, h) := Fill(B, host, s.host, fd);
    var o := Serve(filled, h, len);
    SinceNext(s.program, Got(fd, o.bytes), f);
    SinceNext(s.host, Got(fd, filled.unread), f);
    DeliveryConserves(Since(s.program, fd), filled, h, len);
  }

  lemma BufferedConserves(B: nat, host: Host, s: System, fd: int, len: int, f: int)
    requires fd >= 0 && f >= 0 && FreeIsEmpty(s.state) && Conserved(s, f)
    requires !Fills(s.state, fd, len) && s.state.fd == fd
    ensures var s' := Step(B, host, s, ReadOp(fd, len));
            Conserved(s', f) && FreeIsEmpty(s'.state)
  {
    ReadCases(B, host, s.state, s.host, fd, len);
    var o := Serve(s.state, s.host, len);
    SinceNext(s.program, Got(fd, o.bytes), f);
    DeliveryConserves(Since(s.program, fd), s.state, s.host, len);
  }

  lemma DirectConserves(B: nat, host: Host, s: System, fd: int, len: int, f: int)
    requires fd >= 0 && f >= 0 && FreeIsEmpty(s.state) && Conserved(s, f)
    requires !Fills(s.state, fd, len) && s.state.fd != fd
    ensures var s' := Step(B, host, s, ReadOp(fd, len));
            Conserved(s', f) && FreeIsEmpty(s'.state)
  {
    ReadCases(B, host, s.state, s.host, fd, len);
    var bytes := BytesOf(host(s.host, fd, len));
    SinceNext(s.program, Got(fd, bytes), f);
    SinceNext(s.host, Got(fd, bytes), f);
  }

  lemma ReadConserves(B: nat, host: Host, s: System, fd: int, len: int, f: int)
    requires fd >= 0 && f >= 0 && FreeIsEmpty(s.state) && Conserved(s, f)
    ensures var s' := Step(B, host, s, ReadOp(fd, len));
            Conserved(s', f) && FreeIsEmpty(s'.state)
  {
    if Fills(s.state, fd, len) { FillConserves(B, host, s, fd, len, f); }
    else if s.state.fd == fd { BufferedConserves(B, host, s, fd, len, f); }
    else { DirectConserves(B, host, s, fd, len, f); }
  }

  lemma {:induction false} StepConserves(B: nat, host: Host, s: System, op: Op, f: int)
    requires op.fd >= 0 && f >= 0 && FreeIsEmpty(s.state) && Conserved(s, f)
    ensures var s' := Step(B, host, s, op); Conserved(s', f) && FreeIsEmpty(s'.state)
  {
    match op
    case ReadOp(fd, len) => ReadConserves(B, host, s, fd, len, f);
    case CloseOp(fd) =>
      SinceNext(s.host, Shut(fd), f);
      SinceNext(s.program, Shut(fd), f);
  }

  /** Read conservation: over every run of reads and closes on any descriptors,
      against every host, no byte is skipped, repeated or given to another one. */
  lemma {:induction false} RunConserves(B: nat, host: Host, s: System, ops: seq<Op>, f: int)
    requires ValidOps(ops) && f >= 0 && FreeIsEmpty(s.state) && Conserved(s, f)
    ensures var s' := Run(B, host, s, ops); Conserved(s', f) && FreeIsEmpty(s'.state)
    decreases |ops|
  {
    if ops == [] {
    } else {
      StepConserves(B, host, s, ops[0], f);
      RunConserves(B, host, Step(B, host, s, ops[0]), ops[1..], f);
    }
  }

  // ---- End of file ----

  /** A host that fills every read as far as the file of the descriptor allows. */
  function FileHost(file: int -> seq<char>): Host {
    (h: seq<Event>, fd: int, len: int) => Data(Next(file(fd), |Since(h, fd)|, len))
  }

  function Next(content: seq<char>, at: nat, len: int): seq<char> {
    if at >= |content| || len <= 0 then []
    else if at + len <= |content| then content[at..at + len]
    else content[at..]
  }

  /** The host has handed out a prefix of the file, all of it if the buffer of the
      descriptor could not be filled the last time. */
  predicate Reading(file: int -> seq<char>, s: System, fd: int) {
    && Since(s.host, fd) <= file(fd)
    && (s.state.fd == fd && !s.state.full ==> Since(s.host, fd) == file(fd))
  }

  lemma NextExtends(content: seq<char>, at: nat, len: int)
    ensures at <= |content| ==> content[..at] + Next(content, at, len) <= content
    ensures at <= |content| && len > 0 && |Next(content, at, len)| < len ==>
              content[..at] + Next(content, at, len) == content
    ensures at <= |content| && len > 0 ==> (Next(content, at, len) == [] <==> at == |content|)
    ensures at == |content| ==> Next(content, at, len) == []
  {
    if at < |content| && len > 0 && at + len <= |content| {
      assert content[..at] + content[at..at + len] == content[..at + len];
    } else if at <= |content| {
      assert content[..at] + content[at..] == content;
    }
  }

  lemma FillReads(B: nat, file: int -> seq<char>, s: System, fd: int, len: int, f: int)
    requires B >= 1 && fd >= 0 && f >= 0 && Fills(s.state, fd, len) && Reading(file, s, f)
    ensures Reading(file, Step(B, FileHost(file), s, ReadOp(fd, len)), f)
  {
    ReadCases(B, FileHost(file), s.state, s.host, fd, len);
    SinceNext(s.host, Got(fd, Fill(B, FileHost(file), s.host, fd).0.unread), f);
    NextExtends(file(fd), |Since(s.host, fd)|, B);
  }

  lemma DirectReads(B: nat, file: int -> seq<char>, s: System, fd: int, len: int, f: int)
    requires B >= 1 && fd >= 0 && f >= 0 && !Fills(s.state, fd, len) && Reading(file, s, f)
    ensures Reading(file, Step(B, FileHost(file), s, ReadOp(fd, len)), f)
  {
    ReadCases(B, FileHost(file), s.state, s.host, fd, len);
    if s.state.fd != fd {
      SinceNext(s.host, Got(fd, Next(file(fd), |Since(s.host, fd)|, len)), f);
      NextExtends(file(fd), |Since(s.host, fd)|, len);
    }
  }

  lemma {:induction false} StepReads(B: nat, file: int -> seq<char>, s: System, op: Op, f: int)
    requires B >= 1 && op.fd >= 0 && f >= 0 && Reading(file, s, f)
    ensures Reading(file, Step(B, FileHost(file), s, op), f)
  {
    match op
    case CloseOp(fd) => SinceNext(s.host, Shut(fd), f);
    case ReadOp(fd, len) =>
      if Fills(s.state, fd, len) { FillReads(B, file, s, fd, len, f); }
      else { DirectReads(B, file, s, fd, len, f); }
  }

  lemma {:induction false} RunReads(B: nat, file: int -> seq<char>, s: System, ops: seq<Op>, f: int)
    requires B >= 1 && ValidOps(ops) && f >= 0 && FreeIsEmpty(s.state)
    requires Conserved(s, f) && Reading(file, s, f)
    ensures var s' := Run(B, FileHost(file), s, ops);
            Conserved(s', f) && Reading(file, s', f) && FreeIsEmpty(s'.state)
    decreases |ops|
  {
    if ops == [] {
    } else {
      StepConserves(B, FileHost(file), s, ops[0], f);
      StepReads(B, file, s, ops[0], f);
      RunReads(B, file, Step(B, FileHost(file), s, ops[0]), ops[1..], f);
    }
  }

  /** In every such state a read of at least one byte returns 0 exactly when the
      program has been given the whole file. */
  lemma ZeroIsEnd(B: nat, file: int -> seq<char>, s: System, fd: int, len: int)
    requires B >= 1 && fd >= 0 && FreeIsEmpty(s.state) && Conserved(s, fd) && Reading(file, s, fd)
    ensures var o := Read(B, FileHost(file), s.state, s.host, fd, len);
            && (len > 0 ==> (o.ret == 0 <==> Since(s.program, fd) == file(fd)))
            && (Since(s.program, fd) == file(fd) ==> o.ret == 0 && o.bytes == [])
  {
    var given, content := Since(s.program, fd), file(fd);
    var at := |Since(s.host, fd)|;
    NextExtends(content, at, B);
    NextExtends(content, at, len);
    assert given <= content;
    assert given == content ==> Unread(s.state, fd) == [] && at == |content|;
  }

  /** End of file over whole runs: after any run from the start, a read of at least
      one byte returns 0 exactly when every byte of the file has been delivered. */
  lemma EndOfFile(B: nat, file: int -> seq<char>, ops: seq<Op>, fd: int, len: int)
    requires B >= 1 && ValidOps(ops) && fd >= 0 && len > 0
    ensures var s := Run(B, FileHost(file), START, ops);
            Read(B, FileHost(file), s.state, s.host, fd, len).ret == 0
            <==> Since(s.program, fd) == file(fd)
  {
    RunReads(B, file, START, ops, fd);
    ZeroIsEnd(B, file, Run(B, FileHost(file), START, ops), fd, len);
  }

  predicate Closes(ops: seq<Op>, fd: int) {
    ops != [] && (ops[0] == CloseOp(fd) || Closes(ops[1..], fd))
  }

  /** End of file lasts: once everything is delivered, it stays delivered until the
      descriptor is closed, so by ZeroIsEnd every later read returns 0. */
  lemma {:induction false} EndLasts(B: nat, file: int -> seq<char>, s: System, ops: seq<Op>, fd: int)
    requires B >= 1 && ValidOps(ops) && fd >= 0 && !Closes(ops, fd)
    requires FreeIsEmpty(s.state) && Conserved(s, fd) && Reading(file, s, fd)
    requires Since(s.program, fd) == file(fd)
    ensures Since(Run(B, FileHost(file), s, ops).program, fd) == file(fd)
    decreases |ops|
  {
    if ops == [] {
    } else {
      var op, next := ops[0], Step(B, FileHost(file), s, ops[0]);
      assert op.fd >= 0 && op != CloseOp(fd);
      StepConserves(B, FileHost(file), s, op, fd);
      StepReads(B, file, s, op, fd);
      if op.ReadOp? {
        SinceNext(s.program, Got(op.fd, Read(B, FileHost(file), s.state, s.host, op.fd, op.len).bytes), fd);
        if op.fd == fd { ZeroIsEnd(B, file, s, fd, op.len); }
      } else {
        SinceNext(s.program, Shut(op.fd), fd);
      }
      EndLasts(B, file, next, ops[1..], fd);
    }
  }

  /** The composed law: once a read of at least one byte has returned 0, at the end of
      any run from the start, every read of that descriptor returns 0 after every
      further run that does not close it. */
  lemma ZeroLasts(B: nat, file: int -> seq<char>, before: seq<Op>, fd: int, len: int, after: seq<Op>, more: int)
    requires B >= 1 && ValidOps(before) && ValidOps(after) && fd >= 0 && len > 0 && !Closes(after, fd)
    requires var s := Run(B, FileHost(file), START, before);
             Read(B, FileHost(file), s.state, s.host, fd, len).ret == 0
    ensures var s := Run(B, FileHost(file), START, before);
            var s' := Run(B, FileHost(file), Step(B, FileHost(file), s, ReadOp(fd, len)), after);
            Read(B, FileHost(file), s'.state, s'.host, fd, more).ret == 0
  {
    var s := Run(B, FileHost(file), START, before);
    RunReads(B, file, START, before, fd);
    ZeroIsEnd(B, file, s, fd, len);
    var next := Step(B, FileHost(file), s, ReadOp(fd, len));
    StepConserves(B, FileHost(file), s, ReadOp(fd, len), fd);
    StepReads(B, file, s, ReadOp(fd, len), fd);
    SinceNext(s.program, Got(fd, Read(B, FileHost(file), s.state, s.host, fd, len).bytes), fd);
    EndLasts(B, file, next, after, fd);
    RunReads(B, file, next, after, fd);
    ZeroIsEnd(B, file, Run(B, FileHost(file), next, after), fd, more);
  }

  // ---- Exactly what a read of a file delivers ----

  /** How many bytes of a file are left, and how many of them are at hand for a read. */
  function AtHand(B: nat, s: State, left: nat, fd: int, len: int): nat {
    if Fills(s, fd, len) then (if left < B then left else B)
    else if s.fd == fd then |s.unread|
    else left
  }

  function Least(a: nat, b: nat): nat {
    if a < b then a else b
  }

  /** In every state that a run can reach, a read delivers the next bytes of the file: as
      many as were asked for and are at hand. */
  lemma {:induction false} ReadIsNext(B: nat, file: int -> seq<char>, s: System, fd: int, len: nat)
    requires B >= 1 && fd >= 0 && FreeIsEmpty(s.state) && Conserved(s, fd) && Reading(file, s, fd)
    ensures var given, content := Since(s.program, fd), file(fd);
            var left := |content| - |Since(s.host, fd)|;
            && given <= content && left >= 0
            && var n := Least(len, AtHand(B, s.state, left, fd, len));
               && |given| + n <= |content|
               && Read(B, FileHost(file), s.state, s.host, fd, len).bytes == content[|given|..|given| + n]
  {
    if Fills(s.state, fd, len) {
      FilledIsNext(B, file, s, fd, len);
    } else if s.state.fd == fd {
      WaitingIsNext(B, file, s, fd, len);
    } else {
      DirectIsNext(B, file, s, fd, len);
    }
  }

  lemma WaitingIsNext(B: nat, file: int -> seq<char>, s: System, fd: int, len: nat)
    requires B >= 1 && fd >= 0 && Conserved(s, fd) && Reading(file, s, fd)
    requires !Fills(s.state, fd, len) && s.state.fd == fd
    ensures var given, content := Since(s.program, fd), file(fd);
            var n := Least(len, |s.state.unread|);
            && given <= content && |Since(s.host, fd)| <= |content| && |given| + n <= |content|
            && Read(B, FileHost(file), s.state, s.host, fd, len).bytes == content[|given|..|given| + n]
  {
    ReadCases(B, FileHost(file), s.state, s.host, fd, len);
    Middle(file(fd), Since(s.program, fd), s.state.unread, Least(len, |s.state.unread|));
  }

  lemma DirectIsNext(B: nat, file: int -> seq<char>, s: System, fd: int, len: nat)
    requires B >= 1 && fd >= 0 && Conserved(s, fd) && Reading(file, s, fd)
    requires !Fills(s.state, fd, len) && s.state.fd != fd
    ensures var given, content := Since(s.program, fd), file(fd);
            var n := Least(len, |content| - |given|);
            && given <= content && |given| == |Since(s.host, fd)|
            && Read(B, FileHost(file), s.state, s.host, fd, len).bytes == content[|given|..|given| + n]
  {
    ReadCases(B, FileHost(file), s.state, s.host, fd, len);
    NextSlice(file(fd), |Since(s.host, fd)|, len);
  }

  lemma FilledIsNext(B: nat, file: int -> seq<char>, s: System, fd: int, len: nat)
    requires B >= 1 && fd >= 0 && FreeIsEmpty(s.state) && Conserved(s, fd) && Reading(file, s, fd)
    requires Fills(s.state, fd, len)
    ensures var given, content := Since(s.program, fd), file(fd);
            var left := |content| - |Since(s.host, fd)|;
            && given <= content && |given| == |content| - left >= 0 && left >= 0
            && var n := Least(len, Least(left, B));
               Read(B, FileHost(file), s.state, s.host, fd, len).bytes == content[|given|..|given| + n]
  {
    var content, at := file(fd), |Since(s.host, fd)|;
    ReadCases(B, FileHost(file), s.state, s.host, fd, len);
    assert Unread(s.state, fd) == [] && at <= |content|;
    var part := Next(content, at, B);
    NextSlice(content, at, B);
    assert |part| == Least(B, |content| - at);
    Prefixes(content, at, part, Least(len, |part|));
  }

  lemma NextSlice(content: seq<char>, at: nat, len: nat)
    requires at <= |content|
    ensures var n := Least(len, |content| - at); Next(content, at, len) == content[at..at + n]
  {
  }

  lemma Prefixes(content: seq<char>, at: nat, part: seq<char>, n: nat)
    requires at + |part| <= |content| && part == content[at..at + |part|] && n <= |part|
    ensures part[..n] == content[at..at + n]
  {
  }

  lemma Middle(content: seq<char>, given: seq<char>, unread: seq<char>, n: nat)
    requires given + unread <= content && n <= |unread|
    ensures |given| + n <= |content| && unread[..n] == content[|given|..|given| + n]
  {
    assert forall i | 0 <= i < |unread| :: unread[i] == (given + unread)[|given| + i] == content[|given| + i];
  }

  /** So a first read of no more than a buffer gets as much of the file as there is. */
  lemma FirstRead(B: nat, file: int -> seq<char>, fd: int, len: nat)
    requires B >= 1 && fd >= 0 && 0 < len <= B
    ensures var o := Read(B, FileHost(file), START.state, START.host, fd, len);
            o.bytes == file(fd)[..Least(len, |file(fd)|)] && o.ret == Least(len, |file(fd)|)
  {
    ReadIsNext(B, file, START, fd, len);
    FileContract(file);
    ReadDelivers(B, FileHost(file), START.state, START.host, fd, len);
  }

  lemma FileContract(file: int -> seq<char>)
    ensures Contract(FileHost(file))
  {
    forall h: seq<Event>, fd: int, len: int
      ensures FileHost(file)(h, fd, len).Data?
              ==> |FileHost(file)(h, fd, len).bytes| <= (if len > 0 then len else 0)
    {
      assert FileHost(file)(h, fd, len) == Data(Next(file(fd), |Since(h, fd)|, len));
    }
  }

  // ---- How often the host is asked ----

  /** Every answer of the host but the last one filled the buffer, and the last one did if
      the buffer says so. */
  predicate FullFills(B: nat, s: System) {
    && (forall k | 0 <= k < |s.host| - 1 :: s.host[k].Got? && |s.host[k].bytes| == B)
    && (s.host != [] ==> s.host[|s.host| - 1].Got?)
    && (s.state.full ==> s.host != [] && |s.host[|s.host| - 1].bytes| == B)
  }

  /** A program that reads one descriptor in pieces of any length makes the host read
      whole buffers: only the last answer can be short. */
  lemma {:induction false} HostReadsAreFull(B: nat, host: Host, s: System, ops: seq<Op>, fd: int)
    requires fd >= 0 && forall i | 0 <= i < |ops| :: ops[i].ReadOp? && ops[i].fd == fd && ops[i].len > 0
    requires FullFills(B, s) && (s == START || s.state.fd == fd)
    ensures FullFills(B, Run(B, host, s, ops))
    decreases |ops|
  {
    if ops == [] {
    } else {
      ReadCases(B, host, s.state, s.host, fd, ops[0].len);
      ReadAsks(B, host, s.state, s.host, fd, ops[0].len);
      HostReadsAreFull(B, host, Step(B, host, s, ops[0]), ops[1..], fd);
    }
  }
}
