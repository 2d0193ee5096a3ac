/** Whole runs of one-byte writes and closes: the buffer against a pure splitter
    that looks at the bytes ahead instead of keeping a state. */
module WriteRuns {
  import opened Sequences
  import opened WriteBuffer

  datatype Op = Put(fd: int, c: char) | Close

  function Step(B: nat, s: State, op: Op): (seq<Call>, State) {
    match op
    case Put(fd, c) => PutByte(B, s, fd, c)
    case Close => (Emit(s.fd, s.pending), Flushed(s))
  }

  /** The host calls and the final state of a run. */
  function Run(B: nat, s: State, ops: seq<Op>): (seq<Call>, State)
    decreases |ops|
  {
    if ops == [] then ([], s)
    else
      var (first, s1) := Step(B, s, ops[0]);
      var (more, s2) := Run(B, s1, ops[1..]);
      (first + more, s2)
  }

  // ---- The splitter ----

  datatype Segment = Segment(fd: int, data: seq<char>)

  /** Complete segments, and the bytes that wait for their segment to be complete. */
  datatype Split = Split(cut: seq<Segment>, pending: Segment)

  /** The length of the longest segment for `fd` at the front of `ops`: at most
      `room` bytes, nothing after a newline, nothing for another descriptor. */
  function SegmentLength(room: nat, fd: int, ops: seq<Op>): (n: nat)
    ensures n <= |ops| && n <= room
    ensures forall i | 0 <= i < n :: ops[i].Put? && ops[i].fd == fd
    ensures forall i | 0 <= i < n - 1 :: ops[i].c != NEWLINE
    ensures n < room && n < |ops| && (n == 0 || ops[n - 1].c != NEWLINE) ==> ops[n] == Close || ops[n].fd != fd
  {
    if room == 0 || ops == [] || ops[0].Close? || ops[0].fd != fd then 0
    else if ops[0].c == NEWLINE then 1
    else 1 + SegmentLength(room - 1, fd, ops[1..])
  }

  /** The bytes of the puts in `ops`. */
  function Bytes(ops: seq<Op>): seq<char> {
    if ops == [] then []
    else (if ops[0].Put? then [ops[0].c] else []) + Bytes(ops[1..])
  }

  /** Cuts a run: each segment is as long as can be, and complete as soon as it ends
      in a newline or anything follows it. */
  function Splitter(B: nat, ops: seq<Op>): Split
    requires B >= 1
    decreases |ops|
  {
    if ops == [] then Split([], Segment(-1, []))
    else if ops[0].Close? then Splitter(B, ops[1..])
    else
      var fd, n := ops[0].fd, SegmentLength(B, ops[0].fd, ops);
      var segment := Segment(fd, Bytes(ops[..n]));
      if n == |ops| && ops[n - 1].c != NEWLINE then Split([], segment)
      else
        var more := Splitter(B, ops[n..]);
        Split([segment] + more.cut, more.pending)
  }

  function EmitAll(segments: seq<Segment>): seq<Call> {
    if segments == [] then []
    else Emit(segments[0].fd, segments[0].data) + EmitAll(segments[1..])
  }

  // ---- Refinement ----

  /** The puts that would fill an empty buffer with `data`. */
  function Puts(fd: int, data: seq<char>): (ops: seq<Op>)
    ensures |ops| == |data|
    ensures forall i | 0 <= i < |ops| :: ops[i] == Put(fd, data[i])
  {
    seq(|data|, i requires 0 <= i < |data| => Put(fd, data[i]))
  }

  lemma {:induction false} BytesOfPuts(fd: int, data: seq<char>)
    ensures Bytes(Puts(fd, data)) == data
  {
    if data == [] {
    } else {
      assert Puts(fd, data)[1..] == Puts(fd, data[1..]);
      BytesOfPuts(fd, data[1..]);
    }
  }

  lemma PutsFirst(fd: int, data: seq<char>, ops: seq<Op>)
    requires data != []
    ensures var all := Puts(fd, data) + ops;
            all[0] == Put(fd, data[0]) && all[1..] == Puts(fd, data[1..]) + ops
  {
    var all, tail := Puts(fd, data) + ops, Puts(fd, data[1..]) + ops;
    assert |all[1..]| == |tail|;
    forall i | 0 <= i < |tail| ensures all[1..][i] == tail[i] {}
  }

  /** Waiting bytes are the front of a segment. */
  lemma {:induction false} SegmentGrows(room: nat, fd: int, data: seq<char>, ops: seq<Op>)
    requires NEWLINE !in data && |data| <= room
    ensures SegmentLength(room, fd, Puts(fd, data) + ops)
         == |data| + SegmentLength(room - |data|, fd, ops)
  {
    var all := Puts(fd, data) + ops;
    if data == [] {
      assert all == ops;
    } else {
      PutsFirst(fd, data, ops);
      SegmentGrows(room - 1, fd, data[1..], ops);
    }
  }

  /** What a buffer may hold between two calls. */
  predicate Waiting(B: nat, s: State) {
    |s.pending| <= B && NEWLINE !in s.pending
  }

  lemma StepKeepsWaiting(B: nat, s: State, op: Op)
    requires B >= 2 && Waiting(B, s)
    ensures Waiting(B, Step(B, s, op).1)
  {
  }

  /** Two runs of bytes for one descriptor, one after the other. */
  lemma PutsConcat(fd: int, data: seq<char>, c: char, ops: seq<Op>)
    ensures Puts(fd, data + [c]) + ops == Puts(fd, data) + ([Put(fd, c)] + ops)
  {
  }

  /** The splitter on waiting bytes whose segment cannot grow: they are cut off. */
  lemma CutWaiting(B: nat, fd: int, data: seq<char>, ops: seq<Op>)
    requires data != [] && |data| <= B && NEWLINE !in data && ops != []
    requires |data| == B || ops[0] == Close || ops[0].fd != fd
    ensures var all, more := Splitter(B, Puts(fd, data) + ops), Splitter(B, ops);
            all.cut == [Segment(fd, data)] + more.cut && all.pending == more.pending
  {
    var all := Puts(fd, data) + ops;
    SegmentGrows(B, fd, data, ops);
    BytesOfPuts(fd, data);
    assert all[..|data|] == Puts(fd, data) && all[|data|..] == ops;
  }

  /** A newline completes the segment it ends. */
  lemma CutNewline(B: nat, fd: int, data: seq<char>, ops: seq<Op>)
    requires |data| < B && NEWLINE !in data
    ensures var all := Splitter(B, Puts(fd, data + [NEWLINE]) + ops);
            var more := Splitter(B, ops);
            all.cut == [Segment(fd, data + [NEWLINE])] + more.cut && all.pending == more.pending
  {
    var line := data + [NEWLINE];
    var all := Puts(fd, line) + ops;
    PutsConcat(fd, data, NEWLINE, ops);
    SegmentGrows(B, fd, data, [Put(fd, NEWLINE)] + ops);
    BytesOfPuts(fd, line);
    assert all[..|line|] == Puts(fd, line) && all[|line|..] == ops;
  }

  /** Nothing but waiting bytes: they keep waiting. */
  lemma OnlyWaiting(B: nat, fd: int, data: seq<char>)
    requires data != [] && |data| <= B && NEWLINE !in data
    ensures Splitter(B, Puts(fd, data)) == Split([], Segment(fd, data))
  {
    assert Puts(fd, data) + [] == Puts(fd, data);
    SegmentGrows(B, fd, data, []);
    BytesOfPuts(fd, data);
    assert Puts(fd, data)[..|data|] == Puts(fd, data);
  }

  /** One cut segment in front. */
  lemma EmitCut(g: Segment, more: seq<Segment>)
    ensures EmitAll([g] + more) == Emit(g.fd, g.data) + EmitAll(more)
  {
    assert ([g] + more)[1..] == more;
  }

  /** Splitting the bytes `kept` in the buffer, one more for the same descriptor and
      the rest of a run. */
  lemma PutStep(B: nat, fd: int, kept: seq<char>, c: char, rest: seq<Op>)
    requires B >= 2 && NEWLINE !in kept && |kept| < B
    ensures var all := Splitter(B, Puts(fd, kept) + ([Put(fd, c)] + rest));
            var calls := if c == NEWLINE then Emit(fd, kept + [c]) else [];
            var more := Splitter(B, Puts(fd, if c == NEWLINE then [] else kept + [c]) + rest);
            EmitAll(all.cut) == calls + EmitAll(more.cut) && all.pending == more.pending
  {
    PutsConcat(fd, kept, c, rest);
    if c == NEWLINE {
      CutNewline(B, fd, kept, rest);
      assert Puts(fd, []) + rest == rest;
      EmitCut(Segment(fd, kept + [c]), Splitter(B, rest).cut);
    }
  }

  /** Flushing what waits, when the next operation does not let it grow. */
  lemma {:induction false} FlushStep(B: nat, s: State, ops: seq<Op>)
    requires Waiting(B, s) && B >= 2 && ops != []
    requires s.pending == [] || ops[0] == Close || ops[0].fd != s.fd || |s.pending| == B
    ensures var all, more := Splitter(B, Puts(s.fd, s.pending) + ops), Splitter(B, ops);
            EmitAll(all.cut) == Emit(s.fd, s.pending) + EmitAll(more.cut) && all.pending == more.pending
  {
    if s.pending == [] {
      assert Puts(s.fd, s.pending) + ops == ops;
    } else {
      CutWaiting(B, s.fd, s.pending, ops);
      EmitCut(Segment(s.fd, s.pending), Splitter(B, ops).cut);
    }
  }

  /** One operation is a step of the splitter. */
  predicate StepAgrees(B: nat, s: State, op: Op, rest: seq<Op>)
    requires B >= 1
  {
    var (calls, s1) := Step(B, s, op);
    var all := Splitter(B, Puts(s.fd, s.pending) + ([op] + rest));
    var more := Splitter(B, Puts(s1.fd, s1.pending) + rest);
    EmitAll(all.cut) == calls + EmitAll(more.cut) && all.pending == more.pending
  }

  lemma CloseAgrees(B: nat, s: State, rest: seq<Op>)
    requires B >= 2 && Waiting(B, s)
    ensures StepAgrees(B, s, Close, rest)
  {
    FlushStep(B, s, [Close] + rest);
    assert ([Close] + rest)[1..] == rest && Puts(Flushed(s).fd, []) + rest == rest;
  }

  lemma FreshPut(B: nat, fd: int, c: char, rest: seq<Op>)
    requires B >= 2
    ensures var all := Splitter(B, [Put(fd, c)] + rest);
            var more := Splitter(B, Puts(fd, if c == NEWLINE then [] else [c]) + rest);
            EmitAll(all.cut) == (if c == NEWLINE then Emit(fd, [c]) else []) + EmitAll(more.cut)
            && all.pending == more.pending
  {
    var ops := [Put(fd, c)] + rest;
    assert Puts(fd, []) + ops == ops && [] + [c] == [c];
    PutStep(B, fd, [], c, rest);
  }

  lemma FullPutAgrees(B: nat, s: State, fd: int, c: char, rest: seq<Op>)
    requires B >= 2 && Waiting(B, s) && (fd != s.fd || |s.pending| == B)
    ensures StepAgrees(B, s, Put(fd, c), rest)
  {
    var kept := if c == NEWLINE then [] else [c];
    assert [] + [c] == [c];
    assert Step(B, s, Put(fd, c)).1 == State(fd, kept);
    FlushStep(B, s, [Put(fd, c)] + rest);
    FreshPut(B, fd, c, rest);
    var before, now := Emit(s.fd, s.pending), if c == NEWLINE then Emit(fd, [c]) else [];
    Associative(before, now, EmitAll(Splitter(B, Puts(fd, kept) + rest).cut));
    assert before + [] == before;
  }

  lemma GrowingPutAgrees(B: nat, s: State, c: char, rest: seq<Op>)
    requires B >= 2 && Waiting(B, s) && |s.pending| < B
    ensures StepAgrees(B, s, Put(s.fd, c), rest)
  {
    PutStep(B, s.fd, s.pending, c, rest);
  }

  lemma StepIsSplit(B: nat, s: State, op: Op, rest: seq<Op>)
    requires B >= 2 && Waiting(B, s)
    ensures StepAgrees(B, s, op, rest)
  {
    if op == Close { CloseAgrees(B, s, rest); }
    else if op.fd != s.fd || |s.pending| == B { FullPutAgrees(B, s, op.fd, op.c, rest); }
    else { GrowingPutAgrees(B, s, op.c, rest); }
  }

  /** Refinement: over every run, from every waiting state, the host writes are the
      complete segments of the bytes, waiting ones included, and what is left in the
      buffer is the pending segment. */
  lemma {:induction false} RunIsSplit(B: nat, s: State, ops: seq<Op>)
    requires B >= 2 && Waiting(B, s)
    ensures var (calls, end) := Run(B, s, ops);
            var sp := Splitter(B, Puts(s.fd, s.pending) + ops);
            && calls == EmitAll(sp.cut)
            && end.pending == sp.pending.data
            && (end.pending != [] ==> end.fd == sp.pending.fd)
            && Waiting(B, end)
    decreases |ops|
  {
    if ops == [] {
      assert Puts(s.fd, s.pending) + ops == Puts(s.fd, s.pending);
      if s.pending != [] { OnlyWaiting(B, s.fd, s.pending); }
    } else {
      StepKeepsWaiting(B, s, ops[0]);
      StepIsSplit(B, s, ops[0], ops[1..]);
      assert ops == [ops[0]] + ops[1..];
      RunIsSplit(B, Step(B, s, ops[0]).1, ops[1..]);
    }
  }

  // ---- What the splitter does to the bytes ----

  /** Bytes with the descriptor they are for. */
  function Tagged(fd: int, data: seq<char>): seq<(int, char)> {
    if data == [] then [] else [(fd, data[0])] + Tagged(fd, data[1..])
  }

  function Written(ops: seq<Op>): seq<(int, char)> {
    if ops == [] then []
    else (if ops[0].Put? then [(ops[0].fd, ops[0].c)] else []) + Written(ops[1..])
  }

  function Contained(segments: seq<Segment>): seq<(int, char)> {
    if segments == [] then []
    else Tagged(segments[0].fd, segments[0].data) + Contained(segments[1..])
  }

  /** What arrived at the host, in order. */
  function Sent(calls: seq<Call>): seq<(int, char)> {
    if calls == [] then [] else Tagged(calls[0].fd, calls[0].data) + Sent(calls[1..])
  }

  lemma {:induction false} WrittenFront(ops: seq<Op>, n: nat, fd: int)
    requires n <= |ops| && forall i | 0 <= i < n :: ops[i].Put? && ops[i].fd == fd
    ensures Written(ops) == Tagged(fd, Bytes(ops[..n])) + Written(ops[n..])
  {
    if n == 0 {
      assert ops[..0] == [] && ops[0..] == ops;
    } else {
      WrittenFront(ops[1..], n - 1, fd);
      assert ops[..n][1..] == ops[1..][..n - 1] && ops[1..][n - 1..] == ops[n..];
      assert Bytes(ops[..n])[1..] == Bytes(ops[..n][1..]);
    }
  }

  /** The splitter neither drops, repeats, reorders nor redirects a byte. */
  lemma {:induction false} SplitterConserves(B: nat, ops: seq<Op>)
    requires B >= 1
    ensures var sp := Splitter(B, ops);
            Contained(sp.cut) + Tagged(sp.pending.fd, sp.pending.data) == Written(ops)
    decreases |ops|
  {
    if ops == [] {
    } else if ops[0].Close? {
      SplitterConserves(B, ops[1..]);
    } else {
      var fd, n := ops[0].fd, SegmentLength(B, ops[0].fd, ops);
      WrittenFront(ops, n, fd);
      if n == |ops| && ops[n - 1].c != NEWLINE {
        assert ops[n..] == [];
      } else {
        SplitterConserves(B, ops[n..]);
        var more := Splitter(B, ops[n..]);
        assert ([Segment(fd, Bytes(ops[..n]))] + more.cut)[1..] == more.cut;
      }
    }
  }

  predicate IsLine(B: nat, data: seq<char>) {
    1 <= |data| <= B && NEWLINE !in data[..|data| - 1]
  }

  lemma {:induction false} BytesLength(ops: seq<Op>)
    requires forall i | 0 <= i < |ops| :: ops[i].Put?
    ensures |Bytes(ops)| == |ops| && forall i | 0 <= i < |ops| :: Bytes(ops)[i] == ops[i].c
  {
    if ops == [] {
    } else {
      BytesLength(ops[1..]);
      forall i | 0 <= i < |ops| ensures Bytes(ops)[i] == ops[i].c {
        if i > 0 { assert Bytes(ops)[i] == Bytes(ops[1..])[i - 1]; }
      }
    }
  }

  /** Every segment has 1 to B bytes and at most one newline, its last byte; what is
      pending has none. */
  lemma {:induction false} SplitterShape(B: nat, ops: seq<Op>)
    requires B >= 1
    ensures var sp := Splitter(B, ops);
            && (forall g | g in sp.cut :: IsLine(B, g.data))
            && |sp.pending.data| <= B && NEWLINE !in sp.pending.data
    decreases |ops|
  {
    if ops == [] {
    } else if ops[0].Close? {
      SplitterShape(B, ops[1..]);
    } else {
      var n := SegmentLength(B, ops[0].fd, ops);
      BytesLength(ops[..n]);
      if !(n == |ops| && ops[n - 1].c != NEWLINE) { SplitterShape(B, ops[n..]); }
    }
  }

  // ---- When nothing is lost or doubled on the way to the host ----

  function Newlines(bytes: seq<(int, char)>): nat {
    if bytes == [] then 0
    else (if bytes[0].1 == NEWLINE then 1 else 0) + Newlines(bytes[1..])
  }

  lemma {:induction false} NewlinesConcat(a: seq<(int, char)>, b: seq<(int, char)>)
    ensures Newlines(a + b) == Newlines(a) + Newlines(b)
  {
    if a == [] {
      assert a + b == b;
    } else {
      assert (a + b)[1..] == a[1..] + b;
      NewlinesConcat(a[1..], b);
    }
  }

  lemma {:induction false} SentConcat(a: seq<Call>, b: seq<Call>)
    ensures Sent(a + b) == Sent(a) + Sent(b)
  {
    if a == [] {
      assert a + b == b;
    } else {
      assert (a + b)[1..] == a[1..] + b;
      SentConcat(a[1..], b);
    }
  }

  /** Segments of one byte: newlines are doubled, the others are lost. */
  function Lone(segments: seq<Segment>, newline: bool): nat {
    if segments == [] then 0
    else
      (if |segments[0].data| == 1 && (segments[0].data[0] == NEWLINE) == newline then 1 else 0)
      + Lone(segments[1..], newline)
  }

  lemma EmitTagged(g: Segment)
    requires g.data != []
    ensures var sent, held := Sent(Emit(g.fd, g.data)), Tagged(g.fd, g.data);
            && (|g.data| > 1 ==> sent == held)
            && |sent| == |held| + Lone([g], true) - Lone([g], false)
            && Newlines(sent) == Newlines(held) + Lone([g], true)
  {
    if |g.data| > 1 {
      assert Emit(g.fd, g.data)[1..] == [];
    } else {
      var c := g.data[0];
      assert g.data == [c] && Tagged(g.fd, g.data) == [(g.fd, c)];
      if c == NEWLINE {
        var two := [NEWLINE, NEWLINE];
        assert two[1..] == [NEWLINE];
        assert Sent([Call(g.fd, two)]) == Tagged(g.fd, two) + [];
        assert Tagged(g.fd, two) == [(g.fd, NEWLINE), (g.fd, NEWLINE)];
        assert [(g.fd, NEWLINE), (g.fd, NEWLINE)][1..] == [(g.fd, NEWLINE)];
      }
    }
  }

  /** Each lone newline adds one byte and one newline, each other lone byte is one
      byte less; without lone segments every byte arrives. */
  lemma {:induction false} EmitAllTagged(segments: seq<Segment>)
    requires forall g | g in segments :: g.data != []
    ensures var sent, held := Sent(EmitAll(segments)), Contained(segments);
            && (Lone(segments, true) + Lone(segments, false) == 0 ==> sent == held)
            && |sent| == |held| + Lone(segments, true) - Lone(segments, false)
            && Newlines(sent) == Newlines(held) + Lone(segments, true)
  {
    if segments == [] {
    } else {
      var g, more := segments[0], segments[1..];
      EmitTagged(g);
      EmitAllTagged(more);
      SentConcat(Emit(g.fd, g.data), EmitAll(more));
      NewlinesConcat(Sent(Emit(g.fd, g.data)), Sent(EmitAll(more)));
      NewlinesConcat(Tagged(g.fd, g.data), Contained(more));
      assert Lone([g], true) + Lone(more, true) == Lone(segments, true);
      assert Lone([g], false) + Lone(more, false) == Lone(segments, false);
    }
  }

  lemma {:induction false} NoneLone(segments: seq<Segment>)
    ensures Lone(segments, true) + Lone(segments, false) == 0
       <==> forall g | g in segments :: |g.data| != 1
  {
    if segments == [] {
    } else {
      NoneLone(segments[1..]);
    }
  }

  /** The exact conservation law of a run from the start: what arrived at the host
      and what is still pending are together the bytes written, in order and each for
      its own descriptor, if and only if no segment of exactly one byte was cut. */
  lemma RunConserves(B: nat, ops: seq<Op>)
    requires B >= 2
    ensures var (calls, end) := Run(B, CLEARED, ops);
            Sent(calls) + Tagged(end.fd, end.pending) == Written(ops)
            <==> forall g | g in Splitter(B, ops).cut :: |g.data| != 1
  {
    var (calls, end) := Run(B, CLEARED, ops);
    var sp := Splitter(B, ops);
    assert Puts(CLEARED.fd, CLEARED.pending) + ops == ops;
    RunIsSplit(B, CLEARED, ops);
    SplitterConserves(B, ops);
    SplitterShape(B, ops);
    EmitAllTagged(sp.cut);
    NoneLone(sp.cut);
    var pending := Tagged(sp.pending.fd, sp.pending.data);
    assert Tagged(end.fd, end.pending) == pending;
    NewlinesConcat(Sent(calls), pending);
    NewlinesConcat(Contained(sp.cut), pending);
  }

  // ---- The host calls one by one ----

  /** The segments without the lone bytes that are lost. */
  function Kept(segments: seq<Segment>): seq<Segment> {
    if segments == [] then []
    else
      (if |segments[0].data| == 1 && segments[0].data[0] != NEWLINE then [] else [segments[0]])
      + Kept(segments[1..])
  }

  /** A call for a segment: to its descriptor, with its bytes, a lone newline twice. */
  predicate IsCallFor(c: Call, g: Segment) {
    c.fd == g.fd && c.data == if |g.data| == 1 then g.data + g.data else g.data
  }

  lemma {:induction false} CallsOfSegments(segments: seq<Segment>)
    requires forall g | g in segments :: g.data != []
    ensures var calls := EmitAll(segments);
            && |calls| == |Kept(segments)|
            && forall k | 0 <= k < |calls| :: IsCallFor(calls[k], Kept(segments)[k])
  {
    if segments == [] {
    } else {
      var g, more := segments[0], segments[1..];
      CallsOfSegments(more);
      var first := Emit(g.fd, g.data);
      if |g.data| == 1 {
        assert g.data == [g.data[0]];
        assert g.data[0] == NEWLINE ==> g.data + g.data == [NEWLINE, NEWLINE];
      }
      assert EmitAll(segments) == first + EmitAll(more);
    }
  }

  /** Every host call of a run from the start belongs to a segment of the splitter, goes to
      the descriptor the segment was written to, and carries its bytes; a lone newline is
      doubled, any other lone byte has no call. */
  lemma {:induction false} RunCalls(B: nat, ops: seq<Op>)
    requires B >= 2
    ensures var calls, kept := Run(B, CLEARED, ops).0, Kept(Splitter(B, ops).cut);
            && |calls| == |kept|
            && forall k | 0 <= k < |calls| :: IsCallFor(calls[k], kept[k])
  {
    assert Puts(CLEARED.fd, CLEARED.pending) + ops == ops;
    RunIsSplit(B, CLEARED, ops);
    SplitterShape(B, ops);
    CallsOfSegments(Splitter(B, ops).cut);
  }

  /** The bytes a descriptor gets. */
  function BytesFor(d: int, calls: seq<Call>): seq<char> {
    if calls == [] then []
    else (if calls[0].fd == d then calls[0].data else []) + BytesFor(d, calls[1..])
  }

  /** The bytes of the segments of a descriptor, under the one-byte rule. */
  function Arriving(d: int, segments: seq<Segment>): seq<char> {
    if segments == [] then []
    else
      var data := segments[0].data;
      (if segments[0].fd != d then []
       else if data == [NEWLINE] then [NEWLINE, NEWLINE]
       else if |data| == 1 then [] else data)
      + Arriving(d, segments[1..])
  }

  lemma {:induction false} ArrivingIsSent(d: int, segments: seq<Segment>)
    requires forall g | g in segments :: g.data != []
    ensures BytesFor(d, EmitAll(segments)) == Arriving(d, segments)
  {
    if segments == [] {
    } else {
      var g, more := segments[0], segments[1..];
      ArrivingIsSent(d, more);
      var first := Emit(g.fd, g.data);
      if first == [] {
        assert EmitAll(segments) == EmitAll(more);
      } else {
        assert |first| == 1 && EmitAll(segments) == first + EmitAll(more);
        assert (first + EmitAll(more))[1..] == EmitAll(more);
      }
      if |g.data| == 1 { assert g.data == [g.data[0]]; }
    }
  }

  /** Descriptor by descriptor: what the host gets for it are the bytes written to it in
      complete segments, each lone newline doubled and every other lone byte left out. */
  lemma RunByDescriptor(B: nat, ops: seq<Op>, d: int)
    requires B >= 2
    ensures BytesFor(d, Run(B, CLEARED, ops).0) == Arriving(d, Splitter(B, ops).cut)
  {
    assert Puts(CLEARED.fd, CLEARED.pending) + ops == ops;
    RunIsSplit(B, CLEARED, ops);
    SplitterShape(B, ops);
    ArrivingIsSent(d, Splitter(B, ops).cut);
  }
}
