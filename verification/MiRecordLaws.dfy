/** What stream and asynchronous records parse to, and what holds across lines and
    between the entry points. */
module MiRecordLaws {
  import opened Text
  import opened CStrings
  import opened MiValues
  import opened MiParser
  import opened MiRoundTrip
  import opened MiSoundness
  import opened MiExact
  import opened MiRecords
  import opened Numbers

  // ---- Stream records ----

  /** A printed stream record is read back as its content exactly when the content
      is Escapable, whatever follows: the record rule does not reach for the end. */
  lemma StreamExact(c: char, s: string, rest: string)
    requires c in {'~', '@', '&'}
    ensures var r := ParseStream([c] + PrintString(s) + rest);
            (r.Some? && r.value.content == s <==> Escapable(s))
            && (r.Some? ==> r.value.kind
                            == (if c == '~' then Console else if c == '@' then Target else Log))
  {
    var line := [c] + PrintString(s) + rest;
    assert line[1..] == PrintString(s) + rest;
    EscapeLaw(s, rest);
  }

  /** Exactly which lines are stream records: a sign, a printed string that does not end in
      a backslash, and anything behind it; the content is that string, collapsed. */
  lemma StreamRead(c: char, s: string, rest: string)
    requires c in {'~', '@', '&'} && !EndsInBackslash(s)
    ensures ParseStream([c] + PrintString(s) + rest)
         == Some(StreamRecord(if c == '~' then Console else if c == '@' then Target else Log, Collapse(s)))
  {
    assert ([c] + PrintString(s) + rest)[1..] == PrintString(s) + rest;
    StopsAtQuote(s, rest);
  }

  lemma StreamSound(line: string) returns (c: char, s: string, rest: string)
    requires ParseStream(line).Some?
    ensures c in {'~', '@', '&'} && !EndsInBackslash(s) && line == [c] + PrintString(s) + rest
  {
    var t := line[1..];
    c := line[0];
    s := CStringAccepts(t);
    rest := CString(t).rest;
    SignText(c, PrintString(s), rest);
    assert line == [c] + t;
  }

  lemma SignText(c: char, text: string, rest: string)
    ensures [c] + (text + rest) == [c] + text + rest
  {
  }

  /** The end marker is recognised by its five characters, whatever follows, and by nothing
      else. */
  lemma GdbEndExact(line: string)
    ensures IsGdbEnd(line) <==> exists rest :: line == "(gdb)" + rest
  {
    if IsGdbEnd(line) { assert line == "(gdb)" + line[5..]; }
    forall rest | line == "(gdb)" + rest ensures IsGdbEnd(line) { assert line[..5] == "(gdb)"; }
  }

  // ---- Asynchronous records ----

  predicate ProperClass(className: string) {
    className != "" && forall i | 0 <= i < |className| :: IsClassChar(className[i])
  }

  lemma {:induction false} ClassEnds(className: string, tail: string)
    requires forall i | 0 <= i < |className| :: IsClassChar(className[i])
    requires tail == "" || !IsClassChar(tail[0])
    ensures ClassLength(className + tail) == |className|
  {
    var t := className + tail;
    if className == "" {
      assert t == tail;
    } else {
      assert t[0] == className[0] && t[1..] == className[1..] + tail;
      ClassEnds(className[1..], tail);
    }
  }

  lemma MoreResultsStart(rs: seq<Result>, end: string)
    requires AtEnd(end)
    ensures var t := PrintMoreResults(rs) + end; t == "" || t[0] in {',', '\r'}
  {
  }

  /** `async_output_rule` once its class is known. */
  lemma AsyncRuleAt(t: string, className: string, tail: string, last: string)
    requires |t| > 0 && t[0] in {'*', '+', '='} && t[1..] == className + tail
    requires ProperClass(className) && (tail == "" || !IsClassChar(tail[0]))
    ensures var rs := ParseMoreResults(tail, last);
            AsyncRule(t, last)
            == if AtEnd(rs.rest) then Some(AsyncOutput(if t[0] == '*' then Exec else Status, className, rs.out))
               else None
  {
    ClassEnds(className, tail);
    assert t[1..1 + |className|] == t[1..][..|className|] == className;
    assert t[1 + |className|..] == t[1..][|className|..] == tail;
  }

  lemma AsyncRuleRead(kind: char, className: string, rs: seq<Result>, end: string, last: string)
    requires kind in {'*', '+', '='} && ProperClass(className) && RobustResults(rs) && AtEnd(end)
    ensures AsyncRule([kind] + (className + (PrintMoreResults(rs) + end)), last)
         == Some(AsyncOutput(if kind == '*' then Exec else Status, className, rs))
  {
    var tail := PrintMoreResults(rs) + end;
    var t := [kind] + (className + tail);
    assert t[0] == kind && t[1..] == className + tail;
    MoreResultsStart(rs, end);
    AsyncRuleAt(t, className, tail, last);
    RobustMoreResults(rs, end, last);
  }

  /** Every asynchronous record of robust results is read back as it is; the two
      prefixes '+' and '=' both become status. */
  lemma {:induction false} AsyncRoundTrip(tk: string, kind: char, className: string, rs: seq<Result>, end: string,
        last: string)
    requires AllDigits(tk, 10) && Number(tk, 10) <= MAX_U64
    requires kind in {'*', '+', '='} && ProperClass(className) && RobustResults(rs) && AtEnd(end)
    ensures ParseAsync(tk + ([kind] + (className + (PrintMoreResults(rs) + end))), last)
         == Accepted((if tk == "" then None else Some(Number(tk, 10)),
                      AsyncOutput(if kind == '*' then Exec else Status, className, rs)))
  {
    AsyncRuleRead(kind, className, rs, end, last);
    TokenOf(tk, [kind] + (className + (PrintMoreResults(rs) + end)));
  }

  /** The exact law: an asynchronous record is read back as it is if and only if its
      results are safe in front of its end. */
  lemma {:induction false} AsyncExact(tk: string, kind: char, className: string, rs: seq<Result>, end: string,
        last: string)
    requires AllDigits(tk, 10) && Number(tk, 10) <= MAX_U64
    requires kind in {'*', '+', '='} && ProperClass(className) && AtEnd(end)
    ensures ParseAsync(tk + ([kind] + (className + (PrintMoreResults(rs) + end))), last)
            == Accepted((if tk == "" then None else Some(Number(tk, 10)),
                         AsyncOutput(if kind == '*' then Exec else Status, className, rs)))
       <==> SafeResults(rs, end)
  {
    var tail := PrintMoreResults(rs) + end;
    var t := [kind] + (className + tail);
    assert t[0] == kind && t[1..] == className + tail;
    MoreResultsStart(rs, end);
    AsyncRuleAt(t, className, tail, last);
    ExactMoreResults(rs, end, last);
    TokenOf(tk, t);
  }

  lemma TokenOf(tk: string, body: string)
    requires AllDigits(tk, 10) && Number(tk, 10) <= MAX_U64
    requires body == "" || !IsDigit(body[0], 10)
    ensures Token(tk + body) == Accepted(if tk == "" then None else Some(Number(tk, 10)))
    ensures AfterToken(tk + body) == body
  {
    DigitsEnd(tk, body, 10);
    assert (tk + body)[..|tk|] == tk && (tk + body)[|tk|..] == body;
  }

  /** The text in front of a suffix that has been taken. */
  lemma Taken(t: string, rest: string) returns (taken: string)
    requires IsSuffix(rest, t)
    ensures t == taken + rest
  {
    taken := t[..|t| - |rest|];
  }

  lemma MoreResultsTaken(u: string, last: string) returns (ws: seq<Result>)
    requires AtEnd(ParseMoreResults(u, last).rest)
    ensures var m := ParseMoreResults(u, last);
            u == PrintMoreResults(ws) + m.rest && WellFormedResults(ws) && m.out == CollapsedResults(ws)
  {
    MoreResultsSuffix(u, last);
    var taken := Taken(u, ParseMoreResults(u, last).rest);
    ws := SoundMoreResults(u, last, taken);
  }

  /** Soundness, for every accepted text: an asynchronous record is its kind, its class
      and the text of well-formed results, and what is returned are these results with
      collapsed strings; no failed attempt left an element. */
  lemma AsyncSound(t: string, last: string) returns (ws: seq<Result>, end: string)
    requires AsyncRule(t, last).Some?
    ensures var r := AsyncRule(t, last).value;
            && AtEnd(end) && t == [t[0]] + (r.className + (PrintMoreResults(ws) + end))
            && t[0] in {'*', '+', '='} && r.kind == (if t[0] == '*' then Exec else Status)
            && ProperClass(r.className) && WellFormedResults(ws) && r.results == CollapsedResults(ws)
  {
    var className, u := ClassAndRest(t);
    AsyncRuleAt(t, className, u, last);
    end := ParseMoreResults(u, last).rest;
    ws := MoreResultsTaken(u, last);
  }

  lemma ClassAndRest(t: string) returns (className: string, u: string)
    requires |t| > 0 && ClassLength(t[1..]) > 0
    ensures t[1..] == className + u && t == [t[0]] + (className + u)
    ensures ProperClass(className) && (u == "" || !IsClassChar(u[0]))
  {
    var v := t[1..];
    var n := ClassLength(v);
    className, u := v[..n], v[n..];
    assert v == className + u && t == [t[0]] + v;
  }

  // ---- Across lines and between the entry points ----

  lemma AsyncIgnoresLast(t: string, last: string, last': string)
    ensures AsyncRule(t, last) == AsyncRule(t, last')
  {
    if t != "" {
      var u := t[1 + ClassLength(t[1..])..];
      MoreResultsIgnoreLast(u, last, last');
      assert ParseMoreResults(u, last).out == ParseMoreResults(u, last').out;
    }
  }

  lemma RecordIgnoresLast(t: string, last: string, last': string)
    ensures RecordRule(t, last) == RecordRule(t, last')
  {
    if Opens(t, '^') && ParseClass(t[1..]).Some? {
      var u := t[1 + |ClassText(ParseClass(t[1..]).value)|..];
      if Opens(u, ',') { ResultIgnoresLast(u[1..], last, last'); }
      assert ParseRecordResults(u, last).out == ParseRecordResults(u, last').out;
      assert ParseRecordResults(u, last).rest == ParseRecordResults(u, last').rest;
    }
  }

  /** What earlier lines left in the thread-local name has no effect on a line. */
  lemma LinesAreIndependent(line: string, last: string, last': string)
    ensures ParseRecord(line, last) == ParseRecord(line, last')
    ensures ParseAsync(line, last) == ParseAsync(line, last')
  {
    AsyncIgnoresLast(AfterToken(line), last, last');
    RecordIgnoresLast(AfterToken(line), last, last');
  }

  /** Expecting a token accepts exactly what the open parse accepts with that token,
      and both throw on the same lines that do have a token. */
  lemma ExpectIsOpen(token: nat, line: string, last: string)
    ensures forall r :: ExpectAsync(token, line, last) == Accepted(r)
                   <==> ParseAsync(line, last) == Accepted((Some(token), r))
    ensures forall r :: ExpectRecord(token, line, last) == Accepted(r)
                   <==> ParseRecord(line, last) == Accepted((Some(token), r))
    ensures ExpectAsync(token, line, last).TokenTooLarge? <==> ParseAsync(line, last).TokenTooLarge?
    ensures ExpectRecord(token, line, last).TokenTooLarge? <==> ParseRecord(line, last).TokenTooLarge?
  {
  }

  /** The character behind the token, or the first one, tells the recognisers apart. */
  lemma FirstCharacter(line: string, last: string)
    ensures ParseStream(line).Some? ==> line != "" && line[0] in {'~', '@', '&'} && AfterToken(line) == line
    ensures ParseAsync(line, last).Accepted? ==> AfterToken(line) != "" && AfterToken(line)[0] in {'*', '+', '='}
    ensures ParseRecord(line, last).Accepted? ==> Opens(AfterToken(line), '^')
    ensures IsGdbEnd(line) ==> line != "" && line[0] == '(' && AfterToken(line) == line
  {
    assert line != "" && !IsDigit(line[0], 10) ==> AfterToken(line) == line;
    if IsGdbEnd(line) { assert line[0] == line[..5][0] == '('; }
  }

  /** At most one of the four recognisers accepts a line. */
  lemma OneRecogniser(line: string, last: string)
    ensures var stream, async := ParseStream(line).Some?, ParseAsync(line, last).Accepted?;
            var record, end := ParseRecord(line, last).Accepted?, IsGdbEnd(line);
            && !(stream && (async || record || end))
            && !(async && (record || end))
            && !(record && end)
  {
    FirstCharacter(line, last);
  }
}
