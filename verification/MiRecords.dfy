/** Whole lines of GDB/MI output: stream, asynchronous and result records with
    their tokens, and the end marker. */
module MiRecords {
  import opened Text
  import opened CStrings
  import opened MiValues
  import opened MiParser
  import opened Numbers

  /** `TokenTooLarge` stands for the parser_error that my_stoull throws. */
  datatype Outcome<+T> = Accepted(value: T) | Rejected | TokenTooLarge

  datatype StreamKind = Console | Target | Log
  datatype StreamRecord = StreamRecord(kind: StreamKind, content: string)

  datatype AsyncKind = Exec | Status | Notify
  datatype AsyncOutput = AsyncOutput(kind: AsyncKind, className: string, results: seq<Result>)

  datatype ResultClass = Done | Running | Connected | Error | Exit
  datatype ResultOutput = ResultOutput(resultClass: ResultClass, results: seq<Result>)

  // ---- Tokens ----

  /** The leading token of a line, if any. */
  function Token(line: string): Outcome<Option<nat>> {
    var n := DigitsLength(line, 10);
    if n == 0 then Accepted(None)
    else if Number(line[..n], 10) > MAX_U64 then TokenTooLarge
    else Accepted(Some(Number(line[..n], 10)))
  }

  function AfterToken(line: string): string {
    line[DigitsLength(line, 10)..]
  }

  // ---- Stream records and the end marker ----

  /** `stream_output`; `opt<one<'\r'>, eof>` lets any text follow. */
  function ParseStream(line: string): Option<StreamRecord> {
    if line == "" || line[0] !in {'~', '@', '&'} then None
    else
      var c := CString(line[1..]);
      var kind := if line[0] == '~' then Console else if line[0] == '@' then Target else Log;
      if c.ok then Some(StreamRecord(kind, c.text)) else None
  }

  predicate IsGdbEnd(line: string) {
    StartsWith(line, "(gdb)")
  }

  // ---- Asynchronous records ----

  predicate IsClassChar(c: char) {
    'A' <= c <= 'Z' || 'a' <= c <= 'z' || '0' <= c <= '9' || c == '-'
  }

  function ClassLength(t: string): (n: nat)
    ensures n <= |t| && (forall i | 0 <= i < n :: IsClassChar(t[i]))
    ensures n < |t| ==> !IsClassChar(t[n])
  {
    if t != "" && IsClassChar(t[0]) then 1 + ClassLength(t[1..]) else 0
  }

  /** `opt<one<'\r'>>, eof`. */
  predicate AtEnd(t: string) {
    t == "" || t == "\r"
  }

  /** `async_output_rule`; '+' and '=' are both stored as status. */
  function AsyncRule(t: string, last: string): Option<AsyncOutput> {
    if t == "" || t[0] !in {'*', '+', '='} then None
    else
      var n := ClassLength(t[1..]);
      if n == 0 then None
      else
        var rs := ParseMoreResults(t[1 + n..], last);
        if AtEnd(rs.rest)
        then Some(AsyncOutput(if t[0] == '*' then Exec else Status, t[1..1 + n], rs.out))
        else None
  }

  // ---- Result records ----

  function ClassText(c: ResultClass): string {
    match c
    case Done => "done"
    case Running => "running"
    case Connected => "connected"
    case Error => "error"
    case Exit => "exit"
  }

  function ParseClass(t: string): Option<ResultClass> {
    if StartsWith(t, "done") then Some(Done)
    else if StartsWith(t, "running") then Some(Running)
    else if StartsWith(t, "connected") then Some(Connected)
    else if StartsWith(t, "error") then Some(Error)
    else if StartsWith(t, "exit") then Some(Exit)
    else None
  }

  /** `star<one<','>, push_back<anonym_result_rule>>`: the inherited name is stored
      before the value is tried, and a failed try leaves its element behind. */
  function ParseFollowUps(t: string, last: string): (m: Match<seq<Result>>)
    ensures m.ok && |m.rest| <= |t|
    decreases |t|
  {
    if !Opens(t, ',') then Match(true, [], t, last)
    else
      var v := ParseValue(t[1..], last);
      if !v.ok then Match(true, [Result(last, v.out)], t, v.last)
      else
        var more := ParseFollowUps(v.rest, v.last);
        Match(true, [Result(last, v.out)] + more.out, more.rest, more.last)
  }

  /** The outer repetition of `result_record_rule`. */
  function ParseRecordResults(t: string, last: string): (m: Match<seq<Result>>)
    ensures m.ok && |m.rest| <= |t|
    decreases |t|
  {
    if !Opens(t, ',') then Match(true, [], t, last)
    else
      var r := ParseResult(t[1..], last);
      if !r.ok then Match(true, [r.out], t, r.last)
      else
        var f := ParseFollowUps(r.rest, r.last);
        var more := ParseRecordResults(f.rest, f.last);
        Match(true, [r.out] + f.out + more.out, more.rest, more.last)
  }

  /** `result_record_rule`. */
  function RecordRule(t: string, last: string): Option<ResultOutput> {
    if !Opens(t, '^') || ParseClass(t[1..]).None? then None
    else
      var c := ParseClass(t[1..]).value;
      var rs := ParseRecordResults(t[1 + |ClassText(c)|..], last);
      if AtEnd(rs.rest) then Some(ResultOutput(c, rs.out)) else None
  }

  // ---- The four entry points; `last` is what earlier lines left behind ----

  /** With the token optional, and returned. */
  function ParseAsync(line: string, last: string): Outcome<(Option<nat>, AsyncOutput)> {
    match Token(line)
    case TokenTooLarge => TokenTooLarge
    case Rejected => Rejected
    case Accepted(tk) =>
      var r := AsyncRule(AfterToken(line), last);
      if r.Some? then Accepted((tk, r.value)) else Rejected
  }

  function ParseRecord(line: string, last: string): Outcome<(Option<nat>, ResultOutput)> {
    match Token(line)
    case TokenTooLarge => TokenTooLarge
    case Rejected => Rejected
    case Accepted(tk) =>
      var r := RecordRule(AfterToken(line), last);
      if r.Some? then Accepted((tk, r.value)) else Rejected
  }

  /** With a token expected: digits are mandatory and compared by value. */
  function ExpectAsync(token: nat, line: string, last: string): Outcome<AsyncOutput> {
    var n := DigitsLength(line, 10);
    if n == 0 then Rejected
    else if Number(line[..n], 10) > MAX_U64 then TokenTooLarge
    else if Number(line[..n], 10) != token then Rejected
    else
      var r := AsyncRule(line[n..], last);
      if r.Some? then Accepted(r.value) else Rejected
  }

  function ExpectRecord(token: nat, line: string, last: string): Outcome<ResultOutput> {
    var n := DigitsLength(line, 10);
    if n == 0 then Rejected
    else if Number(line[..n], 10) > MAX_U64 then TokenTooLarge
    else if Number(line[..n], 10) != token then Rejected
    else
      var r := RecordRule(line[n..], last);
      if r.Some? then Accepted(r.value) else Rejected
  }
}
