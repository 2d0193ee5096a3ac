/** From the lines GDB writes to what the stop loop does. */
module StopLines {
  import opened Text
  import opened CStrings
  import opened MiValues
  import opened MiRecords
  import opened MiRecordLaws
  import opened MiLookup
  import opened MiReplies
  import opened Numbers
  import opened StopLoop
  import opened StopRuns

  // ---- From the line GDB writes to the exit code ----

  /** The stop record of a program that exited. */
  function ExitResults(digits: string): seq<Result> {
    [Result("reason", Str("exited")), Result("exit-code", Str(digits))]
  }

  function StopLine(results: seq<Result>, end: string): string {
    ['*'] + ("stopped" + (PrintMoreResults(results) + end))
  }

  /** wait_for_stop on the line that ends the waiting. */
  function StopOfLine(line: string): Try<Stop> {
    var r := AsyncRule(line, "");
    if r.None? || r.value.kind != Exec || r.value.className != "stopped" then Thrown(NotAccepted)
    else StopOf(r.value.results)
  }

  /** Every stop record of robust results reaches the loop as these results. */
  lemma {:induction false} StopLineIsRead(results: seq<Result>, end: string)
    requires RobustResults(results) && AtEnd(end)
    ensures StopOfLine(StopLine(results, end)) == StopOf(results)
  {
    AsyncRuleRead('*', "stopped", results, end, "");
  }

  lemma ExitIsRobust(digits: string)
    requires AllDigits(digits, 8)
    ensures RobustResults(ExitResults(digits))
  {
    var rs := ExitResults(digits);
    DigitsAreBare(digits);
    BareIsEscapable(digits);
    BareIsEscapable("exited");
    assert rs[1..] == [Result("exit-code", Str(digits))];
    assert RobustResults(rs[1..][1..]);
    assert RobustResults(rs[1..]);
  }

  lemma ExitStop(digits: string)
    ensures StopOf(ExitResults(digits)) == Ok(ReadStop("exited", [Result("exit-code", Str(digits))]))
  {
    var rs := ExitResults(digits);
    assert rs[0].variable == "reason" && rs[1].variable == "exit-code";
    assert rs == [rs[0]] + [rs[1]] && [rs[1]] + [] == [rs[1]];
    FindFirst(rs[0], [rs[1]], "reason");
    assert FindString(rs, "reason") == Ok("exited");
    var others := WithoutReason(rs);
    assert rs[1..] == [rs[1]] && [rs[1]][1..] == [];
    assert WithoutReason([rs[1]]) == [rs[1]];
    assert others == [rs[1]];
    assert others + seq(|rs| - 1 - |others|, _ => Result("", Str(""))) == others;
  }

  lemma {:induction false} ExitLineIsRead(digits: string, end: string)
    requires AllDigits(digits, 8) && AtEnd(end)
    ensures StopOfLine(StopLine(ExitResults(digits), end))
         == Ok(ReadStop("exited", [Result("exit-code", Str(digits))]))
  {
    ExitIsRobust(digits);
    StopLineIsRead(ExitResults(digits), end);
    ExitStop(digits);
  }

  lemma DigitsAreBare(digits: string)
    requires AllDigits(digits, 8)
    ensures Bare(digits)
  {
  }

  /** From the line to the exit code: when GDB reports `*stopped,reason="exited"` with
      an octal exit code, the run that gets there ends with that code. */
  lemma {:induction false} ExitLineToCode(env: Env, bps: map<int, nat>, i: nat, cache: Cache, e: ExitStatus,
        digits: string, end: string)
    requires digits != "" && AllDigits(digits, 8) && Number(digits, 8) <= MAX_I32 && AtEnd(end)
    requires i < |env.stops| && StopOfLine(StopLine(ExitResults(digits), end)) == Ok(env.stops[i])
    ensures var o := Run(env, bps, true, i, cache, e);
            o == RunOutcome([Waited], Finished, ExitStatus(true, Number(digits, 8)))
  {
    ExitLineIsRead(digits, end);
    assert digits + "" == digits;
    ScanDigits(digits, "", 8);
    assert [Waited] + [] == [Waited];
  }

  // ---- Breakpoint hits ----

  /** The frame of a stop record; GDB leaves out what it does not know. */
  datatype FrameText = FrameText(
    level: Option<nat>, addr: Option<string>, func: Option<string>, args: Option<seq<FrameArg>>,
    file: Option<string>, line: Option<nat>, from: Option<string>)

  function ArgFields(a: FrameArg): seq<Result> {
    [Result("name", Str(a.name))] + [Result("value", Str(a.value))]
  }

  function ArgValues(args: seq<FrameArg>): seq<Value> {
    if args == [] then [] else [Tup(ArgFields(args[0]))] + ArgValues(args[1..])
  }

  /** A field that may be missing. */
  function Field(name: string, v: Option<Value>): seq<Result> {
    if v.Some? then [Result(name, v.value)] else []
  }

  function FrameResults(level: Option<Value>, addr: Option<Value>, func: Option<Value>, args: Option<Value>,
        file: Option<Value>, line: Option<Value>, from: Option<Value>): seq<Result> {
    Field("level", level) + (Field("addr", addr) + (Field("func", func) + (Field("args", args)
    + (Field("file", file) + (Field("line", line) + (Field("from", from) + []))))))
  }

  function TextValue(s: Option<string>): Option<Value> {
    if s.Some? then Some(Str(s.value)) else None
  }

  function NumberValue(n: Option<nat>): Option<Value> {
    if n.Some? then Some(Str(Decimal(n.value))) else None
  }

  function AddressValue(digits: Option<string>): Option<Value> {
    if digits.Some? then Some(Str("0x" + digits.value)) else None
  }

  function ArgsValue(args: Option<seq<FrameArg>>): Option<Value> {
    if args.Some? then Some(Lst(Values(ArgValues(args.value)))) else None
  }

  function FrameFields(f: FrameText): seq<Result> {
    FrameResults(NumberValue(f.level), AddressValue(f.addr), TextValue(f.func), ArgsValue(f.args),
                 TextValue(f.file), NumberValue(f.line), TextValue(f.from))
  }

  function HitResults(num: nat, f: FrameText): seq<Result> {
    [Result("reason", Str("breakpoint-hit"))] + HitContent(num, f)
  }

  predicate PrintableArgs(args: seq<FrameArg>) {
    args != [] ==> Escapable(args[0].name) && Escapable(args[0].value) && PrintableArgs(args[1..])
  }

  predicate PrintableText(s: Option<string>) {
    s.Some? ==> Escapable(s.value)
  }

  predicate PrintableNumber(n: Option<nat>) {
    n.Some? ==> n.value <= MAX_I32
  }

  predicate PrintableAddress(digits: Option<string>) {
    digits.Some? ==>
      digits.value != "" && AllDigits(digits.value, 16) && Number(digits.value, 16) <= MAX_U64
  }

  /** Something is known about the frame: an empty tuple is no frame for the grammar. */
  predicate Printable(num: nat, f: FrameText) {
    && num <= MAX_I32 && FrameFields(f) != []
    && PrintableNumber(f.level) && PrintableNumber(f.line) && PrintableAddress(f.addr)
    && PrintableText(f.func) && PrintableText(f.file) && PrintableText(f.from)
    && (f.args.Some? ==> PrintableArgs(f.args.value))
  }

  lemma DecimalIsBare(n: nat)
    ensures Bare(Decimal(n)) && Escapable(Decimal(n))
  {
    var s := Decimal(n);
    forall c | c in s ensures c != QUOTE && c != BACKSLASH {
      var i :| 0 <= i < |s| && s[i] == c;
      assert IsDigit(s[i], 10);
    }
    BareIsEscapable(s);
  }

  lemma AddressIsBare(digits: string)
    requires AllDigits(digits, 16)
    ensures Escapable("0x" + digits)
  {
    var s := "0x" + digits;
    forall c | c in s ensures c != QUOTE && c != BACKSLASH {
      var i :| 0 <= i < |s| && s[i] == c;
      if i >= 2 { assert s[i] == digits[i - 2] && IsDigit(digits[i - 2], 16); }
    }
    BareIsEscapable(s);
  }

  /** std::stoull in base 16 takes the whole of an address. */
  lemma {:induction false} AddressIsRead(digits: string)
    requires digits != "" && AllDigits(digits, 16) && Number(digits, 16) <= MAX_U64
    ensures Stoull("0x" + digits, 16) == Parsed(Number(digits, 16))
  {
    var s := "0x" + digits;
    assert IsDigit(s[2], 16) && s[2..] == digits;
    assert SkipBlanks(s) == s && SkipPrefix(s, 16) == digits;
    assert digits + "" == digits;
    DigitsEnd(digits, "", 16);
    assert digits[..|digits|] == digits;
  }

  lemma SmallDecimalIsRead(n: nat)
    requires n <= MAX_I32
    ensures Stoi(Decimal(n), 10) == Parsed(n)
  {
    NumberOfDecimal(n);
    assert Decimal(n) + "" == Decimal(n);
    ScanDigits(Decimal(n), "", 10);
  }

  lemma {:induction false} ArgsAreRobust(args: seq<FrameArg>)
    requires PrintableArgs(args)
    ensures RobustValues(ArgValues(args)) && Robust(Lst(Values(ArgValues(args))))
  {
    if args == [] {
    } else {
      var a := args[0];
      assert [Result("value", Str(a.value))] + [] == [Result("value", Str(a.value))];
      RobustCons(Result("value", Str(a.value)), []);
      RobustCons(Result("name", Str(a.name)), [Result("value", Str(a.value))]);
      ArgsAreRobust(args[1..]);
      var vs := ArgValues(args);
      assert vs[0] == Tup(ArgFields(a)) && vs[1..] == ArgValues(args[1..]);
    }
  }

  predicate RobustField(v: Option<Value>) {
    v.Some? ==> Robust(v.value)
  }

  lemma FieldRobust(name: string, v: Option<Value>, rest: seq<Result>)
    requires ProperName(name)
    ensures RobustResults(Field(name, v) + rest) <==> RobustField(v) && RobustResults(rest)
  {
    if v.Some? { RobustCons(Result(name, v.value), rest); } else { assert Field(name, v) + rest == rest; }
  }

  lemma ResultsRobust(level: Option<Value>, addr: Option<Value>, func: Option<Value>, args: Option<Value>,
        file: Option<Value>, line: Option<Value>, from: Option<Value>)
    requires RobustField(level) && RobustField(addr) && RobustField(func) && RobustField(args)
    requires RobustField(file) && RobustField(line) && RobustField(from)
    ensures RobustResults(FrameResults(level, addr, func, args, file, line, from))
  {
    var r1 := Field("from", from) + [];
    var r2 := Field("line", line) + r1;
    var r3 := Field("file", file) + r2;
    var r4 := Field("args", args) + r3;
    var r5 := Field("func", func) + r4;
    FieldRobust("from", from, []);
    FieldRobust("line", line, r1);
    FieldRobust("file", file, r2);
    FieldRobust("args", args, r3);
    FieldRobust("func", func, r4);
    FieldRobust("addr", addr, r5);
    FieldRobust("level", level, Field("addr", addr) + r5);
  }

  lemma FrameIsRobust(num: nat, f: FrameText)
    requires Printable(num, f)
    ensures Robust(Tup(FrameFields(f)))
  {
    if f.level.Some? { DecimalIsBare(f.level.value); }
    if f.line.Some? { DecimalIsBare(f.line.value); }
    if f.addr.Some? { AddressIsBare(f.addr.value); }
    if f.args.Some? { ArgsAreRobust(f.args.value); }
    ResultsRobust(NumberValue(f.level), AddressValue(f.addr), TextValue(f.func), ArgsValue(f.args),
                  TextValue(f.file), NumberValue(f.line), TextValue(f.from));
  }

  function HitContent(num: nat, f: FrameText): seq<Result> {
    [Result("bkptno", Str(Decimal(num)))] + ([Result("frame", Tup(FrameFields(f)))] + [])
  }

  lemma ContentIsRobust(num: nat, f: FrameText)
    requires Printable(num, f)
    ensures RobustResults(HitContent(num, f))
  {
    DecimalIsBare(num);
    FrameIsRobust(num, f);
    RobustCons(Result("frame", Tup(FrameFields(f))), []);
    RobustCons(Result("bkptno", Str(Decimal(num))), [Result("frame", Tup(FrameFields(f)))] + []);
  }

  lemma ReasonIsEscapable()
    ensures Escapable("breakpoint-hit")
  {
    BareIsEscapable("breakpoint-hit");
  }

  lemma HitIsRobust(num: nat, f: FrameText)
    requires Printable(num, f)
    ensures RobustResults(HitResults(num, f))
  {
    ReasonIsEscapable();
    ContentIsRobust(num, f);
    RobustCons(Result("reason", Str("breakpoint-hit")), HitContent(num, f));
  }

  lemma {:induction false} ArgsAreRead(args: seq<FrameArg>)
    ensures ValueArgs(ArgValues(args)) == Ok(args)
  {
    if args == [] {
    } else {
      var a, fields := args[0], ArgFields(args[0]);
      var value := Result("value", Str(a.value));
      FindFirst(Result("name", Str(a.name)), [value], "name");
      FindFirst(Result("name", Str(a.name)), [value], "value");
      assert [value] + [] == [value];
      FindFirst(value, [], "value");
      ArgsAreRead(args[1..]);
      ArgsCons(fields, ArgValues(args[1..]), a, args[1..]);
      assert [a] + args[1..] == args;
    }
  }

  lemma ArgsCons(fields: seq<Result>, vs: seq<Value>, a: FrameArg, args: seq<FrameArg>)
    requires FindString(fields, "name") == Ok(a.name) && FindString(fields, "value") == Ok(a.value)
    requires ValueArgs(vs) == Ok(args)
    ensures ValueArgs([Tup(fields)] + vs) == Ok([a] + args)
  {
    assert ([Tup(fields)] + vs)[1..] == vs;
  }

  lemma FieldFound(name: string, v: Option<Value>, rest: seq<Result>, id: string)
    ensures FindIf(Field(name, v) + rest, id) == if id == name && v.Some? then v else FindIf(rest, id)
  {
    if v.Some? { FindFirst(Result(name, v.value), rest, id); } else { assert Field(name, v) + rest == rest; }
  }

  /** What the fields of a frame are found to be. */
  lemma {:induction false} ResultFound(level: Option<Value>, addr: Option<Value>, func: Option<Value>,
        args: Option<Value>,
        file: Option<Value>, line: Option<Value>, from: Option<Value>, id: string)
    ensures FindIf(FrameResults(level, addr, func, args, file, line, from), id)
         == if id == "level" then level else if id == "addr" then addr else if id == "func" then func
            else if id == "args" then args else if id == "file" then file else if id == "line" then line
            else if id == "from" then from else None
  {
    var r1 := Field("from", from) + [];
    var r2 := Field("line", line) + r1;
    var r3 := Field("file", file) + r2;
    var r4 := Field("args", args) + r3;
    var r5 := Field("func", func) + r4;
    FieldFound("from", from, [], id);
    FieldFound("line", line, r1, id);
    FieldFound("file", file, r2, id);
    FieldFound("args", args, r3, id);
    FieldFound("func", func, r4, id);
    FieldFound("addr", addr, r5, id);
    FieldFound("level", level, Field("addr", addr) + r5, id);
  }

  lemma {:induction false} FrameFound(f: FrameText, id: string)
    ensures FindIf(FrameFields(f), id)
         == if id == "level" then NumberValue(f.level) else if id == "addr" then AddressValue(f.addr)
            else if id == "func" then TextValue(f.func) else if id == "args" then ArgsValue(f.args)
            else if id == "file" then TextValue(f.file) else if id == "line" then NumberValue(f.line)
            else if id == "from" then TextValue(f.from) else None
  {
    ResultFound(NumberValue(f.level), AddressValue(f.addr), TextValue(f.func), ArgsValue(f.args),
                TextValue(f.file), NumberValue(f.line), TextValue(f.from), id);
  }

  function FrameOf(f: FrameText): Frame {
    Frame(f.func, if f.addr.Some? then Some(Number(f.addr.value, 16)) else None, f.file, f.line, f.args)
  }

  lemma TextIsRead(rs: seq<Result>, id: string, s: Option<string>)
    requires FindIf(rs, id) == TextValue(s)
    ensures OptionalString(rs, id) == Ok(s)
  {
  }

  lemma NumberIsRead(rs: seq<Result>, id: string, n: Option<nat>)
    requires FindIf(rs, id) == NumberValue(n) && PrintableNumber(n)
    ensures OptionalInt(rs, id) == Ok(n)
  {
    if n.Some? { SmallDecimalIsRead(n.value); }
  }

  lemma AddressFieldIsRead(rs: seq<Result>, digits: Option<string>)
    requires FindIf(rs, "addr") == AddressValue(digits) && PrintableAddress(digits)
    ensures digits.Some? ==> FindU64(rs, "addr", 16) == Ok(Number(digits.value, 16))
  {
    if digits.Some? { AddressIsRead(digits.value); }
  }

  lemma ArgsFieldIsRead(rs: seq<Result>, args: Option<seq<FrameArg>>)
    requires FindIf(rs, "args") == ArgsValue(args)
    ensures FrameArgs(rs) == Ok(args)
  {
    if args.Some? { ArgsAreRead(args.value); }
  }

  lemma FrameParts(rs: seq<Result>, f: Frame)
    requires OptionalInt(rs, "level").Ok? && OptionalString(rs, "from").Ok?
    requires OptionalString(rs, "func") == Ok(f.func) && OptionalString(rs, "file") == Ok(f.file)
    requires if FindIf(rs, "addr").None? then f.addr == None
             else f.addr.Some? && FindU64(rs, "addr", 16) == Ok(f.addr.value)
    requires OptionalInt(rs, "line") == Ok(f.line) && FrameArgs(rs) == Ok(f.args)
    ensures ParseFrame(rs) == Ok(f)
  {
  }

  lemma {:induction false} FrameNumbers(num: nat, f: FrameText)
    requires Printable(num, f)
    ensures f.addr.Some? ==> FindU64(FrameFields(f), "addr", 16) == Ok(Number(f.addr.value, 16))
    ensures OptionalInt(FrameFields(f), "line") == Ok(f.line)
    ensures OptionalInt(FrameFields(f), "level") == Ok(f.level)
  {
    FrameFound(f, "addr");
    FrameFound(f, "line");
    FrameFound(f, "level");
    AddressFieldIsRead(FrameFields(f), f.addr);
    NumberIsRead(FrameFields(f), "line", f.line);
    NumberIsRead(FrameFields(f), "level", f.level);
  }

  lemma {:induction false} FrameStrings(f: FrameText)
    ensures OptionalString(FrameFields(f), "func") == Ok(f.func)
    ensures OptionalString(FrameFields(f), "file") == Ok(f.file)
    ensures OptionalString(FrameFields(f), "from") == Ok(f.from)
  {
    FrameFound(f, "func");
    FrameFound(f, "file");
    FrameFound(f, "from");
    TextIsRead(FrameFields(f), "func", f.func);
    TextIsRead(FrameFields(f), "file", f.file);
    TextIsRead(FrameFields(f), "from", f.from);
  }

  lemma {:induction false} FrameIsRead(num: nat, f: FrameText)
    requires Printable(num, f)
    ensures ParseFrame(FrameFields(f)) == Ok(FrameOf(f))
  {
    FrameNumbers(num, f);
    FrameStrings(f);
    FrameFound(f, "addr");
    FrameFound(f, "args");
    ArgsFieldIsRead(FrameFields(f), f.args);
    FrameParts(FrameFields(f), FrameOf(f));
  }

  lemma HitIsParsed(num: nat, f: FrameText)
    requires Printable(num, f)
    ensures ParseHit(HitContent(num, f)) == Ok(Hit(num, FrameOf(f)))
  {
    var bkptno, frame := Result("bkptno", Str(Decimal(num))), Result("frame", Tup(FrameFields(f)));
    FindFirst(bkptno, [frame] + [], "bkptno");
    FindFirst(bkptno, [frame] + [], "frame");
    FindFirst(frame, [], "frame");
    SmallDecimalIsRead(num);
    assert FindInt(HitContent(num, f), "bkptno", 10) == Ok(num);
    FrameIsRead(num, f);
  }

  lemma HitStop(num: nat, f: FrameText)
    ensures StopOf(HitResults(num, f)) == Ok(ReadStop("breakpoint-hit", HitContent(num, f)))
  {
    var reason, content := Result("reason", Str("breakpoint-hit")), HitContent(num, f);
    var rs := HitResults(num, f);
    FindFirst(reason, content, "reason");
    NoReason(Result("bkptno", Str(Decimal(num))), [Result("frame", Tup(FrameFields(f)))] + []);
    NoReason(Result("frame", Tup(FrameFields(f))), []);
    assert rs[1..] == content;
    assert WithoutReason(rs) == content;
    assert content + seq(|rs| - 1 - |content|, _ => Result("", Str(""))) == content;
  }

  lemma NoReason(r: Result, rs: seq<Result>)
    requires r.variable != "reason"
    ensures WithoutReason([r] + rs) == [r] + WithoutReason(rs)
  {
    assert ([r] + rs)[1..] == rs;
  }

  /** From the line to the hit: the stop record of a breakpoint hit gives the loop the
      breakpoint number and the frame that GDB wrote, argument texts included. */
  lemma {:induction false} HitLineIsRead(num: nat, f: FrameText, end: string)
    requires Printable(num, f) && AtEnd(end)
    ensures var s := StopOfLine(StopLine(HitResults(num, f), end));
            s.Ok? && s.value.reason == "breakpoint-hit" && s.value.hit == Ok(Hit(num, FrameOf(f)))
  {
    HitIsRobust(num, f);
    StopLineIsRead(HitResults(num, f), end);
    HitStop(num, f);
    HitIsParsed(num, f);
  }

  /** From the line to the plug-in: the hit GDB reports is answered by a call of the
      breakpoint registered for its number, with the function as identifier, file, line
      and arguments of the frame GDB wrote; and the run ends there if and only if the
      plug-in sets an exit. */
  lemma {:induction false} HitLineToCall(env: Env, bps: map<int, nat>, i: nat, cache: Cache, e: ExitStatus, num: nat,
        f: FrameText, end: string)
    requires Printable(num, f) && AtEnd(end) && !e.exited && num in bps
    requires i < |env.stops| && StopOfLine(StopLine(HitResults(num, f), end)) == Ok(env.stops[i])
    requires NamesFor(env, true, cache, i, i, FrameOf(f)).Ok?
    ensures var o := Run(env, bps, true, i, cache, e);
            var calls := Calls(o.trace);
            && calls != [] && calls[0].num == num && calls[0].breakPoint == bps[num]
            && var inv := calls[0].invocation;
               && inv.id == (if f.func.Some? then f.func.value else "")
               && inv.file == (if f.file.Some? then f.file.value else "")
               && inv.line == (if f.line.Some? then f.line.value else -1)
               && (if f.args.Some?
                   then FollowNames(env, i, NamesFor(env, true, cache, i, i, FrameOf(f)).value, f.args.value, inv.args)
                   else inv.args == [])
               && (env.plugin(i, num, inv) != [] <==> o.ending == ByPlugin && Continues(o.trace) == 0)
  {
    HitLineIsRead(num, f, end);
    RunAccount(env, bps, true, i, cache, e);
    var o := Run(env, bps, true, i, cache, e);
    FirstCall(env, bps, i, cache, o);
  }

  lemma FirstCall(env: Env, bps: map<int, nat>, i: nat, cache: Cache, o: RunOutcome)
    requires i < |env.stops| && Accounted(env, bps, true, i, cache, o)
    requires Ready(env, true, cache, i, i) && env.stops[i].hit.value.num in bps
    ensures var calls := Calls(o.trace);
            && calls != [] && Answers(env, bps, true, cache, i, i, calls[0])
            && (env.plugin(i, calls[0].num, calls[0].invocation) != []
                <==> o.ending == ByPlugin && Continues(o.trace) == 0)
  {
    var calls, n := Calls(o.trace), Continues(o.trace);
    if n == 0 { assert o.ending == ByPlugin; }
    assert |calls| > 0;
    assert Answers(env, bps, true, cache, i, i + 0, calls[0]);
  }

  /** Other lines do not end the waiting. */
  lemma OtherLinesAreNoStops(kind: char, className: string, rs: seq<Result>, end: string)
    requires kind in {'*', '+', '='} && ProperClass(className) && RobustResults(rs) && AtEnd(end)
    requires kind != '*' || className != "stopped"
    ensures StopOfLine([kind] + (className + (PrintMoreResults(rs) + end))) == Thrown(NotAccepted)
  {
    AsyncRuleRead(kind, className, rs, end, "");
  }

  /** A stop wherever its reason stands among the results: the content is all the others,
      in order. */
  lemma {:induction false} ReasonAnywhere(a: seq<Result>, reason: string, b: seq<Result>)
    requires forall r | r in a + b :: r.variable != "reason"
    ensures StopOf(a + ([Result("reason", Str(reason))] + b)) == Ok(ReadStop(reason, a + b))
  {
    var rs := a + ([Result("reason", Str(reason))] + b);
    OthersOf(a, reason, b);
    StopByReason(rs, reason, a + b);
  }

  lemma {:induction false} StopByReason(rs: seq<Result>, reason: string, others: seq<Result>)
    requires FindIf(rs, "reason") == Some(Str(reason)) && WithoutReason(rs) == others && |others| == |rs| - 1
    ensures StopOf(rs) == Ok(ReadStop(reason, others))
  {
    assert others + seq(0, _ => Result("", Str(""))) == others;
  }

  lemma {:induction false} OthersOf(a: seq<Result>, reason: string, b: seq<Result>)
    requires forall r | r in a + b :: r.variable != "reason"
    ensures var rs := a + ([Result("reason", Str(reason))] + b);
            FindIf(rs, "reason") == Some(Str(reason)) && WithoutReason(rs) == a + b
  {
    var r := Result("reason", Str(reason));
    assert forall x | x in a :: x in a + b;
    assert forall x | x in b :: x in a + b;
    FindBehindOthers(a, [r] + b, "reason");
    FindFirst(r, b, "reason");
    WithoutConcat(a, [r] + b);
    WithoutNothing(a);
    WithoutNothing(b);
    assert ([r] + b)[1..] == b;
  }

  lemma {:induction false} FindBehindOthers(a: seq<Result>, b: seq<Result>, id: string)
    requires forall r | r in a :: r.variable != id
    ensures FindIf(a + b, id) == FindIf(b, id)
  {
    if a == [] {
      assert a + b == b;
    } else {
      assert (a + b)[1..] == a[1..] + b;
      FindBehindOthers(a[1..], b, id);
    }
  }

  lemma {:induction false} WithoutConcat(a: seq<Result>, b: seq<Result>)
    ensures WithoutReason(a + b) == WithoutReason(a) + WithoutReason(b)
  {
    if a == [] {
      assert a + b == b;
    } else {
      assert (a + b)[1..] == a[1..] + b;
      WithoutConcat(a[1..], b);
    }
  }

  lemma {:induction false} WithoutNothing(rs: seq<Result>)
    requires forall r | r in rs :: r.variable != "reason"
    ensures WithoutReason(rs) == rs
  {
    if rs == [] {
    } else {
      WithoutNothing(rs[1..]);
      assert rs == [rs[0]] + rs[1..];
    }
  }

  // ---- Which contents can be read ----

  predicate IsArg(v: Value) {
    v.Tup? && HoldsText(v.fields, "name") && HoldsText(v.fields, "value")
  }

  predicate AreArgs(v: Value) {
    && v.Lst?
    && match v.list
       case Values(vs) => forall k | 0 <= k < |vs| :: IsArg(vs[k])
       case Results(rs) => forall k | 0 <= k < |rs| :: rs[k].value.Str?
  }

  predicate IsText(rs: seq<Result>, id: string) {
    FindIf(rs, id).Some? ==> HoldsText(rs, id)
  }

  predicate IsInt(rs: seq<Result>, id: string) {
    FindIf(rs, id).Some? ==> HoldsInt(rs, id, 10)
  }

  /** Every field of a frame may be missing, but what is there has its type, the fields that
      nothing uses included. */
  predicate IsFrame(rs: seq<Result>) {
    && IsInt(rs, "level") && IsInt(rs, "line")
    && IsText(rs, "func") && IsText(rs, "file") && IsText(rs, "from")
    && (FindIf(rs, "addr").Some? ==> HoldsU64(rs, "addr", 16))
    && (FindIf(rs, "args").Some? ==> AreArgs(FindIf(rs, "args").value))
  }

  /** Arguments with values: one by one, by name and value, whatever else is in the tuple. */
  lemma {:induction false} ValueArgsExact(vs: seq<Value>)
    ensures ValueArgs(vs).Ok? <==> forall k | 0 <= k < |vs| :: IsArg(vs[k])
    ensures var args := ValueArgs(vs);
            args.Ok? ==> |args.value| == |vs| && forall k | 0 <= k < |vs| ::
              IsArg(vs[k])
              && args.value[k] == FrameArg(TextAt(vs[k].fields, "name"), TextAt(vs[k].fields, "value"))
  {
    if vs == [] {
    } else {
      ValueArgsExact(vs[1..]);
      assert forall k | 0 < k < |vs| :: vs[k] == vs[1..][k - 1];
      assert ValueArgs(vs).Ok? <==> IsArg(vs[0]) && ValueArgs(vs[1..]).Ok?;
    }
  }

  /** Arguments without values: the names alone. */
  lemma {:induction false} ResultArgsExact(rs: seq<Result>)
    ensures ResultArgs(rs).Ok? <==> forall k | 0 <= k < |rs| :: rs[k].value.Str?
    ensures var args := ResultArgs(rs);
            args.Ok? ==> |args.value| == |rs| && forall k | 0 <= k < |rs| ::
              rs[k].value.Str? && args.value[k] == FrameArg(rs[k].value.s, "")
  {
    if rs == [] {
    } else {
      ResultArgsExact(rs[1..]);
      assert forall k | 0 < k < |rs| :: rs[k] == rs[1..][k - 1];
      assert ResultArgs(rs).Ok? <==> rs[0].value.Str? && ResultArgs(rs[1..]).Ok?;
    }
  }

  lemma ArgsExact(rs: seq<Result>)
    ensures FrameArgs(rs).Ok? <==> (FindIf(rs, "args").Some? ==> AreArgs(FindIf(rs, "args").value))
  {
    match FindIf(rs, "args")
    case None =>
    case Some(v) =>
      if v.Lst? {
        match v.list
        case Values(vs) => ValueArgsExact(vs);
        case Results(out) => ResultArgsExact(out);
      }
  }

  /** Exactly which contents of a hit can be read; of all others, the run ends with an
      exception. */
  lemma {:induction false} HitExact(content: seq<Result>)
    ensures ParseHit(content).Ok?
        <==> HoldsInt(content, "bkptno", 10)
             && FindIf(content, "frame").Some? && FindIf(content, "frame").value.Tup?
             && IsFrame(FindIf(content, "frame").value.fields)
  {
    var v := FindIf(content, "frame");
    if v.Some? && v.value.Tup? { FrameExact(v.value.fields); }
  }

  lemma {:induction false} FieldExact(rs: seq<Result>, id: string)
    ensures OptionalInt(rs, id).Ok? <==> IsInt(rs, id)
    ensures OptionalString(rs, id).Ok? <==> IsText(rs, id)
    ensures FindU64(rs, id, 16).Ok? <==> HoldsU64(rs, id, 16)
  {
  }

  lemma {:induction false} AllFields(rs: seq<Result>)
    ensures ParseFrame(rs).Ok?
        <==> OptionalInt(rs, "level").Ok? && OptionalString(rs, "func").Ok?
             && (FindIf(rs, "addr").Some? ==> FindU64(rs, "addr", 16).Ok?)
             && OptionalString(rs, "file").Ok? && OptionalInt(rs, "line").Ok?
             && OptionalString(rs, "from").Ok? && FrameArgs(rs).Ok?
  {
  }

  lemma {:induction false} FrameExact(rs: seq<Result>)
    ensures ParseFrame(rs).Ok? <==> IsFrame(rs)
  {
    AllFields(rs);
    ArgsExact(rs);
    FieldExact(rs, "level");
    FieldExact(rs, "line");
    FieldExact(rs, "func");
    FieldExact(rs, "file");
    FieldExact(rs, "from");
    FieldExact(rs, "addr");
  }
}
