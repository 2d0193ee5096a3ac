/** The stop-handling loop of `process::_handle_bps` with its cache of argument
    names, and the breakpoint map that `_init_bps` fills. */
module StopLoop {
  import opened MiValues
  import opened MiLookup
  import opened MiReplies
  import opened Numbers
  import opened Sequences

  // ---- What a stop carries ----

  datatype FrameArg = FrameArg(name: string, value: string)

  datatype Frame = Frame(
    func: Option<string>, addr: Option<nat>, file: Option<string>, line: Option<int>,
    args: Option<seq<FrameArg>>)

  function OptionalString(rs: seq<Result>, id: string): Try<Option<string>> {
    if FindIf(rs, id).None? then Ok(None)
    else
      var s :- FindString(rs, id);
      Ok(Some(s))
  }

  function OptionalInt(rs: seq<Result>, id: string): Try<Option<int>> {
    if FindIf(rs, id).None? then Ok(None)
    else
      var n :- FindInt(rs, id, 10);
      Ok(Some(n))
  }

  function ValueArgs(vs: seq<Value>): Try<seq<FrameArg>> {
    if vs == [] then Ok([])
    else
      var t :- AsTuple(vs[0]);
      var name :- FindString(t, "name");
      var value :- FindString(t, "value");
      var more :- ValueArgs(vs[1..]);
      Ok([FrameArg(name, value)] + more)
  }

  function ResultArgs(rs: seq<Result>): Try<seq<FrameArg>> {
    if rs == [] then Ok([])
    else
      var name :- AsString(rs[0].value);
      var more :- ResultArgs(rs[1..]);
      Ok([FrameArg(name, "")] + more)
  }

  function FrameArgs(rs: seq<Result>): Try<Option<seq<FrameArg>>> {
    match FindIf(rs, "args")
    case None => Ok(None)
    case Some(v) =>
      if !v.Lst? then Thrown(UnexpectedType)
      else
        var args :- if v.list.Values? then ValueArgs(v.list.vs) else ResultArgs(v.list.rs);
        Ok(Some(args))
  }

  /** parse_result<frame>; `level` and `from` are read, and may throw. */
  function ParseFrame(rs: seq<Result>): Try<Frame> {
    var _ :- OptionalInt(rs, "level");
    var func :- OptionalString(rs, "func");
    var addr :- if FindIf(rs, "addr").None? then Ok(None) else
      var a :- FindU64(rs, "addr", 16); Ok(Some(a));
    var file :- OptionalString(rs, "file");
    var line :- OptionalInt(rs, "line");
    var _ :- OptionalString(rs, "from");
    var args :- FrameArgs(rs);
    Ok(Frame(func, addr, file, line, args))
  }

  /** The breakpoint number and the frame of a hit. */
  datatype Hit = Hit(num: int, frame: Frame)

  function ParseHit(content: seq<Result>): Try<Hit> {
    var num :- FindInt(content, "bkptno", 10);
    var v :- Find(content, "frame");
    var t :- AsTuple(v);
    var frame :- ParseFrame(t);
    Ok(Hit(num, frame))
  }

  /** A stop as the loop reads it: the reason, and what its content yields if it is
      asked for the hit or for the exit code; either may throw, but only then. */
  datatype Stop = Stop(reason: string, hit: Try<Hit>, exitCode: Try<int>)

  function ReadStop(reason: string, content: seq<Result>): Stop {
    Stop(reason, ParseHit(content), FindInt(content, "exit-code", 8))
  }

  /** The part of wait_for_stop that takes a "stopped" record apart: the content is
      sized for all results but one, and takes all that are not the reason. */
  function StopOf(results: seq<Result>): Try<Stop> {
    var reason :- FindString(results, "reason");
    var others := WithoutReason(results);
    Ok(ReadStop(reason, others + seq(|results| - 1 - |others|, _ => Result("", Str("")))))
  }

  function WithoutReason(rs: seq<Result>): (out: seq<Result>)
    ensures |out| <= |rs|
    ensures FindIf(rs, "reason").Some? ==> |out| < |rs|
  {
    if rs == [] then []
    else if rs[0].variable == "reason" then WithoutReason(rs[1..])
    else [rs[0]] + WithoutReason(rs[1..])
  }

  // ---- What the plug-in sees ----

  /** What parse_var makes of the text of an argument. */
  datatype Var = Var(ref: Option<nat>, value: string, cstring: string)

  datatype Arg = Arg(id: string, v: Var)

  const NO_VAR: Var := Var(None, "", "")

  datatype Invocation = Invocation(id: string, args: seq<Arg>, file: string, line: int)

  /** The surroundings of one run, all of them arbitrary: the stops GDB reports, its
      answer to stack_list_arguments at each stop, what parse_var yields there, and
      the exit codes the plug-in passes to set_exit when it is invoked. */
  datatype Env = Env(
    stops: seq<Stop>,
    names: nat -> Try<Option<seq<string>>>,
    parseVar: (nat, string, string) -> Var,
    plugin: (nat, int, Invocation) -> seq<int>)

  datatype Event =
    | Waited
    | Queried(addr: Option<nat>)
    | Invoked(num: int, breakPoint: nat, invocation: Invocation)
    | Continued

  /** How a run ends. `NoBreakPoint` is the call through the null pointer that an
      unknown number puts into the map; `NoMoreStops` is GDB falling silent. */
  datatype Ending =
    | Finished
    | ByPlugin
    | Failed(error: Error)
    | NoBreakPoint(num: int)
    | NoMoreStops

  datatype ExitStatus = ExitStatus(exited: bool, code: int)

  /** set_exit for every code in turn. */
  function SetExits(e: ExitStatus, codes: seq<int>): ExitStatus {
    if codes == [] then e else ExitStatus(true, codes[|codes| - 1])
  }

  /** Argument `i` is the first one called `name`. */
  predicate FirstNamed(args: seq<FrameArg>, i: nat, name: string) {
    i < |args| && args[i].name == name && forall j | 0 <= j < i :: args[j].name != name
  }

  /** std::find_if by name over the arguments of the frame. */
  function FindArg(args: seq<FrameArg>, name: string): (a: Option<FrameArg>)
    ensures a.Some? ==> exists i: nat :: FirstNamed(args, i, name) && args[i] == a.value
    ensures a.None? <==> forall x | x in args :: x.name != name
  {
    if args == [] then None
    else if args[0].name == name then
      assert FirstNamed(args, 0, name);
      Some(args[0])
    else
      var a := FindArg(args[1..], name);
      assert a.Some? ==> exists i: nat :: FirstNamed(args, i, name) && args[i] == a.value by {
        if a.Some? {
          var i: nat :| FirstNamed(args[1..], i, name) && args[1..][i] == a.value;
          assert forall j | 0 < j <= i :: args[j] == args[1..][j - 1];
          assert FirstNamed(args, i + 1, name);
        }
      }
      a
  }

  function ArgFor(env: Env, i: nat, args: seq<FrameArg>, name: string): Arg {
    match FindArg(args, name)
    case None => Arg("", NO_VAR)
    case Some(a) => Arg(a.name, env.parseVar(i, a.name, a.value))
  }

  /** One argument per name, in the order of the names. */
  function BuildArgs(env: Env, i: nat, names: seq<string>, args: seq<FrameArg>): (out: seq<Arg>)
    ensures |out| == |names|
  {
    seq(|names|, k requires 0 <= k < |names| => ArgFor(env, i, args, names[k]))
  }

  // ---- The specification: a run as a function ----

  type Cache = map<nat, seq<string>>

  datatype Lookup = Lookup(names: Try<seq<string>>, queries: seq<Event>, cache: Cache)

  /** The names of the arguments at a stop, from the cache or from GDB. */
  function LookupNames(env: Env, cached: bool, i: nat, frame: Frame, cache: Cache): Lookup {
    if frame.args.None? then Lookup(Ok([]), [], cache)
    else if cached && frame.addr.Some? && frame.addr.value in cache then
      Lookup(Ok(cache[frame.addr.value]), [], cache)
    else
      match env.names(i)
      case Thrown(e) => Lookup(Thrown(e), [Queried(frame.addr)], cache)
      case Ok(reply) =>
        var names := if reply.Some? then reply.value else [];
        Lookup(Ok(names), [Queried(frame.addr)],
               if frame.addr.Some? then cache[frame.addr.value := names] else cache)
  }

  function InvocationFor(env: Env, i: nat, frame: Frame, names: seq<string>): Invocation {
    Invocation(
      if frame.func.Some? then frame.func.value else "",
      if frame.args.Some? then BuildArgs(env, i, names, frame.args.value) else [],
      if frame.file.Some? then frame.file.value else "",
      if frame.line.Some? then frame.line.value else -1)
  }

  datatype RunOutcome = RunOutcome(trace: seq<Event>, ending: Ending, exit: ExitStatus)

  /** The two tests behind the loop. */
  function AfterLoop(s: Stop, e: ExitStatus): (Ending, ExitStatus) {
    if s.reason == "exited-normally" then (Finished, ExitStatus(true, 0))
    else if s.reason == "exited" then
      match s.exitCode
      case Thrown(error) => (Failed(error), e)
      case Ok(code) => (Finished, ExitStatus(true, code))
    else (Finished, e)
  }

  /** What one breakpoint hit does; without an ending, the process is continued. */
  datatype Round = Round(events: seq<Event>, ending: Option<Ending>, cache: Cache, exit: ExitStatus)

  function HitRound(env: Env, bps: map<int, nat>, cached: bool, i: nat, hit: Hit, cache: Cache, e: ExitStatus): Round {
    var l := LookupNames(env, cached, i, hit.frame, cache);
    if l.names.Thrown? then Round(l.queries, Some(Failed(l.names.error)), l.cache, e)
    else if hit.num !in bps then Round(l.queries, Some(NoBreakPoint(hit.num)), l.cache, e)
    else
      var inv := InvocationFor(env, i, hit.frame, l.names.value);
      var e' := SetExits(e, env.plugin(i, hit.num, inv));
      Round(l.queries + [Invoked(hit.num, bps[hit.num], inv)],
            if e'.exited then Some(ByPlugin) else None, l.cache, e')
  }

  function StopRound(env: Env, bps: map<int, nat>, cached: bool, i: nat, s: Stop, cache: Cache, e: ExitStatus): Round {
    if s.reason != "breakpoint-hit" then
      var (ending, e') := AfterLoop(s, e);
      Round([], Some(ending), cache, e')
    else
      match s.hit
      case Thrown(error) => Round([], Some(Failed(error)), cache, e)
      case Ok(hit) => HitRound(env, bps, cached, i, hit, cache, e)
  }

  /** The run from the point where the loop waits for stop `i`. With `cached` false,
      the names are asked for at every stop. */
  function Run(env: Env, bps: map<int, nat>, cached: bool, i: nat, cache: Cache, e: ExitStatus): RunOutcome
    decreases |env.stops| - i
  {
    if i >= |env.stops| then RunOutcome([], NoMoreStops, e)
    else
      var r := StopRound(env, bps, cached, i, env.stops[i], cache, e);
      if r.ending.Some? then RunOutcome([Waited] + r.events, r.ending.value, r.exit)
      else
        var rest := Run(env, bps, cached, i + 1, r.cache, r.exit);
        RunOutcome([Waited] + r.events + [Continued] + rest.trace, rest.ending, rest.exit)
  }

  /** A run, together with what happened before it. */
  function Since(front: seq<Event>, o: RunOutcome): RunOutcome {
    o.(trace := front + o.trace)
  }

  /** One stop of a run. */
  lemma RunStep(env: Env, bps: map<int, nat>, cached: bool, i: nat, cache: Cache, e: ExitStatus, front: seq<Event>)
    requires i < |env.stops|
    ensures var r := StopRound(env, bps, cached, i, env.stops[i], cache, e);
            Since(front, Run(env, bps, cached, i, cache, e))
            == if r.ending.Some? then RunOutcome(front + [Waited] + r.events, r.ending.value, r.exit)
               else Since(front + [Waited] + r.events + [Continued],
                          Run(env, bps, cached, i + 1, r.cache, r.exit))
  {
    var r := StopRound(env, bps, cached, i, env.stops[i], cache, e);
    var rest := Run(env, bps, cached, i + 1, r.cache, r.exit);
    Associative(front, [Waited], r.events);
    Associative(front, [Waited] + r.events, [Continued]);
    Associative(front, [Waited] + r.events + [Continued], rest.trace);
  }

  // ---- The process object ----

  datatype Inserted = Inserted(number: int) | Refused | Unexpected(error: Error)

  /** The map after the first answers to break_insert: number to index. */
  function Registered(answers: seq<Inserted>): map<int, nat> {
    if answers == [] then map[]
    else
      var n := |answers| - 1;
      var m := Registered(answers[..n]);
      if answers[n].Inserted? then m[answers[n].number := n] else m
  }

  class Process {
    var breakPointMap: map<int, nat>
    var exited: bool
    var exitCode: int
    var trace: seq<Event>

    constructor ()
      ensures breakPointMap == map[] && Status() == ExitStatus(false, -1) && trace == []
    {
      breakPointMap := map[];
      exited := false;
      exitCode := -1;
      trace := [];
    }

    function Status(): ExitStatus
      reads this
    {
      ExitStatus(exited, exitCode)
    }

    method SetExit(code: int)
      modifies `exited, `exitCode
      ensures Status() == ExitStatus(true, code)
    {
      exited := true;
      exitCode := code;
    }

    /** The loop of _init_bps: a refused breakpoint is skipped, any other unexpected
        answer is thrown on. */
    method InitBps(answers: seq<Inserted>) returns (r: Try<()>)
      requires breakPointMap == map[]
      modifies `breakPointMap
      ensures r.Ok? <==> forall k | 0 <= k < |answers| :: !answers[k].Unexpected?
      ensures r.Ok? ==> breakPointMap == Registered(answers)
      ensures r.Thrown? ==> exists k | 0 <= k < |answers| ::
                && answers[k] == Unexpected(r.error) && breakPointMap == Registered(answers[..k])
                && forall j | 0 <= j < k :: !answers[j].Unexpected?
    {
      for k := 0 to |answers|
        invariant forall j | 0 <= j < k :: !answers[j].Unexpected?
        invariant breakPointMap == Registered(answers[..k])
      {
        assert answers[..k + 1][..k] == answers[..k];
        match answers[k] {
          case Unexpected(error) => return Thrown(error);
          case Refused =>
          case Inserted(number) => breakPointMap := breakPointMap[number := k];
        }
      }
      assert answers[..|answers|] == answers;
      return Ok(());
    }

    /** The plug-in acting on the process through its frame. */
    method Invoke(env: Env, i: nat, num: int, breakPoint: nat, inv: Invocation)
      modifies `exited, `exitCode, `trace
      ensures trace == old(trace) + [Invoked(num, breakPoint, inv)]
      ensures Status() == SetExits(old(Status()), env.plugin(i, num, inv))
    {
      trace := trace + [Invoked(num, breakPoint, inv)];
      var codes := env.plugin(i, num, inv);
      for k := 0 to |codes|
        invariant Status() == SetExits(old(Status()), codes[..k])
        invariant trace == old(trace) + [Invoked(num, breakPoint, inv)]
      {
        SetExit(codes[k]);
      }
      assert codes[..|codes|] == codes;
    }

    /** The loop over the names of the arguments. */
    method CollectArgs(env: Env, i: nat, names: seq<string>, argsIn: seq<FrameArg>) returns (args: seq<Arg>)
      ensures args == BuildArgs(env, i, names, argsIn)
    {
      args := [];
      for k := 0 to |names|
        invariant args == BuildArgs(env, i, names, argsIn)[..k]
      {
        var found := FindArg(argsIn, names[k]);
        var arg := Arg("", NO_VAR);
        if found.Some? {
          arg := Arg(found.value.name, env.parseVar(i, found.value.name, found.value.value));
        }
        args := args + [arg];
      }
    }

    /** The argument names at a stop: from the map, or from stack_list_arguments and
        then into the map if the frame has an address. */
    method ArgNames(env: Env, i: nat, frame: Frame, argNameMap: Cache)
      returns (names: Try<seq<string>>, cache: Cache)
      modifies `trace
      ensures var l := LookupNames(env, true, i, frame, argNameMap);
              names == l.names && cache == l.cache && trace == old(trace) + l.queries
    {
      names, cache := Ok([]), argNameMap;
      if frame.args.Some? {
        if frame.addr.None? || frame.addr.value !in argNameMap {
          trace := trace + [Queried(frame.addr)];
          var reply := env.names(i);
          if reply.Thrown? {
            return Thrown(reply.error), cache;
          }
          names := Ok(if reply.value.Some? then reply.value.value else []);
          if frame.addr.Some? {
            cache := cache[frame.addr.value := names.value];
          }
        } else {
          names := Ok(argNameMap[frame.addr.value]);
        }
      }
    }

    /** The body of the loop, from reading the stop to the call of the plug-in. */
    method HandleStop(env: Env, i: nat, val: Stop, argNameMap: Cache)
      returns (ending: Option<Ending>, cache: Cache)
      requires val.reason == "breakpoint-hit"
      modifies `exited, `exitCode, `trace
      ensures var r := StopRound(env, breakPointMap, true, i, val, argNameMap, old(Status()));
              trace == old(trace) + r.events && ending == r.ending && cache == r.cache && Status() == r.exit
    {
      var hit := val.hit;
      if hit.Thrown? {
        return Some(Failed(hit.error)), argNameMap;
      }
      ending, cache := HandleHit(env, i, hit.value, argNameMap);
    }

    /** The frame object and the location for the plug-in. */
    method MakeInvocation(env: Env, i: nat, frame: Frame, names: seq<string>) returns (inv: Invocation)
      ensures inv == InvocationFor(env, i, frame, names)
    {
      var args := [];
      if frame.args.Some? {
        args := CollectArgs(env, i, names, frame.args.value);
      }
      var id := if frame.func.Some? then frame.func.value else "";
      var file := if frame.file.Some? then frame.file.value else "";
      var line := if frame.line.Some? then frame.line.value else -1;
      inv := Invocation(id, args, file, line);
    }

    method HandleHit(env: Env, i: nat, hit: Hit, argNameMap: Cache)
      returns (ending: Option<Ending>, cache: Cache)
      modifies `exited, `exitCode, `trace
      ensures var r := HitRound(env, breakPointMap, true, i, hit, argNameMap, old(Status()));
              trace == old(trace) + r.events && ending == r.ending && cache == r.cache && Status() == r.exit
    {
      var num, frame := hit.num, hit.frame;
      var names;
      names, cache := ArgNames(env, i, frame, argNameMap);
      if names.Thrown? {
        return Some(Failed(names.error)), cache;
      }
      var inv := MakeInvocation(env, i, frame, names.value);
      if num !in breakPointMap {
        return Some(NoBreakPoint(num)), cache;
      }
      Invoke(env, i, num, breakPointMap[num], inv);
      ending := if exited then Some(ByPlugin) else None;
    }

    /** The tests behind the loop. */
    method Finish(val: Stop) returns (ending: Ending)
      modifies `exited, `exitCode
      ensures (ending, Status()) == AfterLoop(val, old(Status()))
    {
      if val.reason == "exited-normally" {
        SetExit(0);
      }
      if val.reason == "exited" {
        var code := val.exitCode;
        if code.Thrown? {
          return Failed(code.error);
        }
        SetExit(code.value);
      }
      return Finished;
    }

    /** _handle_bps. */
    method HandleBps(env: Env) returns (ending: Ending)
      modifies `exited, `exitCode, `trace
      ensures var o := Run(env, breakPointMap, true, 0, map[], old(Status()));
              trace == old(trace) + o.trace && ending == o.ending && Status() == o.exit
    {
      ghost var whole := Since(trace, Run(env, breakPointMap, true, 0, map[], Status()));
      assert trace + [] == trace;
      if |env.stops| == 0 {
        return NoMoreStops;
      }
      var i := 0;
      ghost var front := trace;
      trace := trace + [Waited];
      var val := env.stops[0];
      var argNameMap: Cache := map[];
      while val.reason != "exited"
        invariant 0 <= i < |env.stops| && val == env.stops[i] && trace == front + [Waited]
        invariant whole == Since(front, Run(env, breakPointMap, true, i, argNameMap, Status()))
        decreases |env.stops| - i
      {
        RunStep(env, breakPointMap, true, i, argNameMap, Status(), front);
        if val.reason != "breakpoint-hit" {
          break;
        }
        var over;
        over, argNameMap := HandleStop(env, i, val, argNameMap);
        if over.Some? {
          return over.value;
        }
        trace := trace + [Continued];
        front := trace;
        i := i + 1;
        if i == |env.stops| {
          assert front + [] == front;
          return NoMoreStops;
        }
        trace := trace + [Waited];
        val := env.stops[i];
      }
      RunStep(env, breakPointMap, true, i, argNameMap, Status(), front);
      ending := Finish(val);
    }
  }
}
