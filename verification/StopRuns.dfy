/** Whole runs of the stop loop: their shape, their exit code, and the cache of
    argument names. */
module StopRuns {
  import opened MiReplies
  import opened Numbers
  import opened StopLoop

  // ---- The shape of a run ----

  datatype Kind = Wait | Call | Go

  /** A trace without its queries, by kind. */
  function Skeleton(trace: seq<Event>): seq<Kind> {
    if trace == [] then []
    else
      (match trace[0]
       case Waited => [Wait]
       case Queried(_) => []
       case Invoked(_, _, _) => [Call]
       case Continued => [Go]) + Skeleton(trace[1..])
  }

  function Rounds(n: nat): seq<Kind> {
    if n == 0 then [] else [Wait, Call, Go] + Rounds(n - 1)
  }

  /** What comes behind the complete rounds. */
  function LastKinds(ending: Ending): seq<Kind> {
    match ending
    case ByPlugin => [Wait, Call]
    case NoMoreStops => []
    case _ => [Wait]
  }

  lemma {:induction false} SkeletonConcat(a: seq<Event>, b: seq<Event>)
    ensures Skeleton(a + b) == Skeleton(a) + Skeleton(b)
  {
    if a == [] {
      assert a + b == b;
    } else {
      assert (a + b)[1..] == a[1..] + b;
      SkeletonConcat(a[1..], b);
    }
  }

  /** The queries of a hit are invisible here. */
  lemma HitSkeleton(env: Env, bps: map<int, nat>, cached: bool, i: nat, hit: Hit, cache: Cache, e: ExitStatus)
    ensures var r := HitRound(env, bps, cached, i, hit, cache, e);
            && Skeleton(r.events) == (if r.ending.None? || r.ending == Some(ByPlugin) then [Call] else [])
            && r.ending != Some(NoMoreStops)
  {
    var l := LookupNames(env, cached, i, hit.frame, cache);
    assert Skeleton(l.queries) == [] by {
      if l.queries != [] { assert l.queries[1..] == []; }
    }
    if l.names.Ok? && hit.num in bps {
      var call := Invoked(hit.num, bps[hit.num], InvocationFor(env, i, hit.frame, l.names.value));
      SkeletonConcat(l.queries, [call]);
      assert [call][1..] == [];
    }
  }

  lemma RoundSkeleton(env: Env, bps: map<int, nat>, cached: bool, i: nat, s: Stop, cache: Cache, e: ExitStatus)
    ensures var r := StopRound(env, bps, cached, i, s, cache, e);
            Skeleton([Waited] + r.events)
            == if r.ending.None? then [Wait, Call] else LastKinds(r.ending.value)
  {
    SkeletonConcat([Waited], StopRound(env, bps, cached, i, s, cache, e).events);
    assert [Waited][1..] == [];
    if s.reason == "breakpoint-hit" {
      var h := s.hit;
      if h.Ok? { HitSkeleton(env, bps, cached, i, h.value, cache, e); }
    }
  }

  lemma SkeletonRound(events: seq<Event>, rest: seq<Event>)
    ensures Skeleton(events + [Continued] + rest) == Skeleton(events) + [Go] + Skeleton(rest)
  {
    SkeletonConcat(events + [Continued], rest);
    SkeletonConcat(events, [Continued]);
    assert [Continued][1..] == [];
  }

  lemma OneMoreRound(n: nat, last: seq<Kind>)
    ensures [Wait, Call] + [Go] + (Rounds(n) + last) == Rounds(n + 1) + last
  {
  }

  /** `n` complete rounds, and the beginning of one more that tells the ending. */
  predicate HasShape(o: RunOutcome, n: nat) {
    Skeleton(o.trace) == Rounds(n) + LastKinds(o.ending)
  }

  lemma LastShape(o: RunOutcome)
    requires Skeleton(o.trace) == LastKinds(o.ending)
    ensures HasShape(o, 0)
  {
  }

  lemma ShapeStep(events: seq<Event>, rest: RunOutcome, m: nat)
    requires Skeleton(events) == [Wait, Call] && HasShape(rest, m)
    ensures HasShape(rest.(trace := events + [Continued] + rest.trace), m + 1)
  {
    SkeletonRound(events, rest.trace);
    OneMoreRound(m, LastKinds(rest.ending));
  }

  /** Every run is a number of complete rounds, wait, invoke, continue, and then the
      beginning of one more that tells how the run ended: an invocation without a
      continue if and only if a plug-in set the exit. */
  lemma {:induction false} RunShape(env: Env, bps: map<int, nat>, cached: bool, i: nat, cache: Cache, e: ExitStatus)
    returns (n: nat)
    ensures HasShape(Run(env, bps, cached, i, cache, e), n)
    decreases |env.stops| - i
  {
    var o := Run(env, bps, cached, i, cache, e);
    if i >= |env.stops| {
      LastShape(o);
      n := 0;
    } else {
      var r := StopRound(env, bps, cached, i, env.stops[i], cache, e);
      RoundSkeleton(env, bps, cached, i, env.stops[i], cache, e);
      if r.ending.None? {
        var m := RunShape(env, bps, cached, i + 1, r.cache, r.exit);
        ShapeStep([Waited] + r.events, Run(env, bps, cached, i + 1, r.cache, r.exit), m);
        n := m + 1;
      } else {
        LastShape(o);
        n := 0;
      }
    }
  }

  lemma {:induction false} RoundsCount(n: nat)
    ensures multiset(Rounds(n))[Call] == n && multiset(Rounds(n))[Go] == n
  {
    if n == 0 {
    } else {
      RoundsCount(n - 1);
      assert multiset([Wait, Call, Go])[Call] == 1 && multiset([Wait, Call, Go])[Go] == 1;
    }
  }

  /** Invocations and continues of every run: one more invocation exactly when a
      plug-in ended it, otherwise as many. */
  lemma CallsAndContinues(env: Env, bps: map<int, nat>, cached: bool, i: nat, cache: Cache, e: ExitStatus)
    ensures var o := Run(env, bps, cached, i, cache, e);
            var kinds := multiset(Skeleton(o.trace));
            kinds[Call] == kinds[Go] + if o.ending == ByPlugin then 1 else 0
  {
    var o := Run(env, bps, cached, i, cache, e);
    var n := RunShape(env, bps, cached, i, cache, e);
    RoundsCount(n);
    assert multiset(LastKinds(o.ending))[Call] == if o.ending == ByPlugin then 1 else 0;
    assert multiset(LastKinds(o.ending))[Go] == 0;
  }

  // ---- The exit code ----

  /** The status a run leaves, if it started with `e` and ended at stop `k`. */
  predicate ExitIsRight(env: Env, k: nat, o: RunOutcome, e: ExitStatus) {
    match o.ending
    case ByPlugin => ExitByPlugin(env, k, o)
    case Finished => k < |env.stops| && ExitByStop(env.stops[k], o.exit, e)
    case _ => o.exit == e
  }

  /** The last code the plug-in set at its last invocation. */
  predicate ExitByPlugin(env: Env, k: nat, o: RunOutcome) {
    && o.trace != [] && o.trace[|o.trace| - 1].Invoked?
    && var call := o.trace[|o.trace| - 1];
       var codes := env.plugin(k, call.num, call.invocation);
       codes != [] && o.exit == ExitStatus(true, codes[|codes| - 1])
  }

  /** 0 for "exited-normally", the octal "exit-code" for "exited", otherwise nothing. */
  predicate ExitByStop(s: Stop, exit: ExitStatus, e: ExitStatus) {
    && s.reason != "breakpoint-hit"
    && (s.reason == "exited-normally" ==> exit == ExitStatus(true, 0))
    && (s.reason == "exited" ==>
          exit.exited && s.exitCode == Ok(exit.code))
    && (s.reason != "exited-normally" && s.reason != "exited" ==> exit == e)
  }

  /** A hit sets nothing unless it ends the run. */
  lemma HitExit(env: Env, bps: map<int, nat>, cached: bool, i: nat, hit: Hit, cache: Cache, e: ExitStatus)
    requires !e.exited
    ensures var r := HitRound(env, bps, cached, i, hit, cache, e);
            && (r.ending != Some(ByPlugin) ==> r.exit == e) && r.ending != Some(Finished)
            && (r.ending == Some(ByPlugin) ==>
                  ExitByPlugin(env, i, RunOutcome([Waited] + r.events, ByPlugin, r.exit)))
  {
    var r := HitRound(env, bps, cached, i, hit, cache, e);
    if r.ending == Some(ByPlugin) {
      var t := [Waited] + r.events;
      assert t[|t| - 1] == r.events[|r.events| - 1];
    }
  }

  lemma RoundExit(env: Env, bps: map<int, nat>, cached: bool, i: nat, cache: Cache, e: ExitStatus)
    requires !e.exited && i < |env.stops|
    ensures var r := StopRound(env, bps, cached, i, env.stops[i], cache, e);
            if r.ending.None? then r.exit == e
            else ExitIsRight(env, i, RunOutcome([Waited] + r.events, r.ending.value, r.exit), e)
  {
    var s := env.stops[i];
    if s.reason == "breakpoint-hit" {
      var h := s.hit;
      if h.Ok? { HitExit(env, bps, cached, i, h.value, cache, e); }
    }
  }

  lemma LastEvent(front: seq<Event>, o: RunOutcome)
    ensures o.trace != [] ==> (front + o.trace)[|front + o.trace| - 1] == o.trace[|o.trace| - 1]
  {
  }

  /** The final status of every run that starts before any exit was set, with the
      stop at which the run ended. */
  lemma {:induction false} RunExit(env: Env, bps: map<int, nat>, cached: bool, i: nat, cache: Cache, e: ExitStatus)
    returns (k: nat)
    requires !e.exited
    ensures i <= k && ExitIsRight(env, k, Run(env, bps, cached, i, cache, e), e)
    decreases |env.stops| - i
  {
    k := i;
    if i >= |env.stops| {
    } else {
      RoundExit(env, bps, cached, i, cache, e);
      var r := StopRound(env, bps, cached, i, env.stops[i], cache, e);
      if r.ending.None? {
        k := RunExit(env, bps, cached, i + 1, r.cache, r.exit);
        LastEvent([Waited] + r.events + [Continued], Run(env, bps, cached, i + 1, r.cache, r.exit));
      }
    }
  }

  // ---- The cache ----

  /** A trace without its queries. */
  function Visible(trace: seq<Event>): seq<Event> {
    if trace == [] then []
    else (if trace[0].Queried? then [] else [trace[0]]) + Visible(trace[1..])
  }

  lemma {:induction false} VisibleConcat(a: seq<Event>, b: seq<Event>)
    ensures Visible(a + b) == Visible(a) + Visible(b)
  {
    if a == [] {
      assert a + b == b;
    } else {
      assert (a + b)[1..] == a[1..] + b;
      VisibleConcat(a[1..], b);
    }
  }

  /** The address of the frame at a stop, if names would be looked up by it. */
  function AddressAt(s: Stop): Option<nat> {
    if s.reason != "breakpoint-hit" then None
    else match s.hit
      case Thrown(_) => None
      case Ok(hit) => if hit.frame.args.None? then None else hit.frame.addr
  }

  /** The argument names at an address never change. */
  predicate Stable(env: Env) {
    forall i, j | 0 <= i < |env.stops| && 0 <= j < |env.stops|
                  && AddressAt(env.stops[i]).Some? && AddressAt(env.stops[i]) == AddressAt(env.stops[j]) ::
      env.names(i) == env.names(j)
  }

  function NamesOf(reply: Try<Option<seq<string>>>): seq<string> {
    if reply.Ok? && reply.value.Some? then reply.value.value else []
  }

  /** The cache holds what GDB would answer at every stop. */
  predicate Agrees(env: Env, cache: Cache) {
    forall i | 0 <= i < |env.stops| && AddressAt(env.stops[i]).Some? && AddressAt(env.stops[i]).value in cache ::
      env.names(i).Ok? && cache[AddressAt(env.stops[i]).value] == NamesOf(env.names(i))
  }

  /** One hit, with the names from the cache or from GDB. */
  lemma HitAgrees(env: Env, bps: map<int, nat>, i: nat, hit: Hit, cache: Cache, other: Cache, e: ExitStatus)
    requires hit.frame.args.Some? && hit.frame.addr.Some? && hit.frame.addr.value in cache ==>
      env.names(i).Ok? && cache[hit.frame.addr.value] == NamesOf(env.names(i))
    ensures var r := HitRound(env, bps, true, i, hit, cache, e);
            var u := HitRound(env, bps, false, i, hit, other, e);
            && Visible(r.events) == Visible(u.events) && r.ending == u.ending && r.exit == u.exit
            && (r.cache == cache
                || (hit.frame.args.Some? && hit.frame.addr.Some? && env.names(i).Ok?
                    && r.cache == cache[hit.frame.addr.value := NamesOf(env.names(i))]))
  {
    var l := LookupNames(env, true, i, hit.frame, cache);
    var u := LookupNames(env, false, i, hit.frame, other);
    assert l.names == u.names;
    assert Visible(l.queries) == [] by { if l.queries != [] { assert l.queries[1..] == []; } }
    assert Visible(u.queries) == [] by { if u.queries != [] { assert u.queries[1..] == []; } }
    if l.names.Ok? && hit.num in bps {
      var call := Invoked(hit.num, bps[hit.num], InvocationFor(env, i, hit.frame, l.names.value));
      VisibleConcat(l.queries, [call]);
      VisibleConcat(u.queries, [call]);
    }
  }

  lemma {:induction false} RoundAgrees(env: Env, bps: map<int, nat>, i: nat, cache: Cache, other: Cache, e: ExitStatus)
    requires Stable(env) && Agrees(env, cache) && i < |env.stops|
    ensures var r := StopRound(env, bps, true, i, env.stops[i], cache, e);
            var u := StopRound(env, bps, false, i, env.stops[i], other, e);
            && Visible(r.events) == Visible(u.events) && r.ending == u.ending && r.exit == u.exit
            && Agrees(env, r.cache)
  {
    var s := env.stops[i];
    if s.reason == "breakpoint-hit" {
      var h := s.hit;
      if h.Ok? {
        HitAgrees(env, bps, i, h.value, cache, other, e);
        var r := HitRound(env, bps, true, i, h.value, cache, e);
        if r.cache != cache {
          assert AddressAt(s) == h.value.frame.addr;
          CacheGrows(env, i, cache);
        }
      }
    }
  }

  lemma CacheGrows(env: Env, i: nat, cache: Cache)
    requires Stable(env) && Agrees(env, cache) && i < |env.stops|
    requires AddressAt(env.stops[i]).Some? && env.names(i).Ok?
    ensures Agrees(env, cache[AddressAt(env.stops[i]).value := NamesOf(env.names(i))])
  {
  }

  /** Cache agreement: if names at an address never change, the run with the cache
      and the run that asks at every stop make the same invocations with the same
      arguments, end alike and leave the same exit status. */
  lemma {:induction false} CacheAgrees(env: Env, bps: map<int, nat>, i: nat, cache: Cache, other: Cache, e: ExitStatus)
    requires Stable(env) && Agrees(env, cache)
    ensures var o := Run(env, bps, true, i, cache, e);
            var u := Run(env, bps, false, i, other, e);
            Visible(o.trace) == Visible(u.trace) && o.ending == u.ending && o.exit == u.exit
    decreases |env.stops| - i
  {
    if i >= |env.stops| {
    } else {
      RoundAgrees(env, bps, i, cache, other, e);
      var r := StopRound(env, bps, true, i, env.stops[i], cache, e);
      var u := StopRound(env, bps, false, i, env.stops[i], other, e);
      VisibleConcat([Waited], r.events);
      VisibleConcat([Waited], u.events);
      if r.ending.None? {
        CacheAgrees(env, bps, i + 1, r.cache, u.cache, r.exit);
        VisibleRound(r.events, Run(env, bps, true, i + 1, r.cache, r.exit).trace);
        VisibleRound(u.events, Run(env, bps, false, i + 1, u.cache, u.exit).trace);
      }
    }
  }

  lemma VisibleRound(events: seq<Event>, rest: seq<Event>)
    ensures Visible([Waited] + events + [Continued] + rest)
         == [Waited] + Visible(events) + [Continued] + Visible(rest)
  {
    VisibleConcat([Waited] + events + [Continued], rest);
    VisibleConcat([Waited] + events, [Continued]);
    VisibleConcat([Waited], events);
  }

  /** How often the names at an address are asked for. */
  function Queries(trace: seq<Event>, addr: nat): nat {
    if trace == [] then 0
    else (if trace[0] == Queried(Some(addr)) then 1 else 0) + Queries(trace[1..], addr)
  }

  lemma {:induction false} QueriesConcat(a: seq<Event>, b: seq<Event>, addr: nat)
    ensures Queries(a + b, addr) == Queries(a, addr) + Queries(b, addr)
  {
    if a == [] {
      assert a + b == b;
    } else {
      assert (a + b)[1..] == a[1..] + b;
      QueriesConcat(a[1..], b, addr);
    }
  }

  lemma HitQueries(env: Env, bps: map<int, nat>, i: nat, hit: Hit, cache: Cache, e: ExitStatus, addr: nat)
    ensures var r := HitRound(env, bps, true, i, hit, cache, e);
            && Queries(r.events, addr) <= (if addr in cache then 0 else 1)
            && (addr in cache ==> addr in r.cache)
            && (r.ending.None? && Queries(r.events, addr) > 0 ==> addr in r.cache)
  {
    var l := LookupNames(env, true, i, hit.frame, cache);
    if l.queries != [] {
      assert l.queries == [Queried(hit.frame.addr)] && l.queries[1..] == [];
    }
    if l.names.Ok? && hit.num in bps {
      var call := Invoked(hit.num, bps[hit.num], InvocationFor(env, i, hit.frame, l.names.value));
      QueriesConcat(l.queries, [call], addr);
      assert [call][1..] == [];
    }
  }

  lemma RoundQueries(env: Env, bps: map<int, nat>, i: nat, s: Stop, cache: Cache, e: ExitStatus, addr: nat)
    ensures var r := StopRound(env, bps, true, i, s, cache, e);
            && Queries(r.events, addr) <= (if addr in cache then 0 else 1)
            && (addr in cache ==> addr in r.cache)
            && (r.ending.None? && Queries(r.events, addr) > 0 ==> addr in r.cache)
  {
    if s.reason == "breakpoint-hit" {
      var h := s.hit;
      if h.Ok? { HitQueries(env, bps, i, h.value, cache, e, addr); }
    }
  }

  /** With the cache, the names at a known address are asked for at most once in a
      run, and never if the cache already has them. */
  lemma {:induction false} AskedOnce(env: Env, bps: map<int, nat>, i: nat, cache: Cache, e: ExitStatus, addr: nat)
    ensures Queries(Run(env, bps, true, i, cache, e).trace, addr) <= (if addr in cache then 0 else 1)
    decreases |env.stops| - i
  {
    if i >= |env.stops| {
    } else {
      var r := StopRound(env, bps, true, i, env.stops[i], cache, e);
      RoundQueries(env, bps, i, env.stops[i], cache, e, addr);
      QueriesConcat([Waited], r.events, addr);
      assert Queries([Waited], addr) == 0 == Queries([Continued], addr);
      if r.ending.None? {
        var rest := Run(env, bps, true, i + 1, r.cache, r.exit).trace;
        AskedOnce(env, bps, i + 1, r.cache, r.exit, addr);
        QueriesConcat([Waited] + r.events + [Continued], rest, addr);
        QueriesConcat([Waited] + r.events, [Continued], addr);
      }
    }
  }

  // ---- Breakpoints ----

  /** The map after _init_bps: a number leads to the last breakpoint that was given
      it, so with distinct numbers each one leads to its own breakpoint. */
  lemma {:induction false} RegisteredExact(answers: seq<Inserted>, num: int)
    ensures var m := Registered(answers);
            && (num in m <==> Inserted(num) in answers)
            && (num in m ==> m[num] < |answers| && answers[m[num]] == Inserted(num)
                             && Inserted(num) !in answers[m[num] + 1..])
  {
    if answers == [] {
    } else {
      var n := |answers| - 1;
      RegisteredExact(answers[..n], num);
      assert answers == answers[..n] + [answers[n]];
      var m := Registered(answers);
      if num in m && answers[n] != Inserted(num) {
        assert answers[m[num] + 1..] == answers[..n][m[num] + 1..] + [answers[n]];
      }
    }
  }

  /** The calls in a trace go to registered breakpoints. */
  predicate Dispatched(trace: seq<Event>, bps: map<int, nat>) {
    trace != [] ==>
      && (trace[0].Invoked? ==> trace[0].num in bps && bps[trace[0].num] == trace[0].breakPoint)
      && Dispatched(trace[1..], bps)
  }

  lemma {:induction false} DispatchedConcat(a: seq<Event>, b: seq<Event>, bps: map<int, nat>)
    ensures Dispatched(a + b, bps) <==> Dispatched(a, bps) && Dispatched(b, bps)
  {
    if a == [] {
      assert a + b == b;
    } else {
      assert (a + b)[1..] == a[1..] + b;
      DispatchedConcat(a[1..], b, bps);
    }
  }

  lemma HitDispatched(env: Env, bps: map<int, nat>, cached: bool, i: nat, hit: Hit, cache: Cache, e: ExitStatus)
    ensures Dispatched(HitRound(env, bps, cached, i, hit, cache, e).events, bps)
  {
    var l := LookupNames(env, cached, i, hit.frame, cache);
    assert Dispatched(l.queries, bps) by { if l.queries != [] { assert l.queries[1..] == []; } }
    if l.names.Ok? && hit.num in bps {
      var call := Invoked(hit.num, bps[hit.num], InvocationFor(env, i, hit.frame, l.names.value));
      DispatchedConcat(l.queries, [call], bps);
      assert [call][1..] == [];
    }
  }

  lemma RoundDispatched(env: Env, bps: map<int, nat>, cached: bool, i: nat, s: Stop, cache: Cache, e: ExitStatus)
    ensures Dispatched([Waited] + StopRound(env, bps, cached, i, s, cache, e).events, bps)
  {
    DispatchedConcat([Waited], StopRound(env, bps, cached, i, s, cache, e).events, bps);
    assert [Waited][1..] == [];
    if s.reason == "breakpoint-hit" {
      var h := s.hit;
      if h.Ok? { HitDispatched(env, bps, cached, i, h.value, cache, e); }
    }
  }

  lemma {:induction false} RunDispatched(env: Env, bps: map<int, nat>, cached: bool, i: nat, cache: Cache,
        e: ExitStatus)
    ensures Dispatched(Run(env, bps, cached, i, cache, e).trace, bps)
    decreases |env.stops| - i
  {
    if i >= |env.stops| {
    } else {
      RoundDispatched(env, bps, cached, i, env.stops[i], cache, e);
      var r := StopRound(env, bps, cached, i, env.stops[i], cache, e);
      if r.ending.None? {
        RunDispatched(env, bps, cached, i + 1, r.cache, r.exit);
        DispatchedRound([Waited] + r.events, Run(env, bps, cached, i + 1, r.cache, r.exit).trace, bps);
      }
    }
  }

  lemma DispatchedRound(events: seq<Event>, rest: seq<Event>, bps: map<int, nat>)
    requires Dispatched(events, bps) && Dispatched(rest, bps)
    ensures Dispatched(events + [Continued] + rest, bps)
  {
    DispatchedConcat(events + [Continued], rest, bps);
    DispatchedConcat(events, [Continued], bps);
    assert [Continued][1..] == [];
  }

  lemma {:induction false} DispatchedAt(trace: seq<Event>, bps: map<int, nat>, k: nat)
    requires Dispatched(trace, bps) && k < |trace| && trace[k].Invoked?
    ensures trace[k].num in bps && bps[trace[k].num] == trace[k].breakPoint
  {
    if k == 0 {
    } else {
      DispatchedAt(trace[1..], bps, k - 1);
    }
  }

  /** Every invocation in a run goes to the breakpoint registered for its number: the
      last one that GDB confirmed under this very number. */
  lemma {:induction false} CallsAreDispatched(env: Env, answers: seq<Inserted>, cached: bool, i: nat, cache: Cache,
        e: ExitStatus, k: nat)
    requires k < |Run(env, Registered(answers), cached, i, cache, e).trace|
    ensures var event := Run(env, Registered(answers), cached, i, cache, e).trace[k];
            event.Invoked? ==>
              event.breakPoint < |answers| && answers[event.breakPoint] == Inserted(event.num)
              && Inserted(event.num) !in answers[event.breakPoint + 1..]
  {
    var bps := Registered(answers);
    var trace := Run(env, bps, cached, i, cache, e).trace;
    RunDispatched(env, bps, cached, i, cache, e);
    if trace[k].Invoked? {
      DispatchedAt(trace, bps, k);
      RegisteredExact(answers, trace[k].num);
    }
  }

  // ---- What the plug-in is given ----

  /** The arguments follow the names: same number, same order; each has its name and
      the value parse_var makes of the text of the frame's first argument of that name,
      or is empty if the frame has none. Arguments of the frame that are no names are
      dropped. */
  predicate FollowNames(env: Env, i: nat, names: seq<string>, args: seq<FrameArg>, out: seq<Arg>) {
    && |out| == |names|
    && (forall k | 0 <= k < |names| ::
          if exists x | x in args :: x.name == names[k]
          then exists j: nat | j < |args| :: FirstNamed(args, j, names[k])
                 && out[k] == Arg(names[k], env.parseVar(i, names[k], args[j].value))
          else out[k] == Arg("", NO_VAR))
    && (forall a | a in out :: a.id != "" ==> a.id in names)
  }

  lemma ArgsFollowNames(env: Env, i: nat, names: seq<string>, args: seq<FrameArg>)
    ensures FollowNames(env, i, names, args, BuildArgs(env, i, names, args))
  {
    var out := BuildArgs(env, i, names, args);
    forall k | 0 <= k < |names|
      ensures if exists x | x in args :: x.name == names[k]
              then exists j: nat | j < |args| :: FirstNamed(args, j, names[k])
                     && out[k] == Arg(names[k], env.parseVar(i, names[k], args[j].value))
              else out[k] == Arg("", NO_VAR)
    {
      var found := FindArg(args, names[k]);
      assert out[k] == ArgFor(env, i, args, names[k]);
      if found.Some? {
        var j: nat :| FirstNamed(args, j, names[k]) && args[j] == found.value;
      }
    }
  }

  // ---- What each stop is answered with, told from the stops ----

  /** The first stop from `i` on at which the names at `addr` are needed, at most `j`. */
  function FirstNeed(env: Env, i: nat, j: nat, addr: nat): nat
    requires i <= j
    decreases j - i
  {
    if i == j || (i < |env.stops| && AddressAt(env.stops[i]) == Some(addr)) then i
    else FirstNeed(env, i + 1, j, addr)
  }

  function NamesAnswer(reply: Try<Option<seq<string>>>): Try<seq<string>> {
    match reply
    case Thrown(error) => Thrown(error)
    case Ok(_) => Ok(NamesOf(reply))
  }

  /** The names of the arguments at stop `j` of a run that starts at stop `i`: GDB's answer
      there, or with the cache its first answer for the address. */
  function NamesFor(env: Env, cached: bool, cache: Cache, i: nat, j: nat, frame: Frame): Try<seq<string>>
    requires i <= j
  {
    if frame.args.None? then Ok([])
    else if !cached || frame.addr.None? then NamesAnswer(env.names(j))
    else if frame.addr.value in cache then Ok(cache[frame.addr.value])
    else NamesAnswer(env.names(FirstNeed(env, i, j, frame.addr.value)))
  }

  predicate Asks(env: Env, cached: bool, cache: Cache, i: nat, j: nat, frame: Frame)
    requires i <= j
  {
    && frame.args.Some?
    && (cached && frame.addr.Some? ==>
          frame.addr.value !in cache && FirstNeed(env, i, j, frame.addr.value) == j)
  }

  /** Stop `j` is a hit that can be read, and its names are known. */
  predicate Ready(env: Env, cached: bool, cache: Cache, i: nat, j: nat)
    requires i <= j < |env.stops|
  {
    var s := env.stops[j];
    s.reason == "breakpoint-hit" && s.hit.Ok? && NamesFor(env, cached, cache, i, j, s.hit.value.frame).Ok?
  }

  /** What a plug-in is told about a frame. */
  predicate Describes(env: Env, j: nat, frame: Frame, names: seq<string>, inv: Invocation) {
    && inv.id == (if frame.func.Some? then frame.func.value else "")
    && inv.file == (if frame.file.Some? then frame.file.value else "")
    && inv.line == (if frame.line.Some? then frame.line.value else -1)
    && (if frame.args.Some? then FollowNames(env, j, names, frame.args.value, inv.args) else inv.args == [])
  }

  /** The call for stop `j`: the breakpoint registered for its number, with its frame. */
  predicate Answers(env: Env, bps: map<int, nat>, cached: bool, cache: Cache, i: nat, j: nat, call: Event)
    requires i <= j
  {
    && j < |env.stops| && Ready(env, cached, cache, i, j)
    && var hit := env.stops[j].hit.value;
       && call.Invoked? && call.num == hit.num && hit.num in bps && call.breakPoint == bps[hit.num]
       && Describes(env, j, hit.frame, NamesFor(env, cached, cache, i, j, hit.frame).value, call.invocation)
  }

  /** Reading stop `j`, asking for its names or reading its exit code throws `x`. */
  predicate Throws(env: Env, cached: bool, cache: Cache, i: nat, j: nat, x: Error)
    requires i <= j < |env.stops|
  {
    var s := env.stops[j];
    if s.reason == "breakpoint-hit" then
      match s.hit
      case Thrown(error) => error == x
      case Ok(hit) => NamesFor(env, cached, cache, i, j, hit.frame) == Thrown(x)
    else s.reason == "exited" && s.exitCode == Thrown(x)
  }

  /** The run ends at stop `j` as that stop demands. */
  ghost predicate EndsRight(env: Env, bps: map<int, nat>, cached: bool, cache: Cache, i: nat, j: nat, ending: Ending)
    requires i <= j
  {
    && (ending == NoMoreStops <==> j >= |env.stops|)
    && (j < |env.stops| ==>
          var s := env.stops[j];
          && (ending == ByPlugin <==> Ready(env, cached, cache, i, j) && s.hit.value.num in bps)
          && (forall num :: ending == NoBreakPoint(num) <==>
                Ready(env, cached, cache, i, j) && s.hit.value.num == num && num !in bps)
          && (forall x :: ending == Failed(x) <==> Throws(env, cached, cache, i, j, x))
          && (ending == Finished <==>
                s.reason != "breakpoint-hit" && (s.reason == "exited" ==> s.exitCode.Ok?)))
  }

  /** The invocations in a trace. */
  function Calls(trace: seq<Event>): (calls: seq<Event>)
    ensures forall k | 0 <= k < |calls| :: calls[k].Invoked?
  {
    if trace == [] then []
    else if trace[0].Invoked? then [trace[0]] + Calls(trace[1..])
    else Calls(trace[1..])
  }

  /** The questions for names in a trace. */
  function Questions(trace: seq<Event>): seq<Event> {
    if trace == [] then []
    else if trace[0].Queried? then [trace[0]] + Questions(trace[1..])
    else Questions(trace[1..])
  }

  /** How often the process is continued. */
  function Continues(trace: seq<Event>): nat {
    if trace == [] then 0 else (if trace[0].Continued? then 1 else 0) + Continues(trace[1..])
  }

  lemma {:induction false} TraceConcat(a: seq<Event>, b: seq<Event>)
    ensures Calls(a + b) == Calls(a) + Calls(b)
    ensures Questions(a + b) == Questions(a) + Questions(b)
    ensures Continues(a + b) == Continues(a) + Continues(b)
  {
    if a == [] {
      assert a + b == b;
    } else {
      assert (a + b)[1..] == a[1..] + b;
      TraceConcat(a[1..], b);
    }
  }

  lemma OneEvent(e: Event)
    ensures Calls([e]) == (if e.Invoked? then [e] else [])
    ensures Questions([e]) == (if e.Queried? then [e] else [])
    ensures Continues([e]) == if e.Continued? then 1 else 0
  {
    assert [e][1..] == [];
  }

  /** The names looked up at a stop are those for it. */
  lemma NamesHere(env: Env, cached: bool, i: nat, frame: Frame, cache: Cache)
    ensures var l := LookupNames(env, cached, i, frame, cache);
            && l.names == NamesFor(env, cached, cache, i, i, frame)
            && l.queries == (if Asks(env, cached, cache, i, i, frame) then [Queried(frame.addr)] else [])
            && Calls(l.queries) == [] && Questions(l.queries) == l.queries && Continues(l.queries) == 0
  {
    OneEvent(Queried(frame.addr));
  }

  /** Later stops find the same names whether the run starts here or at the next stop. */
  lemma NamesLater(env: Env, cached: bool, cache: Cache, i: nat, j: nat, frame: Frame)
    requires i < j < |env.stops| && env.stops[i].reason == "breakpoint-hit" && env.stops[i].hit.Ok?
    requires LookupNames(env, cached, i, env.stops[i].hit.value.frame, cache).names.Ok?
    ensures var next := LookupNames(env, cached, i, env.stops[i].hit.value.frame, cache).cache;
            && NamesFor(env, cached, next, i + 1, j, frame) == NamesFor(env, cached, cache, i, j, frame)
            && (Asks(env, cached, next, i + 1, j, frame) <==> Asks(env, cached, cache, i, j, frame))
  {
    if cached && frame.args.Some? && frame.addr.Some? && frame.addr.value !in cache {
      FirstNeedIsNeeded(env, i + 1, j, frame.addr.value);
    }
  }

  lemma {:induction false} FirstNeedIsNeeded(env: Env, i: nat, j: nat, addr: nat)
    requires i <= j
    ensures i <= FirstNeed(env, i, j, addr) <= j
    decreases j - i
  {
    if i == j || (i < |env.stops| && AddressAt(env.stops[i]) == Some(addr)) {
    } else {
      FirstNeedIsNeeded(env, i + 1, j, addr);
    }
  }

  lemma Described(env: Env, j: nat, frame: Frame, names: seq<string>)
    ensures Describes(env, j, frame, names, InvocationFor(env, j, frame, names))
  {
    if frame.args.Some? { ArgsFollowNames(env, j, names, frame.args.value); }
  }

  /** One stop: answered by one call, or the end of the run. */
  ghost predicate RoundAccounted(env: Env, bps: map<int, nat>, cached: bool, i: nat, cache: Cache, r: Round)
    requires i < |env.stops|
  {
    var calls := Calls(r.events);
    && Continues(r.events) == 0
    && Questions(r.events) == QuestionAt(env, cached, cache, i, i)
    && (if r.ending.None? || r.ending == Some(ByPlugin)
        then |calls| == 1 && Answers(env, bps, cached, cache, i, i, calls[0])
             && (r.ending.None? <==> env.plugin(i, calls[0].num, calls[0].invocation) == [])
        else calls == [])
    && (r.ending.Some? ==> EndsRight(env, bps, cached, cache, i, i, r.ending.value))
  }

  /** The question for names at stop `j`, if there is one. */
  function QuestionAt(env: Env, cached: bool, cache: Cache, i: nat, j: nat): seq<Event>
    requires i <= j < |env.stops|
  {
    var s := env.stops[j];
    if s.reason == "breakpoint-hit" && s.hit.Ok? && Asks(env, cached, cache, i, j, s.hit.value.frame)
    then [Queried(s.hit.value.frame.addr)] else []
  }

  /** Those of the stops from `lo` to `hi`. */
  function QuestionsFor(env: Env, cached: bool, cache: Cache, i: nat, lo: nat, hi: nat): seq<Event>
    requires i <= lo && hi <= |env.stops|
    decreases hi - lo
  {
    if lo >= hi then []
    else QuestionAt(env, cached, cache, i, lo) + QuestionsFor(env, cached, cache, i, lo + 1, hi)
  }

  /** The call a hit leads to. */
  function CallFor(env: Env, bps: map<int, nat>, i: nat, hit: Hit, names: seq<string>): Event
    requires hit.num in bps
  {
    Invoked(hit.num, bps[hit.num], InvocationFor(env, i, hit.frame, names))
  }

  lemma {:induction false} HitEvents(env: Env, bps: map<int, nat>, cached: bool, i: nat, hit: Hit, cache: Cache,
        e: ExitStatus)
    ensures var r := HitRound(env, bps, cached, i, hit, cache, e);
            var names := NamesFor(env, cached, cache, i, i, hit.frame);
            && Calls(r.events)
               == (if names.Ok? && hit.num in bps then [CallFor(env, bps, i, hit, names.value)] else [])
            && Questions(r.events)
               == (if Asks(env, cached, cache, i, i, hit.frame) then [Queried(hit.frame.addr)] else [])
            && Continues(r.events) == 0
  {
    var l := LookupNames(env, cached, i, hit.frame, cache);
    NamesHere(env, cached, i, hit.frame, cache);
    if l.names.Ok? && hit.num in bps {
      var call := CallFor(env, bps, i, hit, l.names.value);
      TraceConcat(l.queries, [call]);
      OneEvent(call);
    }
  }

  lemma {:induction false} HitAnswer(env: Env, bps: map<int, nat>, cached: bool, i: nat, cache: Cache)
    requires i < |env.stops| && Ready(env, cached, cache, i, i) && env.stops[i].hit.value.num in bps
    ensures var hit := env.stops[i].hit.value;
            var names := NamesFor(env, cached, cache, i, i, hit.frame).value;
            Answers(env, bps, cached, cache, i, i, CallFor(env, bps, i, hit, names))
  {
    var hit := env.stops[i].hit.value;
    Described(env, i, hit.frame, NamesFor(env, cached, cache, i, i, hit.frame).value);
  }

  /** How a hit ends, if it does. */
  lemma {:induction false} HitEnding(env: Env, bps: map<int, nat>, cached: bool, i: nat, hit: Hit, cache: Cache,
        e: ExitStatus)
    requires !e.exited
    ensures var r := HitRound(env, bps, cached, i, hit, cache, e);
            var names := NamesFor(env, cached, cache, i, i, hit.frame);
            r.ending
            == if names.Thrown? then Some(Failed(names.error))
               else if hit.num !in bps then Some(NoBreakPoint(hit.num))
               else var call := CallFor(env, bps, i, hit, names.value);
                    if env.plugin(i, call.num, call.invocation) == [] then None else Some(ByPlugin)
  {
    NamesHere(env, cached, i, hit.frame, cache);
  }

  lemma {:induction false} HitAccount(env: Env, bps: map<int, nat>, cached: bool, i: nat, cache: Cache, e: ExitStatus)
    requires i < |env.stops| && !e.exited
    requires env.stops[i].reason == "breakpoint-hit" && env.stops[i].hit.Ok?
    ensures RoundAccounted(env, bps, cached, i, cache, HitRound(env, bps, cached, i, env.stops[i].hit.value, cache, e))
  {
    var hit := env.stops[i].hit.value;
    HitEvents(env, bps, cached, i, hit, cache, e);
    HitEnding(env, bps, cached, i, hit, cache, e);
    if Ready(env, cached, cache, i, i) && hit.num in bps { HitAnswer(env, bps, cached, i, cache); }
    HitEndsRight(env, bps, cached, i, cache);
  }

  /** What the ending of a hit has to be, if it ends the run. */
  lemma {:induction false} HitEndsRight(env: Env, bps: map<int, nat>, cached: bool, i: nat, cache: Cache)
    requires i < |env.stops| && env.stops[i].reason == "breakpoint-hit" && env.stops[i].hit.Ok?
    ensures var hit := env.stops[i].hit.value;
            var names := NamesFor(env, cached, cache, i, i, hit.frame);
            EndsRight(env, bps, cached, cache, i, i,
              if names.Thrown? then Failed(names.error)
              else if hit.num !in bps then NoBreakPoint(hit.num) else ByPlugin)
  {
  }

  lemma RoundAccount(env: Env, bps: map<int, nat>, cached: bool, i: nat, cache: Cache, e: ExitStatus)
    requires i < |env.stops| && !e.exited
    ensures RoundAccounted(env, bps, cached, i, cache, StopRound(env, bps, cached, i, env.stops[i], cache, e))
  {
    var s := env.stops[i];
    if s.reason == "breakpoint-hit" && s.hit.Ok? { HitAccount(env, bps, cached, i, cache, e); }
  }

  /** The account of a run, told from its stops: one call for each of them, in order. */
  ghost predicate Accounted(env: Env, bps: map<int, nat>, cached: bool, i: nat, cache: Cache, o: RunOutcome) {
    var calls, n := Calls(o.trace), Continues(o.trace);
    && |calls| == n + (if o.ending == ByPlugin then 1 else 0)
    && Answered(env, bps, cached, cache, i, calls, n)
    && EndsRight(env, bps, cached, cache, i, i + n, o.ending)
  }

  /** Call `k` is for the `k`-th stop, and the first `n` plug-ins set no exit. */
  ghost predicate Answered(env: Env, bps: map<int, nat>, cached: bool, cache: Cache, i: nat, calls: seq<Event>,
        n: nat) {
    forall k | 0 <= k < |calls| ::
      && Answers(env, bps, cached, cache, i, i + k, calls[k])
      && (env.plugin(i + k, calls[k].num, calls[k].invocation) == [] <==> k < n)
  }

  lemma {:induction false} EndsLater(env: Env, bps: map<int, nat>, cached: bool, cache: Cache, i: nat, j: nat,
        ending: Ending)
    requires i < j && i < |env.stops| && env.stops[i].reason == "breakpoint-hit" && env.stops[i].hit.Ok?
    requires LookupNames(env, cached, i, env.stops[i].hit.value.frame, cache).names.Ok?
    requires EndsRight(env, bps, cached, LookupNames(env, cached, i, env.stops[i].hit.value.frame, cache).cache,
                       i + 1, j, ending)
    ensures EndsRight(env, bps, cached, cache, i, j, ending)
  {
    if j < |env.stops| {
      var s := env.stops[j];
      if s.hit.Ok? { NamesLater(env, cached, cache, i, j, s.hit.value.frame); }
    }
  }

  /** The trace of a round that does not end the run. */
  lemma {:induction false} StepTrace(events: seq<Event>, rest: seq<Event>)
    ensures var trace := [Waited] + events + [Continued] + rest;
            && Calls(trace) == Calls(events) + Calls(rest)
            && Questions(trace) == Questions(events) + Questions(rest)
            && Continues(trace) == Continues(events) + 1 + Continues(rest)
  {
    TraceConcat([Waited] + events + [Continued], rest);
    TraceConcat([Waited] + events, [Continued]);
    TraceConcat([Waited], events);
    OneEvent(Waited);
    OneEvent(Continued);
  }

  lemma {:induction false} LastTrace(events: seq<Event>)
    ensures var trace := [Waited] + events;
            && Calls(trace) == Calls(events) && Questions(trace) == Questions(events)
            && Continues(trace) == Continues(events)
  {
    TraceConcat([Waited], events);
    OneEvent(Waited);
  }

  lemma {:induction false} AnswersLater(env: Env, bps: map<int, nat>, cached: bool, cache: Cache, i: nat, j: nat,
        call: Event)
    requires i < j && i < |env.stops| && env.stops[i].reason == "breakpoint-hit" && env.stops[i].hit.Ok?
    requires LookupNames(env, cached, i, env.stops[i].hit.value.frame, cache).names.Ok?
    requires Answers(env, bps, cached, LookupNames(env, cached, i, env.stops[i].hit.value.frame, cache).cache,
                     i + 1, j, call)
    ensures Answers(env, bps, cached, cache, i, j, call)
  {
    NamesLater(env, cached, cache, i, j, env.stops[j].hit.value.frame);
  }

  lemma {:induction false} AnsweredStep(env: Env, bps: map<int, nat>, cached: bool, cache: Cache, i: nat, call: Event,
        more: seq<Event>, n: nat)
    requires i < |env.stops| && env.stops[i].reason == "breakpoint-hit" && env.stops[i].hit.Ok?
    requires LookupNames(env, cached, i, env.stops[i].hit.value.frame, cache).names.Ok?
    requires Answers(env, bps, cached, cache, i, i, call) && env.plugin(i, call.num, call.invocation) == []
    requires Answered(env, bps, cached, LookupNames(env, cached, i, env.stops[i].hit.value.frame, cache).cache,
                      i + 1, more, n)
    ensures Answered(env, bps, cached, cache, i, [call] + more, n + 1)
  {
    var calls := [call] + more;
    forall k | 0 <= k < |calls|
      ensures Answers(env, bps, cached, cache, i, i + k, calls[k])
      ensures env.plugin(i + k, calls[k].num, calls[k].invocation) == [] <==> k < n + 1
    {
      if k == 0 {
        assert calls[k] == call && i + k == i;
      } else {
        assert calls[k] == more[k - 1] && i + k == i + 1 + (k - 1);
        AnswersLater(env, bps, cached, cache, i, i + k, more[k - 1]);
      }
    }
  }

  /** A completed round in front of an accounted run. */
  lemma {:induction false} AccountStep(env: Env, bps: map<int, nat>, cached: bool, i: nat, cache: Cache,
        events: seq<Event>, call: Event, rest: RunOutcome)
    requires i < |env.stops| && env.stops[i].reason == "breakpoint-hit" && env.stops[i].hit.Ok?
    requires LookupNames(env, cached, i, env.stops[i].hit.value.frame, cache).names.Ok?
    requires Calls(events) == [call] && Continues(events) == 0
    requires Answers(env, bps, cached, cache, i, i, call) && env.plugin(i, call.num, call.invocation) == []
    requires Accounted(env, bps, cached, i + 1, LookupNames(env, cached, i, env.stops[i].hit.value.frame, cache).cache,
                       rest)
    ensures Accounted(env, bps, cached, i, cache,
                      RunOutcome([Waited] + events + [Continued] + rest.trace, rest.ending, rest.exit))
  {
    var more, n := Calls(rest.trace), Continues(rest.trace);
    var trace := [Waited] + events + [Continued] + rest.trace;
    assert Calls(trace) == [call] + more && Continues(trace) == n + 1 by { StepTrace(events, rest.trace); }
    assert Answered(env, bps, cached, cache, i, [call] + more, n + 1) by {
      AnsweredStep(env, bps, cached, cache, i, call, more, n);
    }
    assert EndsRight(env, bps, cached, cache, i, i + (n + 1), rest.ending) by {
      assert i + 1 + n == i + (n + 1);
      EndsLater(env, bps, cached, cache, i, i + (n + 1), rest.ending);
    }
  }

  /** A run from its first stop. */
  lemma {:induction false} RunFirst(env: Env, bps: map<int, nat>, cached: bool, i: nat, cache: Cache, e: ExitStatus)
    requires i < |env.stops|
    ensures var r := StopRound(env, bps, cached, i, env.stops[i], cache, e);
            var rest := Run(env, bps, cached, i + 1, r.cache, r.exit);
            Run(env, bps, cached, i, cache, e)
            == if r.ending.Some? then RunOutcome([Waited] + r.events, r.ending.value, r.exit)
               else RunOutcome([Waited] + r.events + [Continued] + rest.trace, rest.ending, rest.exit)
  {
  }

  lemma {:induction false} RoundTold(env: Env, bps: map<int, nat>, cached: bool, i: nat, cache: Cache, e: ExitStatus)
    requires i < |env.stops| && !e.exited
    ensures var r := StopRound(env, bps, cached, i, env.stops[i], cache, e);
            && Continues(r.events) == 0 && Questions(r.events) == QuestionAt(env, cached, cache, i, i)
            && (r.ending.None? ==>
                  && r.exit == e && |Calls(r.events)| == 1
                  && var call := Calls(r.events)[0];
                     Answers(env, bps, cached, cache, i, i, call) && env.plugin(i, call.num, call.invocation) == [])
  {
    RoundAccount(env, bps, cached, i, cache, e);
    RoundExit(env, bps, cached, i, cache, e);
  }

  lemma {:induction false} LastAccount(env: Env, bps: map<int, nat>, cached: bool, i: nat, cache: Cache, r: Round)
    requires i < |env.stops| && r.ending.Some? && RoundAccounted(env, bps, cached, i, cache, r)
    ensures Accounted(env, bps, cached, i, cache, RunOutcome([Waited] + r.events, r.ending.value, r.exit))
  {
    LastTrace(r.events);
    var calls := Calls([Waited] + r.events);
    forall k | 0 <= k < |calls|
      ensures Answers(env, bps, cached, cache, i, i + k, calls[k])
      ensures env.plugin(i + k, calls[k].num, calls[k].invocation) != []
    {
      assert k == 0 && i + k == i;
    }
  }

  /** The exact account of every run that starts before any exit was set, told from its
      stops alone. Stop after stop, each one that can be read, with names known and a
      registered number, is answered by exactly one call, to the breakpoint of that
      number, with that frame; the run goes on behind it if and only if the plug-in sets
      no exit there. Where it ends, it ends as the last stop demands. */
  lemma {:induction false} RunAccount(env: Env, bps: map<int, nat>, cached: bool, i: nat, cache: Cache, e: ExitStatus)
    requires !e.exited && i <= |env.stops|
    ensures Accounted(env, bps, cached, i, cache, Run(env, bps, cached, i, cache, e))
    decreases |env.stops| - i
  {
    if i == |env.stops| {
    } else {
      var r := StopRound(env, bps, cached, i, env.stops[i], cache, e);
      RunFirst(env, bps, cached, i, cache, e);
      if r.ending.Some? {
        RoundAccount(env, bps, cached, i, cache, e);
        LastAccount(env, bps, cached, i, cache, r);
      } else {
        RoundTold(env, bps, cached, i, cache, e);
        RoundContinues(env, bps, cached, i, cache, e);
        RunAccount(env, bps, cached, i + 1, r.cache, r.exit);
        AccountStep(env, bps, cached, i, cache, r.events, Calls(r.events)[0],
                    Run(env, bps, cached, i + 1, r.cache, r.exit));
      }
    }
  }

  /** The questions of later stops do not depend on where the run starts either. */
  lemma {:induction false} QuestionsLater(env: Env, cached: bool, cache: Cache, i: nat, lo: nat, hi: nat)
    requires i < lo && hi <= |env.stops|
    requires i < |env.stops| && env.stops[i].reason == "breakpoint-hit" && env.stops[i].hit.Ok?
    requires LookupNames(env, cached, i, env.stops[i].hit.value.frame, cache).names.Ok?
    ensures var next := LookupNames(env, cached, i, env.stops[i].hit.value.frame, cache).cache;
            QuestionsFor(env, cached, next, i + 1, lo, hi) == QuestionsFor(env, cached, cache, i, lo, hi)
    decreases hi - lo
  {
    if lo >= hi {
    } else {
      var s := env.stops[lo];
      if s.hit.Ok? { NamesLater(env, cached, cache, i, lo, s.hit.value.frame); }
      QuestionsLater(env, cached, cache, i, lo + 1, hi);
    }
  }

  /** The first round of a run, as far as its questions go. */
  lemma {:induction false} FirstRound(env: Env, bps: map<int, nat>, cached: bool, i: nat, cache: Cache, e: ExitStatus)
    returns (r: Round)
    requires i < |env.stops| && !e.exited
    ensures Questions(r.events) == QuestionAt(env, cached, cache, i, i) && Continues(r.events) == 0
    ensures r.ending.Some? ==> Run(env, bps, cached, i, cache, e).trace == [Waited] + r.events
    ensures r.ending.None? ==>
              && env.stops[i].reason == "breakpoint-hit" && env.stops[i].hit.Ok?
              && var l := LookupNames(env, cached, i, env.stops[i].hit.value.frame, cache);
                 && l.names.Ok?
                 && Run(env, bps, cached, i, cache, e).trace
                    == [Waited] + r.events + [Continued] + Run(env, bps, cached, i + 1, l.cache, e).trace
  {
    r := StopRound(env, bps, cached, i, env.stops[i], cache, e);
    RunFirst(env, bps, cached, i, cache, e);
    RoundTold(env, bps, cached, i, cache, e);
    if r.ending.None? { RoundContinues(env, bps, cached, i, cache, e); }
  }

  /** The questions of a trace are those of the stops it reaches. */
  predicate Asked(env: Env, cached: bool, i: nat, cache: Cache, trace: seq<Event>)
    requires i <= |env.stops|
  {
    Questions(trace) == QuestionsFor(env, cached, cache, i, i, Reached(env, i + Continues(trace)))
  }

  /** The exact questions of a run: one at every stop it reaches whose names are needed and
      not cached, and no other. */
  lemma {:induction false} RunQuestions(env: Env, bps: map<int, nat>, cached: bool, i: nat, cache: Cache, e: ExitStatus)
    requires !e.exited && i <= |env.stops|
    ensures Asked(env, cached, i, cache, Run(env, bps, cached, i, cache, e).trace)
    decreases |env.stops| - i
  {
    if i == |env.stops| {
    } else {
      var r := FirstRound(env, bps, cached, i, cache, e);
      if r.ending.Some? {
        LastQuestions(env, cached, i, cache, r.events);
      } else {
        var next := LookupNames(env, cached, i, env.stops[i].hit.value.frame, cache).cache;
        RunQuestions(env, bps, cached, i + 1, next, e);
        QuestionsStep(env, cached, i, cache, r.events, Run(env, bps, cached, i + 1, next, e).trace);
      }
    }
  }

  /** Up to and with the stop at which a run ends, if it is not the last one. */
  function Reached(env: Env, last: nat): nat {
    if last < |env.stops| then last + 1 else |env.stops|
  }

  /** Only a hit with names lets a run go on, with the cache that its lookup leaves. */
  lemma {:induction false} RoundContinues(env: Env, bps: map<int, nat>, cached: bool, i: nat, cache: Cache,
        e: ExitStatus)
    requires i < |env.stops| && StopRound(env, bps, cached, i, env.stops[i], cache, e).ending.None?
    ensures env.stops[i].reason == "breakpoint-hit" && env.stops[i].hit.Ok?
    ensures var l := LookupNames(env, cached, i, env.stops[i].hit.value.frame, cache);
            l.names.Ok? && StopRound(env, bps, cached, i, env.stops[i], cache, e).cache == l.cache
  {
  }

  lemma {:induction false} QuestionsStep(env: Env, cached: bool, i: nat, cache: Cache, events: seq<Event>,
        rest: seq<Event>)
    requires i < |env.stops| && env.stops[i].reason == "breakpoint-hit" && env.stops[i].hit.Ok?
    requires var l := LookupNames(env, cached, i, env.stops[i].hit.value.frame, cache);
             l.names.Ok? && Asked(env, cached, i + 1, l.cache, rest)
    requires Questions(events) == QuestionAt(env, cached, cache, i, i) && Continues(events) == 0
    ensures Asked(env, cached, i, cache, [Waited] + events + [Continued] + rest)
  {
    StepTrace(events, rest);
    QuestionsLater(env, cached, cache, i, i + 1, Reached(env, i + 1 + Continues(rest)));
  }

  lemma {:induction false} LastQuestions(env: Env, cached: bool, i: nat, cache: Cache, events: seq<Event>)
    requires i < |env.stops|
    requires Questions(events) == QuestionAt(env, cached, cache, i, i) && Continues(events) == 0
    ensures Asked(env, cached, i, cache, [Waited] + events)
  {
    LastTrace(events);
    assert QuestionsFor(env, cached, cache, i, i + 1, i + 1) == [];
  }
}
