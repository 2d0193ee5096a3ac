/** The exact boundary of the round trip. A non-empty list of values is read back
    precisely when the attempt to read it as a list of results, which comes first,
    fails on the text at hand; every other condition is on the tree alone. */
module MiExact {
  import opened Text
  import opened CStrings
  import opened MiValues
  import opened MiParser
  import opened MiRoundTrip
  import opened Sequences

  // ---- The thread-local name never influences what a rule matches ----

  predicate SameMatch<T(==)>(m: Match<T>, m': Match<T>, last: string, last': string) {
    && m.ok == m'.ok && m.out == m'.out && m.rest == m'.rest
    && (m.last == m'.last || (m.last == last && m'.last == last'))
  }

  lemma {:induction false} ResultIgnoresLast(t: string, last: string, last': string)
    ensures SameMatch(ParseResult(t, last), ParseResult(t, last'), last, last')
    ensures ParseResult(t, last).ok ==> ParseResult(t, last) == ParseResult(t, last')
  {
  }

  lemma {:induction false} MoreResultsIgnoreLast(t: string, last: string, last': string)
    ensures SameMatch(ParseMoreResults(t, last), ParseMoreResults(t, last'), last, last')
  {
    if Opens(t, ',') { ResultIgnoresLast(t[1..], last, last'); }
  }

  lemma {:induction false} ResultsIgnoreLast(t: string, last: string, last': string)
    ensures SameMatch(ParseResults(t, last), ParseResults(t, last'), last, last')
  {
    ResultIgnoresLast(t, last, last');
  }

  lemma {:induction false} MoreValuesIgnoreLast(t: string, last: string, last': string)
    ensures SameMatch(ParseMoreValues(t, last), ParseMoreValues(t, last'), last, last')
    decreases |t|, 0
  {
    if !Opens(t, ',') {
    } else {
      ValueIgnoresLast(t[1..], last, last');
      var v, v' := ParseValue(t[1..], last), ParseValue(t[1..], last');
      if v.ok { MoreValuesIgnoreLast(v.rest, v.last, v'.last); }
    }
  }

  lemma {:induction false} ValuesIgnoreLast(t: string, last: string, last': string)
    ensures SameMatch(ParseValues(t, last), ParseValues(t, last'), last, last')
    decreases |t|, 6
  {
    ValueIgnoresLast(t, last, last');
    var v, v' := ParseValue(t, last), ParseValue(t, last');
    if v.ok { MoreValuesIgnoreLast(v.rest, v.last, v'.last); }
  }

  lemma {:induction false} TupleIgnoresLast(t: string, last: string, last': string)
    ensures SameMatch(ParseTuple(t, last), ParseTuple(t, last'), last, last')
  {
    if Opens(t, '{') { ResultsIgnoreLast(t[1..], last, last'); }
  }

  lemma {:induction false} ListIgnoresLast(t: string, last: string, last': string)
    ensures SameMatch(ParseList(t, last), ParseList(t, last'), last, last')
    decreases |t|, 4
  {
    if Opens(t, '[') && !StartsWith(t, "[]") {
      ResultsIgnoreLast(t[1..], last, last');
      var a, a' := ResultsAttempt(t[1..], last), ResultsAttempt(t[1..], last');
      ValuesIgnoreLast(t[1..], a.last, a'.last);
    }
  }

  /** Whatever name earlier lines left behind, a value rule does the same; only
      names it matches itself can differ from the ones it was given. */
  lemma {:induction false} ValueIgnoresLast(t: string, last: string, last': string)
    ensures SameMatch(ParseValue(t, last), ParseValue(t, last'), last, last')
    decreases |t|, 5
  {
    TupleIgnoresLast(t, last, last');
    ListIgnoresLast(t, ParseTuple(t, last).last, ParseTuple(t, last').last);
  }

  // ---- Which values are read back before a given text ----

  /** `v` is read back when `rest` follows it. */
  predicate Safe(v: Value, rest: string)
    decreases v, 1
  {
    match v
    case Str(s) => Escapable(s)
    case Tup(rs) => rs != [] && SafeResults(rs, "}" + rest)
    case Lst(Results(rs)) =>
      rs != [] && !Opens(rs[0].variable, ']') && SafeResults(rs, "]" + rest)
    case Lst(Values(vs)) =>
      vs != [] ==> !ResultsAttempt(PrintValues(vs) + ("]" + rest), "").ok && SafeValues(vs, "]" + rest)
  }

  predicate SafeResults(rs: seq<Result>, after: string)
    decreases rs, 0
  {
    rs != [] ==>
      && ProperName(rs[0].variable)
      && Safe(rs[0].value, PrintMoreResults(rs[1..]) + after)
      && SafeResults(rs[1..], after)
  }

  predicate SafeValues(vs: seq<Value>, after: string)
    decreases vs, 0
  {
    vs != [] ==>
      Safe(vs[0], PrintMoreValues(vs[1..]) + after) && SafeValues(vs[1..], after)
  }

  lemma {:induction false} ExactResult(r: Result, tail: string, last: string)
    ensures var m := ParseResult(PrintResult(r) + tail, last);
            && (m.ok && m.out == r <==> ProperName(r.variable) && Safe(r.value, tail))
            && (m.ok && m.out == r ==> m.rest == tail)
    decreases r, 2
  {
    if ProperName(r.variable) {
      ResultAt(r, tail, last);
      ExactValue(r.value, tail, r.variable);
    } else {
      var text := PrintValue(r.value) + tail;
      assert PrintResult(r) + tail == r.variable + "=" + text;
      NameEnds(r.variable, text);
    }
  }

  lemma {:induction false} ExactMoreResults(rs: seq<Result>, after: string, last: string)
    requires !Opens(after, ',')
    ensures var m := ParseMoreResults(PrintMoreResults(rs) + after, last);
            && (m.out == rs && !Opens(m.rest, ',') <==> SafeResults(rs, after))
            && (SafeResults(rs, after) ==> m.rest == after)
    decreases rs, 3
  {
    var t := PrintMoreResults(rs) + after;
    if rs == [] {
      assert t == after;
    } else {
      var tail := PrintMoreResults(rs[1..]) + after;
      assert t[0] == ',' && t[1..] == PrintResult(rs[0]) + tail;
      ExactResult(rs[0], tail, last);
      var r := ParseResult(t[1..], last);
      if r.ok && r.out == rs[0] {
        ExactMoreResults(rs[1..], after, r.last);
        SameTail(r.out, ParseMoreResults(r.rest, r.last).out, rs);
      }
    }
  }

  lemma SameTail<T>(x: T, xs: seq<T>, all: seq<T>)
    requires all != [] && x == all[0]
    ensures [x] + xs == all <==> xs == all[1..]
  {
    assert ([x] + xs)[1..] == xs;
    assert all == [all[0]] + all[1..];
  }

  lemma {:induction false} ExactResultList(rs: seq<Result>, after: string, last: string)
    requires rs != [] && !Opens(after, ',')
    ensures var m := ParseResults(PrintResults(rs) + after, last);
            && (m.ok && m.out == rs && !Opens(m.rest, ',') <==> SafeResults(rs, after))
            && (SafeResults(rs, after) ==> m.rest == after)
    decreases rs, 4
  {
    var tail := PrintMoreResults(rs[1..]) + after;
    var t := PrintResults(rs) + after;
    assert t == PrintResult(rs[0]) + tail;
    ExactResult(rs[0], tail, last);
    var r := ParseResult(t, last);
    if r.ok && r.out == rs[0] {
      ExactMoreResults(rs[1..], after, r.last);
      SameTail(r.out, ParseMoreResults(r.rest, r.last).out, rs);
    }
  }

  lemma {:induction false} ExactMoreValues(vs: seq<Value>, after: string, last: string)
    requires !Opens(after, ',')
    ensures var m := ParseMoreValues(PrintMoreValues(vs) + after, last);
            && (m.out == vs && !Opens(m.rest, ',') <==> SafeValues(vs, after))
            && (SafeValues(vs, after) ==> m.rest == after)
    decreases vs, 3
  {
    var t := PrintMoreValues(vs) + after;
    if vs == [] {
      assert t == after;
    } else {
      var tail := PrintMoreValues(vs[1..]) + after;
      assert t[0] == ',' && t[1..] == PrintValue(vs[0]) + tail;
      ExactValue(vs[0], tail, last);
      var v := ParseValue(t[1..], last);
      if v.ok && v.out == vs[0] {
        ExactMoreValues(vs[1..], after, v.last);
        SameTail(v.out, ParseMoreValues(v.rest, v.last).out, vs);
      }
    }
  }

  lemma {:induction false} ExactValueList(vs: seq<Value>, after: string, last: string)
    requires vs != [] && !Opens(after, ',')
    ensures var m := ParseValues(PrintValues(vs) + after, last);
            && (m.ok && m.out == vs && !Opens(m.rest, ',') <==> SafeValues(vs, after))
            && (SafeValues(vs, after) ==> m.rest == after)
    decreases vs, 4
  {
    var tail := PrintMoreValues(vs[1..]) + after;
    ValuesText(vs, after);
    ExactValue(vs[0], tail, last);
    var v := ParseValue(PrintValue(vs[0]) + tail, last);
    if v.ok && v.out == vs[0] {
      ExactMoreValues(vs[1..], after, v.last);
      SameTail(v.out, ParseMoreValues(v.rest, v.last).out, vs);
    }
  }

  lemma ValuesText(vs: seq<Value>, after: string)
    requires vs != []
    ensures PrintValues(vs) + after == PrintValue(vs[0]) + (PrintMoreValues(vs[1..]) + after)
  {
  }

  lemma {:induction false} ExactTuple(rs: seq<Result>, rest: string, last: string)
    ensures var m := ParseTuple("{" + PrintResults(rs) + "}" + rest, last);
            && (m.ok && m.out == rs <==> rs != [] && SafeResults(rs, "}" + rest))
            && (m.ok && m.out == rs ==> m.rest == rest)
    decreases rs, 5
  {
    if rs != [] {
      var t, close := "{" + PrintResults(rs) + "}" + rest, "}" + rest;
      assert t[1..] == PrintResults(rs) + close && close[1..] == rest;
      ExactResultList(rs, close, last);
    }
  }

  /** The two alternatives of `list_rule` behind a bracket that is not empty. */
  lemma NonEmptyList(t: string, tail: string, last: string)
    requires |t| > 1 && t[0] == '[' && t[1] != ']' && t[1..] == tail
    ensures var a, m := ResultsAttempt(tail, last), ParseList(t, last);
            if a.ok then m == Match(true, Results(a.out), a.rest, a.last)
            else var vs := ParseValues(tail, a.last);
                 && (m.ok <==> vs.ok && Opens(vs.rest, ']'))
                 && m.out == Values(vs.out)
                 && (m.ok ==> m.rest == vs.rest[1..])
  {
  }

  lemma {:induction false} ExactResultsList(rs: seq<Result>, rest: string, last: string)
    ensures var m := ParseList(PrintValue(Lst(Results(rs))) + rest, last);
            && (m.ok && m.out == Results(rs) <==> Safe(Lst(Results(rs)), rest))
            && (m.ok && m.out == Results(rs) ==> m.rest == rest)
    decreases rs, 5
  {
    if rs == [] {
      assert (PrintValue(Lst(Results(rs))) + rest)[..2] == "[]";
    } else {
      ResultsText(rs, rest);
      var tail := PrintResults(rs) + ("]" + rest);
      ExactResultList(rs, "]" + rest, last);
      if !Opens(rs[0].variable, ']') {
        NonEmptyList(PrintValue(Lst(Results(rs))) + rest, tail, last);
      }
    }
  }

  lemma {:induction false} ExactValuesList(vs: seq<Value>, rest: string, last: string)
    ensures var m := ParseList(PrintValue(Lst(Values(vs))) + rest, last);
            && (m.ok && m.out == Values(vs) <==> Safe(Lst(Values(vs)), rest))
            && (m.ok && m.out == Values(vs) ==> m.rest == rest)
    decreases vs, 5
  {
    if vs == [] {
      var t := PrintValue(Lst(Values(vs))) + rest;
      assert PrintValue(Lst(Values(vs))) == "[" + "" + "]" == "[]";
      assert t[..2] == "[]" && t[2..] == rest;
    } else {
      ListText(vs, rest);
      var tail := PrintValues(vs) + ("]" + rest);
      ResultsIgnoreLast(tail, last, "");
      ExactValueList(vs, "]" + rest, ResultsAttempt(tail, last).last);
      NonEmptyList(PrintValue(Lst(Values(vs))) + rest, tail, last);
    }
  }

  /** The exact round-trip law: whatever text follows and whatever was matched
      before, parsing a printed value yields that value if and only if it is Safe
      there, and then it stops exactly at the text that follows. */
  lemma {:induction false} ExactValue(v: Value, rest: string, last: string)
    ensures var m := ParseValue(PrintValue(v) + rest, last);
            && (m.ok && m.out == v <==> Safe(v, rest))
            && (m.ok && m.out == v ==> m.rest == rest)
    decreases v, 1
  {
    match v
    case Str(s) => EscapeLaw(s, rest);
    case Tup(rs) => ExactTuple(rs, rest, last);
    case Lst(Results(rs)) => ExactResultsList(rs, rest, last);
    case Lst(Values(vs)) => ExactValuesList(vs, rest, last);
  }

  /** A robust value is safe before every text. */
  lemma RobustIsSafe(v: Value, rest: string)
    requires Robust(v)
    ensures Safe(v, rest)
  {
    RobustValue(v, rest, "");
    ExactValue(v, rest, "");
  }

  /** How the abandoned attempt sees a list of one string and the next result. */
  function Joined(s: string, next: Result): Result {
    Result(PrintString(s) + "]," + next.variable, next.value)
  }

  lemma JoinedText(s: string, next: Result, close: string)
    ensures PrintValues([Str(s)]) + ("]" + ("," + PrintResult(next) + close))
         == PrintResult(Joined(s, next)) + close
  {
    assert PrintValues([Str(s)]) == PrintString(s);
    var name := next.variable + "=" + PrintValue(next.value);
    assert PrintResult(Joined(s, next)) == PrintString(s) + "]," + name;
    Associative(PrintString(s), "],", name);
    assert PrintString(s) + ("]" + ("," + name + close)) == PrintString(s) + ("]," + name) + close;
  }

  lemma JoinedAttempt(s: string, next: Result, rest: string, last: string)
    requires '=' !in s && ProperName(next.variable) && Robust(next.value)
    ensures var m := ResultsAttempt(PrintResult(Joined(s, next)) + ("]" + rest), last);
            m.ok && m.out == [Joined(s, next)] && m.rest == rest
  {
    EscapeAddsNoEquals(s);
    var close := "]" + rest;
    assert close[1..] == rest;
    var j := Joined(s, next);
    RobustResult(j, close, last);
    assert !Opens(close, ',');
    assert ParseResults(PrintResult(j) + close, last)
        == Match(true, [j] + [], close, LastName(j.value, j.variable));
  }

  /** A whole family of misreadings: a list of one string without '=' that is
      followed by another result and then by ']' is read as a list of one result,
      because the string, the bracket and the next name pass for one name. */
  lemma StringListMisread(s: string, next: Result, rest: string, last: string)
    requires '=' !in s && ProperName(next.variable) && Robust(next.value)
    ensures var inner := Lst(Values([Str(s)]));
            var after := "," + PrintResult(next) + ("]" + rest);
            var m := ParseValue(PrintValue(inner) + after, last);
            && m.ok && m.rest == rest && m.out == Lst(Results([Joined(s, next)]))
            && !Safe(inner, after)
  {
    var after := "," + PrintResult(next) + ("]" + rest);
    ListText([Str(s)], after);
    JoinedText(s, next, "]" + rest);
    JoinedAttempt(s, next, rest, last);
    NonEmptyList(PrintValue(Lst(Values([Str(s)]))) + after, PrintValues([Str(s)]) + ("]" + after), last);
    ExactValue(Lst(Values([Str(s)])), after, last);
  }

  lemma {:induction false} EscapeAddsNoEquals(s: string)
    ensures '=' !in s ==> '=' !in Escape(s)
  {
    if s == "" {
    } else {
      EscapeAddsNoEquals(s[1..]);
      assert s == [s[0]] + s[1..];
    }
  }

  /** Inside a list of results such a list swallows the outer bracket, and the
      whole text is rejected; `[l=["x"],m="1"]` is the smallest case. */
  lemma StringListRejected(name: string, s: string, next: Result, last: string)
    requires PlainName(name) && name[0] != ']'
    requires '=' !in s && ProperName(next.variable) && Robust(next.value)
    ensures var v := Lst(Results([Result(name, Lst(Values([Str(s)]))), next]));
            !ParseValue(PrintValue(v), last).ok
  {
    var inner := Result(name, Lst(Values([Str(s)])));
    var rs := [inner, next];
    var after := "," + PrintResult(next) + ("]" + "");
    var tail := PrintResults(rs) + ("]" + "");
    ResultsText(rs, "");
    var t := PrintValue(Lst(Results(rs)));
    assert t + "" == t;
    assert tail == PrintResult(inner) + after by {
      assert PrintMoreResults([next]) == "," + PrintResult(next);
      assert rs[1..] == [next];
    }
    ResultAt(inner, after, last);
    StringListMisread(s, next, "", name);
    assert !ResultsAttempt(tail, last).ok;
    assert tail[0] == name[0];
    NoValueHere(tail, ResultsAttempt(tail, last).last);
    NonEmptyList(t, tail, last);
  }

  /** A list that starts with a list of results is never read back either, whatever is
      behind it: the two brackets pass for one bracket and the start of a name. */
  lemma ListFirstMisread(rs: seq<Result>, more: seq<Value>, rest: string, last: string)
    requires rs != [] && RobustResults(rs)
    ensures var v := Lst(Values([Lst(Results(rs))] + more));
            var m := ParseValue(PrintValue(v) + rest, last);
            && m.ok && m.rest == PrintMoreValues(more) + ("]" + rest)
            && m.out == Lst(Results([Result("[" + rs[0].variable, rs[0].value)] + rs[1..]))
            && !Safe(v, rest)
  {
    var vs := [Lst(Results(rs))] + more;
    assert vs[1..] == more;
    ListText(vs, rest);
    var after := PrintMoreValues(more) + ("]" + rest);
    var tail := PrintValues(vs) + ("]" + rest);
    var named := [Result("[" + rs[0].variable, rs[0].value)] + rs[1..];
    ListInside(rs, after);
    assert tail == PrintResults(named) + ("]" + after);
    ResultsRead(named, after, last);
    NonEmptyList(PrintValue(Lst(Values(vs))) + rest, tail, last);
    ResultsRead(named, after, "");
  }

  lemma ListInside(rs: seq<Result>, after: string)
    requires rs != []
    ensures var named := [Result("[" + rs[0].variable, rs[0].value)] + rs[1..];
            PrintValue(Lst(Results(rs))) + after == PrintResults(named) + ("]" + after)
  {
    var first := Result("[" + rs[0].variable, rs[0].value);
    ResultsCons(first, rs[1..]);
    assert "[" + PrintResult(rs[0]) == PrintResult(first);
  }

  /** A robust list of results up to its bracket. */
  lemma ResultsRead(rs: seq<Result>, after: string, last: string)
    requires rs != [] && ProperName(rs[0].variable) && Robust(rs[0].value) && RobustResults(rs[1..])
    ensures var m := ResultsAttempt(PrintResults(rs) + ("]" + after), last);
            m.ok && m.out == rs && m.rest == after
  {
    var close := "]" + after;
    assert close[1..] == after;
    RobustResultList(rs, close, last);
  }

  // ---- Lists that start with a tuple ----

  /** The attempt to read results in front of a tuple fails for every tuple that is
      itself read back: it takes the brace into the first name and ends at its brace. */
  lemma TupleIsNoResults(rs: seq<Result>, after: string, last: string)
    requires rs != [] && SafeResults(rs, "}" + after)
    ensures !ResultsAttempt("{" + PrintResults(rs) + "}" + after, last).ok
  {
    var r := Result("{" + rs[0].variable, rs[0].value);
    var close := "}" + after;
    var tail := PrintMoreResults(rs[1..]) + close;
    TupleText(rs, after);
    ExactResult(r, tail, last);
    var m := ParseResult(PrintResult(r) + tail, last);
    ExactMoreResults(rs[1..], close, m.last);
  }

  /** So a list that starts with a tuple is read back exactly when its elements are. */
  lemma TupleFirstExact(vs: seq<Value>, rest: string)
    requires vs != [] && vs[0].Tup?
    ensures Safe(Lst(Values(vs)), rest) <==> SafeValues(vs, "]" + rest)
  {
    if SafeValues(vs, "]" + rest) {
      var rs, after := vs[0].fields, PrintMoreValues(vs[1..]) + ("]" + rest);
      assert vs[0] == Tup(rs) && Safe(Tup(rs), after);
      TupleIsNoResults(rs, after, "");
      assert PrintValues(vs) + ("]" + rest) == "{" + PrintResults(rs) + "}" + after;
    }
  }
}
