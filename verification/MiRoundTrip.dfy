/** Printing and parsing back: exactly which values survive, before which text. */
module MiRoundTrip {
  import opened Text
  import opened CStrings
  import opened MiValues
  import opened MiParser

  lemma {:induction false} NameEnds(name: string, tail: string)
    ensures '=' !in name ==> NameLength(name + "=" + tail) == |name|
    ensures '=' in name ==> NameLength(name + "=" + tail) < |name|
  {
    var t := name + "=" + tail;
    if name == "" {
    } else {
      assert t[0] == name[0] && t[1..] == name[1..] + "=" + tail;
      NameEnds(name[1..], tail);
      assert name == [name[0]] + name[1..];
    }
  }

  /** `result_rule` on a printed result with a proper name. */
  lemma ResultAt(r: Result, tail: string, last: string)
    requires ProperName(r.variable)
    ensures var v := ParseValue(PrintValue(r.value) + tail, r.variable);
            ParseResult(PrintResult(r) + tail, last)
            == Match(v.ok, Result(r.variable, v.out),
                     if v.ok then v.rest else PrintResult(r) + tail, v.last)
  {
    var n, text := |r.variable|, PrintValue(r.value) + tail;
    var t := PrintResult(r) + tail;
    assert t == r.variable + "=" + text;
    NameEnds(r.variable, text);
    assert t[..n] == r.variable && t[n + 1..] == text;
  }

  // ---- Robust values read back before any text ----

  lemma {:induction false} RobustResult(r: Result, tail: string, last: string)
    requires ProperName(r.variable) && Robust(r.value)
    ensures ParseResult(PrintResult(r) + tail, last)
         == Match(true, r, tail, LastName(r.value, r.variable))
    decreases r, 2
  {
    ResultAt(r, tail, last);
    RobustValue(r.value, tail, r.variable);
  }

  lemma {:induction false} RobustMoreResults(rs: seq<Result>, after: string, last: string)
    requires RobustResults(rs) && !Opens(after, ',')
    ensures ParseMoreResults(PrintMoreResults(rs) + after, last)
         == Match(true, rs, after, LastNameOf(rs, last))
    decreases rs, 3
  {
    var t := PrintMoreResults(rs) + after;
    if rs == [] {
      assert t == after;
    } else {
      var tail := PrintMoreResults(rs[1..]) + after;
      assert t[0] == ',' && t[1..] == PrintResult(rs[0]) + tail;
      RobustResult(rs[0], tail, last);
      RobustMoreResults(rs[1..], after, LastName(rs[0].value, rs[0].variable));
      assert rs == [rs[0]] + rs[1..];
    }
  }

  lemma {:induction false} RobustResultList(rs: seq<Result>, after: string, last: string)
    requires rs != [] && RobustResults(rs) && !Opens(after, ',')
    ensures ParseResults(PrintResults(rs) + after, last)
         == Match(true, rs, after, LastNameOf(rs, last))
    decreases rs, 4
  {
    var tail, name := PrintMoreResults(rs[1..]) + after, LastName(rs[0].value, rs[0].variable);
    assert PrintResults(rs) + after == PrintResult(rs[0]) + tail;
    RobustResult(rs[0], tail, last);
    RobustMoreResults(rs[1..], after, name);
    assert LastNameOf(rs, last) == LastNameOf(rs[1..], name);
    assert rs == [rs[0]] + rs[1..];
  }

  lemma {:induction false} RobustMoreValues(vs: seq<Value>, after: string, last: string)
    requires RobustValues(vs) && !Opens(after, ',')
    ensures ParseMoreValues(PrintMoreValues(vs) + after, last)
         == Match(true, vs, after, LastNameIn(vs, last))
    decreases vs, 3
  {
    var t := PrintMoreValues(vs) + after;
    if vs == [] {
      assert t == after;
    } else {
      var tail := PrintMoreValues(vs[1..]) + after;
      assert t[0] == ',' && t[1..] == PrintValue(vs[0]) + tail;
      RobustValue(vs[0], tail, last);
      RobustMoreValues(vs[1..], after, LastName(vs[0], last));
      assert vs == [vs[0]] + vs[1..];
    }
  }

  lemma {:induction false} RobustValueList(vs: seq<Value>, after: string, last: string)
    requires vs != [] && RobustValues(vs) && !Opens(after, ',')
    ensures ParseValues(PrintValues(vs) + after, last)
         == Match(true, vs, after, LastNameIn(vs, last))
    decreases vs, 4
  {
    var tail := PrintMoreValues(vs[1..]) + after;
    assert PrintValues(vs) + after == PrintValue(vs[0]) + tail;
    RobustValue(vs[0], tail, last);
    RobustMoreValues(vs[1..], after, LastName(vs[0], last));
    assert vs == [vs[0]] + vs[1..];
  }

  /** What the abandoned attempt sees of a tuple: its brace as the start of a name. */
  lemma {:induction false} TupleText(rs: seq<Result>, after: string)
    requires rs != []
    ensures "{" + PrintResults(rs) + "}" + after
         == PrintResult(Result("{" + rs[0].variable, rs[0].value)) + (PrintMoreResults(rs[1..]) + ("}" + after))
  {
    assert "{" + PrintResult(rs[0]) == PrintResult(Result("{" + rs[0].variable, rs[0].value));
  }

  /** The abandoned attempt to read a list of results in front of a tuple: it takes
      '{' into the first name, reads the whole tuple, and fails at its '}'. */
  lemma {:induction false} TupleStopsResults(rs: seq<Result>, after: string, last: string)
    requires rs != [] && RobustResults(rs)
    ensures !ResultsAttempt("{" + PrintResults(rs) + "}" + after, last).ok
    decreases rs, 4
  {
    var r := Result("{" + rs[0].variable, rs[0].value);
    var close := "}" + after;
    var tail := PrintMoreResults(rs[1..]) + close;
    TupleText(rs, after);
    ResultAt(r, tail, last);
    RobustValue(rs[0].value, tail, r.variable);
    RobustMoreResults(rs[1..], close, LastName(r.value, r.variable));
  }

  lemma {:induction false} RobustTuple(rs: seq<Result>, rest: string, last: string)
    requires rs != [] && RobustResults(rs)
    ensures ParseTuple("{" + PrintResults(rs) + "}" + rest, last)
         == Match(true, rs, rest, LastNameOf(rs, last))
    decreases rs, 5
  {
    var t := "{" + PrintResults(rs) + "}" + rest;
    var close := "}" + rest;
    assert t[1..] == PrintResults(rs) + close && close[1..] == rest;
    RobustResultList(rs, close, last);
  }

  lemma Bracketed(first: string, more: string, rest: string)
    requires first != ""
    ensures var t := "[" + (first + more) + "]" + rest;
            && t[0] == '[' && t[1] == first[0]
            && t[1..] == first + more + ("]" + rest) == first + (more + ("]" + rest))
            && ("]" + rest)[1..] == rest
  {
  }

  /** A printed list of results, brackets apart. */
  lemma ResultsText(rs: seq<Result>, rest: string)
    requires rs != []
    ensures var t := PrintValue(Lst(Results(rs))) + rest;
            && t[0] == '['
            && t[1] == (if rs[0].variable == "" then '=' else rs[0].variable[0])
            && t[1..] == PrintResults(rs) + ("]" + rest)
            && ("]" + rest)[1..] == rest
  {
    Bracketed(PrintResult(rs[0]), PrintMoreResults(rs[1..]), rest);
  }

  lemma {:induction false} RobustResultsList(rs: seq<Result>, rest: string, last: string)
    requires rs != [] && RobustResults(rs) && !Opens(rs[0].variable, ']')
    ensures ParseList(PrintValue(Lst(Results(rs))) + rest, last)
         == Match(true, Results(rs), rest, LastNameOf(rs, last))
    decreases rs, 5
  {
    ResultsText(rs, rest);
    RobustResultList(rs, "]" + rest, last);
  }

  /** A printed list of values, brackets apart. */
  lemma ListText(vs: seq<Value>, rest: string)
    requires vs != []
    ensures var t := PrintValue(Lst(Values(vs))) + rest;
            && t[0] == '[' && t[1] == PrintValue(vs[0])[0] != ']'
            && t[1..] == PrintValues(vs) + ("]" + rest)
            && t[1..] == PrintValue(vs[0]) + (PrintMoreValues(vs[1..]) + ("]" + rest))
            && ("]" + rest)[1..] == rest
  {
    var first, more := PrintValue(vs[0]), PrintMoreValues(vs[1..]);
    assert first != "" && first[0] in ['"', '{', '['] by {
      match vs[0] case Str(_) => case Tup(_) => case Lst(Values(_)) => case Lst(Results(_)) =>
    }
    Bracketed(first, more, rest);
  }

  lemma {:induction false} RobustValuesList(vs: seq<Value>, rest: string, last: string)
    requires vs != [] && vs[0].Tup? && RobustValues(vs)
    ensures ParseList(PrintValue(Lst(Values(vs))) + rest, last)
         == Match(true, Values(vs), rest, LastNameIn(vs, last))
    decreases vs, 5
  {
    ListText(vs, rest);
    var t := PrintValue(Lst(Values(vs))) + rest;
    var close := "]" + rest;
    var rs, after := vs[0].fields, PrintMoreValues(vs[1..]) + close;
    TupleStopsResults(rs, after, last);
    var a := ResultsAttempt(t[1..], last);
    RobustValueList(vs, close, a.last);
    assert LastName(vs[0], a.last) == LastName(vs[0], last);
  }

  /** Completeness: before any text, a robust value is read back exactly, and the
      variable matched last is the one printed last. */
  lemma {:induction false} RobustValue(v: Value, rest: string, last: string)
    requires Robust(v)
    ensures ParseValue(PrintValue(v) + rest, last) == Match(true, v, rest, LastName(v, last))
    decreases v, 1
  {
    var t := PrintValue(v) + rest;
    match v
    case Str(s) => EscapeLaw(s, rest);
    case Tup(rs) => RobustTuple(rs, rest, last);
    case Lst(Results(rs)) => RobustResultsList(rs, rest, last);
    case Lst(Values(vs)) =>
      if vs == [] {
        assert PrintValue(v) == "[" + "" + "]" == "[]";
        assert t[..2] == "[]" && t[2..] == rest;
      } else {
        RobustValuesList(vs, rest, last);
      }
  }

  /** Where no value starts, `value_rule` fails; what it stored is an empty list. */
  lemma NoValueHere(t: string, last: string)
    requires |t| > 0 && t[0] !in {'"', '{', '['}
    ensures ParseValue(t, last) == Match(false, EMPTY_LIST, t, last)
  {
  }
}
