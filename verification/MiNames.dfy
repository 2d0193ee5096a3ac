/** The variable matched last once a value has been read: the thread-local name that
    unnamed items and leftovers inherit. In front of every list of values the attempt to
    read results has matched a variable of its own. */
module MiNames {
  import opened CStrings
  import opened MiExact
  import opened MiParser
  import opened MiRoundTrip
  import opened MiSoundness
  import opened MiValues
  import opened Sequences
  import opened Text

  /** The variable that the attempt to read results at `t` has matched last. */
  function AttemptName(t: string): string {
    ResultsAttempt(t, "").last
  }

  /** The variable matched last once `v` has been read in front of `rest`, if `name` was
      before: that of its last result; behind values without results, the one that the
      abandoned attempt in front of the innermost list around them has reached. */
  function NameBehind(v: Value, rest: string, name: string): string
    decreases v, 1
  {
    match v
    case Str(_) => name
    case Tup(rs) => NameBehindResults(rs, "}" + rest, name)
    case Lst(Results(rs)) => NameBehindResults(rs, "]" + rest, name)
    case Lst(Values(vs)) =>
      if vs == [] then name
      else NameBehindValues(vs, "]" + rest, AttemptName(PrintValues(vs) + ("]" + rest)))
  }

  function NameBehindResults(rs: seq<Result>, after: string, name: string): string
    decreases rs, 0
  {
    if rs == [] then name
    else
      var first := NameBehind(rs[0].value, PrintMoreResults(rs[1..]) + after, rs[0].variable);
      NameBehindResults(rs[1..], after, first)
  }

  function NameBehindValues(vs: seq<Value>, after: string, name: string): string
    decreases vs, 0
  {
    if vs == [] then name
    else NameBehindValues(vs[1..], after, NameBehind(vs[0], PrintMoreValues(vs[1..]) + after, name))
  }

  // ---- Whatever is read leaves this name ----

  /** An attempt that matches a variable forgets the name before it. */
  lemma AttemptForgets(t: string, last: string)
    requires t != "" && t[0] != '='
    ensures ResultsAttempt(t, last) == ResultsAttempt(t, "")
  {
    assert NameLength(t) > 0;
    assert ParseResult(t, last) == ParseResult(t, "");
  }

  /** A string that is read as itself, its quotes collapsed, is read to its end. */
  lemma StringEnds(s: string, rest: string)
    ensures var m := CString(PrintString(s) + rest);
            m.ok && m.text == Collapse(s) ==> m.rest == rest
  {
    if EndsInBackslash(s) {
      RunsPastQuote(s, rest);
    } else {
      StopsAtQuote(s, rest);
    }
  }

  lemma {:induction false} ResultName(r: Result, tail: string, last: string)
    ensures var m := ParseResult(PrintResult(r) + tail, last);
            m.ok && m.out == CollapsedResult(r)
            ==> m.rest == tail && m.last == NameBehind(r.value, tail, r.variable)
    decreases r, 2
  {
    if ProperName(r.variable) {
      ResultAt(r, tail, last);
      ValueName(r.value, tail, r.variable);
    } else {
      var text := PrintValue(r.value) + tail;
      assert PrintResult(r) + tail == r.variable + "=" + text;
      NameEnds(r.variable, text);
    }
  }

  lemma {:induction false} MoreResultsName(rs: seq<Result>, after: string, last: string)
    requires !Opens(after, ',')
    ensures var m := ParseMoreResults(PrintMoreResults(rs) + after, last);
            m.out == CollapsedResults(rs) && !Opens(m.rest, ',')
            ==> m.rest == after && m.last == NameBehindResults(rs, after, last)
    decreases rs, 3
  {
    var t := PrintMoreResults(rs) + after;
    if rs == [] {
      assert t == after;
    } else {
      var tail := PrintMoreResults(rs[1..]) + after;
      assert t[0] == ',' && t[1..] == PrintResult(rs[0]) + tail;
      ResultName(rs[0], tail, last);
      var r := ParseResult(t[1..], last);
      if r.ok && r.out == CollapsedResult(rs[0]) { MoreResultsName(rs[1..], after, r.last); }
      SameHead(r.out, ParseMoreResults(r.rest, r.last).out, CollapsedResult(rs[0]), CollapsedResults(rs[1..]));
    }
  }

  lemma {:induction false} ResultsName(rs: seq<Result>, after: string, last: string)
    requires rs != [] && !Opens(after, ',')
    ensures var m := ParseResults(PrintResults(rs) + after, last);
            m.ok && m.out == CollapsedResults(rs) && !Opens(m.rest, ',')
            ==> m.rest == after && m.last == NameBehindResults(rs, after, last)
    decreases rs, 4
  {
    var tail := PrintMoreResults(rs[1..]) + after;
    HeadOfResults(rs, after);
    ResultName(rs[0], tail, last);
    var r := ParseResult(PrintResult(rs[0]) + tail, last);
    if r.ok && r.out == CollapsedResult(rs[0]) { MoreResultsName(rs[1..], after, r.last); }
    SameHead(r.out, ParseMoreResults(r.rest, r.last).out, CollapsedResult(rs[0]), CollapsedResults(rs[1..]));
  }

  lemma HeadOfResults(rs: seq<Result>, after: string)
    requires rs != []
    ensures PrintResults(rs) + after == PrintResult(rs[0]) + (PrintMoreResults(rs[1..]) + after)
  {
  }

  lemma {:induction false} MoreValuesName(vs: seq<Value>, after: string, last: string)
    requires !Opens(after, ',')
    ensures var m := ParseMoreValues(PrintMoreValues(vs) + after, last);
            m.out == CollapsedValues(vs) && !Opens(m.rest, ',')
            ==> m.rest == after && m.last == NameBehindValues(vs, after, last)
    decreases vs, 3
  {
    var t := PrintMoreValues(vs) + after;
    if vs == [] {
      assert t == after;
    } else {
      var tail := PrintMoreValues(vs[1..]) + after;
      assert t[0] == ',' && t[1..] == PrintValue(vs[0]) + tail;
      ValueName(vs[0], tail, last);
      var v := ParseValue(t[1..], last);
      if v.ok && v.out == Collapsed(vs[0]) { MoreValuesName(vs[1..], after, v.last); }
      SameHead(v.out, ParseMoreValues(v.rest, v.last).out, Collapsed(vs[0]), CollapsedValues(vs[1..]));
    }
  }

  lemma {:induction false} ValuesName(vs: seq<Value>, after: string, last: string)
    requires vs != [] && !Opens(after, ',')
    ensures var m := ParseValues(PrintValues(vs) + after, last);
            m.ok && m.out == CollapsedValues(vs) && !Opens(m.rest, ',')
            ==> m.rest == after && m.last == NameBehindValues(vs, after, last)
    decreases vs, 4
  {
    var tail := PrintMoreValues(vs[1..]) + after;
    ValuesText(vs, after);
    ValueName(vs[0], tail, last);
    var v := ParseValue(PrintValue(vs[0]) + tail, last);
    if v.ok && v.out == Collapsed(vs[0]) { MoreValuesName(vs[1..], after, v.last); }
    SameHead(v.out, ParseMoreValues(v.rest, v.last).out, Collapsed(vs[0]), CollapsedValues(vs[1..]));
  }

  lemma {:induction false} TupleName(rs: seq<Result>, rest: string, last: string)
    ensures var m := ParseTuple("{" + PrintResults(rs) + "}" + rest, last);
            m.ok && m.out == CollapsedResults(rs)
            ==> m.rest == rest && m.last == NameBehindResults(rs, "}" + rest, last)
    decreases rs, 5
  {
    var t, close := "{" + PrintResults(rs) + "}" + rest, "}" + rest;
    assert t[1..] == PrintResults(rs) + close && close[1..] == rest;
    if rs != [] { ResultsName(rs, close, last); }
  }

  lemma {:induction false} ResultsListName(rs: seq<Result>, rest: string, last: string)
    ensures var m := ParseList(PrintValue(Lst(Results(rs))) + rest, last);
            m.ok && m.out == Results(CollapsedResults(rs))
            ==> m.rest == rest && m.last == NameBehindResults(rs, "]" + rest, last)
    decreases rs, 5
  {
    if rs == [] {
      assert (PrintValue(Lst(Results(rs))) + rest)[..2] == "[]";
    } else {
      ResultsText(rs, rest);
      ResultsName(rs, "]" + rest, last);
      if !Opens(rs[0].variable, ']') {
        NonEmptyList(PrintValue(Lst(Results(rs))) + rest, PrintResults(rs) + ("]" + rest), last);
      }
    }
  }

  lemma {:induction false} ValuesListName(vs: seq<Value>, rest: string, last: string)
    requires vs != []
    ensures var m := ParseList(PrintValue(Lst(Values(vs))) + rest, last);
            m.ok && m.out == Values(CollapsedValues(vs))
            ==> m.rest == rest && m.last == NameBehind(Lst(Values(vs)), rest, last)
    decreases vs, 5
  {
    ListText(vs, rest);
    var t, tail := PrintValue(Lst(Values(vs))) + rest, PrintValues(vs) + ("]" + rest);
    FirstOfList(vs, "]" + rest);
    AttemptForgets(tail, last);
    ValuesName(vs, "]" + rest, AttemptName(tail));
    NonEmptyListName(t, tail, last);
  }

  lemma FirstOfList(vs: seq<Value>, after: string)
    requires vs != []
    ensures var t := PrintValues(vs) + after; t != "" && t[0] in {'"', '{', '['}
  {
    match vs[0] case Str(_) => case Tup(_) => case Lst(Values(_)) => case Lst(Results(_)) =>
  }

  /** The last alternative of `list_rule` starts from the name of the attempt. */
  lemma NonEmptyListName(t: string, tail: string, last: string)
    requires |t| > 1 && t[0] == '[' && t[1] != ']' && t[1..] == tail
    ensures var a, m := ResultsAttempt(tail, last), ParseList(t, last);
            !a.ok ==>
              var vs := ParseValues(tail, a.last);
              m.ok == (vs.ok && Opens(vs.rest, ']')) && m.out == Values(vs.out)
              && (m.ok ==> m.rest == vs.rest[1..] && m.last == vs.last)
    ensures var a, m := ResultsAttempt(tail, last), ParseList(t, last); a.ok ==> m.out.Results?
  {
  }

  /** The exact name behind every value that is read, for any text behind it and any name
      before it. */
  lemma {:induction false} ValueName(v: Value, rest: string, name: string)
    ensures var m := ParseValue(PrintValue(v) + rest, name);
            m.ok && m.out == Collapsed(v) ==> m.rest == rest && m.last == NameBehind(v, rest, name)
    decreases v, 1
  {
    match v
    case Str(s) => StringEnds(s, rest);
    case Tup(rs) => TupleName(rs, rest, name);
    case Lst(Results(rs)) => ResultsListName(rs, rest, name);
    case Lst(Values(vs)) =>
      if vs == [] {
        assert PrintValue(v) == "[" + "" + "]" == "[]";
        assert (PrintValue(v) + rest)[..2] == "[]" && (PrintValue(v) + rest)[2..] == rest;
      } else {
        ValuesListName(vs, rest, name);
      }
  }

  // ---- Lists of values ----

  /** Behind a list of values that is not empty, the name before it does not count. */
  lemma ListForgets(vs: seq<Value>, rest: string, name: string, name': string)
    requires vs != []
    ensures NameBehind(Lst(Values(vs)), rest, name) == NameBehind(Lst(Values(vs)), rest, name')
    ensures var t := PrintValue(Lst(Values(vs))) + rest; ParseValue(t, name) == ParseValue(t, name')
  {
    ListText(vs, rest);
    var tail := PrintValues(vs) + ("]" + rest);
    FirstOfList(vs, "]" + rest);
    AttemptForgets(tail, name);
    AttemptForgets(tail, name');
  }

  predicate Strings(vs: seq<Value>) {
    forall i | 0 <= i < |vs| :: vs[i].Str?
  }

  lemma {:induction false} StringsKeepName(vs: seq<Value>, after: string, name: string)
    requires Strings(vs)
    ensures NameBehindValues(vs, after, name) == name
  {
    if vs == [] {
    } else {
      assert forall i | 0 <= i < |vs| - 1 :: vs[1..][i] == vs[i + 1];
      StringsKeepName(vs[1..], after, name);
    }
  }

  /** Behind a list of strings it is the name that the attempt has reached. */
  lemma StringListName(vs: seq<Value>, rest: string, name: string)
    requires vs != [] && Strings(vs)
    ensures NameBehind(Lst(Values(vs)), rest, name) == AttemptName(PrintValues(vs) + ("]" + rest))
  {
    StringsKeepName(vs, "]" + rest, AttemptName(PrintValues(vs) + ("]" + rest)));
  }

  // ---- What the attempt reaches ----

  lemma AttemptFirst(t: string)
    ensures var r := ParseResult(t, "");
            AttemptName(t) == if r.ok then ParseMoreResults(r.rest, r.last).last else r.last
    ensures !ParseResult(t, "").ok ==> !ResultsAttempt(t, "").ok
  {
    var rs := ParseResults(t, "");
    assert AttemptName(t) == rs.last;
  }

  /** Without '=', the whole text. */
  lemma AttemptTakesAll(t: string)
    requires '=' !in t && t != ""
    ensures AttemptName(t) == t && !ResultsAttempt(t, "").ok
  {
    WholeName(t);
    AttemptFirst(t);
  }

  lemma {:induction false} WholeName(t: string)
    ensures '=' !in t ==> NameLength(t) == |t|
  {
    if t == "" {
    } else {
      assert t == [t[0]] + t[1..];
      WholeName(t[1..]);
    }
  }

  /** The name at which an attempt to read a value at `t` ends, if `name` was before. */
  function NameReached(t: string, name: string): string {
    ParseValue(t, name).last
  }

  /** The same for values one after the other. */
  function NameReachedInList(t: string, name: string): string {
    ParseValues(t, name).last
  }

  /** What the attempt to read results inside a bracket or brace makes of `name`. */
  function NameInside(t: string, name: string): string {
    if t == "" || t[0] == '=' then name else AttemptName(t)
  }

  lemma InsideIsReached(t: string, name: string)
    ensures ParseResults(t, name).last == NameInside(t, name)
  {
    if t != "" && t[0] != '=' {
      AttemptForgets(t, name);
      assert ParseResults(t, name).last == ResultsAttempt(t, name).last;
    }
  }

  /** Behind a name and '=', if no value can be read there: the name reached inside what
      looked like one. */
  lemma AttemptStops(name: string, t: string)
    requires ProperName(name) && !ParseValue(t, name).ok
    ensures AttemptName(name + "=" + t) == NameReached(t, name)
  {
    NameEnds(name, t);
    var s := name + "=" + t;
    assert s[..|name|] == name && s[|name| + 1..] == t;
    AttemptFirst(s);
  }

  /** Where no value can be read, by the first character: nothing is reached in front of or
      inside a string; in a tuple what its results reach; in a list what its values reach,
      behind the attempt to read results. */
  lemma {:induction false} FailedValue(t: string, name: string)
    requires !ParseValue(t, name).ok
    ensures NameReached(t, name)
         == if t == "" then name
            else if t[0] == '{' then NameInside(t[1..], name)
            else if t[0] == '[' then NameReachedInList(t[1..], NameInside(t[1..], name))
            else name
    ensures NameReachedInList(t, name) == NameReached(t, name)
  {
    assert NameReached(t, name) == ParseList(t, ParseTuple(t, name).last).last;
    if t != "" && t[0] == '{' {
      InsideIsReached(t[1..], name);
      assert !StartsWith(t, "[]");
    } else if t != "" && t[0] == '[' {
      InsideIsReached(t[1..], name);
      assert ResultsAttempt(t[1..], name).last == ParseResults(t[1..], name).last;
    }
  }

  /** Values one after the other reach what the last one leaves or, behind a comma at which
      no value can be read, what is reached there. */
  lemma {:induction false} ReachedInList(v: Value, tail: string, name: string)
    requires var m := ParseValue(PrintValue(v) + tail, ""); m.ok && m.out == Collapsed(v)
    ensures NameReachedInList(PrintValue(v) + tail, name)
         == if Opens(tail, ',') then NameReachedInList(tail[1..], NameBehind(v, tail, name))
            else NameBehind(v, tail, name)
  {
    ValueIgnoresLast(PrintValue(v) + tail, name, "");
    ValueName(v, tail, name);
    var m := ParseValue(PrintValue(v) + tail, name);
    assert m.ok && m.rest == tail && m.last == NameBehind(v, tail, name);
    MoreValuesReach(tail, m.last);
  }

  lemma {:induction false} MoreValuesReach(tail: string, last: string)
    ensures ParseMoreValues(tail, last).last
         == if Opens(tail, ',') then NameReachedInList(tail[1..], last) else last
  {
    if Opens(tail, ',') { assert NameReachedInList(tail[1..], last) == ParseValues(tail[1..], last).last; }
  }

  /** Behind a value that is read, the name it leaves, or what comes after a comma. */
  lemma {:induction false} AttemptGoesOn(name: string, v: Value, tail: string)
    requires ProperName(name)
    requires var m := ParseValue(PrintValue(v) + tail, ""); m.ok && m.out == Collapsed(v)
    ensures AttemptName(name + "=" + (PrintValue(v) + tail))
         == if !Opens(tail, ',') || |tail| == 1 || tail[1] == '=' then NameBehind(v, tail, name)
            else AttemptName(tail[1..])
  {
    var r := Result(name, v);
    assert PrintResult(r) + tail == name + "=" + (PrintValue(v) + tail);
    ResultAt(r, tail, "");
    ValueIgnoresLast(PrintValue(v) + tail, name, "");
    ValueName(v, tail, name);
    var last := NameBehind(v, tail, name);
    AttemptFirst(PrintResult(r) + tail);
    MoreResultsAttempt(tail, last);
  }

  lemma MoreResultsAttempt(tail: string, last: string)
    ensures ParseMoreResults(tail, last).last
         == if !Opens(tail, ',') || |tail| == 1 || tail[1] == '=' then last else AttemptName(tail[1..])
  {
    if Opens(tail, ',') && |tail| > 1 && tail[1] != '=' {
      assert NameLength(tail[1..]) > 0;
      assert ParseResult(tail[1..], last) == ParseResult(tail[1..], "");
      AttemptFirst(tail[1..]);
    }
  }

  lemma {:induction false} NoResultHere(k: string, u: string, name: string)
    requires ProperName(k) && !ParseValue(u, k).ok
    ensures !ParseResults(k + "=" + u, name).ok
  {
    var t := k + "=" + u;
    NameEnds(k, u);
    assert t[..|k|] == k && t[|k| + 1..] == u;
    assert !ParseResult(t, name).ok;
  }

  lemma {:induction false} NoTupleHere(t: string, name: string)
    requires t != "" && t[0] == '{' && !ParseResults(t[1..], name).ok
    ensures !ParseValue(t, name).ok
  {
    assert !ParseTuple(t, name).ok;
    assert !CString(t).ok;
    assert !ParseList(t, ParseTuple(t, name).last).ok by { assert !Opens(t, '[') && !StartsWith(t, "[]"); }
  }

  /** A brace inside a string is enough: the name behind a list of strings is what stands
      between that brace and the next '=', if a '=' comes directly before the brace and no
      value behind. `^done,a=["x={k=z"],"y"` is a case; its second name is `k`. */
  lemma {:induction false} HiddenInString(vs: seq<Value>, rest: string, name: string, n: string, k: string, u: string)
    requires vs != [] && Strings(vs) && PrintValues(vs) + ("]" + rest) == n + "=" + ("{" + (k + "=" + u))
    requires ProperName(n) && ProperName(k) && u != "" && u[0] !in {'"', '{', '['}
    ensures NameBehind(Lst(Values(vs)), rest, name) == k
  {
    var t := "{" + (k + "=" + u);
    StringListName(vs, rest, name);
    assert t[1..] == k + "=" + u && t[0] == '{';
    NoValueHere(u, k);
    NoResultHere(k, u, n);
    NoTupleHere(t, n);
    AttemptStops(n, t);
    FailedValue(t, n);
    AttemptStops(k, u);
  }

  /** A list of strings with results behind it, as in a breakpoint: the attempt takes the
      list and the first name for one name, and reads the results to their end. */
  lemma StringsBeforeResults(vs: seq<Value>, rs: seq<Result>, after: string, name: string)
    requires vs != [] && Strings(vs) && '=' !in PrintValues(vs)
    requires rs != [] && RobustResults(rs) && !Opens(after, ',')
    ensures var joined := PrintValues(vs) + "]," + rs[0].variable;
            NameBehind(Lst(Values(vs)), "," + PrintResults(rs) + after, name)
            == LastNameOf(rs[1..], LastName(rs[0].value, joined))
  {
    var text, rest := PrintValues(vs), "," + PrintResults(rs) + after;
    var joined := Result(text + "]," + rs[0].variable, rs[0].value);
    var tail := PrintMoreResults(rs[1..]) + after;
    StringListName(vs, rest, name);
    FirstOfList(vs, "");
    HeadOfResults(rs, after);
    ResultBehindList(text, rs[0], tail);
    assert rest == "," + (PrintResult(rs[0]) + tail);
    RobustResult(joined, tail, "");
    RobustMoreResults(rs[1..], after, LastName(rs[0].value, joined.variable));
    AttemptFirst(PrintResult(joined) + tail);
  }

  lemma ResultBehindList(text: string, r: Result, tail: string)
    ensures text + ("]" + ("," + (PrintResult(r) + tail)))
         == PrintResult(Result(text + "]," + r.variable, r.value)) + tail
  {
    var joined := Result(text + "]," + r.variable, r.value);
    ResultSplit(r);
    ResultSplit(joined);
    JoinText(text, r.variable, "=" + PrintValue(r.value), tail);
  }

  lemma ResultSplit(r: Result)
    ensures PrintResult(r) == r.variable + ("=" + PrintValue(r.value))
  {
  }

  lemma JoinText(text: string, name: string, value: string, tail: string)
    ensures text + ("]" + ("," + (name + value + tail))) == text + "]," + name + value + tail
  {
  }
}
