/** Soundness of the recursive rules on every input: a successful rule has taken
    exactly the canonical text of some tree, and returns that tree with nothing but
    its strings changed, by the second replacement of `cstring`. Nothing an abandoned
    alternative or a failed repetition stored is left in it. */
module MiSoundness {
  import opened Text
  import opened CStrings
  import opened MiValues
  import opened MiParser

  // ---- What the second replacement does to the strings of a tree ----

  function Collapsed(v: Value): Value
    decreases v, 0
  {
    match v
    case Str(s) => Str(Collapse(s))
    case Tup(rs) => Tup(CollapsedResults(rs))
    case Lst(Values(vs)) => Lst(Values(CollapsedValues(vs)))
    case Lst(Results(rs)) => Lst(Results(CollapsedResults(rs)))
  }

  function CollapsedResult(r: Result): Result
    decreases r, 0
  {
    Result(r.variable, Collapsed(r.value))
  }

  function CollapsedResults(rs: seq<Result>): seq<Result>
    decreases rs, 0
  {
    if rs == [] then [] else [CollapsedResult(rs[0])] + CollapsedResults(rs[1..])
  }

  function CollapsedValues(vs: seq<Value>): seq<Value>
    decreases vs, 0
  {
    if vs == [] then [] else [Collapsed(vs[0])] + CollapsedValues(vs[1..])
  }

  lemma CollapsedResultsCons(r: Result, rs: seq<Result>)
    ensures CollapsedResults([r] + rs) == [CollapsedResult(r)] + CollapsedResults(rs)
  {
    assert ([r] + rs)[1..] == rs;
  }

  lemma CollapsedValuesCons(v: Value, vs: seq<Value>)
    ensures CollapsedValues([v] + vs) == [Collapsed(v)] + CollapsedValues(vs)
  {
    assert ([v] + vs)[1..] == vs;
  }

  // ---- The rules ----

  /** Cuts the text taken by a rule into a prefix of length `k`, what an inner
      match took (it left `mid`) and what followed. */
  lemma Cut(t: string, k: nat, mid: string, taken: string, rest: string)
    returns (inner: string, more: string)
    requires k <= |t| && IsSuffix(mid, t[k..]) && IsSuffix(rest, mid)
    requires t == taken + rest
    ensures t[k..] == inner + mid && mid == more + rest
    ensures taken == t[..k] + inner + more
  {
    inner := t[k..][..|t| - k - |mid|];
    more := mid[..|mid| - |rest|];
    assert t == t[..k] + inner + more + rest;
    assert taken == t[..|taken|] == t[..k] + inner + more;
  }

  lemma {:induction false} SoundResult(t: string, last: string, taken: string) returns (w: Result)
    requires ParseResult(t, last).ok && t == taken + ParseResult(t, last).rest
    ensures taken == PrintResult(w) && ProperName(w.variable) && WellFormed(w.value)
    ensures ParseResult(t, last).out == CollapsedResult(w)
    decreases |t|, 1
  {
    var n := NameLength(t);
    var v := ParseValue(t[n + 1..], t[..n]);
    ValueSuffix(t[n + 1..], t[..n]);
    var inner, more := Cut(t, n + 1, v.rest, taken, v.rest);
    var x := SoundValue(t[n + 1..], t[..n], inner);
    w := Result(t[..n], x);
    assert t[..n + 1] == t[..n] + "=";
  }

  /** One round of the repetition that did not end it. */
  lemma MoreResultsRound(t: string, last: string) returns (r: Match<Result>, m: Match<seq<Result>>)
    requires Opens(t, ',') && !Opens(ParseMoreResults(t, last).rest, ',')
    ensures r == ParseResult(t[1..], last) && r.ok && m == ParseMoreResults(r.rest, r.last)
    ensures ParseMoreResults(t, last) == Match(true, [r.out] + m.out, m.rest, m.last)
  {
    r := ParseResult(t[1..], last);
    m := ParseMoreResults(r.rest, r.last);
  }

  /** The same with the text of the round. */
  lemma MoreResultsStep(t: string, last: string, taken: string)
    returns (r: Match<Result>, m: Match<seq<Result>>, inner: string, more: string)
    requires Opens(t, ',') && !Opens(ParseMoreResults(t, last).rest, ',')
    requires t == taken + ParseMoreResults(t, last).rest
    ensures r == ParseResult(t[1..], last) && r.ok && m == ParseMoreResults(r.rest, r.last)
    ensures ParseMoreResults(t, last) == Match(true, [r.out] + m.out, m.rest, m.last)
    ensures t[1..] == inner + r.rest && r.rest == more + m.rest
    ensures taken == "," + inner + more
  {
    assert t[..1] == ",";
    r, m := MoreResultsRound(t, last);
    ResultSuffix(t[1..], last);
    MoreResultsSuffix(r.rest, r.last);
    inner, more := Cut(t, 1, r.rest, taken, m.rest);
  }

  lemma {:induction false} SoundMoreResults(t: string, last: string, taken: string) returns (ws: seq<Result>)
    requires !Opens(ParseMoreResults(t, last).rest, ',')
    requires t == taken + ParseMoreResults(t, last).rest
    ensures taken == PrintMoreResults(ws) && WellFormedResults(ws)
    ensures ParseMoreResults(t, last).out == CollapsedResults(ws)
    decreases |t|, 0
  {
    ws := [];
    if !Opens(t, ',') {
    } else {
      var r, m, inner, more := MoreResultsStep(t, last, taken);
      var w := SoundResult(t[1..], last, inner);
      var tail := SoundMoreResults(r.rest, r.last, more);
      ws := [w] + tail;
      ResultsCons(w, tail);
      CollapsedResultsCons(w, tail);
    }
  }

  lemma ResultsStep(t: string, last: string, taken: string)
    returns (r: Match<Result>, m: Match<seq<Result>>, inner: string, more: string)
    requires ParseResults(t, last).ok && t == taken + ParseResults(t, last).rest
    ensures r == ParseResult(t, last) && r.ok && m == ParseMoreResults(r.rest, r.last)
    ensures ParseResults(t, last) == Match(true, [r.out] + m.out, m.rest, m.last)
    ensures t == inner + r.rest && r.rest == more + m.rest
    ensures taken == inner + more
  {
    r := ParseResult(t, last);
    m := ParseMoreResults(r.rest, r.last);
    ResultSuffix(t, last);
    MoreResultsSuffix(r.rest, r.last);
    assert t[0..] == t;
    inner, more := Cut(t, 0, r.rest, taken, m.rest);
  }

  lemma {:induction false} SoundResults(t: string, last: string, taken: string) returns (ws: seq<Result>)
    requires ParseResults(t, last).ok && !Opens(ParseResults(t, last).rest, ',')
    requires t == taken + ParseResults(t, last).rest
    ensures taken == PrintResults(ws) && ws != [] && WellFormedResults(ws)
    ensures ParseResults(t, last).out == CollapsedResults(ws)
    decreases |t|, 2
  {
    var r, m, inner, more := ResultsStep(t, last, taken);
    var w := SoundResult(t, last, inner);
    var tail := SoundMoreResults(r.rest, r.last, more);
    ws := [w] + tail;
    ResultsCons(w, tail);
    CollapsedResultsCons(w, tail);
  }

  /** One round of the repetition that did not end it. */
  lemma MoreValuesRound(t: string, last: string) returns (v: Match<Value>, m: Match<seq<Value>>)
    requires Opens(t, ',') && !Opens(ParseMoreValues(t, last).rest, ',')
    ensures v == ParseValue(t[1..], last) && v.ok && m == ParseMoreValues(v.rest, v.last)
    ensures ParseMoreValues(t, last) == Match(true, [v.out] + m.out, m.rest, m.last)
  {
    v := ParseValue(t[1..], last);
    m := ParseMoreValues(v.rest, v.last);
  }

  /** The same with the text of the round. */
  lemma MoreValuesStep(t: string, last: string, taken: string)
    returns (v: Match<Value>, m: Match<seq<Value>>, inner: string, more: string)
    requires Opens(t, ',') && !Opens(ParseMoreValues(t, last).rest, ',')
    requires t == taken + ParseMoreValues(t, last).rest
    ensures v == ParseValue(t[1..], last) && v.ok && m == ParseMoreValues(v.rest, v.last)
    ensures ParseMoreValues(t, last) == Match(true, [v.out] + m.out, m.rest, m.last)
    ensures t[1..] == inner + v.rest && v.rest == more + m.rest
    ensures taken == "," + inner + more
  {
    assert t[..1] == ",";
    v, m := MoreValuesRound(t, last);
    ValueSuffix(t[1..], last);
    MoreValuesSuffix(v.rest, v.last);
    inner, more := Cut(t, 1, v.rest, taken, m.rest);
  }

  lemma {:induction false} SoundMoreValues(t: string, last: string, taken: string) returns (ws: seq<Value>)
    requires !Opens(ParseMoreValues(t, last).rest, ',')
    requires t == taken + ParseMoreValues(t, last).rest
    ensures taken == PrintMoreValues(ws) && WellFormedValues(ws)
    ensures ParseMoreValues(t, last).out == CollapsedValues(ws)
    decreases |t|, 0
  {
    ws := [];
    if !Opens(t, ',') {
    } else {
      var v, m, inner, more := MoreValuesStep(t, last, taken);
      var w := SoundValue(t[1..], last, inner);
      var tail := SoundMoreValues(v.rest, v.last, more);
      ws := [w] + tail;
      ValuesCons(w, tail);
      CollapsedValuesCons(w, tail);
    }
  }

  lemma ValuesStep(t: string, last: string, taken: string)
    returns (v: Match<Value>, m: Match<seq<Value>>, inner: string, more: string)
    requires ParseValues(t, last).ok && t == taken + ParseValues(t, last).rest
    ensures v == ParseValue(t, last) && v.ok && m == ParseMoreValues(v.rest, v.last)
    ensures ParseValues(t, last) == Match(true, [v.out] + m.out, m.rest, m.last)
    ensures t == inner + v.rest && v.rest == more + m.rest
    ensures taken == inner + more
  {
    v := ParseValue(t, last);
    m := ParseMoreValues(v.rest, v.last);
    ValueSuffix(t, last);
    MoreValuesSuffix(v.rest, v.last);
    assert t[0..] == t;
    inner, more := Cut(t, 0, v.rest, taken, m.rest);
  }

  lemma {:induction false} SoundValues(t: string, last: string, taken: string) returns (ws: seq<Value>)
    requires ParseValues(t, last).ok && !Opens(ParseValues(t, last).rest, ',')
    requires t == taken + ParseValues(t, last).rest
    ensures taken == PrintValues(ws) && ws != [] && WellFormedValues(ws)
    ensures ParseValues(t, last).out == CollapsedValues(ws)
    decreases |t|, 6
  {
    var v, m, inner, more := ValuesStep(t, last, taken);
    var w := SoundValue(t, last, inner);
    var tail := SoundMoreValues(v.rest, v.last, more);
    ws := [w] + tail;
    ValuesCons(w, tail);
    CollapsedValuesCons(w, tail);
  }

  /** What was taken between two brackets. */
  lemma Inside(t: string, close: string, taken: string) returns (inner: string)
    requires |t| > 0 && close != "" && IsSuffix(close, t[1..]) && t == taken + close[1..]
    ensures t[1..] == inner + close && taken == [t[0]] + inner + [close[0]]
  {
    var more;
    inner, more := Cut(t, 1, close, taken, close[1..]);
    assert close == [close[0]] + close[1..];
    assert more == [close[0]] by { assert |more| == 1 && more[0] == (more + close[1..])[0]; }
    assert t[..1] == [t[0]];
  }

  lemma {:induction false} SoundTuple(t: string, last: string, taken: string) returns (ws: seq<Result>)
    requires ParseTuple(t, last).ok && t == taken + ParseTuple(t, last).rest
    ensures taken == PrintValue(Tup(ws)) && WellFormed(Tup(ws))
    ensures ParseTuple(t, last).out == CollapsedResults(ws)
    decreases |t|, 3
  {
    var rs := ParseResults(t[1..], last);
    ResultsSuffix(t[1..], last);
    var inner := Inside(t, rs.rest, taken);
    ws := SoundResults(t[1..], last, inner);
  }

  lemma {:induction false} SoundList(t: string, last: string, taken: string) returns (w: List)
    requires ParseList(t, last).ok && t == taken + ParseList(t, last).rest
    ensures taken == PrintValue(Lst(w)) && WellFormed(Lst(w))
    ensures Lst(ParseList(t, last).out) == Collapsed(Lst(w))
    decreases |t|, 4
  {
    if StartsWith(t, "[]") {
      w := Values([]);
      assert taken == t[..2];
    } else {
      var a := ResultsAttempt(t[1..], last);
      if a.ok {
        var rs := ParseResults(t[1..], last);
        ResultsSuffix(t[1..], last);
        var inner := Inside(t, rs.rest, taken);
        var ws := SoundResults(t[1..], last, inner);
        w := Results(ws);
      } else {
        var vs := ParseValues(t[1..], a.last);
        ValuesSuffix(t[1..], a.last);
        var inner := Inside(t, vs.rest, taken);
        var ws := SoundValues(t[1..], a.last, inner);
        w := Values(ws);
      }
    }
  }

  /** The main result, for every input: what a value rule took is the text of a tree
      of the grammar, and the value it made is that tree with collapsed strings. */
  lemma {:induction false} SoundValue(t: string, last: string, taken: string) returns (w: Value)
    requires ParseValue(t, last).ok && t == taken + ParseValue(t, last).rest
    ensures taken == PrintValue(w) && WellFormed(w)
    ensures ParseValue(t, last).out == Collapsed(w)
    decreases |t|, 5
  {
    var c := CString(t);
    if c.ok {
      var s := StringSound(t);
      w := Str(s);
      assert taken == t[..|taken|] == PrintString(s);
    } else {
      var u := ParseTuple(t, last);
      if u.ok {
        var ws := SoundTuple(t, last, taken);
        w := Tup(ws);
      } else {
        var l := SoundList(t, u.last, taken);
        w := Lst(l);
      }
    }
  }

  // ---- When the result is that tree itself ----

  /** No string has two backslashes before a quote. */
  predicate Settled(v: Value)
    decreases v, 0
  {
    match v
    case Str(s) => !Contains(s, TWO_BEFORE_QUOTE)
    case Tup(rs) => SettledResults(rs)
    case Lst(Values(vs)) => SettledValues(vs)
    case Lst(Results(rs)) => SettledResults(rs)
  }

  predicate SettledResults(rs: seq<Result>)
    decreases rs, 0
  {
    rs != [] ==> Settled(rs[0].value) && SettledResults(rs[1..])
  }

  predicate SettledValues(vs: seq<Value>)
    decreases vs, 0
  {
    vs != [] ==> Settled(vs[0]) && SettledValues(vs[1..])
  }

  lemma {:induction false} EscapeLength(s: string)
    ensures |Escape(s)| == |s| + Count(s, QUOTE)
  {
    if s == "" {
    } else {
      EscapeLength(s[1..]);
    }
  }

  lemma CollapsedString(s: string)
    ensures |Escape(Collapse(s))| <= |Escape(s)|
    ensures Contains(s, TWO_BEFORE_QUOTE) ==> |Escape(Collapse(s))| < |Escape(s)|
    ensures !Contains(s, TWO_BEFORE_QUOTE) ==> Collapse(s) == s
  {
    assert TWO_BEFORE_QUOTE[1..] == ESCAPED_QUOTE;
    ReplaceAllCount(s, TWO_BEFORE_QUOTE, ESCAPED_QUOTE, QUOTE);
    ReplaceAllIdentity(s, TWO_BEFORE_QUOTE, ESCAPED_QUOTE);
    EscapeLength(s);
    EscapeLength(Collapse(s));
  }

  /** A tree that is not settled loses text. */
  predicate Shorter(settled: bool, now: string, before: string) {
    |now| <= |before| && (settled || |now| < |before|)
  }

  lemma {:induction false} CollapsedText(w: Value)
    ensures Shorter(Settled(w), PrintValue(Collapsed(w)), PrintValue(w))
    ensures Settled(w) ==> Collapsed(w) == w
    decreases w, 0
  {
    match w
    case Str(s) => CollapsedString(s);
    case Tup(rs) => CollapsedResultsText(rs);
    case Lst(Values(vs)) => CollapsedValuesText(vs);
    case Lst(Results(rs)) => CollapsedResultsText(rs);
  }

  lemma {:induction false} CollapsedResultsText(rs: seq<Result>)
    ensures Shorter(SettledResults(rs), PrintMoreResults(CollapsedResults(rs)), PrintMoreResults(rs))
    ensures Shorter(SettledResults(rs), PrintResults(CollapsedResults(rs)), PrintResults(rs))
    ensures SettledResults(rs) ==> CollapsedResults(rs) == rs
    decreases rs, 0
  {
    if rs == [] {
    } else {
      CollapsedText(rs[0].value);
      CollapsedResultsText(rs[1..]);
      assert rs == [rs[0]] + rs[1..];
      ResultsCons(CollapsedResult(rs[0]), CollapsedResults(rs[1..]));
    }
  }

  lemma {:induction false} CollapsedValuesText(vs: seq<Value>)
    ensures Shorter(SettledValues(vs), PrintMoreValues(CollapsedValues(vs)), PrintMoreValues(vs))
    ensures Shorter(SettledValues(vs), PrintValues(CollapsedValues(vs)), PrintValues(vs))
    ensures SettledValues(vs) ==> CollapsedValues(vs) == vs
    decreases vs, 0
  {
    if vs == [] {
    } else {
      CollapsedText(vs[0]);
      CollapsedValuesText(vs[1..]);
      assert vs == [vs[0]] + vs[1..];
      ValuesCons(Collapsed(vs[0]), CollapsedValues(vs[1..]));
    }
  }

  lemma {:induction false} ContainsExtends(a: string, b: string, p: string)
    requires p != ""
    ensures Contains(a, p) || Contains(b, p) ==> Contains(a + b, p)
  {
    if a == "" {
      assert a + b == b;
    } else {
      assert (a + b)[1..] == a[1..] + b;
      ContainsExtends(a[1..], b, p);
      if StartsWith(a, p) { assert (a + b)[..|p|] == a[..|p|]; }
    }
  }

  /** No quote has three backslashes before it. */
  predicate Plain(s: string) {
    !Contains(s, THREE_BEFORE_QUOTE)
  }

  lemma PlainInner(a: string, b: string, c: string)
    requires Plain(a + b + c)
    ensures Plain(b) && Plain(c)
  {
    ContainsExtends(a + b, c, THREE_BEFORE_QUOTE);
    ContainsExtends(a, b, THREE_BEFORE_QUOTE);
  }

  /** Text in which no quote has three backslashes before it is that of a settled
      tree. */
  lemma {:induction false} PlainIsSettled(w: Value)
    requires Plain(PrintValue(w))
    ensures Settled(w)
    decreases w, 0
  {
    match w
    case Str(s) =>
      PlainInner([QUOTE], Escape(s), [QUOTE]);
      EscapeShiftsBackslashes(s);
    case Tup(rs) =>
      PlainInner("{", PrintResults(rs), "}");
      PlainResults(rs);
    case Lst(Values(vs)) =>
      PlainInner("[", PrintValues(vs), "]");
      PlainValues(vs);
    case Lst(Results(rs)) =>
      PlainInner("[", PrintResults(rs), "]");
      PlainResults(rs);
  }

  lemma {:induction false} PlainResults(rs: seq<Result>)
    requires Plain(PrintResults(rs)) || Plain(PrintMoreResults(rs))
    ensures SettledResults(rs)
    decreases rs, 0
  {
    if rs == [] {
    } else {
      var name, text, more := rs[0].variable + "=", PrintValue(rs[0].value), PrintMoreResults(rs[1..]);
      assert "" + PrintResults(rs) + "" == PrintResults(rs) == name + text + more;
      assert PrintMoreResults(rs) == "," + (name + text) + more == ("," + name) + text + more;
      if Plain(PrintResults(rs)) { PlainInner(name, text, more); }
      else { PlainInner("," + name, text, more); }
      PlainIsSettled(rs[0].value);
      PlainResults(rs[1..]);
    }
  }

  lemma {:induction false} PlainValues(vs: seq<Value>)
    requires Plain(PrintValues(vs)) || Plain(PrintMoreValues(vs))
    ensures SettledValues(vs)
    decreases vs, 0
  {
    if vs == [] {
    } else {
      var text, more := PrintValue(vs[0]), PrintMoreValues(vs[1..]);
      assert PrintValues(vs) == "" + text + more;
      if Plain(PrintValues(vs)) { PlainInner("", text, more); } else { PlainInner(",", text, more); }
      PlainIsSettled(vs[0]);
      PlainValues(vs[1..]);
    }
  }

  /** Printing the value gives back the text taken exactly when the tree it stands for
      is settled, as it is when no quote has three backslashes before it. */
  lemma ExactlySound(t: string, last: string, taken: string) returns (w: Value)
    requires ParseValue(t, last).ok && t == taken + ParseValue(t, last).rest
    ensures taken == PrintValue(w) && ParseValue(t, last).out == Collapsed(w)
    ensures taken == PrintValue(ParseValue(t, last).out) <==> Settled(w)
    ensures Plain(taken) ==> Settled(w)
  {
    w := SoundValue(t, last, taken);
    CollapsedText(w);
    if Plain(taken) { PlainIsSettled(w); }
  }
}
