/** The recursive rules of the GDB/MI output grammar. PEGTL rewinds the input of
    a failed rule but not its effects on the output, so every rule returns what it
    has stored so far, also when it fails, together with `last`, the thread-local
    name of the variable matched last. */
module MiParser {
  import opened Text
  import opened CStrings
  import opened MiValues

  /** `out` and `last` are the effects, valid on failure too; `rest` is the input
      left, rewound to the start on failure. */
  datatype Match<+T> = Match(ok: bool, out: T, rest: string, last: string)

  /** A success consumes input; a failure leaves everything. */
  predicate Progress<T>(t: string, m: Match<T>) {
    if m.ok then |m.rest| < |t| else m.rest == t
  }

  /** Length of the longest prefix without '='. */
  function NameLength(t: string): (n: nat)
    ensures n <= |t| && '=' !in t[..n]
    ensures n < |t| ==> t[n] == '='
  {
    if t == "" || t[0] == '=' then 0 else 1 + NameLength(t[1..])
  }

  /** `result_rule`. The variable is stored, and becomes the last one, as soon as
      it is matched, whether or not '=' and a value follow. */
  function ParseResult(t: string, last: string): (m: Match<Result>)
    ensures Progress(t, m)
    decreases |t|, 1
  {
    var n := NameLength(t);
    if n == 0 then Match(false, Result("", Str("")), t, last)
    else if n == |t| then Match(false, Result(t, Str("")), t, t)
    else
      var v := ParseValue(t[n + 1..], t[..n]);
      Match(v.ok, Result(t[..n], v.out), if v.ok then v.rest else t, v.last)
  }

  /** `list<push_back<result_rule>, one<','>>`. */
  function ParseResults(t: string, last: string): (m: Match<seq<Result>>)
    ensures Progress(t, m)
    decreases |t|, 2
  {
    var r := ParseResult(t, last);
    if !r.ok then Match(false, [r.out], t, r.last)
    else
      var more := ParseMoreResults(r.rest, r.last);
      Match(true, [r.out] + more.out, more.rest, more.last)
  }

  /** `star<one<','>, push_back<result_rule>>`: never fails, but the attempt that
      ends it leaves its element behind. */
  function ParseMoreResults(t: string, last: string): (m: Match<seq<Result>>)
    ensures m.ok && |m.rest| <= |t|
    decreases |t|, 0
  {
    if !Opens(t, ',') then Match(true, [], t, last)
    else
      var r := ParseResult(t[1..], last);
      if !r.ok then Match(true, [r.out], t, r.last)
      else
        var more := ParseMoreResults(r.rest, r.last);
        Match(true, [r.out] + more.out, more.rest, more.last)
  }

  /** `list<push_back<value_rule>, one<','>>`. */
  function ParseValues(t: string, last: string): (m: Match<seq<Value>>)
    ensures Progress(t, m)
    decreases |t|, 6
  {
    var v := ParseValue(t, last);
    if !v.ok then Match(false, [v.out], t, v.last)
    else
      var more := ParseMoreValues(v.rest, v.last);
      Match(true, [v.out] + more.out, more.rest, more.last)
  }

  function ParseMoreValues(t: string, last: string): (m: Match<seq<Value>>)
    ensures m.ok && |m.rest| <= |t|
    decreases |t|, 0
  {
    if !Opens(t, ',') then Match(true, [], t, last)
    else
      var v := ParseValue(t[1..], last);
      if !v.ok then Match(true, [v.out], t, v.last)
      else
        var more := ParseMoreValues(v.rest, v.last);
        Match(true, [v.out] + more.out, more.rest, more.last)
  }

  /** `tuple_rule`. */
  function ParseTuple(t: string, last: string): (m: Match<seq<Result>>)
    ensures Progress(t, m)
    decreases |t|, 3
  {
    if !Opens(t, '{') then Match(false, [], t, last)
    else
      var rs := ParseResults(t[1..], last);
      if rs.ok && Opens(rs.rest, '}') then Match(true, rs.out, rs.rest[1..], rs.last)
      else Match(false, rs.out, t, rs.last)
  }

  /** The second alternative of `list_rule` on the text after '['. */
  function ResultsAttempt(t: string, last: string): (m: Match<seq<Result>>)
    ensures Progress(t, m)
    decreases |t|, 3
  {
    var rs := ParseResults(t, last);
    if rs.ok && Opens(rs.rest, ']') then Match(true, rs.out, rs.rest[1..], rs.last)
    else Match(false, rs.out, t, rs.last)
  }

  /** `list_rule`: `[]`, else results, else values. The third alternative re-reads
      the text of the second and overwrites what it stored, except for `last`. */
  function ParseList(t: string, last: string): (m: Match<List>)
    ensures Progress(t, m)
    decreases |t|, 4
  {
    if StartsWith(t, "[]") then Match(true, Values([]), t[2..], last)
    else if !Opens(t, '[') then Match(false, Values([]), t, last)
    else
      var rs := ResultsAttempt(t[1..], last);
      if rs.ok then Match(true, Results(rs.out), rs.rest, rs.last)
      else
        var vs := ParseValues(t[1..], rs.last);
        if vs.ok && Opens(vs.rest, ']') then Match(true, Values(vs.out), vs.rest[1..], vs.last)
        else Match(false, Values(vs.out), t, vs.last)
  }

  /** `value_rule`: each alternative overwrites the value, even when it fails. */
  function ParseValue(t: string, last: string): (m: Match<Value>)
    ensures Progress(t, m)
    decreases |t|, 5
  {
    var c := CString(t);
    if c.ok then Match(true, Str(c.text), c.rest, last)
    else
      var u := ParseTuple(t, last);
      if u.ok then Match(true, Tup(u.out), u.rest, u.last)
      else
        var l := ParseList(t, u.last);
        Match(l.ok, Lst(l.out), l.rest, l.last)
  }

  predicate IsSuffix(r: string, t: string) {
    |r| <= |t| && r == t[|t| - |r|..]
  }

  lemma SuffixTransitive(a: string, b: string, c: string)
    requires IsSuffix(a, b) && IsSuffix(b, c)
    ensures IsSuffix(a, c)
  {
    assert c[|c| - |b|..][|b| - |a|..] == c[|c| - |a|..];
  }

  lemma SuffixAfter(a: string, b: string, c: string)
    requires |c| > 0 && IsSuffix(b, c[1..]) && IsSuffix(a, b)
    ensures IsSuffix(a, c) && IsSuffix(b, c)
  {
    assert IsSuffix(c[1..], c);
    SuffixTransitive(b, c[1..], c);
    SuffixTransitive(a, b, c);
  }

  /** Every success leaves a proper suffix of its input. */
  lemma {:induction false} ResultSuffix(t: string, last: string)
    ensures IsSuffix(ParseResult(t, last).rest, t)
    decreases |t|, 1
  {
    var n := NameLength(t);
    if 0 < n < |t| {
      ValueSuffix(t[n + 1..], t[..n]);
      assert IsSuffix(t[n + 1..], t);
      SuffixTransitive(ParseValue(t[n + 1..], t[..n]).rest, t[n + 1..], t);
    }
  }

  lemma {:induction false} MoreResultsSuffix(t: string, last: string)
    ensures IsSuffix(ParseMoreResults(t, last).rest, t)
    decreases |t|, 0
  {
    if !Opens(t, ',') {
    } else {
      var r := ParseResult(t[1..], last);
      ResultSuffix(t[1..], last);
      if r.ok {
        MoreResultsSuffix(r.rest, r.last);
        SuffixAfter(ParseMoreResults(r.rest, r.last).rest, r.rest, t);
      }
    }
  }

  lemma {:induction false} ResultsSuffix(t: string, last: string)
    ensures IsSuffix(ParseResults(t, last).rest, t)
    decreases |t|, 2
  {
    var r := ParseResult(t, last);
    ResultSuffix(t, last);
    if r.ok {
      MoreResultsSuffix(r.rest, r.last);
      SuffixTransitive(ParseMoreResults(r.rest, r.last).rest, r.rest, t);
    }
  }

  lemma {:induction false} MoreValuesSuffix(t: string, last: string)
    ensures IsSuffix(ParseMoreValues(t, last).rest, t)
    decreases |t|, 0
  {
    if !Opens(t, ',') {
    } else {
      var v := ParseValue(t[1..], last);
      ValueSuffix(t[1..], last);
      if v.ok {
        MoreValuesSuffix(v.rest, v.last);
        SuffixAfter(ParseMoreValues(v.rest, v.last).rest, v.rest, t);
      }
    }
  }

  lemma {:induction false} ValuesSuffix(t: string, last: string)
    ensures IsSuffix(ParseValues(t, last).rest, t)
    decreases |t|, 6
  {
    var v := ParseValue(t, last);
    ValueSuffix(t, last);
    if v.ok {
      MoreValuesSuffix(v.rest, v.last);
      SuffixTransitive(ParseMoreValues(v.rest, v.last).rest, v.rest, t);
    }
  }

  /** A closing bracket after a match that started behind an opening one. */
  lemma ClosedSuffix(rest: string, t: string)
    requires |t| > 0 && rest != "" && IsSuffix(rest, t[1..])
    ensures IsSuffix(rest[1..], t)
  {
    assert IsSuffix(rest[1..], rest);
    SuffixAfter(rest[1..], rest, t);
  }

  lemma {:induction false} TupleSuffix(t: string, last: string)
    ensures IsSuffix(ParseTuple(t, last).rest, t)
    decreases |t|, 3
  {
    if ParseTuple(t, last).ok {
      ResultsSuffix(t[1..], last);
      ClosedSuffix(ParseResults(t[1..], last).rest, t);
    }
  }

  lemma {:induction false} ListSuffix(t: string, last: string)
    ensures IsSuffix(ParseList(t, last).rest, t)
    decreases |t|, 4
  {
    if ParseList(t, last).ok && !StartsWith(t, "[]") {
      var a := ResultsAttempt(t[1..], last);
      if a.ok {
        ResultsSuffix(t[1..], last);
        ClosedSuffix(ParseResults(t[1..], last).rest, t);
      } else {
        ValuesSuffix(t[1..], a.last);
        ClosedSuffix(ParseValues(t[1..], a.last).rest, t);
      }
    }
  }

  lemma {:induction false} ValueSuffix(t: string, last: string)
    ensures IsSuffix(ParseValue(t, last).rest, t)
    decreases |t|, 5
  {
    if !CString(t).ok {
      TupleSuffix(t, last);
      ListSuffix(t, ParseTuple(t, last).last);
    }
  }
}
