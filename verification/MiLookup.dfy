/** `find` and `find_if`, and what the elements left over by failed attempts do to
    a lookup in a result record. */
module MiLookup {
  import opened CStrings
  import opened MiNames
  import opened MiRecords
  import opened MiResultRecords
  import opened MiSoundness
  import opened MiValues
  import opened Numbers

  /** `find_if`: the value of the first result with this variable. */
  function FindIf(input: seq<Result>, id: string): (v: Option<Value>)
    ensures v.None? <==> forall i | 0 <= i < |input| :: input[i].variable != id
    ensures v.Some? ==> exists i | 0 <= i < |input| ::
                          && input[i] == Result(id, v.value)
                          && forall j | 0 <= j < i :: input[j].variable != id
  {
    if input == [] then None
    else if input[0].variable == id then Some(input[0].value)
    else
      var v := FindIf(input[1..], id);
      assert forall i | 0 <= i < |input| - 1 :: input[1..][i] == input[i + 1];
      assert v.Some? ==> exists i | 0 < i < |input| ::
        input[i] == Result(id, v.value) && forall j | 0 <= j < i :: input[j].variable != id by {
        if v.Some? {
          var i :| 0 <= i < |input| - 1 && input[1..][i] == Result(id, v.value)
                   && forall j | 0 <= j < i :: input[1..][j].variable != id;
          assert input[i + 1] == Result(id, v.value);
          forall j | 0 <= j < i + 1 ensures input[j].variable != id {
            if j > 0 { assert input[j] == input[1..][j - 1]; }
          }
        }
      }
      v
  }

  lemma FindFirst(r: Result, rest: seq<Result>, id: string)
    ensures FindIf([r] + rest, id) == if r.variable == id then Some(r.value) else FindIf(rest, id)
  {
    assert ([r] + rest)[1..] == rest;
  }

  /** The variable printed last in a result. */
  function LastOf(r: Result): string {
    LastName(r.value, r.variable)
  }

  function NamedItems(rs: seq<Result>): seq<Item> {
    if rs == [] then [] else [Named(rs[0])] + NamedItems(rs[1..])
  }

  /** What is left over under the name `id` in front of the first result called `id`:
      behind a result that ends in a variable `id` and is not the last of all. */
  function Shadow(rs: seq<Result>, end: string, id: string): Option<Value> {
    if |rs| <= 1 || rs[0].variable == id then None
    else if LastOf(rs[0]) == id then Some(Leftover(Behind(NamedItems(rs[1..]), end)))
    else Shadow(rs[1..], end, id)
  }

  /** The true answer, unless it is shadowed. */
  function Answer(rs: seq<Result>, end: string, id: string): Option<Value> {
    if Shadow(rs, end, id).Some? then Shadow(rs, end, id) else FindIf(rs, id)
  }

  /** Where no value can be read at a follow-up and none starts with a bracket, a shadow
      is an empty list. */
  lemma {:induction false} ShadowIsEmpty(rs: seq<Result>, end: string, id: string)
    requires rs != [] && Separate(NamedItems(rs[1..]), end) && NoBrackets(NamedItems(rs[1..]))
    requires RobustItems(NamedItems(rs))
    ensures Shadow(rs, end, id) in {None, Some(EMPTY_LIST)}
  {
    if |rs| == 1 {
    } else {
      var items := NamedItems(rs[1..]);
      assert items[0] == Named(rs[1]) && items[1..] == NamedItems(rs[1..][1..]);
      assert NamedItems(rs)[1..] == items;
      NameFirst(rs[1], PrintItems(items[1..]) + end);
      LeftoverExact(Behind(items, end), "");
      ShadowIsEmpty(rs[1..], end, id);
    }
  }

  lemma {:induction false} FindInFollowUps(rs: seq<Result>, end: string, last: string, id: string)
    requires last != id
    ensures FindIf(FollowUpElements(NamedItems(rs), end, last), id) == Answer(rs, end, id)
    decreases rs, 0
  {
    if rs == [] {
    } else {
      var items := NamedItems(rs);
      assert items[0] == Named(rs[0]) && items[1..] == NamedItems(rs[1..]);
      var more := FollowUpElements(items[1..], end, LastOf(rs[0]));
      var all := FollowUpElements(items, end, last);
      assert all[1..] == [rs[0]] + more && all[1..][1..] == more;
      if rs[0].variable != id {
        FindBehind(rs[1..], end, LastOf(rs[0]), id);
      }
    }
  }

  /** The lookup behind a result that ended in `last`. */
  lemma {:induction false} FindBehind(rs: seq<Result>, end: string, last: string, id: string)
    ensures FindIf(FollowUpElements(NamedItems(rs), end, last), id)
         == if rs != [] && last == id then Some(Leftover(Behind(NamedItems(rs), end)))
            else Answer(rs, end, id)
    decreases rs, 1
  {
    if rs == [] {
    } else if last == id {
      var items := NamedItems(rs);
      assert FollowUpElements(items, end, last)[0] == Result(last, Leftover(Behind(items, end)));
    } else {
      FindInFollowUps(rs, end, last, id);
    }
  }

  /** The exact effect of the leftovers on `find_if` over a record of named results: a
      key that is shadowed is answered with what is left over, every other one truly. */
  lemma FindInRecord(rs: seq<Result>, end: string, id: string)
    ensures FindIf(RecordElements(NamedItems(rs), end), id) == Answer(rs, end, id)
  {
    if rs == [] {
    } else {
      var items := NamedItems(rs);
      assert items[0] == Named(rs[0]) && items[1..] == NamedItems(rs[1..]);
      var more := FollowUpElements(items[1..], end, LastOf(rs[0]));
      assert RecordElements(items, end)[1..] == more;
      if rs[0].variable != id { FindBehind(rs[1..], end, LastOf(rs[0]), id); }
    }
  }

  /** All variables inside a value. */
  function Names(v: Value): set<string>
    decreases v, 0
  {
    match v
    case Str(_) => {}
    case Tup(rs) => NamesOf(rs)
    case Lst(Values(vs)) => NamesIn(vs)
    case Lst(Results(rs)) => NamesOf(rs)
  }

  function NamesOf(rs: seq<Result>): set<string>
    decreases rs, 0
  {
    if rs == [] then {} else {rs[0].variable} + Names(rs[0].value) + NamesOf(rs[1..])
  }

  function NamesIn(vs: seq<Value>): set<string>
    decreases vs, 0
  {
    if vs == [] then {} else Names(vs[0]) + NamesIn(vs[1..])
  }

  lemma {:induction false} LastNameIsNested(v: Value, name: string)
    ensures LastName(v, name) == name || LastName(v, name) in Names(v)
    decreases v, 0
  {
    match v
    case Str(_) =>
    case Tup(rs) => LastNameOfIsNested(rs, name);
    case Lst(Values(vs)) => LastNameInIsNested(vs, name);
    case Lst(Results(rs)) => LastNameOfIsNested(rs, name);
  }

  lemma {:induction false} LastNameOfIsNested(rs: seq<Result>, name: string)
    ensures LastNameOf(rs, name) == name || LastNameOf(rs, name) in NamesOf(rs)
    decreases rs, 0
  {
    if rs == [] {
    } else {
      LastNameIsNested(rs[0].value, rs[0].variable);
      LastNameOfIsNested(rs[1..], LastName(rs[0].value, rs[0].variable));
    }
  }

  lemma {:induction false} LastNameInIsNested(vs: seq<Value>, name: string)
    ensures LastNameIn(vs, name) == name || LastNameIn(vs, name) in NamesIn(vs)
    decreases vs, 0
  {
    if vs == [] {
    } else {
      LastNameIsNested(vs[0], name);
      LastNameInIsNested(vs[1..], LastName(vs[0], name));
    }
  }

  /** In front of the first result called `id`, no value holds a variable `id`. */
  predicate Unnested(rs: seq<Result>, id: string) {
    rs == [] || rs[0].variable == id || (id !in Names(rs[0].value) && Unnested(rs[1..], id))
  }

  lemma {:induction false} UnnestedIsNoShadow(rs: seq<Result>, end: string, id: string)
    requires Unnested(rs, id)
    ensures Shadow(rs, end, id) == None
  {
    if |rs| <= 1 || rs[0].variable == id {
    } else {
      LastNameIsNested(rs[0].value, rs[0].variable);
      UnnestedIsNoShadow(rs[1..], end, id);
    }
  }

  /** A lookup in the parsed record is the lookup in the record itself for every key
      that is no variable nested inside a result in front of it. */
  lemma FindUnlessNested(rs: seq<Result>, end: string, id: string)
    requires Unnested(rs, id)
    ensures FindIf(RecordElements(NamedItems(rs), end), id) == FindIf(rs, id)
  {
    UnnestedIsNoShadow(rs, end, id);
    FindInRecord(rs, end, id);
  }

  /** From text to lookup: what a consumer finds in the vector of a parsed record. */
  lemma {:induction false} FindInParsedRecord(c: ResultClass, rs: seq<Result>, end: string, last: string, id: string)
    requires AtEnd(end) && RobustRecord(NamedItems(rs), end)
    ensures var m := ParseRecord("^" + (ClassText(c) + (PrintItems(NamedItems(rs)) + end)), last);
            m.Accepted? && m.value.1.resultClass == c && FindIf(m.value.1.results, id) == Answer(rs, end, id)
  {
    var line := "^" + (ClassText(c) + (PrintItems(NamedItems(rs)) + end));
    assert "" + line == line;
    RobustRecordRead("", c, NamedItems(rs), end, last);
    FindInRecord(rs, end, id);
  }

  /** A lookup that goes wrong: in `a={k="1"},k="2"` the key `k` is answered with the
      empty list left over behind the tuple. */
  lemma {:induction false} WrongAnswer(c: ResultClass, end: string, last: string)
    requires AtEnd(end)
    ensures var rs := [Result("a", Tup([Result("k", Str("1"))])), Result("k", Str("2"))];
            var m := ParseRecord("^" + (ClassText(c) + (PrintItems(NamedItems(rs)) + end)), last);
            && m.Accepted? && FindIf(m.value.1.results, "k") == Some(EMPTY_LIST)
            && FindIf(rs, "k") == Some(Str("2"))
  {
    var inner, second := [Result("k", Str("1"))], Result("k", Str("2"));
    var first := Result("a", Tup(inner));
    var rs, items := [first, second], [Named(second)];
    NamedCons(second, []);
    NamedCons(first, [second]);
    assert [second] + [] == [second] && [first] + [second] == rs;
    assert items[1..] == [] && rs[1..] == [second] && NamedItems(rs)[1..] == items;
    PlainIsSeparate(items, end);
    WrongAnswerIsRobust();
    assert LastNameOf(inner, "a") == LastNameOf(inner[1..], "k") == "k";
    FindInParsedRecord(c, rs, end, last, "k");
    ShadowIsEmpty(rs, end, "k");
    assert Shadow(rs, end, "k").Some?;
    FindFirst(first, [second], "k");
    FindFirst(second, [], "k");
  }

  lemma WrongAnswerIsRobust()
    ensures var first, second := Result("a", Tup([Result("k", Str("1"))])), Result("k", Str("2"));
            RobustItems([Named(first)] + [Named(second)])
  {
    var inner, second := [Result("k", Str("1"))], Result("k", Str("2"));
    BareIsEscapable("1");
    BareIsEscapable("2");
    assert inner[1..] == [] && [Named(second)][1..] == [];
    assert RobustResults(inner) && RobustItems([Named(second)]);
    assert ([Named(Result("a", Tup(inner)))] + [Named(second)])[1..] == [Named(second)];
  }

  lemma NamedCons(r: Result, rs: seq<Result>)
    ensures NamedItems([r] + rs) == [Named(r)] + NamedItems(rs)
  {
    assert ([r] + rs)[1..] == rs;
  }

  // ---- Lookups in every accepted record ----

  /** The value of the first named item called `id`. */
  function FindNamed(items: seq<Item>, id: string): Option<Value> {
    if items == [] then None
    else if items[0].Named? && items[0].r.variable == id then Some(Collapsed(items[0].r.value))
    else FindNamed(items[1..], id)
  }

  /** What stands under an inherited name `id` in front of the first named item called
      `id`: a leftover or an unnamed value. */
  function Inherited(items: seq<Item>, end: string, last: string, id: string): Option<Value> {
    if items == [] then None
    else
      var tail := PrintItems(items[1..]) + end;
      match items[0]
      case Named(r) =>
        if last == id then Some(Leftover(Behind(items, end)))
        else if r.variable == id then None
        else Inherited(items[1..], end, NameBehind(r.value, tail, r.variable), id)
      case Unnamed(v) =>
        if last == id then Some(Collapsed(v)) else Inherited(items[1..], end, NameBehind(v, tail, last), id)
  }

  function FollowUpAnswer(items: seq<Item>, end: string, last: string, id: string): Option<Value> {
    var inherited := Inherited(items, end, last, id);
    if inherited.Some? then inherited else FindNamed(items, id)
  }

  lemma {:induction false} FindInElements(items: seq<Item>, end: string, last: string, id: string)
    ensures FindIf(Elements(items, end, last), id) == FollowUpAnswer(items, end, last, id)
  {
    if items == [] {
    } else {
      var tail := PrintItems(items[1..]) + end;
      match items[0]
      case Unnamed(v) =>
        var more := Elements(items[1..], end, NameBehind(v, tail, last));
        FindFirst(Result(last, Collapsed(v)), more, id);
        FindInElements(items[1..], end, NameBehind(v, tail, last), id);
      case Named(r) =>
        var more := Elements(items[1..], end, NameBehind(r.value, tail, r.variable));
        FindFirst(Result(last, Leftover(Behind(items, end))), [CollapsedResult(r)] + more, id);
        FindFirst(CollapsedResult(r), more, id);
        FindInElements(items[1..], end, NameBehind(r.value, tail, r.variable), id);
    }
  }

  /** Named and unnamed items mixed, in every accepted record: a lookup gives the value of
      the first item of that name, unless something stands in front of it under the same
      name by inheritance. */
  lemma {:induction false} FindInAccepted(t: string, last: string, id: string) returns (items: seq<Item>, end: string)
    requires RecordRule(t, last).Some?
    ensures var r := RecordRule(t, last).value;
            && t == "^" + (ClassText(r.resultClass) + (PrintItems(items) + end)) && AtEnd(end)
            && ReadableRecord(items, end)
            && FindIf(r.results, id)
               == if items == [] then None
                  else if items[0].r.variable == id then Some(Collapsed(items[0].r.value))
                  else FollowUpAnswer(items[1..], end,
                    NameBehind(items[0].r.value, PrintItems(items[1..]) + end, items[0].r.variable), id)
  {
    items, end := RecordSound(t, last);
    if items != [] {
      var r := items[0].r;
      var name := NameBehind(r.value, PrintItems(items[1..]) + end, r.variable);
      FindFirst(CollapsedResult(r), Elements(items[1..], end, name), id);
      FindInElements(items[1..], end, name, id);
    }
  }
}
