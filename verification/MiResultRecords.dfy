/** Result records: the vector a record is read into, with the elements that failed
    attempts leave in it, from the record to the vector and back. */
module MiResultRecords {
  import opened MiExact
  import opened MiNames
  import opened MiParser
  import opened MiRecordLaws
  import opened MiRecords
  import opened MiRoundTrip
  import opened MiSoundness
  import opened MiValues
  import opened Numbers
  import opened Sequences
  import opened Text

  /** The comma-separated items of a result record: named results, and unnamed
      values that follow them. */
  datatype Item = Named(r: Result) | Unnamed(v: Value)

  function PrintItem(i: Item): string {
    match i
    case Named(r) => PrintResult(r)
    case Unnamed(v) => PrintValue(v)
  }

  function PrintItems(items: seq<Item>): string {
    if items == [] then "" else "," + PrintItem(items[0]) + PrintItems(items[1..])
  }

  lemma CommaText(first: string, more: string, end: string)
    ensures var t := "," + first + more + end;
            t[0] == ',' && t[1..] == first + (more + end)
  {
  }

  lemma ItemsText(items: seq<Item>, end: string)
    requires items != []
    ensures var t := PrintItems(items) + end;
            && t[0] == ',' && t[1..] == PrintItem(items[0]) + (PrintItems(items[1..]) + end)
  {
    CommaText(PrintItem(items[0]), PrintItems(items[1..]), end);
  }

  // ---- The attempt in front of a named follow-up ----

  /** No value can be read at `u`. */
  predicate Declined(u: string) {
    !ParseValue(u, "").ok
  }

  /** What an attempt to read a value at `u` stores. */
  function Leftover(u: string): Value {
    ParseValue(u, "").out
  }

  /** Behind a bracket the last alternative has stored a value even when it failed. */
  lemma BracketStores(u: string, last: string)
    requires Opens(u, '[') && !StartsWith(u, "[]")
    ensures ParseList(u, last).out != Values([])
  {
    var a := ResultsAttempt(u[1..], last);
    assert ParseValues(u[1..], a.last).out != [];
  }

  /** Exactly what an attempt leaves, whatever name was matched before: a failed one
      an empty list unless the text starts with a bracket; any one an empty list only
      if it failed without a bracket or read `[]`. */
  lemma LeftoverExact(u: string, last: string)
    ensures ParseValue(u, last).ok <==> !Declined(u)
    ensures ParseValue(u, last).out == Leftover(u)
    ensures Declined(u) ==> (Leftover(u) == EMPTY_LIST <==> !Opens(u, '['))
    ensures Leftover(u) == EMPTY_LIST <==> (Declined(u) && !Opens(u, '[')) || StartsWith(u, "[]")
    ensures Declined(u) ==> !StartsWith(u, "[]")
  {
    ValueIgnoresLast(u, last, "");
    if StartsWith(u, "[]") {
      assert u[0] == u[..2][0];
    } else if Opens(u, '[') {
      BracketStores(u, ParseTuple(u, "").last);
    }
  }

  /** The text behind the first comma. */
  function Behind(items: seq<Item>, end: string): string
    requires items != []
  {
    PrintItem(items[0]) + (PrintItems(items[1..]) + end)
  }

  /** In front of every named item the attempt to read a value fails. */
  predicate Separate(items: seq<Item>, end: string) {
    items != [] ==>
      (items[0].Named? ==> Declined(Behind(items, end))) && Separate(items[1..], end)
  }

  /** No named item starts with a bracket. */
  predicate NoBrackets(items: seq<Item>) {
    items != [] ==>
      (items[0].Named? ==> !Opens(items[0].r.variable, '[')) && NoBrackets(items[1..])
  }

  /** No named item starts with a quote, a brace or a bracket. */
  predicate PlainItems(items: seq<Item>) {
    items != [] ==>
      (items[0].Named? ==> PlainName(items[0].r.variable)) && PlainItems(items[1..])
  }

  /** The first character of a named item is that of its name. */
  lemma NameFirst(r: Result, tail: string)
    requires r.variable != ""
    ensures (PrintResult(r) + tail)[0] == r.variable[0]
  {
    assert PrintResult(r)[0] == r.variable[0];
  }

  /** A condition on the names alone that is enough. */
  lemma {:induction false} PlainIsSeparate(items: seq<Item>, end: string)
    requires PlainItems(items)
    ensures Separate(items, end) && NoBrackets(items)
  {
    if items == [] {
    } else {
      PlainIsSeparate(items[1..], end);
      if items[0].Named? {
        NameFirst(items[0].r, PrintItems(items[1..]) + end);
        NoValueHere(Behind(items, end), "");
      }
    }
  }

  // ---- The vector ----

  /** In front of `tail`, exactly the text of `v` is read, and as `v` with collapsed
      strings. */
  predicate Reads(v: Value, tail: string) {
    var m := ParseValue(PrintValue(v) + tail, "");
    m.ok && m.out == Collapsed(v) && m.rest == tail
  }

  lemma ReadsAnyhow(v: Value, tail: string, last: string)
    requires Reads(v, tail)
    ensures ParseValue(PrintValue(v) + tail, last) == Match(true, Collapsed(v), tail, NameBehind(v, tail, last))
  {
    ValueIgnoresLast(PrintValue(v) + tail, last, "");
    ValueName(v, tail, last);
  }

  /** Each of the follow-ups is read where it stands: its value as itself, and a named
      one not as a value. */
  predicate Readable(items: seq<Item>, end: string) {
    items != [] ==>
      && (match items[0]
          case Named(r) =>
            ProperName(r.variable) && Declined(Behind(items, end)) && Reads(r.value, PrintItems(items[1..]) + end)
          case Unnamed(v) => Reads(v, PrintItems(items[1..]) + end))
      && Readable(items[1..], end)
  }

  /** What follow-ups add to the vector, `last` being the name matched last before them:
      an unnamed value takes that name, and so does what the failed attempt in front of a
      named result leaves over. */
  function Elements(items: seq<Item>, end: string, last: string): seq<Result> {
    if items == [] then []
    else
      var tail := PrintItems(items[1..]) + end;
      match items[0]
      case Named(r) =>
        [Result(last, Leftover(Behind(items, end)))]
        + ([CollapsedResult(r)] + Elements(items[1..], end, NameBehind(r.value, tail, r.variable)))
      case Unnamed(v) =>
        [Result(last, Collapsed(v))] + Elements(items[1..], end, NameBehind(v, tail, last))
  }

  /** The first item of a record has no name to inherit; it may have any name. */
  predicate ReadableRecord(items: seq<Item>, end: string) {
    items != [] ==>
      && items[0].Named? && ProperName(items[0].r.variable)
      && Reads(items[0].r.value, PrintItems(items[1..]) + end)
      && Readable(items[1..], end)
  }

  function Vector(items: seq<Item>, end: string): seq<Result>
    requires items != [] ==> items[0].Named?
  {
    if items == [] then []
    else
      var r := items[0].r;
      [CollapsedResult(r)]
      + Elements(items[1..], end, NameBehind(r.value, PrintItems(items[1..]) + end, r.variable))
  }

  // ---- From the record to the vector ----

  lemma FollowUpStep(t: string, v: Value, tail: string, last: string, name: string)
    requires Opens(t, ',') && ParseValue(t[1..], last) == Match(true, v, tail, name)
    ensures var g := ParseFollowUps(tail, name);
            ParseFollowUps(t, last) == Match(true, [Result(last, v)] + g.out, g.rest, g.last)
  {
  }

  /** The exact law of one boundary, for every text behind a comma: the inner
      repetition gives way to the outer one if and only if no value can be read there,
      and then it has left one element; with an empty list exactly when the text does
      not start with a bracket either. */
  lemma BoundaryExact(t: string, last: string)
    requires Opens(t, ',')
    ensures var f, u := ParseFollowUps(t, last), t[1..];
            && (f.rest == t <==> Declined(u))
            && (Declined(u) ==> f.out == [Result(last, Leftover(u))])
            && (f.rest == t && f.out == [Result(last, EMPTY_LIST)] <==> Declined(u) && !Opens(u, '['))
  {
    LeftoverExact(t[1..], last);
  }

  /** `result_record_rule` once its class is known. */
  lemma {:induction false} RecordRuleAt(t: string, c: ResultClass, tail: string, last: string)
    requires Opens(t, '^') && t[1..] == ClassText(c) + tail
    ensures var rs := ParseRecordResults(tail, last);
            RecordRule(t, last) == if AtEnd(rs.rest) then Some(ResultOutput(c, rs.out)) else None
  {
    assert t[1 + |ClassText(c)|..] == t[1..][|ClassText(c)|..] == tail;
    ClassRead(c, tail);
  }

  lemma ClassRead(c: ResultClass, tail: string)
    ensures ParseClass(ClassText(c) + tail) == Some(c)
  {
    var t := ClassText(c) + tail;
    assert t[..|ClassText(c)|] == ClassText(c);
    assert t[0] == ClassText(c)[0] && t[1] == ClassText(c)[1];
    assert forall p | StartsWith(t, p) && |p| > 1 :: p[0] == t[0] && p[1] == t[1];
  }

  /** What the repetitions behind a named result yield, and leave. */
  function Collected(t: string, last: string): (seq<Result>, string) {
    var f := ParseFollowUps(t, last);
    var m := ParseRecordResults(f.rest, f.last);
    (f.out + m.out, m.rest)
  }

  /** An unnamed value that is read adds one element. */
  lemma CollectedUnnamed(t: string, v: Value, tail: string, last: string, name: string)
    requires Opens(t, ',') && ParseValue(t[1..], last) == Match(true, v, tail, name)
    ensures var (out, rest) := Collected(tail, name);
            Collected(t, last) == ([Result(last, v)] + out, rest)
  {
    FollowUpStep(t, v, tail, last, name);
    var g := ParseFollowUps(tail, name);
    Associative([Result(last, v)], g.out, ParseRecordResults(g.rest, g.last).out);
  }

  /** A named result at which no value is read adds two. */
  lemma CollectedNamed(t: string, r: Result, tail: string, last: string)
    requires Opens(t, ',') && t[1..] == PrintResult(r) + tail && Declined(t[1..])
    requires ProperName(r.variable) && Reads(r.value, tail)
    ensures var (out, rest) := Collected(tail, NameBehind(r.value, tail, r.variable));
            Collected(t, last) == ([Result(last, Leftover(t[1..]))] + ([CollapsedResult(r)] + out), rest)
  {
    BoundaryExact(t, last);
    NamedRead(t, r, tail, ParseFollowUps(t, last).last);
  }

  /** The outer repetition on a named result. */
  lemma NamedRead(t: string, r: Result, tail: string, last: string)
    requires Opens(t, ',') && t[1..] == PrintResult(r) + tail
    requires ProperName(r.variable) && Reads(r.value, tail)
    ensures var (out, rest) := Collected(tail, NameBehind(r.value, tail, r.variable));
            var m := ParseRecordResults(t, last);
            m.out == [CollapsedResult(r)] + out && m.rest == rest
  {
    ResultAt(r, tail, last);
    ReadsAnyhow(r.value, tail, r.variable);
    var g := ParseFollowUps(tail, NameBehind(r.value, tail, r.variable));
    Associative([CollapsedResult(r)], g.out, ParseRecordResults(g.rest, g.last).out);
  }

  lemma NothingCollected(end: string, last: string)
    requires AtEnd(end)
    ensures Collected(end, last) == ([], end)
  {
    var none: seq<Result> := [];
    assert ParseFollowUps(end, last).out == none && none + none == none;
  }

  /** The two nested repetitions on the items after a named result. */
  lemma {:induction false} FollowUpsRead(items: seq<Item>, end: string, last: string)
    requires Readable(items, end) && AtEnd(end)
    ensures Collected(PrintItems(items) + end, last) == (Elements(items, end, last), end)
  {
    var t := PrintItems(items) + end;
    if items == [] {
      assert t == end;
      NothingCollected(end, last);
    } else {
      var tail := PrintItems(items[1..]) + end;
      ItemsText(items, end);
      match items[0]
      case Unnamed(v) =>
        ReadsAnyhow(v, tail, last);
        CollectedUnnamed(t, Collapsed(v), tail, last, NameBehind(v, tail, last));
        FollowUpsRead(items[1..], end, NameBehind(v, tail, last));
      case Named(r) =>
        CollectedNamed(t, r, tail, last);
        FollowUpsRead(items[1..], end, NameBehind(r.value, tail, r.variable));
    }
  }

  lemma CaretText(c: ResultClass, tail: string)
    ensures var t := "^" + (ClassText(c) + tail); Opens(t, '^') && t[1..] == ClassText(c) + tail
  {
  }

  lemma {:induction false} RecordRuleRead(c: ResultClass, items: seq<Item>, end: string, last: string)
    requires ReadableRecord(items, end) && AtEnd(end)
    ensures RecordRule("^" + (ClassText(c) + (PrintItems(items) + end)), last)
         == Some(ResultOutput(c, Vector(items, end)))
  {
    var t := PrintItems(items) + end;
    CaretText(c, t);
    RecordRuleAt("^" + (ClassText(c) + t), c, t, last);
    if items == [] {
      assert t == end;
    } else {
      var r, tail := items[0].r, PrintItems(items[1..]) + end;
      ItemsText(items, end);
      NamedRead(t, r, tail, last);
      FollowUpsRead(items[1..], end, NameBehind(r.value, tail, r.variable));
    }
  }

  /** Completeness, for every record of readable items: it is accepted, and its vector
      is exactly Vector. */
  lemma {:induction false} RecordRead(tk: string, c: ResultClass, items: seq<Item>, end: string, last: string)
    requires AllDigits(tk, 10) && Number(tk, 10) <= MAX_U64 && AtEnd(end)
    requires ReadableRecord(items, end)
    ensures ParseRecord(tk + ("^" + (ClassText(c) + (PrintItems(items) + end))), last)
         == Accepted((if tk == "" then None else Some(Number(tk, 10)), ResultOutput(c, Vector(items, end))))
  {
    RecordRuleRead(c, items, end, last);
    TokenOf(tk, "^" + (ClassText(c) + (PrintItems(items) + end)));
  }

  // ---- From the vector to the record ----

  predicate WellFormedItems(items: seq<Item>) {
    items != [] ==>
      && (match items[0]
          case Named(r) => ProperName(r.variable) && WellFormed(r.value)
          case Unnamed(v) => WellFormed(v))
      && WellFormedItems(items[1..])
  }

  /** One more item in front. */
  lemma {:induction false} ItemInFront(i: Item, items: seq<Item>, t: string, tail: string, end: string)
    requires Opens(t, ',') && t[1..] == PrintItem(i) + tail && tail == PrintItems(items) + end
    ensures t == PrintItems([i] + items) + end
  {
    assert ([i] + items)[1..] == items;
    CommaText(PrintItem(i), PrintItems(items), end);
    assert t == "," + t[1..];
  }

  /** What has been read is readable. */
  lemma ReadIsReads(t: string, last: string, w: Value, tail: string)
    requires t == PrintValue(w) + tail && ParseValue(t, last).ok
    requires ParseValue(t, last).out == Collapsed(w) && ParseValue(t, last).rest == tail
    ensures Reads(w, tail) && ParseValue(t, last).last == NameBehind(w, tail, last)
  {
    ValueIgnoresLast(t, last, "");
    ValueName(w, tail, last);
  }

  /** The repetitions behind a named result: the canonical text of some readable items,
      and exactly their elements. */
  lemma {:induction false} FollowUpsSound(t: string, last: string) returns (items: seq<Item>)
    requires AtEnd(Collected(t, last).1)
    ensures var (out, end) := Collected(t, last);
            && t == PrintItems(items) + end
            && Readable(items, end) && WellFormedItems(items) && out == Elements(items, end, last)
    decreases |t|, 2
  {
    items := [];
    if Opens(t, ',') {
      var v := ParseValue(t[1..], last);
      LeftoverExact(t[1..], last);
      if v.ok {
        ValueSuffix(t[1..], last);
        var taken := Taken(t[1..], v.rest);
        var w := SoundValue(t[1..], last, taken);
        CollectedUnnamed(t, v.out, v.rest, last, v.last);
        var more := FollowUpsSound(v.rest, v.last);
        items := [Unnamed(w)] + more;
        ReadIsReads(t[1..], last, w, v.rest);
        ItemInFront(Unnamed(w), more, t, v.rest, Collected(t, last).1);
        UnnamedCollected(w, more, Collected(t, last).1, last);
      } else {
        BoundaryExact(t, last);
        var r, more := NamedSound(t, v.last);
        items := [Named(r)] + more;
        NamedCollected(r, more, Collected(t, last).1, last);
      }
    }
  }

  lemma {:induction false} UnnamedCollected(v: Value, items: seq<Item>, end: string, last: string)
    requires WellFormed(v) && WellFormedItems(items)
    requires Reads(v, PrintItems(items) + end) && Readable(items, end)
    ensures var all := [Unnamed(v)] + items;
            && WellFormedItems(all) && Readable(all, end)
            && Elements(all, end, last)
               == [Result(last, Collapsed(v))] + Elements(items, end, NameBehind(v, PrintItems(items) + end, last))
  {
    assert ([Unnamed(v)] + items)[1..] == items;
  }

  lemma {:induction false} NamedCollected(r: Result, items: seq<Item>, end: string, last: string)
    requires ProperName(r.variable) && WellFormed(r.value) && WellFormedItems(items)
    requires Declined(PrintResult(r) + (PrintItems(items) + end))
    requires Reads(r.value, PrintItems(items) + end) && Readable(items, end)
    ensures var all, tail := [Named(r)] + items, PrintItems(items) + end;
            && WellFormedItems(all) && Readable(all, end)
            && Elements(all, end, last)
               == [Result(last, Leftover(PrintResult(r) + tail))]
                  + ([CollapsedResult(r)] + Elements(items, end, NameBehind(r.value, tail, r.variable)))
  {
    var all := [Named(r)] + items;
    assert all[1..] == items && Behind(all, end) == PrintResult(r) + (PrintItems(items) + end);
  }

  lemma {:induction false} NamedSound(t: string, last: string) returns (r: Result, items: seq<Item>)
    requires Opens(t, ',') && AtEnd(ParseRecordResults(t, last).rest)
    ensures var m := ParseRecordResults(t, last);
            var tail := PrintItems(items) + m.rest;
            && t == PrintItems([Named(r)] + items) + m.rest && t[1..] == PrintResult(r) + tail
            && ProperName(r.variable) && WellFormed(r.value) && WellFormedItems(items)
            && Reads(r.value, tail) && Readable(items, m.rest)
            && m.out == [CollapsedResult(r)] + Elements(items, m.rest, NameBehind(r.value, tail, r.variable))
    decreases |t|, 1
  {
    var p := ParseResult(t[1..], last);
    assert p.ok;
    ResultSuffix(t[1..], last);
    var taken := Taken(t[1..], p.rest);
    r := SoundResult(t[1..], last, taken);
    ResultAt(r, p.rest, last);
    ReadIsReads(PrintValue(r.value) + p.rest, r.variable, r.value, p.rest);
    NamedRead(t, r, p.rest, last);
    items := FollowUpsSound(p.rest, p.last);
    ItemInFront(Named(r), items, t, p.rest, ParseRecordResults(t, last).rest);
  }

  /** Soundness, for every accepted text: a result record is its class and the text of
      well-formed readable items, the first one named, and its vector is exactly
      Vector: the items with collapsed strings, and one leftover in front of each named
      follow-up. */
  lemma {:induction false} RecordSound(t: string, last: string) returns (items: seq<Item>, end: string)
    requires RecordRule(t, last).Some?
    ensures var r := RecordRule(t, last).value;
            && t == "^" + (ClassText(r.resultClass) + (PrintItems(items) + end)) && AtEnd(end)
            && WellFormedItems(items) && ReadableRecord(items, end) && r.results == Vector(items, end)
  {
    var c := ParseClass(t[1..]).value;
    var u := ClassTaken(t);
    RecordRuleAt(t, c, u, last);
    items := ItemsSound(u, last);
    end := ParseRecordResults(u, last).rest;
  }

  lemma ClassTaken(t: string) returns (u: string)
    requires Opens(t, '^') && ParseClass(t[1..]).Some?
    ensures var text := ClassText(ParseClass(t[1..]).value);
            t[1..] == text + u && t == "^" + (text + u)
  {
    var text := ClassText(ParseClass(t[1..]).value);
    assert StartsWith(t[1..], text);
    u := t[1..][|text|..];
    assert t[1..] == text + u;
    assert t == "^" + t[1..];
  }

  lemma {:induction false} ItemsSound(u: string, last: string) returns (items: seq<Item>)
    requires AtEnd(ParseRecordResults(u, last).rest)
    ensures var m := ParseRecordResults(u, last);
            && u == PrintItems(items) + m.rest && WellFormedItems(items)
            && ReadableRecord(items, m.rest) && m.out == Vector(items, m.rest)
  {
    items := [];
    if Opens(u, ',') {
      var r, more := NamedSound(u, last);
      items := [Named(r)] + more;
      assert items[1..] == more;
    }
  }

  // ---- When every leftover is an empty list ----

  /** In front of every named item `out` holds an empty list. */
  predicate EmptyLeftovers(items: seq<Item>, out: seq<Result>) {
    items != [] ==>
      match items[0]
      case Named(_) => |out| > 1 && out[0].value == EMPTY_LIST && EmptyLeftovers(items[1..], out[2..])
      case Unnamed(_) => |out| > 0 && EmptyLeftovers(items[1..], out[1..])
  }

  /** The exact law of the leftovers, for all readable items: all of them are empty lists
      if and only if no named follow-up starts with a bracket. */
  lemma {:induction false} LeftoversExact(items: seq<Item>, end: string, last: string)
    requires Readable(items, end)
    ensures EmptyLeftovers(items, Elements(items, end, last)) <==> NoBrackets(items)
  {
    if items == [] {
    } else {
      var tail, out := PrintItems(items[1..]) + end, Elements(items, end, last);
      match items[0]
      case Unnamed(v) =>
        assert out[1..] == Elements(items[1..], end, NameBehind(v, tail, last));
        LeftoversExact(items[1..], end, NameBehind(v, tail, last));
      case Named(r) =>
        NameFirst(r, tail);
        LeftoverExact(Behind(items, end), "");
        assert out[2..] == Elements(items[1..], end, NameBehind(r.value, tail, r.variable));
        LeftoversExact(items[1..], end, NameBehind(r.value, tail, r.variable));
    }
  }

  /** The same for every accepted text: in front of each named follow-up its vector has
      an empty list if and only if no named follow-up starts with a bracket. */
  lemma {:induction false} RecordLeftovers(t: string, last: string) returns (items: seq<Item>, end: string)
    requires RecordRule(t, last).Some?
    ensures var r := RecordRule(t, last).value;
            && t == "^" + (ClassText(r.resultClass) + (PrintItems(items) + end)) && AtEnd(end)
            && ReadableRecord(items, end) && r.results == Vector(items, end)
            && (items != [] ==> (EmptyLeftovers(items[1..], r.results[1..]) <==> NoBrackets(items[1..])))
  {
    items, end := RecordSound(t, last);
    if items != [] {
      var r := items[0].r;
      var name := NameBehind(r.value, PrintItems(items[1..]) + end, r.variable);
      assert RecordRule(t, last).value.results[1..] == Elements(items[1..], end, name);
      LeftoversExact(items[1..], end, name);
    }
  }

  // ---- Records of robust items ----

  predicate RobustItem(i: Item) {
    match i
    case Named(r) => ProperName(r.variable) && Robust(r.value)
    case Unnamed(v) => Robust(v)
  }

  predicate RobustItems(items: seq<Item>) {
    items != [] ==> RobustItem(items[0]) && RobustItems(items[1..])
  }

  /** The first item is named; no value can be read at a named follow-up. */
  predicate RobustRecord(items: seq<Item>, end: string) {
    items != [] ==> items[0].Named? && RobustItems(items) && Separate(items[1..], end)
  }

  /** Elements, written without the parser. */
  function FollowUpElements(items: seq<Item>, end: string, last: string): seq<Result> {
    if items == [] then []
    else match items[0]
      case Named(r) =>
        [Result(last, Leftover(Behind(items, end)))]
        + ([r] + FollowUpElements(items[1..], end, LastName(r.value, r.variable)))
      case Unnamed(v) =>
        [Result(last, v)] + FollowUpElements(items[1..], end, LastName(v, last))
  }

  function RecordElements(items: seq<Item>, end: string): seq<Result>
    requires items != [] ==> items[0].Named?
  {
    if items == [] then []
    else [items[0].r] + FollowUpElements(items[1..], end, LastName(items[0].r.value, items[0].r.variable))
  }

  lemma RobustReads(v: Value, tail: string, name: string)
    requires Robust(v)
    ensures Reads(v, tail) && Collapsed(v) == v && NameBehind(v, tail, name) == LastName(v, name)
  {
    RobustIsSettled(v);
    CollapsedText(v);
    RobustValue(v, tail, "");
    RobustValue(v, tail, name);
    ValueName(v, tail, name);
  }

  lemma {:induction false} RobustIsSettled(v: Value)
    requires Robust(v)
    ensures Settled(v)
    decreases v, 0
  {
    match v
    case Str(_) =>
    case Tup(rs) => RobustResultsSettled(rs);
    case Lst(Values(vs)) => RobustValuesSettled(vs);
    case Lst(Results(rs)) => RobustResultsSettled(rs);
  }

  lemma {:induction false} RobustResultsSettled(rs: seq<Result>)
    requires RobustResults(rs)
    ensures SettledResults(rs)
    decreases rs, 0
  {
    if rs == [] {
    } else {
      RobustIsSettled(rs[0].value);
      RobustResultsSettled(rs[1..]);
    }
  }

  lemma {:induction false} RobustValuesSettled(vs: seq<Value>)
    requires RobustValues(vs)
    ensures SettledValues(vs)
    decreases vs, 0
  {
    if vs == [] {
    } else {
      RobustIsSettled(vs[0]);
      RobustValuesSettled(vs[1..]);
    }
  }

  /** Robust follow-ups are readable exactly where no value can be read at a named one. */
  lemma {:induction false} RobustElements(items: seq<Item>, end: string, last: string)
    requires RobustItems(items)
    ensures Readable(items, end) <==> Separate(items, end)
    ensures Elements(items, end, last) == FollowUpElements(items, end, last)
  {
    if items == [] {
    } else {
      var tail := PrintItems(items[1..]) + end;
      match items[0]
      case Unnamed(v) =>
        RobustReads(v, tail, last);
        RobustElements(items[1..], end, LastName(v, last));
      case Named(r) =>
        RobustReads(r.value, tail, r.variable);
        RobustElements(items[1..], end, LastName(r.value, r.variable));
    }
  }

  /** So every such record is accepted, with a vector that the items determine. */
  lemma {:induction false} RobustRecordRead(tk: string, c: ResultClass, items: seq<Item>, end: string, last: string)
    requires AllDigits(tk, 10) && Number(tk, 10) <= MAX_U64 && AtEnd(end)
    requires RobustRecord(items, end)
    ensures ParseRecord(tk + ("^" + (ClassText(c) + (PrintItems(items) + end))), last)
         == Accepted((if tk == "" then None else Some(Number(tk, 10)),
                      ResultOutput(c, RecordElements(items, end))))
  {
    RobustVector(items, end);
    RecordRead(tk, c, items, end, last);
  }

  lemma RobustVector(items: seq<Item>, end: string)
    requires RobustRecord(items, end)
    ensures ReadableRecord(items, end) && Vector(items, end) == RecordElements(items, end)
  {
    if items == [] {
    } else {
      var r := items[0].r;
      RobustReads(r.value, PrintItems(items[1..]) + end, r.variable);
      RobustElements(items[1..], end, LastName(r.value, r.variable));
    }
  }

  /** A follow-up whose name starts with a bracket: the list in front of it is not empty.
      `^done,a="1",[b="2"` is the smallest case. */
  lemma {:induction false} BracketName(c: ResultClass, first: Result, name: string, v: Value, end: string, last: string)
    requires ProperName(first.variable) && Robust(first.value)
    requires PlainName(name) && name[0] != ']' && Robust(v) && AtEnd(end)
    ensures var next := Result("[" + name, v);
            RecordRule("^" + (ClassText(c) + (PrintItems([Named(first), Named(next)]) + end)), last)
            == Some(ResultOutput(c, [first, Result(LastName(first.value, first.variable), Lst(Values([EMPTY_LIST]))),
                                     next]))
  {
    var next := Result("[" + name, v);
    var items := [Named(first), Named(next)];
    assert items[1..] == [Named(next)] && [Named(next)][1..] == [];
    assert PrintItems([]) + end == end;
    BracketAttempt(name, v, end);
    assert ProperName(next.variable) by { assert next.variable[0] == '['; }
    assert Separate([Named(next)], end) && RobustItems([Named(next)]);
    RobustVector(items, end);
    RecordRuleRead(c, items, end, last);
    BracketElements(first, next, end);
  }

  lemma BracketElements(first: Result, next: Result, end: string)
    requires Leftover(PrintResult(next) + end) == Lst(Values([EMPTY_LIST]))
    ensures RecordElements([Named(first), Named(next)], end)
         == [first, Result(LastName(first.value, first.variable), Lst(Values([EMPTY_LIST]))), next]
  {
    var last := LastName(first.value, first.variable);
    assert [Named(first), Named(next)][1..] == [Named(next)] && [Named(next)][1..] == [];
    assert PrintItems([]) + end == end && Behind([Named(next)], end) == PrintResult(next) + end;
    assert FollowUpElements([Named(next)], end, last)
        == [Result(last, Lst(Values([EMPTY_LIST])))] + ([next] + []);
  }

  /** The attempt at such a name: neither results nor values up to a bracket. */
  lemma BracketAttempt(name: string, v: Value, end: string)
    requires PlainName(name) && name[0] != ']' && Robust(v) && AtEnd(end)
    ensures var u := PrintResult(Result("[" + name, v)) + end;
            Declined(u) && Leftover(u) == Lst(Values([EMPTY_LIST]))
  {
    var inner := Result(name, v);
    var u, tail := PrintResult(Result("[" + name, v)) + end, PrintResult(inner) + end;
    BracketText(name, v, end);
    ResultsAttemptEnds(inner, end);
    NoValueHere(tail, ResultsAttempt(tail, "").last);
    NonEmptyList(u, tail, "");
  }

  lemma BracketText(name: string, v: Value, end: string)
    requires name != ""
    ensures var u, tail := PrintResult(Result("[" + name, v)) + end, PrintResult(Result(name, v)) + end;
            |u| > 1 && u[0] == '[' && u[1] == name[0] == tail[0] && u[1..] == tail
  {
    NameFirst(Result(name, v), end);
    assert PrintResult(Result("[" + name, v)) + end == "[" + (PrintResult(Result(name, v)) + end);
  }

  lemma ResultsAttemptEnds(r: Result, end: string)
    requires ProperName(r.variable) && Robust(r.value) && AtEnd(end)
    ensures !ResultsAttempt(PrintResult(r) + end, "").ok
  {
    RobustResult(r, end, "");
    assert ParseResults(PrintResult(r) + end, "") == Match(true, [r] + [], end, LastName(r.value, r.variable));
  }
}
