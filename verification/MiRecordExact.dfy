/** The exact round trip of result records. The text of a record determines its items
    once the vector it was read into is known, from the right end of the text: so no
    misreading can yield the vector of the record by chance. */
module MiRecordExact {
  import opened CStrings
  import opened MiExact
  import opened MiNames
  import opened MiParser
  import opened MiRecordLaws
  import opened MiRecords
  import opened MiResultRecords
  import opened MiSoundness
  import opened MiValues
  import opened Numbers
  import opened Text

  // ---- Values at the end of a text ----

  /** Every quote of an escaped string has a backslash before it. */
  lemma {:induction false} QuoteIsEscaped(u: string, i: nat)
    requires i < |Escape(u)| && Escape(u)[i] == QUOTE
    ensures i > 0 && Escape(u)[i - 1] == BACKSLASH
  {
    if u == "" {
    } else {
      var k := if u[0] == QUOTE then 2 else 1;
      assert Escape(u)[k..] == Escape(u[1..]);
      if i >= k { QuoteIsEscaped(u[1..], i - k); }
    }
  }

  /** A shorter printed string at the end of another one starts behind a backslash. */
  lemma CutBehindBackslash(p: string, s: string, q: string, u: string)
    requires p + PrintString(s) == q + PrintString(u) && |q| < |p| && |s| < |Escape(u)|
    ensures EndsInBackslash(p)
  {
    var k, t := |p| - |q|, q + PrintString(u);
    assert |p + PrintString(s)| == |p| + |Escape(s)| + 2 && |t| == |q| + |Escape(u)| + 2;
    assert t[|p|] == (p + PrintString(s))[|p|] == QUOTE;
    assert t[|p|] == PrintString(u)[k] == Escape(u)[k - 1];
    QuoteIsEscaped(u, k - 1);
    assert p[|p| - 1] == t[|p| - 1] == PrintString(u)[k - 1] == Escape(u)[k - 2];
  }

  lemma SameString(p: string, s: string, q: string, u: string)
    requires p + PrintString(s) == q + PrintString(u) && Collapse(u) == s && !EndsInBackslash(p)
    ensures s == u && p == q
  {
    CollapsedString(u);
    assert |p| + |Escape(s)| == |q| + |Escape(u)| by {
      assert |p + PrintString(s)| == |p| + |Escape(s)| + 2;
      assert |q + PrintString(u)| == |q| + |Escape(u)| + 2;
    }
    EscapeLength(s);
    if |q| < |p| {
      CutBehindBackslash(p, s, q, u);
    } else {
      assert p == (p + PrintString(s))[..|p|] == (q + PrintString(u))[..|q|] == q;
    }
  }

  lemma CollapsedResultsAt(rs: seq<Result>)
    ensures |CollapsedResults(rs)| == |rs|
    ensures forall i | 0 <= i < |rs| :: CollapsedResults(rs)[i] == CollapsedResult(rs[i])
  {
  }

  lemma CollapsedValuesAt(vs: seq<Value>)
    ensures |CollapsedValues(vs)| == |vs|
    ensures forall i | 0 <= i < |vs| :: CollapsedValues(vs)[i] == Collapsed(vs[i])
  {
  }

  lemma CollapsedResultsFront(rs: seq<Result>, n: nat)
    requires n < |rs|
    ensures |CollapsedResults(rs)| == |rs|
    ensures CollapsedResults(rs[..n]) == CollapsedResults(rs)[..n]
    ensures CollapsedResults(rs)[n] == CollapsedResult(rs[n])
  {
    CollapsedResultsAt(rs);
    CollapsedResultsAt(rs[..n]);
  }

  lemma CollapsedValuesFront(vs: seq<Value>, n: nat)
    requires n < |vs|
    ensures |CollapsedValues(vs)| == |vs|
    ensures CollapsedValues(vs[..n]) == CollapsedValues(vs)[..n]
    ensures CollapsedValues(vs)[n] == Collapsed(vs[n])
  {
    CollapsedValuesAt(vs);
    CollapsedValuesAt(vs[..n]);
  }

  function Comma(n: nat): string {
    if n == 0 then "" else ","
  }

  lemma ButLast<T>(s: seq<T>)
    requires |s| > 1
    ensures var n := |s| - 1;
            && s[1..][..n - 1] == s[..n][1..] && s[1..][n - 1] == s[n]
            && s[..n] != [] && s[..n][0] == s[0] && |s[1..]| == n
  {
  }

  lemma {:induction false} MoreResultsLast(rs: seq<Result>)
    requires rs != []
    ensures var n := |rs| - 1;
            PrintMoreResults(rs) == PrintMoreResults(rs[..n]) + "," + PrintResult(rs[n])
  {
    if |rs| == 1 {
      assert PrintMoreResults(rs[..0]) == "" && PrintMoreResults(rs[1..]) == "";
    } else {
      ButLast(rs);
      MoreResultsLast(rs[1..]);
      HeadOfMore("," + PrintResult(rs[0]), PrintMoreResults(rs[..|rs| - 1][1..]), PrintResult(rs[|rs| - 1]));
    }
  }

  lemma HeadOfMore(first: string, middle: string, last: string)
    ensures first + (middle + "," + last) == first + middle + "," + last
  {
  }

  lemma LastText(first: string, middle: string, tag: string, value: string)
    ensures first + (middle + "," + (tag + value)) == first + middle + ("," + tag) + value
    ensures first + (middle + "," + value) == first + middle + "," + value
  {
  }

  /** The last result of a list, up to its value. */
  lemma {:induction false} ResultsLast(rs: seq<Result>)
    requires rs != []
    ensures var n := |rs| - 1;
            PrintResults(rs)
            == PrintResults(rs[..n]) + (Comma(n) + (rs[n].variable + "=")) + PrintValue(rs[n].value)
  {
    var n := |rs| - 1;
    if n == 0 { OneResult(rs); } else { ManyResults(rs); }
  }

  lemma {:induction false} OneResult(rs: seq<Result>)
    requires |rs| == 1
    ensures PrintResults(rs) == PrintResults(rs[..0]) + ("" + (rs[0].variable + "=")) + PrintValue(rs[0].value)
  {
    HeadText(rs);
    assert PrintMoreResults(rs[1..]) == "" && PrintResults(rs[..0]) == "";
    OneText(rs[0].variable + "=", PrintValue(rs[0].value));
  }

  lemma OneText(name: string, text: string)
    ensures name + text + "" == "" + ("" + name) + text
  {
  }

  lemma {:induction false} ManyResults(rs: seq<Result>)
    requires |rs| > 1
    ensures var n := |rs| - 1;
            PrintResults(rs)
            == PrintResults(rs[..n]) + ("," + (rs[n].variable + "=")) + PrintValue(rs[n].value)
  {
    var n := |rs| - 1;
    var first, middle := PrintResult(rs[0]), PrintMoreResults(rs[..n][1..]);
    var name, text := rs[n].variable + "=", PrintValue(rs[n].value);
    ButLast(rs);
    HeadText(rs);
    HeadText(rs[..n]);
    MoreResultsLast(rs[1..]);
    assert PrintMoreResults(rs[1..]) == middle + "," + (name + text);
    LastText(first, middle, name, text);
  }

  lemma HeadText(rs: seq<Result>)
    requires rs != []
    ensures PrintResults(rs) == PrintResult(rs[0]) + PrintMoreResults(rs[1..])
  {
  }

  lemma {:induction false} MoreValuesLast(vs: seq<Value>)
    requires vs != []
    ensures var n := |vs| - 1;
            PrintMoreValues(vs) == PrintMoreValues(vs[..n]) + "," + PrintValue(vs[n])
  {
    if |vs| == 1 {
      assert vs[..0] == [] && vs[1..] == [];
    } else {
      ButLast(vs);
      MoreValuesLast(vs[1..]);
    }
  }

  lemma {:induction false} ValuesLast(vs: seq<Value>)
    requires vs != []
    ensures var n := |vs| - 1;
            PrintValues(vs) == PrintValues(vs[..n]) + Comma(n) + PrintValue(vs[n])
  {
    var n := |vs| - 1;
    if n == 0 {
      assert vs[..0] == [] && vs[1..] == [];
    } else {
      ButLast(vs);
      MoreValuesLast(vs[1..]);
      LastText(PrintValue(vs[0]), PrintMoreValues(vs[..n][1..]), "", PrintValue(vs[n]));
    }
  }

  /** Two texts with the same end. */
  lemma SameFront(p: string, q: string, end: string)
    ensures p + end == q + end <==> p == q
  {
    if p + end == q + end {
      assert p == (p + end)[..|p|] && q == (q + end)[..|q|];
    }
  }

  /** If one text ends in the printed `v` and in the printed `w`, and `w` is `v` once its
      strings are collapsed, then they are the same value, unless one was cut out behind
      a backslash. */
  lemma {:induction false} SameValue(p: string, v: Value, q: string, w: Value)
    requires p + PrintValue(v) == q + PrintValue(w) && Collapsed(w) == v
    requires !EndsInBackslash(p) && !EndsInBackslash(q)
    ensures v == w && p == q
    decreases w, 1
  {
    match w
    case Str(u) => SameString(p, v.s, q, u);
    case Tup(ws) =>
      Brackets(p, "{", PrintResults(v.fields), q, PrintResults(ws), "}");
      SameResults(p + "{", v.fields, q + "{", ws);
      SameFront(p, q, "{");
    case Lst(Results(ws)) =>
      Brackets(p, "[", PrintResults(v.list.rs), q, PrintResults(ws), "]");
      SameResults(p + "[", v.list.rs, q + "[", ws);
      SameFront(p, q, "[");
    case Lst(Values(ws)) =>
      Brackets(p, "[", PrintValues(v.list.vs), q, PrintValues(ws), "]");
      SameValues(p + "[", v.list.vs, q + "[", ws);
      SameFront(p, q, "[");
  }

  lemma Brackets(p: string, open: string, a: string, q: string, b: string, close: string)
    ensures p + (open + a + close) == q + (open + b + close) <==> p + open + a == q + open + b
  {
    SameFront(p + open + a, q + open + b, close);
    assert p + (open + a + close) == p + open + a + close;
    assert q + (open + b + close) == q + open + b + close;
  }

  lemma LastValue(p: string, front: string, tag: string, text: string)
    ensures p + (front + tag + text) == p + front + tag + text
  {
  }

  lemma {:induction false} ResultsEnd(p: string, rs: seq<Result>)
    requires rs != []
    ensures var n := |rs| - 1;
            p + PrintResults(rs)
            == p + PrintResults(rs[..n]) + (Comma(n) + (rs[n].variable + "=")) + PrintValue(rs[n].value)
  {
    var n := |rs| - 1;
    ResultsLast(rs);
    LastValue(p, PrintResults(rs[..n]), Comma(n) + (rs[n].variable + "="), PrintValue(rs[n].value));
  }

  lemma {:induction false} ValuesEnd(p: string, vs: seq<Value>)
    requires vs != []
    ensures var n := |vs| - 1;
            p + PrintValues(vs) == p + PrintValues(vs[..n]) + Comma(n) + PrintValue(vs[n])
    ensures |vs| == 1 ==> p + PrintValues(vs[..0]) + Comma(0) == p
  {
    var n := |vs| - 1;
    ValuesLast(vs);
    LastValue(p, PrintValues(vs[..n]), Comma(n), PrintValue(vs[n]));
  }

  lemma {:induction false} SameResults(p: string, rs: seq<Result>, q: string, ws: seq<Result>)
    requires p + PrintResults(rs) == q + PrintResults(ws) && rs == CollapsedResults(ws)
    ensures rs == ws && p == q
    decreases ws, 0
  {
    CollapsedResultsAt(ws);
    if ws == [] {
      assert p + "" == p && q + "" == q;
    } else {
      var n := |ws| - 1;
      var front, front' := p + PrintResults(rs[..n]), q + PrintResults(ws[..n]);
      var tag := Comma(n) + (ws[n].variable + "=");
      CollapsedResultsFront(ws, n);
      ResultsEnd(p, rs);
      ResultsEnd(q, ws);
      SameValue(front + tag, rs[n].value, front' + tag, ws[n].value);
      SameFront(front, front', tag);
      SameResults(p, rs[..n], q, ws[..n]);
      LastBack(rs);
      LastBack(ws);
    }
  }

  lemma {:induction false} SameValues(p: string, vs: seq<Value>, q: string, ws: seq<Value>)
    requires p + PrintValues(vs) == q + PrintValues(ws) && vs == CollapsedValues(ws)
    requires !EndsInBackslash(p) && !EndsInBackslash(q)
    ensures vs == ws && p == q
    decreases ws, 0
  {
    CollapsedValuesAt(ws);
    if ws == [] {
      assert p + "" == p && q + "" == q;
    } else {
      var n := |ws| - 1;
      var front, front' := p + PrintValues(vs[..n]), q + PrintValues(ws[..n]);
      CollapsedValuesFront(ws, n);
      ValuesEnd(p, vs);
      ValuesEnd(q, ws);
      SameValue(front + Comma(n), vs[n], front' + Comma(n), ws[n]);
      SameFront(front, front', Comma(n));
      SameValues(p, vs[..n], q, ws[..n]);
      LastBack(vs);
      LastBack(ws);
    }
  }

  lemma LastBack<T>(s: seq<T>)
    requires s != []
    ensures s == s[..|s| - 1] + [s[|s| - 1]]
  {
  }

  // ---- Items and the vector that shows them ----

  function ValueOf(i: Item): Value {
    match i
    case Named(r) => r.value
    case Unnamed(v) => v
  }

  function CollapsedItem(i: Item): Item {
    match i
    case Named(r) => Named(CollapsedResult(r))
    case Unnamed(v) => Unnamed(Collapsed(v))
  }

  function CollapsedItems(items: seq<Item>): (collapsed: seq<Item>)
    ensures |collapsed| == |items| && forall k | 0 <= k < |items| :: collapsed[k] == CollapsedItem(items[k])
  {
    seq(|items|, k requires 0 <= k < |items| => CollapsedItem(items[k]))
  }

  /** `out` holds the items in order, and in front of each named one something else. */
  predicate Image(items: seq<Item>, out: seq<Result>) {
    if items == [] then out == []
    else match items[0]
      case Named(r) => |out| > 1 && out[1] == r && Image(items[1..], out[2..])
      case Unnamed(v) => |out| > 0 && out[0].value == v && Image(items[1..], out[1..])
  }

  /** The same for a whole record, whose first item is named and has nothing in front. */
  predicate Shows(items: seq<Item>, out: seq<Result>) {
    if items == [] then out == []
    else items[0].Named? && out != [] && out[0] == items[0].r && Image(items[1..], out[1..])
  }

  function Width(i: Item): nat {
    if i.Named? then 2 else 1
  }

  /** An image from its end. */
  lemma {:induction false} ImageLast(items: seq<Item>, out: seq<Result>)
    requires items != [] && Image(items, out)
    ensures var n := |items| - 1;
            && |out| >= Width(items[n]) && Image(items[..n], out[..|out| - Width(items[n])])
            && out[|out| - 1].value == ValueOf(items[n])
            && (items[n].Named? ==> out[|out| - 1] == items[n].r)
  {
    var n, k := |items| - 1, Width(items[0]);
    if n == 0 {
      assert items[1..] == [] && items[..0] == [];
    } else {
      ButLast(items);
      ImageLast(items[1..], out[k..]);
      ButLastOf(out, k, Width(items[n]));
    }
  }

  /** The front and the last of a sequence do not depend on where it starts. */
  lemma ButLastOf<T>(s: seq<T>, k: nat, w: nat)
    requires 0 < w && k + w <= |s|
    ensures s[k..][..|s| - k - w] == s[..|s| - w][k..] && s[k..][|s| - k - 1] == s[|s| - 1]
    ensures |s[k..]| == |s| - k && (k > 0 ==> s[..|s| - w] == s[..k] + s[k..][..|s| - k - w])
    ensures forall i | 0 <= i < k :: s[..|s| - w][i] == s[i]
  {
  }

  /** What stands in front of the value of an item. */
  function Label(i: Item): string {
    if i.Named? then "," + i.r.variable + "=" else ","
  }

  lemma ItemText(i: Item)
    ensures "," + PrintItem(i) == Label(i) + PrintValue(ValueOf(i))
  {
  }

  lemma {:induction false} ItemsLast(items: seq<Item>)
    requires items != []
    ensures var n := |items| - 1;
            PrintItems(items) == PrintItems(items[..n]) + (Label(items[n]) + PrintValue(ValueOf(items[n])))
  {
    if |items| == 1 {
      assert items[1..] == [] && items[..0] == [];
      ItemText(items[0]);
    } else {
      ButLast(items);
      ItemsLast(items[1..]);
    }
  }

  /** Text and vector together determine the items. */
  lemma {:induction false} SameItems(items: seq<Item>, others: seq<Item>, out: seq<Result>)
    requires Image(items, out) && Image(CollapsedItems(others), out)
    requires PrintItems(items) == PrintItems(others)
    ensures items == others
    decreases |items|
  {
    if items == [] || others == [] {
    } else {
      var n, m := |items| - 1, |others| - 1;
      CollapsedFront(others);
      LastsAgree(items, others, out);
      SameItems(items[..n], others[..m], out[..|out| - Width(items[n])]);
      LastBack(items);
      LastBack(others);
    }
  }

  lemma {:induction false} LastsAgree(items: seq<Item>, others: seq<Item>, out: seq<Result>)
    requires items != [] && others != [] && PrintItems(items) == PrintItems(others)
    requires Image(items, out) && Image(CollapsedItems(others), out)
    ensures var n, m := |items| - 1, |others| - 1;
            && items[n] == others[m] && PrintItems(items[..n]) == PrintItems(others[..m])
            && var k := |out| - Width(items[n]);
               0 <= k <= |out| && Image(items[..n], out[..k]) && Image(CollapsedItems(others)[..m], out[..k])
  {
    CollapsedFront(others);
    ImageLast(items, out);
    ImageLast(CollapsedItems(others), out);
    TextsAgree(items, others, out[|out| - 1]);
  }

  lemma {:induction false} TextsAgree(items: seq<Item>, others: seq<Item>, x: Result)
    requires items != [] && others != [] && PrintItems(items) == PrintItems(others)
    requires var i, j := items[|items| - 1], CollapsedItem(others[|others| - 1]);
             && x.value == ValueOf(i) == ValueOf(j)
             && (i.Named? ==> x == i.r) && (j.Named? ==> x == j.r)
    ensures var n, m := |items| - 1, |others| - 1;
            items[n] == others[m] && PrintItems(items[..n]) == PrintItems(others[..m])
  {
    var n, m := |items| - 1, |others| - 1;
    ItemsLast(items);
    ItemsLast(others);
    SameLast(PrintItems(items[..n]), items[n], PrintItems(others[..m]), others[m], x);
  }

  lemma CollapsedFront(items: seq<Item>)
    requires items != []
    ensures var n := |items| - 1;
            && CollapsedItems(items)[..n] == CollapsedItems(items[..n])
            && CollapsedItems(items)[n] == CollapsedItem(items[n])
  {
  }

  /** The last element tells the last item, and the text in front of it. */
  lemma SameLast(front: string, i: Item, front': string, j: Item, x: Result)
    requires front + (Label(i) + PrintValue(ValueOf(i))) == front' + (Label(j) + PrintValue(ValueOf(j)))
    requires x.value == ValueOf(i) == Collapsed(ValueOf(j))
    requires (i.Named? ==> x == i.r) && (j.Named? ==> x == CollapsedResult(j.r))
    ensures i == j && front == front'
  {
    LabelEnds(front, i);
    LabelEnds(front', j);
    SameValue(front + Label(i), ValueOf(i), front' + Label(j), ValueOf(j));
    assert i.Named? <==> j.Named?;
    SameFront(front, front', Label(i));
  }

  lemma LabelEnds(front: string, i: Item)
    ensures var p := front + Label(i);
            && p != "" && p[|p| - 1] == (if i.Named? then '=' else ',')
            && front + (Label(i) + PrintValue(ValueOf(i))) == p + PrintValue(ValueOf(i))
  {
  }

  // ---- What the parser shows of a text ----

  lemma {:induction false} ElementsShow(items: seq<Item>, end: string, last: string)
    ensures Image(CollapsedItems(items), Elements(items, end, last))
  {
    if items == [] {
    } else {
      var tail, out := PrintItems(items[1..]) + end, Elements(items, end, last);
      assert CollapsedItems(items)[1..] == CollapsedItems(items[1..]);
      match items[0]
      case Unnamed(v) =>
        assert out[1..] == Elements(items[1..], end, NameBehind(v, tail, last));
        ElementsShow(items[1..], end, NameBehind(v, tail, last));
      case Named(r) =>
        assert out[2..] == Elements(items[1..], end, NameBehind(r.value, tail, r.variable));
        ElementsShow(items[1..], end, NameBehind(r.value, tail, r.variable));
    }
  }

  /** A record with something in front of its vector is an image. */
  lemma {:induction false} ShowsIsImage(items: seq<Item>, out: seq<Result>, x: Result)
    requires items != []
    ensures items[0].Named? ==> (Shows(items, out) <==> Image(items, [x] + out))
  {
    assert out != [] ==> ([x] + out)[2..] == out[1..];
  }

  lemma {:induction false} VectorShows(items: seq<Item>, end: string)
    requires items != [] && items[0].Named?
    ensures Shows(CollapsedItems(items), Vector(items, end))
  {
    var r := items[0].r;
    var name := NameBehind(r.value, PrintItems(items[1..]) + end, r.variable);
    assert CollapsedItems(items)[1..] == CollapsedItems(items[1..]);
    assert Vector(items, end)[1..] == Elements(items[1..], end, name);
    ElementsShow(items[1..], end, name);
  }

  lemma ValueCloses(v: Value)
    ensures var t := PrintValue(v); t != "" && t[|t| - 1] in {'"', '}', ']'}
  {
    match v case Str(_) => case Tup(_) => case Lst(Values(_)) => case Lst(Results(_)) =>
  }

  lemma {:induction false} ItemsClose(items: seq<Item>)
    requires items != []
    ensures var t := PrintItems(items); t != "" && t[|t| - 1] != '\r'
  {
    var i := items[|items| - 1];
    ItemsLast(items);
    ValueCloses(ValueOf(i));
    var front, text := PrintItems(items[..|items| - 1]), Label(i) + PrintValue(ValueOf(i));
    assert (front + text)[|front + text| - 1] == text[|text| - 1];
  }

  /** The end of a record can be told from its items. */
  lemma {:induction false} SameEnd(items: seq<Item>, end: string, others: seq<Item>, end': string)
    requires items != [] && others != [] && AtEnd(end) && AtEnd(end')
    requires PrintItems(items) + end == PrintItems(others) + end'
    ensures end == end' && PrintItems(items) == PrintItems(others)
  {
    ItemsClose(items);
    ItemsClose(others);
    TextCloses(PrintItems(items), end);
    TextCloses(PrintItems(others), end');
    SameFront(PrintItems(items), PrintItems(others), end);
  }

  lemma TextCloses(t: string, end: string)
    requires t != "" && t[|t| - 1] != '\r' && AtEnd(end)
    ensures (t + end)[|t + end| - 1] == '\r' <==> end == "\r"
  {
  }

  function RecordText(c: ResultClass, items: seq<Item>, end: string): string {
    "^" + (ClassText(c) + (PrintItems(items) + end))
  }

  /** If the vector of a record shows its items, these are the items the parser read. */
  lemma {:induction false} Recovered(c: ResultClass, items: seq<Item>, end: string, last: string)
    requires items != [] && AtEnd(end)
    requires var r := RecordRule(RecordText(c, items, end), last); r.Some? && Shows(items, r.value.results)
    ensures ReadableRecord(items, end) && WellFormedItems(items) && CollapsedItems(items) == items
    ensures RecordRule(RecordText(c, items, end), last).value.results == Vector(items, end)
  {
    var t := RecordText(c, items, end);
    var out := RecordRule(t, last).value.results;
    var others, end' := RecordSound(t, last);
    SameText(c, items, end, others, end', last);
    VectorShows(others, end');
    SameEnd(items, end, others, end');
    ShowsIsImage(items, out, items[0].r);
    ShowsIsImage(CollapsedItems(others), out, items[0].r);
    SameItems(items, others, [items[0].r] + out);
    SettledItems(items, out);
  }

  lemma {:induction false} SameText(c: ResultClass, items: seq<Item>, end: string, others: seq<Item>, end': string,
        last: string)
    requires var t := RecordText(c, items, end);
             RecordRule(t, last).Some? && t == RecordText(RecordRule(t, last).value.resultClass, others, end')
    ensures PrintItems(items) + end == PrintItems(others) + end'
  {
    var tail := PrintItems(items) + end;
    CaretText(c, tail);
    RecordRuleAt(RecordText(c, items, end), c, tail, last);
    CaretText(c, PrintItems(others) + end');
    SameBack(ClassText(c), tail, PrintItems(others) + end');
  }

  lemma SameBack(p: string, a: string, b: string)
    ensures p + a == p + b <==> a == b
  {
    if p + a == p + b {
      assert a == (p + a)[|p|..] && b == (p + b)[|p|..];
    }
  }

  /** Items that are shown as they are and collapsed have settled strings. */
  lemma {:induction false} SettledItems(items: seq<Item>, out: seq<Result>)
    requires items != [] && Shows(items, out) && Shows(CollapsedItems(items), out)
    ensures CollapsedItems(items) == items
  {
    assert CollapsedItems(items)[1..] == CollapsedItems(items[1..]);
    SameImages(items[1..], CollapsedItems(items[1..]), out[1..]);
    assert items == [items[0]] + items[1..];
    assert CollapsedItems(items) == [CollapsedItems(items)[0]] + CollapsedItems(items)[1..];
  }

  lemma {:induction false} SameImages(items: seq<Item>, others: seq<Item>, out: seq<Result>)
    requires |items| == |others| && forall k | 0 <= k < |items| :: items[k].Named? == others[k].Named?
    requires Image(items, out) && Image(others, out)
    ensures items == others
  {
    if items == [] {
    } else {
      assert forall k | 0 <= k < |items| - 1 :: items[1..][k] == items[k + 1] && others[1..][k] == others[k + 1];
      SameImages(items[1..], others[1..], out[Width(items[0])..]);
      assert items == [items[0]] + items[1..] && others == [others[0]] + others[1..];
    }
  }

  // ---- The exact laws ----

  /** Each follow-up is read back where it stands: its value is safe there, and at a named
      one no value can be read. */
  predicate SafeItems(items: seq<Item>, end: string) {
    items != [] ==>
      && (match items[0]
          case Named(r) =>
            ProperName(r.variable) && Declined(Behind(items, end)) && Safe(r.value, PrintItems(items[1..]) + end)
          case Unnamed(v) => Safe(v, PrintItems(items[1..]) + end))
      && SafeItems(items[1..], end)
  }

  predicate SafeRecord(items: seq<Item>, end: string) {
    items != [] ==>
      && items[0].Named? && ProperName(items[0].r.variable)
      && Safe(items[0].r.value, PrintItems(items[1..]) + end)
      && SafeItems(items[1..], end)
  }

  /** Safe values are those that are read as they are. */
  lemma SafeReads(v: Value, tail: string)
    ensures Safe(v, tail) <==> Reads(v, tail) && Collapsed(v) == v
  {
    ExactValue(v, tail, "");
    if Safe(v, tail) {
      var w := SoundValue(PrintValue(v) + tail, "", PrintValue(v));
      CollapsedText(w);
      assert PrintValue(Collapsed(w)) == PrintValue(w);
    }
  }

  lemma HeadsAgree<T>(s: seq<T>, t: seq<T>)
    requires s != [] && t != []
    ensures s == t <==> s[0] == t[0] && s[1..] == t[1..]
  {
    assert s == [s[0]] + s[1..] && t == [t[0]] + t[1..];
  }

  lemma CollapsedItemSame(i: Item)
    ensures CollapsedItem(i) == i <==> Collapsed(ValueOf(i)) == ValueOf(i)
  {
  }

  lemma {:induction false} CollapsedSame(items: seq<Item>)
    requires items != []
    ensures CollapsedItems(items) == items
       <==> Collapsed(ValueOf(items[0])) == ValueOf(items[0]) && CollapsedItems(items[1..]) == items[1..]
  {
    CollapsedTail(items);
    HeadsAgree(CollapsedItems(items), items);
    CollapsedItemSame(items[0]);
  }

  lemma {:induction false} CollapsedTail(items: seq<Item>)
    requires items != []
    ensures CollapsedItems(items)[1..] == CollapsedItems(items[1..])
  {
  }

  lemma {:induction false} SafeIsReadable(items: seq<Item>, end: string)
    ensures SafeItems(items, end) <==> Readable(items, end) && CollapsedItems(items) == items
  {
    if items == [] {
    } else {
      SafeReads(ValueOf(items[0]), PrintItems(items[1..]) + end);
      SafeIsReadable(items[1..], end);
      CollapsedSame(items);
    }
  }

  lemma {:induction false} SafeIsReadableRecord(items: seq<Item>, end: string)
    ensures SafeRecord(items, end) <==> ReadableRecord(items, end) && CollapsedItems(items) == items
  {
    if items == [] {
    } else {
      SafeReads(ValueOf(items[0]), PrintItems(items[1..]) + end);
      SafeIsReadable(items[1..], end);
      CollapsedSame(items);
    }
  }

  /** The exact round-trip law of result records, for all items whatsoever: a printed
      record is accepted with a vector that shows its items if and only if it is safe;
      the vector is then Vector. */
  lemma {:induction false} RecordReadBack(c: ResultClass, items: seq<Item>, end: string, last: string)
    requires AtEnd(end)
    ensures var r := RecordRule(RecordText(c, items, end), last);
            && (r.Some? && Shows(items, r.value.results) <==> SafeRecord(items, end))
            && (SafeRecord(items, end) ==> r == Some(ResultOutput(c, Vector(items, end))))
  {
    SafeIsReadableRecord(items, end);
    var r := RecordRule(RecordText(c, items, end), last);
    if SafeRecord(items, end) {
      RecordRuleRead(c, items, end, last);
      if items != [] { VectorShows(items, end); }
    } else if r.Some? && Shows(items, r.value.results) {
      Recovered(c, items, end, last);
    }
  }

  /** And with an empty list in front of every named follow-up if and only if, besides,
      none of these starts with a bracket. */
  lemma {:induction false} RecordExact(c: ResultClass, items: seq<Item>, end: string, last: string)
    requires items != [] && AtEnd(end)
    ensures var r := RecordRule(RecordText(c, items, end), last);
            r.Some? && Shows(items, r.value.results) && EmptyLeftovers(items[1..], r.value.results[1..])
            <==> SafeRecord(items, end) && NoBrackets(items[1..])
  {
    RecordReadBack(c, items, end, last);
    if SafeRecord(items, end) {
      SafeIsReadableRecord(items, end);
      var r := items[0].r;
      var name := NameBehind(r.value, PrintItems(items[1..]) + end, r.variable);
      assert Vector(items, end)[1..] == Elements(items[1..], end, name);
      LeftoversExact(items[1..], end, name);
    }
  }

  // ---- Robust items: the vector one would expect ----

  /** The items with one empty list in front of every named follow-up. */
  function Expected(items: seq<Item>, last: string): seq<Result> {
    if items == [] then []
    else match items[0]
      case Named(r) => [Result(last, EMPTY_LIST)] + ([r] + Expected(items[1..], LastName(r.value, r.variable)))
      case Unnamed(v) => [Result(last, v)] + Expected(items[1..], LastName(v, last))
  }

  lemma {:induction false} ExpectedShows(items: seq<Item>, last: string)
    ensures Image(items, Expected(items, last)) && EmptyLeftovers(items, Expected(items, last))
  {
    if items == [] {
    } else {
      var out := Expected(items, last);
      match items[0]
      case Unnamed(v) =>
        assert out[1..] == Expected(items[1..], LastName(v, last));
        ExpectedShows(items[1..], LastName(v, last));
      case Named(r) =>
        assert out[2..] == Expected(items[1..], LastName(r.value, r.variable));
        ExpectedShows(items[1..], LastName(r.value, r.variable));
    }
  }

  lemma {:induction false} ExpectedIsRead(items: seq<Item>, end: string, last: string)
    requires RobustItems(items) && Separate(items, end) && NoBrackets(items)
    ensures FollowUpElements(items, end, last) == Expected(items, last)
  {
    if items == [] {
    } else {
      match items[0]
      case Unnamed(v) => ExpectedIsRead(items[1..], end, LastName(v, last));
      case Named(r) =>
        NameFirst(r, PrintItems(items[1..]) + end);
        LeftoverExact(Behind(items, end), "");
        ExpectedIsRead(items[1..], end, LastName(r.value, r.variable));
    }
  }

  /** The exact law for robust items: a record is accepted with the expected vector if and
      only if at no named follow-up a value can be read and none starts with a bracket. */
  lemma {:induction false} RobustRecordExact(c: ResultClass, first: Result, items: seq<Item>, end: string, last: string)
    requires ProperName(first.variable) && Robust(first.value) && RobustItems(items) && AtEnd(end)
    ensures RecordRule(RecordText(c, [Named(first)] + items, end), last)
            == Some(ResultOutput(c, [first] + Expected(items, LastName(first.value, first.variable))))
       <==> Separate(items, end) && NoBrackets(items)
  {
    if Separate(items, end) && NoBrackets(items) {
      ExpectedIsReached(c, first, items, end, last);
    } else if RecordRule(RecordText(c, [Named(first)] + items, end), last)
           == Some(ResultOutput(c, [first] + Expected(items, LastName(first.value, first.variable)))) {
      ExpectedIsSafe(c, first, items, end, last);
    }
  }

  lemma {:induction false} ExpectedIsReached(c: ResultClass, first: Result, items: seq<Item>, end: string, last: string)
    requires ProperName(first.variable) && Robust(first.value) && RobustItems(items) && AtEnd(end)
    requires Separate(items, end) && NoBrackets(items)
    ensures RecordRule(RecordText(c, [Named(first)] + items, end), last)
         == Some(ResultOutput(c, [first] + Expected(items, LastName(first.value, first.variable))))
  {
    var all := [Named(first)] + items;
    assert all[1..] == items;
    RobustVector(all, end);
    RecordRuleRead(c, all, end, last);
    ExpectedIsRead(items, end, LastName(first.value, first.variable));
  }

  lemma {:induction false} ExpectedIsSafe(c: ResultClass, first: Result, items: seq<Item>, end: string, last: string)
    requires RobustItems(items) && AtEnd(end)
    requires RecordRule(RecordText(c, [Named(first)] + items, end), last)
          == Some(ResultOutput(c, [first] + Expected(items, LastName(first.value, first.variable))))
    ensures Separate(items, end) && NoBrackets(items)
  {
    var all, name := [Named(first)] + items, LastName(first.value, first.variable);
    assert all[1..] == items && ([first] + Expected(items, name))[1..] == Expected(items, name);
    ExpectedShows(items, name);
    RecordExact(c, all, end, last);
    SafeIsReadableRecord(all, end);
    RobustElements(items, end, name);
  }

  // ---- A name from an abandoned attempt ----

  predicate EscapableStrings(vs: seq<Value>) {
    forall i | 0 <= i < |vs| :: vs[i].Str? && Escapable(vs[i].s)
  }

  lemma {:induction false} StringsAreSafe(vs: seq<Value>, after: string)
    requires EscapableStrings(vs)
    ensures SafeValues(vs, after)
  {
    if vs == [] {
    } else {
      assert forall i | 0 <= i < |vs| - 1 :: vs[1..][i] == vs[i + 1];
      StringsAreSafe(vs[1..], after);
    }
  }

  /** An unnamed value behind a list of strings inherits the text from the list on, if
      there is no '=' in it: the attempt to read results took it for a variable.
      `^done,a=["x"],"y"` is the smallest case; its second name is `"x"],"y"`. */
  lemma {:induction false} InheritedFromList(c: ResultClass, name: string, vs: seq<Value>, v: Value, end: string,
        last: string)
    requires ProperName(name) && vs != [] && EscapableStrings(vs) && Safe(v, end) && AtEnd(end)
    requires '=' !in PrintValues(vs) && '=' !in PrintValue(v)
    ensures var list := Lst(Values(vs));
            RecordRule(RecordText(c, [Named(Result(name, list)), Unnamed(v)], end), last)
            == Some(ResultOutput(c, [Result(name, list), Result(PrintValues(vs) + "]," + PrintValue(v) + end, v)]))
  {
    var list, items := Lst(Values(vs)), [Named(Result(name, Lst(Values(vs)))), Unnamed(v)];
    var tail := PrintItems([Unnamed(v)]) + end;
    OneUnnamed(v, end);
    assert '=' !in tail;
    StringListBehind(vs, tail, name);
    BehindBracket(PrintValues(vs), PrintValue(v), end);
    TwoAreSafe(Result(name, list), v, end);
    RecordRuleRead(c, items, end, last);
    TwoElements(Result(name, list), v, end);
  }

  lemma {:induction false} BehindBracket(text: string, value: string, end: string)
    ensures text + ("]" + ("," + value + end)) == text + "]," + value + end
  {
  }

  lemma {:induction false} TwoAreSafe(r: Result, v: Value, end: string)
    requires ProperName(r.variable) && Safe(r.value, PrintItems([Unnamed(v)]) + end) && Safe(v, end)
    ensures var items := [Named(r), Unnamed(v)];
            ReadableRecord(items, end) && Collapsed(v) == v && CollapsedResult(r) == r
  {
    var items := [Named(r), Unnamed(v)];
    assert items[1..] == [Unnamed(v)] && [Unnamed(v)][1..] == [];
    OneUnnamed(v, end);
    assert SafeItems([], end) && SafeItems([Unnamed(v)], end);
    SafeIsReadableRecord(items, end);
    SafeReads(r.value, PrintItems([Unnamed(v)]) + end);
    SafeReads(v, end);
  }

  /** A list of strings with no '=' behind it. */
  lemma {:induction false} StringListBehind(vs: seq<Value>, tail: string, name: string)
    requires vs != [] && EscapableStrings(vs) && '=' !in PrintValues(vs) && '=' !in tail
    ensures Safe(Lst(Values(vs)), tail)
    ensures NameBehind(Lst(Values(vs)), tail, name) == PrintValues(vs) + ("]" + tail)
  {
    var t := PrintValues(vs) + ("]" + tail);
    FirstOfList(vs, "]" + tail);
    AttemptTakesAll(t);
    StringsAreSafe(vs, "]" + tail);
    StringListName(vs, tail, name);
  }

  lemma {:induction false} OneUnnamed(v: Value, end: string)
    ensures PrintItems([Unnamed(v)]) + end == "," + PrintValue(v) + end
    ensures PrintItems([]) + end == end
  {
    assert [Unnamed(v)][1..] == [];
  }

  lemma {:induction false} TwoElements(r: Result, v: Value, end: string)
    requires Collapsed(v) == v && CollapsedResult(r) == r
    ensures var tail := PrintItems([Unnamed(v)]) + end;
            Vector([Named(r), Unnamed(v)], end) == [r, Result(NameBehind(r.value, tail, r.variable), v)]
  {
    assert [Named(r), Unnamed(v)][1..] == [Unnamed(v)] && [Unnamed(v)][1..] == [];
    var tail := PrintItems([Unnamed(v)]) + end;
    var name := NameBehind(r.value, tail, r.variable);
    assert Elements([Unnamed(v)], end, name) == [Result(name, v)] + [];
  }
}
