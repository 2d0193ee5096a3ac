/** Rendering of GDB/MI commands ("GDB/MI Input Syntax", section 27.2.1 of the GDB
    manual) and a reader of that syntax. */
module Commands {
  import opened Numbers
  import opened Text

  datatype Command =
    Command(token: Option<int>, operation: string, options: seq<string>, parameters: seq<string>)

  /** Every word with the blank in front of it. */
  function Words(ws: seq<string>): string {
    if ws == [] then "" else " " + ws[0] + Words(ws[1..])
  }

  function Render(c: Command): string {
    (if c.token.Some? then ToString(c.token.value) else "") + "-" + c.operation
    + Words(c.options) + (if c.parameters != [] then " --" + Words(c.parameters) else "")
  }

  lemma {:induction false} WordsSnoc(ws: seq<string>, w: string)
    ensures Words(ws + [w]) == Words(ws) + (" " + w)
  {
    if ws == [] {
      assert ws + [w] == [w];
    } else {
      assert (ws + [w])[1..] == ws[1..] + [w];
      WordsSnoc(ws[1..], w);
    }
  }

  /** The loop of `mi_command` over options or parameters. */
  method AppendWords(start: string, ws: seq<string>) returns (value: string)
    ensures value == start + Words(ws)
  {
    value := start;
    for i := 0 to |ws|
      invariant value == start + Words(ws[..i])
    {
      value := value + " ";
      value := value + ws[i];
      WordsSnoc(ws[..i], ws[i]);
      assert ws[..i + 1] == ws[..i] + [ws[i]];
    }
    assert ws[..|ws|] == ws;
  }

  lemma AppendNothing(head: string, c: Command)
    requires head == (if c.token.Some? then ToString(c.token.value) else "") + "-" + c.operation + Words(c.options)
    ensures Render(c) == (if c.parameters != [] then head + " --" else head) + Words(c.parameters)
  {
  }

  method MiCommand(token: Option<int>, operation: string, options: seq<string>, parameters: seq<string>)
    returns (value: string)
    ensures value == Render(Command(token, operation, options, parameters))
  {
    value := "";
    if token.Some? {
      value := value + ToString(token.value);
    }
    value := value + "-";
    value := value + operation;
    value := AppendWords(value, options);
    AppendNothing(value, Command(token, operation, options, parameters));
    if |parameters| > 0 {
      value := value + " --";
    }
    value := AppendWords(value, parameters);
  }

  /** The words up to "--", and the words behind it. */
  function SplitOptions(ws: seq<string>): (seq<string>, seq<string>) {
    if ws == [] then ([], [])
    else if ws[0] == "--" then ([], ws[1..])
    else
      var (options, parameters) := SplitOptions(ws[1..]);
      ([ws[0]] + options, parameters)
  }

  predicate BlankFree(s: string) {
    ' ' !in s
  }

  predicate AllBlankFree(ws: seq<string>) {
    forall i | 0 <= i < |ws| :: BlankFree(ws[i])
  }

  predicate NoDashes(ws: seq<string>) {
    forall i | 0 <= i < |ws| :: ws[i] != "--"
  }

  // ---- A reader of the documented syntax ----

  /** The length of what can be inside a c-string: up to a quote that no backslash
      escapes. */
  function ContentLength(s: string): (n: nat)
    ensures n <= |s| && (n < |s| ==> s[n] == QUOTE)
  {
    if s == "" || s[0] == QUOTE then 0
    else if s[0] == BACKSLASH && |s| > 1 then 2 + ContentLength(s[2..])
    else 1 + ContentLength(s[1..])
  }

  predicate CStringWord(w: string) {
    |w| >= 2 && w[0] == QUOTE && ContentLength(w[1..]) == |w| - 2
  }

  /** non-blank-sequence or c-string; a non-blank-sequence may hold dashes here, as
      options do, and quotes that are not its first character. */
  predicate Word(w: string) {
    CStringWord(w) || (BlankFree(w) && !Opens(w, QUOTE))
  }

  predicate AllWords(ws: seq<string>) {
    forall i | 0 <= i < |ws| :: Word(ws[i])
  }

  /** Where the first blank is. */
  function BlankAt(s: string): (n: nat)
    ensures n <= |s| && BlankFree(s[..n]) && (n < |s| ==> s[n] == ' ')
  {
    if s == "" || s[0] == ' ' then 0 else 1 + BlankAt(s[1..])
  }

  /** The length of the word at the front; a c-string has to end where it is closed. */
  function WordLength(s: string): (n: Option<nat>)
    ensures n.Some? ==> n.value <= |s| && (n.value < |s| ==> s[n.value] == ' ')
  {
    if !Opens(s, QUOTE) then Some(BlankAt(s))
    else
      var n := 1 + ContentLength(s[1..]);
      if n < |s| && (n + 1 == |s| || s[n + 1] == ' ') then Some(n + 1) else None
  }

  /** Words with one blank between them. */
  function ReadWords(s: string): Option<seq<string>>
    decreases |s|
  {
    var n := WordLength(s);
    if n.None? then None
    else if n.value == |s| then Some([s])
    else
      var more := ReadWords(s[n.value + 1..]);
      if more.None? then None else Some([s[..n.value]] + more.value)
  }

  /** [ token ] "-" operation ( " " option )* [ " --" ] ( " " parameter )*, without
      the end of the line; options go on until " --". */
  function ReadCommand(line: string): Option<Command> {
    var n := DigitsLength(line, 10);
    if n == |line| || line[n] != '-' then None
    else
      var tail := line[n + 1..];
      var k := BlankAt(tail);
      var words := if k == |tail| then Some([]) else ReadWords(tail[k + 1..]);
      if words.None? then None
      else
        var (options, parameters) := SplitOptions(words.value);
        Some(Command(if n == 0 then None else Some(Number(line[..n], 10)), tail[..k], options, parameters))
  }

  /** Commands the syntax can carry. */
  predicate Expressible(c: Command) {
    && (c.token.Some? ==> c.token.value >= 0)
    && BlankFree(c.operation)
    && AllWords(c.options) && NoDashes(c.options)
    && AllWords(c.parameters)
  }

  // ---- Words and their text ----

  lemma {:induction false} ContentEnds(content: string, tail: string)
    requires ContentLength(content + [QUOTE]) == |content|
    ensures ContentLength(content + [QUOTE] + tail) == |content|
  {
    var s, t := content + [QUOTE], content + [QUOTE] + tail;
    if content == "" {
    } else if content[0] == BACKSLASH {
      assert ContentLength(s) >= 2;
      assert s[2..] == content[2..] + [QUOTE] && t[2..] == content[2..] + [QUOTE] + tail;
      ContentEnds(content[2..], tail);
    } else {
      assert content[0] != QUOTE;
      assert s[1..] == content[1..] + [QUOTE] && t[1..] == content[1..] + [QUOTE] + tail;
      ContentEnds(content[1..], tail);
    }
  }

  lemma {:induction false} BlankEnds(w: string, tail: string)
    requires BlankFree(w) && (tail == "" || tail[0] == ' ')
    ensures BlankAt(w + tail) == |w|
  {
    if w == "" {
      assert w + tail == tail;
    } else {
      assert (w + tail)[0] == w[0] && (w + tail)[1..] == w[1..] + tail;
      BlankEnds(w[1..], tail);
    }
  }

  lemma WordEnds(w: string, tail: string)
    requires Word(w) && (tail == "" || tail[0] == ' ')
    ensures WordLength(w + tail) == Some(|w|)
  {
    if CStringWord(w) {
      var content := w[1..|w| - 1];
      assert w[1..] == content + [QUOTE];
      ContentEnds(content, tail);
      assert (w + tail)[1..] == content + [QUOTE] + tail;
    } else {
      BlankEnds(w, tail);
      assert w == "" || (w + tail)[0] == w[0];
    }
  }

  lemma BehindBlank(a: string, b: string)
    ensures var s := a + (" " + b); s[..|a|] == a && s[|a| + 1..] == b && |s| > |a|
  {
  }

  /** A word, a blank and more. */
  lemma WordThenMore(w: string, rest: string)
    requires Word(w)
    ensures var more := ReadWords(rest);
            ReadWords(w + (" " + rest)) == if more.Some? then Some([w] + more.value) else None
  {
    WordEnds(w, " " + rest);
    BehindBlank(w, rest);
  }

  /** Words are read back from their text. */
  lemma {:induction false} WordsRead(ws: seq<string>)
    requires ws != [] && AllWords(ws)
    ensures ReadWords(ws[0] + Words(ws[1..])) == Some(ws)
  {
    var w, more := ws[0], ws[1..];
    assert ws == [w] + more;
    if more == [] {
      WordEnds(w, "");
      assert w + Words(more) == w + "" == w && ws == [w];
    } else {
      WordsRead(more);
      assert Words(more) == " " + (more[0] + Words(more[1..]));
      WordThenMore(w, more[0] + Words(more[1..]));
    }
  }

  /** What is read are words, and the text is theirs. */
  lemma {:induction false} ReadAreWords(s: string)
    ensures var r := ReadWords(s);
            r.Some? ==> r.value != [] && AllWords(r.value) && s == r.value[0] + Words(r.value[1..])
    decreases |s|
  {
    var n := WordLength(s);
    if n.None? || ReadWords(s).None? {
    } else {
      WordRead(s);
      if n.value == |s| {
        assert s[..n.value] == s && s + "" == s;
        assert [s][1..] == [];
      } else {
        var w, rest := s[..n.value], s[n.value + 1..];
        assert s == w + (" " + rest);
        ReadAreWords(rest);
        WordThenMore(w, rest);
        WordInFront(w, ReadWords(rest).value, rest);
      }
    }
  }

  lemma WordInFront(w: string, more: seq<string>, rest: string)
    requires Word(w) && more != [] && AllWords(more) && rest == more[0] + Words(more[1..])
    ensures var ws := [w] + more;
            ws != [] && AllWords(ws) && w + (" " + rest) == ws[0] + Words(ws[1..])
  {
    assert ([w] + more)[1..] == more;
    assert Words(more) == " " + rest;
  }

  lemma WordRead(s: string)
    requires WordLength(s).Some?
    ensures Word(s[..WordLength(s).value])
  {
    var n := WordLength(s).value;
    var w := s[..n];
    if Opens(s, QUOTE) {
      assert w[1..] == s[1..][..n - 1];
      ContentTaken(s[1..]);
      assert ContentLength(w[1..]) == n - 2;
    }
  }

  /** The content with its quote, cut out of a text. */
  lemma {:induction false} ContentTaken(s: string)
    requires ContentLength(s) < |s|
    ensures var n := ContentLength(s); ContentLength(s[..n + 1]) == n
    decreases |s|
  {
    var n := ContentLength(s);
    var c := s[..n + 1];
    if s[0] == QUOTE {
    } else if s[0] == BACKSLASH {
      ContentTaken(s[2..]);
      assert c[2..] == s[2..][..n - 1];
    } else {
      ContentTaken(s[1..]);
      assert c[1..] == s[1..][..n];
    }
  }

  lemma {:induction false} WordsConcat(a: seq<string>, b: seq<string>)
    ensures Words(a + b) == Words(a) + Words(b)
  {
    if a == [] {
      assert a + b == b;
    } else {
      assert (a + b)[1..] == a[1..] + b;
      WordsConcat(a[1..], b);
    }
  }

  // ---- Blank-free commands ----

  /** Splits at every blank. */
  function SplitBlanks(s: string): (ws: seq<string>)
    ensures ws != []
  {
    if s == "" then [""]
    else
      var ws := SplitBlanks(s[1..]);
      if s[0] == ' ' then [""] + ws else [[s[0]] + ws[0]] + ws[1..]
  }

  /** A command in which every blank separates two words, quotes or not. */
  function ReadBlankSeparated(line: string): Option<Command> {
    var n := DigitsLength(line, 10);
    if n == |line| || line[n] != '-' then None
    else
      var ws := SplitBlanks(line[n + 1..]);
      var (options, parameters) := SplitOptions(ws[1..]);
      Some(Command(if n == 0 then None else Some(Number(line[..n], 10)), ws[0], options, parameters))
  }

  predicate BlankFreeCommand(c: Command) {
    && (c.token.Some? ==> c.token.value >= 0)
    && BlankFree(c.operation)
    && AllBlankFree(c.options) && NoDashes(c.options)
    && AllBlankFree(c.parameters)
  }

  lemma {:induction false} SplitWord(w: string, tail: string)
    requires BlankFree(w) && (tail == "" || tail[0] == ' ')
    ensures SplitBlanks(w + tail) == [w] + SplitBlanks(tail)[1..]
  {
    if w == "" {
      assert w + tail == tail;
      assert SplitBlanks(tail)[0] == "";
    } else {
      assert (w + tail)[0] == w[0] && (w + tail)[1..] == w[1..] + tail;
      SplitWord(w[1..], tail);
      assert [w[0]] + w[1..] == w;
    }
  }

  lemma SplitBlank(t: string)
    ensures SplitBlanks(" " + t)[1..] == SplitBlanks(t)
    ensures (" " + t)[0] == ' '
  {
    assert (" " + t)[1..] == t;
    assert SplitBlanks(" " + t) == [""] + SplitBlanks(t);
  }

  lemma WordsText(ws: seq<string>, tail: string)
    requires ws != []
    ensures Words(ws) + tail == " " + (ws[0] + (Words(ws[1..]) + tail))
  {
  }

  lemma {:induction false} SplitWords(ws: seq<string>, tail: string)
    requires AllBlankFree(ws) && (tail == "" || tail[0] == ' ')
    ensures SplitBlanks(Words(ws) + tail)[1..] == ws + SplitBlanks(tail)[1..]
    ensures Words(ws) + tail == "" || (Words(ws) + tail)[0] == ' '
  {
    if ws == [] {
      assert Words(ws) + tail == tail;
    } else {
      var more := Words(ws[1..]) + tail;
      SplitWords(ws[1..], tail);
      WordsText(ws, tail);
      SplitBlank(ws[0] + more);
      SplitWord(ws[0], more);
      FirstWord(ws, SplitBlanks(tail)[1..]);
    }
  }

  lemma FirstWord(ws: seq<string>, more: seq<string>)
    requires ws != []
    ensures [ws[0]] + (ws[1..] + more) == ws + more
  {
  }

  lemma {:induction false} SplitAtDashes(options: seq<string>, parameters: seq<string>)
    requires NoDashes(options)
    ensures SplitOptions(options + (["--"] + parameters)) == (options, parameters)
    ensures SplitOptions(options) == (options, [])
  {
    var all := options + (["--"] + parameters);
    if options == [] {
      assert all == ["--"] + parameters && all[1..] == parameters;
    } else {
      assert all[0] == options[0] && all[1..] == options[1..] + (["--"] + parameters);
      SplitAtDashes(options[1..], parameters);
      assert options == [options[0]] + options[1..];
    }
  }

  /** What follows the dash of a rendered command. */
  function Tail(c: Command): string {
    c.operation + (Words(c.options) + (if c.parameters != [] then " --" + Words(c.parameters) else ""))
  }

  lemma TailWords(c: Command)
    requires BlankFree(c.operation) && AllBlankFree(c.options) && AllBlankFree(c.parameters)
    ensures SplitBlanks(Tail(c))
         == [c.operation] + (c.options + (if c.parameters != [] then ["--"] + c.parameters else []))
  {
    var end := if c.parameters != [] then " --" + Words(c.parameters) else "";
    if c.parameters != [] {
      assert end == Words(["--"] + c.parameters) + "" by { assert (["--"] + c.parameters)[1..] == c.parameters; }
      SplitWords(["--"] + c.parameters, "");
      assert SplitBlanks("")[1..] == [];
    }
    SplitWords(c.options, end);
    SplitWord(c.operation, Words(c.options) + end);
  }

  lemma RenderText(c: Command)
    ensures Render(c) == (if c.token.Some? then ToString(c.token.value) else "") + ("-" + Tail(c))
  {
  }

  /** Digits, a dash and a tail. */
  lemma DashRead(digits: string, tail: string)
    requires AllDigits(digits, 10)
    ensures var line := digits + ("-" + tail);
            && DigitsLength(line, 10) == |digits| < |line| && line[|digits|] == '-'
            && line[..|digits|] == digits && line[|digits| + 1..] == tail
  {
    DigitsEnd(digits, "-" + tail, 10);
  }

  lemma HeadRead(c: Command)
    requires c.token.Some? ==> c.token.value >= 0
    ensures var line, n := Render(c), DigitsLength(Render(c), 10);
            && n < |line| && line[n] == '-' && line[n + 1..] == Tail(c)
            && (if n == 0 then None else Some(Number(line[..n], 10))) == c.token
  {
    RenderText(c);
    DashRead(if c.token.Some? then ToString(c.token.value) else "", Tail(c));
    if c.token.Some? { NumberOfDecimal(c.token.value); }
  }

  lemma BlankFreeIsRead(c: Command)
    requires BlankFreeCommand(c)
    ensures ReadBlankSeparated(Render(c)) == Some(c)
  {
    HeadRead(c);
    TailWords(c);
    SplitAtDashes(c.options, c.parameters);
    assert c.options + [] == c.options;
    var ws := SplitBlanks(Tail(c));
    assert ws[0] == c.operation;
    assert ws[1..] == c.options + (if c.parameters != [] then ["--"] + c.parameters else []);
  }

  /** So the line of a command without blanks determines token, operation, options and
      parameters. */
  lemma RenderInjective(c: Command, d: Command)
    requires BlankFreeCommand(c) && BlankFreeCommand(d) && Render(c) == Render(d)
    ensures c == d
  {
    BlankFreeIsRead(c);
    BlankFreeIsRead(d);
  }

  // ---- Commands of the documented syntax ----

  /** All words of a command behind its operation. */
  function AllOf(c: Command): seq<string> {
    c.options + (if c.parameters != [] then ["--"] + c.parameters else [])
  }

  lemma TailText(c: Command)
    ensures Tail(c) == c.operation + Words(AllOf(c))
  {
    WordsConcat(c.options, if c.parameters != [] then ["--"] + c.parameters else []);
    if c.parameters != [] { assert (["--"] + c.parameters)[1..] == c.parameters; }
  }

  lemma ExpressibleIsRead(c: Command)
    requires Expressible(c)
    ensures ReadCommand(Render(c)) == Some(c)
  {
    HeadRead(c);
    TailRead(c);
    SplitAtDashes(c.options, c.parameters);
    assert c.options + [] == c.options;
  }

  /** Operation and words behind the dash. */
  lemma TailRead(c: Command)
    requires Expressible(c)
    ensures var tail, k := Tail(c), BlankAt(Tail(c));
            && tail[..k] == c.operation
            && (if k == |tail| then Some([]) else ReadWords(tail[k + 1..])) == Some(AllOf(c))
  {
    var all := AllOf(c);
    TailText(c);
    BlankEnds(c.operation, Words(all));
    if all == [] {
      assert c.operation + Words(all) == c.operation;
    } else {
      assert Words(all) == " " + (all[0] + Words(all[1..]));
      BehindBlank(c.operation, all[0] + Words(all[1..]));
      assert Word("--");
      WordsRead(all);
    }
  }

  lemma {:induction false} OptionsAndParameters(ws: seq<string>)
    requires AllWords(ws)
    ensures var (options, parameters) := SplitOptions(ws);
            NoDashes(options) && AllWords(options) && AllWords(parameters)
  {
    if ws == [] || ws[0] == "--" {
    } else {
      OptionsAndParameters(ws[1..]);
    }
  }

  /** Whatever the reader accepts is expressible. */
  lemma ReadIsExpressible(line: string)
    ensures var r := ReadCommand(line); r.Some? ==> Expressible(r.value)
  {
    if ReadCommand(line).Some? {
      var tail := line[DigitsLength(line, 10) + 1..];
      var k := BlankAt(tail);
      if k == |tail| {
        OptionsAndParameters([]);
      } else {
        ReadAreWords(tail[k + 1..]);
        OptionsAndParameters(ReadWords(tail[k + 1..]).value);
      }
    }
  }

  /** The exact law: a rendered command is read back as itself if and only if it is
      expressible. */
  lemma RenderRoundTrip(c: Command)
    ensures ReadCommand(Render(c)) == Some(c) <==> Expressible(c)
  {
    ReadIsExpressible(Render(c));
    if Expressible(c) { ExpressibleIsRead(c); }
  }

  /** So the line of an expressible command, c-strings with blanks included, determines
      the command. */
  lemma ExpressibleInjective(c: Command, d: Command)
    requires Expressible(c) && Expressible(d) && Render(c) == Render(d)
    ensures c == d
  {
    RenderRoundTrip(c);
    RenderRoundTrip(d);
  }

  /** Neither kind of command may be mixed with the other: two halves of a c-string are
      words without blanks. */
  lemma HalvesOfAString(operation: string, a: string, b: string)
    requires CStringWord(a + " " + b) && BlankFree(operation) && BlankFree(a) && BlankFree(b)
    ensures Render(Command(None, operation, [], [a, b])) == Render(Command(None, operation, [], [a + " " + b]))
    ensures BlankFreeCommand(Command(None, operation, [], [a, b]))
    ensures Expressible(Command(None, operation, [], [a + " " + b]))
  {
    assert [a, b][1..] == [b] && [b][1..] == [] && [a + " " + b][1..] == [];
    assert Words([a, b]) == " " + a + (" " + b + "") == " " + (a + " " + b) + "";
  }

  /** The parts in their places, for two small commands. */
  lemma {:induction false} RenderedExample()
    ensures Render(Command(Some(5), "op", ["-f"], ["a", "b c"])) == "5-op -f -- a b c"
    ensures Render(Command(None, "exec-run", [], [])) == "-exec-run"
  {
    OneWord("-f");
    OneWord("b c");
    assert ["a", "b c"][1..] == ["b c"];
    assert Words(["a", "b c"]) == " " + "a" + " b c" == " a b c";
    assert ToString(5) == "5";
    assert "5" + "-" + "op" + " -f" + (" --" + " a b c") == "5-op -f -- a b c";
  }

  lemma {:induction false} OneWord(w: string)
    ensures Words([w]) == " " + w
  {
    assert [w][1..] == [] && Words([w]) == " " + w + "";
  }
}
