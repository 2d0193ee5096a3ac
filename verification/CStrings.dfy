/** The quoted strings of GDB/MI: the scanner of the `cstring` rule, the two
    replacements of its action, and the exact law relating them to the escaping
    of quotes. */
module CStrings {
  import opened Text

  /** `\"`, `\\"` and `\\\"` as raw characters. */
  const ESCAPED_QUOTE: string := [BACKSLASH, QUOTE]
  const TWO_BEFORE_QUOTE: string := [BACKSLASH, BACKSLASH, QUOTE]
  const THREE_BEFORE_QUOTE: string := [BACKSLASH, BACKSLASH, BACKSLASH, QUOTE]

  /** How many characters `star<sor<string<'\\','"'>, not_one<'"'>>>` takes. */
  function ScanBody(t: string): (n: nat)
    ensures n <= |t|
  {
    if t == "" then 0
    else if StartsWith(t, ESCAPED_QUOTE) then 2 + ScanBody(t[2..])
    else if t[0] != QUOTE then 1 + ScanBody(t[1..])
    else 0
  }

  /** The first of the two replacements. */
  function Unquote(body: string): string {
    ReplaceAll(body, ESCAPED_QUOTE, [QUOTE])
  }

  /** The second one: of two backslashes before a quote one is left. */
  function Collapse(s: string): string {
    ReplaceAll(s, TWO_BEFORE_QUOTE, ESCAPED_QUOTE)
  }

  /** The action of `cstring`, on the text between the quotes. */
  function Decode(body: string): string {
    Collapse(Unquote(body))
  }

  datatype Scan = Scan(ok: bool, text: string, rest: string)

  /** The rule `cstring` with its action. */
  function CString(t: string): (m: Scan)
    ensures m.ok ==> |m.rest| + 2 <= |t|
    ensures m.ok ==> m.rest == t[|t| - |m.rest|..]
    ensures m.ok ==> Opens(t, QUOTE)
    ensures !m.ok ==> m.rest == t
  {
    if !Opens(t, QUOTE) then Scan(false, "", t)
    else
      var n := ScanBody(t[1..]);
      if Opens(t[1 + n..], QUOTE) then Scan(true, Decode(t[1..1 + n]), t[2 + n..])
      else Scan(false, "", t)
  }

  /** The inverse GDB would apply: a backslash before every quote. */
  function Escape(s: string): string {
    if s == "" then ""
    else (if s[0] == QUOTE then ESCAPED_QUOTE else [s[0]]) + Escape(s[1..])
  }

  function PrintString(s: string): string {
    [QUOTE] + Escape(s) + [QUOTE]
  }

  predicate EndsInBackslash(s: string) {
    |s| > 0 && s[|s| - 1] == BACKSLASH
  }

  /** The strings that survive printing and parsing. */
  predicate Escapable(s: string) {
    !EndsInBackslash(s) && !Contains(s, TWO_BEFORE_QUOTE)
  }

  lemma {:induction false} UnquoteEscape(s: string)
    ensures Unquote(Escape(s)) == s
  {
    if s == "" {
    } else {
      UnquoteEscape(s[1..]);
      var e := Escape(s[1..]);
      assert s == [s[0]] + s[1..];
      if s[0] == QUOTE {
        assert Escape(s)[2..] == e;
        assert StartsWith(Escape(s), ESCAPED_QUOTE);
      } else {
        assert Escape(s)[1..] == e;
        assert !StartsWith(Escape(s), ESCAPED_QUOTE) by {
          if |Escape(s)| >= 2 && Escape(s)[1] == QUOTE {
            assert e[0] == QUOTE;
          }
        }
      }
    }
  }

  /** The scanner takes an escaped string up to its closing quote exactly when the
      string does not end in a backslash; otherwise it runs past that quote. */
  lemma {:induction false} ScanEscaped(s: string, rest: string)
    ensures !EndsInBackslash(s) ==> ScanBody(Escape(s) + [QUOTE] + rest) == |Escape(s)|
    ensures EndsInBackslash(s) ==> ScanBody(Escape(s) + [QUOTE] + rest) > |Escape(s)|
  {
    var t := Escape(s) + [QUOTE] + rest;
    if s == "" {
      assert t[0] == QUOTE;
    } else {
      ScanEscaped(s[1..], rest);
      var tail := Escape(s[1..]) + [QUOTE] + rest;
      if s[0] == QUOTE {
        assert t[..2] == ESCAPED_QUOTE && t[2..] == tail;
      } else {
        assert t[0] == s[0] && t[1..] == tail;
        if |s| > 1 {
          assert tail[0] == Escape(s[1..])[0] && tail[0] != QUOTE;
          assert t[1] == tail[0];
          assert !StartsWith(t, ESCAPED_QUOTE);
        } else if s[0] == BACKSLASH {
          assert t[..2] == ESCAPED_QUOTE;
        }
      }
    }
  }

  lemma {:induction false} EscapeCount(s: string)
    ensures Count(Escape(s), QUOTE) == Count(s, QUOTE)
  {
    if s == "" {
    } else {
      EscapeCount(s[1..]);
      var head := if s[0] == QUOTE then ESCAPED_QUOTE else [s[0]];
      CountConcat(head, Escape(s[1..]), QUOTE);
      assert Count(ESCAPED_QUOTE, QUOTE) == 1 by {
        assert ESCAPED_QUOTE == [BACKSLASH] + [QUOTE];
        CountConcat([BACKSLASH], [QUOTE], QUOTE);
      }
    }
  }

  lemma DecodeCount(body: string)
    ensures Count(Decode(body), QUOTE) == Count(body, QUOTE)
  {
    assert ESCAPED_QUOTE[1..] == [QUOTE];
    assert TWO_BEFORE_QUOTE[1..] == ESCAPED_QUOTE;
    ReplaceAllCount(body, ESCAPED_QUOTE, [QUOTE], QUOTE);
    ReplaceAllCount(Unquote(body), TWO_BEFORE_QUOTE, ESCAPED_QUOTE, QUOTE);
  }

  lemma PrintedText(s: string, rest: string)
    ensures var t := PrintString(s) + rest;
            t[0] == QUOTE && t[1..] == Escape(s) + [QUOTE] + rest
  {
  }

  /** What the rule makes of a text once it is known how far the scanner goes. */
  lemma CStringAt(t: string, taken: string, after: string)
    requires Opens(t, QUOTE) && t[1..] == taken + after && ScanBody(t[1..]) == |taken|
    ensures CString(t) == if Opens(after, QUOTE) then Scan(true, Decode(taken), after[1..])
                          else Scan(false, "", t)
  {
    var n := |taken|;
    assert t[1..1 + n] == t[1..][..n] == taken;
    assert t[1 + n..] == t[1..][n..] == after;
    assert after != "" ==> t[2 + n..] == after[1..];
  }

  /** The scanner stops at the right quote. */
  lemma StopsAtQuote(s: string, rest: string)
    requires !EndsInBackslash(s)
    ensures CString(PrintString(s) + rest) == Scan(true, Collapse(s), rest)
  {
    PrintedText(s, rest);
    ScanEscaped(s, rest);
    var after := [QUOTE] + rest;
    assert Escape(s) + [QUOTE] + rest == Escape(s) + after && after[1..] == rest;
    CStringAt(PrintString(s) + rest, Escape(s), after);
    UnquoteEscape(s);
  }

  lemma TakenParts(e: string, rest: string, n: nat)
    requires var body := e + [QUOTE] + rest; |e| < n <= |body|
    ensures var body := e + [QUOTE] + rest;
            body[..n] == e + [QUOTE] + body[|e| + 1..n] && body == body[..n] + body[n..]
  {
  }

  /** With a quote more, the text does not decode to the string, collapsed or not. */
  lemma OneQuoteMore(s: string, more: string)
    ensures Decode(Escape(s) + [QUOTE] + more) !in {s, Collapse(s)}
  {
    assert TWO_BEFORE_QUOTE[1..] == ESCAPED_QUOTE;
    ReplaceAllCount(s, TWO_BEFORE_QUOTE, ESCAPED_QUOTE, QUOTE);
    CountConcat(Escape(s) + [QUOTE], more, QUOTE);
    CountConcat(Escape(s), [QUOTE], QUOTE);
    EscapeCount(s);
    DecodeCount(Escape(s) + [QUOTE] + more);
  }

  /** It takes the closing quote, one more than the string has. */
  lemma RunsPastQuote(s: string, rest: string)
    requires EndsInBackslash(s)
    ensures var m := CString(PrintString(s) + rest); m.ok ==> m.text !in {s, Collapse(s)}
  {
    PrintedText(s, rest);
    ScanEscaped(s, rest);
    var body := Escape(s) + [QUOTE] + rest;
    var n := ScanBody(body);
    TakenParts(Escape(s), rest, n);
    CStringAt(PrintString(s) + rest, body[..n], body[n..]);
    OneQuoteMore(s, body[|Escape(s)| + 1..n]);
  }

  /** The escape law: whatever follows, a printed string is read back as itself
      exactly when it is Escapable. When it is, the scanner also stops at the
      right quote. */
  lemma EscapeLaw(s: string, rest: string)
    ensures var m := CString(PrintString(s) + rest);
            && (m.ok && m.text == s <==> Escapable(s))
            && (Escapable(s) ==> m.rest == rest)
  {
    if EndsInBackslash(s) {
      RunsPastQuote(s, rest);
    } else {
      StopsAtQuote(s, rest);
      ReplaceAllIdentity(s, TWO_BEFORE_QUOTE, ESCAPED_QUOTE);
    }
  }

  /** What the scanner takes: every quote has a backslash of its own. */
  predicate Body(b: string) {
    b == "" || (if StartsWith(b, ESCAPED_QUOTE) then Body(b[2..]) else b[0] != QUOTE && Body(b[1..]))
  }

  lemma {:induction false} ScannedIsBody(t: string)
    ensures Body(t[..ScanBody(t)])
  {
    if t == "" {
    } else if StartsWith(t, ESCAPED_QUOTE) {
      ScannedIsBody(t[2..]);
      assert t[..ScanBody(t)][2..] == t[2..][..ScanBody(t[2..])];
      assert t[..ScanBody(t)][..2] == t[..2];
    } else if t[0] != QUOTE {
      ScannedIsBody(t[1..]);
      var b := t[..ScanBody(t)];
      assert b[1..] == t[1..][..ScanBody(t[1..])];
      assert !StartsWith(b, ESCAPED_QUOTE) by {
        if |b| >= 2 { assert b[..2] == t[..2]; }
      }
    }
  }

  lemma {:induction false} EscapeUnquote(b: string)
    requires Body(b)
    ensures Escape(Unquote(b)) == b
  {
    if b == "" {
    } else if StartsWith(b, ESCAPED_QUOTE) {
      EscapeUnquote(b[2..]);
      assert b == ESCAPED_QUOTE + b[2..];
      var u := Unquote(b);
      assert u == [QUOTE] + Unquote(b[2..]);
      assert u[1..] == Unquote(b[2..]);
    } else {
      EscapeUnquote(b[1..]);
      assert b == [b[0]] + b[1..];
      var u := Unquote(b);
      assert u == [b[0]] + Unquote(b[1..]);
      assert u[1..] == Unquote(b[1..]);
    }
  }

  lemma EscapeHead(s: string)
    ensures StartsWith(Escape(s), THREE_BEFORE_QUOTE) <==> StartsWith(s, TWO_BEFORE_QUOTE)
  {
    var e := Escape(s);
    if |s| >= 1 && s[0] != QUOTE {
      assert e == [s[0]] + Escape(s[1..]);
      if |s| >= 2 && s[1] != QUOTE {
        assert s[1..][0] == s[1] && s[1..][1..] == s[2..];
        assert e == [s[0], s[1]] + Escape(s[2..]);
        if |s| >= 3 {
          assert s[2..][0] == s[2];
          assert s[..3] == [s[0], s[1], s[2]];
          if s[2] == QUOTE {
            assert e == [s[0], s[1], BACKSLASH, QUOTE] + Escape(s[2..][1..]);
          } else {
            assert e[2] == s[2];
            if |e| >= 4 {
              QuoteAfterBackslash(s[2..]);
              assert e[..4][3] == e[3] == Escape(s[2..])[1];
            }
          }
        }
      } else if |s| >= 2 {
        assert e[2] == QUOTE;
        assert |e| >= 4 ==> e[..4][2] == QUOTE;
        assert |s| >= 3 ==> s[..3][1] == QUOTE;
      }
    } else if |s| >= 1 {
      assert e[1] == QUOTE;
      assert |e| >= 4 ==> e[..4][1] == QUOTE;
      assert |s| >= 3 ==> s[..3][0] == QUOTE;
    }
  }

  /** The character after an unquoted first character is never a quote. */
  lemma QuoteAfterBackslash(s: string)
    requires |s| > 0 && s[0] != QUOTE
    ensures |Escape(s)| > 1 ==> Escape(s)[1] != QUOTE
  {
    assert Escape(s) == [s[0]] + Escape(s[1..]);
    if |s| > 1 { assert Escape(s)[1] == Escape(s[1..])[0]; }
  }

  /** Escaping adds one backslash before each quote. */
  lemma {:induction false} EscapeShiftsBackslashes(s: string)
    ensures Contains(Escape(s), THREE_BEFORE_QUOTE) <==> Contains(s, TWO_BEFORE_QUOTE)
  {
    EscapeHead(s);
    if s == "" {
    } else {
      EscapeShiftsBackslashes(s[1..]);
      var e, tail := Escape(s), Escape(s[1..]);
      if s[0] == QUOTE {
        assert e[1..][1..] == tail && e[1] == QUOTE;
        assert !StartsWith(e[1..], THREE_BEFORE_QUOTE);
      } else {
        assert e[1..] == tail;
      }
    }
  }

  /** Re-escaping the decoded body gives the body back exactly when the body has no
      three backslashes before a quote. */
  lemma ReEscape(b: string)
    requires Body(b)
    ensures Escape(Decode(b)) == b <==> !Contains(b, THREE_BEFORE_QUOTE)
  {
    var u := Unquote(b);
    EscapeUnquote(b);
    EscapeShiftsBackslashes(u);
    ReplaceAllIdentity(u, TWO_BEFORE_QUOTE, ESCAPED_QUOTE);
    UnquoteEscape(u);
    UnquoteEscape(Decode(b));
  }

  /** The text between the quotes of a match. */
  lemma Matched(t: string) returns (b: string)
    requires CString(t).ok
    ensures Body(b) && t == [QUOTE] + b + [QUOTE] + CString(t).rest && CString(t).text == Decode(b)
  {
    var n := ScanBody(t[1..]);
    b := t[1..1 + n];
    assert t[1..][..n] == b;
    ScannedIsBody(t[1..]);
  }

  /** Soundness of the string rule: the text taken is a printed string, and the result
      is that string after the second replacement. */
  lemma StringSound(t: string) returns (s: string)
    requires CString(t).ok
    ensures t == PrintString(s) + CString(t).rest && CString(t).text == Collapse(s)
  {
    var b := Matched(t);
    EscapeUnquote(b);
    s := Unquote(b);
  }

  lemma SameBody(a: string, b: string, rest: string)
    ensures [QUOTE] + a + [QUOTE] + rest == [QUOTE] + b + [QUOTE] + rest <==> a == b
    ensures var t := [QUOTE] + b + [QUOTE] + rest; t[1..|t| - |rest| - 1] == b
  {
    var s, t := [QUOTE] + a + [QUOTE] + rest, [QUOTE] + b + [QUOTE] + rest;
    assert t[1..|t| - |rest| - 1] == b && s[1..|s| - |rest| - 1] == a;
  }

  /** Exactly when that is the same string: printing the result gives the text taken
      if and only if no quote in it has three backslashes before it. */
  lemma CStringSound(t: string)
    requires CString(t).ok
    ensures var m := CString(t);
            t == PrintString(m.text) + m.rest
            <==> !Contains(t[1..|t| - |m.rest| - 1], THREE_BEFORE_QUOTE)
  {
    var b := Matched(t);
    ReEscape(b);
    SameBody(Escape(CString(t).text), b, CString(t).rest);
  }

  /** Neither quotes nor backslashes. */
  predicate Bare(s: string) {
    QUOTE !in s && BACKSLASH !in s
  }

  lemma {:induction false} BareIsEscapable(s: string)
    requires Bare(s)
    ensures Escapable(s)
  {
    if s == "" {
    } else {
      BareIsEscapable(s[1..]);
      assert s[|s| - 1] in s;
      assert |s| >= 3 ==> s[..3][0] == s[0];
    }
  }

  /** Exactly which texts the rule accepts: a printed string that does not end in a
      backslash, followed by anything. The first half is StopsAtQuote. */
  lemma CStringAccepts(t: string) returns (s: string)
    requires CString(t).ok
    ensures t == PrintString(s) + CString(t).rest && !EndsInBackslash(s) && CString(t).text == Collapse(s)
  {
    var b := Matched(t);
    EscapeUnquote(b);
    s := Unquote(b);
    if EndsInBackslash(s) {
      RunsPastQuote(s, CString(t).rest);
    }
  }
}
