/** Strings as the C++ code sees them: first characters, containment, and the
    left-to-right, non-overlapping replacement of boost::replace_all. */
module Text {
  const QUOTE: char := '"'
  const BACKSLASH: char := '\\'

  /** The next character of the input is `c`. */
  predicate Opens(t: string, c: char) {
    |t| > 0 && t[0] == c
  }

  predicate StartsWith(t: string, p: string) {
    |p| <= |t| && t[..|p|] == p
  }

  predicate Contains(s: string, p: string)
    requires p != ""
  {
    |p| <= |s| && (StartsWith(s, p) || Contains(s[1..], p))
  }

  function ReplaceAll(s: string, what: string, repl: string): string
    requires what != ""
  {
    if s == "" then ""
    else if StartsWith(s, what) then repl + ReplaceAll(s[|what|..], what, repl)
    else [s[0]] + ReplaceAll(s[1..], what, repl)
  }

  /** A replacement is the identity exactly when there is nothing to replace,
      provided the new text is shorter than the old one. */
  lemma {:induction false} ReplaceAllIdentity(s: string, what: string, repl: string)
    requires what != "" && |repl| < |what|
    ensures |ReplaceAll(s, what, repl)| <= |s|
    ensures ReplaceAll(s, what, repl) == s <==> !Contains(s, what)
    ensures Contains(s, what) ==> |ReplaceAll(s, what, repl)| < |s|
  {
    if s == "" {
    } else if StartsWith(s, what) {
      ReplaceAllIdentity(s[|what|..], what, repl);
    } else {
      ReplaceAllIdentity(s[1..], what, repl);
      assert s == [s[0]] + s[1..];
    }
  }

  /** How often `c` occurs in `s`. */
  function Count(s: string, c: char): nat {
    if s == "" then 0 else (if s[0] == c then 1 else 0) + Count(s[1..], c)
  }

  lemma {:induction false} CountConcat(s: string, t: string, c: char)
    ensures Count(s + t, c) == Count(s, c) + Count(t, c)
  {
    if s == "" {
      assert s + t == t;
    } else {
      assert (s + t)[1..] == s[1..] + t;
      CountConcat(s[1..], t, c);
    }
  }

  /** Replacing a text by another with equally many `c` keeps the number of `c`. */
  lemma {:induction false} ReplaceAllCount(s: string, what: string, repl: string, c: char)
    requires what != "" && Count(what, c) == Count(repl, c)
    ensures Count(ReplaceAll(s, what, repl), c) == Count(s, c)
  {
    if s == "" {
    } else if StartsWith(s, what) {
      var tail := s[|what|..];
      ReplaceAllCount(tail, what, repl, c);
      assert s == what + tail;
      CountConcat(what, tail, c);
      CountConcat(repl, ReplaceAll(tail, what, repl), c);
    } else {
      ReplaceAllCount(s[1..], what, repl, c);
      assert s == [s[0]] + s[1..];
      CountConcat([s[0]], ReplaceAll(s[1..], what, repl), c);
    }
  }
}
