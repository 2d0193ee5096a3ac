/** The path normalisation of the host's `open` on POSIX: three replacements. */
module Paths {
  import opened Text

  const SLASH: char := '/'

  /** Every backslash becomes a slash, then twice every two slashes become one. */
  function Normalise(file: string): string {
    ReplaceAll(ReplaceAll(ReplaceAll(file, "\\", "/"), "//", "/"), "//", "/")
  }

  // ---- An independent description: runs of separators ----

  function Slashes(n: nat): (s: string)
    ensures |s| == n && forall i | 0 <= i < n :: s[i] == SLASH
  {
    if n == 0 then "" else [SLASH] + Slashes(n - 1)
  }

  /** Length of the run of slashes at the front. */
  function RunLength(s: string): (n: nat)
    ensures n <= |s| && s[..n] == Slashes(n)
    ensures n < |s| ==> s[n] != SLASH
  {
    if s != "" && s[0] == SLASH then
      assert s == [s[0]] + s[1..];
      1 + RunLength(s[1..])
    else 0
  }

  /** Every maximal run of n slashes becomes ceil(n / k) of them. */
  function Shrink(s: string, k: nat): string
    requires k > 0
    decreases |s|
  {
    if s == "" then ""
    else if s[0] == SLASH then Slashes((RunLength(s) + k - 1) / k) + Shrink(s[RunLength(s)..], k)
    else [s[0]] + Shrink(s[1..], k)
  }

  predicate IsSeparator(c: char) {
    c == '/' || c == '\\'
  }

  function ToSlash(s: string): (t: string)
    ensures |t| == |s| && forall i | 0 <= i < |s| :: t[i] == if s[i] == '\\' then SLASH else s[i]
  {
    seq(|s|, i requires 0 <= i < |s| => if s[i] == '\\' then SLASH else s[i])
  }

  lemma {:induction false} BackslashReplaced(s: string)
    ensures ReplaceAll(s, "\\", "/") == ToSlash(s)
  {
    if s == "" {
    } else {
      BackslashReplaced(s[1..]);
      assert ToSlash(s) == [ToSlash(s)[0]] + ToSlash(s[1..]);
      assert StartsWith(s, "\\") <==> s[0] == '\\';
    }
  }

  lemma {:induction false} RunOf(n: nat, t: string)
    requires t == "" || t[0] != SLASH
    ensures RunLength(Slashes(n) + t) == n
  {
    var s := Slashes(n) + t;
    if n == 0 {
      assert s == t;
    } else {
      assert s[0] == SLASH && s[1..] == Slashes(n - 1) + t;
      RunOf(n - 1, t);
    }
  }

  /** Two slashes become one, and the replacement goes on behind them. */
  lemma PairReplaced(t: string)
    ensures ReplaceAll("//" + t, "//", "/") == "/" + ReplaceAll(t, "//", "/")
  {
    assert ("//" + t)[..2] == "//" && ("//" + t)[2..] == t;
  }

  lemma SingleKept(t: string)
    requires t == "" || t[0] != SLASH
    ensures ReplaceAll("/" + t, "//", "/") == "/" + ReplaceAll(t, "//", "/")
  {
    var s := "/" + t;
    assert s[1..] == t && (|s| > 1 ==> s[..2][1] == t[0]);
  }

  lemma TwoSlashes(n: nat, t: string)
    requires n >= 2
    ensures Slashes(n) + t == "//" + (Slashes(n - 2) + t)
  {
  }

  lemma OneMoreSlash(n: nat, t: string)
    ensures "/" + (Slashes(n) + t) == Slashes(n + 1) + t
  {
  }

  /** One replacement of "//" on a run of slashes. */
  lemma {:induction false} PairsReplaced(n: nat, t: string)
    requires t == "" || t[0] != SLASH
    ensures ReplaceAll(Slashes(n) + t, "//", "/") == Slashes((n + 1) / 2) + ReplaceAll(t, "//", "/")
    decreases n
  {
    if n == 0 {
      assert Slashes(n) + t == t;
    } else if n == 1 {
      assert Slashes(1) == "/";
      SingleKept(t);
    } else {
      PairsReplaced(n - 2, t);
      TwoSlashes(n, t);
      PairReplaced(Slashes(n - 2) + t);
      OneMoreSlash((n - 1) / 2, ReplaceAll(t, "//", "/"));
      assert (n - 1) / 2 + 1 == (n + 1) / 2;
    }
  }

  /** A replacement of "//" halves every run of slashes, rounding up. */
  lemma {:induction false} ReplaceIsShrink(s: string)
    ensures ReplaceAll(s, "//", "/") == Shrink(s, 2)
    decreases |s|
  {
    if s == "" {
    } else {
      if s[0] == SLASH {
        var n := RunLength(s);
        assert s == Slashes(n) + s[n..];
        PairsReplaced(n, s[n..]);
        ReplaceIsShrink(s[n..]);
      } else {
        assert !StartsWith(s, "//");
        ReplaceIsShrink(s[1..]);
      }
    }
  }

  lemma Halves(n: nat)
    ensures ((n + 1) / 2 + 1) / 2 == (n + 3) / 4
  {
  }

  lemma {:induction false} ShrinkStart(s: string, k: nat)
    requires k > 0
    ensures Shrink(s, k) == "" <==> s == ""
    ensures s != "" ==> (Shrink(s, k)[0] == SLASH <==> s[0] == SLASH)
  {
    if s != "" && s[0] == SLASH {
      var n := RunLength(s);
      assert (n + k - 1) / k >= 1 by { assert n + k - 1 >= k; AtLeastOne(n + k - 1, k); }
    }
  }

  lemma AtLeastOne(a: nat, k: nat)
    requires a >= k > 0
    ensures a / k >= 1
  {
  }

  lemma ShrinkRun(n: nat, t: string, k: nat)
    requires k > 0 && (t == "" || t[0] != SLASH)
    ensures n > 0 ==> Shrink(Slashes(n) + t, k) == Slashes((n + k - 1) / k) + Shrink(t, k)
  {
    var s := Slashes(n) + t;
    RunOf(n, t);
    assert s[n..] == t;
    if n > 0 { assert s[0] == SLASH; }
  }

  lemma ShrinkFront(s: string, k: nat)
    requires k > 0 && s != "" && s[0] == SLASH
    ensures Shrink(s, k) == Slashes((RunLength(s) + k - 1) / k) + Shrink(s[RunLength(s)..], k)
  {
  }

  /** Halving twice is quartering. */
  lemma {:induction false} ShrinkTwice(s: string)
    ensures Shrink(Shrink(s, 2), 2) == Shrink(s, 4)
    decreases |s|
  {
    if s == "" {
    } else if s[0] == SLASH {
      ShrinkTwiceRun(s);
      ShrinkTwice(s[RunLength(s)..]);
      ShrinkFront(s, 4);
    } else {
      ShrinkTwice(s[1..]);
      ShrinkTwiceFirst(s[0], s[1..]);
      assert s == [s[0]] + s[1..];
    }
  }

  lemma {:induction false} ShrinkTwiceFirst(c: char, t: string)
    requires c != SLASH
    ensures Shrink(Shrink([c] + t, 2), 2) == [c] + Shrink(Shrink(t, 2), 2)
    ensures Shrink([c] + t, 4) == [c] + Shrink(t, 4)
  {
    ShrinkFirst(c, t, 2);
    ShrinkFirst(c, Shrink(t, 2), 2);
    ShrinkFirst(c, t, 4);
  }

  lemma {:induction false} ShrinkTwiceRun(s: string)
    requires s != "" && s[0] == SLASH
    ensures var n := RunLength(s);
            Shrink(Shrink(s, 2), 2) == Slashes((n + 3) / 4) + Shrink(Shrink(s[n..], 2), 2)
  {
    var n := RunLength(s);
    var half, rest := (n + 1) / 2, Shrink(s[n..], 2);
    ShrinkFront(s, 2);
    assert Shrink(s, 2) == Slashes(half) + rest;
    ShrinkStart(s[n..], 2);
    Halves(n);
    ShrinkRun(half, rest, 2);
  }

  lemma ShrinkFirst(c: char, t: string, k: nat)
    requires k > 0 && c != SLASH
    ensures Shrink([c] + t, k) == [c] + Shrink(t, k)
  {
    assert ([c] + t)[1..] == t;
  }

  /** Normalisation exactly: backslashes become slashes, and every run of n
      separators becomes a run of ceil(n / 4) slashes. */
  lemma NormaliseIsShrink(file: string)
    ensures Normalise(file) == Shrink(ToSlash(file), 4)
  {
    BackslashReplaced(file);
    ReplaceIsShrink(ToSlash(file));
    ReplaceIsShrink(Shrink(ToSlash(file), 2));
    ShrinkTwice(ToSlash(file));
  }

  /** `open` rewrites `file` in place by successive replacements. */
  method NormaliseInPlace(path: string) returns (file: string)
    ensures file == Normalise(path) == Shrink(ToSlash(path), 4)
  {
    file := path;
    file := ReplaceAll(file, "\\", "/");
    file := ReplaceAll(file, "//", "/");
    file := ReplaceAll(file, "//", "/");
    NormaliseIsShrink(path);
  }

  // ---- What that means for the path ----

  /** The maximal pieces without separators, empty ones left out. */
  function Components(s: string): seq<string> {
    if s == "" then []
    else if IsSeparator(s[0]) then Components(s[1..])
    else
      var n := PieceLength(s);
      [s[..n]] + Components(s[n..])
  }

  function PieceLength(s: string): (n: nat)
    ensures n <= |s| && (forall i | 0 <= i < n :: !IsSeparator(s[i]))
    ensures n < |s| ==> IsSeparator(s[n])
    ensures s != "" && !IsSeparator(s[0]) ==> n > 0
  {
    if s == "" || IsSeparator(s[0]) then 0 else 1 + PieceLength(s[1..])
  }

  lemma {:induction false} ComponentsSkip(n: nat, t: string)
    ensures Components(Slashes(n) + t) == Components(t)
  {
    if n == 0 {
      assert Slashes(n) + t == t;
    } else {
      assert (Slashes(n) + t)[1..] == Slashes(n - 1) + t;
      ComponentsSkip(n - 1, t);
    }
  }

  lemma {:induction false} ToSlashKeepsPieces(s: string)
    ensures PieceLength(ToSlash(s)) == PieceLength(s)
  {
    if s == "" {
    } else {
      assert ToSlash(s)[1..] == ToSlash(s[1..]);
      ToSlashKeepsPieces(s[1..]);
    }
  }

  lemma {:induction false} ToSlashKeepsComponents(s: string)
    ensures Components(ToSlash(s)) == Components(s)
    decreases |s|
  {
    if s == "" {
    } else {
      if IsSeparator(s[0]) {
        assert ToSlash(s)[1..] == ToSlash(s[1..]);
        ToSlashKeepsComponents(s[1..]);
      } else {
        var n := PieceLength(s);
        ToSlashKeepsPieces(s);
        assert ToSlash(s)[..n] == s[..n] && ToSlash(s)[n..] == ToSlash(s[n..]);
        ToSlashKeepsComponents(s[n..]);
      }
    }
  }

  lemma PieceFirst(c: char, s: string)
    requires !IsSeparator(c)
    ensures PieceLength([c] + s) == 1 + PieceLength(s)
    ensures ([c] + s)[..1 + PieceLength(s)] == [c] + s[..PieceLength(s)]
    ensures ([c] + s)[1 + PieceLength(s)..] == s[PieceLength(s)..]
  {
    assert ([c] + s)[1..] == s;
  }

  /** Shrinking leaves a piece alone and goes on behind it. */
  lemma {:induction false} ShrinkPiece(s: string, k: nat)
    requires k > 0 && '\\' !in s
    ensures var n := PieceLength(s);
            && Shrink(s, k) == s[..n] + Shrink(s[n..], k)
            && PieceLength(Shrink(s, k)) == n
    decreases |s|
  {
    if s == "" {
    } else if s[0] == SLASH {
      ShrinkStart(s, k);
    } else {
      var c, tail := s[0], s[1..];
      assert s == [c] + tail;
      ShrinkPiece(tail, k);
      PieceFirst(c, tail);
      PieceFirst(c, Shrink(tail, k));
    }
  }

  lemma ComponentsFirst(s: string, n: nat)
    requires s != "" && !IsSeparator(s[0]) && n == PieceLength(s)
    ensures Components(s) == [s[..n]] + Components(s[n..])
  {
  }

  lemma {:induction false} ShrunkPiece(s: string, k: nat)
    requires k > 0 && s != "" && !IsSeparator(s[0]) && '\\' !in s
    ensures var n, t := PieceLength(s), Shrink(s, k);
            && t != "" && !IsSeparator(t[0]) && PieceLength(t) == n
            && t[..n] == s[..n] && t[n..] == Shrink(s[n..], k)
  {
    ShrinkPiece(s, k);
  }

  lemma {:induction false} ShrinkKeepsComponents(s: string, k: nat)
    requires k > 0 && '\\' !in s
    ensures Components(Shrink(s, k)) == Components(s)
    decreases |s|
  {
    if s == "" {
    } else if s[0] == SLASH {
      ShrinkKeepsComponents(s[RunLength(s)..], k);
      RunComponents(s, k);
    } else {
      ShrinkKeepsComponents(s[PieceLength(s)..], k);
      PieceComponents(s, k);
    }
  }

  lemma {:induction false} RunComponents(s: string, k: nat)
    requires k > 0 && s != "" && s[0] == SLASH
    requires Components(Shrink(s[RunLength(s)..], k)) == Components(s[RunLength(s)..])
    ensures Components(Shrink(s, k)) == Components(s)
  {
    var n := RunLength(s);
    assert s == Slashes(n) + s[n..];
    ShrinkFront(s, k);
    ComponentsSkip(n, s[n..]);
    ComponentsSkip((n + k - 1) / k, Shrink(s[n..], k));
  }

  lemma {:induction false} PieceComponents(s: string, k: nat)
    requires k > 0 && '\\' !in s && s != "" && !IsSeparator(s[0])
    requires Components(Shrink(s[PieceLength(s)..], k)) == Components(s[PieceLength(s)..])
    ensures Components(Shrink(s, k)) == Components(s)
  {
    var n := PieceLength(s);
    ShrunkPiece(s, k);
    ComponentsFirst(s, n);
    ComponentsFirst(Shrink(s, k), n);
  }

  lemma {:induction false} ShrinkAddsNoBackslash(s: string, k: nat)
    requires k > 0 && '\\' !in s
    ensures '\\' !in Shrink(s, k)
    decreases |s|
  {
    if s == "" {
    } else {
      if s[0] == SLASH { ShrinkAddsNoBackslash(s[RunLength(s)..], k); }
      else { ShrinkAddsNoBackslash(s[1..], k); }
    }
  }

  /** The normalised path has no backslash, the same components in the same order,
      and is absolute exactly when the path was. */
  lemma {:induction false} NormaliseKeepsPath(file: string)
    ensures '\\' !in Normalise(file)
    ensures Components(Normalise(file)) == Components(file)
    ensures Normalise(file) == "" <==> file == ""
    ensures file != "" ==> (Normalise(file)[0] == SLASH <==> IsSeparator(file[0]))
  {
    NormaliseIsShrink(file);
    ToSlashKeepsComponents(file);
    ShrinkKeepsComponents(ToSlash(file), 4);
    ShrinkAddsNoBackslash(ToSlash(file), 4);
    ShrinkStart(ToSlash(file), 4);
  }

  /** All runs of slashes are at most `most` long. */
  predicate RunsUpTo(s: string, most: nat)
    decreases |s|
  {
    s != "" ==>
      if s[0] == SLASH then RunLength(s) <= most && RunsUpTo(s[RunLength(s)..], most)
      else RunsUpTo(s[1..], most)
  }

  lemma {:induction false} ShrinkRuns(s: string)
    ensures RunsUpTo(Shrink(s, 4), 1) <==> RunsUpTo(s, 4)
    decreases |s|
  {
    if s == "" {
    } else {
      var t := Shrink(s, 4);
      if s[0] == SLASH {
        var n := RunLength(s);
        var m, rest := (n + 3) / 4, Shrink(s[n..], 4);
        ShrinkStart(s[n..], 4);
        RunOf(m, rest);
        assert t[0] == SLASH && t[m..] == rest;
        ShrinkRuns(s[n..]);
      } else {
        assert t[0] == s[0] && t[1..] == Shrink(s[1..], 4);
        ShrinkRuns(s[1..]);
      }
    }
  }

  /** Two passes leave no double slash exactly when no run of separators was longer
      than four. */
  lemma NormaliseCollapses(file: string)
    ensures RunsUpTo(Normalise(file), 1) <==> RunsUpTo(ToSlash(file), 4)
  {
    NormaliseIsShrink(file);
    ShrinkRuns(ToSlash(file));
  }
}
