/** Numbers in text: what std::stoull and std::stoi read, and decimal printing. */
module Numbers {
  datatype Option<+T> = None | Some(value: T)

  /** The exceptions of std::stoi and std::stoull. */
  datatype Parsed<+T> = Parsed(value: T) | InvalidArgument | OutOfRange

  const MAX_U64: nat := 0xFFFF_FFFF_FFFF_FFFF
  const MAX_I32: int := 0x7FFF_FFFF

  /** The value of a digit of any base up to 16; 16 if `c` is no digit. */
  function DigitValue(c: char): (d: nat)
    ensures d <= 16
  {
    if '0' <= c <= '9' then c as int - '0' as int
    else if 'a' <= c <= 'f' then c as int - 'a' as int + 10
    else if 'A' <= c <= 'F' then c as int - 'A' as int + 10
    else 16
  }

  predicate IsDigit(c: char, base: nat) {
    DigitValue(c) < base
  }

  predicate AllDigits(s: string, base: nat) {
    forall i | 0 <= i < |s| :: IsDigit(s[i], base)
  }

  /** The positional value of a digit string. */
  function Number(digits: string, base: nat): nat {
    if digits == "" then 0
    else base * Number(digits[..|digits| - 1], base) + DigitValue(digits[|digits| - 1])
  }

  /** How many digits `s` starts with. */
  function DigitsLength(s: string, base: nat): (n: nat)
    ensures n <= |s| && AllDigits(s[..n], base)
    ensures n < |s| ==> !IsDigit(s[n], base)
  {
    if s != "" && IsDigit(s[0], base) then 1 + DigitsLength(s[1..], base) else 0
  }

  lemma {:induction false} DigitsEnd(digits: string, tail: string, base: nat)
    requires AllDigits(digits, base) && (tail == "" || !IsDigit(tail[0], base))
    ensures DigitsLength(digits + tail, base) == |digits|
  {
    var t := digits + tail;
    if digits == "" {
      assert t == tail;
    } else {
      assert t[0] == digits[0] && t[1..] == digits[1..] + tail;
      DigitsEnd(digits[1..], tail, base);
    }
  }

  // ---- strtol and its wrappers ----

  function SkipBlanks(s: string): string {
    if s != "" && s[0] in {' ', '\t', '\n', '\r', 11 as char, 12 as char}
    then SkipBlanks(s[1..]) else s
  }

  /** The "0x" that base 16 allows, when a digit follows it. */
  function SkipPrefix(s: string, base: nat): string {
    if base == 16 && |s| > 2 && s[0] == '0' && s[1] in {'x', 'X'} && IsDigit(s[2], 16)
    then s[2..] else s
  }

  /** Sign and magnitude of the longest number at the front, if there is one. */
  function ScanNumber(s: string, base: nat): Option<(bool, nat)> {
    var t := SkipBlanks(s);
    var u := SkipPrefix(SkipSign(t), base);
    var n := DigitsLength(u, base);
    if n == 0 then None else Some((IsNegative(t), Number(u[..n], base)))
  }

  predicate IsNegative(t: string) {
    t != "" && t[0] == '-'
  }

  function SkipSign(t: string): string {
    if t != "" && t[0] in {'-', '+'} then t[1..] else t
  }

  /** std::stoull: a minus sign negates modulo 2^64. */
  function Stoull(s: string, base: nat): Parsed<nat> {
    match ScanNumber(s, base)
    case None => InvalidArgument
    case Some((negative, m)) =>
      if m > MAX_U64 then OutOfRange
      else Parsed(if negative && m > 0 then MAX_U64 + 1 - m else m)
  }

  /** std::stoi with a 32-bit int. */
  function Stoi(s: string, base: nat): Parsed<int> {
    match ScanNumber(s, base)
    case None => InvalidArgument
    case Some((negative, m)) =>
      var v := if negative then -(m as int) else m;
      if -MAX_I32 - 1 <= v <= MAX_I32 then Parsed(v) else OutOfRange
  }

  // ---- std::to_string ----

  function Digit(d: nat): char
    requires d < 10
  {
    ('0' as int + d) as char
  }

  function Decimal(n: nat): (s: string)
    ensures s != "" && AllDigits(s, 10)
  {
    if n < 10 then [Digit(n)] else Decimal(n / 10) + [Digit(n % 10)]
  }

  /** std::to_string of an int. */
  function ToString(n: int): string {
    if n < 0 then "-" + Decimal(-n) else Decimal(n)
  }

  /** Decimal text is read back as the number it was made from. */
  lemma {:induction false} NumberOfDecimal(n: nat)
    ensures Number(Decimal(n), 10) == n
  {
    var s := Decimal(n);
    if n < 10 {
      assert s[..0] == "";
    } else {
      NumberOfDecimal(n / 10);
      assert s[..|s| - 1] == Decimal(n / 10);
    }
  }

  // ---- Which texts are numbers ----

  predicate Blank(c: char) {
    c == ' ' || 9 <= c as int <= 13
  }

  predicate Blanks(s: string) {
    forall i | 0 <= i < |s| :: Blank(s[i])
  }

  /** The longest run of digits in front of `tail`, behind the prefix that base 16 allows. */
  predicate Digits(prefix: string, digits: string, tail: string, base: nat) {
    && digits != "" && AllDigits(digits, base) && (tail == "" || !IsDigit(tail[0], base))
    && (prefix == "" || (base == 16 && prefix in {"0x", "0X"}))
    && (prefix == "" && base == 16 && digits == "0" ==>
          !(|tail| > 1 && tail[0] in {'x', 'X'} && IsDigit(tail[1], 16)))
  }

  lemma {:induction false} BlanksSkipped(blanks: string, rest: string)
    requires Blanks(blanks) && (rest == "" || !Blank(rest[0]))
    ensures SkipBlanks(blanks + rest) == rest
  {
    var s := blanks + rest;
    if blanks == "" {
      assert s == rest;
    } else {
      assert s[0] == blanks[0] && Blank(blanks[0]) && s[1..] == blanks[1..] + rest;
      BlanksSkipped(blanks[1..], rest);
    }
  }

  lemma {:induction false} DigitsScanned(prefix: string, digits: string, tail: string, base: nat)
    requires base <= 16 && Digits(prefix, digits, tail, base)
    ensures SkipPrefix(prefix + (digits + tail), base) == digits + tail
    ensures DigitsLength(digits + tail, base) == |digits| && (digits + tail)[..|digits|] == digits
  {
    var u := digits + tail;
    var s := prefix + u;
    DigitsEnd(digits, tail, base);
    assert u[0] == digits[0] && IsDigit(digits[0], base);
    if prefix == "" {
      assert s == u;
      if |digits| > 1 { assert u[1] == digits[1] && IsDigit(digits[1], base); }
    } else {
      assert s[0] == prefix[0] && s[1] == prefix[1] && s[2] == u[0] && s[2..] == u;
    }
  }

  lemma {:induction false} SignSkipped(sign: string, u: string)
    requires sign in {"", "-", "+"} && u != "" && IsDigit(u[0], 16)
    ensures SkipSign(sign + u) == u && (IsNegative(sign + u) <==> sign == "-") && !Blank((sign + u)[0])
  {
    if sign == "" {
      assert sign + u == u;
    } else {
      assert (sign + u)[0] == sign[0] && (sign + u)[1..] == u;
    }
  }

  /** Blanks, a sign, in base 16 a prefix, and digits, followed by anything else: that is
      read, sign and magnitude, and nothing of what follows matters. */
  lemma {:induction false} NumberForm(blanks: string, sign: string, prefix: string, digits: string, tail: string,
        base: nat)
    requires base <= 16 && Blanks(blanks) && sign in {"", "-", "+"} && Digits(prefix, digits, tail, base)
    ensures ScanNumber(blanks + (sign + (prefix + (digits + tail))), base)
         == Some((sign == "-", Number(digits, base)))
  {
    var u := prefix + (digits + tail);
    assert u[0] == (if prefix == "" then digits[0] else '0') && IsDigit(u[0], 16) by {
      assert IsDigit(digits[0], base);
    }
    SignSkipped(sign, u);
    assert SkipBlanks(blanks + (sign + u)) == sign + u by { BlanksSkipped(blanks, sign + u); }
    DigitsScanned(prefix, digits, tail, base);
  }

  lemma {:induction false} SkippedBlanks(s: string) returns (blanks: string)
    ensures Blanks(blanks) && s == blanks + SkipBlanks(s)
  {
    if SkipBlanks(s) == s {
      blanks := "";
    } else {
      var more := SkippedBlanks(s[1..]);
      blanks := [s[0]] + more;
      assert s == [s[0]] + s[1..];
    }
  }

  lemma {:induction false} PrefixSplit(u: string, base: nat) returns (prefix: string, digits: string, tail: string)
    requires base <= 16 && DigitsLength(SkipPrefix(u, base), base) > 0
    ensures Digits(prefix, digits, tail, base) && u == prefix + (digits + tail)
  {
    var v := SkipPrefix(u, base);
    var n := DigitsLength(v, base);
    digits, tail := v[..n], v[n..];
    assert v == digits + tail;
    assert digits != "" && AllDigits(digits, base) && (tail == "" || !IsDigit(tail[0], base));
    if v == u {
      prefix := "";
      if base == 16 && digits == "0" && |tail| > 1 {
        assert u[0] == digits[0] && u[1] == tail[0] && u[2] == tail[1];
      }
      assert u == "" + u;
    } else {
      prefix := ['0', u[1]];
      assert u == prefix + u[2..];
    }
  }

  /** Nothing else is a number. */
  lemma {:induction false} NumberSound(s: string, base: nat)
    returns (blanks: string, sign: string, prefix: string, digits: string, tail: string)
    requires base <= 16 && ScanNumber(s, base).Some?
    ensures Blanks(blanks) && sign in {"", "-", "+"} && Digits(prefix, digits, tail, base)
    ensures s == blanks + (sign + (prefix + (digits + tail)))
  {
    blanks := SkippedBlanks(s);
    var t := SkipBlanks(s);
    sign := if SkipSign(t) == t then "" else [t[0]];
    prefix, digits, tail := PrefixSplit(SkipSign(t), base);
    assert t == sign + SkipSign(t);
  }

  /** Plain digits, with nothing but a non-digit behind them, are read whole. */
  lemma {:induction false} ScanDigits(digits: string, tail: string, base: nat)
    requires digits != "" && base <= 10 && AllDigits(digits, base)
    requires tail == "" || !IsDigit(tail[0], base)
    ensures ScanNumber(digits + tail, base) == Some((false, Number(digits, base)))
  {
    var u := digits + tail;
    assert "" + ("" + ("" + u)) == u;
    NumberForm("", "", "", digits, tail, base);
  }

  // ---- What std::stoull and std::stoi make of numbers ----

  lemma SignedDecimal(sign: string, n: nat)
    requires sign in {"", "-"}
    ensures ScanNumber(sign + Decimal(n), 10) == Some((sign == "-", n))
  {
    var digits := Decimal(n);
    assert "" + (sign + ("" + (digits + ""))) == sign + digits;
    NumberForm("", sign, "", digits, "", 10);
    NumberOfDecimal(n);
  }

  /** What the two make of a sign and a magnitude. */
  lemma FromScan(s: string, base: nat, negative: bool, m: nat)
    requires ScanNumber(s, base) == Some((negative, m))
    ensures var v := if negative then -(m as int) else m;
            Stoi(s, base) == if -MAX_I32 - 1 <= v <= MAX_I32 then Parsed(v) else OutOfRange
    ensures Stoull(s, base)
         == if m > MAX_U64 then OutOfRange else Parsed(if negative && m > 0 then MAX_U64 + 1 - m else m)
  {
  }

  lemma ScanInt(n: int)
    ensures ScanNumber(ToString(n), 10) == Some((n < 0, if n < 0 then -n else n))
  {
    if n < 0 {
      SignedDecimal("-", -n);
    } else {
      SignedDecimal("", n);
      assert "" + Decimal(n) == Decimal(n);
    }
  }

  /** Every int is read as itself, if it fits. */
  lemma IntIsRead(n: int)
    ensures Stoi(ToString(n), 10) == if -MAX_I32 - 1 <= n <= MAX_I32 then Parsed(n) else OutOfRange
  {
    ScanInt(n);
    FromScan(ToString(n), 10, n < 0, if n < 0 then -n else n);
  }

  /** A number above 64 bits throws; a negative one wraps around. */
  lemma UnsignedIsRead(n: nat)
    ensures Stoull(Decimal(n), 10) == if n <= MAX_U64 then Parsed(n) else OutOfRange
    ensures 0 < n <= MAX_U64 ==> Stoull("-" + Decimal(n), 10) == Parsed(MAX_U64 + 1 - n)
  {
    SignedDecimal("-", n);
    FromScan("-" + Decimal(n), 10, true, n);
    SignedDecimal("", n);
    assert "" + Decimal(n) == Decimal(n);
    FromScan(Decimal(n), 10, false, n);
  }
}
