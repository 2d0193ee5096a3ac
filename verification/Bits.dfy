/** The two bit renderers of `frame_impl::print`: from the bytes of a variable in
    memory, and from the number a debugger printed for it. */
module Bits {
  import opened Numbers

  type Byte = x: int | 0 <= x < 256

  function Pow2(n: nat): (p: nat)
    ensures p > 0
  {
    if n == 0 then 1 else 2 * Pow2(n - 1)
  }

  /** `((c >> pos) & 1) ? '1' : '0'`; for the signed char of the first renderer the
      positions 0 to 7 are those of the byte. */
  function BitToStr(c: nat, pos: nat): char {
    if (c / Pow2(pos)) % 2 == 1 then '1' else '0'
  }

  /** The bits n-1 down to 0. */
  function BitsDown(v: nat, n: nat): (s: string)
    ensures |s| == n && AllDigits(s, 2)
  {
    if n == 0 then "" else [BitToStr(v, n - 1)] + BitsDown(v, n - 1)
  }

  // ---- From memory ----

  /** The bits of a little-endian object: the last byte first. */
  function MemoryBits(contents: seq<Byte>): (s: string)
    ensures |s| == 8 * |contents| && AllDigits(s, 2)
  {
    if contents == [] then ""
    else BitsDown(contents[|contents| - 1], 8) + MemoryBits(contents[..|contents| - 1])
  }

  lemma EightBits(v: nat)
    ensures BitsDown(v, 8)
         == [BitToStr(v, 7), BitToStr(v, 6), BitToStr(v, 5), BitToStr(v, 4),
             BitToStr(v, 3), BitToStr(v, 2), BitToStr(v, 1), BitToStr(v, 0)]
  {
    assert BitsDown(v, 4) == [BitToStr(v, 3), BitToStr(v, 2), BitToStr(v, 1), BitToStr(v, 0)] by {
      assert BitsDown(v, 2) == [BitToStr(v, 1), BitToStr(v, 0)] by {
        assert BitsDown(v, 1) == [BitToStr(v, 0)];
      }
      assert BitsDown(v, 3) == [BitToStr(v, 2)] + BitsDown(v, 2);
    }
    assert BitsDown(v, 5) == [BitToStr(v, 4)] + BitsDown(v, 4);
    assert BitsDown(v, 6) == [BitToStr(v, 5)] + BitsDown(v, 5);
    assert BitsDown(v, 7) == [BitToStr(v, 6)] + BitsDown(v, 6);
  }

  /** The eight push_back calls for one byte. */
  method AppendByte(value: string, v: Byte) returns (value': string)
    ensures value' == value + BitsDown(v, 8)
  {
    EightBits(v);
    value' := value + [BitToStr(v, 7)];
    value' := value' + [BitToStr(v, 6)];
    value' := value' + [BitToStr(v, 5)];
    value' := value' + [BitToStr(v, 4)];
    value' := value' + [BitToStr(v, 3)];
    value' := value' + [BitToStr(v, 2)];
    value' := value' + [BitToStr(v, 1)];
    value' := value' + [BitToStr(v, 0)];
  }

  lemma {:induction false} MemoryStep(value: string, contents: seq<Byte>, i: nat)
    requires i < |contents|
    ensures value + MemoryBits(contents[..i + 1])
         == value + BitsDown(contents[i], 8) + MemoryBits(contents[..i])
  {
    assert contents[..i + 1][..i] == contents[..i];
    assert MemoryBits(contents[..i + 1]) == BitsDown(contents[i], 8) + MemoryBits(contents[..i]);
  }

  /** The loop over the bytes in reverse. */
  method RenderMemory(contents: seq<Byte>) returns (value: string)
    ensures value == MemoryBits(contents)
  {
    value := "";
    var i := |contents|;
    assert contents[..i] == contents;
    while i > 0
      invariant 0 <= i <= |contents|
      invariant value + MemoryBits(contents[..i]) == MemoryBits(contents)
    {
      i := i - 1;
      MemoryStep(value, contents, i);
      value := AppendByte(value, contents[i]);
    }
  }

  // ---- From a number ----

  /** The digits without leading zeros. */
  function Strip(s: string): string {
    if s != "" && s[0] == '0' then Strip(s[1..]) else s
  }

  function NumberBits(val: nat, size: nat): string {
    var s := Strip(BitsDown(val, 8 * size));
    if s == "" then "0" else s
  }

  /** The lambda `push_back`: zeros are dropped as long as nothing was pushed. */
  function Push(res: string, c: char): string {
    if c == '0' && res == "" then res else res + [c]
  }

  lemma {:induction false} StripPush(s: string, c: char)
    ensures Strip(s + [c]) == Push(Strip(s), c)
  {
    if s != "" && s[0] == '0' {
      assert (s + [c])[1..] == s[1..] + [c];
      StripPush(s[1..], c);
    } else if s == "" {
      assert (s + [c])[1..] == "";
    }
  }

  method PushBack(res: string, first: bool, c: char) returns (res': string, first': bool)
    requires first == (res == "")
    ensures res' == Push(res, c) && first' == (res' == "")
  {
    if c == '0' && first {
      return res, first;
    } else {
      return res + [c], false;
    }
  }

  lemma {:induction false} BitAt(v: nat, n: nat, i: nat)
    requires i < n
    ensures BitsDown(v, n)[i] == BitToStr(v, n - 1 - i)
  {
    if i == 0 {
    } else {
      BitAt(v, n - 1, i - 1);
    }
  }

  lemma StripNext(s: string, m: nat)
    requires m < |s|
    ensures Strip(s[..m + 1]) == Push(Strip(s[..m]), s[m])
  {
    assert s[..m + 1] == s[..m] + [s[m]];
    StripPush(s[..m], s[m]);
  }

  /** One more bit of the number. */
  lemma NextBit(v: nat, n: nat, k: nat)
    requires k < n
    ensures Strip(BitsDown(v, n)[..n - k]) == Push(Strip(BitsDown(v, n)[..n - k - 1]), BitToStr(v, k))
  {
    BitAt(v, n, n - k - 1);
    StripNext(BitsDown(v, n), n - k - 1);
  }

  /** The eight calls of the lambda for the byte at bit `k`. */
  method PushByte(val: nat, k: nat, res: string, first: bool, ghost n: nat)
    returns (res': string, first': bool)
    requires first == (res == "")
    requires k + 8 <= n && res == Strip(BitsDown(val, n)[..n - k - 8])
    ensures res' == Strip(BitsDown(val, n)[..n - k]) && first' == (res' == "")
  {
    FourNext(val, n, k + 4, res);
    res', first' := PushBack(res, first, BitToStr(val, 7 + k));
    res', first' := PushBack(res', first', BitToStr(val, 6 + k));
    res', first' := PushBack(res', first', BitToStr(val, 5 + k));
    res', first' := PushBack(res', first', BitToStr(val, 4 + k));
    FourNext(val, n, k, res');
    res', first' := PushBack(res', first', BitToStr(val, 3 + k));
    res', first' := PushBack(res', first', BitToStr(val, 2 + k));
    res', first' := PushBack(res', first', BitToStr(val, 1 + k));
    res', first' := PushBack(res', first', BitToStr(val, 0 + k));
  }

  /** The loop from the highest byte of the number to the lowest. Sizes above 8 would
      shift a 64-bit number by 64 or more. */
  method RenderNumber(val: nat, size: nat) returns (res: string)
    requires val <= MAX_U64 && size <= 8
    ensures res == NumberBits(val, size)
  {
    res := "";
    var first := true;
    ghost var n, all := 8 * size, BitsDown(val, 8 * size);
    var i := size;
    while i != 0
      invariant 0 <= i <= size && first == (res == "")
      invariant res == Strip(all[..n - 8 * i])
    {
      i := i - 1;
      res, first := PushByte(val, i * 8, res, first, n);
    }
    assert all[..n] == all;
    if res == "" {
      res := "0";
    }
  }

  lemma FourNext(v: nat, n: nat, k: nat, res: string)
    requires k + 4 <= n && res == Strip(BitsDown(v, n)[..n - k - 4])
    ensures Strip(BitsDown(v, n)[..n - k])
         == Push(Push(Push(Push(res,
              BitToStr(v, k + 3)), BitToStr(v, k + 2)), BitToStr(v, k + 1)), BitToStr(v, k))
  {
    NextBit(v, n, k + 3);
    NextBit(v, n, k + 2);
    NextBit(v, n, k + 1);
    NextBit(v, n, k);
  }

  // ---- What the digits are worth ----

  function LittleEndian(bytes: seq<Byte>): nat {
    if bytes == [] then 0
    else LittleEndian(bytes[..|bytes| - 1]) + Pow2(8 * (|bytes| - 1)) * bytes[|bytes| - 1]
  }

  lemma {:induction false} Pow2Sum(a: nat, b: nat)
    ensures Pow2(a + b) == Pow2(a) * Pow2(b)
  {
    if a == 0 {
    } else {
      Pow2Sum(a - 1, b);
    }
  }

  lemma Shift(x: nat, p: nat, y: nat, d: nat)
    ensures 2 * (x * p + y) + d == x * (2 * p) + (2 * y + d)
  {
  }

  lemma {:induction false} NumberConcat(a: string, b: string)
    ensures Number(a + b, 2) == Number(a, 2) * Pow2(|b|) + Number(b, 2)
  {
    if b == "" {
      assert a + b == a;
    } else {
      var n := |b| - 1;
      assert (a + b)[..|a + b| - 1] == a + b[..n] && (a + b)[|a + b| - 1] == b[n];
      NumberConcat(a, b[..n]);
      Shift(Number(a, 2), Pow2(n), Number(b[..n], 2), DigitValue(b[n]));
    }
  }

  lemma {:induction false} NumberBound(s: string)
    requires AllDigits(s, 2)
    ensures Number(s, 2) < Pow2(|s|)
  {
    if s == "" {
    } else {
      NumberBound(s[..|s| - 1]);
      assert IsDigit(s[|s| - 1], 2);
    }
  }

  lemma {:induction false} ModSplit(v: nat, p: nat)
    requires p > 0
    ensures v % (2 * p) == (v / p % 2) * p + v % p
  {
    var q, r := v / p, v % p;
    var k, b := q / 2, q % 2;
    assert v == q * p + r && q == 2 * k + b;
    assert v == k * (2 * p) + (b * p + r) by {
      assert (2 * k + b) * p == k * (2 * p) + b * p;
    }
    assert b * p <= p by { if b == 1 { assert b * p == p; } else { assert b == 0; } }
    ModUnique(v, 2 * p, k, b * p + r);
  }

  lemma AtLeastOnce(k: int, m: nat)
    ensures k >= 1 ==> k * m >= m
  {
    if k >= 1 { assert k * m == (k - 1) * m + m; }
  }

  lemma {:induction false} ModUnique(v: nat, m: nat, k: nat, r: nat)
    requires r < m && v == k * m + r
    ensures v % m == r
  {
    var k', r' := v / m, v % m;
    assert v == k' * m + r';
    AtLeastOnce(k - k', m);
    AtLeastOnce(k' - k, m);
    assert (k - k') * m == k * m - k' * m && (k' - k) * m == k' * m - k * m;
  }

  lemma {:induction false} BitsValue(v: nat, n: nat)
    ensures Number(BitsDown(v, n), 2) == v % Pow2(n)
  {
    if n == 0 {
    } else {
      var p, b := Pow2(n - 1), BitToStr(v, n - 1);
      BitsValue(v, n - 1);
      NumberConcat([b], BitsDown(v, n - 1));
      assert [b][..0] == "" && Number([b], 2) == DigitValue(b);
      ModSplit(v, p);
    }
  }

  lemma ByteValue(b: Byte)
    ensures Number(BitsDown(b, 8), 2) == b
  {
    BitsValue(b, 8);
    Pow2Eight();
    ModUnique(b, Pow2(8), 0, b);
  }

  lemma Pow2Eight()
    ensures Pow2(8) == 256
  {
    assert Pow2(4) == 16;
    Pow2Sum(4, 4);
  }

  /** The first renderer's digits are worth the little-endian value. */
  lemma {:induction false} MemoryValue(bytes: seq<Byte>)
    ensures Number(MemoryBits(bytes), 2) == LittleEndian(bytes) < Pow2(8 * |bytes|)
  {
    NumberBound(MemoryBits(bytes));
    if bytes == [] {
    } else {
      var low, high := bytes[..|bytes| - 1], bytes[|bytes| - 1];
      MemoryValue(low);
      NumberConcat(BitsDown(high, 8), MemoryBits(low));
      ByteValue(high);
      assert Number(BitsDown(high, 8), 2) * Pow2(8 * |low|) == Pow2(8 * |low|) * high;
    }
  }

  lemma BinaryDigit(c: char)
    requires IsDigit(c, 2)
    ensures c in {'0', '1'} && DigitValue(c) == (if c == '1' then 1 else 0)
  {
  }

  lemma Halve(x: nat, d: nat)
    requires d < 2
    ensures (2 * x + d) / 2 == x && (2 * x + d) % 2 == d
  {
  }

  lemma FrontAndLast(s: string)
    requires s != ""
    ensures s == s[..|s| - 1] + [s[|s| - 1]]
  {
  }

  /** The last digit and the digits before it can be read off the value. */
  lemma {:induction false} LastDigit(s: string)
    requires s != "" && AllDigits(s, 2)
    ensures var n := |s| - 1;
            && Number(s[..n], 2) == Number(s, 2) / 2
            && s[n] == (if Number(s, 2) % 2 == 1 then '1' else '0') && s == s[..n] + [s[n]]
  {
    var n := |s| - 1;
    assert IsDigit(s[n], 2);
    BinaryDigit(s[n]);
    FrontAndLast(s);
    Halve(Number(s[..n], 2), DigitValue(s[n]));
  }

  /** Digit strings of one length are told apart by their value. */
  lemma {:induction false} SameLengthSameValue(a: string, b: string)
    requires |a| == |b| && AllDigits(a, 2) && AllDigits(b, 2) && Number(a, 2) == Number(b, 2)
    ensures a == b
  {
    if a == "" {
    } else {
      LastDigit(a);
      LastDigit(b);
      SameLengthSameValue(a[..|a| - 1], b[..|b| - 1]);
    }
  }

  /** The two renderers see the same bits: the bytes of an object and the number it
      stands for give the same 8 * size digits, and the second renderer's text is
      those digits without leading zeros, "0" if none are left. */
  lemma {:induction false} RenderersAgree(bytes: seq<Byte>)
    ensures MemoryBits(bytes) == BitsDown(LittleEndian(bytes), 8 * |bytes|)
    ensures NumberBits(LittleEndian(bytes), |bytes|)
         == if Strip(MemoryBits(bytes)) == "" then "0" else Strip(MemoryBits(bytes))
  {
    MemoryValue(bytes);
    var n := 8 * |bytes|;
    BitsValue(LittleEndian(bytes), n);
    ModUnique(LittleEndian(bytes), Pow2(n), 0, LittleEndian(bytes));
    SameLengthSameValue(MemoryBits(bytes), BitsDown(LittleEndian(bytes), n));
  }

  /** A canonical binary number: no leading zero, except "0" itself. */
  predicate Canonical(s: string) {
    AllDigits(s, 2) && s != "" && (s[0] == '0' ==> s == "0")
  }

  lemma {:induction false} StripKeepsValue(s: string)
    requires AllDigits(s, 2)
    ensures AllDigits(Strip(s), 2) && Number(Strip(s), 2) == Number(s, 2)
    ensures Strip(s) == "" || Strip(s)[0] == '1'
  {
    if s != "" && s[0] == '0' {
      StripKeepsValue(s[1..]);
      assert s == "0" + s[1..];
      NumberConcat("0", s[1..]);
      assert "0"[..0] == "" && Number("0", 2) == 0;
    } else if s != "" {
      assert IsDigit(s[0], 2);
    }
  }

  /** The second renderer gives the canonical binary text of the number modulo
      2^(8 * size), "0" for zero. */
  lemma NumberBitsValue(val: nat, size: nat)
    ensures Canonical(NumberBits(val, size))
    ensures Number(NumberBits(val, size), 2) == val % Pow2(8 * size)
  {
    var s := BitsDown(val, 8 * size);
    BitsValue(val, 8 * size);
    StripKeepsValue(s);
    assert "0"[..0] == "" && Number("0", 2) == 0;
  }

  /** Canonical texts are determined by their value, so NumberBitsValue leaves the
      second renderer no choice. */
  lemma CanonicalUnique(a: string, b: string)
    requires Canonical(a) && Canonical(b) && Number(a, 2) == Number(b, 2)
    ensures a == b
  {
    CanonicalLength(a);
    CanonicalLength(b);
    Pow2Monotone(|a|, |b| - 1);
    Pow2Monotone(|b|, |a| - 1);
    if |a| == |b| { SameLengthSameValue(a, b); }
  }

  lemma CanonicalLength(s: string)
    requires Canonical(s)
    ensures Number(s, 2) < Pow2(|s|)
    ensures |s| > 1 ==> Pow2(|s| - 1) <= Number(s, 2)
  {
    NumberBound(s);
    if |s| > 1 {
      assert s[0] == '1' && s == "1" + s[1..] by { assert IsDigit(s[0], 2); }
      LeadingOne(s[1..]);
    }
  }

  lemma {:induction false} LeadingOne(s: string)
    ensures Number("1" + s, 2) == Pow2(|s|) + Number(s, 2)
  {
    NumberConcat("1", s);
    assert "1"[..0] == "" && Number("1", 2) == 1;
  }

  lemma {:induction false} Pow2Monotone(a: nat, b: nat)
    ensures a <= b ==> Pow2(a) <= Pow2(b)
  {
    if a >= b {
    } else {
      Pow2Monotone(a, b - 1);
    }
  }
}
