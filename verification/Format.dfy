/** Number formatting and parsing of lib/printk.c. C strings are Dafny strings without NUL. */
module Format {
  import opened Basics

  const LONG_LIMIT: nat := 0x8000_0000_0000_0000
  const LONG_MIN: int := -0x8000_0000_0000_0000

  // ---------------------------------------------------------------------------------
  // strtol, on the rest of the string it has reached.

  predicate IsSpace(c: char) { c == ' ' || '\t' <= c <= '\r' }

  function SkipSpaces(s: string): (r: string)
    ensures |r| <= |s| && s[|s| - |r|..] == r
  {
    if s != "" && IsSpace(s[0]) then SkipSpaces(s[1..]) else s
  }

  // Value of a digit character, 36 for anything else.
  function DigitVal(c: char): (d: nat)
    ensures d <= 36
  {
    if '0' <= c <= '9' then c as int - '0' as int
    else if 'a' <= c <= 'z' then c as int - 'a' as int + 10
    else if 'A' <= c <= 'Z' then c as int - 'A' as int + 10
    else 36
  }

  predicate StartsWithDigit(s: string, base: nat) {
    s != "" && DigitVal(s[0]) < base && DigitVal(s[0]) < 36
  }

  function Push(acc: nat, base: nat, d: nat): nat {
    MulNat(acc, base);
    acc * base + d
  }

  lemma MulNat(a: nat, b: nat)
    ensures a * b >= 0
  {
  }

  function Value(s: string, base: nat, acc: nat): nat {
    if StartsWithDigit(s, base) then Value(s[1..], base, Push(acc, base, DigitVal(s[0]))) else acc
  }

  function AfterDigits(s: string, base: nat): (r: string)
    ensures |r| <= |s|
  {
    if StartsWithDigit(s, base) then AfterDigits(s[1..], base) else s
  }

  predicate Signed(s: string) { s != "" && (s[0] == '-' || s[0] == '+') }

  function Unsign(s: string): string { if Signed(s) then s[1..] else s }

  // Base and digits after an optional prefix.
  function Prefix(s: string, base: nat): (nat, string) {
    if base != 0 then (base, s)
    else if s != "" && s[0] == '0' then
      if |s| > 1 && (s[1] == 'x' || s[1] == 'X') then (16, s[2..]) else (8, s[1..])
    else (10, s)
  }

  // What strtol returns and what it leaves unread.
  function Strtol(s: string, base: nat): (r: (int, string))
    ensures |r.1| <= |s|
  {
    var t := SkipSpaces(s);
    var (b, u) := Prefix(Unsign(t), base);
    var v: int := Value(u, b, 0);
    (if t != "" && t[0] == '-' then -v else v, AfterDigits(u, b))
  }

  // C's long: the digit loop may only pass through values below LONG_LIMIT, anything else overflows.
  predicate StaysLong(s: string, base: nat, acc: nat) {
    StartsWithDigit(s, base) ==>
      var next := Push(acc, base, DigitVal(s[0]));
      next < LONG_LIMIT && StaysLong(s[1..], base, next)
  }

  predicate Fits(s: string, base: nat) {
    var (b, u) := Prefix(Unsign(SkipSpaces(s)), base);
    StaysLong(u, b, 0)
  }

  // The accumulator only grows, so the loop overflows exactly when the final value is out of range.
  lemma {:induction false} AccumulatorGrows(s: string, base: nat, acc: nat)
    requires base >= 1
    ensures acc <= Value(s, base, acc)
    ensures acc < LONG_LIMIT ==> (StaysLong(s, base, acc) <==> Value(s, base, acc) < LONG_LIMIT)
    decreases |s|
  {
    if StartsWithDigit(s, base) {
      MulLe(1, base, acc);
      AccumulatorGrows(s[1..], base, Push(acc, base, DigitVal(s[0])));
    }
  }

  // The result is strtol's as long as fits; otherwise the code has overflowed a long.
  method ParseLong(s: string, base0: nat) returns (ret: int, rest: string, ghost fits: bool)
    ensures (ret, rest) == Strtol(s, base0)
    ensures fits <==> Fits(s, base0)
  {
    var neg, base := false, base0;
    var p := Blanks(s);
    hide SkipSpaces;
    hide Value;
    hide AfterDigits;
    hide StaysLong;
    if p != "" && p[0] == '-' {
      neg := true;
      p := p[1..];
    } else if p != "" && p[0] == '+' {
      p := p[1..];
    }
    if base == 0 {
      if p != "" && p[0] == '0' {
        p := p[1..];
        if p != "" && (p[0] == 'x' || p[0] == 'X') {
          base := 16;
          p := p[1..];
        } else {
          base := 8;
        }
      } else {
        base := 10;
      }
    }
    var v, r;
    v, r, fits := ParseDigits(p, base);
    ret := if neg then -v else v;
    rest := r;
  }

  // The first loop of strtol.
  method Blanks(s: string) returns (p: string)
    ensures p == SkipSpaces(s)
  {
    p := s;
    while p != "" && IsSpace(p[0])
      invariant SkipSpaces(p) == SkipSpaces(s)
      decreases |p|
    {
      p := p[1..];
    }
  }

  // The digit loop of strtol; fits records that no step left the range of long.
  method ParseDigits(s: string, base: nat) returns (v: int, rest: string, ghost fits: bool)
    ensures v == Value(s, base, 0) && rest == AfterDigits(s, base)
    ensures fits <==> StaysLong(s, base, 0)
  {
    hide Push;
    hide DigitVal;
    var p, acc: nat := s, 0;
    fits := true;
    while StartsWithDigit(p, base)
      invariant Value(p, base, acc) == Value(s, base, 0)
      invariant AfterDigits(p, base) == AfterDigits(s, base)
      invariant fits && StaysLong(p, base, acc) <==> StaysLong(s, base, 0)
      decreases |p|
    {
      acc := Push(acc, base, DigitVal(p[0]));
      fits := fits && acc < LONG_LIMIT;
      p := p[1..];
    }
    v, rest := acc, p;
  }

  // ---------------------------------------------------------------------------------
  // Digits.

  function Digit(d: nat, upper: bool): char
    requires d < 16
  {
    if d < 10 then ('0' as int + d) as char
    else if upper then ('A' as int + d - 10) as char
    else ('a' as int + d - 10) as char
  }

  function Digits(n: nat, base: nat, upper: bool): (r: string)
    requires 2 <= base <= 16
    ensures r != ""
  {
    if n < base then [Digit(n, upper)] else Digits(n / base, base, upper) + [Digit(n % base, upper)]
  }

  predicate AllDigits(s: string, base: nat) {
    forall i :: 0 <= i < |s| ==> DigitVal(s[i]) < base
  }

  lemma DigitRoundTrip(d: nat, upper: bool)
    requires d < 16
    ensures DigitVal(Digit(d, upper)) == d
  {
  }

  lemma DivMod(n: nat, base: nat)
    requires base >= 1
    ensures n % base < base && Push(n / base, base, n % base) == n
  {
  }

  lemma {:induction false} DigitsAreDigits(n: nat, base: nat, upper: bool)
    requires 2 <= base <= 16
    ensures AllDigits(Digits(n, base, upper), base)
    decreases n
  {
    hide Digit;
    hide DigitVal;
    if n >= base {
      DivMod(n, base);
      DigitRoundTrip(n % base, upper);
      DigitsAreDigits(n / base, base, upper);
    } else {
      DigitRoundTrip(n, upper);
    }
  }

  lemma {:induction false} ValueSnoc(s: string, c: char, base: nat, acc: nat)
    requires base <= 36 && AllDigits(s, base) && DigitVal(c) < base
    ensures Value(s + [c], base, acc) == Push(Value(s, base, acc), base, DigitVal(c))
  {
    if s == "" {
      assert [c][1..] == "";
    } else {
      assert (s + [c])[1..] == s[1..] + [c];
      ValueSnoc(s[1..], c, base, Push(acc, base, DigitVal(s[0])));
    }
  }

  // Parsing the digits of a number gives the number.
  lemma {:induction false} ValueOfDigits(n: nat, base: nat, upper: bool)
    requires 2 <= base <= 16
    ensures Value(Digits(n, base, upper), base, 0) == n
    decreases n
  {
    if n < base {
      PushZero(base, n);
      DigitRoundTrip(n, upper);
      ValueOfOne(Digit(n, upper), base);
    } else {
      ValueOfDigits(n / base, base, upper);
      DigitsAreDigits(n / base, base, upper);
      DivMod(n, base);
      hide Value;
      hide Push;
      ValueAppend(Digits(n / base, base, upper), n % base, base, upper);
    }
  }

  lemma ValueAppend(s: string, d: nat, base: nat, upper: bool)
    requires 2 <= base <= 16 && AllDigits(s, base) && d < base
    ensures Value(s + [Digit(d, upper)], base, 0) == Push(Value(s, base, 0), base, d)
  {
    DigitRoundTrip(d, upper);
    hide Digit;
    hide DigitVal;
    ValueSnoc(s, Digit(d, upper), base, 0);
  }

  lemma ValueOfOne(c: char, base: nat)
    requires base <= 36 && DigitVal(c) < base
    ensures Value([c], base, 0) == Push(0, base, DigitVal(c))
  {
    assert [c][1..] == "";
  }

  lemma PushZero(base: nat, d: nat)
    ensures Push(0, base, d) == d
  {
  }

  function Repeat(c: char, n: int): (r: string)
    ensures |r| == Max(0, n) && forall i :: 0 <= i < |r| ==> r[i] == c
  {
    if n <= 0 then "" else [c] + Repeat(c, n - 1)
  }

  lemma {:induction false} LeadingZeros(z: int, s: string, base: nat)
    requires 1 <= base
    ensures Value(Repeat('0', z) + s, base, 0) == Value(s, base, 0)
    decreases z
  {
    if z > 0 {
      assert (Repeat('0', z) + s)[1..] == Repeat('0', z - 1) + s;
      PushZero(base, 0);
      LeadingZeros(z - 1, s, base);
    } else {
      assert Repeat('0', z) + s == s;
    }
  }

  lemma {:induction false} LeadingBlanks(k: int, s: string)
    requires s == "" || !IsSpace(s[0])
    ensures SkipSpaces(Repeat(' ', k) + s) == s
    decreases k
  {
    if k > 0 {
      assert (Repeat(' ', k) + s)[1..] == Repeat(' ', k - 1) + s;
      LeadingBlanks(k - 1, s);
    } else {
      assert Repeat(' ', k) + s == s;
    }
  }

  function Pow(b: nat, k: nat): nat { if k == 0 then 1 else b * Pow(b, k - 1) }

  // A number below base^k has at most k digits; the digit buffers never overflow.
  lemma {:induction false} DigitCount(n: nat, base: nat, upper: bool, k: nat)
    requires 2 <= base <= 16 && k >= 1 && n < Pow(base, k)
    ensures |Digits(n, base, upper)| <= k
    decreases k
  {
    assert Pow(base, 1) == base * Pow(base, 0);
    if n >= base {
      DivBelow(n, base, Pow(base, k - 1));
      DigitCount(n / base, base, upper, k - 1);
    }
  }

  lemma MulLe(x: nat, y: nat, b: nat)
    requires x <= y
    ensures b * x <= b * y
  {
  }

  lemma DivBelow(n: nat, b: nat, m: nat)
    requires b >= 1 && n < b * m
    ensures n / b < m
  {
    if n / b >= m { MulLe(m, n / b, b); }
  }

  lemma {:induction false} DigitCountLower(n: nat, base: nat, upper: bool, k: nat)
    requires 2 <= base <= 16 && n >= Pow(base, k)
    ensures |Digits(n, base, upper)| > k
    decreases k
  {
    if k > 0 {
      var m := Pow(base, k - 1);
      assert Pow(base, k) == base * m;
      PowPositive(base, k - 1);
      hide Pow;
      MulBelow(n, base, m);
      DigitCountLower(n / base, base, upper, k - 1);
    }
  }

  lemma {:induction false} PowPositive(b: nat, k: nat)
    requires b >= 1
    ensures Pow(b, k) >= 1
  {
    if k > 0 {
      PowPositive(b, k - 1);
      MulLe(1, Pow(b, k - 1), b);
    }
  }

  lemma MulBelow(n: nat, b: nat, m: nat)
    requires b >= 1 && n >= b * m
    ensures n / b >= m && (m >= 1 ==> n >= b)
  {
    if n / b < m { MulLe(n / b + 1, m, b); }
    if m >= 1 { MulLe(1, m, b); }
  }

  lemma Limits()
    ensures Pow(10, 19) < WORD <= Pow(10, 20) && WORD == Pow(16, 16)
    ensures Pow(10, 18) <= LONG_LIMIT < Pow(10, 19)
  {
    assert Pow(10, 5) == 100000;
    assert Pow(10, 10) == 100000 * Pow(10, 5);
    assert Pow(10, 15) == 100000 * Pow(10, 10);
    assert Pow(10, 18) == 1000 * Pow(10, 15);
    assert Pow(10, 19) == 10 * Pow(10, 18);
    assert Pow(16, 4) == 0x1_0000;
    assert Pow(16, 8) == 0x1_0000 * Pow(16, 4);
    assert Pow(16, 12) == 0x1_0000 * Pow(16, 8);
    assert Pow(16, 16) == 0x1_0000 * Pow(16, 12);
  }

  lemma MinimumDigits()
    ensures |Digits(LONG_LIMIT, 10, false)| == 19
  {
    Limits();
    assert Pow(10, 19) == 10 * Pow(10, 18);
    DigitCount(LONG_LIMIT, 10, false, 19);
    DigitCountLower(LONG_LIMIT, 10, false, 18);
  }

  // The 20- and 16-byte digit buffers are exactly large enough.
  lemma BuffersAreTight(n: nat, upper: bool)
    requires n < WORD
    ensures |Digits(n, 10, upper)| <= 20 && |Digits(n, 16, upper)| <= 16
    ensures |Digits(WORD - 1, 10, upper)| == 20 && |Digits(WORD - 1, 16, upper)| == 16
  {
    Limits();
    DigitCount(n, 10, upper, 20);
    DigitCount(n, 16, upper, 16);
    DigitCount(WORD - 1, 10, upper, 20);
    DigitCountLower(WORD - 1, 10, upper, 19);
    DigitCount(WORD - 1, 16, upper, 16);
    assert Pow(16, 16) == 16 * Pow(16, 15);
    DigitCountLower(WORD - 1, 16, upper, 15);
  }
}
