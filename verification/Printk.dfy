/** print_dec_int, the hexadecimal branch and the directive loop of vprintfmt (lib/printk.c). */
module Printk {
  import opened Basics
  import opened Format

  datatype Flags = Flags(
    inFormat: bool, long: bool, sharp: bool, zero: bool, space: bool, sign: bool, width: int, prec: int)

  // Before the first directive, and right after a percent sign.
  const INITIAL := Flags(false, false, false, false, false, false, 0, 0)
  const START := Flags(true, false, false, false, false, false, 0, -1)

  // ---------------------------------------------------------------------------------
  // What a conversion prints. num is the 64-bit pattern of the argument.

  predicate Negative(num: nat, isSigned: bool) { isSigned && num >= LONG_LIMIT }

  function Magnitude(num: nat, isSigned: bool): nat
    requires num < WORD
  {
    if Negative(num, isSigned) then WORD - num else num
  }

  function SignOf(num: nat, isSigned: bool, f: Flags): string {
    if Negative(num, isSigned) then "-"
    else if isSigned && f.sign then "+"
    else if isSigned && f.space then " "
    else ""
  }

  // A field: blanks, sign or prefix, zeros, digits.
  function Field(blanks: int, lead: string, zeros: int, digits: string): string {
    Repeat(' ', blanks) + (lead + (Repeat('0', zeros) + digits))
  }

  // The text print_dec_int keeps for the minimum, which it cannot negate.
  function MinimumOut(): string {
    "-9223372036854775808"
  }

  function DecOut(num: nat, isSigned: bool, f: Flags): string
    requires num < WORD
  {
    if isSigned && num == LONG_LIMIT then MinimumOut()
    else if f.prec == 0 && num == 0 then ""
    else
      var digits, sg := Digits(Magnitude(num, isSigned), 10, false), SignOf(num, isSigned, f);
      var p := if f.prec == -1 && f.zero then f.width else f.prec;
      Field(f.width - Max(|digits|, p) - |sg|, sg, p - |sg| - |digits|, digits)
  }

  function HexPrefix(num: nat, upper: bool, pointer: bool, f: Flags): string {
    if pointer || (f.sharp && num != 0) then (if upper then "0X" else "0x") else ""
  }

  function HexOut(num: nat, upper: bool, pointer: bool, f: Flags): string {
    if f.prec == 0 && num == 0 && !pointer then ""
    else
      var digits, pre := Digits(num, 16, upper), HexPrefix(num, upper, pointer, f);
      var p := if f.prec == -1 && f.zero then f.width - |pre| else f.prec;
      Field(f.width - |pre| - Max(|digits|, p), pre, p - |digits|, digits)
  }

  // ---------------------------------------------------------------------------------
  // Parsing undoes printing.

  lemma {:induction false} AllConsumed(s: string, base: nat)
    requires base <= 36 && AllDigits(s, base)
    ensures AfterDigits(s, base) == ""
  {
    if s != "" { AllConsumed(s[1..], base); }
  }

  lemma ZerosAreDigits(z: int, s: string, base: nat)
    requires base >= 1 && AllDigits(s, base)
    ensures AllDigits(Repeat('0', z) + s, base)
  {
    var t := Repeat('0', z) + s;
    forall i | 0 <= i < |t|
      ensures DigitVal(t[i]) < base
    {
      assert i < |Repeat('0', z)| ==> t[i] == '0';
    }
  }

  // Padded digits as the digit loop of strtol sees them.
  lemma NumberFacts(zeros: int, n: nat, base: nat, upper: bool)
    requires 2 <= base <= 16
    ensures var u := Repeat('0', zeros) + Digits(n, base, upper);
      u != "" && DigitVal(u[0]) < base && Value(u, base, 0) == n && AfterDigits(u, base) == ""
  {
    var d := Digits(n, base, upper);
    var u := Repeat('0', zeros) + d;
    DigitsAreDigits(n, base, upper);
    ZerosAreDigits(zeros, d, base);
    ValueOfDigits(n, base, upper);
    LeadingZeros(zeros, d, base);
    AllConsumed(u, base);
  }

  // strtol, once its parts are known.
  lemma StrtolIs(s: string, base: nat, t: string, b: nat, u: string, n: nat)
    requires SkipSpaces(s) == t && Prefix(Unsign(t), base) == (b, u) && b >= 1
    requires Value(u, b, 0) == n && AfterDigits(u, b) == ""
    ensures Strtol(s, base) == (if t != "" && t[0] == '-' then -(n as int) else n as int, "")
    ensures Fits(s, base) <==> n < LONG_LIMIT
  {
    AccumulatorGrows(u, b, 0);
  }

  // Blanks, an optional sign, zeros and digits parse to the signed number.
  lemma ParsePadded(blanks: int, sg: string, zeros: int, n: nat)
    requires sg in {"", "+", "-"}
    ensures var s := Field(blanks, sg, zeros, Digits(n, 10, false));
      && Strtol(s, 10) == (if sg == "-" then -(n as int) else n as int, "")
      && (Fits(s, 10) <==> n < LONG_LIMIT)
  {
    NumberFacts(zeros, n, 10, false);
    var u := Repeat('0', zeros) + Digits(n, 10, false);
    UnsignIs(sg, u);
    LeadingBlanks(blanks, sg + u);
    assert Prefix(u, 10) == (10, u);
    var s := Field(blanks, sg, zeros, Digits(n, 10, false));
    assert s == Repeat(' ', blanks) + (sg + u);
    hide *;
    StrtolIs(s, 10, sg + u, 10, u, n);
  }

  lemma UnsignIs(sg: string, u: string)
    requires sg in {"", "+", "-"} && u != "" && DigitVal(u[0]) < 10
    ensures Unsign(sg + u) == u && !IsSpace((sg + u)[0])
    ensures (sg + u)[0] == '-' <==> sg == "-"
  {
    if sg == "" { assert sg + u == u; }
  }

  lemma {:induction false} BlankMore(blanks: int, s: string)
    requires blanks >= 0
    ensures Repeat(' ', blanks) + (" " + s) == Repeat(' ', blanks + 1) + s
    decreases blanks
  {
    if blanks > 0 {
      BlankMore(blanks - 1, s);
      assert Repeat(' ', blanks) + (" " + s) == " " + (Repeat(' ', blanks - 1) + (" " + s));
      assert Repeat(' ', blanks + 1) + s == " " + (Repeat(' ', blanks) + s);
    } else {
      assert Repeat(' ', 1) == " ";
    }
  }

  function SignedValue(num: nat, isSigned: bool): int {
    if Negative(num, isSigned) then num - WORD else num
  }

  // strtol base 10 reads back what print_dec_int printed, under every flag, width and precision,
  // exactly when the magnitude is a long: the minimum and unsigned values from 2^63 on overflow.
  lemma DecRoundTrip(num: nat, isSigned: bool, f: Flags)
    requires num < WORD
    ensures Fits(DecOut(num, isSigned, f), 10) <==> Magnitude(num, isSigned) < LONG_LIMIT
    ensures Fits(DecOut(num, isSigned, f), 10) ==>
      Strtol(DecOut(num, isSigned, f), 10) == (SignedValue(num, isSigned), "")
  {
    SignedFromMagnitude(num, isSigned);
    hide *;
    if f.prec == 0 && num == 0 {
      EmptyParses();
      NoDecDigits(isSigned, f);
    } else {
      var blanks, sg, zeros := DecShape(num, isSigned, f);
      ParsePadded(blanks, sg, zeros, Magnitude(num, isSigned));
    }
  }

  // The text print_dec_int keeps for the minimum is one that strtol overflows on.
  lemma MinimumOverflows()
    ensures DecOut(LONG_LIMIT, true, START) == MinimumOut() && !Fits(MinimumOut(), 10)
  {
    DecRoundTrip(LONG_LIMIT, true, START);
    assert Magnitude(LONG_LIMIT, true) == LONG_LIMIT;
  }

  lemma NoDecDigits(isSigned: bool, f: Flags)
    requires f.prec == 0
    ensures DecOut(0, isSigned, f) == "" && Magnitude(0, isSigned) == 0 < LONG_LIMIT
    ensures SignedValue(0, isSigned) == 0
  {
  }

  lemma EmptyParses()
    ensures Strtol("", 10) == (0, "") && Strtol("", 0) == (0, "")
    ensures Fits("", 10) && Fits("", 0)
  {
    NothingToParse();
    assert 0 < LONG_LIMIT;
    hide *;
    StrtolIs("", 10, "", 10, "", 0);
    StrtolIs("", 0, "", 10, "", 0);
  }

  lemma NothingToParse()
    ensures SkipSpaces("") == "" && Value("", 10, 0) == 0 && AfterDigits("", 10) == ""
    ensures Prefix(Unsign(""), 10) == (10, "") == Prefix(Unsign(""), 0)
  {
  }

  lemma SignedFromMagnitude(num: nat, isSigned: bool)
    requires num < WORD
    ensures SignedValue(num, isSigned)
         == if Negative(num, isSigned) then -(Magnitude(num, isSigned) as int) else Magnitude(num, isSigned)
  {
  }

  // A blank in sign position is one more blank.
  lemma DecShape(num: nat, isSigned: bool, f: Flags) returns (blanks: int, sg: string, zeros: int)
    requires num < WORD && !(f.prec == 0 && num == 0)
    ensures sg in {"", "+", "-"} && (sg == "-" <==> Negative(num, isSigned))
    ensures DecOut(num, isSigned, f)
         == Field(blanks, sg, zeros, Digits(Magnitude(num, isSigned), 10, false))
  {
    if isSigned && num == LONG_LIMIT {
      MinimumText();
      return 0, "-", 0;
    }
    sg := SignOf(num, isSigned, f);
    var d := Digits(Magnitude(num, isSigned), 10, false);
    var p := if f.prec == -1 && f.zero then f.width else f.prec;
    blanks, zeros := f.width - Max(|d|, p) - |sg|, p - |sg| - |d|;
    DecOutIs(num, isSigned, f, blanks, zeros);
    hide *;
    if sg == " " {
      BlankIsSpace(blanks, zeros, d);
      sg, blanks := "", Max(0, blanks) + 1;
    }
  }

  // The constant text for the minimum is its sign and digits.
  lemma MinimumText()
    ensures Field(0, "-", 0, Digits(LONG_LIMIT, 10, false)) == MinimumOut()
  {
    var t := "9223372036854775808";
    assert LONG_LIMIT == 9223372036854775808;
    MinimumDigitsAre(t);
    hide Digits;
    assert Repeat(' ', 0) == "" == Repeat('0', 0);
    assert "-" + t == MinimumOut();
  }

  lemma MinimumDigitsAre(t: string)
    requires |t| == 19 && t[0] == '9' && t[1] == '2' && t[2] == '2' && t[3] == '3' && t[4] == '3'
    requires t[5] == '7' && t[6] == '2' && t[7] == '0' && t[8] == '3' && t[9] == '6'
    requires t[10] == '8' && t[11] == '5' && t[12] == '4' && t[13] == '7' && t[14] == '7'
    requires t[15] == '5' && t[16] == '8' && t[17] == '0' && t[18] == '8'
    ensures Digits(9223372036854775808, 10, false) == t
  {
    assert Digits(9, 10, false) == t[..1];
    hide *;
    NextDigit(t, 1, 9, 2);
    NextDigit(t, 2, 92, 2);
    NextDigit(t, 3, 922, 3);
    NextDigit(t, 4, 9223, 3);
    NextDigit(t, 5, 92233, 7);
    NextDigit(t, 6, 922337, 2);
    NextDigit(t, 7, 9223372, 0);
    NextDigit(t, 8, 92233720, 3);
    NextDigit(t, 9, 922337203, 6);
    NextDigit(t, 10, 9223372036, 8);
    NextDigit(t, 11, 92233720368, 5);
    NextDigit(t, 12, 922337203685, 4);
    NextDigit(t, 13, 9223372036854, 7);
    NextDigit(t, 14, 92233720368547, 7);
    NextDigit(t, 15, 922337203685477, 5);
    NextDigit(t, 16, 9223372036854775, 8);
    NextDigit(t, 17, 92233720368547758, 0);
    NextDigit(t, 18, 922337203685477580, 8);
    assert t[..19] == t;
  }

  lemma NextDigit(t: string, i: nat, m: nat, d: nat)
    requires i < |t| && m >= 1 && d < 10 && t[i] as int == '0' as int + d
    requires Digits(m, 10, false) == t[..i]
    ensures Digits(10 * m + d, 10, false) == t[..i + 1]
  {
    assert t[..i] + [t[i]] == t[..i + 1];
  }

  lemma DecOutIs(num: nat, isSigned: bool, f: Flags, blanks: int, zeros: int)
    requires num < WORD && !(isSigned && num == LONG_LIMIT) && !(f.prec == 0 && num == 0)
    requires var d := Digits(Magnitude(num, isSigned), 10, false);
      var p := if f.prec == -1 && f.zero then f.width else f.prec;
      blanks == f.width - Max(|d|, p) - |SignOf(num, isSigned, f)|
      && zeros == p - |SignOf(num, isSigned, f)| - |d|
    ensures DecOut(num, isSigned, f)
         == Field(blanks, SignOf(num, isSigned, f), zeros, Digits(Magnitude(num, isSigned), 10, false))
    ensures SignOf(num, isSigned, f) in {"", "+", "-", " "}
    ensures SignOf(num, isSigned, f) == "-" <==> Negative(num, isSigned)
  {
  }

  lemma BlankIsSpace(blanks: int, zeros: int, d: string)
    ensures Field(blanks, " ", zeros, d) == Field(Max(0, blanks) + 1, "", zeros, d)
  {
    var tail := Repeat('0', zeros) + d;
    assert "" + tail == tail;
    BlankMore(Max(0, blanks), tail);
    if blanks < 0 { assert Repeat(' ', blanks) == Repeat(' ', 0); }
  }

  // strtol base 0 reads back what %#lx, %#lX and %p printed, exactly when the number is a long.
  lemma HexRoundTrip(num: nat, upper: bool, pointer: bool, f: Flags)
    requires f.sharp || pointer
    ensures Fits(HexOut(num, upper, pointer, f), 0) <==> num < LONG_LIMIT
    ensures Fits(HexOut(num, upper, pointer, f), 0) ==> Strtol(HexOut(num, upper, pointer, f), 0) == (num, "")
  {
    if f.prec == 0 && num == 0 && !pointer {
      EmptyParses();
      NoHexDigits(upper, f);
    } else {
      var d, pre := Digits(num, 16, upper), HexPrefix(num, upper, pointer, f);
      var p := if f.prec == -1 && f.zero then f.width - |pre| else f.prec;
      var blanks, zeros := f.width - |pre| - Max(|d|, p), p - |d|;
      HexOutIs(num, upper, pointer, f, blanks, zeros);
      hide *;
      if pre == "" {
        ParseZeros(blanks, zeros);
      } else {
        ParseHex(blanks, pre, zeros, num, upper);
      }
    }
  }

  lemma HexOutIs(num: nat, upper: bool, pointer: bool, f: Flags, blanks: int, zeros: int)
    requires !(f.prec == 0 && num == 0 && !pointer)
    requires var d, pre := Digits(num, 16, upper), HexPrefix(num, upper, pointer, f);
      var p := if f.prec == -1 && f.zero then f.width - |pre| else f.prec;
      blanks == f.width - |pre| - Max(|d|, p) && zeros == p - |d|
    ensures HexOut(num, upper, pointer, f)
         == Field(blanks, HexPrefix(num, upper, pointer, f), zeros, Digits(num, 16, upper))
    ensures HexPrefix(num, upper, pointer, f) in {"", "0x", "0X"}
    ensures (f.sharp || pointer) && HexPrefix(num, upper, pointer, f) == "" ==>
      num == 0 && Digits(num, 16, upper) == "0"
  {
  }

  lemma ParseHex(blanks: int, pre: string, zeros: int, n: nat, upper: bool)
    requires pre in {"0x", "0X"}
    ensures var s := Field(blanks, pre, zeros, Digits(n, 16, upper));
      Strtol(s, 0) == (n, "") && (Fits(s, 0) <==> n < LONG_LIMIT)
  {
    var u := Repeat('0', zeros) + Digits(n, 16, upper);
    NumberFacts(zeros, n, 16, upper);
    HexPrefixed(pre, u);
    LeadingBlanks(blanks, pre + u);
    var s := Field(blanks, pre, zeros, Digits(n, 16, upper));
    assert s == Repeat(' ', blanks) + (pre + u);
    hide *;
    StrtolIs(s, 0, pre + u, 16, u, n);
  }

  lemma HexPrefixed(pre: string, u: string)
    requires pre in {"0x", "0X"}
    ensures (pre + u)[0] == '0' && Prefix(Unsign(pre + u), 0) == (16, u)
  {
    var s := pre + u;
    assert s[2..] == u && s[1] == pre[1];
  }

  // Zero has no prefix: it is read as octal, and is zero all the same.
  lemma ParseZeros(blanks: int, zeros: int)
    ensures Strtol(Field(blanks, "", zeros, "0"), 0) == (0, "") && Fits(Field(blanks, "", zeros, "0"), 0)
  {
    var rest := Repeat('0', Max(0, zeros));
    MoreZeros(zeros);
    OnlyZeros(Max(0, zeros));
    OctalPrefix(rest, Max(0, zeros));
    LeadingBlanks(blanks, "0" + rest);
    var s := Field(blanks, "", zeros, "0");
    assert s == Repeat(' ', blanks) + ("0" + rest);
    assert 0 < LONG_LIMIT;
    hide *;
    StrtolIs(s, 0, "0" + rest, 8, rest, 0);
  }

  lemma OctalPrefix(rest: string, z: nat)
    requires rest == Repeat('0', z)
    ensures !IsSpace(("0" + rest)[0]) && ("0" + rest)[0] != '-'
    ensures Prefix(Unsign("0" + rest), 0) == (8, rest)
  {
    var u := "0" + rest;
    assert u[1..] == rest;
    assert |u| > 1 ==> u[1] == rest[0];
  }

  lemma {:induction false} MoreZeros(z: int)
    ensures Repeat('0', z) + "0" == "0" + Repeat('0', Max(0, z))
    decreases z
  {
    if z > 0 { MoreZeros(z - 1); }
  }

  lemma OnlyZeros(z: nat)
    ensures Value(Repeat('0', z), 8, 0) == 0 && AfterDigits(Repeat('0', z), 8) == ""
  {
    assert Repeat('0', z) + "" == Repeat('0', z);
    LeadingZeros(z, "", 8);
    ZerosAreDigits(z, "", 8);
    AllConsumed(Repeat('0', z), 8);
  }

  // ---------------------------------------------------------------------------------
  // The loops that print. Output goes to out, one character per putch.

  function Rev(s: string): (r: string)
    ensures |r| == |s|
  {
    if s == "" then "" else [s[|s| - 1]] + Rev(s[..|s| - 1])
  }

  // for (int i = n; i > 0; i--) putch(c)
  method Pad(out0: string, c: char, n: int) returns (out: string, count: int)
    ensures out == out0 + Repeat(c, n) && count == Max(0, n)
  {
    out, count := out0, 0;
    var i := n;
    while i > 0
      invariant i <= Max(0, n) && count == Max(0, n) - Max(0, i)
      invariant out + Repeat(c, i) == out0 + Repeat(c, n)
    {
      assert Repeat(c, i) == [c] + Repeat(c, i - 1);
      out := out + [c];
      count := count + 1;
      i := i - 1;
    }
    assert Repeat(c, i) == "";
  }

  // The do-while loop that fills the digit buffer from the low digit up.
  method StoreDigits(num: nat, base: nat, upper: bool, buf: array<char>) returns (k: nat)
    requires 2 <= base <= 16 && |Digits(num, base, upper)| <= buf.Length
    modifies buf
    ensures k == |Digits(num, base, upper)| && Rev(buf[..k]) == Digits(num, base, upper)
  {
    hide *;
    var n: nat := num;
    k := 0;
    assert Rev(buf[..0]) == "" by { RevEmpty(); }
    while true
      invariant k < buf.Length && k + |Digits(n, base, upper)| == |Digits(num, base, upper)|
      invariant Digits(num, base, upper) == Digits(n, base, upper) + Rev(buf[..k])
      decreases n
    {
      DigitsStep(n, base, upper);
      buf[k] := Digit(n % base, upper);
      assert buf[..k + 1] == buf[..k] + [buf[k]];
      RevSnoc(buf[..k], buf[k]);
      k := k + 1;
      if n / base == 0 { break; }
      n := n / base;
    }
  }

  lemma RevEmpty()
    ensures Rev("") == ""
  {
  }

  lemma DigitsStep(n: nat, base: nat, upper: bool)
    requires 2 <= base <= 16
    ensures n % base < base
    ensures n / base == 0 ==> Digits(n, base, upper) == [Digit(n % base, upper)]
    ensures n / base != 0 ==>
      n / base < n && Digits(n, base, upper) == Digits(n / base, base, upper) + [Digit(n % base, upper)]
  {
    DivMod(n, base);
    hide Push;
    hide Digit;
    if n / base == 0 {
      LastDigit(n, base);
    } else {
      MoreDigits(n, base);
    }
  }

  lemma MoreDigits(n: nat, base: nat)
    requires base >= 2 && n / base != 0
    ensures base <= n && n / base < n
  {
  }

  lemma RevSnoc(s: string, c: char)
    ensures Rev(s + [c]) == [c] + Rev(s)
  {
    assert (s + [c])[..|s|] == s;
  }

  lemma LastDigit(n: nat, base: nat)
    requires base >= 2 && n / base == 0
    ensures n < base && n % base == n
  {
  }

  // for (int i = k - 1; i >= 0; i--) putch(buf[i])
  method PutDigits(out0: string, buf: array<char>, k: nat) returns (out: string, count: int)
    requires k <= buf.Length
    ensures out == out0 + Rev(buf[..k]) && count == k
  {
    out, count := out0, 0;
    var i := k;
    while i > 0
      invariant 0 <= i <= k && count == k - i
      invariant out + Rev(buf[..i]) == out0 + Rev(buf[..k])
    {
      assert buf[..i] == buf[..i - 1] + [buf[i - 1]];
      RevSnoc(buf[..i - 1], buf[i - 1]);
      out := out + [buf[i - 1]];
      count := count + 1;
      i := i - 1;
    }
  }

  // puts_wo_nl
  method Puts(out0: string, s: string) returns (out: string, count: int)
    ensures out == out0 + s && count == |s|
  {
    out, count := out0, 0;
    var p := s;
    while p != ""
      invariant out + p == out0 + s && count == |s| - |p| && |p| <= |s|
      decreases |p|
    {
      out := out + [p[0]];
      p := p[1..];
      count := count + 1;
    }
  }

  method PrintDecInt(out0: string, num: nat, isSigned: bool, f: Flags) returns (out: string, written: int)
    requires num < WORD
    ensures out == out0 + DecOut(num, isSigned, f) && written == |DecOut(num, isSigned, f)|
  {
    if isSigned && num == LONG_LIMIT {
      assert DecOut(num, isSigned, f) == MinimumOut();
      hide *;
      out, written := Puts(out0, MinimumOut());
      return;
    }
    hide *;
    if f.prec == 0 && num == 0 {
      NoDecDigits(isSigned, f);
      return out0, 0;
    }
    var sg, mag := DecLead(num, isSigned, f);
    var buf := new char[20](_ => '0');
    BuffersAreTight(mag, false);
    var digits := StoreDigits(mag, 10, false, buf);
    var prec := if f.prec == -1 && f.zero then f.width else f.prec;
    DecOutIs(num, isSigned, f, f.width - Max(digits, prec) - |sg|, prec - |sg| - digits);
    out, written := PutField(out0, f.width - Max(digits, prec) - |sg|, sg, prec - |sg| - digits, buf, digits);
  }

  method DecLead(num: nat, isSigned: bool, f: Flags) returns (sg: string, mag: nat)
    requires num < WORD
    ensures sg == SignOf(num, isSigned, f) && mag == Magnitude(num, isSigned) < WORD
  {
    var neg := isSigned && num >= LONG_LIMIT;
    mag := if neg then WORD - num else num;
    var hasSign := isSigned && (neg || f.sign || f.space);
    sg := if !hasSign then "" else if neg then "-" else if f.sign then "+" else " ";
  }

  // The hexadecimal branch of vprintfmt (printk.c:194-241).
  method PrintHex(out0: string, num: nat, upper: bool, pointer: bool, f: Flags) returns (out: string, written: int)
    requires num < WORD
    ensures out == out0 + HexOut(num, upper, pointer, f) && written == |HexOut(num, upper, pointer, f)|
  {
    hide *;
    if f.prec == 0 && num == 0 && !pointer {
      NoHexDigits(upper, f);
      return out0, 0;
    }
    var pre := HexLead(num, upper, pointer, f);
    var buf := new char[16](_ => '0');
    BuffersAreTight(num, upper);
    var digits := StoreDigits(num, 16, upper, buf);
    var prec := if f.prec == -1 && f.zero then f.width - |pre| else f.prec;
    HexOutIs(num, upper, pointer, f, f.width - |pre| - Max(digits, prec), prec - digits);
    out, written := PutField(out0, f.width - |pre| - Max(digits, prec), pre, prec - digits, buf, digits);
  }

  lemma NoHexDigits(upper: bool, f: Flags)
    requires f.prec == 0
    ensures HexOut(0, upper, false, f) == ""
  {
  }

  method HexLead(num: nat, upper: bool, pointer: bool, f: Flags) returns (pre: string)
    ensures pre == HexPrefix(num, upper, pointer, f)
  {
    var prefix := pointer || (f.sharp && num != 0);
    pre := if !prefix then "" else if upper then "0X" else "0x";
  }

  // A field, counted as it goes out.
  method PutField(out0: string, blanks: int, lead: string, zeros: int, buf: array<char>, k: nat)
    returns (out: string, written: int)
    requires k <= buf.Length
    ensures out == out0 + Field(blanks, lead, zeros, Rev(buf[..k]))
    ensures written == |Field(blanks, lead, zeros, Rev(buf[..k]))|
  {
    var n1, n2, n3, n4;
    out, n1 := Pad(out0, ' ', blanks);
    out, n2 := Puts(out, lead);
    out, n3 := Pad(out, '0', zeros);
    out, n4 := PutDigits(out, buf, k);
    written := n1 + n2 + n3 + n4;
  }

  // ---------------------------------------------------------------------------------
  // vprintfmt. An argument is a number, a string (Null for a null pointer) or a character.

  datatype Arg = Num(n: int) | Str(s: string) | Null | Chr(c: char)

  function NumArg(args: seq<Arg>, k: nat): int {
    if k < |args| && args[k].Num? then args[k].n else 0
  }

  function StrArg(args: seq<Arg>, k: nat): string {
    if k < |args| && args[k].Str? then args[k].s else "(null)"
  }

  function ChrArg(args: seq<Arg>, k: nat): char {
    if k < |args| && args[k].Chr? then args[k].c else ' '
  }

  // The conversions va_arg and assignment to int make.
  function AsInt(x: int): int { (x + 0x8000_0000) % 0x1_0000_0000 - 0x8000_0000 }

  function Pattern(x: int, long: bool, signed: bool): (r: nat)
    ensures r < WORD
  {
    if long then x % WORD else if signed then AsInt(x) % WORD else x % 0x1_0000_0000
  }

  // The characters that only set a flag.
  predicate IsFlag(c: char) { c in "#0lztj+ " }

  function SetFlag(c: char, f: Flags): Flags {
    if c == '#' then f.(sharp := true)
    else if c == '0' then f.(zero := true)
    else if c == '+' then f.(sign := true)
    else if c == ' ' then f.(space := true)
    else f.(long := true)
  }

  // Where the loop stands: the rest of the format, the flags so far, the next argument.
  datatype Cursor = Cursor(fmt: string, f: Flags, k: nat)

  // Conversions consume an argument; anything else is printed as it stands.
  predicate Takes(c: char) { c in "xXpdiunsc" }

  function Directive(c: char, f: Flags, args: seq<Arg>, k: nat): string {
    if c in "xXp" then
      HexOut(Pattern(NumArg(args, k), c == 'p' || f.long, false), c == 'X', c == 'p', f)
    else if c in "diu" then DecOut(Pattern(NumArg(args, k), f.long, true), c != 'u', f)
    else if c == 'n' then ""
    else if c == 's' then StrArg(args, k)
    else if c == 'c' then [ChrArg(args, k)]
    else [c]
  }

  lemma Progress(fmt: string)
    requires fmt != "" && '1' <= fmt[0] <= '9'
    ensures |Strtol(fmt, 10).1| < |fmt|
  {
    assert SkipSpaces(fmt) == fmt && Unsign(fmt) == fmt;
    assert AfterDigits(fmt, 10) == AfterDigits(fmt[1..], 10);
  }

  // One step of the directive loop and what it prints; a width or precision is one step.
  function Advance(c: Cursor, args: seq<Arg>): (r: (Cursor, string))
    requires c.fmt != ""
    ensures |r.0.fmt| < |c.fmt|
  {
    var ch, rest, f, k := c.fmt[0], c.fmt[1..], c.f, c.k;
    if !f.inFormat then
      if ch == '%' then (Cursor(rest, START, k), "") else (Cursor(rest, f, k), [ch])
    else if IsFlag(ch) then (Cursor(rest, SetFlag(ch, f), k), "")
    else if ch == '*' then (Cursor(rest, f.(width := AsInt(NumArg(args, k))), k + 1), "")
    else if '1' <= ch <= '9' then
      Progress(c.fmt);
      (Cursor(Strtol(c.fmt, 10).1, f.(width := AsInt(Strtol(c.fmt, 10).0)), k), "")
    else if ch == '.' then
      if rest != "" && rest[0] == '*' then (Cursor(rest[1..], f.(prec := AsInt(NumArg(args, k))), k + 1), "")
      else (Cursor(Strtol(rest, 10).1, f.(prec := AsInt(Strtol(rest, 10).0)), k), "")
    else
      (Cursor(rest, f.(inFormat := false), if Takes(ch) then k + 1 else k), Directive(ch, f, args, k))
  }

  // The meaning of the rest of a format string: what it prints ...
  function Emit(c: Cursor, args: seq<Arg>): string
    decreases |c.fmt|
  {
    if c.fmt == "" then "" else Advance(c, args).1 + Emit(Advance(c, args).0, args)
  }

  predicate IsCount(c: Cursor) {
    c.fmt != "" && c.f.inFormat && c.fmt[0] == 'n'
  }

  // ... and what its %n directives store: the argument they name, and the characters printed by
  // then, n of them before c.
  function Stores(c: Cursor, args: seq<Arg>, n: nat): seq<(nat, nat)>
    decreases |c.fmt|
  {
    if c.fmt == "" then []
    else
      var (next, out) := Advance(c, args);
      (if IsCount(c) then [(c.k, n)] else []) + Stores(next, args, n + |out|)
  }

  method PrintDirective(out0: string, c: char, f: Flags, args: seq<Arg>, k: nat) returns (out: string, count: int)
    ensures out == out0 + Directive(c, f, args, k) && count == |Directive(c, f, args, k)|
  {
    if c in "xXp" {
      out, count := PrintHex(out0, Pattern(NumArg(args, k), c == 'p' || f.long, false), c == 'X', c == 'p', f);
    } else if c in "diu" {
      out, count := PrintDecInt(out0, Pattern(NumArg(args, k), f.long, true), c != 'u', f);
    } else if c == 'n' {
      out, count := out0, 0;
    } else if c == 's' {
      out, count := Puts(out0, StrArg(args, k));
    } else if c == 'c' {
      out, count := out0 + [ChrArg(args, k)], 1;
    } else {
      out, count := out0 + [c], 1;
    }
  }

  // One round of the loop.
  method PrintStep(out0: string, c: Cursor, args: seq<Arg>) returns (next: Cursor, out: string, count: nat)
    requires c.fmt != ""
    ensures next == Advance(c, args).0 && out == out0 + Advance(c, args).1 && count == |Advance(c, args).1|
  {
    hide Directive;
    hide Takes;
    hide SetFlag;
    var fmt, f, k := c.fmt, c.f, c.k;
    var ch := fmt[0];
    out, count := out0, 0;
    if f.inFormat {
      if IsFlag(ch) {
        f := SetFlag(ch, f);
      } else if ch == '*' {
        f := f.(width := AsInt(NumArg(args, k)));
        k := k + 1;
      } else if '1' <= ch <= '9' {
        Progress(fmt);
        var w, rest, fits := ParseLong(fmt, 10);
        return Cursor(rest, f.(width := AsInt(w)), k), out, 0;
      } else if ch == '.' {
        fmt := fmt[1..];
        if fmt != "" && fmt[0] == '*' {
          f := f.(prec := AsInt(NumArg(args, k)));
          k := k + 1;
        } else {
          var p, rest, fits := ParseLong(fmt, 10);
          return Cursor(rest, f.(prec := AsInt(p)), k), out, 0;
        }
      } else {
        out, count := PrintDirective(out, ch, f, args, k);
        if Takes(ch) { k := k + 1; }
        f := f.(inFormat := false);
      }
    } else if ch == '%' {
      f := START;
    } else {
      out := out + [ch];
      count := 1;
    }
    next := Cursor(fmt[1..], f, k);
  }

  // The loop of vprintfmt prints the meaning of the format, returns the number of characters it
  // printed, and stores the counts its %n directives ask for.
  method Vprintfmt(fmt: string, args: seq<Arg>) returns (out: string, written: nat, stores: seq<(nat, nat)>)
    ensures out == Emit(Cursor(fmt, INITIAL, 0), args) && written == |out|
    ensures stores == Stores(Cursor(fmt, INITIAL, 0), args, 0)
  {
    var c := Cursor(fmt, INITIAL, 0);
    ghost var start := c;
    hide *;
    out, written, stores := "", 0, [];
    assert "" + Emit(c, args) == Emit(c, args) && [] + Stores(c, args, 0) == Stores(c, args, 0);
    while c.fmt != ""
      invariant out + Emit(c, args) == Emit(start, args) && written == |out|
      invariant stores + Stores(c, args, written) == Stores(start, args, 0)
      decreases |c.fmt|
    {
      EmitStep(c, args, written);
      if IsCount(c) {
        stores := stores + [(c.k, written)];
      }
      var count;
      c, out, count := PrintStep(out, c, args);
      written := written + count;
    }
    EmitEnds(c, args, written);
  }

  lemma EmitStep(c: Cursor, args: seq<Arg>, n: nat)
    requires c.fmt != ""
    ensures forall out :: out + Emit(c, args) == out + Advance(c, args).1 + Emit(Advance(c, args).0, args)
    ensures forall s :: (
      s + Stores(c, args, n)
        == (if IsCount(c) then s + [(c.k, n)] else s) + Stores(Advance(c, args).0, args, n + |Advance(c, args).1|))
  {
    hide Advance;
    hide IsCount;
  }

  lemma EmitEnds(c: Cursor, args: seq<Arg>, n: nat)
    requires c.fmt == ""
    ensures Emit(c, args) == "" && Stores(c, args, n) == []
  {
  }

  // Text without directives is printed as it stands.
  lemma {:induction false} PlainText(text: string, rest: string, f: Flags, args: seq<Arg>, k: nat)
    requires !f.inFormat && '%' !in text
    ensures Emit(Cursor(text + rest, f, k), args) == text + Emit(Cursor(rest, f, k), args)
  {
    if text == "" {
      assert text + rest == rest;
    } else {
      assert (text + rest)[0] == text[0] && (text + rest)[1..] == text[1..] + rest;
      CharPrints(text + rest, f, args, k);
      hide *;
      PlainText(text[1..], rest, f, args, k);
      assert [text[0]] + text[1..] == text;
    }
  }

  lemma CharPrints(fmt: string, f: Flags, args: seq<Arg>, k: nat)
    requires fmt != "" && !f.inFormat && fmt[0] != '%'
    ensures Emit(Cursor(fmt, f, k), args) == [fmt[0]] + Emit(Cursor(fmt[1..], f, k), args)
  {
    assert Advance(Cursor(fmt, f, k), args) == (Cursor(fmt[1..], f, k), [fmt[0]]);
  }

  // ---------------------------------------------------------------------------------
  // Parsing undoes printing, through whole format strings.

  function SetFlags(mods: string, f: Flags): Flags {
    if mods == "" then f else SetFlags(mods[1..], SetFlag(mods[0], f))
  }

  predicate AllFlags(mods: string) {
    forall i :: 0 <= i < |mods| ==> IsFlag(mods[i])
  }

  lemma {:induction false} FlagsAreSet(mods: string, rest: string, f: Flags, args: seq<Arg>, k: nat)
    requires f.inFormat && AllFlags(mods)
    ensures SetFlags(mods, f).inFormat
    ensures Emit(Cursor(mods + rest, f, k), args) == Emit(Cursor(rest, SetFlags(mods, f), k), args)
    decreases |mods|
  {
    if mods == "" {
      assert mods + rest == rest;
    } else {
      assert (mods + rest)[0] == mods[0] && (mods + rest)[1..] == mods[1..] + rest;
      FlagIsSet(mods + rest, f, args, k);
      hide Emit;
      hide IsFlag;
      hide SetFlag;
      FlagsAreSet(mods[1..], rest, SetFlag(mods[0], f), args, k);
    }
  }

  lemma FlagIsSet(fmt: string, f: Flags, args: seq<Arg>, k: nat)
    requires fmt != "" && f.inFormat && IsFlag(fmt[0])
    ensures SetFlag(fmt[0], f).inFormat
    ensures Emit(Cursor(fmt, f, k), args) == Emit(Cursor(fmt[1..], SetFlag(fmt[0], f), k), args)
  {
    assert Advance(Cursor(fmt, f, k), args) == (Cursor(fmt[1..], SetFlag(fmt[0], f), k), "");
  }

  // Digits followed by something else: the digit loop stops there.
  lemma {:induction false} DigitsStop(s: string, rest: string, base: nat, acc: nat)
    requires base <= 36 && AllDigits(s, base) && !StartsWithDigit(rest, base)
    ensures Value(s + rest, base, acc) == Value(s, base, acc) && AfterDigits(s + rest, base) == rest
    decreases |s|
  {
    if s == "" {
      assert s + rest == rest;
    } else {
      assert (s + rest)[0] == s[0] && (s + rest)[1..] == s[1..] + rest;
      DigitsStop(s[1..], rest, base, Push(acc, base, DigitVal(s[0])));
    }
  }

  lemma {:induction false} FirstDigit(n: nat)
    requires n >= 1
    ensures '1' <= Digits(n, 10, false)[0] <= '9'
  {
    if n >= 10 { FirstDigit(n / 10); }
  }

  // A width in a format string: blank for none.
  function WidthText(w: nat): string {
    if w == 0 then "" else Digits(w, 10, false)
  }

  lemma WidthIsRead(w: nat, rest: string, f: Flags, args: seq<Arg>, k: nat)
    requires f.inFormat && w < 0x8000_0000 && rest != "" && DigitVal(rest[0]) >= 10
    ensures Emit(Cursor(WidthText(w) + rest, f, k), args)
         == Emit(Cursor(rest, if w == 0 then f else f.(width := w), k), args)
  {
    if w == 0 {
      assert WidthText(w) + rest == rest;
    } else {
      WidthParses(w, rest);
      WidthStep(WidthText(w) + rest, w, rest, f, args, k);
    }
  }

  lemma WidthStep(s: string, w: nat, rest: string, f: Flags, args: seq<Arg>, k: nat)
    requires f.inFormat && w < 0x8000_0000 && s != "" && '1' <= s[0] <= '9' && Strtol(s, 10) == (w, rest)
    ensures Emit(Cursor(s, f, k), args) == Emit(Cursor(rest, f.(width := w), k), args)
  {
    hide Strtol;
    assert AsInt(w) == w;
    assert Advance(Cursor(s, f, k), args) == (Cursor(rest, f.(width := w), k), "");
    hide Advance;
  }

  lemma WidthParses(w: nat, rest: string)
    requires w >= 1 && rest != "" && DigitVal(rest[0]) >= 10
    ensures Strtol(WidthText(w) + rest, 10) == (w, rest)
    ensures '1' <= (WidthText(w) + rest)[0] <= '9'
  {
    FirstDigit(w);
    DigitsAreDigits(w, 10, false);
    ValueOfDigits(w, 10, false);
    DigitsStop(WidthText(w), rest, 10, 0);
    var s := WidthText(w) + rest;
    assert s[0] == WidthText(w)[0];
    assert SkipSpaces(s) == s && Unsign(s) == s && Prefix(s, 10) == (10, s);
  }

  // The whole format: text, percent, flags, width, l, conversion, text.
  function FormatText(before: string, mods: string, w: nat, conv: char, after: string): string {
    before + ("%" + (mods + (WidthText(w) + ("l" + ([conv] + after)))))
  }

  // The flags in force when the conversion is reached.
  function Reached(mods: string, w: nat): Flags {
    var f := SetFlags(mods, START);
    (if w == 0 then f else f.(width := w)).(long := true)
  }

  lemma FormatPrints(before: string, mods: string, w: nat, conv: char, after: string, args: seq<Arg>)
    requires '%' !in before && '%' !in after && AllFlags(mods) && w < 0x8000_0000 && conv in "dxX"
    ensures Emit(Cursor(FormatText(before, mods, w, conv, after), INITIAL, 0), args)
         == before + Directive(conv, Reached(mods, w), args, 0) + after
  {
    var tail := "l" + ([conv] + after);
    var f := SetFlags(mods, START);
    PlainText(before, "%" + (mods + (WidthText(w) + tail)), INITIAL, args, 0);
    FlagsAreSet(mods, WidthText(w) + tail, START, args, 0);
    WidthIsRead(w, tail, f, args, 0);
    ConversionPrints(conv, after, if w == 0 then f else f.(width := w), args);
    PercentStarts(mods + (WidthText(w) + tail), args);
  }

  lemma PercentStarts(rest: string, args: seq<Arg>)
    ensures Emit(Cursor("%" + rest, INITIAL, 0), args) == Emit(Cursor(rest, START, 0), args)
  {
    assert ("%" + rest)[1..] == rest;
  }

  lemma ConversionPrints(conv: char, after: string, f: Flags, args: seq<Arg>)
    requires f.inFormat && '%' !in after && conv in "dxX"
    ensures Emit(Cursor("l" + ([conv] + after), f, 0), args)
         == Directive(conv, f.(long := true), args, 0) + after
  {
    hide Directive;
    var g := f.(long := true);
    FlagIsSet("l" + ([conv] + after), f, args, 0);
    assert ("l" + ([conv] + after))[1..] == [conv] + after && ([conv] + after)[1..] == after;
    assert Advance(Cursor([conv] + after, g, 0), args)
        == (Cursor(after, g.(inFormat := false), 1), Directive(conv, g, args, 0));
    PlainText(after, "", g.(inFormat := false), args, 1);
    assert after + "" == after;
  }

  // %n stores the number of characters printed before it.
  lemma {:induction false} CountIsStored(before: string, args: seq<Arg>, n: nat)
    requires '%' !in before
    ensures Stores(Cursor(before + "%n", INITIAL, 0), args, n) == [(0, n + |before|)]
    decreases |before|
  {
    var c := Cursor(before + "%n", INITIAL, 0);
    if before == "" {
      assert before + "%n" == "%n";
      CountAlone(args, n);
    } else {
      assert c.fmt[0] == before[0] && c.fmt[1..] == before[1..] + "%n";
      CharStores(c.fmt, args, n);
      hide *;
      CountIsStored(before[1..], args, n + 1);
    }
  }

  lemma CharStores(fmt: string, args: seq<Arg>, n: nat)
    requires fmt != "" && fmt[0] != '%'
    ensures Stores(Cursor(fmt, INITIAL, 0), args, n) == Stores(Cursor(fmt[1..], INITIAL, 0), args, n + 1)
  {
    assert Advance(Cursor(fmt, INITIAL, 0), args) == (Cursor(fmt[1..], INITIAL, 0), [fmt[0]]);
    hide Advance;
  }

  lemma CountAlone(args: seq<Arg>, n: nat)
    ensures Stores(Cursor("%n", INITIAL, 0), args, n) == [(0, n)]
  {
    assert "%n"[1..] == "n" && "n"[1..] == "";
    assert Advance(Cursor("%n", INITIAL, 0), args) == (Cursor("n", START, 0), "");
    assert Advance(Cursor("n", START, 0), args) == (Cursor("", START.(inFormat := false), 1), "");
    hide Advance;
    assert Stores(Cursor("", START.(inFormat := false), 1), args, n) == [];
  }

  // What %ld prints under any flags and width inside any text reads back as the number, for every
  // long but the minimum; so does %#lx, %#lX for every long from 0 on.
  lemma LongRoundTrip(before: string, mods: string, w: nat, after: string, n: int, args: seq<Arg>)
    requires '%' !in before && '%' !in after && AllFlags(mods) && w < 0x8000_0000
    requires -(LONG_LIMIT as int) < n < LONG_LIMIT && args == [Num(n)]
    ensures exists text ::
      Emit(Cursor(FormatText(before, mods, w, 'd', after), INITIAL, 0), args) == before + text + after
      && Fits(text, 10) && Strtol(text, 10) == (n, "")
  {
    FormatPrints(before, mods, w, 'd', after, args);
    var f := Reached(mods, w);
    LongBits(n);
    LongDirective(f, n, args);
    hide *;
    DecRoundTrip(n % WORD, true, f);
  }

  lemma LongBits(n: int)
    requires -(LONG_LIMIT as int) < n < LONG_LIMIT
    ensures 0 <= n % WORD < WORD && SignedValue(n % WORD, true) == n && Magnitude(n % WORD, true) < LONG_LIMIT
  {
  }

  lemma LongDirective(f: Flags, n: int, args: seq<Arg>)
    requires f.long && args == [Num(n)]
    ensures Directive('d', f, args, 0) == DecOut(n % WORD, true, f)
    ensures forall upper ::
      Directive(if upper then 'X' else 'x', f, args, 0) == HexOut(n % WORD, upper, false, f)
  {
    hide DecOut;
    hide HexOut;
  }

  lemma LongHexRoundTrip(
    before: string, mods: string, w: nat, upper: bool, after: string, n: nat, args: seq<Arg>)
    requires '%' !in before && '%' !in after && AllFlags(mods) && '#' in mods && w < 0x8000_0000
    requires n < LONG_LIMIT && args == [Num(n)]
    ensures exists text ::
      Emit(Cursor(FormatText(before, mods, w, if upper then 'X' else 'x', after), INITIAL, 0), args)
        == before + text + after
      && Fits(text, 0) && Strtol(text, 0) == (n, "")
  {
    var conv := if upper then 'X' else 'x';
    FormatPrints(before, mods, w, conv, after, args);
    SharpIsSet(mods, START);
    var f := Reached(mods, w);
    assert f.sharp && f.long && n % WORD == n;
    LongDirective(f, n, args);
    hide *;
    HexRoundTrip(n, upper, false, f);
  }

  lemma {:induction false} SharpIsSet(mods: string, f: Flags)
    requires AllFlags(mods) && ('#' in mods || f.sharp)
    ensures SetFlags(mods, f).sharp
    decreases |mods|
  {
    if mods != "" { SharpIsSet(mods[1..], SetFlag(mods[0], f)); }
  }
}
