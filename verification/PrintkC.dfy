/** What printf of the C standard prints for an integer conversion, and when print_dec_int and the
    hexadecimal branch of lib/printk.c print the same. */
module PrintkC {
  import opened Basics
  import opened Format
  import opened Printk

  // ---------------------------------------------------------------------------------
  // The text of section 7.21.6.1 of C11. A negative precision, from '*', counts as none; a negative
  // width, from '*', asks for blanks on the right and makes the 0 flag void.

  function CZeros(lead: nat, digits: nat, f: Flags): int {
    if f.prec >= 0 then f.prec - digits
    else if f.zero && f.width >= 0 then f.width - lead - digits
    else 0
  }

  function CField(lead: string, digits: string, f: Flags): string {
    var body := lead + (Repeat('0', CZeros(|lead|, |digits|, f)) + digits);
    Repeat(' ', f.width - |body|) + body + Repeat(' ', -f.width - |body|)
  }

  // The sign: that of a negative number, else what the + and space flags ask for.
  function CLead(n: int, isSigned: bool, f: Flags): string {
    if n < 0 then "-" else if isSigned && f.sign then "+" else if isSigned && f.space then " " else ""
  }

  // Zero with precision 0 has no digits.
  function CDigits(n: int, base: nat, upper: bool, f: Flags): string
    requires 2 <= base <= 16
  {
    if n == 0 && f.prec == 0 then "" else Digits(if n < 0 then -n else n, base, upper)
  }

  function CDec(n: int, isSigned: bool, f: Flags): string {
    CField(CLead(n, isSigned, f), CDigits(n, 10, false, f), f)
  }

  // The prefix is there if the # flag asks for it and the number is not zero, or for %p. C leaves
  // open what %p prints; here it is the prefixed number, with all its digits.
  function CPrefix(n: nat, upper: bool, pointer: bool, f: Flags): string {
    if !pointer && (!f.sharp || n == 0) then "" else if upper then "0X" else "0x"
  }

  function CHex(n: nat, upper: bool, pointer: bool, f: Flags): string {
    CField(CPrefix(n, upper, pointer, f), CDigits(n, 16, upper, if pointer then f.(prec := 1) else f), f)
  }

  // ---------------------------------------------------------------------------------
  // Where the code departs from it.

  // A field that should have blanks on the right, or that a negative precision should leave padded
  // with zeros.
  predicate PaddingMisfit(lead: nat, digits: nat, f: Flags) {
    -f.width > lead + Max(digits, f.prec) || (f.prec < -1 && f.zero && f.width > lead + digits)
  }

  // The branches of print_dec_int that miss C's text: the constant text for the minimum, the early
  // return for a zero without digits, a sign that eats one of the requested digits, and padding.
  predicate DecMisfit(n: int, isSigned: bool, f: Flags) {
    var lead, digits := |CLead(n, isSigned, f)|, |CDigits(n, 10, false, f)|;
    if isSigned && n == LONG_MIN then f.width > 20 || -f.width > 20 || f.prec > 19
    else if f.prec == 0 && n == 0 then f.width != 0 || lead > 0
    else (f.prec > digits && lead > 0) || PaddingMisfit(lead, digits, f)
  }

  predicate HexMisfit(n: nat, upper: bool, pointer: bool, f: Flags) {
    if f.prec == 0 && n == 0 && !pointer then f.width != 0
    else PaddingMisfit(|CPrefix(n, upper, pointer, f)|, |Digits(n, 16, upper)|, f)
  }

  // ---------------------------------------------------------------------------------
  // A text determines its padding.

  predicate IsLead(lead: string) {
    lead in {"", "+", "-", " ", "0x", "0X"}
  }

  predicate NoBlank(digits: string) {
    digits != "" && digits[0] != ' ' && digits[|digits| - 1] != ' '
  }

  function Layout(left: int, lead: string, zeros: int, digits: string, right: int): string {
    Repeat(' ', left) + (lead + (Repeat('0', zeros) + digits)) + Repeat(' ', right)
  }

  // l blanks, the lead, something else, and r blanks at the end.
  ghost predicate Ended(t: string, lead: string, l: nat, r: nat) {
    && l + |lead| + r < |t| && (forall i :: 0 <= i < l ==> t[i] == ' ')
    && (forall i :: 0 <= i < |lead| ==> t[l + i] == lead[i])
    && t[l + |lead|] != ' ' && t[|t| - r - 1] != ' ' && forall i :: |t| - r <= i < |t| ==> t[i] == ' '
  }

  lemma LayoutEnds(left: int, lead: string, zeros: int, digits: string, right: int)
    requires NoBlank(digits)
    ensures var t := Layout(left, lead, zeros, digits, right);
      && |t| == Max(0, left) + |lead| + Max(0, zeros) + |digits| + Max(0, right)
      && Ended(t, lead, Max(0, left), Max(0, right))
  {
    var u := Repeat('0', zeros) + digits;
    assert u[0] != ' ' && u[|u| - 1] == digits[|digits| - 1];
    var t, l := Layout(left, lead, zeros, digits, right), Max(0, left);
    assert t[l + |lead|] == u[0];
    assert t[l + |lead| + |u| - 1] == u[|u| - 1];
  }

  // The first character that is no blank.
  lemma FirstInk(t: string, lead: string, l: nat, r: nat)
    requires IsLead(lead) && Ended(t, lead, l, r)
    ensures var k := if lead == " " then l + 1 else l;
      k < |t| && t[k] != ' ' && forall i :: 0 <= i < k ==> t[i] == ' '
  {
    assert lead != "" ==> t[l + 0] == lead[0];
  }

  lemma SameEnds(t: string, lead: string, l: nat, r: nat, l': nat, r': nat)
    requires IsLead(lead) && Ended(t, lead, l, r) && Ended(t, lead, l', r')
    ensures l == l' && r == r'
  {
    FirstInk(t, lead, l, r);
    FirstInk(t, lead, l', r');
  }

  lemma LayoutIsUnique(left: int, zeros: int, right: int, left': int, zeros': int, right': int,
                       lead: string, digits: string)
    requires IsLead(lead) && NoBlank(digits)
    ensures Layout(left, lead, zeros, digits, right) == Layout(left', lead, zeros', digits, right')
       <==> Max(0, left) == Max(0, left') && Max(0, zeros) == Max(0, zeros') && Max(0, right) == Max(0, right')
  {
    LayoutEnds(left, lead, zeros, digits, right);
    LayoutEnds(left', lead, zeros', digits, right');
    SameRepeat(' ', left, left');
    SameRepeat('0', zeros, zeros');
    SameRepeat(' ', right, right');
    hide Ended;
    hide IsLead;
    hide NoBlank;
    hide Repeat;
    var t, u := Layout(left, lead, zeros, digits, right), Layout(left', lead, zeros', digits, right');
    if t == u {
      SameEnds(t, lead, Max(0, left), Max(0, right), Max(0, left'), Max(0, right'));
    }
  }

  lemma SameRepeat(c: char, m: int, n: int)
    ensures Max(0, m) == Max(0, n) ==> Repeat(c, m) == Repeat(c, n)
  {
  }

  // ---------------------------------------------------------------------------------
  // The texts agree exactly outside those branches.

  lemma FieldIsLayout(b: int, lead: string, z: int, digits: string)
    ensures Field(b, lead, z, digits) == Layout(b, lead, z, digits, 0)
  {
    assert Repeat(' ', 0) == "";
  }

  // The code's b blanks and z zeros are C's, and C has no blanks on the right.
  predicate SameCounts(b: int, z: int, lead: nat, digits: nat, f: Flags) {
    var n := lead + Max(0, CZeros(lead, digits, f)) + digits;
    Max(0, z) == Max(0, CZeros(lead, digits, f)) && Max(0, b) == Max(0, f.width - n) && -f.width <= n
  }

  lemma SameField(b: int, z: int, lead: string, digits: string, f: Flags)
    requires IsLead(lead) && NoBlank(digits)
    ensures Field(b, lead, z, digits) == CField(lead, digits, f) <==> SameCounts(b, z, |lead|, |digits|, f)
  {
    var cz := CZeros(|lead|, |digits|, f);
    var n := |lead| + Max(0, cz) + |digits|;
    assert CField(lead, digits, f) == Layout(f.width - n, lead, cz, digits, -f.width - n);
    FieldIsLayout(b, lead, z, digits);
    LayoutIsUnique(b, z, 0, f.width - n, cz, -f.width - n, lead, digits);
  }

  lemma DigitsNoBlank(n: nat, base: nat, upper: bool)
    requires 2 <= base <= 16
    ensures NoBlank(Digits(n, base, upper))
  {
    DigitsAreDigits(n, base, upper);
    var d := Digits(n, base, upper);
    assert DigitVal(d[0]) < base && DigitVal(d[|d| - 1]) < base;
  }

  // The pattern's sign and magnitude are those of the number.
  lemma PatternIs(num: nat, isSigned: bool, f: Flags)
    requires num < WORD
    ensures var n := SignedValue(num, isSigned);
      && SignOf(num, isSigned, f) == CLead(n, isSigned, f) && Magnitude(num, isSigned) == (if n < 0 then -n else n)
      && (n == 0 <==> num == 0) && (isSigned && n == LONG_MIN <==> isSigned && num == LONG_LIMIT)
  {
  }

  // Under every flag, width and precision print_dec_int prints C's text if and only if the call
  // avoids its misfit branches.
  lemma DecText(num: nat, isSigned: bool, f: Flags)
    requires num < WORD
    ensures DecOut(num, isSigned, f) == CDec(SignedValue(num, isSigned), isSigned, f)
       <==> !DecMisfit(SignedValue(num, isSigned), isSigned, f)
  {
    PatternIs(num, isSigned, f);
    if isSigned && num == LONG_LIMIT {
      MinimumMatches(f);
    } else if f.prec == 0 && num == 0 {
      EmptyField(SignOf(num, isSigned, f), f);
    } else {
      DecMatches(num, isSigned, f);
    }
  }

  lemma DecCounts(lead: nat, digits: nat, f: Flags)
    requires lead <= 1 && digits >= 1
    ensures var p := if f.prec == -1 && f.zero then f.width else f.prec;
      SameCounts(f.width - Max(digits, p) - lead, p - lead - digits, lead, digits, f)
      <==> !((f.prec > digits && lead > 0) || PaddingMisfit(lead, digits, f))
  {
  }

  lemma HexCounts(lead: nat, digits: nat, f: Flags)
    requires digits >= 1
    ensures var p := if f.prec == -1 && f.zero then f.width - lead else f.prec;
      SameCounts(f.width - lead - Max(digits, p), p - digits, lead, digits, f) <==> !PaddingMisfit(lead, digits, f)
  {
  }

  lemma MinimumMatches(f: Flags)
    ensures DecOut(LONG_LIMIT, true, f) == CDec(LONG_MIN, true, f) <==> !DecMisfit(LONG_MIN, true, f)
  {
    MinimumText();
    MinimumDigits();
    DigitsNoBlank(LONG_LIMIT, 10, false);
    SameField(0, 0, "-", Digits(LONG_LIMIT, 10, false), f);
    hide Field;
    hide CField;
    hide Digits;
  }

  lemma DecMatches(num: nat, isSigned: bool, f: Flags)
    requires num < WORD && !(isSigned && num == LONG_LIMIT) && !(f.prec == 0 && num == 0)
    ensures DecOut(num, isSigned, f) == CDec(SignedValue(num, isSigned), isSigned, f)
       <==> !DecMisfit(SignedValue(num, isSigned), isSigned, f)
  {
    hide Field;
    hide CField;
    hide Digits;
    hide DecOut;
    hide SignOf;
    hide Magnitude;
    hide NoBlank;
    hide SameCounts;
    hide PaddingMisfit;
    hide Max;
    hide CLead;
    hide SignedValue;
    var lead, digits := SignOf(num, isSigned, f), Digits(Magnitude(num, isSigned), 10, false);
    var p := if f.prec == -1 && f.zero then f.width else f.prec;
    var b, z := f.width - Max(|digits|, p) - |lead|, p - |lead| - |digits|;
    DecOutIs(num, isSigned, f, b, z);
    DigitsNoBlank(Magnitude(num, isSigned), 10, false);
    SameField(b, z, lead, digits, f);
    DecCounts(|lead|, |digits|, f);
    PatternIs(num, isSigned, f);
  }

  lemma EmptyField(lead: string, f: Flags)
    requires f.prec == 0
    ensures CField(lead, "", f) == "" <==> f.width == 0 && lead == ""
  {
    assert |CField(lead, "", f)| >= |lead|;
  }

  // The same for the hexadecimal branch.
  lemma HexText(num: nat, upper: bool, pointer: bool, f: Flags)
    ensures HexOut(num, upper, pointer, f) == CHex(num, upper, pointer, f) <==> !HexMisfit(num, upper, pointer, f)
  {
    if f.prec == 0 && num == 0 && !pointer {
      EmptyField(CPrefix(num, upper, pointer, f), f);
    } else {
      HexMatches(num, upper, pointer, f);
    }
  }

  lemma HexMatches(num: nat, upper: bool, pointer: bool, f: Flags)
    requires !(f.prec == 0 && num == 0 && !pointer)
    ensures HexOut(num, upper, pointer, f) == CHex(num, upper, pointer, f) <==> !HexMisfit(num, upper, pointer, f)
  {
    hide Field;
    hide CField;
    hide Digits;
    hide HexOut;
    hide HexPrefix;
    hide NoBlank;
    hide SameCounts;
    hide PaddingMisfit;
    hide Max;
    var lead, digits := HexPrefix(num, upper, pointer, f), Digits(num, 16, upper);
    var p := if f.prec == -1 && f.zero then f.width - |lead| else f.prec;
    var b, z := f.width - |lead| - Max(|digits|, p), p - |digits|;
    HexOutIs(num, upper, pointer, f, b, z);
    DigitsNoBlank(num, 16, upper);
    SameField(b, z, lead, digits, f);
    HexCounts(|lead|, |digits|, f);
    PrefixIs(num, upper, pointer, f);
  }

  // The prefix is printed if and only if it is asked for.
  lemma PrefixIs(num: nat, upper: bool, pointer: bool, f: Flags)
    ensures HexPrefix(num, upper, pointer, f) == CPrefix(num, upper, pointer, f)
  {
  }

  // %x, %X, %#x and %#X as they stand: the digits, behind a prefix if and only if # asks for one and the
  // number is not zero.
  lemma PlainHex(num: nat, upper: bool, f: Flags)
    requires f.width == 0 && f.prec == -1
    ensures HexOut(num, upper, false, f)
         == (if !f.sharp || num == 0 then "" else if upper then "0X" else "0x") + Digits(num, 16, upper)
  {
    hide Digits;
    var pre, digits := CPrefix(num, upper, false, f), Digits(num, 16, upper);
    PrefixIs(num, upper, false, f);
    assert Repeat('0', -|digits|) == "" == Repeat(' ', -|pre| - |digits|);
    assert Repeat('0', -1 - |digits|) == "" == Repeat(' ', -|pre| - Max(|digits|, -1));
    assert "" + digits == digits && "" + (pre + digits) == pre + digits;
  }

  // Written out for the common calls, those without a precision and with a width: only the minimum
  // in a field wider than 20 is printed differently, and hexadecimal numbers never are.
  lemma DefaultText(num: nat, isSigned: bool, upper: bool, pointer: bool, f: Flags)
    requires num < WORD && f.width >= 0 && f.prec == -1
    ensures DecOut(num, isSigned, f) == CDec(SignedValue(num, isSigned), isSigned, f)
       <==> !(isSigned && num == LONG_LIMIT && f.width > 20)
    ensures HexOut(num, upper, pointer, f) == CHex(num, upper, pointer, f)
  {
    DecText(num, isSigned, f);
    HexText(num, upper, pointer, f);
    PatternIs(num, isSigned, f);
    hide CDec;
    hide CHex;
    hide DecOut;
    hide HexOut;
    hide SignedValue;
  }

  // ---------------------------------------------------------------------------------
  // The widths alone.

  lemma DecWidth(num: nat, isSigned: bool, f: Flags)
    requires num < WORD && f.width >= 0 && f.prec >= -1
    ensures |DecOut(num, isSigned, f)|
         == Max(f.width, |SignOf(num, isSigned, f)| + Max(|CDigits(SignedValue(num, isSigned), 10, false, f)|, f.prec))
       <==> !DecMisfit(SignedValue(num, isSigned), isSigned, f)
  {
    hide SignedValue;
    hide CLead;
    PatternIs(num, isSigned, f);
    if isSigned && num == LONG_LIMIT { MinimumDigits(); }
  }

  // Without an explicit precision only the minimum with a wide field is left.
  lemma DefaultDecWidth(num: nat, isSigned: bool, f: Flags)
    requires num < WORD && f.width >= 0 && f.prec == -1
    ensures |DecOut(num, isSigned, f)|
         == Max(f.width, |SignOf(num, isSigned, f)| + |CDigits(SignedValue(num, isSigned), 10, false, f)|)
       <==> !(isSigned && num == LONG_LIMIT && f.width > 20)
  {
    DecWidth(num, isSigned, f);
    PatternIs(num, isSigned, f);
  }

  lemma HexWidth(num: nat, upper: bool, pointer: bool, f: Flags)
    requires f.width >= 0 && f.prec >= -1
    ensures |HexOut(num, upper, pointer, f)|
         == Max(f.width, |CPrefix(num, upper, pointer, f)|
              + Max(if f.prec == 0 && num == 0 && !pointer then 0 else |Digits(num, 16, upper)|, f.prec))
       <==> !HexMisfit(num, upper, pointer, f)
  {
  }

  // Calls that miss the width: "%+.3d" of 10 prints "+10", "%21ld" of the minimum prints 20
  // characters, "%3.0d" and "%3.0x" of 0 print nothing.
  lemma WidthMisses()
    ensures DecMisfit(10, true, START.(sign := true, prec := 3))
    ensures DecOut(10, true, START.(sign := true, prec := 3)) == "+10"
    ensures DecMisfit(LONG_MIN, true, START.(width := 21)) && |DecOut(LONG_LIMIT, true, START.(width := 21))| == 20
    ensures DecMisfit(0, true, START.(width := 3, prec := 0)) && DecOut(0, true, START.(width := 3, prec := 0)) == ""
    ensures HexOut(0, false, false, START.(width := 3, prec := 0)) == ""
  {
    assert Digits(10, 10, false) == "10";
    assert Repeat('0', 0) == "" && Repeat(' ', -4) == "";
  }

  // A call that misses the text alone: "%05.*d" of 7 with precision -2, for which C pads with zeros
  // and the code with blanks.
  lemma NegativePrecisionMisses()
    ensures var f := START.(zero := true, width := 5, prec := -2);
      DecMisfit(7, true, f) && DecOut(7, true, f) == "    7" && CDec(7, true, f) == "00007"
  {
    assert Digits(7, 10, false) == "7";
    assert Repeat(' ', 4) == "    " && Repeat('0', 4) == "0000" && Repeat('0', -3) == "" && Repeat(' ', 0) == "";
  }
}
