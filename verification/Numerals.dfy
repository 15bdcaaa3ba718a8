/** Digit strings in closed form, and what strtol makes of a numeral in every base it accepts. */
module Numerals {
  import opened Basics
  import opened Format
  import opened Printk
  import Bits

  const LOWER := "0123456789abcdefghijklmnopqrstuvwxyz"
  const UPPER := "0123456789ABCDEFGHIJKLMNOPQRSTUVWXYZ"

  // ---------------------------------------------------------------------------------
  // Printing.

  lemma DigitIs(d: nat, upper: bool)
    requires d < 16
    ensures Digit(d, upper) == (if upper then UPPER else LOWER)[d]
  {
  }

  // Dividing by the base and then by m is dividing by their product.
  lemma DivTwice(n: nat, base: nat, m: nat)
    requires base >= 1 && m >= 1
    ensures base * m >= 1 && n / base / m == n / (base * m)
  {
    var q, r := n / base, n % base;
    var p, t := q / m, q % m;
    DivMod(n, base);
    DivMod(q, m);
    MulLe(1, m, base);
    MulLe(t + 1, m, base);
    Parts(base, m, q, r, p, t);
    Bits.DivModIs(n, base * m, p, base * t + r);
  }

  lemma Parts(base: nat, m: nat, q: nat, r: nat, p: nat, t: nat)
    requires q == p * m + t && base * (t + 1) <= base * m && r < base
    ensures q * base + r == (base * m) * p + (base * t + r) && base * t + r < base * m
  {
    assert base * (t + 1) == base * t + base;
    assert q * base == p * m * base + t * base;
    assert p * m * base == (base * m) * p;
  }

  // Digit i of the text, counted from the left, is the one the place value asks for.
  lemma {:induction false} DigitsAre(n: nat, base: nat, upper: bool, i: nat)
    requires 2 <= base <= 16 && i < |Digits(n, base, upper)|
    ensures Pow(base, |Digits(n, base, upper)| - 1 - i) >= 1
    ensures Digits(n, base, upper)[i]
         == (if upper then UPPER else LOWER)[n / Pow(base, |Digits(n, base, upper)| - 1 - i) % base]
    decreases n
  {
    hide Digits;
    hide Digit;
    hide Pow;
    hide LOWER;
    hide UPPER;
    var k := |Digits(n, base, upper)| - 1 - i;
    DigitsStep(n, base, upper);
    PowPositive(base, k);
    if n / base == 0 || k == 0 {
      PowZero(base);
      DigitIs(n % base, upper);
    } else {
      DigitsAre(n / base, base, upper, i);
      DivTwice(n, base, Pow(base, k - 1));
      PowStep(base, k);
    }
  }

  lemma PowZero(base: nat)
    ensures Pow(base, 0) == 1
  {
  }

  lemma PowStep(base: nat, k: nat)
    requires k >= 1
    ensures Pow(base, k) == base * Pow(base, k - 1)
  {
  }

  // The number of digits is the least that the number needs.
  lemma HowManyDigits(n: nat, base: nat, upper: bool)
    requires 2 <= base <= 16
    ensures var k := |Digits(n, base, upper)|;
      n < Pow(base, k) && (k > 1 ==> n >= Pow(base, k - 1))
  {
    var k := |Digits(n, base, upper)|;
    if n >= Pow(base, k) { DigitCountLower(n, base, upper, k); }
    if k > 1 && n < Pow(base, k - 1) { DigitCount(n, base, upper, k - 1); }
  }

  // ---------------------------------------------------------------------------------
  // Parsing.

  // The white space of the C locale: blank and the control characters 9 to 13.
  predicate White(s: string) {
    forall i :: 0 <= i < |s| ==> s[i] as int in {32, 9, 10, 11, 12, 13}
  }

  // ds are the digits of a numeral in base b, in letters of either case.
  ghost predicate Writes(s: string, ds: seq<nat>, b: nat) {
    && |s| == |ds| && 2 <= b <= |LOWER| == |UPPER| == 36
    && forall i :: 0 <= i < |ds| ==> ds[i] < b && (s[i] == LOWER[ds[i]] || s[i] == UPPER[ds[i]])
  }

  function PlaceValue(ds: seq<nat>, b: nat): nat {
    if ds == [] then 0 else Push(PlaceValue(ds[..|ds| - 1], b), b, ds[|ds| - 1])
  }

  lemma HowManyLetters()
    ensures |LOWER| == |UPPER| == 36
  {
  }

  lemma LowerIs(d: nat)
    requires d < 36
    ensures LOWER[d] as int == if d < 10 then '0' as int + d else 'a' as int + d - 10
  {
  }

  lemma UpperIs(d: nat)
    requires d < 36
    ensures UPPER[d] as int == if d < 10 then '0' as int + d else 'A' as int + d - 10
  {
  }

  lemma LetterValue(c: char, d: nat)
    requires d < 36
    ensures c == LOWER[d] || c == UPPER[d] <==> DigitVal(c) == d
  {
    hide LOWER;
    hide UPPER;
    LowerIs(d);
    UpperIs(d);
  }

  lemma {:induction false} WrittenValue(s: string, ds: seq<nat>, b: nat, rest: string)
    requires Writes(s, ds, b) && !StartsWithDigit(rest, b)
    ensures AllDigits(s, b) && Value(s, b, 0) == PlaceValue(ds, b)
    ensures Value(s + rest, b, 0) == PlaceValue(ds, b) && AfterDigits(s + rest, b) == rest
  {
    hide LOWER;
    hide UPPER;
    forall i | 0 <= i < |s|
      ensures DigitVal(s[i]) == ds[i]
    {
      LetterValue(s[i], ds[i]);
    }
    ValueIsPlaceValue(s, ds, b);
    DigitsStop(s, rest, b, 0);
  }

  lemma {:induction false} ValueIsPlaceValue(s: string, ds: seq<nat>, b: nat)
    requires |s| == |ds| && b <= 36 && forall i :: 0 <= i < |s| ==> DigitVal(s[i]) == ds[i] < b
    ensures Value(s, b, 0) == PlaceValue(ds, b)
    decreases |s|
  {
    if s != "" {
      var r, c := s[..|s| - 1], s[|s| - 1];
      ValueIsPlaceValue(r, ds[..|ds| - 1], b);
      ValueSnoc(r, c, b, 0);
      assert r + [c] == s;
    }
  }

  lemma {:induction false} WhiteSkipped(w: string, s: string)
    requires White(w) && (s == "" || !IsSpace(s[0]))
    ensures SkipSpaces(w + s) == s
    decreases |w|
  {
    if w != "" {
      assert (w + s)[0] == w[0] && (w + s)[1..] == w[1..] + s;
      WhiteSkipped(w[1..], s);
    } else {
      assert w + s == s;
    }
  }

  // All the white space in front goes, and nothing else.
  lemma {:induction false} WhiteInFront(s: string) returns (w: string)
    ensures White(w) && s == w + SkipSpaces(s)
    ensures SkipSpaces(s) != "" ==> !White([SkipSpaces(s)[0]])
    decreases |s|
  {
    hide White;
    hide IsSpace;
    WhiteJoins("", "");
    if s != "" && IsSpace(s[0]) {
      var v := WhiteInFront(s[1..]);
      w := [s[0]] + v;
      SpaceIsWhite(s[0]);
      WhiteJoins([s[0]], v);
      assert s == [s[0]] + s[1..];
    } else {
      w := "";
      assert s == "" + s;
      if s != "" { SpaceIsWhite(s[0]); }
    }
  }

  lemma WhiteJoins(a: string, b: string)
    ensures White("") && (White(a) && White(b) ==> White(a + b))
  {
  }

  lemma SpaceIsWhite(c: char)
    ensures IsSpace(c) <==> White([c])
  {
    assert White([c]) ==> [c][0] as int in {32, 9, 10, 11, 12, 13};
  }

  // How strtol sees the base: given, or told from the prefix.
  predicate Announces(prefix: string, base: nat, b: nat, first: char) {
    || (base == b && prefix == "" && base != 0)
    || (base == 0 && b == 16 && prefix in {"0x", "0X"})
    || (base == 0 && b == 8 && prefix == "0" && first != 'x' && first != 'X')
    || (base == 0 && b == 10 && prefix == "" && first != '0')
  }

  // White space, a sign, a prefix, a numeral, and something that is no digit of the base: strtol
  // gives the numeral's value, negated after a minus, and stops behind it.
  lemma StrtolReads(w: string, sg: string, prefix: string, s: string, ds: seq<nat>, rest: string, base: nat, b: nat)
    requires White(w) && sg in {"", "+", "-"} && s != "" && Writes(s, ds, b)
    requires Announces(prefix, base, b, s[0]) && (rest == "" || forall d: nat :: d < b ==> !Writes(rest[..1], [d], b))
    ensures Strtol(w + (sg + (prefix + (s + rest))), base)
         == (if sg == "-" then -(PlaceValue(ds, b) as int) else PlaceValue(ds, b), rest)
  {
    hide Value;
    hide AfterDigits;
    hide SkipSpaces;
    hide Unsign;
    hide Prefix;
    hide Writes;
    hide White;
    hide PlaceValue;
    hide LOWER;
    hide UPPER;
    FirstIsDigit(s, ds, b);
    NoDigit(rest, b);
    WrittenValue(s, ds, b, rest);
    FirstOf(prefix, s, rest, base, b);
    var u := prefix + (s + rest);
    SignStripped(sg, u);
    WhiteSkipped(w, sg + u);
    PrefixStripped(prefix, s + rest, base, b);
  }

  lemma FirstIsDigit(s: string, ds: seq<nat>, b: nat)
    requires s != "" && Writes(s, ds, b)
    ensures DigitVal(s[0]) < 36 && 2 <= b <= 36
  {
    hide LOWER;
    hide UPPER;
    LetterValue(s[0], ds[0]);
  }

  lemma FirstOf(prefix: string, s: string, rest: string, base: nat, b: nat)
    requires s != "" && DigitVal(s[0]) < 36 && Announces(prefix, base, b, s[0])
    ensures var u := prefix + (s + rest);
      u[0] != '+' && u[0] != '-' && !IsSpace(u[0]) && (s + rest)[0] == s[0]
  {
  }

  lemma NoDigit(rest: string, b: nat)
    requires 2 <= b <= 36 && (rest == "" || forall d: nat :: d < b ==> !Writes(rest[..1], [d], b))
    ensures !StartsWithDigit(rest, b)
  {
    if rest != "" {
      DigitWrites(rest[0], b);
      assert rest[..1] == [rest[0]];
    }
  }

  lemma DigitWrites(c: char, b: nat)
    requires 2 <= b <= 36
    ensures DigitVal(c) < b ==> Writes([c], [DigitVal(c)], b)
  {
    hide LOWER;
    hide UPPER;
    HowManyLetters();
    if DigitVal(c) < b { LetterValue(c, DigitVal(c)); }
  }

  lemma SignStripped(sg: string, u: string)
    requires sg in {"", "+", "-"} && u != "" && u[0] != '+' && u[0] != '-' && !IsSpace(u[0])
    ensures Unsign(sg + u) == u && !IsSpace((sg + u)[0])
    ensures (sg + u)[0] == '-' <==> sg == "-"
  {
    if sg == "" { assert sg + u == u; }
  }

  lemma PrefixStripped(prefix: string, t: string, base: nat, b: nat)
    requires t != "" && Announces(prefix, base, b, t[0])
    ensures Prefix(prefix + t, base) == (b, t)
  {
    assert prefix == "" ==> prefix + t == t;
    assert |prefix| == 1 ==> (prefix + t)[1..] == t && (prefix + t)[1] == t[0];
    assert |prefix| == 2 ==> (prefix + t)[2..] == t;
  }
}
