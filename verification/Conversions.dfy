/** Whole format strings: what printf of the C standard prints for text and conversions, and when
    vprintfmt of lib/printk.c prints the same. */
module Conversions {
  import opened Basics
  import opened Format
  import opened Printk
  import opened PrintkC

  // ---------------------------------------------------------------------------------
  // Format strings.

  // A width or precision: none, written out, or an argument.
  datatype Count = Absent | Number(n: nat) | Star

  datatype Spec = Spec(flags: string, width: Count, prec: Count, longs: string, conv: char)

  datatype Piece = Text(s: string) | Conv(d: Spec)

  const INT_LIMIT: nat := 0x8000_0000

  predicate GoodSpec(d: Spec) {
    && (forall i :: 0 <= i < |d.flags| ==> d.flags[i] in "#0+ ")
    && (forall i :: 0 <= i < |d.longs| ==> d.longs[i] in "lztj")
    && (d.width.Number? ==> 1 <= d.width.n < INT_LIMIT) && (d.prec.Number? ==> d.prec.n < INT_LIMIT)
    && d.conv !in "#0lztj+ *.123456789"
  }

  predicate GoodFormat(ps: seq<Piece>) {
    forall i :: 0 <= i < |ps| ==> if ps[i].Conv? then GoodSpec(ps[i].d) else '%' !in ps[i].s
  }

  function CountText(c: Count): string {
    match c
    case Absent => ""
    case Number(n) => Digits(n, 10, false)
    case Star => "*"
  }

  function PrecText(c: Count): string {
    if c.Absent? then "" else "." + CountText(c)
  }

  // The directive d, followed by rest.
  function SpecThen(d: Spec, rest: string): string {
    "%" + (d.flags + (CountText(d.width) + (PrecText(d.prec) + (d.longs + ([d.conv] + rest)))))
  }

  function FormatOf(ps: seq<Piece>): string {
    if ps == [] then ""
    else match ps[0]
         case Text(s) => s + FormatOf(ps[1..])
         case Conv(d) => SpecThen(d, FormatOf(ps[1..]))
  }

  // ---------------------------------------------------------------------------------
  // What C prints. k is the number of the next argument.

  function Stars(c: Count): nat { if c.Star? then 1 else 0 }

  function ValueAt(d: Spec, k: nat): nat { k + Stars(d.width) + Stars(d.prec) }

  function NextArg(d: Spec, k: nat): nat {
    ValueAt(d, k) + if d.conv in "diuxXpscn" then 1 else 0
  }

  predicate IntAt(args: seq<Arg>, k: nat) {
    k < |args| && args[k].Num? && -0x8000_0000 <= args[k].n < 0x8000_0000
  }

  // The arguments have the types the directive asks for.
  predicate Typed(d: Spec, args: seq<Arg>, k: nat) {
    var v := ValueAt(d, k);
    && (d.width.Star? ==> IntAt(args, k)) && (d.prec.Star? ==> IntAt(args, k + Stars(d.width)))
    && (d.conv in "di" ==>
          v < |args| && args[v].Num?
          && if d.longs == "" then -0x8000_0000 <= args[v].n < 0x8000_0000
             else -0x8000_0000_0000_0000 <= args[v].n < 0x8000_0000_0000_0000)
    && (d.conv in "uxXp" ==>
          v < |args| && args[v].Num?
          && 0 <= args[v].n < if d.longs == "" && d.conv != 'p' then 0x1_0000_0000 else 0x1_0000_0000_0000_0000)
    && (d.conv == 's' ==> v < |args| && (args[v].Str? || args[v].Null?))
    && (d.conv == 'c' ==> v < |args| && args[v].Chr?)
  }

  // The value of a width or precision, none being none.
  function CountValue(c: Count, none: int, args: seq<Arg>, k: nat): int
    requires c.Star? ==> IntAt(args, k)
  {
    match c
    case Absent => none
    case Number(n) => n
    case Star => args[k].n
  }

  // What the directive asks for.
  function Wanted(d: Spec, args: seq<Arg>, k: nat): Flags
    requires Typed(d, args, k)
  {
    Flags(true, d.longs != "", '#' in d.flags, '0' in d.flags, ' ' in d.flags, '+' in d.flags,
          CountValue(d.width, 0, args, k), CountValue(d.prec, -1, args, k + Stars(d.width)))
  }

  // Strings are cut to the precision, strings and characters padded to the width. C leaves open what
  // a null pointer prints; here it is the text of the code.
  function CString(s: string, f: Flags): string {
    var t := if 0 <= f.prec < |s| then s[..f.prec] else s;
    Repeat(' ', f.width - |t|) + t + Repeat(' ', -f.width - |t|)
  }

  // An unknown letter is undefined in C; here it prints as it stands, as %% prints a percent sign.
  function CConversion(d: Spec, args: seq<Arg>, k: nat): string
    requires Typed(d, args, k)
  {
    var v, f := ValueAt(d, k), Wanted(d, args, k);
    if d.conv in "di" then CDec(args[v].n, true, f)
    else if d.conv == 'u' then CDec(args[v].n, false, f)
    else if d.conv in "xX" then CHex(args[v].n, d.conv == 'X', false, f)
    else if d.conv == 'p' then CHex(args[v].n, false, true, f)
    else if d.conv == 's' then CString(if args[v].Str? then args[v].s else "(null)", f)
    else if d.conv == 'c' then CString([args[v].c], f.(prec := -1))
    else if d.conv == 'n' then ""
    else [d.conv]
  }

  predicate AllTyped(ps: seq<Piece>, args: seq<Arg>, k: nat) {
    ps == [] ||
    match ps[0]
    case Text(_) => AllTyped(ps[1..], args, k)
    case Conv(d) => Typed(d, args, k) && AllTyped(ps[1..], args, NextArg(d, k))
  }

  function CPrintf(ps: seq<Piece>, args: seq<Arg>, k: nat): string
    requires AllTyped(ps, args, k)
  {
    if ps == [] then ""
    else match ps[0]
         case Text(s) => s + CPrintf(ps[1..], args, k)
         case Conv(d) => CConversion(d, args, k) + CPrintf(ps[1..], args, NextArg(d, k))
  }

  // ---------------------------------------------------------------------------------
  // Where the code departs from it.

  predicate AllBlank(s: string) { forall i :: 0 <= i < |s| ==> s[i] == ' ' }

  // %s and %c ignore width and precision.
  predicate StringMisfit(s: string, f: Flags) {
    if 0 <= f.prec < |s| then
      !(f.width == |s| && AllBlank(s)) && !(-f.width == |s| && AllBlank(s[f.prec..]))
    else f.width > |s| || -f.width > |s|
  }

  // An unsigned int from 2^31 on is read as a negative int and printed as an unsigned long.
  predicate Misfit(d: Spec, args: seq<Arg>, k: nat)
    requires Typed(d, args, k)
  {
    var v, f := ValueAt(d, k), Wanted(d, args, k);
    if d.conv in "di" then DecMisfit(args[v].n, true, f)
    else if d.conv == 'u' then (d.longs == "" && args[v].n >= 0x8000_0000) || DecMisfit(args[v].n, false, f)
    else if d.conv in "xX" then HexMisfit(args[v].n, d.conv == 'X', false, f)
    else if d.conv == 'p' then HexMisfit(args[v].n, false, true, f)
    else if d.conv == 's' then StringMisfit(if args[v].Str? then args[v].s else "(null)", f)
    else if d.conv == 'c' then f.width > 1 || f.width < -1
    else false
  }

  predicate NoMisfit(ps: seq<Piece>, args: seq<Arg>, k: nat)
    requires AllTyped(ps, args, k)
  {
    ps == [] ||
    match ps[0]
    case Text(_) => NoMisfit(ps[1..], args, k)
    case Conv(d) => !Misfit(d, args, k) && NoMisfit(ps[1..], args, NextArg(d, k))
  }

  // ---------------------------------------------------------------------------------
  // One directive.

  lemma DecDirective(n: int, long: bool, f: Flags)
    requires if long then -0x8000_0000_0000_0000 <= n < 0x8000_0000_0000_0000 else -0x8000_0000 <= n < 0x8000_0000
    ensures SignedValue(Pattern(n, long, true), true) == n
  {
  }

  // A string survives its conversion exactly as StringMisfit says.
  lemma StringKept(s: string, f: Flags)
    ensures CString(s, f) == s <==> !StringMisfit(s, f)
  {
    if 0 <= f.prec < |s| {
      CutString(s, f);
    } else {
      var l, r := Repeat(' ', f.width - |s|), Repeat(' ', -f.width - |s|);
      assert |CString(s, f)| == |l| + |s| + |r|;
      if l == "" && r == "" { assert l + s + r == s; }
    }
  }

  lemma CutString(s: string, f: Flags)
    requires 0 <= f.prec < |s|
    ensures CString(s, f) == s <==> !StringMisfit(s, f)
  {
    var p, n := f.prec, |s|;
    var t, l, r := s[..p], Repeat(' ', f.width - p), Repeat(' ', -f.width - p);
    assert CString(s, f) == l + t + r && |l + t + r| == |l| + p + |r|;
    if f.width == n {
      assert r == "" && l + t + r == l + t;
      InFront(s, p, l);
    } else if -f.width == n {
      assert l == "" && l + t + r == t + r;
      Behind(s, p, r);
    }
  }

  lemma InFront(s: string, p: nat, l: string)
    requires p < |s| && |l| == |s| - p && AllBlank(l)
    ensures l + s[..p] == s <==> AllBlank(s)
  {
    if l + s[..p] == s {
      forall i | 0 <= i < |s|
        ensures s[i] == ' '
      {
        ShiftedBlank(s, p, l, i);
      }
    }
  }

  lemma {:induction false} ShiftedBlank(s: string, p: nat, l: string, i: nat)
    requires p < |s| && |l| == |s| - p && AllBlank(l) && l + s[..p] == s && i < |s|
    ensures s[i] == ' '
    decreases i
  {
    assert s[i] == (l + s[..p])[i];
    if i >= |l| { ShiftedBlank(s, p, l, i - |l|); }
  }

  lemma Behind(s: string, p: nat, r: string)
    requires p < |s| && |r| == |s| - p && AllBlank(r)
    ensures s[..p] + r == s <==> AllBlank(s[p..])
  {
    assert s == s[..p] + s[p..];
    if s[..p] + r == s {
      assert s[p..] == (s[..p] + r)[p..] == r;
    }
    SameBlanks(s[p..], r);
  }

  lemma SameBlanks(a: string, b: string)
    ensures AllBlank(a) && AllBlank(b) && |a| == |b| ==> a == b
  {
  }

  // The digits of different numbers never make the same field.
  lemma FieldValue(n: nat, f: Flags)
    ensures Strtol(CField("", Digits(n, 10, false), f), 10).0 == n
  {
    hide *;
    var z := CZeros(0, |Digits(n, 10, false)|, f);
    var u := Repeat('0', z) + Digits(n, 10, false);
    NumberFacts(z, n, 10, false);
    DigitsAreDigits(n, 10, false);
    ZerosAreDigits(z, Digits(n, 10, false), 10);
    FieldShape(Digits(n, 10, false), f);
    ParseField(f.width - |u|, u, -f.width - |u|);
  }

  lemma FieldShape(digits: string, f: Flags)
    ensures var u := Repeat('0', CZeros(0, |digits|, f)) + digits;
      CField("", digits, f) == Repeat(' ', f.width - |u|) + (u + Repeat(' ', -f.width - |u|))
  {
    var u := Repeat('0', CZeros(0, |digits|, f)) + digits;
    assert "" + u == u;
    Assoc(Repeat(' ', f.width - |u|), u, Repeat(' ', -f.width - |u|));
  }

  lemma Assoc(a: string, b: string, c: string)
    ensures (a + b) + c == a + (b + c)
  {
  }

  lemma ParseField(l: int, u: string, r: int)
    requires u != "" && AllDigits(u, 10)
    ensures Strtol(Repeat(' ', l) + (u + Repeat(' ', r)), 10).0 == Value(u, 10, 0)
  {
    var t := u + Repeat(' ', r);
    assert t[0] == u[0] && DigitVal(u[0]) < 10;
    DigitsStop(u, Repeat(' ', r), 10, 0);
    LeadingBlanks(l, t);
    assert Unsign(t) == t && Prefix(t, 10) == (10, t);
    hide Value;
    hide AfterDigits;
    hide SkipSpaces;
  }

  // An unsigned int from 2^31 on.
  lemma WideUnsigned(n: nat, f: Flags)
    requires 0x8000_0000 <= n < 0x1_0000_0000
    ensures DecOut(Pattern(n, false, true), false, f) != CDec(n, false, f)
  {
    var m := Pattern(n, false, true);
    assert m != n && m != 0 && SignedValue(m, false) == m;
    DecRoundTripValue(m, f);
    FieldValue(n, f);
    assert CDec(n, false, f) == CField("", Digits(n, 10, false), f);
  }

  lemma DecRoundTripValue(m: nat, f: Flags)
    requires 0 < m < WORD
    ensures Strtol(DecOut(m, false, f), 10).0 == m
  {
    hide DecOut;
    var blanks, sg, zeros := DecShape(m, false, f);
    assert Magnitude(m, false) == m && !Negative(m, false);
    ParsePadded(blanks, sg, zeros, m);
  }

  // What the code prints for a directive is C's text if and only if the call is no misfit.
  lemma DirectiveMatches(d: Spec, args: seq<Arg>, k: nat)
    requires GoodSpec(d) && Typed(d, args, k)
    ensures Directive(d.conv, Wanted(d, args, k), args, ValueAt(d, k)) == CConversion(d, args, k)
       <==> !Misfit(d, args, k)
  {
    hide DecOut;
    hide HexOut;
    hide CDec;
    hide CHex;
    hide CString;
    hide DecMisfit;
    hide HexMisfit;
    hide StringMisfit;
    hide Pattern;
    hide SignedValue;
    hide GoodSpec;
    var v, f := ValueAt(d, k), Wanted(d, args, k);
    if d.conv in "di" {
      var n := args[v].n;
      DecDirective(n, f.long, f);
      DecText(Pattern(n, f.long, true), true, f);
    } else if d.conv == 'u' {
      UnsignedMatches(args[v].n, f);
    } else if d.conv in "xXp" {
      var n := args[v].n;
      HexPattern(n, d.conv == 'p' || f.long);
      HexText(n, d.conv == 'X', d.conv == 'p', f);
    } else if d.conv == 's' {
      StringKept(if args[v].Str? then args[v].s else "(null)", f);
    } else if d.conv == 'c' {
      CharKept(args[v].c, f);
    }
  }

  lemma HexPattern(n: nat, long: bool)
    requires n < if long then 0x1_0000_0000_0000_0000 else 0x1_0000_0000
    ensures Pattern(n, long, false) == n
  {
  }

  lemma CharKept(c: char, f: Flags)
    ensures CString([c], f.(prec := -1)) == [c] <==> -1 <= f.width <= 1
  {
    StringKept([c], f.(prec := -1));
  }

  lemma UnsignedMatches(n: nat, f: Flags)
    requires n < if f.long then 0x1_0000_0000_0000_0000 else 0x1_0000_0000
    ensures DecOut(Pattern(n, f.long, true), false, f) == CDec(n, false, f)
       <==> !((!f.long && n >= 0x8000_0000) || DecMisfit(n, false, f))
  {
    if !f.long && n >= 0x8000_0000 {
      WideUnsigned(n, f);
    } else {
      assert Pattern(n, f.long, true) == n && SignedValue(n, false) == n;
      DecText(n, false, f);
    }
  }

  // ---------------------------------------------------------------------------------
  // The loop on a directive.

  lemma PercentRead(rest: string, f: Flags, args: seq<Arg>, k: nat)
    requires !f.inFormat
    ensures Emit(Cursor("%" + rest, f, k), args) == Emit(Cursor(rest, START, k), args)
  {
    var c := Cursor("%" + rest, f, k);
    assert c.fmt[0] == '%' && c.fmt[1..] == rest;
    assert Advance(c, args) == (Cursor(rest, START, k), "");
    hide Advance;
  }

  lemma FlagRead(c: char, f: Flags)
    requires c in "#0+ "
    ensures IsFlag(c)
    ensures SetFlag(c, f)
         == f.(sharp := f.sharp || c == '#', zero := f.zero || c == '0', space := f.space || c == ' ',
               sign := f.sign || c == '+')
  {
  }

  lemma HeadOrTail(s: string, c: char)
    requires s != ""
    ensures c in s <==> c == s[0] || c in s[1..]
  {
    assert s == [s[0]] + s[1..];
  }

  lemma {:induction false} FlagsRead(mods: string, f: Flags)
    requires forall i :: 0 <= i < |mods| ==> mods[i] in "#0+ "
    ensures AllFlags(mods)
    ensures SetFlags(mods, f)
         == f.(sharp := f.sharp || '#' in mods, zero := f.zero || '0' in mods, space := f.space || ' ' in mods,
               sign := f.sign || '+' in mods)
    decreases |mods|
  {
    if mods != "" {
      FlagRead(mods[0], f);
      HeadOrTail(mods, '#');
      HeadOrTail(mods, '0');
      HeadOrTail(mods, ' ');
      HeadOrTail(mods, '+');
      FlagsRead(mods[1..], SetFlag(mods[0], f));
      hide SetFlag;
      hide IsFlag;
    }
  }

  lemma {:induction false} LongsRead(mods: string, f: Flags)
    requires forall i :: 0 <= i < |mods| ==> mods[i] in "lztj"
    ensures AllFlags(mods) && SetFlags(mods, f) == f.(long := f.long || mods != "")
    decreases |mods|
  {
    if mods != "" { LongsRead(mods[1..], SetFlag(mods[0], f)); }
  }

  lemma CountParses(n: nat, rest: string)
    requires rest != "" && DigitVal(rest[0]) >= 10
    ensures Strtol(Digits(n, 10, false) + rest, 10) == (n, rest)
    ensures DigitVal((Digits(n, 10, false) + rest)[0]) < 10
  {
    var d := Digits(n, 10, false);
    DigitsAreDigits(n, 10, false);
    ValueOfDigits(n, 10, false);
    DigitsStop(d, rest, 10, 0);
    var s := d + rest;
    assert s[0] == d[0] && DigitVal(d[0]) < 10;
    assert SkipSpaces(s) == s && Unsign(s) == s && Prefix(s, 10) == (10, s);
    hide Value;
    hide AfterDigits;
    hide Digits;
  }

  // One round of the loop that prints nothing.
  lemma QuietStep(c: Cursor, next: Cursor, args: seq<Arg>)
    requires c.fmt != "" && Advance(c, args) == (next, "")
    ensures Emit(c, args) == Emit(next, args)
  {
    hide Advance;
  }

  lemma StarWidth(rest: string, f: Flags, args: seq<Arg>, k: nat)
    requires f.inFormat && IntAt(args, k)
    ensures Emit(Cursor("*" + rest, f, k), args) == Emit(Cursor(rest, f.(width := args[k].n), k + 1), args)
  {
    var c := Cursor("*" + rest, f, k);
    assert c.fmt[0] == '*' && c.fmt[1..] == rest && AsInt(args[k].n) == args[k].n;
    QuietStep(c, Cursor(rest, f.(width := args[k].n), k + 1), args);
  }

  lemma WidthRead(c: Count, rest: string, f: Flags, args: seq<Arg>, k: nat)
    requires f.inFormat && rest != "" && DigitVal(rest[0]) >= 10
    requires (c.Number? ==> 1 <= c.n < INT_LIMIT) && (c.Star? ==> IntAt(args, k))
    ensures Emit(Cursor(CountText(c) + rest, f, k), args)
         == Emit(Cursor(rest, if c.Absent? then f else f.(width := CountValue(c, 0, args, k)), k + Stars(c)), args)
  {
    hide Emit;
    hide Digits;
    hide DigitVal;
    hide Strtol;
    hide IntAt;
    match c
    case Absent => assert "" + rest == rest;
    case Number(n) =>
      FirstDigit(n);
      CountParses(n, rest);
      assert (Digits(n, 10, false) + rest)[0] == Digits(n, 10, false)[0];
      WidthStep(Digits(n, 10, false) + rest, n, rest, f, args, k);
    case Star => StarWidth(rest, f, args, k);
  }

  lemma StarPrec(rest: string, f: Flags, args: seq<Arg>, k: nat)
    requires f.inFormat && IntAt(args, k)
    ensures Emit(Cursor(".*" + rest, f, k), args) == Emit(Cursor(rest, f.(prec := args[k].n), k + 1), args)
  {
    hide Emit;
    hide Directive;
    var c := Cursor(".*" + rest, f, k);
    assert c.fmt[0] == '.' && c.fmt[1..] == "*" + rest && c.fmt[1..][0] == '*' && c.fmt[1..][1..] == rest;
    assert AsInt(args[k].n) == args[k].n;
    QuietStep(c, Cursor(rest, f.(prec := args[k].n), k + 1), args);
  }

  lemma PrecRead(c: Count, rest: string, f: Flags, args: seq<Arg>, k: nat)
    requires f.inFormat && rest != "" && DigitVal(rest[0]) >= 10
    requires (c.Number? ==> c.n < INT_LIMIT) && (c.Star? ==> IntAt(args, k))
    ensures Emit(Cursor(PrecText(c) + rest, f, k), args)
         == Emit(Cursor(rest, if c.Absent? then f else f.(prec := CountValue(c, -1, args, k)), k + Stars(c)), args)
  {
    hide Emit;
    hide Digits;
    hide DigitVal;
    hide Strtol;
    hide IntAt;
    match c
    case Absent => assert "" + rest == rest;
    case Number(n) =>
      var t := Digits(n, 10, false) + rest;
      assert PrecText(c) + rest == "." + t && ("." + t)[1..] == t;
      CountParses(n, rest);
      DotStep("." + t, t, n, rest, f, args, k);
    case Star =>
      assert PrecText(c) + rest == ".*" + rest;
      StarPrec(rest, f, args, k);
  }

  lemma DotStep(s: string, t: string, n: nat, rest: string, f: Flags, args: seq<Arg>, k: nat)
    requires f.inFormat && n < INT_LIMIT && s != "" && s[0] == '.' && s[1..] == t
    requires t != "" && DigitVal(t[0]) < 10 && Strtol(t, 10) == (n, rest)
    ensures Emit(Cursor(s, f, k), args) == Emit(Cursor(rest, f.(prec := n), k), args)
  {
    hide Strtol;
    assert AsInt(n) == n && t[0] != '*';
    QuietStep(Cursor(s, f, k), Cursor(rest, f.(prec := n), k), args);
  }

  lemma IsConversion(conv: char)
    requires conv !in "#0lztj+ *.123456789"
    ensures !IsFlag(conv) && conv != '*' && conv != '.' && !('1' <= conv <= '9')
    ensures Takes(conv) <==> conv in "diuxXpscn"
  {
    DigitChars(conv);
  }

  lemma ConversionRead(conv: char, rest: string, f: Flags, args: seq<Arg>, k: nat)
    requires f.inFormat && conv !in "#0lztj+ *.123456789"
    ensures Emit(Cursor([conv] + rest, f, k), args)
         == Directive(conv, f, args, k)
            + Emit(Cursor(rest, f.(inFormat := false), if conv in "diuxXpscn" then k + 1 else k), args)
  {
    IsConversion(conv);
    hide Directive;
    hide IsFlag;
    hide Takes;
    AsItStands(Cursor([conv] + rest, f, k), args);
    assert ([conv] + rest)[1..] == rest;
  }

  lemma AsItStands(c: Cursor, args: seq<Arg>)
    requires c.fmt != "" && c.f.inFormat && !IsFlag(c.fmt[0]) && c.fmt[0] != '*' && c.fmt[0] != '.'
    requires !('1' <= c.fmt[0] <= '9')
    ensures Emit(c, args)
         == Directive(c.fmt[0], c.f, args, c.k)
            + Emit(Cursor(c.fmt[1..], c.f.(inFormat := false), if Takes(c.fmt[0]) then c.k + 1 else c.k), args)
  {
    hide Directive;
    hide IsFlag;
    hide Takes;
    assert Advance(c, args)
        == (Cursor(c.fmt[1..], c.f.(inFormat := false), if Takes(c.fmt[0]) then c.k + 1 else c.k),
            Directive(c.fmt[0], c.f, args, c.k));
    hide Advance;
  }

  // Outside a directive the flags do not matter.
  lemma {:induction false} IdleFlags(fmt: string, f: Flags, g: Flags, args: seq<Arg>, k: nat)
    requires !f.inFormat && !g.inFormat
    ensures Emit(Cursor(fmt, f, k), args) == Emit(Cursor(fmt, g, k), args)
    decreases |fmt|
  {
    if fmt != "" {
      if fmt[0] == '%' {
        assert fmt == "%" + fmt[1..];
        PercentRead(fmt[1..], f, args, k);
        PercentRead(fmt[1..], g, args, k);
      } else {
        CharPrints(fmt, f, args, k);
        CharPrints(fmt, g, args, k);
        IdleFlags(fmt[1..], f, g, args, k);
      }
    }
  }

  lemma NoDigitFirst(d: Spec, rest: string)
    requires GoodSpec(d)
    ensures var t := d.longs + ([d.conv] + rest); t != "" && DigitVal(t[0]) >= 10
    ensures var t := PrecText(d.prec) + (d.longs + ([d.conv] + rest)); t != "" && DigitVal(t[0]) >= 10
  {
    var t := d.longs + ([d.conv] + rest);
    assert t[0] == if d.longs == "" then d.conv else d.longs[0];
    NotADigit(t[0]);
    assert (PrecText(d.prec) + t)[0] == if d.prec.Absent? then t[0] else '.';
  }

  lemma DigitChars(c: char)
    ensures '0' <= c <= '9' ==> c in "0123456789"
    ensures '1' <= c <= '9' ==> c in "123456789"
  {
    if '0' <= c <= '9' { assert c == "0123456789"[c as int - '0' as int]; }
    if '1' <= c <= '9' { assert c == "123456789"[c as int - '1' as int]; }
  }

  lemma NotADigit(c: char)
    requires c !in "0123456789"
    ensures DigitVal(c) >= 10
  {
    DigitChars(c);
  }

  // The flags after the flag characters, the width, the precision and the length letters.
  function Flags1(d: Spec): Flags { SetFlags(d.flags, START) }

  function Flags2(d: Spec, args: seq<Arg>, k: nat): Flags
    requires Typed(d, args, k)
  {
    if d.width.Absent? then Flags1(d) else Flags1(d).(width := CountValue(d.width, 0, args, k))
  }

  function Flags3(d: Spec, args: seq<Arg>, k: nat): Flags
    requires Typed(d, args, k)
  {
    if d.prec.Absent? then Flags2(d, args, k)
    else Flags2(d, args, k).(prec := CountValue(d.prec, -1, args, k + Stars(d.width)))
  }

  lemma FlagsAreWanted(d: Spec, args: seq<Arg>, k: nat)
    requires GoodSpec(d) && Typed(d, args, k)
    ensures AllFlags(d.flags) && AllFlags(d.longs)
    ensures Flags1(d).inFormat && Flags2(d, args, k).inFormat && Flags3(d, args, k).inFormat
    ensures SetFlags(d.longs, Flags3(d, args, k)) == Wanted(d, args, k)
  {
    FlagsRead(d.flags, START);
    LongsRead(d.longs, Flags3(d, args, k));
    hide SetFlags;
    hide AllFlags;
    hide IntAt;
  }

  // A directive is read to its flags, width and precision, and printed; the loop goes on behind it.
  lemma SpecPrints(d: Spec, rest: string, f: Flags, args: seq<Arg>, k: nat)
    requires GoodSpec(d) && Typed(d, args, k) && !f.inFormat
    ensures Emit(Cursor(SpecThen(d, rest), f, k), args)
         == Directive(d.conv, Wanted(d, args, k), args, ValueAt(d, k))
            + Emit(Cursor(rest, INITIAL, NextArg(d, k)), args)
  {
    hide Emit;
    hide Directive;
    hide SetFlags;
    hide AllFlags;
    hide DigitVal;
    hide CountText;
    hide PrecText;
    hide CountValue;
    hide Flags1;
    hide Wanted;
    hide IntAt;
    var t1 := d.longs + ([d.conv] + rest);
    var t2 := PrecText(d.prec) + t1;
    FlagsAreWanted(d, args, k);
    NoDigitFirst(d, rest);
    PercentRead(d.flags + (CountText(d.width) + t2), f, args, k);
    ModsRead(d, t2, args, k);
    WidthRead(d.width, t2, Flags1(d), args, k);
    PrecRead(d.prec, t1, Flags2(d, args, k), args, k + Stars(d.width));
    FlagsAreSet(d.longs, [d.conv] + rest, Flags3(d, args, k), args, ValueAt(d, k));
    ConversionRead(d.conv, rest, Wanted(d, args, k), args, ValueAt(d, k));
    IdleFlags(rest, Wanted(d, args, k).(inFormat := false), INITIAL, args, NextArg(d, k));
  }

  lemma ModsRead(d: Spec, t2: string, args: seq<Arg>, k: nat)
    requires AllFlags(d.flags)
    ensures Emit(Cursor(d.flags + (CountText(d.width) + t2), START, k), args)
         == Emit(Cursor(CountText(d.width) + t2, Flags1(d), k), args)
  {
    hide Emit;
    hide SetFlags;
    hide AllFlags;
    FlagsAreSet(d.flags, CountText(d.width) + t2, START, args, k);
  }

  // Text, one directive, text: printed as C prints it, exactly when the call is no misfit.
  lemma OneDirective(before: string, d: Spec, after: string, args: seq<Arg>)
    requires '%' !in before && '%' !in after && GoodSpec(d) && Typed(d, args, 0)
    ensures Emit(Cursor(before + SpecThen(d, after), INITIAL, 0), args)
         == before + Directive(d.conv, Wanted(d, args, 0), args, ValueAt(d, 0)) + after
    ensures (Emit(Cursor(before + SpecThen(d, after), INITIAL, 0), args) == before + CConversion(d, args, 0) + after)
       <==> !Misfit(d, args, 0)
  {
    PlainText(before, SpecThen(d, after), INITIAL, args, 0);
    SpecPrints(d, after, INITIAL, args, 0);
    PlainText(after, "", INITIAL, args, NextArg(d, 0));
    assert after + "" == after && Emit(Cursor("", INITIAL, NextArg(d, 0)), args) == "";
    DirectiveMatches(d, args, 0);
    hide *;
    var a, b := Directive(d.conv, Wanted(d, args, 0), args, ValueAt(d, 0)), CConversion(d, args, 0);
    Assoc(before, a, after);
    Inside(before, a, b, after);
  }

  lemma Inside(before: string, a: string, b: string, after: string)
    ensures before + a + after == before + b + after <==> a == b
  {
    var s, t := before + a + after, before + b + after;
    if s == t {
      assert |a| == |b|;
      assert a == s[|before|..|before| + |a|] && b == t[|before|..|before| + |b|];
    }
  }

  // Any format made of text and directives: when no call of it is a misfit, the loop prints what
  // printf of C prints.
  lemma {:induction false} PrintsAsC(ps: seq<Piece>, args: seq<Arg>, k: nat)
    requires GoodFormat(ps) && AllTyped(ps, args, k) && NoMisfit(ps, args, k)
    ensures Emit(Cursor(FormatOf(ps), INITIAL, k), args) == CPrintf(ps, args, k)
    decreases |ps|
  {
    if ps != [] {
      var rest := FormatOf(ps[1..]);
      assert GoodFormat(ps[1..]);
      match ps[0]
      case Text(s) =>
        PlainText(s, rest, INITIAL, args, k);
        PrintsAsC(ps[1..], args, k);
      case Conv(d) =>
        SpecPrints(d, rest, INITIAL, args, k);
        DirectiveMatches(d, args, k);
        PrintsAsC(ps[1..], args, NextArg(d, k));
    }
  }

  // Strings as the repository prints them.
  lemma StringPrints(before: string, s: string, after: string)
    requires '%' !in before && '%' !in after
    ensures Emit(Cursor(before + ("%s" + after), INITIAL, 0), [Str(s)]) == before + s + after
    ensures Emit(Cursor(before + ("%s" + after), INITIAL, 0), [Null]) == before + "(null)" + after
  {
    var d := Spec("", Absent, Absent, "", 's');
    assert SpecThen(d, after) == "%s" + after;
    OneDirective(before, d, after, [Str(s)]);
    OneDirective(before, d, after, [Null]);
    assert Directive('s', Wanted(d, [Str(s)], 0), [Str(s)], 0) == s;
    hide Emit;
  }

  // %u of the least number that does not fit int: C prints 2147483648, the code something else.
  lemma UnsignedMisprints()
    ensures CDec(0x8000_0000, false, START) == "2147483648"
    ensures Emit(Cursor("%u", INITIAL, 0), [Num(0x8000_0000)]) != "2147483648"
  {
    var d := Spec("", Absent, Absent, "", 'u');
    var args := [Num(0x8000_0000)];
    UnsignedCall(d, args);
    SmallText();
    hide *;
    OneDirective("", d, "", args);
    Bare(SpecThen(d, ""));
    Bare(CConversion(d, args, 0));
  }

  lemma Bare(s: string)
    ensures "" + s == s && "" + s + "" == s
  {
  }

  lemma UnsignedCall(d: Spec, args: seq<Arg>)
    requires d == Spec("", Absent, Absent, "", 'u') && args == [Num(0x8000_0000)]
    ensures '%' !in "" && GoodSpec(d) && Typed(d, args, 0) && Misfit(d, args, 0) && SpecThen(d, "") == "%u"
    ensures CConversion(d, args, 0) == CDec(0x8000_0000, false, START)
  {
    assert Wanted(d, args, 0) == START;
    hide CDec;
    hide DecMisfit;
  }

  lemma SmallText()
    ensures CDec(0x8000_0000, false, START) == "2147483648"
  {
    hide *;
    PlainDec(0x8000_0000);
    FirstTwo();
    var t := "2147483648";
    NextDigit(t, 2, 21, 4);
    NextDigit(t, 3, 214, 7);
    NextDigit(t, 4, 2147, 4);
    NextDigit(t, 5, 21474, 8);
    NextDigit(t, 6, 214748, 3);
    NextDigit(t, 7, 2147483, 6);
    NextDigit(t, 8, 21474836, 4);
    NextDigit(t, 9, 214748364, 8);
    assert t[..10] == t;
  }

  lemma FirstTwo()
    ensures Digits(21, 10, false) == "2147483648"[..2]
  {
    assert Digits(2, 10, false) == "2";
  }

  // Without flags, width and precision a number is its digits.
  lemma PlainDec(n: nat)
    ensures CDec(n, false, START) == Digits(n, 10, false)
  {
    FieldShape(Digits(n, 10, false), START);
    hide CField;
    hide Digits;
    assert Repeat('0', 0) == "" && "" + Digits(n, 10, false) == Digits(n, 10, false);
    assert Digits(n, 10, false) + "" == Digits(n, 10, false);
  }

  // ---------------------------------------------------------------------------------
  // %n, behind anything.

  // The loop comes from c to d and has printed out by then.
  ghost predicate Reaches(c: Cursor, args: seq<Arg>, out: string, d: Cursor)
    decreases |c.fmt|
  {
    || (c == d && out == "")
    || (c.fmt != "" && Advance(c, args).1 <= out
        && Reaches(Advance(c, args).0, args, out[|Advance(c, args).1|..], d))
  }

  // A %n stores how many characters were printed before it, whatever directives they came from.
  lemma {:induction false} StoresWhatWasPrinted(c: Cursor, args: seq<Arg>, n: nat, out: string, d: Cursor)
    requires Reaches(c, args, out, d) && d.fmt != "" && d.f.inFormat && d.fmt[0] == 'n'
    ensures Emit(c, args) == out + Emit(d, args) && (d.k, n + |out|) in Stores(c, args, n)
    decreases |c.fmt|
  {
    hide Advance;
    if c == d && out == "" {
      assert "" + Emit(d, args) == Emit(d, args);
      assert Stores(d, args, n)[0] == (d.k, n);
    } else {
      var next, o := Advance(c, args).0, Advance(c, args).1;
      StoresWhatWasPrinted(next, args, n + |o|, out[|o|..], d);
      assert out == o + out[|o|..];
      Assoc(o, out[|o|..], Emit(d, args));
    }
  }
}
