/**
 The syntax of directives: how flags, width, precision and length modifier are written, and that
 the interpreter reads back exactly what was written.
 */
module DirectiveSyntax {
  import opened Ksprintn
  import opened MachineTypes
  import opened PrintfText

  /** A width or precision: nothing, a decimal number, or an asterisk that takes an int argument. */
  datatype Amount = Nothing | Given(n: nat) | Star(bits: u32)

  /** What stands between the percent sign and the conversion character: switches in any order, which may be
      repeated, and then width, precision and length modifier. */
  datatype Syntax = Syntax(switches: string, width: Amount, precision: Option<Amount>, modifier: string) {
    predicate Valid() {
      (forall i | 0 <= i < |switches| :: switches[i] in "-0#+") &&
      (width.Given? ==> width.n > 0) && modifier in ["", "hh", "h", "l", "ll", "j", "q", "t", "z"]
    }
  }

  const PLAIN: Syntax := Syntax("", Nothing, None, "")

  // ----- Writing

  function AmountText(a: Amount): string {
    match a
    case Nothing => ""
    case Given(n) => Digits(n, 10, false)
    case Star(_) => "*"
  }

  function PrecisionText(p: Option<Amount>): string {
    if p.None? then "" else "." + AmountText(p.value)
  }

  function Text(x: Syntax): string {
    x.switches + (AmountText(x.width) + (PrecisionText(x.precision) + x.modifier))
  }

  function AmountArgs(a: Amount): seq<Arg> {
    if a.Star? then [Word(a.bits)] else []
  }

  function PrecisionArgs(p: Option<Amount>): seq<Arg> {
    if p.Some? then AmountArgs(p.value) else []
  }

  /** The arguments that the asterisks take, width first. */
  function StarArgs(x: Syntax): seq<Arg> {
    AmountArgs(x.width) + PrecisionArgs(x.precision)
  }

  // ----- Meaning

  function AmountValue(a: Amount): int {
    match a
    case Nothing => 0
    case Given(n) => n
    case Star(bits) => SignedWord(bits)
  }

  /** The flags but for precision and length modifier. A negative width taken from an argument is its
      absolute value, justified to the other side. */
  function MeantWidth(x: Syntax): Flags {
    var w := AmountValue(x.width);
    Flags(zero := '0' in x.switches,
          width := if w < 0 then -w else w,
          dwidth := 0,
          left := if w < 0 then '-' !in x.switches else '-' in x.switches,
          sharp := '#' in x.switches,
          sign := '+' in x.switches,
          dot := false,
          c := false, h := false, j := false, l := false, q := false, t := false, z := false)
  }

  /** The flags but for the length modifier. */
  function MeantAmounts(x: Syntax): Flags {
    if x.precision.None? then MeantWidth(x)
    else MeantWidth(x).(dot := true, dwidth := AmountValue(x.precision.value))
  }

  /** The flags that a directive stands for. */
  function Meant(x: Syntax): Flags {
    MeantAmounts(x).(c := x.modifier == "hh",
                     h := x.modifier == "h",
                     j := x.modifier == "j",
                     l := x.modifier == "l",
                     q := x.modifier == "ll" || x.modifier == "q",
                     t := x.modifier == "t",
                     z := x.modifier == "z")
  }

  // ----- Reading, piece by piece

  /** s stands at position i of a format, with more after it. */
  predicate At(fmt: string, i: nat, s: string) {
    i + |s| < |fmt| && fmt[i..i + |s|] == s
  }

  lemma AtSplit(fmt: string, i: nat, a: string, b: string)
    requires At(fmt, i, a + b)
    ensures At(fmt, i, a) && At(fmt, i + |a|, b)
  {
    assert fmt[i..i + |a|] == fmt[i..i + |a + b|][..|a|] == a;
    assert fmt[i + |a|..i + |a| + |b|] == fmt[i..i + |a + b|][|a|..] == b;
  }

  lemma CharAt(fmt: string, i: nat, s: string)
    requires At(fmt, i, s) && s != ""
    ensures i < |fmt| && fmt[i] == s[0]
  {
    assert fmt[i..i + |s|][0] == fmt[i];
  }

  /** One flag character. */
  lemma ReadFlag(fmt: string, pct: nat, i: nat, f: Flags, args: seq<Arg>, radix: nat, ch: char)
    requires pct < i && 2 <= radix <= 36 && At(fmt, i, [ch]) && IsFlag(f, ch)
    ensures Directive(fmt, pct, i, f, args, radix) == Directive(fmt, pct, i + 1, WithFlag(f, ch), args, radix)
  {
    hide Conversion, WithFlag, WithNumber, WithStar, IsFlag;
    CharAt(fmt, i, [ch]);
  }

  lemma DecimalDigit(d: nat)
    requires d < 10
    ensures IsDecimal(DigitChar(d, false)) && DigitChar(d, false) as int - '0' as int == d
  {}

  /** One more digit. */
  lemma ReadDigit(fmt: string, i: nat, n: nat, d: nat)
    requires i < |fmt| && d < 10 && fmt[i] == DigitChar(d, false)
    ensures Number(fmt, i, n) == Number(fmt, i + 1, n * 10 + d)
  {
    hide DigitChar;
    DecimalDigit(d);
  }

  lemma TenSteps(num: nat)
    ensures num / 10 * 10 + num % 10 == num
  {}

  /** A decimal number is read digit by digit. */
  lemma {:induction false} ReadDigits(fmt: string, i: nat, num: nat)
    requires At(fmt, i, Digits(num, 10, false))
    ensures Number(fmt, i, 0) == Number(fmt, i + |Digits(num, 10, false)|, num)
    decreases num
  {
    hide DigitChar, Digits, Number, At;
    var d := Digits(num, 10, false);
    var init, last := d[..|d| - 1], d[|d| - 1];
    DigitsStep(num, 10, false);
    assert d == init + [last];
    AtSplit(fmt, i, init, [last]);
    CharAt(fmt, i + |init|, [last]);
    if num >= 10 {
      ReadDigits(fmt, i, num / 10);
    } else {
      assert init == "" && num / 10 == 0;
    }
    ReadDigit(fmt, i + |init|, num / 10, num % 10);
    TenSteps(num);
  }

  lemma TenIsDecimal(ch: char)
    requires IsDigit(ch) && DigitValue(ch) < 10
    ensures IsDecimal(ch)
  {}

  /** The first digit of a number is decimal, and not the zero flag unless the number is zero. */
  lemma FirstDigit(num: nat)
    ensures var ch := Digits(num, 10, false)[0]; IsDecimal(ch) && (ch == '0' <==> num == 0)
  {
    hide Digits, DigitChar, DigitValue;
    NoLeadingZero(num, 10, false);
    DigitsAreDigits(num, 10, false);
    var ch := Digits(num, 10, false)[0];
    assert ch in Digits(num, 10, false);
    TenIsDecimal(ch);
  }

  function WithAmount(f: Flags, a: Amount): Flags {
    match a
    case Nothing => f
    case Given(n) => WithNumber(f, n)
    case Star(bits) => WithStar(f, SignedWord(bits))
  }

  lemma AtLength(fmt: string, i: nat, s: string)
    requires At(fmt, i, s)
    ensures i + |s| < |fmt|
  {}

  lemma ReadGiven(fmt: string, pct: nat, i: nat, f: Flags, n: nat, args: seq<Arg>, radix: nat)
    requires pct < i && 2 <= radix <= 36 && At(fmt, i, Digits(n, 10, false))
    requires !IsDecimal(fmt[i + |Digits(n, 10, false)|]) && (!f.dot ==> n > 0)
    ensures Directive(fmt, pct, i, f, args, radix) ==
            Directive(fmt, pct, i + |Digits(n, 10, false)|, WithNumber(f, n), args, radix)
  {
    hide Conversion, WithFlag, WithNumber, WithStar, Digits, At;
    FirstDigit(n);
    CharAt(fmt, i, Digits(n, 10, false));
    AtLength(fmt, i, Digits(n, 10, false));
    ReadDigits(fmt, i, n);
  }

  lemma ReadStar(fmt: string, pct: nat, i: nat, f: Flags, bits: u32, args: seq<Arg>, radix: nat)
    requires pct < i && 2 <= radix <= 36 && At(fmt, i, "*")
    ensures Directive(fmt, pct, i, f, [Word(bits)] + args, radix) ==
            Directive(fmt, pct, i + 1, WithStar(f, SignedWord(bits)), args, radix)
  {
    hide Conversion, WithFlag, WithNumber, WithStar, At;
    CharAt(fmt, i, "*");
    var all := [Word(bits)] + args;
    assert all[0] == Word(bits) && all[1..] == args;
  }

  /** A width or precision, when no digit follows it. */
  lemma ReadAmount(fmt: string, pct: nat, i: nat, f: Flags, a: Amount, args: seq<Arg>, radix: nat)
    requires pct < i && 2 <= radix <= 36 && At(fmt, i, AmountText(a))
    requires !IsDecimal(fmt[i + |AmountText(a)|]) && (a.Given? && !f.dot ==> a.n > 0)
    ensures Directive(fmt, pct, i, f, AmountArgs(a) + args, radix) ==
            Directive(fmt, pct, i + |AmountText(a)|, WithAmount(f, a), args, radix)
  {
    hide Directive, WithNumber, WithStar, Digits;
    assert [] + args == args;
    match a
    case Nothing =>
    case Given(n) =>
      ReadGiven(fmt, pct, i, f, n, args, radix);
    case Star(bits) =>
      ReadStar(fmt, pct, i, f, bits, args, radix);
  }

  lemma PointStep(f: Flags)
    ensures IsFlag(f, '.') && WithFlag(f, '.') == f.(dot := true)
  {}

  /** The flags after a precision. */
  function WithPrecision(f: Flags, p: Option<Amount>): Flags {
    if p.Some? then WithAmount(f.(dot := true), p.value) else f
  }

  /** The precision, and the point before it. */
  lemma ReadPrecision(fmt: string, pct: nat, i: nat, f: Flags, p: Option<Amount>, args: seq<Arg>, radix: nat)
    requires pct < i && 2 <= radix <= 36 && At(fmt, i, PrecisionText(p))
    requires !IsDecimal(fmt[i + |PrecisionText(p)|])
    ensures Directive(fmt, pct, i, f, PrecisionArgs(p) + args, radix) ==
            Directive(fmt, pct, i + |PrecisionText(p)|, WithPrecision(f, p), args, radix)
  {
    hide WithAmount, AmountText, AmountArgs, Directive, At, WithFlag, IsFlag;
    if p.None? {
      assert [] + args == args;
    } else {
      AtSplit(fmt, i, ".", AmountText(p.value));
      AtLength(fmt, i, PrecisionText(p));
      PointStep(f);
      ReadFlag(fmt, pct, i, f, AmountArgs(p.value) + args, radix, '.');
      ReadAmount(fmt, pct, i + 1, f.(dot := true), p.value, args, radix);
    }
  }

  /** The flags after a length modifier. */
  function WithModifier(f: Flags, m: string): Flags {
    match |m|
    case 0 => f
    case 1 => WithFlag(f, m[0])
    case _ => WithFlag(WithFlag(f, m[0]), m[1])
  }

  lemma ReadModifier(fmt: string, pct: nat, i: nat, f: Flags, m: string, args: seq<Arg>, radix: nat)
    requires pct < i && 2 <= radix <= 36 && At(fmt, i, m) && |m| <= 2
    requires forall k | 0 <= k < |m| :: m[k] in "hjlqtz"
    ensures Directive(fmt, pct, i, f, args, radix) ==
            Directive(fmt, pct, i + |m|, WithModifier(f, m), args, radix)
  {
    hide Directive, WithFlag;
    if |m| >= 1 {
      assert m == [m[0]] + m[1..];
      AtSplit(fmt, i, [m[0]], m[1..]);
      ReadFlag(fmt, pct, i, f, args, radix, m[0]);
    }
    if |m| == 2 {
      assert m[1..] == [m[1]];
      ReadFlag(fmt, pct, i + 1, WithFlag(f, m[0]), args, radix, m[1]);
    }
  }

  // ----- The whole directive

  /** Characters that end the part before them: neither digits, nor asterisks, nor flags. */
  predicate EndsDirective(ch: char) {
    !IsDecimal(ch) && ch !in ".#+-hjlqtz*"
  }

  function Switched(f: Flags, left: bool, zero: bool, sharp: bool, sign: bool): Flags {
    f.(left := f.left || left, zero := f.zero || zero, sharp := f.sharp || sharp, sign := f.sign || sign)
  }

  /** The flags after some switches. */
  function WithSwitches(f: Flags, s: string): Flags {
    Switched(f, '-' in s, '0' in s, '#' in s, '+' in s)
  }

  /** The flags after each part. */
  function AfterSwitches(x: Syntax): Flags {
    WithSwitches(NO_FLAGS, x.switches)
  }

  function AfterWidth(x: Syntax): Flags {
    WithAmount(AfterSwitches(x), x.width)
  }

  function AfterPrecision(x: Syntax): Flags {
    WithPrecision(AfterWidth(x), x.precision)
  }

  lemma GivenWidth(x: Syntax)
    requires x.width.Given?
    ensures AfterWidth(x) == MeantWidth(x)
  {}

  lemma NoWidth(x: Syntax)
    requires x.width.Nothing?
    ensures AfterWidth(x) == MeantWidth(x)
  {}

  lemma StarWidth(x: Syntax)
    requires x.width.Star?
    ensures AfterWidth(x) == MeantWidth(x)
  {}

  lemma ModifierShape(m: string)
    requires m in ["", "hh", "h", "l", "ll", "j", "q", "t", "z"]
    ensures |m| <= 2 && forall k | 0 <= k < |m| :: m[k] in "hjlqtz"
  {}

  lemma ModifierFlags(f: Flags, m: string)
    requires m in ["", "hh", "h", "l", "ll", "j", "q", "t", "z"]
    requires !f.c && !f.h && !f.j && !f.l && !f.q && !f.t && !f.z
    ensures |m| <= 2 && forall k | 0 <= k < |m| :: m[k] in "hjlqtz"
    ensures WithModifier(f, m) == f.(c := m == "hh", h := m == "h", j := m == "j", l := m == "l",
                                     q := m == "ll" || m == "q", t := m == "t", z := m == "z")
  {
    ModifierShape(m);
  }

  lemma PrecisionFlags(f: Flags, a: Amount)
    requires f.dot && f.dwidth == 0
    ensures WithAmount(f, a) == f.(dwidth := AmountValue(a))
  {}

  lemma AmountFlags(x: Syntax)
    ensures AfterPrecision(x) == MeantAmounts(x)
  {
    hide AfterWidth, WithAmount, AmountValue;
    if x.precision.Some? {
      PrecisionFlags(MeantWidth(x).(dot := true), x.precision.value);
    }
    match x.width
    case Nothing =>
      NoWidth(x);
    case Given(_) =>
      GivenWidth(x);
    case Star(_) =>
      StarWidth(x);
  }

  lemma NoModifierYet(x: Syntax)
    ensures var f := MeantAmounts(x); !f.c && !f.h && !f.j && !f.l && !f.q && !f.t && !f.z
  {}

  lemma AllFlags(x: Syntax)
    requires x.Valid()
    ensures WithModifier(AfterPrecision(x), x.modifier) == Meant(x)
  {
    hide AfterPrecision, MeantAmounts, WithModifier;
    AmountFlags(x);
    NoModifierYet(x);
    ModifierFlags(MeantAmounts(x), x.modifier);
  }

  lemma LeftStep(f: Flags, left: bool, zero: bool, sharp: bool, sign: bool)
    requires !f.dot
    ensures IsFlag(f, '-') && !WithFlag(f, '-').dot
    ensures Switched(WithFlag(f, '-'), left, zero, sharp, sign) == Switched(f, true, zero, sharp, sign)
  {}

  lemma ZeroStep(f: Flags, left: bool, zero: bool, sharp: bool, sign: bool)
    requires !f.dot
    ensures IsFlag(f, '0') && !WithFlag(f, '0').dot
    ensures Switched(WithFlag(f, '0'), left, zero, sharp, sign) == Switched(f, left, true, sharp, sign)
  {}

  lemma SharpStep(f: Flags, left: bool, zero: bool, sharp: bool, sign: bool)
    requires !f.dot
    ensures IsFlag(f, '#') && !WithFlag(f, '#').dot
    ensures Switched(WithFlag(f, '#'), left, zero, sharp, sign) == Switched(f, left, zero, true, sign)
  {}

  lemma SignStep(f: Flags, left: bool, zero: bool, sharp: bool, sign: bool)
    requires !f.dot
    ensures IsFlag(f, '+') && !WithFlag(f, '+').dot
    ensures Switched(WithFlag(f, '+'), left, zero, sharp, sign) == Switched(f, left, zero, sharp, true)
  {}

  lemma SwitchStep(f: Flags, s: string)
    requires s != "" && s[0] in "-0#+" && !f.dot
    ensures IsFlag(f, s[0]) && !WithFlag(f, s[0]).dot
    ensures WithSwitches(WithFlag(f, s[0]), s[1..]) == WithSwitches(f, s)
  {
    hide Switched, WithFlag, IsFlag;
    var t := s[1..];
    assert forall c :: c in s <==> c == s[0] || c in t;
    var left, zero, sharp, sign := '-' in t, '0' in t, '#' in t, '+' in t;
    match s[0]
    case '-' =>
      LeftStep(f, left, zero, sharp, sign);
    case '0' =>
      ZeroStep(f, left, zero, sharp, sign);
    case '#' =>
      SharpStep(f, left, zero, sharp, sign);
    case _ =>
      SignStep(f, left, zero, sharp, sign);
  }

  lemma NoSwitches(f: Flags)
    ensures WithSwitches(f, "") == f
  {}

  lemma {:induction false} ReadSwitches(fmt: string, pct: nat, i: nat, f: Flags, s: string, rest: string,
                                        args: seq<Arg>, radix: nat)
    requires pct < i && 2 <= radix <= 36 && At(fmt, i, s + rest) && !f.dot
    requires forall k | 0 <= k < |s| :: s[k] in "-0#+"
    ensures At(fmt, i + |s|, rest) &&
            Directive(fmt, pct, i, f, args, radix) == Directive(fmt, pct, i + |s|, WithSwitches(f, s), args, radix)
    decreases |s|
  {
    hide Directive, At, WithFlag, IsFlag, WithSwitches;
    if s == "" {
      NoSwitches(f);
      assert s + rest == rest;
    } else {
      SwitchStep(f, s);
      assert s + rest == [s[0]] + (s[1..] + rest);
      AtSplit(fmt, i, [s[0]], s[1..] + rest);
      ReadFlag(fmt, pct, i, f, args, radix, s[0]);
      ReadSwitches(fmt, pct, i + 1, WithFlag(f, s[0]), s[1..], rest, args, radix);
    }
  }

  lemma SwitchesHaveNoDot(x: Syntax)
    ensures !AfterSwitches(x).dot
  {}

  /** No digit follows a width or a precision. */
  lemma PartsEnd(fmt: string, i1: nat, i2: nat, i3: nat, x: Syntax)
    requires x.Valid() && i2 == i1 + |PrecisionText(x.precision)| && i3 == i2 + |x.modifier|
    requires At(fmt, i1, PrecisionText(x.precision)) && At(fmt, i2, x.modifier) && EndsDirective(fmt[i3])
    ensures !IsDecimal(fmt[i2]) && !IsDecimal(fmt[i1])
  {
    hide AmountText;
    ModifierShape(x.modifier);
    if x.modifier != "" {
      assert fmt[i2] == fmt[i2..i3][0] == x.modifier[0];
    }
    if x.precision.Some? {
      assert fmt[i1] == fmt[i1..i2][0] == '.';
    }
  }

  lemma AfterPrecisionIs(x: Syntax)
    ensures AfterPrecision(x) == WithPrecision(AfterWidth(x), x.precision)
  {}

  /** The interpreter reads the flags that were written, and takes the arguments that they need. */
  lemma DirectiveReadsBack(fmt: string, pct: nat, x: Syntax, args: seq<Arg>, radix: nat)
    requires x.Valid() && 2 <= radix <= 36
    requires At(fmt, pct + 1, Text(x)) && EndsDirective(fmt[pct + 1 + |Text(x)|])
    ensures Directive(fmt, pct, pct + 1, NO_FLAGS, StarArgs(x) + args, radix) ==
            Directive(fmt, pct, pct + 1 + |Text(x)|, Meant(x), args, radix)
  {
    hide Directive, At, AmountText, PrecisionText, AmountArgs, WithModifier, WithSwitches;
    hide AfterPrecision, Meant, WithAmount, WithPrecision, PrecisionArgs, EndsDirective;
    var pArgs := PrecisionArgs(x.precision);
    var all := StarArgs(x) + args;
    assert all == AmountArgs(x.width) + (pArgs + args);
    var tail := PrecisionText(x.precision) + x.modifier;
    ReadSwitches(fmt, pct, pct + 1, NO_FLAGS, x.switches, AmountText(x.width) + tail, all, radix);
    var e := pct + 1 + |x.switches|;
    var i1 := e + |AmountText(x.width)|;
    var i2 := i1 + |PrecisionText(x.precision)|;
    var i3 := i2 + |x.modifier|;
    AtSplit(fmt, e, AmountText(x.width), tail);
    AtSplit(fmt, i1, PrecisionText(x.precision), x.modifier);
    assert i3 == pct + 1 + |Text(x)|;
    SwitchesHaveNoDot(x);
    PartsEnd(fmt, i1, i2, i3, x);
    ReadAmount(fmt, pct, e, AfterSwitches(x), x.width, pArgs + args, radix);
    ReadPrecision(fmt, pct, i1, AfterWidth(x), x.precision, args, radix);
    AfterPrecisionIs(x);
    ModifierShape(x.modifier);
    ReadModifier(fmt, pct, i2, AfterPrecision(x), x.modifier, args, radix);
    AllFlags(x);
  }
}
