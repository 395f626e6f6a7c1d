/**
 The text of one numeric conversion: padding, sign, prefix, zeros and digits.
 */
module NumberField {
  import opened Bits
  import opened Ksprintn

  function Max(a: int, b: int): int {
    if a > b then a else b
  }

  /** n copies of c; none when n is negative. */
  function Repeat(c: char, n: int): (s: string)
    ensures |s| == Max(n, 0) && forall i | 0 <= i < |s| :: s[i] == c
    decreases Max(n, 0)
  {
    if n <= 0 then "" else [c] + Repeat(c, n - 1)
  }

  /** What a numeric directive asks for. */
  datatype Layout = Layout(width: int, precision: int, left: bool, zeroPad: bool, alternate: bool, base: nat,
                           upper: bool) {
    predicate Valid() {
      2 <= base <= 36
    }
  }

  function Prefix(f: Layout, num: nat): string {
    if f.alternate && num != 0 then (if f.base == 8 then "0" else if f.base == 16 then "0x" else "") else ""
  }

  function Sign(neg: bool): string {
    if neg then "-" else ""
  }

  /** The characters before the digits and zeros. */
  function Lead(f: Layout, neg: bool, num: nat): nat {
    |Sign(neg)| + |Prefix(f, num)|
  }

  /** The least number of digits: a right-justified zero-padded field turns its width into digits. */
  function MinDigits(f: Layout, neg: bool, num: nat): int {
    if !f.left && f.zeroPad then f.width - Lead(f, neg, num) else f.precision
  }

  /** The spaces that fill the field up. */
  function Spaces(f: Layout, neg: bool, num: nat): int
    requires f.Valid()
  {
    f.width - (Lead(f, neg, num) + Max(MinDigits(f, neg, num), |Digits(num, f.base, f.upper)|))
  }

  function Zeros(f: Layout, neg: bool, num: nat): int
    requires f.Valid()
  {
    MinDigits(f, neg, num) - |Digits(num, f.base, f.upper)|
  }

  function NumberText(f: Layout, neg: bool, num: nat): string
    requires f.Valid()
  {
    Repeat(' ', if f.left then 0 else Spaces(f, neg, num)) + Sign(neg) + Prefix(f, num) +
    Repeat('0', Zeros(f, neg, num)) + Digits(num, f.base, f.upper) +
    Repeat(' ', if f.left then Spaces(f, neg, num) else 0)
  }

  // ----- The width of a field

  lemma NumberLength(f: Layout, neg: bool, num: nat)
    requires f.Valid()
    ensures |NumberText(f, neg, num)| ==
            var digits := |Digits(num, f.base, f.upper)|;
            if !f.left && f.zeroPad then Max(f.width, Lead(f, neg, num) + digits)
            else Max(f.width, Lead(f, neg, num) + Max(f.precision, digits))
  {
    hide Digits, Repeat;
  }

  // ----- Where each character is

  /** Padding up to start, then the lead, zeros and digits, and padding after them. */
  function FieldChar(start: nat, lead: string, zeros: nat, digits: string, i: nat): char {
    if i < start then ' '
    else if i < start + |lead| then lead[i - start]
    else if i < start + |lead| + zeros then '0'
    else if i < start + |lead| + zeros + |digits| then digits[i - start - |lead| - zeros]
    else ' '
  }

  lemma FieldChars(a: string, lead: string, z: string, digits: string, b: string)
    requires (forall i | 0 <= i < |a| :: a[i] == ' ') && (forall i | 0 <= i < |b| :: b[i] == ' ')
    requires forall i | 0 <= i < |z| :: z[i] == '0'
    ensures var text := a + lead + z + digits + b;
            forall i | 0 <= i < |text| :: text[i] == FieldChar(|a|, lead, |z|, digits, i)
  {}

  /** The sign and the prefix, which a nonzero number has in the alternate form of bases 8 and 16. */
  function LeadText(neg: bool, alternate: bool, base: nat, num: nat): string {
    (if neg then "-" else "") +
    (if !alternate || num == 0 then "" else if base == 8 then "0" else if base == 16 then "0x" else "")
  }

  lemma LeadIs(f: Layout, neg: bool, num: nat)
    ensures LeadText(neg, f.alternate, f.base, num) == Sign(neg) + Prefix(f, num)
    ensures |LeadText(neg, f.alternate, f.base, num)| == Lead(f, neg, num)
  {}

  lemma NumberPieces(f: Layout, neg: bool, num: nat)
    requires f.Valid()
    ensures NumberText(f, neg, num) ==
            Repeat(' ', if f.left then 0 else Spaces(f, neg, num)) + LeadText(neg, f.alternate, f.base, num) +
            Repeat('0', Zeros(f, neg, num)) + Digits(num, f.base, f.upper) +
            Repeat(' ', if f.left then Spaces(f, neg, num) else 0)
  {
    hide Digits, Repeat, LeadText, Sign, Prefix, Spaces, Zeros;
    LeadIs(f, neg, num);
    var a := Repeat(' ', if f.left then 0 else Spaces(f, neg, num));
    assert a + Sign(neg) + Prefix(f, num) == a + (Sign(neg) + Prefix(f, num));
  }

  /** Every character of a field. Zeros fill the width when it is right-justified and zero-padded, and the
      precision otherwise; spaces fill what is left of the width, on the side away from the number. */
  lemma NumberLayout(f: Layout, neg: bool, num: nat)
    requires f.Valid()
    ensures var text, digits := NumberText(f, neg, num), Digits(num, f.base, f.upper);
            var lead := LeadText(neg, f.alternate, f.base, num);
            var zeros := Max((if f.zeroPad && !f.left then f.width - |lead| else f.precision) - |digits|, 0);
            var pad := Max(f.width - |lead| - zeros - |digits|, 0);
            |text| == |lead| + zeros + |digits| + pad &&
            forall i | 0 <= i < |text| :: text[i] == FieldChar(if f.left then 0 else pad, lead, zeros, digits, i)
  {
    hide Digits, Repeat, FieldChar, NumberText, LeadText, Lead;
    var digits, lead := Digits(num, f.base, f.upper), LeadText(neg, f.alternate, f.base, num);
    LeadIs(f, neg, num);
    var a := Repeat(' ', if f.left then 0 else Spaces(f, neg, num));
    var z := Repeat('0', Zeros(f, neg, num));
    var b := Repeat(' ', if f.left then Spaces(f, neg, num) else 0);
    NumberPieces(f, neg, num);
    FieldChars(a, lead, z, digits, b);
  }

  lemma NoSpaces(num: nat, base: nat, upper: bool)
    requires 2 <= base <= 36
    ensures forall i | 0 <= i < |Digits(num, base, upper)| :: Digits(num, base, upper)[i] != ' '
  {
    hide Digits, DigitValue;
    DigitsAreDigits(num, base, upper);
    var d := Digits(num, base, upper);
    forall i | 0 <= i < |d| ensures d[i] != ' ' {
      assert d[i] in d;
    }
  }

  /** A right-justified zero-padded field has no space in it. */
  lemma ZeroPaddedHasNoSpace(f: Layout, neg: bool, num: nat)
    requires f.Valid() && f.zeroPad && !f.left
    ensures ' ' !in NumberText(f, neg, num)
  {
    hide Digits, NumberText;
    NumberLayout(f, neg, num);
    NoSpaces(num, f.base, f.upper);
  }

  // ----- Reading a field back

  function SkipSpaces(s: string): string {
    if s != "" && s[0] == ' ' then SkipSpaces(s[1..]) else s
  }

  /** The leading digits. */
  function DigitRun(s: string): (r: string)
    ensures forall c | c in r :: IsDigit(c)
  {
    if s != "" && IsDigit(s[0]) then [s[0]] + DigitRun(s[1..]) else ""
  }

  function ParseUnsigned(u: string, base: nat, alternate: bool): nat {
    var v := if alternate && base == 16 && "0x" <= u then u[2..] else u;
    Eval(DigitRun(v), base)
  }

  /** Reads spaces, a minus sign, a 0x when the alternate form of base 16 allows one, and digits. */
  function Parse(s: string, base: nat, alternate: bool): (bool, nat) {
    var t := SkipSpaces(s);
    var neg := t != "" && t[0] == '-';
    var u := if neg then t[1..] else t;
    (neg, ParseUnsigned(u, base, alternate))
  }

  lemma {:induction false} SkipRepeat(n: int, s: string)
    requires s != "" && s[0] != ' '
    ensures SkipSpaces(Repeat(' ', n) + s) == s
    decreases Max(n, 0)
  {
    var t := Repeat(' ', n) + s;
    if n <= 0 {
      assert t == s;
    } else {
      assert t[1..] == Repeat(' ', n - 1) + s;
      SkipRepeat(n - 1, s);
    }
  }

  lemma {:induction false} DigitRunStops(d: string, s: string)
    requires forall c | c in d :: IsDigit(c)
    requires s == "" || !IsDigit(s[0])
    ensures DigitRun(d + s) == d
    decreases |d|
  {
    hide IsDigit;
    if d == "" {
      assert d + s == s;
    } else {
      assert (d + s)[1..] == d[1..] + s;
      DigitRunStops(d[1..], s);
      assert d == [d[0]] + d[1..];
    }
  }

  lemma {:induction false} AllZeros(z: string, base: nat)
    requires forall i | 0 <= i < |z| :: z[i] == '0'
    ensures forall c | c in z :: IsDigit(c)
    ensures Eval(z, base) == 0
    decreases |z|
  {
    if z != "" {
      AllZeros(z[..|z| - 1], base);
      assert DigitValue('0') == 0;
    }
  }

  /** Leading zeros do not change the value. */
  lemma {:induction false} EvalZeros(n: int, d: string, base: nat)
    requires forall c | c in d :: IsDigit(c)
    ensures forall c | c in Repeat('0', n) + d :: IsDigit(c)
    ensures Eval(Repeat('0', n) + d, base) == Eval(d, base)
    decreases |d| + Max(n, 0)
  {
    hide DigitValue;
    var z := Repeat('0', n);
    if d == "" {
      assert z + d == z;
      AllZeros(z, base);
    } else {
      var e := d[..|d| - 1];
      assert (z + d)[..|z + d| - 1] == z + e;
      EvalZeros(n, e, base);
    }
  }

  /** Zeros and digits: only digits of the base, and at least one. */
  lemma BodyDigits(f: Layout, num: nat, zeros: int)
    requires f.Valid()
    ensures var body := Repeat('0', zeros) + Digits(num, f.base, f.upper);
            body != "" && (forall c | c in body :: IsDigit(c) && DigitValue(c) < f.base) &&
            Eval(body, f.base) == num
  {
    hide Digits, Repeat, Eval;
    DigitsAreDigits(num, f.base, f.upper);
    DigitsEval(num, f.base, f.upper);
    EvalZeros(zeros, Digits(num, f.base, f.upper), f.base);
  }

  /** The digits of a body followed by spaces, after an octal prefix or none. */
  lemma ReadBody(body: string, base: nat, zero: bool, spaces: int)
    requires forall c | c in body :: IsDigit(c)
    ensures Eval(DigitRun((if zero then "0" else "") + body + Repeat(' ', spaces)), base) == Eval(body, base)
  {
    hide Eval, DigitRun, DigitValue;
    if zero {
      EvalZeros(1, body, base);
      assert Repeat('0', 1) == "0";
      DigitRunStops("0" + body, Repeat(' ', spaces));
    } else {
      DigitRunStops(body, Repeat(' ', spaces));
      assert "" + body + Repeat(' ', spaces) == body + Repeat(' ', spaces);
    }
  }

  /** A body in base 16 does not look like a 0x prefix. */
  lemma NoFalsePrefix(body: string, spaces: int)
    requires body != "" && forall c | c in body :: IsDigit(c) && DigitValue(c) < 16
    ensures !("0x" <= body + Repeat(' ', spaces))
  {
    hide Repeat;
    var u := body + Repeat(' ', spaces);
    assert IsDigit('x') && DigitValue('x') == 33;
    assert "0x"[1] == 'x';
    if |body| >= 2 {
      assert u[1] == body[1] && body[1] in body;
    } else if |u| >= 2 {
      assert u[1] == Repeat(' ', spaces)[0];
    }
  }

  /** Padding and sign are skipped. */
  lemma ParseLead(n: int, neg: bool, u: string, base: nat, alternate: bool)
    requires u != "" && IsDigit(u[0])
    ensures Parse(Repeat(' ', n) + Sign(neg) + u, base, alternate) == (neg, ParseUnsigned(u, base, alternate))
  {
    hide Repeat, SkipSpaces, ParseUnsigned;
    var t := Sign(neg) + u;
    SkipRepeat(n, t);
    assert Repeat(' ', n) + Sign(neg) + u == Repeat(' ', n) + t;
    assert (if neg then t[1..] else t) == u;
  }

  /** Prefix, zeros, digits and trailing spaces read as the number. */
  lemma ParseBody(f: Layout, num: nat, zeros: int, spaces: int)
    requires f.Valid()
    ensures var u := Prefix(f, num) + (Repeat('0', zeros) + Digits(num, f.base, f.upper)) + Repeat(' ', spaces);
            u != "" && IsDigit(u[0]) && ParseUnsigned(u, f.base, f.alternate) == num
  {
    hide Digits, Repeat, DigitRun, Eval, DigitValue;
    var body := Repeat('0', zeros) + Digits(num, f.base, f.upper);
    BodyDigits(f, num, zeros);
    assert body[0] in body;
    var prefix := Prefix(f, num);
    var u := prefix + body + Repeat(' ', spaces);
    if prefix == "0x" {
      assert u[2..] == body + Repeat(' ', spaces);
    } else if f.base == 16 {
      NoFalsePrefix(body, spaces);
      assert u == body + Repeat(' ', spaces);
    }
    ReadBody(body, f.base, prefix == "0", spaces);
    assert "" + body + Repeat(' ', spaces) == body + Repeat(' ', spaces);
  }

  /** A field reads back as the sign and the number, whatever its width, precision and flags. */
  lemma ParseNumberText(f: Layout, neg: bool, num: nat)
    requires f.Valid()
    ensures Parse(NumberText(f, neg, num), f.base, f.alternate) == (neg, num)
  {
    hide Digits, Repeat, Parse, ParseUnsigned, IsDigit, Prefix, Sign, Spaces, Zeros;
    var left := if f.left then 0 else Spaces(f, neg, num);
    var right := if f.left then Spaces(f, neg, num) else 0;
    var body := Repeat('0', Zeros(f, neg, num)) + Digits(num, f.base, f.upper);
    var u := Prefix(f, num) + body + Repeat(' ', right);
    ParseBody(f, num, Zeros(f, neg, num), right);
    ParseLead(left, neg, u, f.base, f.alternate);
    assert NumberText(f, neg, num) == Repeat(' ', left) + Sign(neg) + u;
  }
}
