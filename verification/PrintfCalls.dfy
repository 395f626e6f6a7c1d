/**
 What calls with one directive print, stated on the directive as it is written and on its
 argument.
 */
module PrintfCalls {
  import Bits
  import opened FormatLaws
  import opened Ksprintn
  import opened MachineTypes
  import opened NumberField
  import opened PrintfText
  import D = DirectiveSyntax

  /** The format with one directive. */
  predicate Writes(fmt: string, x: D.Syntax, ch: char) {
    x.Valid() && D.EndsDirective(ch) && fmt == "%" + D.Text(x) + [ch]
  }

  /** The directive at its conversion character. */
  lemma LastCharacter(fmt: string, e: nat, f: Flags, args: seq<Arg>, radix: nat)
    requires 0 < e < |fmt| && D.EndsDirective(fmt[e]) && 2 <= radix <= 36
    ensures Directive(fmt, 0, e, f, args, radix) ==
            match Conversion(fmt[e], f, args, radix)
            case Unknown => Some(Done(fmt[0..e + 1], e + 1, args, true))
            case NoText => None
            case Converted(text, used) => Some(Done(text, e + 1, args[used..], false))
  {
    hide Conversion, WithFlag, WithNumber, WithStar;
  }

  /** A call prints what its conversion character prints under the flags that the directive means. */
  lemma Call(fmt: cstring, x: D.Syntax, ch: char, args: seq<Arg>, radix: int)
    requires Writes(fmt, x, ch)
    ensures Format(Some(fmt), D.StarArgs(x) + args, radix) ==
            match Conversion(ch, D.Meant(x), args, SaneRadix(radix))
            case Unknown => Some(fmt)
            case NoText => None
            case Converted(text, _) => Some(text)
  {
    hide D.Text, D.StarArgs, D.Meant, Conversion, Directive, D.Syntax.Valid;
    var all, r, e := D.StarArgs(x) + args, SaneRadix(radix), |fmt| - 1;
    assert fmt[0] == '%' && fmt[1..e] == D.Text(x) && fmt[e] == ch && 1 + |D.Text(x)| == e;
    D.DirectiveReadsBack(fmt, 0, x, args, r);
    LastCharacter(fmt, e, D.Meant(x), args, r);
    assert fmt[0..|fmt|] == fmt;
    var d := Directive(fmt, 0, 1, NO_FLAGS, all, r);
    if d.Some? {
      assert Run(fmt, |fmt|, d.value.args, d.value.stop, r) == Some("");
      assert d.value.text + "" == d.value.text;
    }
  }

  // ----- Width, side and precision as written

  /** The width is a magnitude; a negative argument justifies to the other side. */
  function Width(x: D.Syntax): int {
    var w := D.AmountValue(x.width);
    if w < 0 then -w else w
  }

  predicate Left(x: D.Syntax) {
    if D.AmountValue(x.width) < 0 then '-' !in x.switches else '-' in x.switches
  }

  function Precision(x: D.Syntax): int {
    if x.precision.None? then 0 else D.AmountValue(x.precision.value)
  }

  lemma MeantFields(x: D.Syntax)
    ensures var f := D.Meant(x);
            f.width == Width(x) && f.left == Left(x) && f.dwidth == Precision(x) && f.dot == x.precision.Some? &&
            f.zero == ('0' in x.switches) && f.sharp == ('#' in x.switches) && f.sign == ('+' in x.switches)
  {
    hide D.AmountValue;
  }

  lemma MeantModifier(x: D.Syntax)
    ensures var f, m := D.Meant(x), x.modifier;
            f.c == (m == "hh") && f.h == (m == "h") && f.j == (m == "j") && f.l == (m == "l") &&
            f.q == (m == "ll" || m == "q") && f.t == (m == "t") && f.z == (m == "z")
  {
    hide D.MeantAmounts;
  }

  // ----- Strings

  /** %s prints the string up to the precision, when there is one, at one end of a field of the width. The
      rest of the field is spaces, or zeros when the 0 flag is written. */
  lemma StringCall(fmt: cstring, x: D.Syntax, s: cstring, radix: int)
    requires Writes(fmt, x, 's')
    ensures var r := Format(Some(fmt), D.StarArgs(x) + [Text(s)], radix);
            var n := if x.precision.None? || Precision(x) > |s| then |s| else Max(Precision(x), 0);
            var start := if Left(x) then 0 else Max(Width(x) - n, 0);
            r.Some? && |r.value| == Max(Width(x), n) &&
            forall i | 0 <= i < |r.value| ::
              r.value[i] == if start <= i < start + n then s[i - start] else if '0' in x.switches then '0' else ' '
  {
    hide D.Text, D.StarArgs, D.Meant, StringConversion, Format, Writes, Width, Left, Precision;
    Call(fmt, x, 's', [Text(s)], radix);
    MeantFields(x);
    StringLayout(D.Meant(x), s);
  }

  lemma PlainWrites(fmt: string, ch: char)
    requires D.EndsDirective(ch) && fmt == ['%', ch]
    ensures Writes(fmt, D.PLAIN, ch) && D.StarArgs(D.PLAIN) == []
    ensures Width(D.PLAIN) == 0 && Precision(D.PLAIN) == 0 && !Left(D.PLAIN)
  {
    assert D.Text(D.PLAIN) == "";
    assert "%" + "" + [ch] == ['%', ch];
  }

  lemma Unpadded(f: Flags, s: string)
    requires f.width == 0 && !f.dot
    ensures StringConversion(f, s) == s
  {
    StringLayout(f, s);
  }

  /** A bare %s prints its string; a null pointer prints as such. */
  lemma PlainString(s: cstring, radix: int)
    ensures Format(Some("%s"), [Text(s)], radix) == Some(s)
    ensures Format(Some("%s"), [Null], radix) == Some("(null)")
  {
    hide Format, Writes, D.StarArgs, D.Meant, Repeat, Width, Left, Precision;
    PlainWrites("%s", 's');
    assert [] + [Text(s)] == [Text(s)] && [] + [Null] == [Null];
    Call("%s", D.PLAIN, 's', [Text(s)], radix);
    Call("%s", D.PLAIN, 's', [Null], radix);
    MeantFields(D.PLAIN);
    Unpadded(D.Meant(D.PLAIN), s);
    Unpadded(D.Meant(D.PLAIN), "(null)");
  }

  // ----- Numbers

  /** The value of the argument bits in the type that a length modifier names. An unsigned conversion with
      the modifier t extends the sign to 64 bits. */
  predicate Fits(modifier: string, signed: bool, bits: nat, value: int) {
    var m := if modifier in ["j", "ll", "q"] then 0x1_0000_0000_0000_0000
             else if modifier == "hh" then 0x100
             else if modifier == "h" then 0x1_0000
             else 0x1_0000_0000;
    if signed then -(m / 2) <= value < m / 2 && (value - bits) % m == 0
    else if modifier == "t" then value == if bits < 0x8000_0000 then bits else bits + 0xFFFF_FFFF_0000_0000
    else 0 <= value < m && (value - bits) % m == 0
  }

  predicate Signed(x: D.Syntax, ch: char) {
    ch in "diy" || (ch == 'r' && '+' in x.switches)
  }

  /** The base of each number conversion; %r takes the caller's, or 10 when that is no base. */
  function Base(ch: char, radix: int): (b: nat)
    ensures 2 <= b <= 36
  {
    if ch == 'o' then 8
    else if ch == 'x' || ch == 'X' || ch == 'y' then 16
    else if ch == 'r' && 2 <= radix <= 36 then radix
    else 10
  }

  /** Whether an argument is of the size that a length modifier asks for. */
  predicate RightSize(modifier: string, a: Arg) {
    if modifier in ["j", "ll", "q"] then a.Quad? else a.Word?
  }

  /** The layout that a directive asks for. */
  function LayoutFor(x: D.Syntax, base: nat, upper: bool): Layout {
    Layout(Width(x), Precision(x), Left(x), '0' in x.switches, '#' in x.switches, base, upper)
  }

  lemma WritesValid(fmt: string, x: D.Syntax, ch: char)
    requires Writes(fmt, x, ch)
    ensures x.Valid()
  {
    hide D.Text;
  }

  lemma ConversionIs(ch: char, f: Flags, args: seq<Arg>, radix: int)
    requires ch in "dioruxXy"
    ensures var signed := ch in "diy" || (ch == 'r' && f.sign);
            Conversion(ch, f, args, SaneRadix(radix)) ==
            FromNumber(f, if signed then SignedArg(f, args) else UnsignedArg(f, args), signed, Base(ch, radix),
                       ch == 'X')
  {
    hide SignedArg, UnsignedArg, NumberConversion;
  }

  lemma SizeIs(x: D.Syntax, arg: Arg)
    requires x.Valid()
    ensures SignedArg(D.Meant(x), [arg]).Some? <==> RightSize(x.modifier, arg)
    ensures UnsignedArg(D.Meant(x), [arg]).Some? <==> RightSize(x.modifier, arg)
  {
    hide D.Meant, SignExtend;
    MeantModifier(x);
  }

  lemma ConvertsFits(x: D.Syntax, signed: bool, bits: nat, value: int)
    requires x.Valid() && Converts(D.Meant(x), bits, signed, value)
    ensures Fits(x.modifier, signed, bits, value)
  {
    hide D.Meant;
    MeantModifier(x);
  }

  lemma Magnitude(v: u64, signed: bool)
    ensures var neg, value := signed && IsNegative(v), Meaning(v, signed);
            (value < 0 <==> neg) && (if value < 0 then -value else value) == if neg then Negated(v) else v
  {}

  /** A number conversion prints its argument's value in the field that the directive asks for. */
  lemma NumberCall(fmt: cstring, x: D.Syntax, ch: char, arg: Arg, radix: int)
    requires Writes(fmt, x, ch) && ch in "dioruxXy"
    ensures var r := Format(Some(fmt), D.StarArgs(x) + [arg], radix);
            (r.Some? <==> RightSize(x.modifier, arg)) &&
            (r.Some? ==>
               exists value: int ::
                 Fits(x.modifier, Signed(x, ch), ArgBits(arg), value) &&
                 r.value == NumberText(LayoutFor(x, Base(ch, radix), ch == 'X'), value < 0,
                                       if value < 0 then -value else value))
  {
    hide D.Text, D.StarArgs, D.Meant, NumberText, Format, Writes, Width, Left, Precision, Converts, Fits;
    hide SignedArg, UnsignedArg, Meaning, RightSize;
    Call(fmt, x, ch, [arg], radix);
    var f := D.Meant(x);
    var v := if Signed(x, ch) then SignedArg(f, [arg]) else UnsignedArg(f, [arg]);
    MeantFields(x);
    ConversionIs(ch, f, [arg], radix);
    WritesValid(fmt, x, ch);
    SizeIs(x, arg);
    if v.Some? {
      var value := Meaning(v.value, Signed(x, ch));
      SignedArgConverts(f, [arg]);
      UnsignedArgConverts(f, [arg]);
      ConvertsFits(x, Signed(x, ch), ArgBits(arg), value);
      Magnitude(v.value, Signed(x, ch));
    }
  }

  // ----- Some plain calls

  lemma Nibble(k: nat)
    ensures Bits.Pow2(4 * (k + 1)) == 16 * Bits.Pow2(4 * k)
    ensures Bits.Pow2(4 * 0) == 1
  {
    assert 4 * (k + 1) == 4 * k + 4;
    assert Bits.Pow2(4 * k + 2) == 4 * Bits.Pow2(4 * k);
  }

  lemma {:induction false} HexFits(num: nat, upper: bool, k: nat)
    requires k > 0 && num < Bits.Pow2(4 * k)
    ensures |Digits(num, 16, upper)| <= k
    decreases k
  {
    hide DigitChar, Bits.Pow2;
    if num >= 16 {
      Nibble(k - 1);
      assert k > 1;
      HexFits(num / 16, upper, k - 1);
    }
  }

  lemma Eight()
    ensures Digits(8, 10, false) == "8"
  {}

  lemma RegisterWrites(x: D.Syntax)
    requires x == D.PLAIN.(switches := "0", width := D.Given(8))
    ensures Writes("%08x", x, 'x') && D.StarArgs(x) == []
  {
    assert Digits(8, 10, false) == "8" by { Eight(); }
    assert D.Text(x) == "08";
    assert "%" + "08" + ['x'] == "%08x";
  }

  lemma WordValue(bits: u32, value: int)
    requires Fits("", false, bits, value)
    ensures value == bits
  {}

  lemma EightDigits(bits: u32)
    ensures |Digits(bits, 16, false)| <= 8
  {
    hide Digits;
    Bits.Pow2Values();
    HexFits(bits, false, 8);
  }

  lemma EightWide(f: Layout, num: nat)
    requires f == Layout(8, 0, false, true, false, 16, false) && |Digits(num, 16, false)| <= 8
    ensures var text, n := NumberText(f, false, num), |Digits(num, 16, false)|;
            |text| == 8 &&
            forall i | 0 <= i < 8 :: text[i] == if i < 8 - n then '0' else Digits(num, 16, false)[i - (8 - n)]
  {
    hide Digits, NumberText;
    NumberLayout(f, false, num);
  }

  /** The usual way to print a register: %08x prints the digits of a word with zeros up to eight, no
      spaces, and lower-case letters. */
  lemma RegisterCall(bits: u32, radix: int)
    ensures var r, n := Format(Some("%08x"), [Word(bits)], radix), |Digits(bits, 16, false)|;
            r.Some? && |r.value| == 8 && n <= 8 &&
            forall i | 0 <= i < 8 :: r.value[i] == if i < 8 - n then '0' else Digits(bits, 16, false)[i - (8 - n)]
  {
    hide Format, Writes, D.Text, D.StarArgs, D.Meant, Digits, NumberText, FieldChar, Fits;
    var x := D.PLAIN.(switches := "0", width := D.Given(8));
    RegisterWrites(x);
    assert [] + [Word(bits)] == [Word(bits)];
    NumberCall("%08x", x, 'x', Word(bits), radix);
    var value: int :| Fits("", false, bits, value) &&
                      Format(Some("%08x"), [Word(bits)], radix) ==
                      Some(NumberText(LayoutFor(x, 16, false), value < 0, if value < 0 then -value else value));
    WordValue(bits, value);
    EightDigits(bits);
    EightWide(LayoutFor(x, 16, false), bits);
  }

  lemma BareDigits(f: Layout, num: nat)
    requires f.Valid() && f.width == 0 && f.precision == 0 && !f.left && !f.zeroPad && !f.alternate
    ensures NumberText(f, false, num) == Digits(num, f.base, f.upper)
  {
    hide Digits, NumberText;
    NumberLayout(f, false, num);
  }

  lemma PlainNumber(fmt: cstring, ch: char, bits: u32, radix: int)
    requires ch in "ouxX" && fmt == ['%', ch]
    ensures Format(Some(fmt), [Word(bits)], radix) == Some(Digits(bits, Base(ch, radix), ch == 'X'))
  {
    hide Format, Writes, D.StarArgs, Width, Left, Precision, Digits, NumberText, Fits;
    PlainWrites(fmt, ch);
    assert [] + [Word(bits)] == [Word(bits)];
    NumberCall(fmt, D.PLAIN, ch, Word(bits), radix);
    var f := LayoutFor(D.PLAIN, Base(ch, radix), ch == 'X');
    var value: int :| Fits("", false, bits, value) &&
                      Format(Some(fmt), [Word(bits)], radix) ==
                      Some(NumberText(f, value < 0, if value < 0 then -value else value));
    WordValue(bits, value);
    BareDigits(f, bits);
  }

  /** The digits of the number conversions without a field, and their letters. */
  lemma PlainNumbers(bits: u32, radix: int)
    ensures Format(Some("%u"), [Word(bits)], radix) == Some(Digits(bits, 10, false))
    ensures Format(Some("%o"), [Word(bits)], radix) == Some(Digits(bits, 8, false))
    ensures Format(Some("%x"), [Word(bits)], radix) == Some(Digits(bits, 16, false))
    ensures Format(Some("%X"), [Word(bits)], radix) == Some(Digits(bits, 16, true))
    ensures forall c | c in Digits(bits, 16, false) :: !('A' <= c <= 'Z')
    ensures forall c | c in Digits(bits, 16, true) :: !('a' <= c <= 'z')
  {
    hide Format, Writes, Digits;
    DigitsCase(bits, 16, false);
    DigitsCase(bits, 16, true);
    PlainNumber("%u", 'u', bits, radix);
    PlainNumber("%o", 'o', bits, radix);
    PlainNumber("%x", 'x', bits, radix);
    PlainNumber("%X", 'X', bits, radix);
  }

  /** A pointer prints in lower-case base 16 after 0x; a null pointer prints as 0. */
  lemma PointerCall(bits: u32, radix: int)
    ensures Format(Some("%p"), [Word(bits)], radix) ==
            Some((if bits == 0 then "" else "0x") + Digits(bits, 16, false))
  {
    hide Format, Writes, D.StarArgs, D.Meant, Width, Left, Precision, Digits, NumberText;
    PlainWrites("%p", 'p');
    assert [] + [Word(bits)] == [Word(bits)];
    Call("%p", D.PLAIN, 'p', [Word(bits)], radix);
    MeantFields(D.PLAIN);
    var f := Layout(0, 0, false, false, true, 16, false);
    NumberLayout(f, false, bits);
    assert NumberText(f, false, bits) == (if bits == 0 then "" else "0x") + Digits(bits, 16, false);
  }

  /** A character, and the percent sign. */
  lemma CharacterCalls(bits: u32, radix: int)
    ensures Format(Some("%c"), [Word(bits)], radix) == Some([(bits % 0x100) as char])
    ensures Format(Some("%%"), [], radix) == Some("%")
  {
    hide Format, Writes, D.StarArgs, D.Meant, Width, Left, Precision;
    PlainWrites("%c", 'c');
    PlainWrites("%%", '%');
    assert [] + [Word(bits)] == [Word(bits)];
    var none: seq<Arg> := [];
    assert [] + none == none;
    Call("%c", D.PLAIN, 'c', [Word(bits)], radix);
    Call("%%", D.PLAIN, '%', none, radix);
  }

  /** A dump shows as many bytes as the width says, or 16 without one. */
  lemma DumpCall(fmt: cstring, x: D.Syntax, b: seq<u8>, sep: cstring, radix: int)
    requires Writes(fmt, x, 'D')
    ensures var n := if Width(x) == 0 then 16 else Width(x);
            Format(Some(fmt), D.StarArgs(x) + [Bytes(b), Text(sep)], radix) ==
            if 0 <= n <= |b| then Some(HexDump(b, sep, 0, n)) else None
  {
    hide Format, Writes, D.StarArgs, D.Meant, Width, Left, Precision, HexDump;
    Call(fmt, x, 'D', [Bytes(b), Text(sep)], radix);
    MeantFields(x);
  }

  /** The bits of a register, and their names. */
  lemma BitsCall(num: u32, p: cstring, radix: int)
    ensures Format(Some("%b"), [Word(num), Text(p)], radix) == BitConversion(num, p)
  {
    hide Format, Writes, D.StarArgs, D.Meant, Width, Left, Precision, BitConversion;
    PlainWrites("%b", 'b');
    assert [] + [Word(num), Text(p)] == [Word(num), Text(p)];
    Call("%b", D.PLAIN, 'b', [Word(num), Text(p)], radix);
  }

  /** An unknown conversion prints the directive as it is written. */
  lemma UnknownCall(fmt: cstring, x: D.Syntax, ch: char, args: seq<Arg>, radix: int)
    requires Writes(fmt, x, ch) && ch !in "%bcDdiopruxXysn"
    ensures Format(Some(fmt), D.StarArgs(x) + args, radix) == Some(fmt)
  {
    hide Run, Writes, D.StarArgs, D.Meant;
    Call(fmt, x, ch, args, radix);
  }

  /** A null format has a text of its own. */
  lemma NullFormat(args: seq<Arg>, radix: int)
    ensures Format(None, args, radix) == Some("(fmt null)\n")
  {
    hide Run;
    PlainFrom(NULL_FORMAT, 0, args, SaneRadix(radix));
    assert NULL_FORMAT[0..] == NULL_FORMAT;
  }
}
