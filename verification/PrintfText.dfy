/**
 The text a format and its arguments stand for. A call whose behaviour C leaves undefined (a
 missing argument, one of the wrong kind, a format that ends inside a directive) has no text.
 */
module PrintfText {
  import Bits
  import opened Ksprintn
  import opened MachineTypes
  import opened NumberField

  /** The characters of a C string before its NUL. */
  type cstring = s: string | '\0' !in s witness ""

  /** One argument: a 32-bit or a 64-bit slot, a string or null pointer, or a pointer to bytes. */
  datatype Arg = Word(bits: u32) | Quad(quad: u64) | Text(s: cstring) | Null | Bytes(b: seq<u8>)

  /** The state of one directive. */
  datatype Flags = Flags(zero: bool, width: int, dwidth: int, left: bool, sharp: bool, sign: bool, dot: bool,
                         c: bool, h: bool, j: bool, l: bool, q: bool, t: bool, z: bool)

  const NO_FLAGS: Flags :=
    Flags(false, 0, 0, false, false, false, false, false, false, false, false, false, false, false)

  // ----- Arguments

  function SignedWord(bits: u32): int {
    if bits >= 0x8000_0000 then bits - 0x1_0000_0000 else bits
  }

  /** A w-bit value, given 2^w, as a sign-extended 64-bit one. */
  function SignExtend(v: u32, w: nat): u64
    requires v < w <= 0x1_0000_0000
  {
    if v >= w / 2 then v + 0x1_0000_0000_0000_0000 - w else v
  }

  function UnsignedArg(f: Flags, args: seq<Arg>): Option<u64> {
    if args == [] then None
    else if f.j || f.q then (if args[0].Quad? then Some(args[0].quad) else None)
    else if !args[0].Word? then None
    else
      var bits := args[0].bits;
      Some(if f.t then SignExtend(bits, 0x1_0000_0000)
           else if f.l || f.z then bits
           else if f.h then bits % 0x1_0000
           else if f.c then bits % 0x100
           else bits)
  }

  function SignedArg(f: Flags, args: seq<Arg>): Option<u64> {
    if args == [] then None
    else if f.j || f.q then (if args[0].Quad? then Some(args[0].quad) else None)
    else if !args[0].Word? then None
    else
      var bits := args[0].bits;
      Some(if f.t || f.l || f.z then SignExtend(bits, 0x1_0000_0000)
           else if f.h then SignExtend(bits % 0x1_0000, 0x1_0000)
           else if f.c then SignExtend(bits % 0x100, 0x100)
           else SignExtend(bits, 0x1_0000_0000))
  }

  predicate IsNegative(v: u64) {
    v >= 0x8000_0000_0000_0000
  }

  function Negated(v: u64): u64 {
    if v == 0 then 0 else 0x1_0000_0000_0000_0000 - v
  }

  // ----- Conversions

  function LayoutOf(f: Flags, base: nat, upper: bool): Layout {
    Layout(f.width, f.dwidth, f.left, f.zero, f.sharp, base, upper)
  }

  /** A number, signed or not. */
  function NumberConversion(f: Flags, v: u64, signed: bool, base: nat, upper: bool): string
    requires 2 <= base <= 36
  {
    var neg := signed && IsNegative(v);
    NumberText(LayoutOf(f, base, upper), neg, if neg then Negated(v) else v)
  }

  function Shown(f: Flags, s: string): (n: nat)
    ensures n <= |s|
  {
    if !f.dot then |s| else if f.dwidth < 0 then 0 else if f.dwidth < |s| then f.dwidth else |s|
  }

  function PadChar(f: Flags): char {
    if f.zero then '0' else ' '
  }

  function StringConversion(f: Flags, s: string): string {
    var n := Shown(f, s);
    Repeat(PadChar(f), if f.left then 0 else f.width - n) + s[..n] +
    Repeat(PadChar(f), if f.left then f.width - n else 0)
  }

  /** Every character of a string conversion: as much of the string as the precision allows, and padding
      up to the width before it, or after it when left-justified. */
  lemma StringLayout(f: Flags, s: string)
    ensures var text := StringConversion(f, s);
            var n := if !f.dot || f.dwidth > |s| then |s| else Max(f.dwidth, 0);
            var start := if f.left then 0 else Max(f.width - n, 0);
            |text| == Max(f.width, n) &&
            forall i | 0 <= i < |text| ::
              text[i] == if start <= i < start + n then s[i - start] else if f.zero then '0' else ' '
  {
    hide Repeat;
  }

  /** Two hexadecimal digits a byte, with a separator between bytes. */
  function HexDump(b: seq<u8>, sep: string, k: nat, width: nat): string
    requires width <= |b|
    decreases width - k
  {
    if k >= width then ""
    else
      [DigitChar(b[k] / 16, false), DigitChar(b[k] % 16, false)] +
      (if k + 1 < width then sep else "") + HexDump(b, sep, k + 1, width)
  }

  /** Plain char is signed: only codes from 33 to 127 continue a bit's name. */
  predicate InName(c: char) {
    ' ' < c && c as int < 128
  }

  function NameEnd(p: string, i: nat): (e: nat)
    requires i <= |p|
    ensures i <= e <= |p|
    decreases |p| - i
  {
    if i < |p| && InName(p[i]) then NameEnd(p, i + 1) else i
  }

  predicate BitSet(num: u32, n: nat)
    requires 1 <= n <= 32
  {
    Bits.Bit(num, n - 1)
  }

  /** The names of the bits that are set, from position i of the description on. */
  function BitNames(num: u32, p: string, i: nat, any: bool): Option<string>
    requires i <= |p|
    decreases |p| - i
  {
    if i == |p| then Some(if any then ">" else "")
    else if !(1 <= p[i] as int <= 32) then None
    else
      var e := NameEnd(p, i + 1);
      if BitSet(num, p[i] as int) then
        match BitNames(num, p, e, true)
        case None => None
        case Some(rest) => Some([if any then ',' else '<'] + p[i + 1..e] + rest)
      else BitNames(num, p, e, any)
  }

  function BitConversion(num: u32, p: string): Option<string> {
    if p == "" || !(2 <= p[0] as int <= 36) then None
    else
      var digits := Digits(num, p[0] as int, false);
      if num == 0 then Some(digits)
      else match BitNames(num, p, 1, false)
        case None => None
        case Some(names) => Some(digits + names)
  }

  // ----- Directives

  predicate IsDecimal(c: char) {
    '0' <= c <= '9'
  }

  /** A decimal number from position i, continuing n; and the position after it. */
  function Number(fmt: string, i: nat, n: nat): (r: (nat, nat))
    requires i <= |fmt|
    ensures i <= r.1 <= |fmt|
    ensures i < |fmt| && IsDecimal(fmt[i]) ==> i < r.1
    decreases |fmt| - i
  {
    if i < |fmt| && IsDecimal(fmt[i]) then Number(fmt, i + 1, n * 10 + (fmt[i] as int - '0' as int)) else (n, i)
  }

  /** Characters that only change the flags. */
  predicate IsFlag(f: Flags, ch: char) {
    ch in ".#+-hjlqtz" || (ch == '0' && !f.dot)
  }

  function WithFlag(f: Flags, ch: char): Flags {
    match ch
    case '.' => f.(dot := true)
    case '#' => f.(sharp := true)
    case '+' => f.(sign := true)
    case '-' => f.(left := true)
    case 'h' => if f.h then f.(h := false, c := true) else f.(h := true)
    case 'j' => f.(j := true)
    case 'l' => if f.l then f.(l := false, q := true) else f.(l := true)
    case 'q' => f.(q := true)
    case 't' => f.(t := true)
    case 'z' => f.(z := true)
    case _ => f.(zero := true)
  }

  function WithNumber(f: Flags, n: int): Flags {
    if f.dot then f.(dwidth := n) else f.(width := n)
  }

  function WithStar(f: Flags, v: int): Flags {
    if f.dot then f.(dwidth := v)
    else if v < 0 then f.(left := !f.left, width := -v)
    else f.(width := v)
  }

  /** The result of a directive: its text, where the format goes on, the arguments left, and
      whether directives are no longer obeyed. */
  datatype Done = Done(text: string, next: nat, args: seq<Arg>, stop: bool)

  datatype ConversionResult = Unknown | NoText | Converted(text: string, used: nat)

  function FromNumber(f: Flags, v: Option<u64>, signed: bool, base: nat, upper: bool): ConversionResult
    requires 2 <= base <= 36
  {
    if v.None? then NoText else Converted(NumberConversion(f, v.value, signed, base, upper), 1)
  }

  /** The conversion characters. */
  function Conversion(ch: char, f: Flags, args: seq<Arg>, radix: nat): (r: ConversionResult)
    requires 2 <= radix <= 36
    ensures r.Converted? ==> r.used <= |args|
  {
    match ch
    case '%' => Converted("%", 0)
    case 'b' =>
      if |args| < 2 || !args[0].Word? || !args[1].Text? then NoText
      else (match BitConversion(args[0].bits, args[1].s) case None => NoText case Some(text) => Converted(text, 2))
    case 'c' =>
      if args == [] || !args[0].Word? then NoText else Converted([(args[0].bits % 0x100) as char], 1)
    case 'D' =>
      var width := if f.width == 0 then 16 else f.width;
      if |args| < 2 || !args[0].Bytes? || !args[1].Text? || !(0 <= width <= |args[0].b|) then NoText
      else Converted(HexDump(args[0].b, args[1].s, 0, width), 2)
    case 'd' => FromNumber(f, SignedArg(f, args), true, 10, false)
    case 'i' => FromNumber(f, SignedArg(f, args), true, 10, false)
    case 'o' => FromNumber(f, UnsignedArg(f, args), false, 8, false)
    case 'p' =>
      if args == [] || !args[0].Word? then NoText
      else FromNumber(f.(sharp := f.width == 0), Some(args[0].bits), false, 16, false)
    case 'r' => FromNumber(f, if f.sign then SignedArg(f, args) else UnsignedArg(f, args), f.sign, radix, false)
    case 's' =>
      if args == [] || !(args[0].Text? || args[0].Null?) then NoText
      else Converted(StringConversion(f, if args[0].Null? then "(null)" else args[0].s), 1)
    case 'u' => FromNumber(f, UnsignedArg(f, args), false, 10, false)
    case 'x' => FromNumber(f, UnsignedArg(f, args), false, 16, false)
    case 'X' => FromNumber(f, UnsignedArg(f, args), false, 16, true)
    case 'y' => FromNumber(f, SignedArg(f, args), true, 16, false)
    case 'n' => NoText
    case _ => Unknown
  }

  /** The directive whose % is at pct, from position i on. */
  function Directive(fmt: string, pct: nat, i: nat, f: Flags, args: seq<Arg>, radix: nat): (r: Option<Done>)
    requires pct < i <= |fmt| && 2 <= radix <= 36
    ensures r.Some? ==> i < r.value.next <= |fmt|
    decreases |fmt| - i
  {
    if i == |fmt| then None
    else
      var ch := fmt[i];
      if IsFlag(f, ch) then Directive(fmt, pct, i + 1, WithFlag(f, ch), args, radix)
      else if IsDecimal(ch) then
        var (n, e) := Number(fmt, i, 0);
        Directive(fmt, pct, e, WithNumber(f, n), args, radix)
      else if ch == '*' then
        if args == [] || !args[0].Word? then None
        else Directive(fmt, pct, i + 1, WithStar(f, SignedWord(args[0].bits)), args[1..], radix)
      else match Conversion(ch, f, args, radix)
        case Unknown => Some(Done(fmt[pct..i + 1], i + 1, args, true))
        case NoText => None
        case Converted(text, used) => Some(Done(text, i + 1, args[used..], false))
  }

  // ----- Formats

  function Prepend(s: string, rest: Option<string>): Option<string> {
    if rest.None? then None else Some(s + rest.value)
  }

  /** The text of a format from position i on. */
  function Run(fmt: string, i: nat, args: seq<Arg>, stop: bool, radix: nat): Option<string>
    requires i <= |fmt| && 2 <= radix <= 36
    decreases |fmt| - i
  {
    if i == |fmt| then Some("")
    else if fmt[i] != '%' || stop then Prepend([fmt[i]], Run(fmt, i + 1, args, stop, radix))
    else match Directive(fmt, i, i + 1, NO_FLAGS, args, radix)
      case None => None
      case Some(d) => Prepend(d.text, Run(fmt, d.next, d.args, d.stop, radix))
  }

  const NULL_FORMAT: string := "(fmt null)\n"

  function SaneRadix(radix: int): (r: nat)
    ensures 2 <= r <= 36
  {
    if radix < 2 || radix > 36 then 10 else radix
  }

  /** The text of a call. */
  function Format(fmt: Option<cstring>, args: seq<Arg>, radix: int): Option<string> {
    Run(if fmt.None? then NULL_FORMAT else fmt.value, 0, args, false, SaneRadix(radix))
  }

  /** After an unknown directive the rest of the format is printed as it stands. */
  lemma {:induction false} StoppedIsVerbatim(fmt: string, i: nat, args: seq<Arg>, radix: nat)
    requires i <= |fmt| && 2 <= radix <= 36
    ensures Run(fmt, i, args, true, radix) == Some(fmt[i..])
    decreases |fmt| - i
  {
    hide Directive;
    if i < |fmt| {
      StoppedIsVerbatim(fmt, i + 1, args, radix);
      assert [fmt[i]] + fmt[i + 1..] == fmt[i..];
    } else {
      assert fmt[i..] == "";
    }
  }

  // ----- Reading printed numbers back

  /** The value of a 64-bit pattern, signed or not. */
  function Meaning(v: u64, signed: bool): int {
    if signed && IsNegative(v) then v - 0x1_0000_0000_0000_0000 else v
  }

  /** The bits of a number argument. */
  function ArgBits(a: Arg): nat {
    match a
    case Word(bits) => bits
    case Quad(quad) => quad
    case _ => 0
  }

  /** How many values the type that the length modifiers name has. */
  function Modulus(f: Flags): nat {
    if f.j || f.q then 0x1_0000_0000_0000_0000
    else if f.t || f.l || f.z then 0x1_0000_0000
    else if f.h then 0x1_0000
    else if f.c then 0x100
    else 0x1_0000_0000
  }

  /** A value of the type that the modifiers name that is congruent to the argument's bits. An unsigned
      t conversion alone is of a signed type, and stored in an unsigned 64-bit variable. */
  predicate Converts(f: Flags, bits: nat, signed: bool, value: int) {
    var m := Modulus(f);
    if signed then -(m / 2) <= value < m / 2 && (value - bits) % m == 0
    else if f.t && !f.j && !f.q then value == if bits < 0x8000_0000 then bits else bits + 0xFFFF_FFFF_0000_0000
    else 0 <= value < m && (value - bits) % m == 0
  }

  lemma SignOf(r: u32, w: nat)
    requires w == 0x100 || w == 0x1_0000 || w == 0x1_0000_0000
    requires r < w
    ensures var value := Meaning(SignExtend(r, w), true);
            -(w / 2) <= value < w / 2 && (value == r || value == r - w)
  {}

  lemma SameRemainder(value: int, bits: nat, w: nat)
    requires w > 0 && (value == bits % w || value == bits % w - w)
    ensures (value - bits) % w == 0
  {
    var q := bits / w;
    var k := if value == bits % w then -q else -q - 1;
    assert value - bits == k * w by {
      assert bits == q * w + bits % w;
      assert (-q - 1) * w == -(q * w) - w;
    }
    Bits.DivModUnique(value - bits, w, k, 0);
  }

  lemma SignExtendMeaning(bits: u32, w: nat)
    requires w == 0x100 || w == 0x1_0000 || w == 0x1_0000_0000
    ensures var value := Meaning(SignExtend(bits % w, w), true);
            -(w / 2) <= value < w / 2 && (value - bits) % w == 0
  {
    hide SignExtend, Meaning;
    var r := bits % w;
    var value := Meaning(SignExtend(r, w), true);
    SignOf(r, w);
    SameRemainder(value, bits, w);
  }

  lemma QuadMeaning(quad: u64)
    ensures var value, w := Meaning(quad, true), 0x1_0000_0000_0000_0000;
            -(w / 2) <= value < w / 2 && (value - quad) % w == 0
  {}

  lemma SignedArgConverts(f: Flags, args: seq<Arg>)
    ensures var v := SignedArg(f, args);
            v.Some? ==> args != [] && Converts(f, ArgBits(args[0]), true, Meaning(v.value, true))
  {
    hide SignExtend, Meaning;
    if args != [] && args[0].Word? {
      var bits := args[0].bits;
      SignExtendMeaning(bits, 0x100);
      SignExtendMeaning(bits, 0x1_0000);
      SignExtendMeaning(bits, 0x1_0000_0000);
      assert bits % 0x1_0000_0000 == bits;
    } else if args != [] && args[0].Quad? {
      QuadMeaning(args[0].quad);
    }
  }

  lemma WordExtended(bits: u32)
    ensures SignExtend(bits, 0x1_0000_0000) == if bits < 0x8000_0000 then bits else bits + 0xFFFF_FFFF_0000_0000
  {}

  lemma SameModulo(bits: nat, w: nat)
    requires w > 0
    ensures (bits % w - bits) % w == 0
  {
    SameRemainder(bits % w, bits, w);
  }

  lemma UnsignedArgConverts(f: Flags, args: seq<Arg>)
    ensures var v := UnsignedArg(f, args);
            v.Some? ==> args != [] && Converts(f, ArgBits(args[0]), false, Meaning(v.value, false))
  {
    hide SignExtend;
    if args != [] && args[0].Word? {
      var bits := args[0].bits;
      WordExtended(bits);
      SameModulo(bits, 0x1_0000);
      SameModulo(bits, 0x100);
    }
  }

  function ReadBack(s: string, base: nat, alternate: bool): int {
    var (neg, num) := Parse(s, base, alternate);
    if neg then -(num as int) else num
  }

  /** A number argument printed in any base and field reads back as the argument's value. */
  lemma NumberReadsBack(f: Flags, args: seq<Arg>, signed: bool, base: nat, upper: bool)
    requires 2 <= base <= 36
    ensures var r := FromNumber(f, if signed then SignedArg(f, args) else UnsignedArg(f, args), signed, base, upper);
            r.Converted? ==>
              args != [] && Converts(f, ArgBits(args[0]), signed, ReadBack(r.text, base, f.sharp))
  {
    hide NumberText, Parse, Converts, SignedArg, UnsignedArg;
    var v := if signed then SignedArg(f, args) else UnsignedArg(f, args);
    SignedArgConverts(f, args);
    UnsignedArgConverts(f, args);
    if v.Some? {
      var neg := signed && IsNegative(v.value);
      ParseNumberText(LayoutOf(f, base, upper), neg, if neg then Negated(v.value) else v.value);
    }
  }

  /** The base of a number conversion, and whether it is signed. */
  function BaseOf(ch: char, radix: nat): nat {
    match ch
    case 'o' => 8
    case 'x' => 16
    case 'X' => 16
    case 'y' => 16
    case 'r' => radix
    case _ => 10
  }

  predicate IsSigned(ch: char, f: Flags) {
    ch in "diy" || (ch == 'r' && f.sign)
  }

  /** What a conversion character prints reads back, in that character's base, as the argument's value. */
  lemma ConversionReadsBack(ch: char, f: Flags, args: seq<Arg>, radix: nat)
    requires ch in "dioruxXy" && 2 <= radix <= 36
    ensures var r := Conversion(ch, f, args, radix);
            !r.Unknown? &&
            (r.Converted? ==>
               args != [] && r.used == 1 &&
               Converts(f, ArgBits(args[0]), IsSigned(ch, f), ReadBack(r.text, BaseOf(ch, radix), f.sharp)))
  {
    hide SignedArg, UnsignedArg, NumberConversion, Converts, Parse;
    NumberReadsBack(f, args, IsSigned(ch, f), BaseOf(ch, radix), ch == 'X');
  }

  /** A printed pointer reads back as the pointer; a prefix is allowed for only without a width. */
  lemma PointerReadsBack(f: Flags, args: seq<Arg>, radix: nat)
    requires 2 <= radix <= 36
    ensures var r := Conversion('p', f, args, radix);
            !r.Unknown? &&
            (r.Converted? ==> args != [] && r.used == 1 && ReadBack(r.text, 16, f.width == 0) == ArgBits(args[0]))
  {
    hide NumberText, Parse;
    if args != [] && args[0].Word? {
      ParseNumberText(LayoutOf(f.(sharp := f.width == 0), 16, false), false, args[0].bits);
    }
  }

  /** Printing a signed word with %d and reading the output gives the word. */
  lemma DecimalReadsBack(bits: u32, radix: int)
    ensures var r := Format(Some("%d"), [Word(bits)], radix);
            r.Some? && ReadBack(r.value, 10, false) == SignedWord(bits)
  {
    hide NumberText, Parse;
    var args := [Word(bits)];
    var fmt := "%d";
    NumberReadsBack(NO_FLAGS, args, true, 10, false);
    var text := NumberConversion(NO_FLAGS, SignExtend(bits, 0x1_0000_0000), true, 10, false);
    assert Conversion('d', NO_FLAGS, args, SaneRadix(radix)) == Converted(text, 1);
    assert Directive(fmt, 0, 1, NO_FLAGS, args, SaneRadix(radix)) == Some(Done(text, 2, args[1..], false));
    assert Format(Some(fmt), args, radix) == Some(text + "");
    assert text + "" == text;
  }
}
