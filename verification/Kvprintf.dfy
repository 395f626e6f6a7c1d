/**
 The directive interpreter and its two sinks: a buffer the caller promises is large enough,
 and a bounded buffer. What is written is proved to be the text of PrintfText.
 */
module Kvprintf {
  import opened Bits
  import opened Ksprintn
  import opened MachineTypes
  import opened NumberField
  import opened PrintfText

  // ----- The bounded sink

  /** The caller's buffer, where the next character goes, and the room that is left. */
  datatype Bounded = Bounded(mem: string, pos: nat, remain: nat)

  /** One character, as snprintf_func stores it: the last place is kept for the NUL. */
  function Store(b: Bounded, ch: char): Bounded {
    if b.remain >= 2 && b.pos < |b.mem| then Bounded(b.mem[b.pos := ch], b.pos + 1, b.remain - 1) else b
  }

  function StoreAll(b: Bounded, text: string): Bounded
    decreases |text|
  {
    if text == "" then b else Store(StoreAll(b, text[..|text| - 1]), text[|text| - 1])
  }

  function Kept(size: nat, text: string): nat {
    if size == 0 then 0 else if |text| < size - 1 then |text| else size - 1
  }

  /** Storing character by character leaves a prefix of the text. */
  lemma {:induction false} StoreAllIsPrefix(mem: string, size: nat, text: string)
    requires size <= |mem|
    ensures var k := Kept(size, text);
            StoreAll(Bounded(mem, 0, size), text) == Bounded(text[..k] + mem[k..], k, size - k)
    decreases |text|
  {
    var k := Kept(size, text);
    if text == "" {
      assert text[..k] + mem[k..] == mem;
    } else {
      var t := text[..|text| - 1];
      StoreAllIsPrefix(mem, size, t);
      var j := Kept(size, t);
      if j == k {
        assert text[..k] == t[..j];
      } else {
        assert (t[..j] + mem[j..])[j := text[j]] == text[..k] + mem[k..];
      }
    }
  }

  /** What vsnprintf leaves in the buffer. */
  function Image(mem: string, size: nat, text: string): (r: string)
    requires size <= |mem|
    ensures |r| == |mem|
  {
    if size == 0 then mem
    else
      var k := Kept(size, text);
      text[..k] + ['\0'] + mem[k + 1..]
  }

  /** The NUL put after what was stored completes the image. */
  lemma StoredImage(mem: string, size: nat, text: string)
    requires size <= |mem|
    ensures var b := StoreAll(Bounded(mem, 0, size), text);
            |b.mem| == |mem| && (b.remain == 0 <==> size == 0) &&
            (size == 0 ==> b.mem == Image(mem, size, text)) &&
            (size > 0 ==> b.pos < |mem| && b.mem[b.pos := '\0'] == Image(mem, size, text))
  {
    hide StoreAll;
    StoreAllIsPrefix(mem, size, text);
    var k := Kept(size, text);
    if size > 0 {
      assert (text[..k] + mem[k..])[k := '\0'] == text[..k] + ['\0'] + mem[k + 1..];
    } else {
      assert text[..0] + mem[0..] == mem;
    }
  }

  /** Storing a text and a NUL through the bounded sink leaves what the unbounded sink holds, cut to
      size - 1 characters, and a NUL after them; nothing beyond it is touched. */
  lemma BoundedRefinesUnbounded(mem: string, size: nat, text: string)
    requires 1 <= size <= |mem|
    ensures var unbounded := text + ['\0'];
            var b := StoreAll(Bounded(mem, 0, size), text);
            var k := if |text| < size - 1 then |text| else size - 1;
            b.pos == k && |b.mem| == |mem| &&
            var bounded := b.mem[k := '\0'];
            bounded[..k] == unbounded[..k] && bounded[k + 1..] == mem[k + 1..] &&
            (size > |text| ==> bounded[..|text| + 1] == unbounded)
  {
    hide StoreAll;
    StoreAllIsPrefix(mem, size, text);
  }

  // ----- Pieces of text

  lemma Regroup(a: string, b: string, c: string)
    ensures a + b + c == a + (b + c)
  {}

  lemma TwoThen(was: string, a: char, b: char, s: string)
    ensures was + [a] + [b] + s == was + ([a, b] + s)
    ensures s == "" ==> was + [a] + [b] == was + ([a, b] + s)
  {}

  /** One byte of a dump. */
  lemma DumpStep(b: seq<u8>, sep: string, k: nat, width: nat)
    requires k <= width <= |b|
    ensures k < width ==>
              HexDump(b, sep, k, width) ==
              [DigitChar(b[k] / 16, false), DigitChar(b[k] % 16, false)] +
              (if k + 1 < width then sep else "") + HexDump(b, sep, k + 1, width)
    ensures k == width ==> HexDump(b, sep, k, width) == ""
  {
    hide DigitChar;
  }

  /** Reads a decimal number. */
  method ReadNumber(fmt: string, i0: nat) returns (n: int, i: nat)
    requires i0 < |fmt| && IsDecimal(fmt[i0])
    ensures (n, i) == Number(fmt, i0, 0) && i0 < i <= |fmt|
  {
    n, i := 0, i0;
    while i < |fmt| && IsDecimal(fmt[i])
      invariant i0 <= i <= |fmt| && n >= 0 && Number(fmt, i, n) == Number(fmt, i0, 0)
      decreases |fmt| - i
    {
      n := n * 10 + (fmt[i] as int - '0' as int);
      i := i + 1;
    }
  }

  lemma Regroup3(a: string, b: string, c: string, d: string)
    ensures a + b + c + d == a + (b + c + d)
  {}

  /** The number of characters an s conversion shows. */
  method CountShown(f: Flags, s: string) returns (n: nat)
    ensures n == Shown(f, s)
  {
    n := 0;
    if !f.dot {
      n := |s|;
    } else {
      while n < f.dwidth && n < |s|
        invariant n <= |s| && (n == 0 || n <= f.dwidth)
      {
        n := n + 1;
      }
    }
  }

  /** Passes over the rest of a bit's name. */
  method SkipName(p: string, i0: nat) returns (i: nat)
    requires i0 <= |p|
    ensures i == NameEnd(p, i0)
  {
    i := i0;
    while i < |p| && InName(p[i])
      invariant i <= |p| && NameEnd(p, i) == NameEnd(p, i0)
    {
      i := i + 1;
    }
  }

  lemma RepeatNegative(c: char, n: int)
    ensures n <= 0 ==> Repeat(c, n) == ""
  {}

  lemma Assemble(start: string, a: string, sign: string, prefix: string, zeros: string, digits: string, b: string)
    ensures start + a + sign + prefix + zeros + digits + b == start + (a + sign + prefix + zeros + digits + b)
  {
    assert start + (a + sign + prefix) == start + a + sign + prefix;
    assert start + (a + sign + prefix + zeros + digits) == start + (a + sign + prefix) + zeros + digits;
  }

  method LeadLength(f: Layout, neg: bool, num: nat) returns (tmp: nat)
    ensures tmp == Lead(f, neg, num)
  {
    tmp := 0;
    if f.alternate && num != 0 {
      if f.base == 8 {
        tmp := tmp + 1;
      } else if f.base == 16 {
        tmp := tmp + 2;
      }
    }
    if neg {
      tmp := tmp + 1;
    }
  }

  lemma NoNul(num: nat, base: nat, upper: bool)
    requires 2 <= base <= 36
    ensures forall i | 0 <= i < |Digits(num, base, upper)| :: Digits(num, base, upper)[i] != '\0'
  {
    hide Digits;
    DigitsAreDigits(num, base, upper);
    forall i | 0 <= i < |Digits(num, base, upper)| ensures Digits(num, base, upper)[i] != '\0' {
      assert Digits(num, base, upper)[i] in Digits(num, base, upper);
    }
  }

  // ----- The interpreter

  /** One activation of the interpreter: where its characters go, and how many there were. */
  class Output {
    const bounded: bool      // func is snprintf_func, not NULL
    const str: array<char>   // the buffer of the bounded sink
    const size: nat
    var pos: nat
    var remain: nat
    var direct: string       // the characters stored through d
    var retval: nat
    ghost const before: string
    ghost var text: string

    ghost predicate Valid()
      reads this, str
    {
      retval == |text| &&
      (if bounded then
         size <= |before| && StoreAll(Bounded(before, 0, size), text) == Bounded(str[..], pos, remain)
       else direct == text)
    }

    constructor Direct()
      ensures Valid() && !bounded && text == "" && fresh(str)
    {
      bounded, size, pos, remain, direct, retval := false, 0, 0, 0, "", 0;
      str := new char[0];
      before, text := "", "";
    }

    constructor Snprintf(str: array<char>, size: nat)
      requires size <= str.Length
      ensures Valid() && bounded && this.str == str && this.size == size && text == "" && before == str[..]
    {
      bounded := true;
      this.str, this.size := str, size;
      pos, remain, direct, retval := 0, size, "", 0;
      before, text := str[..], "";
    }

    /** The PCHAR macro. */
    method PChar(ch: char)
      requires Valid()
      modifies this, str
      ensures Valid() && text == old(text) + [ch]
    {
      assert (text + [ch])[..|text|] == text;
      if bounded {
        StoreAllIsPrefix(before, size, text);
        assert str.Length == |str[..]| == |before| && pos == Kept(size, text) && remain == size - pos;
        if remain >= 2 {
          str[pos] := ch;
          pos := pos + 1;
          remain := remain - 1;
        }
      } else {
        direct := direct + [ch];
      }
      retval := retval + 1;
      text := text + [ch];
    }

    /** while (n-- > 0) PCHAR(c); */
    method Pad(c: char, n: int)
      requires Valid()
      modifies this, str
      ensures Valid() && text == old(text) + Repeat(c, n)
    {
      var width := n;
      while width > 0
        invariant Valid() && text + Repeat(c, width) == old(text) + Repeat(c, n)
        decreases width
      {
        PChar(c);
        width := width - 1;
        assert text + Repeat(c, width) == text[..|text| - 1] + Repeat(c, width + 1);
      }
    }

    method Characters(s: string)
      requires Valid()
      modifies this, str
      ensures Valid() && text == old(text) + s
    {
      var i := 0;
      while i < |s|
        invariant i <= |s| && Valid() && text == old(text) + s[..i]
      {
        PChar(s[i]);
        i := i + 1;
      }
    }

    /** Prints a number's digits from a buffer filled in reverse. */
    method Reversed(nbuf: array<char>, p: nat, ghost s: string)
      requires Valid() && nbuf != str && p == |s| < nbuf.Length && nbuf[0] == '\0'
      requires forall i | 1 <= i <= p :: nbuf[i] == s[p - i] && nbuf[i] != '\0'
      modifies this, str
      ensures Valid() && text == old(text) + s
    {
      var q: nat := p;
      while nbuf[q] != '\0'
        invariant q <= p && Valid() && text == old(text) + s[..p - q]
        invariant nbuf[0] == '\0' && forall i | 1 <= i <= p :: nbuf[i] == s[p - i] && nbuf[i] != '\0'
        decreases q
      {
        PChar(nbuf[q]);
        q := q - 1;
      }
    }

    /** The sign and the prefix. */
    method EmitLead(f: Layout, neg: bool, num: nat)
      requires Valid()
      modifies this, str
      ensures Valid() && text == old(text) + Sign(neg) + Prefix(f, num)
    {
      hide Valid;
      if neg {
        PChar('-');
      }
      if f.alternate && num != 0 {
        if f.base == 8 {
          PChar('0');
        } else if f.base == 16 {
          PChar('0');
          PChar('x');
        }
      }
    }

    /** A number in its field. */
    method EmitNumber(f: Layout, neg: bool, num: nat)
      requires Valid() && f.Valid() && num < Pow2(64)
      modifies this, str
      ensures Valid() && text == old(text) + NumberText(f, neg, num)
    {
      hide Digits, Repeat, Pow2, IsDigit, DigitValue, Valid, StoreAll;
      var nbuf := new char[MAXNBUF];
      var n := WriteDigits(nbuf, num, f.base, f.upper);
      ghost var digits := Digits(num, f.base, f.upper);
      NoNul(num, f.base, f.upper);
      var width, dwidth := f.width, f.precision;
      var tmp := LeadLength(f, neg, num);
      if !f.left && f.zeroPad {
        dwidth := width - tmp;
      }
      width := width - (tmp + Max(dwidth, n));
      dwidth := dwidth - n;
      assert width == Spaces(f, neg, num) && dwidth == Zeros(f, neg, num);
      ghost var start := text;
      ghost var a := Repeat(' ', if f.left then 0 else width);
      ghost var b := Repeat(' ', if f.left then width else 0);
      RepeatNegative(' ', 0);
      if !f.left {
        Pad(' ', width);
      }
      assert text == start + a;
      EmitLead(f, neg, num);
      Pad('0', dwidth);
      Reversed(nbuf, n, digits);
      if f.left {
        Pad(' ', width);
      }
      assert text == start + a + Sign(neg) + Prefix(f, num) + Repeat('0', dwidth) + digits + b;
      Assemble(start, a, Sign(neg), Prefix(f, num), Repeat('0', dwidth), digits, b);
    }

    /** The s conversion. */
    method EmitString(f: Flags, s: string)
      requires Valid()
      modifies this, str
      ensures Valid() && text == old(text) + StringConversion(f, s)
    {
      hide Repeat, Valid, Shown;
      var n := CountShown(f, s);
      var width := f.width - n;
      ghost var a := Repeat(PadChar(f), if f.left then 0 else width);
      ghost var b := Repeat(PadChar(f), if f.left then width else 0);
      RepeatNegative(PadChar(f), width);
      RepeatNegative(PadChar(f), 0);
      if !f.left && width > 0 {
        Pad(PadChar(f), width);
      }
      assert text == old(text) + a;
      Characters(s[..n]);
      if f.left && width > 0 {
        Pad(PadChar(f), width);
      }
      Regroup3(old(text), a, s[..n], b);
    }

    /** The D conversion. */
    method EmitDump(b: seq<u8>, sep: cstring, width0: nat)
      requires Valid() && width0 <= |b|
      modifies this, str
      ensures Valid() && text == old(text) + HexDump(b, sep, 0, width0)
    {
      hide Valid, HexDump, DigitChar;
      var width := width0;
      var k := 0;
      DumpStep(b, sep, width0, width0);
      while width > 0
        invariant k + width == width0 && Valid()
        invariant text + HexDump(b, sep, k, width0) == old(text) + HexDump(b, sep, 0, width0)
        decreases width
      {
        ghost var was := text;
        DumpStep(b, sep, k, width0);
        width := width - 1;
        PChar(DigitChar(b[k] / 16, false));
        PChar(DigitChar(b[k] % 16, false));
        if width > 0 {
          Characters(sep);
        }
        ghost var high, low := DigitChar(b[k] / 16, false), DigitChar(b[k] % 16, false);
        ghost var piece := [high, low] + (if width > 0 then sep else "");
        assert text == was + piece by { TwoThen(was, high, low, if width > 0 then sep else ""); }
        k := k + 1;
        Regroup(was, piece, HexDump(b, sep, k, width0));
      }
    }

    /** Prints the rest of a bit's name. */
    method EmitName(p: string, i0: nat) returns (i: nat)
      requires Valid() && i0 <= |p|
      modifies this, str
      ensures Valid() && i == NameEnd(p, i0) && text == old(text) + p[i0..i]
    {
      hide Valid;
      i := i0;
      while i < |p| && InName(p[i])
        invariant i0 <= i <= |p| && Valid() && NameEnd(p, i) == NameEnd(p, i0)
        invariant text == old(text) + p[i0..i]
      {
        PChar(p[i]);
        i := i + 1;
      }
    }

    /** The names of the set bits, for the b conversion. */
    method EmitNames(num: u32, p: string)
      requires Valid() && p != "" && BitNames(num, p, 1, false).Some?
      modifies this, str
      ensures Valid() && text == old(text) + BitNames(num, p, 1, false).value
    {
      hide Valid, BitSet, NameEnd;
      var i := 1;
      var any := false;
      while i < |p|
        invariant 1 <= i <= |p| && Valid() && BitNames(num, p, i, any).Some?
        invariant text + BitNames(num, p, i, any).value == old(text) + BitNames(num, p, 1, false).value
      {
        var n := p[i] as int;
        ghost var start, e := text, NameEnd(p, i + 1);
        if BitSet(num, n) {
          ghost var mark := [if any then ',' else '<'];
          Regroup3(start, mark, p[i + 1..e], BitNames(num, p, e, true).value);
          PChar(if any then ',' else '<');
          i := EmitName(p, i + 1);
          any := true;
        } else {
          i := SkipName(p, i + 1);
        }
      }
      if any {
        PChar('>');
      }
    }

    /** The b conversion. */
    method EmitBits(num: u32, p: cstring)
      requires Valid() && BitConversion(num, p).Some?
      modifies this, str
      ensures Valid() && text == old(text) + BitConversion(num, p).value
    {
      hide Valid, Digits, BitNames, Pow2;
      var nbuf := new char[MAXNBUF];
      Pow2Values();
      var n := WriteDigits(nbuf, num, p[0] as int, false);
      NoNul(num, p[0] as int, false);
      Reversed(nbuf, n, Digits(num, p[0] as int, false));
      if num != 0 {
        EmitNames(num, p);
      }
    }

    /** One conversion; unknown characters are left to the caller. */
    method Convert(ch: char, f: Flags, args: seq<Arg>, radix: nat) returns (known: bool, used: nat)
      requires Valid() && 2 <= radix <= 36 && !Conversion(ch, f, args, radix).NoText?
      modifies this, str
      ensures Valid() && known == Conversion(ch, f, args, radix).Converted?
      ensures text == old(text) + if known then Conversion(ch, f, args, radix).text else ""
      ensures known ==> used == Conversion(ch, f, args, radix).used
    {
      hide Valid, StringConversion, HexDump, BitConversion, NumberConversion, SignedArg, UnsignedArg, Pow2, Repeat;
      known, used := true, 1;
      match ch
      case '%' =>
        PChar(ch);
        used := 0;
      case 'b' =>
        EmitBits(args[0].bits, args[1].s);
        used := 2;
      case 'c' =>
        PChar((args[0].bits % 0x100) as char);
      case 'D' =>
        var width := if f.width == 0 then 16 else f.width;
        EmitDump(args[0].b, args[1].s, width);
        used := 2;
      case 'd' =>
        EmitValue(f, SignedArg(f, args), true, 10, false);
      case 'i' =>
        EmitValue(f, SignedArg(f, args), true, 10, false);
      case 'o' =>
        EmitValue(f, UnsignedArg(f, args), false, 8, false);
      case 'p' =>
        EmitValue(f.(sharp := f.width == 0), Some(args[0].bits), false, 16, false);
      case 'r' =>
        EmitValue(f, if f.sign then SignedArg(f, args) else UnsignedArg(f, args), f.sign, radix, false);
      case 's' =>
        EmitString(f, if args[0].Null? then "(null)" else args[0].s);
      case 'u' =>
        EmitValue(f, UnsignedArg(f, args), false, 10, false);
      case 'x' =>
        EmitValue(f, UnsignedArg(f, args), false, 16, false);
      case 'X' =>
        EmitValue(f, UnsignedArg(f, args), false, 16, true);
      case 'y' =>
        EmitValue(f, SignedArg(f, args), true, 16, false);
      case _ =>
        known, used := false, 0;
    }

    /** A number argument: takes the sign off and prints the field. */
    method EmitValue(f: Flags, v: Option<u64>, signed: bool, base: nat, upper: bool)
      requires Valid() && 2 <= base <= 36 && FromNumber(f, v, signed, base, upper).Converted?
      modifies this, str
      ensures Valid() && FromNumber(f, v, signed, base, upper).used == 1
      ensures text == old(text) + FromNumber(f, v, signed, base, upper).text
    {
      hide Valid, NumberText, Pow2;
      Pow2Values();
      var neg, num: nat := false, v.value;
      if signed && IsNegative(num) {
        neg := true;
        num := Negated(num);
      }
      EmitNumber(LayoutOf(f, base, upper), neg, num);
    }

    /** One directive: flags, widths and precisions, and then the conversion. */
    method EmitDirective(fmt: string, pct: nat, i0: nat, args0: seq<Arg>, radix: nat)
      returns (i: nat, args: seq<Arg>, stop: bool)
      requires Valid() && pct < i0 <= |fmt| && 2 <= radix <= 36
      requires Directive(fmt, pct, i0, NO_FLAGS, args0, radix).Some?
      modifies this, str
      ensures Valid()
      ensures var d := Directive(fmt, pct, i0, NO_FLAGS, args0, radix).value;
              i == d.next && args == d.args && stop == d.stop && text == old(text) + d.text
    {
      hide Valid, Conversion, WithFlag, WithNumber, WithStar, IsFlag;
      i, args, stop := i0, args0, false;
      var f := NO_FLAGS;
      var looping := true;
      while looping
        invariant pct < i <= |fmt| && Valid() && !stop
        invariant looping ==> text == old(text)
        invariant looping ==> Directive(fmt, pct, i, f, args, radix) == Directive(fmt, pct, i0, NO_FLAGS, args0, radix)
        invariant !looping ==>
                    var d := Directive(fmt, pct, i0, NO_FLAGS, args0, radix).value;
                    i == d.next && args == d.args && !d.stop && text == old(text) + d.text
        decreases looping, |fmt| - i
      {
        var ch := fmt[i];
        if IsFlag(f, ch) {
          f := WithFlag(f, ch);
          i := i + 1;
        } else if IsDecimal(ch) {
          var n;
          n, i := ReadNumber(fmt, i);
          f := WithNumber(f, n);
        } else if ch == '*' {
          f := WithStar(f, SignedWord(args[0].bits));
          args := args[1..];
          i := i + 1;
        } else {
          var known, used := Convert(ch, f, args, radix);
          i := i + 1;
          if !known {
            Characters(fmt[pct..i]);
            stop := true;
            return;
          }
          args := args[used..];
          looping := false;
        }
      }
    }

    /** Ordinary characters are copied and directives are interpreted. */
    method InterpretFrom(fmt: string, args0: seq<Arg>, radix: nat)
      requires Valid() && 2 <= radix <= 36 && Run(fmt, 0, args0, false, radix).Some?
      modifies this, str
      ensures Valid() && text == old(text) + Run(fmt, 0, args0, false, radix).value
    {
      hide Valid, Directive;
      var i, args, stop := 0, args0, false;
      while i < |fmt|
        invariant i <= |fmt| && Valid() && Run(fmt, i, args, stop, radix).Some?
        invariant text + Run(fmt, i, args, stop, radix).value == old(text) + Run(fmt, 0, args0, false, radix).value
        decreases |fmt| - i
      {
        ghost var was, all := text, Run(fmt, i, args, stop, radix).value;
        ghost var piece;
        if fmt[i] != '%' || stop {
          piece := [fmt[i]];
          PChar(fmt[i]);
          i := i + 1;
        } else {
          piece := Directive(fmt, i, i + 1, NO_FLAGS, args, radix).value.text;
          i, args, stop := EmitDirective(fmt, i, i + 1, args, radix);
        }
        Regroup(was, piece, Run(fmt, i, args, stop, radix).value);
      }
    }

    /** Interprets a format; retval counts the characters. */
    method Interpret(format: Option<cstring>, args: seq<Arg>, radix: int)
      requires Valid() && text == "" && Format(format, args, radix).Some?
      modifies this, str
      ensures Valid() && text == Format(format, args, radix).value && retval == |text|
    {
      hide Run, StoreAll;
      InterpretFrom(if format.None? then NULL_FORMAT else format.value, args, SaneRadix(radix));
    }
  }

  // ----- The entry points

  /** vsprintf: writes the text and a NUL. */
  method Vsprintf(format: Option<cstring>, args: seq<Arg>) returns (buf: string, retval: nat)
    requires Format(format, args, 10).Some?
    ensures var text := Format(format, args, 10).value; buf == text + ['\0'] && retval == |text|
  {
    var out := new Output.Direct();
    out.Interpret(format, args, 10);
    retval := out.retval;
    buf := out.direct[..retval] + ['\0'];
  }

  /** vsnrprintf: writes as much of the text as fits, and a NUL; returns the full length. */
  method Vsnrprintf(str: array<char>, size: nat, radix: int, format: Option<cstring>, args: seq<Arg>)
    returns (retval: nat)
    requires size <= str.Length && Format(format, args, radix).Some?
    modifies str
    ensures var text := Format(format, args, radix).value;
            str[..] == Image(old(str[..]), size, text) && retval == |text|
  {
    var info := new Output.Snprintf(str, size);
    hide Format, StoreAll, Image;
    info.Interpret(format, args, radix);
    retval := info.retval;
    StoredImage(info.before, size, info.text);
    if info.remain >= 1 {
      str[info.pos] := '\0';
      info.pos := info.pos + 1;
    }
  }

  method Vsnprintf(str: array<char>, size: nat, format: Option<cstring>, args: seq<Arg>) returns (retval: nat)
    requires size <= str.Length && Format(format, args, 10).Some?
    modifies str
    ensures var text := Format(format, args, 10).value;
            str[..] == Image(old(str[..]), size, text) && retval == |text|
  {
    retval := Vsnrprintf(str, size, 10, format, args);
  }
}
