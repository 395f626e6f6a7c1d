/**
 What whole formats print: plain text prints itself, and a format made of two parts prints the
 two texts, each part with its own arguments.
 */
module FormatLaws {
  import opened MachineTypes
  import opened PrintfText

  lemma {:induction false} PlainFrom(fmt: string, i: nat, args: seq<Arg>, radix: nat)
    requires i <= |fmt| && '%' !in fmt && 2 <= radix <= 36
    ensures Run(fmt, i, args, false, radix) == Some(fmt[i..])
    decreases |fmt| - i
  {
    hide Directive;
    if i < |fmt| {
      PlainFrom(fmt, i + 1, args, radix);
      assert fmt[i] in fmt;
      assert [fmt[i]] + fmt[i + 1..] == fmt[i..];
    } else {
      assert fmt[i..] == "";
    }
  }

  /** A format without directives prints itself and needs no arguments. */
  lemma PlainPrintsItself(fmt: cstring, args: seq<Arg>, radix: int)
    requires '%' !in fmt
    ensures Format(Some(fmt), args, radix) == Some(fmt)
  {
    PlainFrom(fmt, 0, args, SaneRadix(radix));
    assert fmt[0..] == fmt;
  }

  // ----- Where a format ends

  /** The arguments that are left, and whether directives are still obeyed. */
  datatype Rest = Rest(args: seq<Arg>, stop: bool)

  function End(fmt: string, i: nat, args: seq<Arg>, stop: bool, radix: nat): Rest
    requires i <= |fmt| && 2 <= radix <= 36
    decreases |fmt| - i
  {
    if i == |fmt| then Rest(args, stop)
    else if fmt[i] != '%' || stop then End(fmt, i + 1, args, stop, radix)
    else match Directive(fmt, i, i + 1, NO_FLAGS, args, radix)
      case None => Rest(args, stop)
      case Some(d) => End(fmt, d.next, d.args, d.stop, radix)
  }

  // ----- Text and arguments that come later do not matter

  lemma {:induction false} NumberAppend(a: string, b: string, i: nat, n: nat)
    requires i <= |a| && Number(a, i, n).1 < |a|
    ensures Number(a + b, i, n) == Number(a, i, n)
    decreases |a| - i
  {
    if i < |a| && IsDecimal(a[i]) {
      NumberAppend(a, b, i + 1, n * 10 + (a[i] as int - '0' as int));
    }
  }

  lemma ConversionAppend(ch: char, f: Flags, args: seq<Arg>, more: seq<Arg>, radix: nat)
    requires 2 <= radix <= 36 && !Conversion(ch, f, args, radix).NoText?
    ensures Conversion(ch, f, args + more, radix) == Conversion(ch, f, args, radix)
  {
    hide NumberConversion, BitConversion, HexDump, StringConversion;
    if |args| >= 1 {
      assert (args + more)[0] == args[0];
    }
    if |args| >= 2 {
      assert (args + more)[1] == args[1];
    }
  }

  lemma {:induction false} DirectiveAppend(a: string, b: string, pct: nat, i: nat, f: Flags, args: seq<Arg>,
                                           more: seq<Arg>, radix: nat)
    requires pct < i <= |a| && 2 <= radix <= 36 && Directive(a, pct, i, f, args, radix).Some?
    ensures var d := Directive(a, pct, i, f, args, radix).value;
            Directive(a + b, pct, i, f, args + more, radix) == Some(d.(args := d.args + more))
    decreases |a| - i
  {
    hide Conversion, WithFlag, WithNumber, WithStar, IsFlag;
    var ch := a[i];
    assert (a + b)[i] == ch;
    if IsFlag(f, ch) {
      DirectiveAppend(a, b, pct, i + 1, WithFlag(f, ch), args, more, radix);
    } else if IsDecimal(ch) {
      var (n, e) := Number(a, i, 0);
      NumberAppend(a, b, i, 0);
      DirectiveAppend(a, b, pct, e, WithNumber(f, n), args, more, radix);
    } else if ch == '*' {
      assert (args + more)[0] == args[0] && (args + more)[1..] == args[1..] + more;
      DirectiveAppend(a, b, pct, i + 1, WithStar(f, SignedWord(args[0].bits)), args[1..], more, radix);
    } else {
      ConversionAppend(ch, f, args, more, radix);
      assert (a + b)[pct..i + 1] == a[pct..i + 1];
      if Conversion(ch, f, args, radix).Converted? {
        var used := Conversion(ch, f, args, radix).used;
        assert (args + more)[used..] == args[used..] + more;
      }
    }
  }

  // ----- Text that came before does not matter

  lemma {:induction false} NumberShift(a: string, b: string, i: nat, n: nat)
    requires i <= |b|
    ensures Number(a + b, |a| + i, n) == (Number(b, i, n).0, |a| + Number(b, i, n).1)
    decreases |b| - i
  {
    if i < |b| && IsDecimal(b[i]) {
      NumberShift(a, b, i + 1, n * 10 + (b[i] as int - '0' as int));
    }
  }

  function Shifted(r: Option<Done>, offset: nat): Option<Done> {
    match r
    case None => None
    case Some(d) => Some(d.(next := offset + d.next))
  }

  lemma {:induction false} DirectiveShift(a: string, b: string, pct: nat, i: nat, f: Flags, args: seq<Arg>, radix: nat)
    requires pct < i <= |b| && 2 <= radix <= 36
    ensures Directive(a + b, |a| + pct, |a| + i, f, args, radix) == Shifted(Directive(b, pct, i, f, args, radix), |a|)
    decreases |b| - i
  {
    hide Conversion, WithFlag, WithNumber, WithStar, IsFlag;
    if i < |b| {
      var ch := b[i];
      assert (a + b)[|a| + i] == ch;
      if IsFlag(f, ch) {
        DirectiveShift(a, b, pct, i + 1, WithFlag(f, ch), args, radix);
      } else if IsDecimal(ch) {
        var (n, e) := Number(b, i, 0);
        NumberShift(a, b, i, 0);
        DirectiveShift(a, b, pct, e, WithNumber(f, n), args, radix);
      } else if ch == '*' {
        if args != [] && args[0].Word? {
          DirectiveShift(a, b, pct, i + 1, WithStar(f, SignedWord(args[0].bits)), args[1..], radix);
        }
      } else {
        assert (a + b)[|a| + pct..|a| + i + 1] == b[pct..i + 1];
      }
    }
  }

  lemma {:induction false} RunShift(a: string, b: string, i: nat, args: seq<Arg>, stop: bool, radix: nat)
    requires i <= |b| && 2 <= radix <= 36
    ensures Run(a + b, |a| + i, args, stop, radix) == Run(b, i, args, stop, radix)
    decreases |b| - i
  {
    hide Directive;
    if i < |b| {
      assert (a + b)[|a| + i] == b[i];
      if b[i] != '%' || stop {
        RunShift(a, b, i + 1, args, stop, radix);
      } else {
        DirectiveShift(a, b, i, i + 1, NO_FLAGS, args, radix);
        var d := Directive(b, i, i + 1, NO_FLAGS, args, radix);
        if d.Some? {
          RunShift(a, b, d.value.next, d.value.args, d.value.stop, radix);
        }
      }
    }
  }

  // ----- Two parts

  lemma PrependNothing(r: Option<string>)
    ensures Prepend("", r) == r
  {
    if r.Some? {
      assert "" + r.value == r.value;
    }
  }

  lemma PrependTwice(s: string, t: string, r: Option<string>)
    ensures Prepend(s, Prepend(t, r)) == Prepend(s + t, r)
  {
    if r.Some? {
      assert s + (t + r.value) == s + t + r.value;
    }
  }

  lemma {:induction false} RunAppend(a: string, b: string, i: nat, args: seq<Arg>, more: seq<Arg>, stop: bool,
                                     radix: nat)
    requires i <= |a| && 2 <= radix <= 36 && Run(a, i, args, stop, radix).Some?
    ensures var e := End(a, i, args, stop, radix);
            Run(a + b, i, args + more, stop, radix) ==
            Prepend(Run(a, i, args, stop, radix).value, Run(b, 0, e.args + more, e.stop, radix))
    decreases |a| - i
  {
    hide Directive;
    if i == |a| {
      RunShift(a, b, 0, args + more, stop, radix);
      PrependNothing(Run(b, 0, args + more, stop, radix));
    } else {
      assert (a + b)[i] == a[i];
      if a[i] != '%' || stop {
        RunAppend(a, b, i + 1, args, more, stop, radix);
        var e := End(a, i, args, stop, radix);
        PrependTwice([a[i]], Run(a, i + 1, args, stop, radix).value, Run(b, 0, e.args + more, e.stop, radix));
      } else {
        DirectiveAppend(a, b, i, i + 1, NO_FLAGS, args, more, radix);
        var d := Directive(a, i, i + 1, NO_FLAGS, args, radix).value;
        RunAppend(a, b, d.next, d.args, more, d.stop, radix);
        var e := End(a, i, args, stop, radix);
        PrependTwice(d.text, Run(a, d.next, d.args, d.stop, radix).value, Run(b, 0, e.args + more, e.stop, radix));
      }
    }
  }

  /** A format made of two parts, the first of which uses up its arguments, prints the text of the first
      and then the text of the second with its own arguments. After a part that ends with an unknown
      directive, the second part is printed as it stands. */
  lemma FormatsConcatenate(a: cstring, b: cstring, argsA: seq<Arg>, argsB: seq<Arg>, radix: int)
    requires Format(Some(a), argsA, radix).Some?
    ensures var e, text := End(a, 0, argsA, false, SaneRadix(radix)), Format(Some(a), argsA, radix).value;
            '\0' !in a + b &&
            (e == Rest([], false) ==>
               Format(Some(a + b), argsA + argsB, radix) == Prepend(text, Format(Some(b), argsB, radix))) &&
            (e.stop ==> Format(Some(a + b), argsA + argsB, radix) == Some(text + b))
  {
    hide Run, End;
    var r := SaneRadix(radix);
    RunAppend(a, b, 0, argsA, argsB, false, r);
    var e := End(a, 0, argsA, false, r);
    assert e.args == [] ==> e.args + argsB == argsB;
    if e.stop {
      StoppedIsVerbatim(b, 0, e.args + argsB, r);
      assert b[0..] == b;
    }
  }
}
