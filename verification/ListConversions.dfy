/**
 The two conversions that print lists: the hexadecimal dump and the names of the bits of a
 register.
 */
module ListConversions {
  import opened Bits
  import opened Ksprintn
  import opened MachineTypes
  import opened NumberField
  import opened PrintfText

  // ----- Hexadecimal dumps

  predicate IsLowerHex(c: char) {
    '0' <= c <= '9' || 'a' <= c <= 'f'
  }

  function HexValue(c: char): nat
    requires IsLowerHex(c)
  {
    if c <= '9' then c as int - '0' as int else c as int - 'a' as int + 10
  }

  lemma HexDigit(d: nat)
    requires d < 16
    ensures IsLowerHex(DigitChar(d, false)) && HexValue(DigitChar(d, false)) == d
  {}

  /** Reads bytes of two lower-case hexadecimal digits with a separator of known length between them. */
  function ReadDump(s: string, sep: nat, width: nat): seq<nat>
    decreases width
  {
    if width == 0 || |s| < 2 || !IsLowerHex(s[0]) || !IsLowerHex(s[1]) then []
    else
      [16 * HexValue(s[0]) + HexValue(s[1])] +
      ReadDump(if |s| >= 2 + sep then s[2 + sep..] else "", sep, width - 1)
  }

  /** A dump reads back as the bytes, whatever the separator. */
  lemma {:induction false} DumpReadsBack(b: seq<u8>, sep: string, k: nat, width: nat)
    requires k <= width <= |b|
    ensures ReadDump(HexDump(b, sep, k, width), |sep|, width - k) == b[k..width]
    decreases width - k
  {
    hide DigitChar, IsLowerHex, HexValue;
    if k < width {
      HexDigit(b[k] / 16);
      HexDigit(b[k] % 16);
      var pair := [DigitChar(b[k] / 16, false), DigitChar(b[k] % 16, false)];
      var rest := HexDump(b, sep, k + 1, width);
      var s := HexDump(b, sep, k, width);
      assert s == pair + (if k + 1 < width then sep else "") + rest;
      assert s[0] == pair[0] && s[1] == pair[1];
      assert (if |s| >= 2 + |sep| then s[2 + |sep|..] else "") == rest;
      DumpReadsBack(b, sep, k + 1, width);
      assert b[k..width] == [b[k]] + b[k + 1..width];
    }
  }

  /** Two characters a byte, and a separator between bytes. */
  lemma {:induction false} DumpLength(b: seq<u8>, sep: string, k: nat, width: nat)
    requires k < width <= |b|
    ensures |HexDump(b, sep, k, width)| == 2 * (width - k) + (width - k - 1) * |sep|
    decreases width - k
  {
    hide DigitChar;
    if k + 1 < width {
      DumpLength(b, sep, k + 1, width);
      assert (width - k - 1) * |sep| == (width - k - 2) * |sep| + |sep|;
    } else {
      assert HexDump(b, sep, width, width) == "";
    }
  }

  // ----- Names of bits

  /** A named bit, counted from 1. */
  datatype Named = Named(bit: nat, name: string) {
    predicate Valid() {
      1 <= bit <= 32 && forall i | 0 <= i < |name| :: InName(name[i])
    }
  }

  type BitName = n: Named | n.Valid() witness Named(1, "")

  /** How a description lists its bits. */
  function Described(names: seq<BitName>): string
  {
    if names == [] then "" else [names[0].bit as char] + names[0].name + Described(names[1..])
  }

  /** The names of the bits that are set in a number, in the order of the description. */
  function SetNames(num: u32, names: seq<BitName>): seq<string>
  {
    if names == [] then []
    else (if Bit(num, names[0].bit - 1) then [names[0].name] else []) + SetNames(num, names[1..])
  }

  /** Each name after its separator. */
  function Separated(names: seq<string>): string {
    if names == [] then "" else "," + names[0] + Separated(names[1..])
  }

  /** A list in angle brackets with commas between; nothing for no names. */
  function Bracketed(names: seq<string>): string {
    if names == [] then "" else "<" + names[0] + Separated(names[1..]) + ">"
  }

  /** What is printed once some name has been printed, or before any has. */
  function Remaining(any: bool, names: seq<string>): string {
    if any then Separated(names) + ">" else Bracketed(names)
  }

  lemma {:induction false} NameEnds(p: string, i: nat, e: nat)
    requires i <= e <= |p| && forall j | i <= j < e :: InName(p[j])
    requires e == |p| || !InName(p[e])
    ensures NameEnd(p, i) == e
    decreases e - i
  {
    if i < e {
      NameEnds(p, i + 1, e);
    }
  }

  /** One entry of a description. */
  lemma EntryStep(num: u32, p: string, i: nat, any: bool)
    requires i < |p| && 1 <= p[i] as int <= 32
    ensures var e := NameEnd(p, i + 1);
            BitNames(num, p, i, any) ==
              if Bit(num, p[i] as int - 1) then
                Prepend([if any then ',' else '<'] + p[i + 1..e], BitNames(num, p, e, true))
              else BitNames(num, p, e, any)
  {
    hide NameEnd, Bit;
  }

  lemma NoEntries(num: u32, pre: string, any: bool)
    ensures BitNames(num, pre + Described([]), |pre|, any) == Some(Remaining(any, SetNames(num, [])))
  {
    assert pre + Described([]) == pre;
    assert "" + ">" == ">";
  }

  /** The next entry starts with a control character, which ends a name. */
  lemma NameStops(pre: string, names: seq<BitName>)
    ensures var p := pre + Described(names); |pre| == |p| || !InName(p[|pre|])
  {
    var d := Described(names);
    if names != [] {
      assert d[0] == names[0].bit as char;
      assert (pre + d)[|pre|] == d[0];
    } else {
      assert pre + d == pre;
    }
  }

  lemma DescribedStep(names: seq<BitName>)
    requires names != []
    ensures Described(names) == [names[0].bit as char] + names[0].name + Described(names[1..])
  {}

  lemma Slices(pre: string, c: char, name: string, rest: string)
    ensures var p, e := pre + ([c] + name) + rest, |pre| + 1 + |name|;
            |p| >= e && p[|pre|] == c && p[|pre| + 1..e] == name && p[e..] == rest &&
            forall j | |pre| + 1 <= j < e :: p[j] == name[j - |pre| - 1]
  {}

  /** Where the first entry of a description is, and where its name ends. */
  lemma EntryAt(pre: string, names: seq<BitName>)
    requires names != []
    ensures var p, entry := pre + Described(names), [names[0].bit as char] + names[0].name;
            p == pre + entry + Described(names[1..]) && p[|pre|] == names[0].bit as char &&
            NameEnd(p, |pre| + 1) == |pre + entry| && p[|pre| + 1..|pre + entry|] == names[0].name
  {
    hide NameEnd, InName, Described;
    var entry, rest := [names[0].bit as char] + names[0].name, Described(names[1..]);
    var p := pre + Described(names);
    DescribedStep(names);
    assert p == pre + (entry + rest) == pre + entry + rest;
    Slices(pre, names[0].bit as char, names[0].name, rest);
    NameStops(pre + entry, names[1..]);
    NameEnds(p, |pre| + 1, |pre + entry|);
  }

  lemma RemainingStep(any: bool, name: string, names: seq<string>)
    ensures [if any then ',' else '<'] + name + Remaining(true, names) == Remaining(any, [name] + names)
  {
    var all := [name] + names;
    assert all[0] == name && all[1..] == names;
    if any {
      assert Separated(all) == "," + name + Separated(names);
      assert [','] + name + (Separated(names) + ">") == "," + name + Separated(names) + ">";
    } else {
      assert ['<'] + name + (Separated(names) + ">") == "<" + name + Separated(names) + ">";
    }
  }

  lemma {:induction false} NamesFrom(num: u32, pre: string, names: seq<BitName>, any: bool)
    ensures BitNames(num, pre + Described(names), |pre|, any) == Some(Remaining(any, SetNames(num, names)))
    decreases |names|
  {
    hide Bit, NameEnd, BitNames, Remaining;
    if names == [] {
      NoEntries(num, pre, any);
    } else {
      var first, rest := names[0], names[1..];
      var entry := [first.bit as char] + first.name;
      EntryAt(pre, names);
      NamesFrom(num, pre + entry, rest, any || Bit(num, first.bit - 1));
      EntryStep(num, pre + Described(names), |pre|, any);
      RemainingStep(any, first.name, SetNames(num, rest));
      assert Bit(num, first.bit - 1) ==> SetNames(num, names) == [first.name] + SetNames(num, rest);
      assert !Bit(num, first.bit - 1) ==> SetNames(num, names) == SetNames(num, rest);
    }
  }

  lemma {:induction false} NoneSet(names: seq<BitName>)
    ensures SetNames(0, names) == []
  {
    hide Bit;
    if names != [] {
      ZeroBit(names[0].bit - 1);
      NoneSet(names[1..]);
    }
  }

  /** The b conversion prints the number in the base the description starts with, and then exactly the
      names of the bits that are set. */
  lemma BitsAreNamed(num: u32, base: nat, names: seq<BitName>)
    requires 2 <= base <= 36
    ensures BitConversion(num, [base as char] + Described(names)) ==
            Some(Digits(num, base, false) + Bracketed(SetNames(num, names)))
  {
    hide Digits, BitNames;
    NamesFrom(num, [base as char], names, false);
    if num == 0 {
      NoneSet(names);
      assert Digits(num, base, false) + "" == Digits(num, base, false);
    }
  }

  const EXAMPLE: seq<BitName> := [Named(2, "BITTWO"), Named(1, "BITONE"), Named(10, "")]

  lemma ExampleDescribed()
    ensures Described(EXAMPLE) == [2 as char] + "BITTWO" + ([1 as char] + "BITONE" + [10 as char])
  {
    assert EXAMPLE[1..] == [Named(1, "BITONE"), Named(10, "")];
    assert EXAMPLE[1..][1..] == [Named(10, "")];
    assert Described([Named(10, "")]) == [10 as char];
    assert Described(EXAMPLE[1..]) == [1 as char] + "BITONE" + Described(EXAMPLE[1..][1..]);
  }

  lemma BitsOfThree()
    ensures Bit(3, 0) && Bit(3, 1) && !Bit(3, 9)
  {
    assert !Bit(0, 7) by { ZeroBit(7); }
  }

  lemma ExampleSet()
    ensures SetNames(3, EXAMPLE) == ["BITTWO", "BITONE"]
  {
    hide Bit;
    BitsOfThree();
    assert EXAMPLE[1..] == [Named(1, "BITONE"), Named(10, "")];
    assert EXAMPLE[1..][1..] == [Named(10, "")];
    assert SetNames(3, EXAMPLE[1..][1..]) == [];
    assert SetNames(3, EXAMPLE[1..]) == ["BITONE"];
  }

  lemma BracketedPair(a: string, b: string)
    ensures Bracketed([a, b]) == "<" + a + "," + b + ">"
  {
    assert [a, b][1..] == [b] && [b][1..] == [];
    assert Separated([b]) == "," + b;
    assert "<" + a + ("," + b) + ">" == "<" + a + "," + b + ">";
  }

  lemma ThreeInOctal()
    ensures Digits(3, 8, false) == "3"
  {}

  /** The example in the interpreter's own documentation: 3 with "\10\2BITTWO\1BITONE\n". */
  lemma DocumentedExample()
    ensures BitConversion(3, [8 as char] + ([2 as char] + "BITTWO" + ([1 as char] + "BITONE" + [10 as char]))) ==
            Some("3<BITTWO,BITONE>")
  {
    hide BitConversion, Digits, Described, SetNames, Bracketed, Bit;
    BitsAreNamed(3, 8, EXAMPLE);
    ExampleDescribed();
    ExampleSet();
    BracketedPair("BITTWO", "BITONE");
    ThreeInOctal();
    assert "3" + ("<" + "BITTWO" + "," + "BITONE" + ">") == "3<BITTWO,BITONE>";
  }

  // ----- The number in front of the names

  lemma {:induction false} NamesOpen(num: u32, p: string, i: nat)
    requires i <= |p| && BitNames(num, p, i, false).Some?
    ensures var names := BitNames(num, p, i, false).value; names == "" || names[0] == '<'
    decreases |p| - i
  {
    hide BitSet, NameEnd;
    if i < |p| && !BitSet(num, p[i] as int) {
      NamesOpen(num, p, NameEnd(p, i + 1));
    }
  }

  /** The digits that a b conversion starts with evaluate to the number, whatever the description. */
  lemma BitsReadBack(num: u32, p: string)
    requires BitConversion(num, p).Some?
    ensures p != "" && Eval(DigitRun(BitConversion(num, p).value), p[0] as int) == num
  {
    hide Digits, BitNames, DigitRun, Eval, DigitValue;
    var base := p[0] as int;
    var digits := Digits(num, base, false);
    DigitsEval(num, base, false);
    if num == 0 {
      DigitRunStops(digits, "");
      assert digits + "" == digits;
    } else {
      NamesOpen(num, p, 1);
      DigitRunStops(digits, BitNames(num, p, 1, false).value);
    }
  }
}
