/**
 Numbers as digit strings: what ksprintn writes and what the digits mean.
 */
module Ksprintn {
  import opened Bits

  /** 64 bits in base 2, plus the NUL. */
  const MAXNBUF: nat := 65

  /** No digit is a NUL, a space or a sign. */
  predicate IsDigit(c: char) {
    '0' <= c <= '9' || 'a' <= c <= 'z' || 'A' <= c <= 'Z'
  }

  /** The digit a character stands for. */
  function DigitValue(c: char): nat
    requires IsDigit(c)
  {
    if c <= '9' then c as int - '0' as int
    else if c <= 'Z' then c as int - 'A' as int + 10
    else c as int - 'a' as int + 10
  }

  /** hex2ascii_data holds '0' to '9' and then 'a' to 'z'; toupper maps the letters to 'A' to 'Z'. */
  function DigitChar(d: nat, upper: bool): (c: char)
    requires d < 36
    ensures c == '0' <==> d == 0
    ensures IsDigit(c) && DigitValue(c) == d
    ensures if upper then !('a' <= c <= 'z') else !('A' <= c <= 'Z')
  {
    if d < 10 then ('0' as int + d) as char
    else if upper then ('A' as int + (d - 10)) as char
    else ('a' as int + (d - 10)) as char
  }

  lemma MulGrows(a: nat, b: nat)
    ensures a * b >= 0
  {}

  lemma DivSmaller(num: nat, base: nat)
    requires 2 <= base <= num
    ensures 1 <= num / base < num && 2 * (num / base) <= num
    ensures num == base * (num / base) + num % base
  {
    var q, r := num / base, num % base;
    assert num == base * q + r;
    if q >= 1 {
      MulGrows(base - 2, q);
      assert (base - 2) * q == base * q - 2 * q;
    }
  }

  function LastDigit(num: nat, base: nat, upper: bool): char
    requires 2 <= base <= 36
  {
    DigitChar(num % base, upper)
  }

  /** The digits of num, most significant first. */
  function Digits(num: nat, base: nat, upper: bool): (s: string)
    requires 2 <= base <= 36
    ensures |s| > 0
    decreases num
  {
    (if num < base then "" else DivSmaller(num, base); Digits(num / base, base, upper)) + [LastDigit(num, base, upper)]
  }

  /** The value of a string of digits. */
  function Eval(s: string, base: nat): nat
    requires forall c | c in s :: IsDigit(c)
    decreases |s|
  {
    if s == "" then 0 else Eval(s[..|s| - 1], base) * base + DigitValue(s[|s| - 1])
  }

  lemma {:induction false} DigitsAreDigits(num: nat, base: nat, upper: bool)
    requires 2 <= base <= 36
    ensures forall c | c in Digits(num, base, upper) :: IsDigit(c) && DigitValue(c) < base
    decreases num
  {
    hide IsDigit, DigitValue, DigitChar;
    if num >= base {
      DivSmaller(num, base);
      DigitsAreDigits(num / base, base, upper);
    }
  }

  lemma SmallRemainder(num: nat, base: nat)
    requires num < base
    ensures num % base == num
  {
    DivModUnique(num, base, 0, num);
  }

  /** The digits evaluate to the number. */
  lemma {:induction false} DigitsEval(num: nat, base: nat, upper: bool)
    requires 2 <= base <= 36
    ensures forall c | c in Digits(num, base, upper) :: IsDigit(c)
    ensures Eval(Digits(num, base, upper), base) == num
    decreases num
  {
    hide IsDigit, DigitValue, DigitChar;
    DigitsAreDigits(num, base, upper);
    var s := Digits(num, base, upper);
    if num < base {
      assert s == [LastDigit(num, base, upper)] && s[..|s| - 1] == "";
      SmallRemainder(num, base);
    } else {
      DivSmaller(num, base);
      DigitsEval(num / base, base, upper);
      assert s[..|s| - 1] == Digits(num / base, base, upper);
      assert num / base * base == base * (num / base);
    }
  }

  /** The letters among the digits are upper-case or lower-case as asked. */
  lemma {:induction false} DigitsCase(num: nat, base: nat, upper: bool)
    requires 2 <= base <= 36
    ensures forall c | c in Digits(num, base, upper) :: if upper then !('a' <= c <= 'z') else !('A' <= c <= 'Z')
    decreases num
  {
    hide IsDigit, DigitValue, DigitChar;
    if num >= base {
      DivSmaller(num, base);
      DigitsCase(num / base, base, upper);
    }
  }

  /** There is no leading zero unless the number is zero. */
  lemma {:induction false} NoLeadingZero(num: nat, base: nat, upper: bool)
    requires 2 <= base <= 36
    ensures Digits(num, base, upper)[0] == '0' <==> num == 0
    decreases num
  {
    hide IsDigit, DigitValue, DigitChar;
    if num < base {
      SmallRemainder(num, base);
    } else {
      DivSmaller(num, base);
      NoLeadingZero(num / base, base, upper);
    }
  }

  /** A k-bit number has at most k digits, and at least one. */
  lemma {:induction false} DigitsFit(num: nat, base: nat, upper: bool, k: nat)
    requires 2 <= base <= 36 && num < Pow2(k) && k > 0
    ensures |Digits(num, base, upper)| <= k
    decreases num
  {
    hide DigitChar;
    if num >= base {
      DivSmaller(num, base);
      assert k > 1;
      DigitsFit(num / base, base, upper, k - 1);
    }
  }

  /** One round of the loop: the last digit, and whether there are more. */
  lemma DigitsStep(num: nat, base: nat, upper: bool)
    requires 2 <= base <= 36
    ensures var s := Digits(num, base, upper);
            s[|s| - 1] == LastDigit(num, base, upper) && 0 <= num / base &&
            s[..|s| - 1] == if num / base != 0 then Digits(num / base, base, upper) else ""
    ensures num / base != 0 ==> num / base < num
  {
    hide DigitChar, IsDigit, DigitValue;
    if num >= base {
      DivSmaller(num, base);
    } else {
      DivModUnique(num, base, 0, num);
    }
  }

  /** Writes the digits into a buffer in reverse order after a NUL; returns where the first digit is. */
  method WriteDigits(nbuf: array<char>, num0: nat, base: nat, upper: bool) returns (p: nat)
    requires nbuf.Length >= MAXNBUF && num0 < Pow2(64) && 2 <= base <= 36
    modifies nbuf
    ensures p == |Digits(num0, base, upper)| <= 64 && nbuf[0] == '\0'
    ensures forall i | 1 <= i <= p :: nbuf[i] == Digits(num0, base, upper)[p - i]
  {
    hide DigitChar, Pow2, IsDigit, Digits, LastDigit;
    ghost var all := Digits(num0, base, upper);
    ghost var rest := all;  // the digits not yet written
    DigitsFit(num0, base, upper, 64);
    var num: nat := num0;
    var more := true;
    p := 0;
    nbuf[p] := '\0';
    while more
      invariant p == |all| - |rest| && rest == all[..|rest|]
      invariant rest == if more then Digits(num, base, upper) else ""
      invariant nbuf[0] == '\0' && forall i | 1 <= i <= p :: nbuf[i] == all[|all| - i]
      decreases more, num
    {
      DigitsStep(num, base, upper);
      var c := LastDigit(num, base, upper);
      p := p + 1;
      nbuf[p] := c;
      num := num / base;
      more := num != 0;
      rest := rest[..|rest| - 1];
    }
  }
}
