/**
 Machine words as natural numbers, read bit by bit: powers of two, bitwise AND, rounding to
 a power of two, the top set bit and the population count.

 Every function here peels off the lowest bit, so every proof is an induction that halves
 its arguments and stays in linear arithmetic.
 */
module Bits {

  function Pow2(k: nat): (p: nat)
    ensures p > 0
  {
    if k == 0 then 1 else 2 * Pow2(k - 1)
  }

  lemma {:induction false} Pow2Grows(j: nat, k: nat)
    requires j < k
    ensures 2 * Pow2(j) <= Pow2(k)
    decreases k
  {
    if j < k - 1 {
      Pow2Grows(j, k - 1);
    }
  }

  lemma Pow2Monotonic(j: nat, k: nat)
    ensures j <= k <==> Pow2(j) <= Pow2(k)
    ensures j < k <==> Pow2(j) < Pow2(k)
  {
    if j < k {
      Pow2Grows(j, k);
    } else if k < j {
      Pow2Grows(k, j);
    }
  }

  /** Pow2 at the widths of the machine's words and fields. */
  lemma Pow2Values()
    ensures Pow2(0) == 1 && Pow2(1) == 2 && Pow2(8) == 0x100 && Pow2(12) == 0x1000 && Pow2(16) == 0x1_0000
    ensures Pow2(20) == 0x10_0000 && Pow2(24) == 0x100_0000 && Pow2(32) == 0x1_0000_0000
    ensures Pow2(64) == 0x1_0000_0000_0000_0000
  {
    assert Pow2(4) == 0x10;
    assert Pow2(8) == 0x100;
    assert Pow2(12) == 0x1000;
    assert Pow2(16) == 0x1_0000;
    assert Pow2(20) == 0x10_0000;
    assert Pow2(24) == 0x100_0000;
    assert Pow2(28) == 0x1000_0000;
    assert Pow2(32) == 0x1_0000_0000;
    assert Pow2(36) == 0x10_0000_0000;
    assert Pow2(40) == 0x100_0000_0000;
    assert Pow2(44) == 0x1000_0000_0000;
    assert Pow2(48) == 0x1_0000_0000_0000;
    assert Pow2(52) == 0x10_0000_0000_0000;
    assert Pow2(56) == 0x100_0000_0000_0000;
    assert Pow2(60) == 0x1000_0000_0000_0000;
  }

  // ----- Low and high parts of a word

  /** Bit k of x. */
  predicate Bit(x: nat, k: nat)
    decreases k, x
  {
    if k == 0 then x % 2 == 1 else Bit(x / 2, k - 1)
  }

  /** The low k bits of x: the remainder by 2^k. */
  function Low(x: nat, k: nat): (r: nat)
    ensures r < Pow2(k) && r <= x
    decreases k, x
  {
    if k == 0 then 0 else 2 * Low(x / 2, k - 1) + x % 2
  }

  /** x with its low k bits cleared: x rounded down to a multiple of 2^k. */
  function Align(x: nat, k: nat): nat {
    x - Low(x, k)
  }

  predicate Aligned(x: nat, k: nat) {
    Low(x, k) == 0
  }

  /** x shifted left by k. */
  function Shl(x: nat, k: nat): nat
    decreases k, x
  {
    if k == 0 then x else 2 * Shl(x, k - 1)
  }

  /** x shifted right by k. */
  function Shr(x: nat, k: nat): nat
    decreases k, x
  {
    if k == 0 then x else Shr(x / 2, k - 1)
  }

  lemma {:induction false} ShlIsMul(x: nat, k: nat)
    ensures Shl(x, k) == x * Pow2(k)
    decreases k
  {
    if k != 0 {
      ShlIsMul(x, k - 1);
      assert x * (2 * Pow2(k - 1)) == 2 * (x * Pow2(k - 1));
    }
  }

  /** Splits x at bit k. */
  lemma {:induction false} Split(x: nat, k: nat)
    ensures x == Low(x, k) + Shl(Shr(x, k), k)
    decreases k
  {
    if k != 0 {
      Split(x / 2, k - 1);
    }
  }

  /** A low part and a shifted high part can be taken apart again. */
  lemma {:induction false} Join(lo: nat, hi: nat, k: nat)
    requires lo < Pow2(k)
    ensures Low(lo + Shl(hi, k), k) == lo && Shr(lo + Shl(hi, k), k) == hi
    decreases k
  {
    if k != 0 {
      Join(lo / 2, hi, k - 1);
      assert (lo + Shl(hi, k)) / 2 == lo / 2 + Shl(hi, k - 1);
    }
  }

  /** The w-bit field of x at bit k. */
  function Field(x: nat, k: nat, w: nat): (f: nat)
    ensures f < Pow2(w)
  {
    Low(Shr(x, k), w)
  }

  lemma {:induction false} InsertFits(x: nat, f: nat, k: nat, w: nat)
    requires x < Pow2(k) && f < Pow2(w)
    ensures x + Shl(f, k) < Pow2(k + w)
    decreases k
  {
    if k != 0 {
      InsertFits(x / 2, f, k - 1, w);
    }
  }

  /** x, which has no bit at or above k, with the low w bits of f put in at bit k. */
  function Insert(x: nat, f: nat, k: nat, w: nat): (r: nat)
    requires x < Pow2(k)
    ensures r < Pow2(k + w)
  {
    InsertFits(x, Low(f, w), k, w);
    x + Shl(Low(f, w), k)
  }

  lemma MulAtLeast(a: int, d: int)
    requires a >= 1 && d > 0
    ensures a * d >= d
  {}

  lemma DivModUnique(x: int, d: int, q: int, r: int)
    requires d > 0 && x == q * d + r && 0 <= r < d
    ensures x / d == q && x % d == r
  {
    var q', r' := x / d, x % d;
    assert x == q' * d + r';
    assert (q - q') * d == q * d - q' * d;
    if q' < q {
      MulAtLeast(q - q', d);
    } else if q < q' {
      MulAtLeast(q' - q, d);
    }
  }

  /** Shifting right is dividing by a power of two. */
  lemma ShrIsDiv(x: nat, k: nat)
    ensures Shr(x, k) == x / Pow2(k)
  {
    hide Shr, Shl, Low, Pow2;
    Split(x, k);
    ShlIsMul(Shr(x, k), k);
    DivModUnique(x, Pow2(k), Shr(x, k), Low(x, k));
  }

  lemma {:induction false} LowQuotient(x: nat, k: nat) returns (q: nat)
    ensures x == q * Pow2(k) + Low(x, k)
    decreases k
  {
    if k == 0 {
      q := x;
    } else {
      q := LowQuotient(x / 2, k - 1);
      assert q * (2 * Pow2(k - 1)) == 2 * (q * Pow2(k - 1));
    }
  }

  /** Low is the remainder by a power of two. */
  lemma {:induction false} LowIsMod(x: nat, k: nat)
    ensures Low(x, k) == x % Pow2(k)
  {
    var q := LowQuotient(x, k);
    DivModUnique(x, Pow2(k), q, Low(x, k));
  }

  /** A field, as the machine shifts and masks it. */
  lemma FieldIsArithmetic(x: nat, k: nat, w: nat)
    ensures Field(x, k, w) == x / Pow2(k) % Pow2(w)
  {
    hide Shr, Low, Pow2;
    ShrIsDiv(x, k);
    LowIsMod(Shr(x, k), w);
  }

  lemma {:induction false} LowSmall(x: nat, k: nat)
    requires x < Pow2(k)
    ensures Low(x, k) == x
    decreases k
  {
    if k != 0 {
      LowSmall(x / 2, k - 1);
    }
  }

  /** Taking a shorter low part of a low part. */
  lemma {:induction false} LowLow(x: nat, j: nat, k: nat)
    requires j <= k
    ensures Low(Low(x, k), j) == Low(x, j)
    decreases j
  {
    if j != 0 {
      LowLow(x / 2, j - 1, k - 1);
      assert Low(x, k) / 2 == Low(x / 2, k - 1) && Low(x, k) % 2 == x % 2;
    }
  }

  /** A field depends only on the bits up to its end. */
  lemma {:induction false} FieldOfLow(x: nat, j: nat, v: nat, k: nat)
    requires j + v <= k
    ensures Field(Low(x, k), j, v) == Field(x, j, v)
    decreases j
  {
    if j == 0 {
      LowLow(x, v, k);
    } else {
      FieldOfLow(x / 2, j - 1, v, k - 1);
      assert Low(x, k) / 2 == Low(x / 2, k - 1);
    }
  }

  /** Inserting a field sets that field and leaves every field below it. */
  lemma InsertField(x: nat, f: nat, k: nat, w: nat)
    requires x < Pow2(k)
    ensures Field(Insert(x, f, k, w), k, w) == Low(f, w)
    ensures forall j, v | 0 <= j && 0 <= v && j + v <= k :: Field(Insert(x, f, k, w), j, v) == Field(x, j, v)
  {
    var y := Insert(x, f, k, w);
    Join(x, Low(f, w), k);
    LowSmall(Low(f, w), w);
    forall j: nat, v: nat | j + v <= k ensures Field(y, j, v) == Field(x, j, v) {
      FieldOfLow(y, j, v, k);
      FieldOfLow(x, j, v, k);
      LowSmall(x, k);
    }
  }

  /** Putting the next field of x onto its low part gives a longer low part. */
  lemma {:induction false} InsertNext(x: nat, k: nat, w: nat)
    ensures Insert(Low(x, k), Field(x, k, w), k, w) == Low(x, k + w)
    decreases k
  {
    if k == 0 {
      LowSmall(Low(x, w), w);
    } else {
      InsertNext(x / 2, k - 1, w);
    }
  }

  /** Words that agree below bit k and in the next w bits agree below bit k + w. */
  lemma AgreeNext(x: nat, y: nat, k: nat, w: nat)
    requires Low(x, k) == Low(y, k) && Field(x, k, w) == Field(y, k, w)
    ensures Low(x, k + w) == Low(y, k + w)
  {
    InsertNext(x, k, w);
    InsertNext(y, k, w);
  }

  /** Low, one bit further. */
  lemma {:induction false} LowNext(x: nat, k: nat)
    ensures Low(x, k + 1) == Low(x, k) + if Bit(x, k) then Pow2(k) else 0
    decreases k
  {
    if k == 0 {
      assert Low(x / 2, 0) == 0;
    } else {
      LowNext(x / 2, k - 1);
    }
  }

  lemma AlignHalf(x: nat, k: nat)
    requires k != 0
    ensures Align(x, k) == 2 * Align(x / 2, k - 1)
  {}

  /** Aligning to 2^j and to a coarser 2^k, in either order, is aligning to 2^k. */
  lemma {:induction false} AlignAlign(x: nat, j: nat, k: nat)
    requires j <= k
    ensures Align(Align(x, j), k) == Align(x, k)
    ensures Align(Align(x, k), j) == Align(x, k)
    decreases j
  {
    if j == 0 {
    } else {
      AlignAlign(x / 2, j - 1, k - 1);
      AlignHalf(x, j);
      AlignHalf(x, k);
      AlignHalf(Align(x, j), k);
      AlignHalf(Align(x, k), j);
    }
  }

  /** Two numbers agree above bit k iff the one lies in the aligned 2^k block of the other. */
  lemma {:induction false} AlignBlock(x: nat, y: nat, k: nat)
    ensures Align(x, k) == Align(y, k) <==> Align(y, k) <= x < Align(y, k) + Pow2(k)
    decreases k
  {
    if k != 0 {
      AlignBlock(x / 2, y / 2, k - 1);
    }
  }

  lemma {:induction false} AlignedDown(x: nat, j: nat, k: nat)
    requires j <= k && Aligned(x, k)
    ensures Aligned(x, j)
  {
    LowLow(x, j, k);
    assert Low(0, j) <= 0;
  }

  lemma {:induction false} AlignedSum(x: nat, y: nat, k: nat)
    requires Aligned(x, k) && Aligned(y, k)
    ensures Aligned(x + y, k)
    decreases k
  {
    if k != 0 {
      AlignedSum(x / 2, y / 2, k - 1);
      assert (x + y) / 2 == x / 2 + y / 2;
    }
  }

  lemma {:induction false} Pow2Aligned(j: nat, k: nat)
    ensures Aligned(Pow2(k), j) <==> j <= k
    decreases k
  {
    if j != 0 && k != 0 {
      Pow2Aligned(j - 1, k - 1);
    }
  }

  lemma LowHalves(x: nat, k: nat)
    ensures Low(x, k) == if k == 0 then 0 else 2 * Low(x / 2, k - 1) + x % 2
  {}

  lemma Pow2Steps(n: nat, k: nat, w: nat)
    ensures Pow2(0) == 1
    ensures n > 0 ==> Pow2(n) == 2 * Pow2(n - 1)
    ensures k > 0 ==> Pow2(k) == 2 * Pow2(k - 1)
    ensures w > 0 ==> Pow2(w) == 2 * Pow2(w - 1)
  {}

  /** The low w bits of the ones from bit k up to bit n. */
  lemma {:induction false} LowOfOnes(n: nat, k: nat, w: nat)
    requires k <= n && w <= n
    ensures Pow2(k) <= Pow2(n)
    ensures Low(Pow2(n) - Pow2(k), w) == if w <= k then 0 else Pow2(w) - Pow2(k)
    decreases w
  {
    hide Pow2, Low;
    Pow2Monotonic(k, n);
    LowHalves(Pow2(n) - Pow2(k), w);
    if w > 0 {
      LowOfOnes(n - 1, if k == 0 then 0 else k - 1, w - 1);
    }
    Pow2Steps(n, k, w);
  }

  // ----- Bitwise AND

  function And(a: nat, b: nat): nat {
    if a == 0 || b == 0 then 0 else 2 * And(a / 2, b / 2) + if a % 2 == 1 && b % 2 == 1 then 1 else 0
  }

  lemma {:induction false} ZeroBit(k: nat)
    ensures !Bit(0, k)
    decreases k
  {
    if k != 0 {
      ZeroBit(k - 1);
    }
  }

  /** And, bit by bit. */
  lemma {:induction false} AndBits(a: nat, b: nat, k: nat)
    ensures Bit(And(a, b), k) <==> Bit(a, k) && Bit(b, k)
    decreases k
  {
    if a == 0 || b == 0 {
      ZeroBit(k);
    } else if k != 0 {
      AndBits(a / 2, b / 2, k - 1);
      assert And(a, b) / 2 == And(a / 2, b / 2);
    }
  }

  lemma {:induction false} AndComm(a: nat, b: nat)
    ensures And(a, b) == And(b, a)
    decreases a
  {
    if a != 0 && b != 0 {
      AndComm(a / 2, b / 2);
    }
  }

  lemma {:induction false} AndLow(a: nat, k: nat)
    ensures And(a, Pow2(k) - 1) == Low(a, k)
    decreases k
  {
    if k == 0 {
    } else if a == 0 {
    } else {
      AndLow(a / 2, k - 1);
      assert (Pow2(k) - 1) / 2 == Pow2(k - 1) - 1;
    }
  }

  lemma {:induction false} AndHigh(a: nat, k: nat, n: nat)
    requires k <= n && a < Pow2(n)
    ensures Pow2(k) <= Pow2(n) && And(a, Pow2(n) - Pow2(k)) == Align(a, k)
    decreases k
  {
    Pow2Monotonic(k, n);
    if k == 0 {
      AndLow(a, n);
      LowSmall(a, n);
    } else if a == 0 {
    } else {
      AndHigh(a / 2, k - 1, n - 1);
      assert (Pow2(n) - Pow2(k)) / 2 == Pow2(n - 1) - Pow2(k - 1);
    }
  }

  lemma {:induction false} AndBound(a: nat, b: nat)
    ensures And(a, b) <= a && And(a, b) <= b
    decreases a
  {
    if a != 0 && b != 0 {
      AndBound(a / 2, b / 2);
    }
  }

  /** Testing one bit. */
  lemma {:induction false} AndBit(m: nat, k: nat)
    ensures And(Pow2(k), m) == if Bit(m, k) then Pow2(k) else 0
    decreases k
  {
    if k == 0 {
    } else if m == 0 {
      ZeroBit(k);
    } else {
      AndBit(m / 2, k - 1);
    }
  }

  /** Only the bits below the first operand's width take part. */
  lemma {:induction false} AndTruncate(a: nat, b: nat, k: nat)
    requires a < Pow2(k)
    ensures And(a, b) == And(a, Low(b, k))
    decreases k
  {
    if a != 0 && b != 0 {
      AndTruncate(a / 2, b / 2, k - 1);
      assert Low(b, k) / 2 == Low(b / 2, k - 1);
    }
  }

  // ----- Bitwise OR

  function Or(a: nat, b: nat): nat {
    if a == 0 then b else if b == 0 then a
    else 2 * Or(a / 2, b / 2) + if a % 2 == 1 || b % 2 == 1 then 1 else 0
  }

  /** Or, one bit at a time. */
  lemma OrHalf(a: nat, b: nat)
    ensures Or(a, b) == 2 * Or(a / 2, b / 2) + if a % 2 == 1 || b % 2 == 1 then 1 else 0
  {}

  /** Or, bit by bit. */
  lemma {:induction false} OrBits(a: nat, b: nat, k: nat)
    ensures Bit(Or(a, b), k) <==> Bit(a, k) || Bit(b, k)
    decreases k
  {
    hide Or;
    OrHalf(a, b);
    if k != 0 {
      OrBits(a / 2, b / 2, k - 1);
      assert Or(a, b) / 2 == Or(a / 2, b / 2);
    }
  }

  lemma {:induction false} OrBound(a: nat, b: nat, k: nat)
    requires a < Pow2(k) && b < Pow2(k)
    ensures Or(a, b) < Pow2(k)
    decreases k
  {
    if a != 0 && b != 0 {
      OrBound(a / 2, b / 2, k - 1);
    }
  }

  /** Or of parts that do not overlap puts them together. */
  lemma {:induction false} OrJoins(lo: nat, hi: nat, k: nat)
    requires lo < Pow2(k)
    ensures Or(lo, Shl(hi, k)) == lo + Shl(hi, k)
    decreases k
  {
    if k != 0 && lo != 0 {
      OrJoins(lo / 2, hi, k - 1);
      assert Shl(hi, k) / 2 == Shl(hi, k - 1);
    }
  }

  // ----- The top set bit and the population count

  /** The position of the top set bit of n. */
  function TopExp(n: nat): (k: nat)
    requires n > 0
    ensures Pow2(k) <= n < 2 * Pow2(k)
  {
    if n == 1 then 0 else TopExp(n / 2) + 1
  }

  lemma TopExpUnique(n: nat, k: nat)
    requires Pow2(k) <= n < 2 * Pow2(k)
    ensures n > 0 && TopExp(n) == k
  {
    hide TopExp;
    var t := TopExp(n);
    Pow2Monotonic(t, k + 1);
    Pow2Monotonic(k, t + 1);
  }

  function PopCount(n: nat): nat {
    if n == 0 then 0 else PopCount(n / 2) + n % 2
  }

  lemma {:induction false} PopCountZero(n: nat)
    ensures PopCount(n) == 0 <==> n == 0
  {
    if n > 1 {
      PopCountZero(n / 2);
    }
  }

  lemma PopCountHalf(n: nat)
    ensures PopCount(n) == if n == 0 then 0 else PopCount(n / 2) + n % 2
  {}

  lemma TopExpHalf(n: nat)
    requires n > 0
    ensures TopExp(n) == if n == 1 then 0 else TopExp(n / 2) + 1
  {
    hide Pow2;
  }

  /** Removing the top bit removes exactly one set bit. */
  lemma {:induction false} PopCountDropTop(n: nat)
    requires n > 0
    ensures PopCount(n) == PopCount(n - Pow2(TopExp(n))) + 1
    decreases n
  {
    hide Pow2, TopExp, PopCount;
    TopExpHalf(n);
    Pow2Steps(TopExp(n), 0, 0);
    var t := Pow2(TopExp(n));
    PopCountHalf(n);
    PopCountHalf(n - t);
    if n > 1 {
      PopCountDropTop(n / 2);
      assert (n - t) / 2 == n / 2 - Pow2(TopExp(n / 2)) && (n - t) % 2 == n % 2;
    } else {
      PopCountHalf(0);
    }
  }
}
