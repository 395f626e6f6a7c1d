/**
 The routine that finds the base of the current TSS, run on the CPU model: it stores
 the descriptor table register on the stack, finds the TSS descriptor and puts the scattered
 base back together.
 */
module GetTssBase {
  import opened Bits
  import opened MachineTypes

  /** Memory has a byte at every 32-bit address. */
  type Memory = u32 -> u8

  /** 32-bit addition wraps. */
  function Plus(a: u32, b: nat): u32 {
    (a + b) % TWO32
  }

  function Minus(a: u32, b: u32): u32 {
    (a - b) % TWO32
  }

  // ----- Little-endian words in memory

  function Word(b0: u8, b1: u8, b2: u8, b3: u8): u32 {
    b0 + 0x100 * b1 + 0x1_0000 * b2 + 0x100_0000 * b3
  }

  function Load32(m: Memory, a: u32): u32 {
    Word(m(a), m(Plus(a, 1)), m(Plus(a, 2)), m(Plus(a, 3)))
  }

  function Store8(m: Memory, a: u32, v: u8): Memory {
    x => if x == a then v else m(x)
  }

  function Store32(m: Memory, a: u32, v: u32): Memory {
    Store8(Store8(Store8(Store8(m, a, v % 0x100), Plus(a, 1), v / 0x100 % 0x100),
                  Plus(a, 2), v / 0x1_0000 % 0x100), Plus(a, 3), v / 0x100_0000)
  }

  /** sgdt: a 16-bit limit and then the 32-bit base. */
  function StoreTable(m: Memory, a: u32, limit: u16, base: u32): Memory {
    Store32(Store8(Store8(m, a, limit % 0x100), Plus(a, 1), limit / 0x100), Plus(a, 2), base)
  }

  /** The six bytes sgdt stores. */
  predicate InTable(x: u32, a: u32) {
    x == a || x == Plus(a, 1) || x == Plus(a, 2) || x == Plus(a, 3) || x == Plus(a, 4) || x == Plus(a, 5)
  }

  /** The eight bytes of a descriptor. */
  predicate InDescriptor(x: u32, d: u32) {
    x == d || x == Plus(d, 1) || x == Plus(d, 2) || x == Plus(d, 3) ||
    x == Plus(d, 4) || x == Plus(d, 5) || x == Plus(d, 6) || x == Plus(d, 7)
  }

  /** No byte of the stored table is a byte of the descriptor. */
  ghost predicate Apart(a: u32, d: u32) {
    forall x: u32 :: InTable(x, a) ==> !InDescriptor(x, d)
  }

  /** The base field of a descriptor: its bytes 2, 3, 4 and 7. */
  function DescriptorBase(m: Memory, d: u32): u32 {
    Word(m(Plus(d, 2)), m(Plus(d, 3)), m(Plus(d, 4)), m(Plus(d, 7)))
  }

  lemma PlusPlus(a: u32, i: nat, j: nat)
    ensures Plus(Plus(a, i), j) == Plus(a, i + j)
  {}

  lemma PlusSame(a: u32, i: nat, j: nat)
    requires i < 16 && j < 16
    ensures Plus(a, i) == Plus(a, j) <==> i == j
    ensures Plus(a, 0) == a
  {}

  lemma BytesOfWord(v: u32)
    ensures v / 0x100_0000 < 0x100
    ensures Word(v % 0x100, v / 0x100 % 0x100, v / 0x1_0000 % 0x100, v / 0x100_0000) == v
  {
    assert v / 0x100 / 0x100 == v / 0x1_0000 && v / 0x1_0000 / 0x100 == v / 0x100_0000;
  }

  lemma Store32Loads(m: Memory, a: u32, v: u32)
    ensures Load32(Store32(m, a, v), a) == v
  {
    hide Plus, Word;
    BytesOfWord(v);
    PlusSame(a, 0, 1);
    PlusSame(a, 0, 2);
    PlusSame(a, 0, 3);
    PlusSame(a, 1, 2);
    PlusSame(a, 1, 3);
    PlusSame(a, 2, 3);
  }

  lemma StoreTableFrame(m: Memory, a: u32, limit: u16, base: u32, x: u32)
    requires !InTable(x, a)
    ensures StoreTable(m, a, limit, base)(x) == m(x)
  {
    hide Plus;
    PlusPlus(a, 2, 1);
    PlusPlus(a, 2, 2);
    PlusPlus(a, 2, 3);
  }

  /** A descriptor apart from the stored table reads as before. */
  lemma DescriptorKept(m: Memory, a: u32, limit: u16, base: u32, d: u32)
    requires Apart(a, d)
    ensures var m' := StoreTable(m, a, limit, base);
            Load32(m', d) == Load32(m, d) && Load32(m', Plus(d, 4)) == Load32(m, Plus(d, 4))
  {
    hide StoreTable, InTable, Word, Plus;
    var m' := StoreTable(m, a, limit, base);
    forall x: u32 | InDescriptor(x, d) ensures m'(x) == m(x) {
      StoreTableFrame(m, a, limit, base, x);
    }
    PlusPlus(d, 4, 1);
    PlusPlus(d, 4, 2);
    PlusPlus(d, 4, 3);
    assert InDescriptor(d, d) && InDescriptor(Plus(d, 1), d);
    assert InDescriptor(Plus(d, 2), d) && InDescriptor(Plus(d, 3), d);
    assert InDescriptor(Plus(d, 4), d) && InDescriptor(Plus(d, 5), d);
    assert InDescriptor(Plus(d, 6), d) && InDescriptor(Plus(d, 7), d);
  }

  lemma AboveTable(f: u32, i: nat)
    requires 6 <= i < 16
    ensures !InTable(Plus(f, i), f)
  {
    hide Plus;
    PlusSame(f, i, 0);
    PlusSame(f, i, 1);
    PlusSame(f, i, 2);
    PlusSame(f, i, 3);
    PlusSame(f, i, 4);
    PlusSame(f, i, 5);
  }

  /** The return address, eight bytes above the frame, is not touched. */
  lemma ReturnAddressKept(m: Memory, f: u32, limit: u16, base: u32)
    ensures Load32(StoreTable(m, f, limit, base), Plus(f, 8)) == Load32(m, Plus(f, 8))
  {
    hide StoreTable, Word, Plus;
    PlusPlus(f, 8, 1);
    PlusPlus(f, 8, 2);
    PlusPlus(f, 8, 3);
    AboveTable(f, 8);
    AboveTable(f, 9);
    AboveTable(f, 10);
    AboveTable(f, 11);
    StoreTableFrame(m, f, limit, base, Plus(f, 8));
    StoreTableFrame(m, f, limit, base, Plus(f, 9));
    StoreTableFrame(m, f, limit, base, Plus(f, 10));
    StoreTableFrame(m, f, limit, base, Plus(f, 11));
  }

  /** Reading the table base back from the frame. */
  lemma TableBase(m: Memory, f: u32, limit: u16, base: u32)
    ensures Load32(StoreTable(m, f, limit, base), Plus(f, 2)) == base
  {
    hide Plus, Load32, Store32;
    Store32Loads(Store8(Store8(m, f, limit % 0x100), Plus(f, 1), limit / 0x100), Plus(f, 2), base);
  }

  /** And the limit, in the two bytes before it. */
  lemma TableLimit(m: Memory, f: u32, limit: u16, base: u32)
    ensures var m' := StoreTable(m, f, limit, base); m'(f) + 0x100 * m'(Plus(f, 1)) == limit
  {
    hide Plus;
    PlusPlus(f, 2, 1);
    PlusPlus(f, 2, 2);
    PlusPlus(f, 2, 3);
    PlusSame(f, 0, 1);
    PlusSame(f, 0, 2);
    PlusSame(f, 0, 3);
    PlusSame(f, 0, 4);
    PlusSame(f, 0, 5);
    PlusSame(f, 1, 2);
    PlusSame(f, 1, 3);
    PlusSame(f, 1, 4);
    PlusSame(f, 1, 5);
  }

  // ----- The base, put together

  /** The routine's arithmetic on the two halves of a descriptor. */
  function Assembled(lo: u32, hi: u32): nat {
    Or(Or(Shr(lo, 16), Shl(And(hi, 0xFF), 16)), And(hi, 0xFF00_0000))
  }

  lemma ShlValues(x: nat)
    ensures Shl(x, 8) == 0x100 * x && Shl(x, 16) == 0x1_0000 * x && Shl(x, 24) == 0x100_0000 * x
  {
    hide Shl;
    ShlIsMul(x, 8);
    ShlIsMul(x, 16);
    ShlIsMul(x, 24);
    Pow2Values();
  }

  /** A word as nested shifts. */
  lemma WordShifts(b0: u8, b1: u8, b2: u8, b3: u8)
    ensures Word(b0, b1, b2, b3) == (b0 + Shl(b1, 8)) + Shl(b2 + Shl(b3, 8), 16)
    ensures Word(b0, b1, b2, b3) == b0 + Shl(b1 + 0x100 * b2 + 0x1_0000 * b3, 8)
    ensures Word(b0, b1, b2, b3) == (b0 + 0x100 * b1 + 0x1_0000 * b2) + Shl(b3, 24)
  {
    hide Shl;
    ShlValues(b1);
    ShlValues(b3);
    ShlValues(b2 + 0x100 * b3);
    ShlValues(b1 + 0x100 * b2 + 0x1_0000 * b3);
  }

  /** Shifting, masking and oring the halves gives the base that the descriptor scatters. */
  lemma AssembledIsBase(b0: u8, b1: u8, b2: u8, b3: u8, b4: u8, b5: u8, b6: u8, b7: u8)
    ensures Assembled(Word(b0, b1, b2, b3), Word(b4, b5, b6, b7)) == Word(b2, b3, b4, b7)
  {
    hide Or, Shr, Shl, And, Low, Word, Pow2;
    var lo, hi := Word(b0, b1, b2, b3), Word(b4, b5, b6, b7);
    WordShifts(b0, b1, b2, b3);
    WordShifts(b4, b5, b6, b7);
    WordShifts(b2, b3, b4, b7);
    Pow2Values();
    ShlValues(b1);
    ShlValues(b3);
    Join(b0 + Shl(b1, 8), b2 + Shl(b3, 8), 16);
    Join(b4, b5 + 0x100 * b6 + 0x1_0000 * b7, 8);
    AndLow(hi, 8);
    Join(b4 + 0x100 * b5 + 0x1_0000 * b6, b7, 24);
    AndHigh(hi, 24, 32);
    OrJoins(b2 + Shl(b3, 8), b4, 16);
    ShlValues(b4);
    OrJoins(b2 + 0x100 * b3 + 0x1_0000 * b4, b7, 24);
  }

  // ----- 32-bit instructions

  function And32(a: u32, b: u32): u32 {
    AndBound(a, b);
    And(a, b)
  }

  function Or32(a: u32, b: u32): u32 {
    Pow2Values();
    OrBound(a, b, 32);
    Or(a, b)
  }

  function Shl32(a: u32, k: nat): u32 {
    Shl(a, k) % TWO32
  }

  lemma {:induction false} ShrAtMost(a: nat, k: nat)
    ensures Shr(a, k) <= a
    decreases k
  {
    if k != 0 {
      ShrAtMost(a / 2, k - 1);
    }
  }

  function Shr32(a: u32, k: nat): u32 {
    ShrAtMost(a, k);
    Shr(a, k)
  }

  lemma SelectorAlone(selector: u16)
    ensures Or32(And32(0, 0xFFFF_0000), selector) == selector
  {}

  lemma FrameAddresses(esp: u32)
    ensures var f := Minus(esp, 8); Plus(f, 0) == f && Plus(f, 8) == esp
  {}

  /** What the routine computes from the two halves. */
  lemma BaseOfHalves(m: Memory, d: u32)
    ensures var lo, hi := Load32(m, d), Load32(m, Plus(d, 4));
            Or32(Or32(Shr32(lo, 16), Shl32(And32(hi, 0xFF), 16)), And32(hi, 0xFF00_0000)) == DescriptorBase(m, d)
  {
    hide Plus, Word, And, Or, Shr, Shl;
    PlusPlus(d, 4, 1);
    PlusPlus(d, 4, 2);
    PlusPlus(d, 4, 3);
    AssembledIsBase(m(d), m(Plus(d, 1)), m(Plus(d, 2)), m(Plus(d, 3)),
                    m(Plus(d, 4)), m(Plus(d, 5)), m(Plus(d, 6)), m(Plus(d, 7)));
    var hi := Load32(m, Plus(d, 4));
    AndBound(hi, 0xFF);
    ShlValues(And(hi, 0xFF));
  }

  // ----- The machine

  /** The registers and instructions the routine uses. */
  class Cpu {
    var eax: u32
    var ebx: u32
    var ecx: u32
    var edx: u32
    var esi: u32
    var edi: u32
    var ebp: u32
    var esp: u32
    var eip: u32
    var mem: Memory
    const gdtrLimit: u16
    const gdtrBase: u32
    const trSelector: u16

    constructor (gdtrLimit: u16, gdtrBase: u32, trSelector: u16, esp: u32, mem: Memory)
      ensures this.gdtrLimit == gdtrLimit && this.gdtrBase == gdtrBase && this.trSelector == trSelector
      ensures this.esp == esp && this.mem == mem
    {
      eax, ebx, ecx, edx, esi, edi, ebp, eip := 0, 0, 0, 0, 0, 0, 0, 0;
      this.esp, this.mem := esp, mem;
      this.gdtrLimit, this.gdtrBase, this.trSelector := gdtrLimit, gdtrBase, trSelector;
    }

    method SublImmEsp(value: u32)
      modifies this`esp
      ensures esp == Minus(old(esp), value)
    {
      esp := Minus(esp, value);
    }

    method AddlImmEsp(value: u32)
      modifies this`esp
      ensures esp == Plus(old(esp), value)
    {
      esp := Plus(esp, value);
    }

    method SgdtMesp(index: u32)
      modifies this`mem
      ensures mem == StoreTable(old(mem), Plus(esp, index), gdtrLimit, gdtrBase)
    {
      mem := StoreTable(mem, Plus(esp, index), gdtrLimit, gdtrBase);
    }

    method MovlMespEcx(index: u32)
      modifies this`ecx
      ensures ecx == Load32(mem, Plus(esp, index))
    {
      ecx := Load32(mem, Plus(esp, index));
    }

    method XorlEaxEax()
      modifies this`eax
      ensures eax == 0
    {
      eax := 0;
    }

    /** Replaces the low half of eax by the selector. */
    method StrAx()
      modifies this`eax
      ensures eax == Or32(And32(old(eax), 0xFFFF_0000), trSelector)
    {
      eax := And32(eax, 0xFFFF_0000);
      eax := Or32(eax, trSelector);
    }

    method AddlEaxEcx()
      modifies this`ecx
      ensures ecx == Plus(old(ecx), eax)
    {
      ecx := Plus(ecx, eax);
    }

    method MovlMecxEax(index: u32)
      modifies this`eax
      ensures eax == Load32(mem, Plus(ecx, index))
    {
      eax := Load32(mem, Plus(ecx, index));
    }

    method AddlImmEcx(value: u32)
      modifies this`ecx
      ensures ecx == Plus(old(ecx), value)
    {
      ecx := Plus(ecx, value);
    }

    method MovlMecxEdx(index: u32)
      modifies this`edx
      ensures edx == Load32(mem, Plus(ecx, index))
    {
      edx := Load32(mem, Plus(ecx, index));
    }

    method MovlEdxEcx()
      modifies this`ecx
      ensures ecx == edx
    {
      ecx := edx;
    }

    method AndlImmEdx(value: u32)
      modifies this`edx
      ensures edx == And32(old(edx), value)
    {
      edx := And32(edx, value);
    }

    method AndlImmEcx(value: u32)
      modifies this`ecx
      ensures ecx == And32(old(ecx), value)
    {
      ecx := And32(ecx, value);
    }

    method ShlImmEcx(value: nat)
      modifies this`ecx
      ensures ecx == Shl32(old(ecx), value)
    {
      ecx := Shl32(ecx, value);
    }

    method ShrImmEax(value: nat)
      modifies this`eax
      ensures eax == Shr32(old(eax), value)
    {
      eax := Shr32(eax, value);
    }

    method OrlEcxEax()
      modifies this`eax
      ensures eax == Or32(old(eax), ecx)
    {
      eax := Or32(eax, ecx);
    }

    method OrlEdxEax()
      modifies this`eax
      ensures eax == Or32(old(eax), edx)
    {
      eax := Or32(eax, edx);
    }

    method XorlEdxEdx()
      modifies this`edx
      ensures edx == 0
    {
      edx := 0;
    }

    /** Pops the return address; the result is edx:eax. */
    method RetU64() returns (result: nat)
      modifies this`eip, this`esp
      ensures eip == Load32(mem, old(esp)) && esp == Plus(old(esp), 4)
      ensures result == edx * TWO32 + eax
    {
      eip := Load32(mem, esp);
      esp := Plus(esp, 4);
      result := edx * TWO32 + eax;
    }

    /** Returns the base in the TSS descriptor that TR selects, when the descriptor is
        apart from the routine's stack frame. Pops the return address; ebx, esi, edi and ebp are kept,
        and memory changes only in the six bytes of the frame that hold the table register. */
    method Run() returns (result: nat)
      requires Apart(Minus(esp, 8), Plus(gdtrBase, trSelector))
      modifies this`eax, this`ecx, this`edx, this`esp, this`eip, this`mem
      ensures result == DescriptorBase(old(mem), Plus(gdtrBase, trSelector))
      ensures esp == Plus(old(esp), 4) && eip == Load32(old(mem), old(esp))
      ensures forall x: u32 :: !InTable(x, Minus(old(esp), 8)) ==> mem(x) == old(mem)(x)
    {
      hide Plus, Minus, Load32, StoreTable, InTable, Apart, And32, Or32, Shl32, Shr32, DescriptorBase;
      ghost var m, sp, f, d := mem, esp, Minus(esp, 8), Plus(gdtrBase, trSelector);
      FrameAddresses(sp);
      SelectorAlone(trSelector);
      PlusSame(d, 0, 1);
      PlusSame(Plus(d, 4), 0, 1);
      TableBase(m, f, gdtrLimit, gdtrBase);
      DescriptorKept(m, f, gdtrLimit, gdtrBase, d);
      ReturnAddressKept(m, f, gdtrLimit, gdtrBase);
      BaseOfHalves(m, d);
      SublImmEsp(0x8);
      SgdtMesp(0x0);
      MovlMespEcx(0x2);
      XorlEaxEax();
      StrAx();
      AddlEaxEcx();
      MovlMecxEax(0x0);
      AddlImmEcx(0x4);
      MovlMecxEdx(0x0);
      MovlEdxEcx();
      AndlImmEdx(0xFF00_0000);
      AndlImmEcx(0x0000_00FF);
      ShlImmEcx(16);
      ShrImmEax(16);
      OrlEcxEax();
      OrlEdxEax();
      XorlEdxEdx();
      AddlImmEsp(0x8);
      result := RetU64();
      forall x: u32 | !InTable(x, f) ensures mem(x) == m(x) {
        StoreTableFrame(m, f, gdtrLimit, gdtrBase, x);
      }
    }
  }
}
