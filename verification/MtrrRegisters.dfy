/**
 The memory type range registers: their bit layouts, the pack and unpack macros, and the
 numbers of the model-specific registers (MSRs) that hold them.

 Unpacking shifts right and masks (Field); packing masks, shifts left and ors the fields
 together, from the lowest field up (Insert).
 */
module MtrrRegisters {
  import opened Bits
  import opened MachineTypes

  const MTRR_TYPE_UNCACHABLE: nat := 0
  const MTRR_TYPE_WRTHROUGH: nat := 4
  const MTRR_TYPE_WRBACK: nat := 6

  const MAX_VARIABLE_MTRRS: nat := 16

  const MSR_MTRR_CAP: nat := 0xfe
  const MSR_MTRR_DEF_TYPE: nat := 0x2ff
  const MTRR_PHYS_BASE0_MSR: nat := 0x200
  const MTRR_PHYS_MASK0_MSR: nat := 0x201

  // The structures, each field with its width in bits.

  datatype Cap = Cap(vcnt: nat, fix: nat, reserved1: nat, wc: nat, reserved2: nat, reserved3: nat) {
    predicate InRange() {
      vcnt < Pow2(8) && fix < Pow2(1) && reserved1 < Pow2(1) && wc < Pow2(1) &&
      reserved2 < Pow2(32) && reserved3 < Pow2(21)
    }
  }

  datatype DefType = DefType(ty: nat, reserved1: nat, fe: nat, e: nat, reserved2: nat, reserved3: nat) {
    predicate InRange() {
      ty < Pow2(8) && reserved1 < Pow2(2) && fe < Pow2(1) && e < Pow2(1) &&
      reserved2 < Pow2(32) && reserved3 < Pow2(20)
    }
  }

  datatype PhysBase = PhysBase(ty: nat, reserved1: nat, base: nat, reserved2: nat) {
    predicate InRange() {
      ty < Pow2(8) && reserved1 < Pow2(4) && base < Pow2(24) && reserved2 < Pow2(28)
    }
  }

  datatype PhysMask = PhysMask(reserved1: nat, v: nat, mask: nat, reserved2: nat) {
    predicate InRange() {
      reserved1 < Pow2(11) && v < Pow2(1) && mask < Pow2(24) && reserved2 < Pow2(28)
    }
  }

  function PackCap(s: Cap): u64 {
    Pow2Values();
    Insert(Insert(Insert(Insert(Insert(Insert(0, s.vcnt, 0, 8), s.fix, 8, 1), s.reserved1, 9, 1),
                         s.wc, 10, 1), s.reserved2, 11, 32), s.reserved3, 43, 21)
  }

  function UnpackCap(value: u64): (s: Cap)
    ensures s.InRange()
  {
    Cap(Field(value, 0, 8), Field(value, 8, 1), Field(value, 9, 1),
        Field(value, 10, 1), Field(value, 11, 32), Field(value, 43, 21))
  }

  function PackDefType(s: DefType): u64 {
    Pow2Values();
    Insert(Insert(Insert(Insert(Insert(Insert(0, s.ty, 0, 8), s.reserved1, 8, 2), s.fe, 10, 1),
                         s.e, 11, 1), s.reserved2, 12, 32), s.reserved3, 44, 20)
  }

  function UnpackDefType(value: u64): (s: DefType)
    ensures s.InRange()
  {
    DefType(Field(value, 0, 8), Field(value, 8, 2), Field(value, 10, 1),
            Field(value, 11, 1), Field(value, 12, 32), Field(value, 44, 20))
  }

  function PackPhysBase(s: PhysBase): u64 {
    Pow2Values();
    Insert(Insert(Insert(Insert(0, s.ty, 0, 8), s.reserved1, 8, 4), s.base, 12, 24), s.reserved2, 36, 28)
  }

  function UnpackPhysBase(value: u64): (s: PhysBase)
    ensures s.InRange()
  {
    PhysBase(Field(value, 0, 8), Field(value, 8, 4), Field(value, 12, 24), Field(value, 36, 28))
  }

  function PackPhysMask(s: PhysMask): u64 {
    Pow2Values();
    Insert(Insert(Insert(Insert(0, s.reserved1, 0, 11), s.v, 11, 1), s.mask, 12, 24), s.reserved2, 36, 28)
  }

  function UnpackPhysMask(value: u64): (s: PhysMask)
    ensures s.InRange()
  {
    PhysMask(Field(value, 0, 11), Field(value, 11, 1), Field(value, 12, 24), Field(value, 36, 28))
  }

  // Each pair of macros is a bijection between 64-bit values and in-range field tuples.
  // Unpacking a packed tuple whose fields are too wide truncates each field.

  lemma CapFields(s: Cap)
    ensures UnpackCap(PackCap(s)) == Cap(Low(s.vcnt, 8), Low(s.fix, 1), Low(s.reserved1, 1), Low(s.wc, 1),
                                         Low(s.reserved2, 32), Low(s.reserved3, 21))
    ensures s.InRange() ==> UnpackCap(PackCap(s)) == s
  {
    var a := Insert(0, s.vcnt, 0, 8);
    var b := Insert(a, s.fix, 8, 1);
    var c := Insert(b, s.reserved1, 9, 1);
    var d := Insert(c, s.wc, 10, 1);
    var e := Insert(d, s.reserved2, 11, 32);
    InsertField(0, s.vcnt, 0, 8);
    InsertField(a, s.fix, 8, 1);
    InsertField(b, s.reserved1, 9, 1);
    InsertField(c, s.wc, 10, 1);
    InsertField(d, s.reserved2, 11, 32);
    InsertField(e, s.reserved3, 43, 21);
    if s.InRange() {
      LowSmall(s.vcnt, 8);
      LowSmall(s.fix, 1);
      LowSmall(s.reserved1, 1);
      LowSmall(s.wc, 1);
      LowSmall(s.reserved2, 32);
      LowSmall(s.reserved3, 21);
    }
  }

  lemma CapInjective(x: u64, y: u64)
    requires UnpackCap(x) == UnpackCap(y)
    ensures x == y
  {
    AgreeNext(x, y, 0, 8);
    AgreeNext(x, y, 8, 1);
    AgreeNext(x, y, 9, 1);
    AgreeNext(x, y, 10, 1);
    AgreeNext(x, y, 11, 32);
    AgreeNext(x, y, 43, 21);
    Pow2Values();
    LowSmall(x, 64);
    LowSmall(y, 64);
  }

  lemma CapRoundTrip(value: u64)
    ensures PackCap(UnpackCap(value)) == value
  {
    var s := UnpackCap(value);
    CapFields(s);
    CapInjective(value, PackCap(s));
  }

  lemma DefTypeFields(s: DefType)
    ensures UnpackDefType(PackDefType(s)) == DefType(Low(s.ty, 8), Low(s.reserved1, 2), Low(s.fe, 1), Low(s.e, 1),
                                                     Low(s.reserved2, 32), Low(s.reserved3, 20))
    ensures s.InRange() ==> UnpackDefType(PackDefType(s)) == s
  {
    var a := Insert(0, s.ty, 0, 8);
    var b := Insert(a, s.reserved1, 8, 2);
    var c := Insert(b, s.fe, 10, 1);
    var d := Insert(c, s.e, 11, 1);
    var e := Insert(d, s.reserved2, 12, 32);
    InsertField(0, s.ty, 0, 8);
    InsertField(a, s.reserved1, 8, 2);
    InsertField(b, s.fe, 10, 1);
    InsertField(c, s.e, 11, 1);
    InsertField(d, s.reserved2, 12, 32);
    InsertField(e, s.reserved3, 44, 20);
    if s.InRange() {
      LowSmall(s.ty, 8);
      LowSmall(s.reserved1, 2);
      LowSmall(s.fe, 1);
      LowSmall(s.e, 1);
      LowSmall(s.reserved2, 32);
      LowSmall(s.reserved3, 20);
    }
  }

  lemma DefTypeInjective(x: u64, y: u64)
    requires UnpackDefType(x) == UnpackDefType(y)
    ensures x == y
  {
    AgreeNext(x, y, 0, 8);
    AgreeNext(x, y, 8, 2);
    AgreeNext(x, y, 10, 1);
    AgreeNext(x, y, 11, 1);
    AgreeNext(x, y, 12, 32);
    AgreeNext(x, y, 44, 20);
    Pow2Values();
    LowSmall(x, 64);
    LowSmall(y, 64);
  }

  lemma DefTypeRoundTrip(value: u64)
    ensures PackDefType(UnpackDefType(value)) == value
  {
    var s := UnpackDefType(value);
    DefTypeFields(s);
    DefTypeInjective(value, PackDefType(s));
  }

  lemma PhysBaseFields(s: PhysBase)
    ensures UnpackPhysBase(PackPhysBase(s)) ==
            PhysBase(Low(s.ty, 8), Low(s.reserved1, 4), Low(s.base, 24), Low(s.reserved2, 28))
    ensures s.InRange() ==> UnpackPhysBase(PackPhysBase(s)) == s
  {
    var a := Insert(0, s.ty, 0, 8);
    var b := Insert(a, s.reserved1, 8, 4);
    var c := Insert(b, s.base, 12, 24);
    InsertField(0, s.ty, 0, 8);
    InsertField(a, s.reserved1, 8, 4);
    InsertField(b, s.base, 12, 24);
    InsertField(c, s.reserved2, 36, 28);
    if s.InRange() {
      LowSmall(s.ty, 8);
      LowSmall(s.reserved1, 4);
      LowSmall(s.base, 24);
      LowSmall(s.reserved2, 28);
    }
  }

  lemma PhysBaseInjective(x: u64, y: u64)
    requires UnpackPhysBase(x) == UnpackPhysBase(y)
    ensures x == y
  {
    AgreeNext(x, y, 0, 8);
    AgreeNext(x, y, 8, 4);
    AgreeNext(x, y, 12, 24);
    AgreeNext(x, y, 36, 28);
    Pow2Values();
    LowSmall(x, 64);
    LowSmall(y, 64);
  }

  lemma PhysBaseRoundTrip(value: u64)
    ensures PackPhysBase(UnpackPhysBase(value)) == value
  {
    var s := UnpackPhysBase(value);
    PhysBaseFields(s);
    PhysBaseInjective(value, PackPhysBase(s));
  }

  lemma PhysMaskFields(s: PhysMask)
    ensures UnpackPhysMask(PackPhysMask(s)) ==
            PhysMask(Low(s.reserved1, 11), Low(s.v, 1), Low(s.mask, 24), Low(s.reserved2, 28))
    ensures s.InRange() ==> UnpackPhysMask(PackPhysMask(s)) == s
  {
    var a := Insert(0, s.reserved1, 0, 11);
    var b := Insert(a, s.v, 11, 1);
    var c := Insert(b, s.mask, 12, 24);
    InsertField(0, s.reserved1, 0, 11);
    InsertField(a, s.v, 11, 1);
    InsertField(b, s.mask, 12, 24);
    InsertField(c, s.reserved2, 36, 28);
    if s.InRange() {
      LowSmall(s.reserved1, 11);
      LowSmall(s.v, 1);
      LowSmall(s.mask, 24);
      LowSmall(s.reserved2, 28);
    }
  }

  lemma PhysMaskInjective(x: u64, y: u64)
    requires UnpackPhysMask(x) == UnpackPhysMask(y)
    ensures x == y
  {
    AgreeNext(x, y, 0, 11);
    AgreeNext(x, y, 11, 1);
    AgreeNext(x, y, 12, 24);
    AgreeNext(x, y, 36, 28);
    Pow2Values();
    LowSmall(x, 64);
    LowSmall(y, 64);
  }

  lemma PhysMaskRoundTrip(value: u64)
    ensures PackPhysMask(UnpackPhysMask(value)) == value
  {
    var s := UnpackPhysMask(value);
    PhysMaskFields(s);
    PhysMaskInjective(value, PackPhysMask(s));
  }

  // The layouts in plain arithmetic: each field is the value shifted right and masked.

  lemma LayoutWidths()
    ensures Pow2(0) == 0x1
    ensures Pow2(1) == 0x2
    ensures Pow2(2) == 0x4
    ensures Pow2(4) == 0x10
    ensures Pow2(8) == 0x100
    ensures Pow2(9) == 0x200
    ensures Pow2(10) == 0x400
    ensures Pow2(11) == 0x800
    ensures Pow2(12) == 0x1000
    ensures Pow2(20) == 0x10_0000
    ensures Pow2(21) == 0x20_0000
    ensures Pow2(24) == 0x100_0000
    ensures Pow2(28) == 0x1000_0000
    ensures Pow2(32) == 0x1_0000_0000
    ensures Pow2(36) == 0x10_0000_0000
    ensures Pow2(43) == 0x800_0000_0000
    ensures Pow2(44) == 0x1000_0000_0000
  {
    Pow2Values();
    assert Pow2(2) == 0x4;
    assert Pow2(4) == 0x10;
    assert Pow2(6) == 0x40;
    assert Pow2(8) == 0x100;
    assert Pow2(10) == 0x400;
    assert Pow2(12) == 0x1000;
    assert Pow2(14) == 0x4000;
    assert Pow2(16) == 0x1_0000;
    assert Pow2(18) == 0x4_0000;
    assert Pow2(20) == 0x10_0000;
    assert Pow2(22) == 0x40_0000;
    assert Pow2(24) == 0x100_0000;
    assert Pow2(26) == 0x400_0000;
    assert Pow2(28) == 0x1000_0000;
    assert Pow2(30) == 0x4000_0000;
    assert Pow2(32) == 0x1_0000_0000;
    assert Pow2(34) == 0x4_0000_0000;
    assert Pow2(36) == 0x10_0000_0000;
    assert Pow2(38) == 0x40_0000_0000;
    assert Pow2(40) == 0x100_0000_0000;
    assert Pow2(42) == 0x400_0000_0000;
    assert Pow2(44) == 0x1000_0000_0000;
  }

  lemma CapLayout(value: u64)
    ensures var s := UnpackCap(value);
            s.vcnt == value / 0x1 % 0x100 &&
            s.fix == value / 0x100 % 0x2 &&
            s.reserved1 == value / 0x200 % 0x2 &&
            s.wc == value / 0x400 % 0x2 &&
            s.reserved2 == value / 0x800 % 0x1_0000_0000 &&
            s.reserved3 == value / 0x800_0000_0000 % 0x20_0000
  {
    hide Field, Pow2;
    LayoutWidths();
    FieldIsArithmetic(value, 0, 8);
    FieldIsArithmetic(value, 8, 1);
    FieldIsArithmetic(value, 9, 1);
    FieldIsArithmetic(value, 10, 1);
    FieldIsArithmetic(value, 11, 32);
    FieldIsArithmetic(value, 43, 21);
  }

  lemma DefTypeLayout(value: u64)
    ensures var s := UnpackDefType(value);
            s.ty == value / 0x1 % 0x100 &&
            s.reserved1 == value / 0x100 % 0x4 &&
            s.fe == value / 0x400 % 0x2 &&
            s.e == value / 0x800 % 0x2 &&
            s.reserved2 == value / 0x1000 % 0x1_0000_0000 &&
            s.reserved3 == value / 0x1000_0000_0000 % 0x10_0000
  {
    hide Field, Pow2;
    LayoutWidths();
    FieldIsArithmetic(value, 0, 8);
    FieldIsArithmetic(value, 8, 2);
    FieldIsArithmetic(value, 10, 1);
    FieldIsArithmetic(value, 11, 1);
    FieldIsArithmetic(value, 12, 32);
    FieldIsArithmetic(value, 44, 20);
  }

  lemma PhysBaseLayout(value: u64)
    ensures var s := UnpackPhysBase(value);
            s.ty == value / 0x1 % 0x100 &&
            s.reserved1 == value / 0x100 % 0x10 &&
            s.base == value / 0x1000 % 0x100_0000 &&
            s.reserved2 == value / 0x10_0000_0000 % 0x1000_0000
  {
    hide Field, Pow2;
    LayoutWidths();
    FieldIsArithmetic(value, 0, 8);
    FieldIsArithmetic(value, 8, 4);
    FieldIsArithmetic(value, 12, 24);
    FieldIsArithmetic(value, 36, 28);
  }

  lemma PhysMaskLayout(value: u64)
    ensures var s := UnpackPhysMask(value);
            s.reserved1 == value / 0x1 % 0x800 &&
            s.v == value / 0x800 % 0x2 &&
            s.mask == value / 0x1000 % 0x100_0000 &&
            s.reserved2 == value / 0x10_0000_0000 % 0x1000_0000
  {
    hide Field, Pow2;
    LayoutWidths();
    FieldIsArithmetic(value, 0, 11);
    FieldIsArithmetic(value, 11, 1);
    FieldIsArithmetic(value, 12, 24);
    FieldIsArithmetic(value, 36, 28);
  }
}
