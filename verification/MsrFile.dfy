/**
 The model-specific registers as a numbered file of 64-bit values, and the unpacked view of
 the MTRRs among them.
 */
module MsrFile {
  import opened Bits
  import opened MachineTypes
  import opened MtrrRegisters
  import opened MemoryTypes

  type Msrs = map<nat, u64>

  function BaseIndex(ndx: nat): nat {
    MTRR_PHYS_BASE0_MSR + ndx * 2
  }

  function MaskIndex(ndx: nat): nat {
    MTRR_PHYS_MASK0_MSR + ndx * 2
  }

  /** The first n register pairs exist. */
  ghost predicate Present(m: Msrs, n: nat) {
    forall i: nat | i < n :: BaseIndex(i) in m && MaskIndex(i) in m
  }

  function Vcnt(m: Msrs): nat
    requires MSR_MTRR_CAP in m
  {
    UnpackCap(m[MSR_MTRR_CAP]).vcnt
  }

  /** How many pairs the code uses. */
  function Pairs(m: Msrs): (n: nat)
    requires MSR_MTRR_CAP in m
    ensures n <= MAX_VARIABLE_MTRRS
  {
    if Vcnt(m) < MAX_VARIABLE_MTRRS then Vcnt(m) else MAX_VARIABLE_MTRRS
  }

  /** A processor with MTRRs: at least one variable range, and every register it reports. */
  ghost predicate HasMtrrs(m: Msrs) {
    MSR_MTRR_CAP in m && MSR_MTRR_DEF_TYPE in m && Vcnt(m) >= 1 && Present(m, Pairs(m))
  }

  function RangeOf(m: Msrs, ndx: nat): Range
    requires BaseIndex(ndx) in m && MaskIndex(ndx) in m
  {
    Range(UnpackPhysBase(m[BaseIndex(ndx)]), UnpackPhysMask(m[MaskIndex(ndx)]))
  }

  /** The first n variable ranges. */
  ghost function View(m: Msrs, n: nat): (rs: seq<Range>)
    requires Present(m, n)
    ensures |rs| == n && forall i: nat | i < n :: rs[i] == RangeOf(m, i)
  {
    seq(n, i requires 0 <= i < n && Present(m, n) => RangeOf(m, i))
  }

  /** The MTRRs, unpacked. */
  ghost function Decode(m: Msrs): (s: Mtrrs)
    requires HasMtrrs(m)
    ensures s.Wf()
  {
    Mtrrs(UnpackCap(m[MSR_MTRR_CAP]), UnpackDefType(m[MSR_MTRR_DEF_TYPE]), View(m, Pairs(m)))
  }

  /** m' differs from m at most in the default type and the first n pairs. */
  ghost predicate OnlyMtrrsDiffer(m: Msrs, m': Msrs, n: nat) {
    m'.Keys == m.Keys &&
    forall i | i in m && i != MSR_MTRR_DEF_TYPE && !(BaseIndex(0) <= i < BaseIndex(n)) :: m'[i] == m[i]
  }

  /** m' is m with the default type and the first |rs| pairs packed from unpacked values. */
  ghost predicate Restored(m: Msrs, m': Msrs, def: DefType, rs: seq<Range>) {
    Present(m, |rs|) && MSR_MTRR_DEF_TYPE in m && OnlyMtrrsDiffer(m, m', |rs|) &&
    m'[MSR_MTRR_DEF_TYPE] == PackDefType(def) &&
    forall i: nat | i < |rs| ::
      m'[BaseIndex(i)] == PackPhysBase(rs[i].base) && m'[MaskIndex(i)] == PackPhysMask(rs[i].mask)
  }

  /** Restoring what was saved undoes any change to the MTRRs. */
  lemma RestoreUndoes(m: Msrs, m': Msrs, m'': Msrs, n: nat)
    requires n <= MAX_VARIABLE_MTRRS && Present(m, n) && MSR_MTRR_DEF_TYPE in m
    requires OnlyMtrrsDiffer(m, m', n)
    requires Restored(m', m'', UnpackDefType(m[MSR_MTRR_DEF_TYPE]), View(m, n))
    ensures m'' == m
  {
    hide UnpackDefType, UnpackPhysBase, UnpackPhysMask, PackDefType, PackPhysBase, PackPhysMask;
    forall i | i in m ensures m''[i] == m[i] {
      if i == MSR_MTRR_DEF_TYPE {
        DefTypeRoundTrip(m[i]);
      } else if BaseIndex(0) <= i < BaseIndex(n) {
        var ndx := (i - BaseIndex(0)) / 2;
        assert i == BaseIndex(ndx) || i == MaskIndex(ndx);
        PhysBaseRoundTrip(m[BaseIndex(ndx)]);
        PhysMaskRoundTrip(m[MaskIndex(ndx)]);
        assert View(m, n)[ndx] == RangeOf(m, ndx);
      }
    }
  }

  /** Writing a mask register changes that range's mask and nothing else. */
  lemma ViewSetMask(m: Msrs, n: nat, ndx: nat, value: u64)
    requires Present(m, n) && ndx < n
    ensures var m' := m[MaskIndex(ndx) := value];
            Present(m', n) && View(m', n) == View(m, n)[ndx := View(m, n)[ndx].(mask := UnpackPhysMask(value))]
  {
    hide UnpackPhysBase, UnpackPhysMask, Pow2;
    var m' := m[MaskIndex(ndx) := value];
    assert Present(m', n);
    assert forall i: nat | i < n :: RangeOf(m', i).base == RangeOf(m, i).base;
  }

  lemma ViewSetBase(m: Msrs, n: nat, ndx: nat, value: u64)
    requires Present(m, n) && ndx < n
    ensures var m' := m[BaseIndex(ndx) := value];
            Present(m', n) && View(m', n) == View(m, n)[ndx := View(m, n)[ndx].(base := UnpackPhysBase(value))]
  {
    hide UnpackPhysBase, UnpackPhysMask, Pow2;
    var m' := m[BaseIndex(ndx) := value];
    assert Present(m', n);
    assert forall i: nat | i < n :: RangeOf(m', i).mask == RangeOf(m, i).mask;
  }

  // ----- The enable bit

  function WithEnable(value: u64, enable: bool): u64 {
    PackDefType(UnpackDefType(value).(e := if enable then 1 else 0))
  }

  lemma {:induction false} BitOfLow(x: nat, w: nat, j: nat)
    requires j < w
    ensures Bit(Low(x, w), j) <==> Bit(x, j)
    decreases j
  {
    if j != 0 {
      BitOfLow(x / 2, w - 1, j - 1);
      assert Low(x, w) / 2 == Low(x / 2, w - 1);
    }
  }

  lemma {:induction false} BitOfField(x: nat, k: nat, w: nat, j: nat)
    requires j < w
    ensures Bit(Field(x, k, w), j) <==> Bit(x, k + j)
    decreases k
  {
    if k == 0 {
      BitOfLow(x, w, j);
    } else {
      BitOfField(x / 2, k - 1, w, j);
    }
  }

  /** Each bit of the default-type register is a bit of one of its fields. */
  lemma FieldBits(value: u64, b: nat)
    requires b < 64
    ensures var s := UnpackDefType(value);
            Bit(value, b) <==> if b < 8 then Bit(s.ty, b) else if b < 10 then Bit(s.reserved1, b - 8)
                               else if b < 11 then Bit(s.fe, 0) else if b < 12 then Bit(s.e, 0)
                               else if b < 44 then Bit(s.reserved2, b - 12) else Bit(s.reserved3, b - 44)
  {
    hide Bit, Field, Pow2;
    if b < 8 {
      BitOfField(value, 0, 8, b);
    } else if b < 10 {
      BitOfField(value, 8, 2, b - 8);
    } else if b < 11 {
      BitOfField(value, 10, 1, 0);
    } else if b < 12 {
      BitOfField(value, 11, 1, 0);
    } else if b < 44 {
      BitOfField(value, 12, 32, b - 12);
    } else {
      BitOfField(value, 44, 20, b - 44);
    }
  }

  lemma BitOfUnit(enable: bool)
    ensures Bit(if enable then 1 else 0, 0) <==> enable
  {}

  /** Only bit 11 of the default-type register, the enable bit, changes, and it becomes enable. */
  lemma WithEnableBits(value: u64, enable: bool, b: nat)
    requires b < 64
    ensures UnpackDefType(WithEnable(value, enable)) == UnpackDefType(value).(e := if enable then 1 else 0)
    ensures Bit(WithEnable(value, enable), b) <==> if b == 11 then enable else Bit(value, b)
  {
    hide Bit, Field, PackDefType, Low;
    var s := UnpackDefType(value).(e := if enable then 1 else 0);
    var v := WithEnable(value, enable);
    assert Pow2(1) == 2;
    DefTypeFields(s);
    FieldBits(value, b);
    FieldBits(v, b);
    BitOfUnit(enable);
  }
}
