/**
 The MTRR manager, as it works on the machine: bit scanning, setting a memory type, saving,
 restoring and validating the memory type range registers.
 */
module MtrrManager {
  import opened Bits
  import opened MachineTypes
  import opened MtrrRegisters
  import opened MemoryTypes
  import opened MsrFile
  import opened SetMemType
  import opened ValidateMtrrs

  // ----- Finding the top bit

  lemma Pow2Double(k: int)
    ensures k >= 0 ==> Pow2(k + 1) == 2 * Pow2(k)
    ensures Pow2(0) == 1
  {}

  /** A value below 2^(i+1) is below 2^i iff its bit i is clear. */
  lemma BelowBit(value: nat, i: nat)
    requires 0 < value < 2 * Pow2(i)
    ensures And(value, Pow2(i)) == 0 <==> value < Pow2(i)
    ensures i == 0 ==> And(value, Pow2(i)) != 0
  {
    hide And, Low, Bit;
    AndComm(value, Pow2(i));
    AndBit(value, i);
    LowNext(value, i);
    LowSmall(value, i + 1);
    if value < Pow2(i) {
      LowSmall(value, i);
    }
  }

  /** Find the last (most significant) set bit: scans from bit 31 down. */
  method Bsrl(value: nat) returns (i: nat)
    requires 0 < value < Pow2(32)
    ensures i < 32 && i == TopExp(value)
  {
    hide And, Low, Bit, Pow2;
    i := 31;
    assert Pow2(32) == 2 * Pow2(31) by { Pow2Double(31); }
    while And(value, Pow2(i)) == 0
      invariant i < 32 && value < 2 * Pow2(i)
      decreases i
    {
      BelowBit(value, i);
      Pow2Double(i - 1);
      i := i - 1;
    }
    BelowBit(value, i);
    TopExpUnique(value, i);
  }

  method Fls(mask: nat) returns (r: nat)
    requires mask < Pow2(32)
    ensures r == if mask == 0 then 0 else TopExp(mask) + 1
  {
    if mask == 0 {
      r := mask;
    } else {
      r := Bsrl(mask);
      r := r + 1;
    }
  }

  // ----- The saved state

  /** The registers saved before a change: fields hold values of their widths. */
  class MtrrState {
    var defType: DefType
    var numVarMtrrs: nat
    const physBases: array<PhysBase>
    const physMasks: array<PhysMask>

    ghost predicate Valid()
      reads this, physBases, physMasks
    {
      physBases.Length == MAX_VARIABLE_MTRRS && physMasks.Length == MAX_VARIABLE_MTRRS &&
      numVarMtrrs <= MAX_VARIABLE_MTRRS && InRange(Ranges())
    }

    ghost function Ranges(): (rs: seq<Range>)
      reads this, physBases, physMasks
      requires physBases.Length == MAX_VARIABLE_MTRRS && physMasks.Length == MAX_VARIABLE_MTRRS
      requires numVarMtrrs <= MAX_VARIABLE_MTRRS
      ensures |rs| == numVarMtrrs && forall i | 0 <= i < |rs| :: rs[i] == Range(physBases[i], physMasks[i])
    {
      var n := numVarMtrrs;
      seq(n, i requires 0 <= i < n && n <= physBases.Length && n <= physMasks.Length
               reads physBases, physMasks => Range(physBases[i], physMasks[i]))
    }

    constructor ()
      ensures physBases.Length == MAX_VARIABLE_MTRRS && physMasks.Length == MAX_VARIABLE_MTRRS
      ensures numVarMtrrs == 0 && Valid() && fresh(physBases) && fresh(physMasks)
    {
      defType := DefType(0, 0, 0, 0, 0, 0);
      numVarMtrrs := 0;
      physBases := new PhysBase[MAX_VARIABLE_MTRRS](_ => PhysBase(0, 0, 0, 0));
      physMasks := new PhysMask[MAX_VARIABLE_MTRRS](_ => PhysMask(0, 0, 0, 0));
    }
  }

  // ----- Steps of ValidateMtrrs

  /** A clear bit above a set bit. */
  lemma HoleNotContiguous(mask: nat, low: nat, k: nat)
    requires low < k < 24 && Low(mask, k) == Pow2(k) - Pow2(low) && !Bit(mask, k)
    ensures !Contiguous(mask)
  {
    hide Low, Bit, Pow2, HighMask;
    LowNext(mask, k);
    Pow2Double(k);
    Pow2Monotonic(low, k);
    forall j: nat | j <= 24 ensures mask != HighMask(j) {
      HighMaskDef(j);
      LowOfOnes(24, j, k + 1);
      Pow2Monotonic(j, k);
      Pow2Monotonic(k + 1, j);
    }
  }

  /** Scans a 24-bit mask for its lowest set bit and then for a clear bit above it. */
  method MaskIsContiguous(mask: nat) returns (ok: bool)
    requires mask < Pow2(24)
    ensures ok <==> Contiguous(mask)
  {
    hide And, Low, Bit, Pow2, HighMask;
    var tb := 1;
    ghost var k: nat := 0;
    Pow2Double(-1);
    Pow2Values();
    while tb < 0x1000000
      invariant k <= 24 && tb == Pow2(k) && Low(mask, k) == 0
      decreases 24 - k
    {
      Pow2Monotonic(k, 24);
      AndBit(mask, k);
      LowNext(mask, k);
      if And(tb, mask) != 0 {
        break;
      }
      Pow2Double(k);
      tb := tb * 2;
      k := k + 1;
    }
    ghost var low := k;
    Pow2Monotonic(k, 24);
    while tb < 0x1000000
      invariant low <= k <= 24 && tb == Pow2(k) && Low(mask, k) == Pow2(k) - Pow2(low)
      invariant low == k < 24 ==> Bit(mask, k)
      decreases 24 - k
    {
      Pow2Monotonic(k, 24);
      AndBit(mask, k);
      LowNext(mask, k);
      if And(tb, mask) == 0 {
        HoleNotContiguous(mask, low, k);
        break;
      }
      Pow2Double(k);
      tb := tb * 2;
      k := k + 1;
    }
    ok := tb == 0x1000000;
    Pow2Monotonic(k, 24);
    if ok {
      LowSmall(mask, 24);
      HighMaskDef(low);
      assert mask == HighMask(low);
    }
  }

  /** Searches for an uncached range that contains range a or range b. */
  method IsExcused(state: MtrrState, a: nat, b: nat) returns (ok: bool)
    requires state.Valid() && a < state.numVarMtrrs && b < state.numVarMtrrs
    ensures var rs := state.Ranges();
            rs[a].mask.mask < Pow2(32) && rs[b].mask.mask < Pow2(32) && (ok <==> Excused(rs, rs[a], rs[b]))
  {
    hide And, Pow2, PhysBase.InRange, PhysMask.InRange;
    ghost var rs := state.Ranges();
    InRange32(rs, a);
    InRange32(rs, b);
    var ra, rb := Range(state.physBases[a], state.physMasks[a]), Range(state.physBases[b], state.physMasks[b]);
    var j := 0;
    while j < state.numVarMtrrs
      invariant j <= state.numVarMtrrs
      invariant forall u | 0 <= u < j :: !(Uncached(rs[u]) && (Covers(rs[u], ra) || Covers(rs[u], rb)))
    {
      var rj := Range(state.physBases[j], state.physMasks[j]);
      if rj.mask.v != 0 && rj.base.ty == MTRR_TYPE_UNCACHABLE && (Covers(rj, ra) || Covers(rj, rb)) {
        assert rj == rs[j];
        break;
      }
      j := j + 1;
    }
    ok := j < state.numVarMtrrs;
  }

  ghost predicate BadPair(rs: seq<Range>, i: nat, j: nat)
    requires InRange(rs) && i < |rs| && j < |rs|
  {
    InRange32(rs, i);
    InRange32(rs, j);
    Conflict(rs[i], rs[j]) && !Excused(rs, rs[i], rs[j])
  }

  ghost predicate NoBadPair(rs: seq<Range>, n: nat)
    requires InRange(rs) && n <= |rs|
  {
    forall i, j | 0 <= i < n && i < j < |rs| :: !BadPair(rs, i, j)
  }

  /** Range ndx makes a bad pair with a later one. */
  ghost predicate RowBad(rs: seq<Range>, ndx: nat)
    requires InRange(rs) && ndx < |rs|
  {
    exists j | ndx < j < |rs| :: BadPair(rs, ndx, j)
  }

  lemma NoBadPairStart(rs: seq<Range>)
    requires InRange(rs)
    ensures NoBadPair(rs, 0)
  {
    hide And, Pow2, PhysBase.InRange, PhysMask.InRange, BadPair;
  }

  lemma RowStep(rs: seq<Range>, ndx: nat)
    requires InRange(rs) && ndx < |rs|
    ensures RowBad(rs, ndx) ==> !NoBadPair(rs, |rs|)
    ensures NoBadPair(rs, ndx) && !RowBad(rs, ndx) ==> NoBadPair(rs, ndx + 1)
    ensures !rs[ndx].Valid() ==> !RowBad(rs, ndx)
  {
    hide And, Pow2, PhysBase.InRange, PhysMask.InRange, Excused;
  }

  lemma BadPairsReject(vcnt: nat, def: DefType, rs: seq<Range>)
    requires InRange(rs) && def.e != 0 && |rs| <= vcnt && AllContiguous(rs)
    ensures Accepts(vcnt, def, rs) <==> NoBadPair(rs, |rs|)
  {
    hide And, Pow2, PhysBase.InRange, PhysMask.InRange, Excused, Conflict, Contiguous;
    assert forall i, j | 0 <= i < j < |rs| ::
        BadPair(rs, i, j) <==>
        Conflict(rs[i], rs[j]) && (InRange32(rs, i); InRange32(rs, j); !Excused(rs, rs[i], rs[j]));
  }

  /** Compares range ndx with every later one. */
  method OverlapsBadly(state: MtrrState, ndx: nat) returns (bad: bool)
    requires state.Valid() && ndx < state.numVarMtrrs && state.physMasks[ndx].v != 0
    ensures bad <==> RowBad(state.Ranges(), ndx)
  {
    hide And, Pow2, PhysBase.InRange, PhysMask.InRange, Excused;
    ghost var rs := state.Ranges();
    var a := Range(state.physBases[ndx], state.physMasks[ndx]);
    var i := ndx + 1;
    while i < state.numVarMtrrs
      invariant ndx < i <= state.numVarMtrrs
      invariant forall j | ndx < j < i :: !BadPair(rs, ndx, j)
    {
      var b := Range(state.physBases[i], state.physMasks[i]);
      if b.mask.v != 0 && Overlap(a, b) && !Compatible(a.base.ty, b.base.ty) {
        var excused := IsExcused(state, ndx, i);
        if !excused {
          assert BadPair(rs, ndx, i);
          return true;
        }
      }
      i := i + 1;
    }
    return false;
  }

  // ----- Steps of SetMemType

  lemma UncachedInRange(d: DefType)
    requires d.InRange()
    ensures d.(fe := 0, ty := MTRR_TYPE_UNCACHABLE).InRange()
  {
    hide Pow2;
  }

  lemma ClearedInRange(p: PhysMask)
    requires p.InRange()
    ensures p.(v := 0).InRange()
  {
    hide Pow2;
  }

  /** Only pair ndx may have changed. */
  ghost predicate PairChanged(m: Msrs, m': Msrs, ndx: nat) {
    m'.Keys == m.Keys && forall i | i in m && i != BaseIndex(ndx) && i != MaskIndex(ndx) :: m'[i] == m[i]
  }

  /** Only the first n pairs may have changed. */
  ghost predicate OnlyPairsDiffer(m: Msrs, m': Msrs, n: nat) {
    m'.Keys == m.Keys && forall i | i in m && !(BaseIndex(0) <= i < BaseIndex(n)) :: m'[i] == m[i]
  }

  /** The pairs do not depend on the default type. */
  lemma ViewFrame(m: Msrs, m': Msrs, n: nat)
    requires Present(m, n) && n <= MAX_VARIABLE_MTRRS && OnlyMtrrsDiffer(m, m', 0)
    ensures Present(m', n) && View(m', n) == View(m, n)
  {
    hide UnpackPhysBase, UnpackPhysMask, Pow2;
    assert Present(m', n);
    assert forall i: nat | i < n :: RangeOf(m', i) == RangeOf(m, i);
  }

  lemma NumPagesDef(size: nat)
    ensures NumPages(size) == Shr(Low(size + PAGE_SIZE_4K - 1, 32), PAGE_SHIFT_4K)
  {
    hide Low, Shr;
  }

  /** fls on a page count, which has at most 20 bits. */
  method FlsOfPages(numPages: nat) returns (bits: nat)
    requires 0 < numPages < Pow2(20)
    ensures bits >= 1 && bits - 1 == TopExp(numPages) < 20
  {
    hide Pow2, TopExp;
    Pow2Monotonic(20, 32);
    TopExpBound(numPages, 20);
    bits := Fls(numPages);
  }

  /** One round of the programming loop. */
  lemma ProgramUnfold(rs: seq<Range>, page: nat, n: nat, ndx: nat, memType: nat)
    requires ndx < |rs| && n < Pow2(20)
    ensures n == 0 ==> Program(rs, page, n, ndx, memType) == Outcome(rs, true, 0)
    ensures n > 0 ==>
              var k := TopExp(n);
              TopExp(n) < 20 &&
              var rs' := rs[ndx := Block(page, k, memType)];
              Program(rs, page, n, ndx, memType) ==
                if ndx + 1 == |rs| then Outcome(rs', false, n - Pow2(k))
                else Program(rs', NextPage(page, k), n - Pow2(k), ndx + 1, memType)
  {
    hide Pow2, TopExp, Low, Block;
    if n > 0 {
      TopExpBound(n, 20);
    }
  }

  lemma {:induction false} ShrOfSum(x: nat, y: nat, k: nat, w: nat)
    ensures Shr(Low(x + Shl(y, k), k + w), k) == Low(Shr(x, k) + y, w)
    decreases k
  {
    if k != 0 {
      ShrOfSum(x / 2, y, k - 1, w);
      assert (x + Shl(y, k)) / 2 == x / 2 + Shl(y, k - 1);
      assert Low(x + Shl(y, k), k + w) / 2 == Low((x + Shl(y, k)) / 2, k + w - 1);
    }
  }

  /** Moving the byte base past a block moves the page base; both wrap at 4 GB. */
  lemma NextBasePage(base: nat, k: nat)
    requires base < Pow2(32)
    ensures var b := Low(base + Pow2(k) * PAGE_SIZE_4K, 32);
            b < Pow2(32) && FirstPage(b) == NextPage(FirstPage(base), k)
  {
    hide Low, Shr, Shl, Pow2;
    ShlIsMul(Pow2(k), 12);
    assert Pow2(12) == PAGE_SIZE_4K by { Pow2Values(); }
    ShrOfSum(base, Pow2(k), 12, 20);
  }

  lemma BlockBaseReadsBack(page: nat, memType: nat)
    requires page < Pow2(20)
    ensures UnpackPhysBase(PackPhysBase(PhysBase(memType, 0, page, 0))) == PhysBase(Low(memType, 8), 0, page, 0)
  {
    hide Low, UnpackPhysBase, PackPhysBase, Pow2;
    PhysBaseFields(PhysBase(memType, 0, page, 0));
    Pow2Monotonic(20, 24);
    LowSmall(page, 24);
    LowSmall(0, 4);
    LowSmall(0, 28);
  }

  lemma BlockMaskReadsBack(k: nat)
    requires k < 20
    ensures 1 <= Pow2(k) <= Pow2(32)
    ensures UnpackPhysMask(PackPhysMask(PhysMask(0, 1, Not32(Pow2(k) - 1), 0))) == PhysMask(0, 1, HighMask(k), 0)
  {
    hide Low, UnpackPhysMask, PackPhysMask, Pow2, HighMask;
    Pow2Monotonic(k, 32);
    PhysMaskFields(PhysMask(0, 1, Not32(Pow2(k) - 1), 0));
    LowOfOnes(32, k, 24);
    HighMaskDef(k);
    LowSmall(0, 11);
    Pow2Double(0);
    LowSmall(1, 1);
    LowSmall(0, 28);
  }

  // ----- Steps of RestoreMtrrs

  /** All MTRRs are disabled. */
  ghost predicate Disabled(m: Msrs) {
    MSR_MTRR_DEF_TYPE in m && UnpackDefType(m[MSR_MTRR_DEF_TYPE]).e == 0
  }

  lemma DisabledByWithEnable(m: Msrs)
    requires MSR_MTRR_DEF_TYPE in m
    ensures Disabled(m[MSR_MTRR_DEF_TYPE := WithEnable(m[MSR_MTRR_DEF_TYPE], false)])
  {
    hide WithEnable, UnpackDefType, Bit, Pow2;
    WithEnableBits(m[MSR_MTRR_DEF_TYPE], false, 0);
  }

  /** The first ndx pairs hold the saved values; beyond them only the default type differs. */
  ghost predicate PairsRestored(m: Msrs, m': Msrs, rs: seq<Range>, ndx: nat)
    requires ndx <= |rs|
  {
    Present(m, ndx) && OnlyMtrrsDiffer(m, m', ndx) &&
    forall i: nat | i < ndx ::
      m'[BaseIndex(i)] == PackPhysBase(rs[i].base) && m'[MaskIndex(i)] == PackPhysMask(rs[i].mask)
  }

  lemma PairsRestoredStart(m: Msrs, rs: seq<Range>, value: u64)
    requires MSR_MTRR_DEF_TYPE in m
    ensures PairsRestored(m, m[MSR_MTRR_DEF_TYPE := value], rs, 0)
  {
    hide PackPhysBase, PackPhysMask, Pow2;
  }

  lemma PairsRestoredStep(m: Msrs, m': Msrs, rs: seq<Range>, ndx: nat)
    requires ndx < |rs| && BaseIndex(ndx) in m && MaskIndex(ndx) in m && PairsRestored(m, m', rs, ndx)
    ensures var m'' := m'[MaskIndex(ndx) := PackPhysMask(rs[ndx].mask)][BaseIndex(ndx) := PackPhysBase(rs[ndx].base)];
            PairsRestored(m, m'', rs, ndx + 1)
  {
    hide PackPhysBase, PackPhysMask, Pow2;
  }

  lemma PairsRestoredEnd(m: Msrs, m': Msrs, rs: seq<Range>, def: DefType)
    requires MSR_MTRR_DEF_TYPE in m && |rs| <= MAX_VARIABLE_MTRRS && PairsRestored(m, m', rs, |rs|)
    ensures Restored(m, m'[MSR_MTRR_DEF_TYPE := PackDefType(def)], def, rs)
  {
    hide PackPhysBase, PackPhysMask, PackDefType, Pow2;
  }

  // ----- The machine

  class Machine {
    var msrs: Msrs
    ghost var history: seq<Msrs>  // the registers after each write

    constructor (msrs: Msrs)
      ensures this.msrs == msrs && history == []
    {
      this.msrs, history := msrs, [];
    }

    method Rdmsr64(index: nat) returns (value: u64)
      requires index in msrs
      ensures value == msrs[index]
    {
      value := msrs[index];
    }

    /** The value is passed as its low and high halves. */
    method Wrmsr64(index: nat, lo: nat, hi: nat)
      requires index in msrs && lo < Pow2(32) && hi < Pow2(32)
      modifies this
      ensures lo + Shl(hi, 32) < 0x1_0000_0000_0000_0000 && msrs == old(msrs)[index := lo + Shl(hi, 32)]
      ensures history == old(history) + [msrs]
    {
      hide Shl, Pow2;
      Pow2Values();
      InsertFits(lo, hi, 32, 32);
      msrs := msrs[index := lo + Shl(hi, 32)];
      history := history + [msrs];
    }

    method Write(index: nat, value: u64)
      requires index in msrs
      modifies this
      ensures msrs == old(msrs)[index := value] && history == old(history) + [msrs]
    {
      hide Low, Shr, Shl, Pow2;
      Pow2Values();
      ShrBound(value, 32, 32);
      Split(value, 32);
      Wrmsr64(index, Low(value, 32), Shr(value, 32));
    }

    /** Enables or disables all MTRRs. */
    method SetAllMtrrs(enable: bool)
      requires MSR_MTRR_DEF_TYPE in msrs
      modifies this
      ensures msrs == old(msrs)[MSR_MTRR_DEF_TYPE := WithEnable(old(msrs[MSR_MTRR_DEF_TYPE]), enable)]
      ensures history == old(history) + [msrs]
    {
      var value := Rdmsr64(MSR_MTRR_DEF_TYPE);
      var defType := UnpackDefType(value);
      defType := defType.(e := if enable then 1 else 0);
      Write(MSR_MTRR_DEF_TYPE, PackDefType(defType));
    }

    /** Disables the fixed ranges and makes uncached the default type. */
    method UncacheDefault()
      requires MSR_MTRR_DEF_TYPE in msrs
      modifies this
      ensures OnlyMtrrsDiffer(old(msrs), msrs, 0)
      ensures UnpackDefType(msrs[MSR_MTRR_DEF_TYPE]) ==
              UnpackDefType(old(msrs[MSR_MTRR_DEF_TYPE])).(fe := 0, ty := MTRR_TYPE_UNCACHABLE)
    {
      hide UnpackDefType, PackDefType, Pow2;
      var value := Rdmsr64(MSR_MTRR_DEF_TYPE);
      var defType := UnpackDefType(value);
      defType := defType.(fe := 0);
      defType := defType.(ty := MTRR_TYPE_UNCACHABLE);
      UncachedInRange(UnpackDefType(value));
      DefTypeFields(defType);
      Write(MSR_MTRR_DEF_TYPE, PackDefType(defType));
    }

    /** Clears one range's valid bit. */
    method ClearRange(ndx: nat, ghost n: nat)
      requires Present(msrs, n) && ndx < n <= MAX_VARIABLE_MTRRS
      modifies this
      ensures PairChanged(old(msrs), msrs, ndx) && Present(msrs, n)
      ensures var r := old(View(msrs, n))[ndx]; View(msrs, n) == old(View(msrs, n))[ndx := r.(mask := r.mask.(v := 0))]
    {
      hide UnpackPhysMask, PackPhysMask, UnpackPhysBase, Pow2;
      ghost var m := msrs;
      assert MaskIndex(ndx) in msrs;
      var value := Rdmsr64(MTRR_PHYS_MASK0_MSR + ndx * 2);
      var mask := UnpackPhysMask(value);
      mask := mask.(v := 0);
      ClearedInRange(UnpackPhysMask(value));
      PhysMaskFields(mask);
      ViewSetMask(m, n, ndx, PackPhysMask(mask));
      Write(MTRR_PHYS_MASK0_MSR + ndx * 2, PackPhysMask(mask));
    }

    /** Programs one range for 2^k pages from a byte address. */
    method ProgramRange(ndx: nat, base: nat, pagesInRange: nat, memType: nat, ghost n: nat, ghost k: nat)
      requires Present(msrs, n) && ndx < n <= MAX_VARIABLE_MTRRS
      requires base < Pow2(32) && k < 20 && pagesInRange == Pow2(k)
      modifies this
      ensures PairChanged(old(msrs), msrs, ndx) && Present(msrs, n)
      ensures View(msrs, n) == old(View(msrs, n))[ndx := Block(FirstPage(base), k, memType)]
      ensures |history| == |old(history)| + 2
    {
      hide UnpackPhysMask, PackPhysMask, UnpackPhysBase, PackPhysBase, Pow2, Shr, Low, HighMask;
      ghost var m := msrs;
      assert BaseIndex(ndx) in msrs && MaskIndex(ndx) in msrs;
      var value := Rdmsr64(MTRR_PHYS_BASE0_MSR + ndx * 2);
      var physBase := UnpackPhysBase(value);
      physBase := physBase.(reserved1 := 0, base := Shr(base, PAGE_SHIFT_4K), ty := memType, reserved2 := 0);
      ViewSetBase(m, n, ndx, PackPhysBase(physBase));
      Write(MTRR_PHYS_BASE0_MSR + ndx * 2, PackPhysBase(physBase));
      ghost var m1 := msrs;
      value := Rdmsr64(MTRR_PHYS_MASK0_MSR + ndx * 2);
      var physMask := UnpackPhysMask(value);
      Pow2Monotonic(k, 32);
      physMask := physMask.(reserved1 := 0, mask := Not32(pagesInRange - 1), v := 1, reserved2 := 0);
      ViewSetMask(m1, n, ndx, PackPhysMask(physMask));
      Write(MTRR_PHYS_MASK0_MSR + ndx * 2, PackPhysMask(physMask));
      BlockBaseReadsBack(FirstPage(base), memType);
      BlockMaskReadsBack(k);
    }

    /** Maps the pages of a byte range to a memory type and everything else to uncached, if there
        are registers enough. */
    method SetMemType(base0: nat, size: nat, memType: nat) returns (ok: bool)
      requires HasMtrrs(msrs) && base0 < Pow2(32)
      modifies this
      ensures HasMtrrs(msrs) && OnlyMtrrsDiffer(old(msrs), msrs, old(Pairs(msrs)))
      ensures var r := Set(old(Decode(msrs)), base0, size, memType); ok == r.ok && Decode(msrs) == r.state
    {
      hide Pow2, Program, UnpackCap, UnpackDefType, NumPages, FirstPage, Block, TopExp, Low, RangeOf;
      ghost var m := msrs;
      ghost var n := Pairs(msrs);
      ghost var rs := View(msrs, n);
      // disable all fixed MTRRs, set default type to UC
      UncacheDefault();
      // disable all variable MTRRs
      var value := Rdmsr64(MSR_MTRR_CAP);
      var cap := UnpackCap(value);
      ghost var m1 := msrs;
      ViewFrame(m, msrs, n);
      if cap.vcnt > MAX_VARIABLE_MTRRS {
        return false;
      }
      var ndx := 0;
      while ndx < cap.vcnt
        invariant ndx <= cap.vcnt == n && Present(msrs, n) && OnlyPairsDiffer(m1, msrs, n)
        invariant forall i | 0 <= i < n ::
                    View(msrs, n)[i] == if i < ndx then rs[i].(mask := rs[i].mask.(v := 0)) else rs[i]
      {
        ClearRange(ndx, n);
        ndx := ndx + 1;
      }
      assert View(msrs, n) == Cleared(rs);
      // map all pages as memType
      NumPagesDef(size);
      ok := ProgramPages(base0, Shr(Low(size + PAGE_SIZE_4K - 1, 32), PAGE_SHIFT_4K), memType, cap.vcnt);
    }

    /** Covers a number of pages from a byte address, the largest power of two first. Each round writes
        one register pair. */
    method ProgramPages(base0: nat, numPages0: nat, memType: nat, vcnt: nat) returns (ok: bool)
      requires Present(msrs, vcnt) && 1 <= vcnt <= MAX_VARIABLE_MTRRS && base0 < Pow2(32) && numPages0 < Pow2(20)
      modifies this
      ensures OnlyPairsDiffer(old(msrs), msrs, vcnt) && Present(msrs, vcnt)
      ensures var r := Program(old(View(msrs, vcnt)), FirstPage(base0), numPages0, 0, memType);
              ok == r.ok && View(msrs, vcnt) == r.ranges
      ensures |history| == |old(history)| + 2 * Rounds(numPages0, vcnt)
    {
      hide Pow2, Program, FirstPage, Block, TopExp, Low, RangeOf, PopCount;
      ghost var result := Program(View(msrs, vcnt), FirstPage(base0), numPages0, 0, memType);
      var base: nat, numPages: nat := base0, numPages0;
      var ndx := 0;
      while numPages > 0
        invariant ndx < vcnt && base < Pow2(32) && numPages < Pow2(20)
        invariant Present(msrs, vcnt) && OnlyPairsDiffer(old(msrs), msrs, vcnt)
        invariant |history| == |old(history)| + 2 * ndx && ndx + PopCount(numPages) == PopCount(numPages0)
        invariant Program(View(msrs, vcnt), FirstPage(base), numPages, ndx, memType) == result
      {
        PopCountDropTop(numPages);
        var bits := FlsOfPages(numPages);
        ghost var k := TopExp(numPages);
        var pagesInRange := Pow2(bits - 1);
        ProgramUnfold(View(msrs, vcnt), FirstPage(base), numPages, ndx, memType);
        ProgramRange(ndx, base, pagesInRange, memType, vcnt, k);
        NextBasePage(base, k);
        base := Low(base + pagesInRange * PAGE_SIZE_4K, 32);
        numPages := numPages - pagesInRange;
        ndx := ndx + 1;
        if ndx == vcnt {
          return false;
        }
      }
      PopCountZero(numPages);
      ProgramUnfold(View(msrs, vcnt), FirstPage(base), numPages, ndx, memType);
      return true;
    }

    method SaveMtrrs(state: MtrrState)
      requires state.Valid() && HasMtrrs(msrs)
      modifies state, state.physBases, state.physMasks
      ensures state.Valid()
      ensures state.defType == UnpackDefType(msrs[MSR_MTRR_DEF_TYPE])
      ensures state.numVarMtrrs == Pairs(msrs) && state.Ranges() == View(msrs, Pairs(msrs))
      ensures forall i | Pairs(msrs) <= i < MAX_VARIABLE_MTRRS ::
                state.physBases[i] == old(state.physBases[i]) && state.physMasks[i] == old(state.physMasks[i])
    {
      hide UnpackPhysBase, UnpackPhysMask, UnpackCap, UnpackDefType, Pow2;
      var value := Rdmsr64(MSR_MTRR_DEF_TYPE);
      state.defType := UnpackDefType(value);
      value := Rdmsr64(MSR_MTRR_CAP);
      var cap := UnpackCap(value);
      if cap.vcnt > MAX_VARIABLE_MTRRS {
        state.numVarMtrrs := MAX_VARIABLE_MTRRS;
      } else {
        state.numVarMtrrs := cap.vcnt;
      }
      var ndx := 0;
      while ndx < state.numVarMtrrs
        invariant ndx <= state.numVarMtrrs == Pairs(msrs)
        invariant state.defType == UnpackDefType(msrs[MSR_MTRR_DEF_TYPE])
        invariant forall i: nat | i < ndx :: Range(state.physBases[i], state.physMasks[i]) == RangeOf(msrs, i)
        invariant forall i | ndx <= i < MAX_VARIABLE_MTRRS ::
                    state.physBases[i] == old(state.physBases[i]) && state.physMasks[i] == old(state.physMasks[i])
      {
        assert BaseIndex(ndx) in msrs && MaskIndex(ndx) in msrs;
        value := Rdmsr64(MTRR_PHYS_MASK0_MSR + ndx * 2);
        state.physMasks[ndx] := UnpackPhysMask(value);
        value := Rdmsr64(MTRR_PHYS_BASE0_MSR + ndx * 2);
        state.physBases[ndx] := UnpackPhysBase(value);
        ndx := ndx + 1;
      }
      assert state.Ranges() == View(msrs, Pairs(msrs));
    }

    /** Writes one saved pair back, mask first. */
    method RestorePair(ndx: nat, base: PhysBase, mask: PhysMask)
      requires MSR_MTRR_DEF_TYPE in msrs && ndx < MAX_VARIABLE_MTRRS && BaseIndex(ndx) in msrs && MaskIndex(ndx) in msrs
      requires Disabled(msrs)
      modifies this
      ensures msrs == old(msrs)[MaskIndex(ndx) := PackPhysMask(mask)][BaseIndex(ndx) := PackPhysBase(base)]
      ensures history == old(history) + [old(msrs)[MaskIndex(ndx) := PackPhysMask(mask)], msrs]
      ensures Disabled(msrs) && Disabled(history[|old(history)|]) && Disabled(history[|old(history)| + 1])
    {
      hide PackPhysBase, PackPhysMask, UnpackDefType, Pow2;
      Write(MTRR_PHYS_MASK0_MSR + ndx * 2, PackPhysMask(mask));
      Write(MTRR_PHYS_BASE0_MSR + ndx * 2, PackPhysBase(base));
    }

    /** Writes saved registers back with MTRRs disabled until the last write. */
    method RestoreMtrrs(state: MtrrState?)
      requires state != null ==>
                 state.Valid() && Present(msrs, state.numVarMtrrs) && MSR_MTRR_DEF_TYPE in msrs
      modifies this
      ensures state == null ==> msrs == old(msrs) && history == old(history)
      ensures state != null ==>
                Restored(old(msrs), msrs, state.defType, state.Ranges()) &&
                old(history) <= history && |history| == |old(history)| + 2 * state.numVarMtrrs + 2 &&
                forall i | |old(history)| <= i < |history| - 1 :: Disabled(history[i])
    {
      hide PackPhysBase, PackPhysMask, PackDefType, Pow2, WithEnable, UnpackDefType, InRange, PairsRestored, Disabled;
      if state == null {
        return;
      }
      ghost var m := msrs;
      ghost var rs := state.Ranges();
      SetAllMtrrs(false);
      DisabledByWithEnable(m);
      PairsRestoredStart(m, rs, WithEnable(m[MSR_MTRR_DEF_TYPE], false));
      var ndx := 0;
      while ndx < state.numVarMtrrs
        invariant ndx <= state.numVarMtrrs && Disabled(msrs) && msrs.Keys == m.Keys
        invariant PairsRestored(m, msrs, rs, ndx)
        invariant old(history) <= history && |history| == |old(history)| + 2 * ndx + 1
        invariant forall i | |old(history)| <= i < |history| :: Disabled(history[i])
      {
        assert BaseIndex(ndx) in m && MaskIndex(ndx) in m;
        PairsRestoredStep(m, msrs, rs, ndx);
        RestorePair(ndx, state.physBases[ndx], state.physMasks[ndx]);
        ndx := ndx + 1;
      }
      PairsRestoredEnd(m, msrs, rs, state.defType);
      Write(MSR_MTRR_DEF_TYPE, PackDefType(state.defType));
    }

    method ValidateMtrrs(state: MtrrState) returns (ok: bool)
      requires state.Valid() && MSR_MTRR_CAP in msrs
      ensures ok <==> Accepts(Vcnt(msrs), state.defType, state.Ranges())
    {
      hide And, Pow2, Overlap, Covers, Compatible, Contiguous, PhysBase.InRange, PhysMask.InRange, UnpackCap, Excused;
      hide NoBadPair, RowBad, BadPair, Conflict;
      if state.defType.e == 0 {
        return true;
      }
      ghost var rs := state.Ranges();
      var value := Rdmsr64(MSR_MTRR_CAP);
      var cap := UnpackCap(value);
      if cap.vcnt < state.numVarMtrrs {
        return false;
      }
      // variable MTRRs describing non-contiguous memory regions
      var ndx := 0;
      while ndx < state.numVarMtrrs
        invariant ndx <= state.numVarMtrrs
        invariant forall i | 0 <= i < ndx && rs[i].Valid() :: Contiguous(rs[i].mask.mask)
      {
        if state.physMasks[ndx].v != 0 {
          InRange32(rs, ndx);
          var contiguous := MaskIsContiguous(state.physMasks[ndx].mask);
          if !contiguous {
            assert rs[ndx].Valid();
            return false;
          }
        }
        ndx := ndx + 1;
      }
      // overlapping regions with invalid memory type combinations
      ndx := 0;
      NoBadPairStart(rs);
      while ndx < state.numVarMtrrs
        invariant ndx <= state.numVarMtrrs
        invariant NoBadPair(rs, ndx)
      {
        RowStep(rs, ndx);
        if state.physMasks[ndx].v != 0 {
          var bad := OverlapsBadly(state, ndx);
          if bad {
            BadPairsReject(Vcnt(msrs), state.defType, rs);
            return false;
          }
        } else {
          assert !rs[ndx].Valid();
        }
        ndx := ndx + 1;
      }
      BadPairsReject(Vcnt(msrs), state.defType, rs);
      return true;
    }
  }

  // ----- The manager's operations together

  lemma BlockInRange(page: nat, k: nat, memType: nat)
    requires page < Pow2(20) && k <= 24
    ensures var r := Block(page, k, memType); r.base.InRange() && r.mask.InRange()
  {
    hide Pow2, Low, HighMask;
    Pow2Monotonic(20, 24);
    Pow2Double(0);
    HighMaskDef(k);
  }

  lemma {:induction false} ProgramInRange(rs: seq<Range>, page: nat, n: nat, ndx: nat, memType: nat)
    requires ndx < |rs| && n < Pow2(20) && page < Pow2(20) && InRange(rs)
    ensures InRange(Program(rs, page, n, ndx, memType).ranges)
    decreases n
  {
    hide Pow2, TopExp, Low, Block, PhysBase.InRange, PhysMask.InRange;
    if n > 0 {
      ProgramUnfold(rs, page, n, ndx, memType);
      var k := TopExp(n);
      BlockInRange(page, k, memType);
      if ndx + 1 < |rs| {
        ProgramInRange(rs[ndx := Block(page, k, memType)], NextPage(page, k), n - Pow2(k), ndx + 1, memType);
      }
    }
  }

  lemma ClearedIsInRange(rs: seq<Range>)
    requires InRange(rs)
    ensures InRange(Cleared(rs))
  {
    hide Pow2;
  }

  /** Whatever set_mem_type returned, the registers it leaves are valid. */
  lemma SetIsAccepted(s: Mtrrs, base: nat, size: nat, memType: nat)
    requires s.Wf() && InRange(s.ranges) && s.cap.vcnt <= MAX_VARIABLE_MTRRS && base < Pow2(32)
    ensures var s' := Set(s, base, size, memType).state;
            InRange(s'.ranges) && Accepts(s.cap.vcnt, s'.def, s'.ranges)
  {
    hide Pow2, Program, NumPages, FirstPage, Low, PhysBase.InRange, PhysMask.InRange, Accepts, Contiguous;
    var s' := Set(s, base, size, memType).state;
    ClearedIsInRange(s.ranges);
    ProgramInRange(Cleared(s.ranges), FirstPage(base), NumPages(size), 0, memType);
    SetUniform(s, base, size, memType);
    OneTypeAccepted(s.cap.vcnt, s'.def, s'.ranges, Low(memType, 8));
  }

  /** Saving, setting a memory type and restoring leaves every MSR as it was. */
  method SaveSetRestore(machine: Machine, state: MtrrState, base: nat, size: nat, memType: nat) returns (ok: bool)
    requires HasMtrrs(machine.msrs) && state.Valid() && base < Pow2(32)
    modifies machine, state, state.physBases, state.physMasks
    ensures machine.msrs == old(machine.msrs)
    ensures ok <==> PopCount(NumPages(size)) < Vcnt(machine.msrs) <= MAX_VARIABLE_MTRRS
  {
    hide Pow2, Set, PopCount, NumPages, UnpackCap, UnpackDefType, PackDefType, RangeOf;
    ghost var m := machine.msrs;
    ghost var n := Pairs(m);
    machine.SaveMtrrs(state);
    ok := machine.SetMemType(base, size, memType);
    SetSucceeds(Decode(m), base, size, memType);
    ghost var m' := machine.msrs;
    assert Present(m', n);
    machine.RestoreMtrrs(state);
    RestoreUndoes(m, m', machine.msrs, n);
  }

  lemma ViewInRange(m: Msrs, n: nat)
    requires Present(m, n)
    ensures InRange(View(m, n))
  {
    hide Pow2, PhysBase.InRange, PhysMask.InRange;
  }

  /** Setting a memory type and saving gives a state that validates. */
  method SetSaveValidate(machine: Machine, state: MtrrState, base: nat, size: nat, memType: nat)
    returns (ok: bool, valid: bool)
    requires HasMtrrs(machine.msrs) && Vcnt(machine.msrs) <= MAX_VARIABLE_MTRRS && state.Valid() && base < Pow2(32)
    modifies machine, state, state.physBases, state.physMasks
    ensures valid
  {
    hide Pow2, Set, UnpackCap, UnpackDefType, RangeOf, Accepts, PhysBase.InRange, PhysMask.InRange;
    ghost var s := Decode(machine.msrs);
    ViewInRange(machine.msrs, Pairs(machine.msrs));
    ok := machine.SetMemType(base, size, memType);
    SetIsAccepted(s, base, size, memType);
    machine.SaveMtrrs(state);
    valid := machine.ValidateMtrrs(state);
  }
}
