/**
 What the memory type range registers mean: the memory type of every physical page, after
 section 11.11 of the Intel 64 and IA-32 Software Developer's Manual, Volume 3A.
 */
module MemoryTypes {
  import opened Bits
  import opened MtrrRegisters

  /** The 24-bit mask with its low k bits clear: 2^24 - 2^k. */
  function HighMask(k: nat): nat
    requires k <= 24
  {
    Pow2Monotonic(k, 24);
    Pow2(24) - Pow2(k)
  }

  /** A mask whose ranges are contiguous. */
  ghost predicate Contiguous(mask: nat) {
    exists k: nat :: k <= 24 && mask == HighMask(k)
  }

  /** One variable-range MTRR: a base and a mask register. */
  datatype Range = Range(base: PhysBase, mask: PhysMask) {

    predicate Valid() {
      mask.v != 0
    }

    /** A valid range matches the pages that agree with its base under its mask. */
    predicate Hits(page: nat) {
      Valid() && And(page, mask.mask) == And(base.base, mask.mask)
    }
  }

  /** The unpacked registers; ranges are the ones the processor reports, at most 16. */
  datatype Mtrrs = Mtrrs(cap: Cap, def: DefType, ranges: seq<Range>) {
    predicate Wf() {
      cap.vcnt >= 1 && |ranges| == if cap.vcnt < MAX_VARIABLE_MTRRS then cap.vcnt else MAX_VARIABLE_MTRRS
    }
  }

  /** The types of all the ranges that match a page. */
  function HitTypes(rs: seq<Range>, page: nat): set<nat> {
    set i | 0 <= i < |rs| && rs[i].Hits(page) :: rs[i].base.ty
  }

  datatype Effective =
    | Type(ty: nat)   // the page has this memory type
    | Undefined       // the manual leaves the behaviour undefined
    | FixedRange      // decided by the fixed-range registers, which are not part of this model

  /** Precedence of overlapping variable ranges (section 11.11.4.1). */
  ghost function Resolve(default: nat, types: set<nat>): Effective {
    if types == {} then Type(default)
    else if MTRR_TYPE_UNCACHABLE in types then Type(MTRR_TYPE_UNCACHABLE)
    else if types == {MTRR_TYPE_WRTHROUGH, MTRR_TYPE_WRBACK} then Type(MTRR_TYPE_WRTHROUGH)
    else if t :| types == {t} then Type(t)
    else Undefined
  }

  /** The memory type of a page. */
  ghost function EffectiveType(d: DefType, rs: seq<Range>, page: nat): Effective {
    if d.e == 0 then Type(MTRR_TYPE_UNCACHABLE)
    else if d.fe != 0 && page < 0x100 then FixedRange
    else Resolve(d.ty, HitTypes(rs, page))
  }

  /** How many of the ranges from lo on match a page. */
  function HitCount(rs: seq<Range>, lo: nat, page: nat): nat
    decreases |rs| - lo
  {
    if lo >= |rs| then 0 else (if rs[lo].Hits(page) then 1 else 0) + HitCount(rs, lo + 1, page)
  }

  /** No range matches. */
  lemma {:induction false} HitCountZero(rs: seq<Range>, lo: nat, page: nat)
    ensures HitCount(rs, lo, page) == 0 <==> forall i | lo <= i < |rs| :: !rs[i].Hits(page)
    decreases |rs| - lo
  {
    if lo < |rs| {
      HitCountZero(rs, lo + 1, page);
    }
  }

  /** When the ranges that match a page agree on the type, that is the page's type. */
  lemma OneTypeResolves(d: DefType, rs: seq<Range>, page: nat, ty: nat)
    requires d.e != 0 && d.fe == 0
    requires forall i | 0 <= i < |rs| && rs[i].Hits(page) :: rs[i].base.ty == ty
    ensures EffectiveType(d, rs, page) == Type(if HitCount(rs, 0, page) == 0 then d.ty else ty)
  {
    HitCountZero(rs, 0, page);
    var types := HitTypes(rs, page);
    if HitCount(rs, 0, page) == 0 {
      assert types == {};
    } else {
      var i :| 0 <= i < |rs| && rs[i].Hits(page);
      assert rs[i].base.ty in types;
      assert types == {ty};
    }
  }
}
