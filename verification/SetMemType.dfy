/**
 Setting one page range to a memory type: how the variable ranges are programmed, and which
 pages end up with which type. Here the registers are unpacked; MtrrManager ties this to
 the 64-bit registers.
 */
module SetMemType {
  import opened Bits
  import opened MtrrRegisters
  import opened MemoryTypes

  /** The ranges afterwards, the value returned, and the pages no register was left for. */
  datatype Outcome = Outcome(ranges: seq<Range>, ok: bool, left: nat)

  /** The range register pair programmed for 2^k pages from a page, as it reads back. */
  function Block(page: nat, k: nat, memType: nat): Range
    requires k <= 24
  {
    Range(PhysBase(Low(memType, 8), 0, page, 0), PhysMask(0, 1, HighMask(k), 0))
  }

  /** All valid bits cleared. */
  function Cleared(rs: seq<Range>): (r: seq<Range>)
    ensures |r| == |rs| && forall i | 0 <= i < |r| :: r[i] == rs[i].(mask := rs[i].mask.(v := 0))
  {
    seq(|rs|, i requires 0 <= i < |rs| => rs[i].(mask := rs[i].mask.(v := 0)))
  }

  /** Page numbers below 4 GB have 20 bits; the byte base wraps there. */
  function NextPage(page: nat, k: nat): nat {
    Low(page + Pow2(k), 20)
  }

  lemma TopExpBound(n: nat, k: nat)
    requires 0 < n < Pow2(k)
    ensures TopExp(n) < k
  {
    Pow2Monotonic(TopExp(n), k);
  }

  /** Covers n pages from a page, the largest power of two first, starting at range ndx. */
  function Program(rs: seq<Range>, page: nat, n: nat, ndx: nat, memType: nat): (r: Outcome)
    requires ndx < |rs| && n < Pow2(20)
    ensures |r.ranges| == |rs| && r.left <= n
    decreases n
  {
    if n == 0 then Outcome(rs, true, 0)
    else
      TopExpBound(n, 20);
      var k := TopExp(n);
      var rs' := rs[ndx := Block(page, k, memType)];
      if ndx + 1 == |rs| then Outcome(rs', false, n - Pow2(k))
      else Program(rs', NextPage(page, k), n - Pow2(k), ndx + 1, memType)
  }

  // ----- How many registers it takes

  /** The call succeeds iff there are more registers than set bits in the page count. */
  lemma {:induction false} ProgramRounds(rs: seq<Range>, page: nat, n: nat, ndx: nat, memType: nat)
    requires ndx < |rs| && n < Pow2(20)
    ensures var r := Program(rs, page, n, ndx, memType);
            (r.ok <==> PopCount(n) < |rs| - ndx) &&
            (r.left == 0 <==> PopCount(n) <= |rs| - ndx)
    decreases n
  {
    hide Pow2, TopExp, Block, Low;
    if n != 0 {
      TopExpBound(n, 20);
      PopCountDropTop(n);
      var k := TopExp(n);
      PopCountZero(n - Pow2(k));
      if ndx + 1 < |rs| {
        ProgramRounds(rs[ndx := Block(page, k, memType)], NextPage(page, k), n - Pow2(k), ndx + 1, memType);
      }
    }
  }

  // ----- Which pages are covered

  /** A block matches exactly its aligned 2^k pages. */
  lemma BlockHits(b: nat, k: nat, memType: nat, page: nat)
    requires k <= 24 && b < Pow2(24) && page < Pow2(24)
    ensures Block(b, k, memType).Hits(page) <==> Align(b, k) <= page < Align(b, k) + Pow2(k)
  {
    hide Low, Pow2;
    AndHigh(page, k, 24);
    AndHigh(b, k, 24);
    AlignBlock(page, b, k);
  }

  /** Earlier ranges are left alone. */
  lemma {:induction false} ProgramFrame(rs: seq<Range>, page: nat, n: nat, ndx: nat, memType: nat)
    requires ndx < |rs| && n < Pow2(20)
    ensures forall i | 0 <= i < ndx :: Program(rs, page, n, ndx, memType).ranges[i] == rs[i]
    decreases n
  {
    hide Low, Pow2, TopExp;
    if n != 0 {
      TopExpBound(n, 20);
      var k := TopExp(n);
      if ndx + 1 < |rs| {
        ProgramFrame(rs[ndx := Block(page, k, memType)], NextPage(page, k), n - Pow2(k), ndx + 1, memType);
      }
    }
  }

  /** The start is aligned for the first and largest block, and the range ends below 4 GB. */
  predicate Representable(page: nat, n: nat) {
    n == 0 || (Aligned(page, TopExp(n)) && page + n <= Pow2(20))
  }

  /** After the first block the rest of a representable range is representable. */
  lemma RestRepresentable(page: nat, n: nat)
    requires 0 < n && Representable(page, n)
    ensures var k := TopExp(n);
            n - Pow2(k) > 0 ==> NextPage(page, k) == page + Pow2(k) && Representable(page + Pow2(k), n - Pow2(k))
  {
    hide Pow2, TopExp;
    var k := TopExp(n);
    var rest := n - Pow2(k);
    if rest > 0 {
      var j := TopExp(rest);
      Pow2Monotonic(j, k);
      LowSmall(page + Pow2(k), 20);
      AlignedDown(page, j, k);
      Pow2Aligned(j, k);
      AlignedSum(page, Pow2(k), j);
    }
  }

  /** The pages programmed are exactly those of the range that a register was left for. */
  lemma {:induction false} ProgramCovers(rs: seq<Range>, page: nat, n: nat, ndx: nat, memType: nat, p: nat)
    requires ndx < |rs| && n < Pow2(20) && page < Pow2(20) && p < Pow2(24)
    requires forall i | ndx <= i < |rs| :: !rs[i].Valid()
    requires Representable(page, n)
    ensures var r := Program(rs, page, n, ndx, memType);
            HitCount(r.ranges, ndx, p) == if page <= p < page + n - r.left then 1 else 0
    decreases n
  {
    hide Low, Pow2, TopExp, And, Block;
    var r := Program(rs, page, n, ndx, memType);
    if n == 0 {
      HitCountZero(rs, ndx, p);
    } else {
      TopExpBound(n, 20);
      var k := TopExp(n);
      var b := Block(page, k, memType);
      var rs' := rs[ndx := b];
      Pow2Monotonic(20, 24);
      BlockHits(page, k, memType, p);
      if ndx + 1 == |rs| {
        assert r == Outcome(rs', false, n - Pow2(k));
        assert HitCount(rs', ndx + 1, p) == 0;
      } else if n == Pow2(k) {
        assert r == Outcome(rs', true, 0);
        HitCountZero(rs', ndx + 1, p);
      } else {
        RestRepresentable(page, n);
        assert r == Program(rs', page + Pow2(k), n - Pow2(k), ndx + 1, memType);
        ProgramCovers(rs', page + Pow2(k), n - Pow2(k), ndx + 1, memType, p);
        ProgramFrame(rs', page + Pow2(k), n - Pow2(k), ndx + 1, memType);
      }
      assert r.ranges[ndx] == b;
      assert b.Hits(p) <==> page <= p < page + Pow2(k);
      assert HitCount(r.ranges, ndx, p) == (if b.Hits(p) then 1 else 0) + HitCount(r.ranges, ndx + 1, p);
    }
  }

  /** The pages mapped by the valid ranges from lo on, by the size of their blocks. */
  function MappedPages(rs: seq<Range>, lo: nat): int
    decreases |rs| - lo
  {
    if lo >= |rs| then 0
    else (if rs[lo].Valid() then Pow2(24) - rs[lo].mask.mask else 0) + MappedPages(rs, lo + 1)
  }

  lemma {:induction false} MappedNone(rs: seq<Range>, lo: nat)
    requires forall i | lo <= i < |rs| :: !rs[i].Valid()
    ensures MappedPages(rs, lo) == 0
    decreases |rs| - lo
  {
    hide Pow2;
    if lo < |rs| {
      MappedNone(rs, lo + 1);
    }
  }

  /** No page is lost: the blocks programmed and the pages left add up to the request. The blocks get
      strictly smaller from one range to the next. */
  lemma {:induction false} ProgramConserves(rs: seq<Range>, page: nat, n: nat, ndx: nat, memType: nat)
    requires ndx < |rs| && n < Pow2(20) && forall i | ndx <= i < |rs| :: !rs[i].Valid()
    ensures var r := Program(rs, page, n, ndx, memType);
            MappedPages(r.ranges, ndx) + r.left == n &&
            (forall i | ndx <= i < |rs| && r.ranges[i].Valid() :: Pow2(24) - r.ranges[i].mask.mask <= n) &&
            forall i, j | ndx <= i < j < |rs| && r.ranges[j].Valid() ::
              r.ranges[i].Valid() && r.ranges[i].mask.mask < r.ranges[j].mask.mask
    decreases n
  {
    hide Low, Pow2, TopExp;
    var r := Program(rs, page, n, ndx, memType);
    if n == 0 {
      MappedNone(rs, ndx);
    } else {
      TopExpBound(n, 20);
      var k := TopExp(n);
      var b := Block(page, k, memType);
      var rs' := rs[ndx := b];
      if ndx + 1 == |rs| {
        assert r == Outcome(rs', false, n - Pow2(k));
      } else {
        assert r == Program(rs', NextPage(page, k), n - Pow2(k), ndx + 1, memType);
        ProgramConserves(rs', NextPage(page, k), n - Pow2(k), ndx + 1, memType);
        ProgramFrame(rs', NextPage(page, k), n - Pow2(k), ndx + 1, memType);
      }
      assert r.ranges[ndx] == b;
      assert MappedPages(r.ranges, ndx) == Pow2(k) + MappedPages(r.ranges, ndx + 1);
    }
  }

  /** How many ranges from lo on are valid. */
  function ValidCount(rs: seq<Range>, lo: nat): nat
    decreases |rs| - lo
  {
    if lo >= |rs| then 0 else (if rs[lo].Valid() then 1 else 0) + ValidCount(rs, lo + 1)
  }

  lemma {:induction false} ValidNone(rs: seq<Range>, lo: nat)
    requires forall i | lo <= i < |rs| :: !rs[i].Valid()
    ensures ValidCount(rs, lo) == 0
    decreases |rs| - lo
  {
    if lo < |rs| {
      ValidNone(rs, lo + 1);
    }
  }

  /** How many rounds the loop takes: one for each set bit of the page count while registers last. */
  function Rounds(n: nat, registers: nat): nat {
    if PopCount(n) < registers then PopCount(n) else registers
  }

  /** Each round programs one range. */
  lemma {:induction false} RangesProgrammed(rs: seq<Range>, page: nat, n: nat, ndx: nat, memType: nat)
    requires ndx < |rs| && n < Pow2(20) && forall i | ndx <= i < |rs| :: !rs[i].Valid()
    ensures ValidCount(Program(rs, page, n, ndx, memType).ranges, ndx) == Rounds(n, |rs| - ndx)
    decreases n
  {
    hide Low, Pow2, TopExp, PopCount;
    PopCountZero(n);
    if n == 0 {
      ValidNone(rs, ndx);
    } else {
      TopExpBound(n, 20);
      PopCountDropTop(n);
      var r := Program(rs, page, n, ndx, memType);
      var k := TopExp(n);
      var b := Block(page, k, memType);
      var rs' := rs[ndx := b];
      if ndx + 1 < |rs| {
        assert r == Program(rs', NextPage(page, k), n - Pow2(k), ndx + 1, memType);
        RangesProgrammed(rs', NextPage(page, k), n - Pow2(k), ndx + 1, memType);
        ProgramFrame(rs', NextPage(page, k), n - Pow2(k), ndx + 1, memType);
      }
      assert r.ranges[ndx] == b && b.Valid();
      assert ValidCount(r.ranges, ndx) == 1 + ValidCount(r.ranges, ndx + 1);
    }
  }

  /** Ranges that no round reaches are left alone. */
  lemma {:induction false} ProgramTail(rs: seq<Range>, page: nat, n: nat, ndx: nat, memType: nat, i: nat)
    requires ndx < |rs| && n < Pow2(20) && ndx + Rounds(n, |rs| - ndx) <= i < |rs|
    ensures Program(rs, page, n, ndx, memType).ranges[i] == rs[i]
    decreases n
  {
    hide Low, Pow2, TopExp, PopCount, Block;
    PopCountZero(n);
    if n != 0 {
      TopExpBound(n, 20);
      PopCountDropTop(n);
      var k := TopExp(n);
      if ndx + 1 < |rs| {
        ProgramTail(rs[ndx := Block(page, k, memType)], NextPage(page, k), n - Pow2(k), ndx + 1, memType, i);
      }
    }
  }

  /** Every valid range has the requested type, a contiguous mask, and no reserved bit set. */
  ghost predicate Uniform(rs: seq<Range>, memType: nat) {
    forall i | 0 <= i < |rs| && rs[i].Valid() ::
      rs[i].base == PhysBase(Low(memType, 8), 0, rs[i].base.base, 0) &&
      rs[i].mask == PhysMask(0, 1, rs[i].mask.mask, 0) && Contiguous(rs[i].mask.mask)
  }

  lemma {:induction false} ProgramUniform(rs: seq<Range>, page: nat, n: nat, ndx: nat, memType: nat)
    requires ndx < |rs| && n < Pow2(20)
    requires Uniform(rs, memType)
    ensures Uniform(Program(rs, page, n, ndx, memType).ranges, memType)
    decreases n
  {
    hide Low, Pow2, TopExp, HighMask;
    if n != 0 {
      TopExpBound(n, 20);
      var k := TopExp(n);
      var b := Block(page, k, memType);
      assert b.mask.mask == HighMask(k) && Contiguous(b.mask.mask);
      var rs' := rs[ndx := b];
      assert Uniform(rs', memType);
      if ndx + 1 < |rs| {
        ProgramUniform(rs', NextPage(page, k), n - Pow2(k), ndx + 1, memType);
      }
    }
  }

  // ----- The whole call

  const PAGE_SIZE_4K: nat := 0x1000
  const PAGE_SHIFT_4K: nat := 12

  lemma {:induction false} ShrBound(x: nat, k: nat, w: nat)
    requires x < Pow2(k + w)
    ensures Shr(x, k) < Pow2(w)
    decreases k
  {
    if k != 0 {
      ShrBound(x / 2, k - 1, w);
    }
  }

  /** The size in pages, rounded up; the sum wraps at 32 bits. */
  function NumPages(size: nat): (n: nat)
    ensures n < Pow2(20)
  {
    ShrBound(Low(size + PAGE_SIZE_4K - 1, 32), PAGE_SHIFT_4K, 20);
    Shr(Low(size + PAGE_SIZE_4K - 1, 32), PAGE_SHIFT_4K)
  }

  function FirstPage(base: nat): (page: nat)
    requires base < Pow2(32)
    ensures page < Pow2(20)
  {
    ShrBound(base, PAGE_SHIFT_4K, 20);
    Shr(base, PAGE_SHIFT_4K)
  }

  datatype SetResult = SetResult(state: Mtrrs, ok: bool, left: nat)

  function Set(s: Mtrrs, base: nat, size: nat, memType: nat): SetResult
    requires s.Wf() && base < Pow2(32)
  {
    var s' := s.(def := s.def.(fe := 0, ty := MTRR_TYPE_UNCACHABLE));
    if s.cap.vcnt > MAX_VARIABLE_MTRRS then SetResult(s', false, NumPages(size))
    else
      var r := Program(Cleared(s.ranges), FirstPage(base), NumPages(size), 0, memType);
      SetResult(s'.(ranges := r.ranges), r.ok, r.left)
  }

  /** The call returns true iff there are more registers than set bits in the page count. */
  lemma SetSucceeds(s: Mtrrs, base: nat, size: nat, memType: nat)
    requires s.Wf() && base < Pow2(32)
    ensures Set(s, base, size, memType).ok <==> PopCount(NumPages(size)) < s.cap.vcnt <= MAX_VARIABLE_MTRRS
  {
    hide Program, NumPages, FirstPage, PopCount;
    ProgramRounds(Cleared(s.ranges), FirstPage(base), NumPages(size), 0, memType);
  }

  /** Whatever it returns, a representable range is covered from its start, each page exactly once,
      as far as the registers reach, and no other page is covered. */
  lemma SetCovers(s: Mtrrs, base: nat, size: nat, memType: nat, p: nat)
    requires s.Wf() && s.cap.vcnt <= MAX_VARIABLE_MTRRS
    requires base < Pow2(32) && p < Pow2(24)
    requires Representable(FirstPage(base), NumPages(size))
    ensures var r := Set(s, base, size, memType);
            r.left <= NumPages(size) &&
            (r.left == 0 <==> PopCount(NumPages(size)) <= s.cap.vcnt) &&
            HitCount(r.state.ranges, 0, p) ==
              if FirstPage(base) <= p < FirstPage(base) + NumPages(size) - r.left then 1 else 0
  {
    hide Program, NumPages, FirstPage, PopCount, HitCount, Representable;
    ProgramRounds(Cleared(s.ranges), FirstPage(base), NumPages(size), 0, memType);
    ProgramCovers(Cleared(s.ranges), FirstPage(base), NumPages(size), 0, memType, p);
  }

  /** What the call keeps: the capabilities, the enable bit and the reserved bits of the default type, and
      every register pair it does not need but for its valid bit. With more than 16 variable ranges it
      fails and keeps all pairs. */
  lemma SetKeeps(s: Mtrrs, base: nat, size: nat, memType: nat)
    requires s.Wf() && base < Pow2(32)
    ensures var r := Set(s, base, size, memType);
            r.state.cap == s.cap && |r.state.ranges| == |s.ranges| &&
            r.state.def == DefType(MTRR_TYPE_UNCACHABLE, s.def.reserved1, 0, s.def.e,
                                   s.def.reserved2, s.def.reserved3) &&
            (s.cap.vcnt > MAX_VARIABLE_MTRRS ==> !r.ok && r.state.ranges == s.ranges) &&
            (s.cap.vcnt <= MAX_VARIABLE_MTRRS ==>
               forall i | Rounds(NumPages(size), s.cap.vcnt) <= i < |s.ranges| ::
                 r.state.ranges[i] == Range(s.ranges[i].base, s.ranges[i].mask.(v := 0)))
  {
    hide Program, NumPages, FirstPage, PopCount;
    if s.cap.vcnt <= MAX_VARIABLE_MTRRS {
      forall i | Rounds(NumPages(size), s.cap.vcnt) <= i < |s.ranges|
        ensures Set(s, base, size, memType).state.ranges[i] == Range(s.ranges[i].base, s.ranges[i].mask.(v := 0))
      {
        ProgramTail(Cleared(s.ranges), FirstPage(base), NumPages(size), 0, memType, i);
      }
    }
  }

  /** All valid ranges have the requested type. */
  lemma SetUniform(s: Mtrrs, base: nat, size: nat, memType: nat)
    requires s.Wf() && s.cap.vcnt <= MAX_VARIABLE_MTRRS && base < Pow2(32)
    ensures Uniform(Set(s, base, size, memType).state.ranges, memType)
  {
    hide Program, NumPages, FirstPage, Low;
    ProgramUniform(Cleared(s.ranges), FirstPage(base), NumPages(size), 0, memType);
  }

  // ----- When the range is not representable

  /** A misaligned range spills onto the page before it. */
  lemma MisalignedSpills(page: nat, n: nat, memType: nat)
    requires 0 < n < Pow2(20) && page < Pow2(20) && !Aligned(page, TopExp(n))
    ensures page > 0 && TopExp(n) < 20 && Block(page, TopExp(n), memType).Hits(page - 1)
  {
    hide Low, Pow2, TopExp, Block;
    TopExpBound(n, 20);
    Pow2Monotonic(20, 24);
    BlockHits(page, TopExp(n), memType, page - 1);
  }

  lemma BlockBelow4G(page: nat, k: nat, memType: nat)
    requires k < 20 && page < Pow2(20)
    ensures !Block(page, k, memType).Hits(Pow2(20))
  {
    hide Low, Pow2, Block, Range.Hits;
    Pow2Monotonic(20, 24);
    BlockHits(page, k, memType, Pow2(20));
    Pow2Aligned(k, 20);
    AlignBlock(Pow2(20), page, k);
  }

  /** Nothing at or above 4 GB is ever covered. */
  lemma {:induction false} NothingAbove(rs: seq<Range>, page: nat, n: nat, ndx: nat, memType: nat)
    requires ndx < |rs| && n < Pow2(20) && page < Pow2(20)
    requires forall i | 0 <= i < |rs| :: !rs[i].Hits(Pow2(20))
    ensures forall i | 0 <= i < |rs| :: !Program(rs, page, n, ndx, memType).ranges[i].Hits(Pow2(20))
    decreases n
  {
    hide Low, Pow2, TopExp, Range.Hits, Block;
    if n != 0 {
      TopExpBound(n, 20);
      var k := TopExp(n);
      BlockBelow4G(page, k, memType);
      var rs' := rs[ndx := Block(page, k, memType)];
      if ndx + 1 < |rs| {
        NothingAbove(rs', NextPage(page, k), n - Pow2(k), ndx + 1, memType);
      }
    }
  }

  // ----- The promise, in pages: the programmed range gets the type and everything else is uncached

  ghost predicate AsRequested(s: Mtrrs, base: nat, size: nat, memType: nat)
    requires base < Pow2(32)
  {
    forall p: nat | p < Pow2(24) ::
      EffectiveType(s.def, s.ranges, p) ==
        Type(if FirstPage(base) <= p < FirstPage(base) + NumPages(size) then Low(memType, 8) else MTRR_TYPE_UNCACHABLE)
  }

  /** The type of a page after the call: the requested type where a range matches, else uncached. */
  lemma TypeAfterSet(s: Mtrrs, base: nat, size: nat, memType: nat, p: nat)
    requires s.Wf() && s.cap.vcnt <= MAX_VARIABLE_MTRRS && s.def.e != 0 && base < Pow2(32)
    ensures var s' := Set(s, base, size, memType).state;
            EffectiveType(s'.def, s'.ranges, p) ==
              Type(if HitCount(s'.ranges, 0, p) == 0 then MTRR_TYPE_UNCACHABLE else Low(memType, 8))
  {
    hide Program, NumPages, FirstPage, Low, HitCount, EffectiveType;
    var s' := Set(s, base, size, memType).state;
    SetUniform(s, base, size, memType);
    OneTypeResolves(s'.def, s'.ranges, p, Low(memType, 8));
  }

  /** The range and no other page is matched. */
  ghost predicate ExactlyMatched(rs: seq<Range>, page: nat, n: nat) {
    forall p: nat | p < Pow2(24) :: HitCount(rs, 0, p) == 0 <==> !(page <= p < page + n)
  }

  lemma RequestedIsMatched(s: Mtrrs, base: nat, size: nat, memType: nat)
    requires s.Wf() && s.cap.vcnt <= MAX_VARIABLE_MTRRS && s.def.e != 0 && base < Pow2(32)
    ensures var s' := Set(s, base, size, memType).state;
            AsRequested(s', base, size, memType) <==>
            Low(memType, 8) == MTRR_TYPE_UNCACHABLE || ExactlyMatched(s'.ranges, FirstPage(base), NumPages(size))
  {
    hide Set, Pow2, NumPages, FirstPage, Low, HitCount, EffectiveType;
    forall p: nat | p < Pow2(24)
      ensures var s' := Set(s, base, size, memType).state;
              EffectiveType(s'.def, s'.ranges, p) ==
                Type(if HitCount(s'.ranges, 0, p) == 0 then MTRR_TYPE_UNCACHABLE else Low(memType, 8))
    {
      TypeAfterSet(s, base, size, memType, p);
    }
  }

  lemma ClearedMisses(rs: seq<Range>, i: nat, p: nat)
    requires i < |rs|
    ensures !Cleared(rs)[i].Hits(p)
  {}

  /** A range that is not representable matches the page before it, or misses the page at 4 GB. */
  lemma WrongPage(s: Mtrrs, base: nat, size: nat, memType: nat) returns (p: nat)
    requires s.Wf() && s.cap.vcnt <= MAX_VARIABLE_MTRRS && base < Pow2(32)
    requires !Representable(FirstPage(base), NumPages(size))
    requires Set(s, base, size, memType).ok
    ensures p < Pow2(24)
    ensures var rs := Set(s, base, size, memType).state.ranges;
            (p + 1 == FirstPage(base) && HitCount(rs, 0, p) != 0) ||
            (FirstPage(base) <= p == Pow2(20) < FirstPage(base) + NumPages(size) && HitCount(rs, 0, p) == 0)
  {
    hide NumPages, FirstPage, Low, HitCount, Pow2, TopExp, Range.Hits, PopCount;
    var rs, page, n := Cleared(s.ranges), FirstPage(base), NumPages(size);
    var rs' := Set(s, base, size, memType).state.ranges;
    Pow2Monotonic(20, 24);
    if !Aligned(page, TopExp(n)) {
      TopExpBound(n, 20);
      MisalignedSpills(page, n, memType);
      p := page - 1;
      var k := TopExp(n);
      var rs1 := rs[0 := Block(page, k, memType)];
      assert rs' == Program(rs1, NextPage(page, k), n - Pow2(k), 1, memType).ranges;
      ProgramFrame(rs1, NextPage(page, k), n - Pow2(k), 1, memType);
      assert rs'[0].Hits(p);
    } else {
      p := Pow2(20);
      forall i | 0 <= i < |rs| ensures !rs[i].Hits(p) {
        ClearedMisses(s.ranges, i, p);
      }
      NothingAbove(rs, page, n, 0, memType);
    }
    HitCountZero(rs', 0, p);
  }

  /** A successful call, with MTRRs enabled, gives the pages it counted the requested type, and no other
      page, iff the range is representable, or the type is the one everything else gets anyway. */
  lemma SetExact(s: Mtrrs, base: nat, size: nat, memType: nat)
    requires s.Wf() && s.def.e != 0 && base < Pow2(32)
    requires Set(s, base, size, memType).ok
    ensures AsRequested(Set(s, base, size, memType).state, base, size, memType) <==>
            Representable(FirstPage(base), NumPages(size)) || Low(memType, 8) == MTRR_TYPE_UNCACHABLE
  {
    hide Set, Pow2, NumPages, FirstPage, Low, HitCount, AsRequested, Representable, PopCount;
    var rs := Set(s, base, size, memType).state.ranges;
    SetSucceeds(s, base, size, memType);
    RequestedIsMatched(s, base, size, memType);
    if Representable(FirstPage(base), NumPages(size)) {
      forall p: nat | p < Pow2(24)
        ensures HitCount(rs, 0, p) == if FirstPage(base) <= p < FirstPage(base) + NumPages(size) then 1 else 0
      {
        SetCovers(s, base, size, memType, p);
      }
    } else {
      var p := WrongPage(s, base, size, memType);
    }
  }

  // ----- Pages and bytes

  /** Some byte of the range lies in page p. */
  predicate Touched(base: nat, size: nat, p: nat) {
    size > 0 && p * 0x1000 < base + size && base < (p + 1) * 0x1000
  }

  /** Rounding the size up does not wrap, and the byte range does not straddle one page more than its
      size needs. */
  predicate CountedRight(base: nat, size: nat) {
    size == 0 || (size + 0xFFF < Pow2(32) && base % 0x1000 + (size + 0xFFF) % 0x1000 < 0x1000)
  }

  lemma PageOf(x: nat)
    ensures Shr(x, 12) == x / 0x1000
  {
    hide Shr, Pow2;
    ShrIsDiv(x, 12);
    Pow2Values();
  }

  /** Rounding a size in the last page below 4 GB wraps to less than a page. */
  lemma LowWraps(x: nat)
    requires Pow2(32) <= x < Pow2(32) + 0xFFF
    ensures Low(x, 32) < 0xFFF
  {
    hide Low;
    LowIsMod(x, 32);
    DivModUnique(x, Pow2(32), 1, x - Pow2(32));
  }

  lemma NumPagesValue(size: nat)
    requires size < Pow2(32)
    ensures NumPages(size) == if size + 0xFFF < Pow2(32) then (size + 0xFFF) / 0x1000 else 0
  {
    hide Low, Shr, Pow2;
    PageOf(Low(size + 0xFFF, 32));
    if size + 0xFFF < Pow2(32) {
      LowSmall(size + 0xFFF, 32);
    } else {
      LowWraps(size + 0xFFF);
    }
  }

  lemma FirstPageValue(base: nat)
    requires base < Pow2(32)
    ensures FirstPage(base) == base / 0x1000
  {
    PageOf(base);
  }

  lemma TouchedCount(base: nat, size: nat) returns (t: nat)
    requires size > 0
    ensures t > 0 && forall p: nat :: base / 0x1000 <= p < base / 0x1000 + t <==> Touched(base, size, p)
    ensures t == (size + 0xFFF) / 0x1000 <==> base % 0x1000 + (size + 0xFFF) % 0x1000 < 0x1000
    ensures (size + 0xFFF) / 0x1000 <= t <= (size + 0xFFF) / 0x1000 + 1
  {
    t := (base + size - 1) / 0x1000 - base / 0x1000 + 1;
  }

  lemma NoneTouched(base: nat)
    ensures forall p: nat :: !Touched(base, 0, p)
  {}

  /** That is when the pages counted are the pages the byte range touches. */
  lemma TouchedPages(base: nat, size: nat)
    requires base < Pow2(32) && size < Pow2(32)
    ensures (forall p: nat :: FirstPage(base) <= p < FirstPage(base) + NumPages(size) <==> Touched(base, size, p)) <==>
            CountedRight(base, size)
  {
    hide NumPages, FirstPage, Touched;
    NumPagesValue(size);
    FirstPageValue(base);
    var b, n := FirstPage(base), NumPages(size);
    if size > 0 {
      var t := TouchedCount(base, size);
      if n != t {
        var p := b + if n < t then n else t;
        assert (b <= p < b + n) != Touched(base, size, p);
      }
    } else {
      assert n == 0;
      NoneTouched(base);
    }
  }

  // ----- The promise, in bytes: base to base + size gets the type and everything else is uncached

  /** Each page that holds a byte of the range has the requested type, and every other page is uncached. */
  ghost predicate Promised(s: Mtrrs, base: nat, size: nat, memType: nat) {
    forall p: nat | p < Pow2(24) ::
      EffectiveType(s.def, s.ranges, p) ==
        Type(if Touched(base, size, p) then Low(memType, 8) else MTRR_TYPE_UNCACHABLE)
  }

  /** Pages below the first are not touched; as many pages as counted, from the first on, are. */
  lemma TouchedFromFirst(base: nat, size: nat)
    requires base < Pow2(32) && size < Pow2(32)
    ensures forall p: nat | p < FirstPage(base) :: !Touched(base, size, p)
    ensures forall p: nat | FirstPage(base) <= p < FirstPage(base) + NumPages(size) :: Touched(base, size, p)
  {
    hide Pow2, NumPages, FirstPage, Touched;
    FirstPageValue(base);
    NumPagesValue(size);
    if size > 0 {
      var t := TouchedCount(base, size);
    } else {
      NoneTouched(base);
    }
  }

  /** A page that is counted wrongly: past the pages counted, and still touched. */
  lemma MiscountedPage(base: nat, size: nat) returns (p: nat)
    requires base < Pow2(32) && size < Pow2(32) && !CountedRight(base, size)
    requires FirstPage(base) + NumPages(size) <= Pow2(20) || NumPages(size) == 0
    ensures p < Pow2(24) && p == FirstPage(base) + NumPages(size) && Touched(base, size, p)
  {
    hide Pow2, NumPages, FirstPage, Touched;
    FirstPageValue(base);
    NumPagesValue(size);
    Pow2Monotonic(20, 24);
    p := FirstPage(base) + NumPages(size);
    var t := TouchedCount(base, size);
    assert t > NumPages(size);
  }

  /** Otherwise some page is touched and not matched, or matched and not touched. */
  lemma BrokenPage(s: Mtrrs, base: nat, size: nat, memType: nat) returns (p: nat)
    requires s.Wf() && s.cap.vcnt <= MAX_VARIABLE_MTRRS && base < Pow2(32) && size < Pow2(32)
    requires Set(s, base, size, memType).ok
    requires !(Representable(FirstPage(base), NumPages(size)) && CountedRight(base, size))
    ensures p < Pow2(24)
    ensures HitCount(Set(s, base, size, memType).state.ranges, 0, p) == 0 <==> Touched(base, size, p)
  {
    hide Set, Pow2, NumPages, FirstPage, Low, HitCount, PopCount, Touched, TopExp;
    var b, n := FirstPage(base), NumPages(size);
    Pow2Monotonic(20, 24);
    TouchedFromFirst(base, size);
    if !Representable(b, n) {
      p := WrongPage(s, base, size, memType);
    } else {
      p := MiscountedPage(base, size);
      SetCovers(s, base, size, memType, p);
      SetSucceeds(s, base, size, memType);
    }
  }

  /** A successful call, with MTRRs enabled, keeps its promise for every byte range iff the pages are
      counted right and representable, or the requested type is the one everything else gets anyway. */
  lemma PromiseExact(s: Mtrrs, base: nat, size: nat, memType: nat)
    requires s.Wf() && s.def.e != 0 && base < Pow2(32) && size < Pow2(32)
    requires Set(s, base, size, memType).ok
    ensures Promised(Set(s, base, size, memType).state, base, size, memType) <==>
            Low(memType, 8) == MTRR_TYPE_UNCACHABLE ||
            (Representable(FirstPage(base), NumPages(size)) && CountedRight(base, size))
  {
    hide Set, Pow2, NumPages, FirstPage, Low, HitCount, EffectiveType, Representable, PopCount, Touched, CountedRight;
    var s' := Set(s, base, size, memType).state;
    SetSucceeds(s, base, size, memType);
    forall p: nat | p < Pow2(24)
      ensures EffectiveType(s'.def, s'.ranges, p) ==
                Type(if HitCount(s'.ranges, 0, p) == 0 then MTRR_TYPE_UNCACHABLE else Low(memType, 8))
    {
      TypeAfterSet(s, base, size, memType, p);
    }
    if Representable(FirstPage(base), NumPages(size)) && CountedRight(base, size) {
      TouchedPages(base, size);
      forall p: nat | p < Pow2(24) ensures HitCount(s'.ranges, 0, p) != 0 <==> Touched(base, size, p) {
        SetCovers(s, base, size, memType, p);
      }
    } else {
      var p := BrokenPage(s, base, size, memType);
    }
  }

  /** The call succeeds on a representable range, and page p, which the bytes touch, is left uncached. */
  ghost predicate BreaksPromise(s: Mtrrs, base: nat, size: nat, memType: nat, p: nat)
    requires s.Wf()
  {
    base < Pow2(32) && size < Pow2(32) && p < Pow2(24) &&
    var r := Set(s, base, size, memType);
    r.ok && Representable(FirstPage(base), NumPages(size)) && Touched(base, size, p) &&
    EffectiveType(r.state.def, r.state.ranges, p) == Type(MTRR_TYPE_UNCACHABLE) &&
    !Promised(r.state, base, size, memType)
  }

  lemma SmallCounts()
    ensures PopCount(0) == 0 && PopCount(1) == 1
  {}

  lemma LostPage(s: Mtrrs, base: nat, size: nat, p: nat)
    requires s.Wf() && s.cap.vcnt <= MAX_VARIABLE_MTRRS && s.def.e != 0
    requires base < Pow2(32) && size < Pow2(32) && p < Pow2(24)
    requires FirstPage(base) == 0 && NumPages(size) <= 1 && PopCount(NumPages(size)) < s.cap.vcnt
    requires NumPages(size) <= p && Touched(base, size, p)
    ensures BreaksPromise(s, base, size, MTRR_TYPE_WRBACK, p)
  {
    hide Set, Pow2, NumPages, FirstPage, HitCount, EffectiveType, PopCount, Touched;
    var s' := Set(s, base, size, MTRR_TYPE_WRBACK).state;
    assert Representable(0, NumPages(size)) by { Pow2Values(); }
    SetSucceeds(s, base, size, MTRR_TYPE_WRBACK);
    SetCovers(s, base, size, MTRR_TYPE_WRBACK, p);
    TypeAfterSet(s, base, size, MTRR_TYPE_WRBACK, p);
    Pow2Values();
    LowSmall(MTRR_TYPE_WRBACK, 8);
  }

  /** Two successful calls on representable ranges that break the promise: a size in the last page below
      4 GB is rounded up to nothing, and a page of bytes from the middle of a page ends in the next. */
  lemma PromiseBroken(s: Mtrrs)
    requires s.Wf() && s.cap.vcnt <= MAX_VARIABLE_MTRRS && s.def.e != 0
    ensures BreaksPromise(s, 0, 0xFFFF_F001, MTRR_TYPE_WRBACK, 0)
    ensures s.cap.vcnt >= 2 ==> BreaksPromise(s, 0x800, 0x1000, MTRR_TYPE_WRBACK, 1)
  {
    hide Pow2, BreaksPromise, PopCount;
    Pow2Values();
    assert PopCount(0) == 0 && PopCount(1) == 1 by { SmallCounts(); }
    NumPagesValue(0xFFFF_F001);
    FirstPageValue(0);
    LostPage(s, 0, 0xFFFF_F001, 0);
    if s.cap.vcnt >= 2 {
      NumPagesValue(0x1000);
      FirstPageValue(0x800);
      LostPage(s, 0x800, 0x1000, 1);
    }
  }
}
