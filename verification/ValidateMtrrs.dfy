/**
 What validate_mtrrs accepts: the tests it makes on register fields, and what they mean for
 the pages the registers match.
 */
module ValidateMtrrs {
  import opened Bits
  import opened MtrrRegisters
  import opened MemoryTypes

  // ----- The tests

  /** The masked bases agree under both masks. */
  predicate Overlap(a: Range, b: Range) {
    And(And(a.base.base, a.mask.mask), b.mask.mask) == And(b.base.base, b.mask.mask) ||
    And(And(b.base.base, b.mask.mask), a.mask.mask) == And(a.base.base, a.mask.mask)
  }

  /** Overlapping ranges of these types are allowed. */
  predicate Compatible(s: nat, t: nat) {
    s == t || s == MTRR_TYPE_UNCACHABLE || t == MTRR_TYPE_UNCACHABLE ||
    (s == MTRR_TYPE_WRTHROUGH && t == MTRR_TYPE_WRBACK) || (s == MTRR_TYPE_WRBACK && t == MTRR_TYPE_WRTHROUGH)
  }

  /** The complement of a 32-bit word. */
  function Not32(x: nat): nat
    requires x < Pow2(32)
  {
    Pow2(32) - 1 - x
  }

  /** u contains r. */
  predicate Covers(u: Range, r: Range)
    requires r.mask.mask < Pow2(32)
  {
    And(And(r.base.base, r.mask.mask), u.mask.mask) == And(u.base.base, u.mask.mask) &&
    And(u.mask.mask, Not32(r.mask.mask)) == 0
  }

  predicate Uncached(r: Range) {
    r.Valid() && r.base.ty == MTRR_TYPE_UNCACHABLE
  }

  ghost predicate InRange(rs: seq<Range>) {
    forall i | 0 <= i < |rs| :: rs[i].base.InRange() && rs[i].mask.InRange()
  }

  lemma InRange32(rs: seq<Range>, i: nat)
    requires InRange(rs) && i < |rs|
    ensures rs[i].mask.mask < Pow2(24) < Pow2(32) && rs[i].base.base < Pow2(24)
  {
    hide Pow2;
    Pow2Monotonic(24, 32);
  }

  ghost predicate AllContiguous(rs: seq<Range>) {
    forall i | 0 <= i < |rs| && rs[i].Valid() :: Contiguous(rs[i].mask.mask)
  }

  /** Two valid ranges that overlap with types that do not go together. */
  predicate Conflict(a: Range, b: Range) {
    a.Valid() && b.Valid() && Overlap(a, b) && !Compatible(a.base.ty, b.base.ty)
  }

  /** Some uncached range contains one of the two. */
  ghost predicate Excused(rs: seq<Range>, a: Range, b: Range)
    requires a.mask.mask < Pow2(32) && b.mask.mask < Pow2(32)
  {
    exists u | 0 <= u < |rs| :: Uncached(rs[u]) && (Covers(rs[u], a) || Covers(rs[u], b))
  }

  /** What the method returns, test by test. */
  ghost predicate Accepts(vcnt: nat, def: DefType, rs: seq<Range>)
    requires InRange(rs)
  {
    def.e == 0 ||
    (|rs| <= vcnt && AllContiguous(rs) &&
     forall i, j | 0 <= i < j < |rs| && Conflict(rs[i], rs[j]) ::
       InRange32(rs, i); InRange32(rs, j); Excused(rs, rs[i], rs[j]))
  }

  // ----- The tests are exact on contiguous ranges

  /** A valid contiguous range matches the pages that round down as its base does. */
  lemma HitsAlign(r: Range, k: nat, p: nat)
    requires r.Valid() && k <= 24 && r.mask.mask == HighMask(k)
    requires r.base.base < Pow2(24) && p < Pow2(24)
    ensures r.Hits(p) <==> Align(p, k) == Align(r.base.base, k)
    ensures And(r.base.base, r.mask.mask) == Align(r.base.base, k)
    ensures Align(r.base.base, k) < Pow2(24)
  {
    hide And, Low;
    AndHigh(p, k, 24);
    AndHigh(r.base.base, k, 24);
  }

  lemma HighMaskDef(k: nat)
    requires k <= 24
    ensures HighMask(k) == Pow2(24) - Pow2(k)
  {
    hide Pow2;
  }

  /** The overlap test, in terms of rounding. */
  lemma OverlapAlign(a: Range, j: nat, b: Range, k: nat)
    requires a.Valid() && b.Valid() && j <= k <= 24 && a.mask.mask == HighMask(j) && b.mask.mask == HighMask(k)
    requires a.base.base < Pow2(24) && b.base.base < Pow2(24)
    ensures Overlap(a, b) <==> Align(a.base.base, k) == Align(b.base.base, k)
  {
    hide And, Low, Align, HighMask, Pow2;
    var x, y := a.base.base, b.base.base;
    HitsAlign(a, j, 0);
    HitsAlign(b, k, 0);
    AndHigh(Align(x, j), k, 24);
    AndHigh(Align(y, k), j, 24);
    assert HighMask(j) == Pow2(24) - Pow2(j) && HighMask(k) == Pow2(24) - Pow2(k) by { HighMaskDef(j); HighMaskDef(k); }
    AlignAlign(x, j, k);
    AlignAlign(y, j, k);
    AlignAlign(y, k, k);
  }

  lemma OverlapSymmetric(a: Range, b: Range)
    ensures Overlap(a, b) <==> Overlap(b, a)
  {
    hide And;
  }

  /** Two valid contiguous ranges pass the overlap test iff some page matches both. */
  lemma OverlapIsSharing(a: Range, j: nat, b: Range, k: nat)
    requires a.Valid() && b.Valid() && j <= k <= 24 && a.mask.mask == HighMask(j) && b.mask.mask == HighMask(k)
    requires a.base.base < Pow2(24) && b.base.base < Pow2(24)
    ensures Overlap(a, b) ==> a.Hits(Align(a.base.base, j)) && b.Hits(Align(a.base.base, j))
    ensures Overlap(a, b) ==> forall p: nat | p < Pow2(24) && a.Hits(p) :: b.Hits(p)
    ensures forall p: nat | p < Pow2(24) && a.Hits(p) && b.Hits(p) :: Overlap(a, b)
  {
    hide And, Low, Align, HighMask, Pow2, Range.Hits, Overlap;
    var x, y := a.base.base, b.base.base;
    OverlapAlign(a, j, b, k);
    AlignAlign(x, j, j);
    AlignAlign(x, j, k);
    HitsAlign(a, j, 0);
    HitsAlign(a, j, Align(x, j));
    HitsAlign(b, k, Align(x, j));
    forall p: nat | p < Pow2(24) && a.Hits(p)
      ensures Overlap(a, b) ==> b.Hits(p)
      ensures b.Hits(p) ==> Overlap(a, b)
    {
      HitsAlign(a, j, p);
      HitsAlign(b, k, p);
      AlignAlign(p, j, k);
    }
  }

  lemma TopByte()
    ensures Shl(0xFF, 24) == Pow2(32) - Pow2(24)
  {
    hide Shl;
    ShlIsMul(0xFF, 24);
    assert Pow2(32) == 0x100 * Pow2(24);
  }

  /** No bit of one mask is outside another iff the one rounds more coarsely. */
  lemma InverseMask(d: nat, k: nat)
    requires d <= 24 && k <= 24
    ensures HighMask(k) < Pow2(32)
    ensures And(HighMask(d), Not32(HighMask(k))) == 0 <==> k <= d
  {
    hide And, Low, HighMask, Pow2, Shl;
    HighMaskDef(d);
    HighMaskDef(k);
    Pow2Monotonic(24, 32);
    Pow2Monotonic(k, 24);
    var x := Not32(HighMask(k));
    assert x == Pow2(k) - 1 + Shl(0xFF, 24) by {
      TopByte();
    }
    Join(Pow2(k) - 1, 0xFF, 24);
    AndTruncate(HighMask(d), x, 24);
    AndLow(HighMask(d), k);
    LowOfOnes(24, d, k);
    Pow2Monotonic(d, k);
  }

  /** The containment test, in terms of rounding. */
  lemma CoversAlign(u: Range, d: nat, r: Range, k: nat)
    requires u.Valid() && r.Valid() && d <= 24 && k <= 24 && u.mask.mask == HighMask(d) && r.mask.mask == HighMask(k)
    requires u.base.base < Pow2(24) && r.base.base < Pow2(24) && r.mask.mask < Pow2(32)
    ensures Covers(u, r) <==> k <= d && Align(r.base.base, d) == Align(u.base.base, d)
  {
    hide And, Low, Align, HighMask, Pow2;
    var x, y := r.base.base, u.base.base;
    HighMaskDef(d);
    HighMaskDef(k);
    HitsAlign(r, k, 0);
    HitsAlign(u, d, 0);
    AndHigh(Align(x, k), d, 24);
    InverseMask(d, k);
    if k <= d {
      AlignAlign(x, k, d);
    }
  }

  lemma RoomAbove(x: nat, d: nat, k: nat)
    requires d < k <= 24 && x < Pow2(24)
    ensures Align(x, k) + Pow2(d) < Pow2(24)
  {
    hide Low, Pow2;
    Pow2Monotonic(d, k);
    var t := Pow2(24);
    AlignBlock(t, x, k);
    Pow2Aligned(k, 24);
  }

  /** Containment is containment of pages. */
  lemma CoversIsContainment(u: Range, d: nat, r: Range, k: nat)
    requires u.Valid() && r.Valid() && d <= 24 && k <= 24 && u.mask.mask == HighMask(d) && r.mask.mask == HighMask(k)
    requires u.base.base < Pow2(24) && r.base.base < Pow2(24) && r.mask.mask < Pow2(32)
    ensures Covers(u, r) <==> forall p: nat | p < Pow2(24) && r.Hits(p) :: u.Hits(p)
  {
    hide And, Low, HighMask, Pow2, Range.Hits, Covers;
    var x, y := r.base.base, u.base.base;
    CoversAlign(u, d, r, k);
    if Covers(u, r) {
      forall p: nat | p < Pow2(24) && r.Hits(p) ensures u.Hits(p) {
        HitsAlign(r, k, p);
        HitsAlign(u, d, p);
        AlignAlign(p, k, d);
        AlignAlign(x, k, d);
      }
    } else {
      var p := Align(x, k);
      HitsAlign(r, k, p);
      HitsAlign(u, d, p);
      AlignAlign(x, k, k);
      if k <= d {
        AlignAlign(x, k, d);
        assert r.Hits(p) && !u.Hits(p);
      } else {
        var q := p + Pow2(d);
        assert q < Pow2(24) by { RoomAbove(x, d, k); }
        HitsAlign(r, k, q);
        HitsAlign(u, d, q);
        Pow2Monotonic(d, k);
        AlignBlock(q, x, k);
        AlignAlign(x, d, k);
        AlignBlock(q, p, d);
        assert r.Hits(p) && r.Hits(q) && !(u.Hits(p) && u.Hits(q));
      }
    }
  }

  // ----- What acceptance means

  /** A page that matches two valid ranges of an accepted state whose types do not go together also
      matches an uncached range. */
  lemma SharedPageExcused(vcnt: nat, def: DefType, rs: seq<Range>, i: nat, j: nat, p: nat)
    requires InRange(rs) && Accepts(vcnt, def, rs) && def.e != 0 && p < Pow2(24)
    requires i < |rs| && j < |rs| && rs[i].Hits(p) && rs[j].Hits(p) && !Compatible(rs[i].base.ty, rs[j].base.ty)
    ensures MTRR_TYPE_UNCACHABLE in HitTypes(rs, p)
  {
    hide And, Pow2, HighMask, Overlap, Covers;
    if j < i {
      SharedPageExcused(vcnt, def, rs, j, i, p);
    } else {
      var k: nat :| k <= 24 && rs[i].mask.mask == HighMask(k);
      var l: nat :| l <= 24 && rs[j].mask.mask == HighMask(l);
      InRange32(rs, i);
      InRange32(rs, j);
      if k <= l {
        OverlapIsSharing(rs[i], k, rs[j], l);
      } else {
        OverlapIsSharing(rs[j], l, rs[i], k);
        OverlapSymmetric(rs[i], rs[j]);
      }
      assert Conflict(rs[i], rs[j]);
      assert Excused(rs, rs[i], rs[j]);
      var u :| 0 <= u < |rs| && Uncached(rs[u]) && (Covers(rs[u], rs[i]) || Covers(rs[u], rs[j]));
      var d: nat :| d <= 24 && rs[u].mask.mask == HighMask(d);
      InRange32(rs, u);
      CoversIsContainment(rs[u], d, rs[i], k);
      CoversIsContainment(rs[u], d, rs[j], l);
      assert rs[u].Hits(p);
    }
  }

  /** Types that pairwise go together resolve. */
  lemma PairwiseCompatible(default: nat, types: set<nat>)
    requires types != {} && forall s, t | s in types && t in types :: Compatible(s, t)
    ensures Resolve(default, types) != Undefined
  {
    var s :| s in types;
    if MTRR_TYPE_UNCACHABLE !in types && types != {s} {
      var t :| t in types && t != s;
      assert Compatible(s, t);
      forall x | x in types ensures x == s || x == t {
        assert Compatible(x, s) && Compatible(x, t);
      }
      assert types == {MTRR_TYPE_WRTHROUGH, MTRR_TYPE_WRBACK};
    }
  }

  /** In an accepted state with MTRRs enabled no page has an undefined memory type. */
  lemma AcceptedIsDefined(vcnt: nat, def: DefType, rs: seq<Range>, p: nat)
    requires InRange(rs) && Accepts(vcnt, def, rs) && p < Pow2(24)
    ensures EffectiveType(def, rs, p) != Undefined
  {
    hide And, Pow2, HighMask, Overlap, Covers, Accepts, Range.Hits;
    var types := HitTypes(rs, p);
    if def.e != 0 && types != {} && MTRR_TYPE_UNCACHABLE !in types {
      forall s, t | s in types && t in types ensures Compatible(s, t) {
        var i :| 0 <= i < |rs| && rs[i].Hits(p) && rs[i].base.ty == s;
        var j :| 0 <= j < |rs| && rs[j].Hits(p) && rs[j].base.ty == t;
        if !Compatible(s, t) {
          SharedPageExcused(vcnt, def, rs, i, j, p);
        }
      }
      PairwiseCompatible(def.ty, types);
    }
  }

  ghost predicate Clash(def: DefType, a: Range, b: Range) {
    Resolve(def.ty, {a.base.ty, b.base.ty}) == Undefined && exists p: nat :: p < Pow2(24) && a.Hits(p) && b.Hits(p)
  }

  ghost predicate SharedUncached(rs: seq<Range>, a: Range, b: Range) {
    exists u | 0 <= u < |rs| ::
      Uncached(rs[u]) && forall p: nat | p < Pow2(24) && a.Hits(p) && b.Hits(p) :: rs[u].Hits(p)
  }

  /** Two types go together exactly when the manual defines the type of a page that has both. */
  lemma CompatibleIsDefined(default: nat, s: nat, t: nat)
    ensures Compatible(s, t) <==> Resolve(default, {s, t}) != Undefined
  {
    var types := {s, t};
    if s == t {
      assert types == {s};
    } else {
      assert forall x :: types != {x} by {
        assert s in types && t in types;
      }
      if types == {MTRR_TYPE_WRTHROUGH, MTRR_TYPE_WRBACK} {
        assert s in {MTRR_TYPE_WRTHROUGH, MTRR_TYPE_WRBACK} && t in {MTRR_TYPE_WRTHROUGH, MTRR_TYPE_WRBACK};
      }
    }
  }

  /** The rule in terms of pages: whenever two valid ranges share pages, and the manual does not define
      the type of a page that has their two types, one uncached range matches every page they share. */
  ghost predicate PageRule(vcnt: nat, def: DefType, rs: seq<Range>) {
    def.e == 0 ||
    (|rs| <= vcnt && AllContiguous(rs) &&
     forall i, j | 0 <= i < j < |rs| && Clash(def, rs[i], rs[j]) :: SharedUncached(rs, rs[i], rs[j]))
  }

  lemma ConflictIsClash(def: DefType, rs: seq<Range>, i: nat, j: nat)
    requires InRange(rs) && AllContiguous(rs) && i < |rs| && j < |rs|
    ensures Conflict(rs[i], rs[j]) <==> Clash(def, rs[i], rs[j])
  {
    hide And, Pow2, HighMask, Overlap, Compatible, Resolve;
    var a, b := rs[i], rs[j];
    CompatibleIsDefined(def.ty, a.base.ty, b.base.ty);
    if a.Valid() && b.Valid() {
      InRange32(rs, i);
      InRange32(rs, j);
      var k: nat :| k <= 24 && a.mask.mask == HighMask(k);
      var l: nat :| l <= 24 && b.mask.mask == HighMask(l);
      HitsAlign(a, k, 0);
      HitsAlign(b, l, 0);
      OverlapSymmetric(a, b);
      if k <= l {
        OverlapIsSharing(a, k, b, l);
      } else {
        OverlapIsSharing(b, l, a, k);
      }
    }
  }

  lemma ExcusedIsShared(def: DefType, rs: seq<Range>, i: nat, j: nat)
    requires InRange(rs) && AllContiguous(rs) && i < |rs| && j < |rs| && Clash(def, rs[i], rs[j])
    ensures rs[i].mask.mask < Pow2(32) && rs[j].mask.mask < Pow2(32)
    ensures Excused(rs, rs[i], rs[j]) <==> SharedUncached(rs, rs[i], rs[j])
  {
    hide And, Pow2, HighMask, Covers, Compatible;
    var a, b := rs[i], rs[j];
    InRange32(rs, i);
    InRange32(rs, j);
    assert a.Valid() && b.Valid();
    var k: nat :| k <= 24 && a.mask.mask == HighMask(k);
    var l: nat :| l <= 24 && b.mask.mask == HighMask(l);
    ConflictIsClash(def, rs, i, j);
    forall u | 0 <= u < |rs| && Uncached(rs[u])
      ensures Covers(rs[u], a) || Covers(rs[u], b) <==>
              forall p: nat | p < Pow2(24) && a.Hits(p) && b.Hits(p) :: rs[u].Hits(p)
    {
      var d: nat :| d <= 24 && rs[u].mask.mask == HighMask(d);
      InRange32(rs, u);
      CoversIsContainment(rs[u], d, a, k);
      CoversIsContainment(rs[u], d, b, l);
      if k <= l {
        OverlapIsSharing(a, k, b, l);
      } else {
        OverlapSymmetric(a, b);
        OverlapIsSharing(b, l, a, k);
      }
    }
  }

  /** The method's tests implement exactly that rule. */
  lemma AcceptsIsPageRule(vcnt: nat, def: DefType, rs: seq<Range>)
    requires InRange(rs)
    ensures Accepts(vcnt, def, rs) <==> PageRule(vcnt, def, rs)
  {
    hide And, Pow2, HighMask, Range.Hits, Conflict, Clash, Excused, SharedUncached;
    if AllContiguous(rs) {
      forall i, j | 0 <= i < j < |rs|
        ensures rs[i].mask.mask < Pow2(32) && rs[j].mask.mask < Pow2(32)
        ensures Conflict(rs[i], rs[j]) <==> Clash(def, rs[i], rs[j])
        ensures Clash(def, rs[i], rs[j]) ==> (Excused(rs, rs[i], rs[j]) <==> SharedUncached(rs, rs[i], rs[j]))
      {
        InRange32(rs, i);
        InRange32(rs, j);
        ConflictIsClash(def, rs, i, j);
        if Clash(def, rs[i], rs[j]) {
          ExcusedIsShared(def, rs, i, j);
        }
      }
    }
  }

  /** Contiguous ranges are accepted when the manual defines the type of a page of each two of them. */
  lemma DefinedPairsAccepted(vcnt: nat, def: DefType, rs: seq<Range>)
    requires InRange(rs) && |rs| <= vcnt && AllContiguous(rs)
    requires forall i, j, p: nat | 0 <= i < j < |rs| && p < Pow2(24) && rs[i].Hits(p) && rs[j].Hits(p) ::
               Resolve(def.ty, {rs[i].base.ty, rs[j].base.ty}) != Undefined
    ensures Accepts(vcnt, def, rs)
  {
    hide And, Pow2, Range.Hits, Resolve, Accepts, Contiguous, SharedUncached, PhysBase.InRange, PhysMask.InRange;
    AcceptsIsPageRule(vcnt, def, rs);
  }

  // ----- Defined everywhere is not enough

  function Example(page: nat, k: nat, ty: nat): Range
    requires k <= 24
  {
    Range(PhysBase(ty, 0, page, 0), PhysMask(0, 1, HighMask(k), 0))
  }

  lemma ExampleHits(page: nat, k: nat, ty: nat, p: nat)
    requires page < 2 && k < 2 && (k == 1 ==> page == 0) && p < Pow2(24)
    ensures Example(page, k, ty).Hits(p) <==> page <= p < page + Pow2(k)
  {
    hide And, HighMask;
    Pow2Values();
    HitsAlign(Example(page, k, ty), k, p);
    AlignBlock(p, page, k);
  }

  /** Write-back and write-protected (type 5) on pages 0 and 1, and uncached on each of them. */
  function HalvesExample(): (rs: seq<Range>)
    ensures |rs| == 4
  {
    [Example(0, 1, MTRR_TYPE_WRBACK), Example(0, 1, 5),
     Example(0, 0, MTRR_TYPE_UNCACHABLE), Example(1, 0, MTRR_TYPE_UNCACHABLE)]
  }

  lemma HalvesHits(i: nat, p: nat)
    requires i < 4 && p < Pow2(24)
    ensures HalvesExample()[i].Hits(p) <==> p < 2 && (i < 2 || i == p + 2)
  {
    hide And, HighMask, Range.Hits;
    var r := HalvesExample()[i];
    ExampleHits(r.base.base, if i < 2 then 1 else 0, r.base.ty, p);
  }

  lemma HalvesInRange()
    ensures var rs := HalvesExample();
            InRange(rs) && !Compatible(rs[0].base.ty, rs[1].base.ty) && !Uncached(rs[0]) && !Uncached(rs[1])
  {
    hide HighMask;
    HighMaskDef(0);
    HighMaskDef(1);
    Pow2Values();
  }

  lemma HalvesDefined(def: DefType, p: nat)
    requires p < Pow2(24)
    ensures EffectiveType(def, HalvesExample(), p) != Undefined
  {
    hide And, HighMask, Range.Hits, Pow2;
    var rs := HalvesExample();
    forall i | 0 <= i < 4 ensures rs[i].Hits(p) <==> p < 2 && (i < 2 || i == p + 2) {
      HalvesHits(i, p);
    }
    if p < 2 {
      assert rs[p + 2].Hits(p);
      assert MTRR_TYPE_UNCACHABLE in HitTypes(rs, p);
    } else {
      assert HitTypes(rs, p) == {};
    }
  }

  /** Every page of the example has a defined type, but no single uncached range contains the
      overlap, so the state is rejected. */
  lemma DefinedButRejected(vcnt: nat, def: DefType)
    requires def.e != 0
    ensures InRange(HalvesExample())
    ensures forall p: nat | p < Pow2(24) :: EffectiveType(def, HalvesExample(), p) != Undefined
    ensures !Accepts(vcnt, def, HalvesExample())
  {
    hide Resolve, And, HighMask, Range.Hits, Accepts, HalvesExample, EffectiveType, Compatible;
    var rs := HalvesExample();
    HalvesInRange();
    forall p: nat | p < Pow2(24) ensures EffectiveType(def, rs, p) != Undefined {
      HalvesDefined(def, p);
    }
    Pow2Values();
    HalvesHits(0, 0);
    HalvesHits(1, 0);
    HalvesHits(0, 1);
    HalvesHits(1, 1);
    HalvesHits(2, 1);
    HalvesHits(3, 0);
    CompatibleIsDefined(def.ty, rs[0].base.ty, rs[1].base.ty);
    assert Clash(def, rs[0], rs[1]);
    assert forall u | 0 <= u < 4 && Uncached(rs[u]) :: !(rs[u].Hits(0) && rs[u].Hits(1));
    AcceptsIsPageRule(vcnt, def, rs);
  }

  // ----- A state whose valid ranges all have one type

  lemma OneTypeAccepted(vcnt: nat, def: DefType, rs: seq<Range>, ty: nat)
    requires InRange(rs) && |rs| <= vcnt && AllContiguous(rs)
    requires forall i | 0 <= i < |rs| && rs[i].Valid() :: rs[i].base.ty == ty
    ensures Accepts(vcnt, def, rs)
  {
    hide And, Pow2, HighMask, Overlap, Excused;
  }
}
