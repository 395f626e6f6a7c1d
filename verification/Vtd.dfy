/**
 The VT-d register model: an address-decoded register file for several DMA remapping units,
 with the side effects of command registers.
 */
module Vtd {
  import opened MachineTypes

  /** The contents of a register. */
  datatype Word = Word(bits: bv32)

  const REGISTERS: nat := 24

  /** The 32-bit registers of one unit, in the order in which their addresses are compared;
      64-bit registers have a low and a high half. */
  type Reg = r: nat | r < REGISTERS

  const VER: Reg := 0
  const GCMD: Reg := 1
  const GSTS: Reg := 2
  const FSTS: Reg := 3
  const FECTL: Reg := 4
  const PMEN: Reg := 5
  const PLMBASE: Reg := 6
  const PLMLIMIT: Reg := 7
  const CAP_LO: Reg := 8
  const CAP_HI: Reg := 9
  const ECAP_LO: Reg := 10
  const ECAP_HI: Reg := 11
  const RTADDR_LO: Reg := 12
  const RTADDR_HI: Reg := 13
  const CCMD_LO: Reg := 14
  const CCMD_HI: Reg := 15
  const PHMBASE_LO: Reg := 16
  const PHMBASE_HI: Reg := 17
  const PHMLIMIT_LO: Reg := 18
  const PHMLIMIT_HI: Reg := 19
  const IOTLB_LO: Reg := 20
  const IOTLB_HI: Reg := 21
  const IVA_LO: Reg := 22
  const IVA_HI: Reg := 23

  /** The offsets of all but the last four registers, which have addresses of their own. */
  const OFFSETS: seq<nat> := [
    0x000, 0x018, 0x01C, 0x034, 0x038, 0x064, 0x068, 0x06C, 0x008, 0x00C, 0x010, 0x014,
    0x020, 0x024, 0x028, 0x02C, 0x070, 0x074, 0x078, 0x07C
  ]

  type RegFile = m: seq<Word> | |m| == REGISTERS ghost witness seq(REGISTERS, _ => Word(0))

  datatype Drhd = Drhd(regs: RegFile, regBase: nat, iotlb: nat, iva: nat)

  /** Addresses are compared as 32-bit values; the unit's base addresses are truncated. */
  function At(base: nat, offset: nat): nat {
    (base % TWO32 + offset) % TWO32
  }

  function AddressOf(u: Drhd, r: Reg): nat {
    if r < IOTLB_LO then At(u.regBase, OFFSETS[r])
    else if r < IVA_LO then At(u.iotlb, (r - IOTLB_LO) * 4)
    else At(u.iva, (r - IVA_LO) * 4)
  }

  /** The first register, from k on, that an address selects. */
  function DecodeFrom(u: Drhd, address: nat, k: nat): (r: Option<Reg>)
    ensures r.Some? ==> k <= r.value && AddressOf(u, r.value) == address
    decreases REGISTERS - k
  {
    if k >= REGISTERS then None
    else if address == AddressOf(u, k) then Some(k)
    else DecodeFrom(u, address, k + 1)
  }

  function Decode(u: Drhd, address: nat): (r: Option<Reg>)
    ensures r.Some? ==> AddressOf(u, r.value) == address
  {
    DecodeFrom(u, address, 0)
  }

  // ----- What a register holds after a write

  /** Copies one bit of w to another place. */
  function CopyBit(w: bv32, from: bv32, to: bv32): bv32 {
    if w & from != 0 then w | to else w & !to
  }

  /** Protected memory is enabled, and reported so, iff bit 31 is written as one. */
  function PmenWritten(v: bv32): bv32 {
    var w := if v & 0x8000_0000 == 0 then v & 0xFFFF_FFFE else v;
    if w & 0x8000_0000 != 0 then w | 1 else w
  }

  /** An invalidation completes at once: the actual granularity becomes the requested one. */
  function CcmdWritten(v: bv32): bv32 {
    if v & 0x8000_0000 != 0 then
      CopyBit(CopyBit(v, 0x4000_0000, 0x1000_0000), 0x2000_0000, 0x0800_0000) & 0x7FFF_FFFF
    else v
  }

  function IotlbWritten(v: bv32): bv32 {
    if v & 0x8000_0000 != 0 then
      CopyBit(CopyBit(v, 0x2000_0000, 0x0400_0000), 0x1000_0000, 0x0200_0000) & 0x7FFF_FFFF
    else v
  }

  function Written(r: Reg, v: Word): Word {
    if r == PMEN then Word(PmenWritten(v.bits))
    else if r == CCMD_HI then Word(CcmdWritten(v.bits))
    else if r == IOTLB_HI then Word(IotlbWritten(v.bits))
    else v
  }

  predicate EnablesTranslation(r: Reg, v: Word) {
    r == GCMD && v.bits & 0x8000_0000 != 0
  }

  function SetTop(v: bv32): bv32 {
    v | 0x8000_0000
  }

  function WithTop(v: Word): Word {
    Word(SetTop(v.bits))
  }

  function WriteUnit(u: Drhd, r: Reg, v: Word): Drhd {
    var w := u.(regs := u.regs[r := Written(r, v)]);
    if EnablesTranslation(r, v) then w.(regs := w.regs[GSTS := WithTop(w.regs[GSTS])]) else w
  }

  // ----- All units: the first one that has the address answers

  datatype Place = Place(unit: nat, reg: Reg)

  function LookupFrom(units: seq<Drhd>, address: nat, i: nat): (p: Option<Place>)
    ensures p.Some? ==> i <= p.value.unit < |units| && Decode(units[p.value.unit], address) == Some(p.value.reg)
    ensures forall j: nat | i <= j < |units| && (p.Some? ==> j < p.value.unit) :: Decode(units[j], address) == None
    decreases |units| - i
  {
    if i >= |units| then None
    else match Decode(units[i], address)
      case Some(r) => Some(Place(i, r))
      case None => LookupFrom(units, address, i + 1)
  }

  function Lookup(units: seq<Drhd>, address: nat): (p: Option<Place>)
    ensures p.Some? ==> p.value.unit < |units| && Decode(units[p.value.unit], address) == Some(p.value.reg)
    ensures forall j: nat | j < |units| && (p.Some? ==> j < p.value.unit) :: Decode(units[j], address) == None
  {
    LookupFrom(units, address, 0)
  }

  function Truncated(value: bv64): Word {
    Word((value & 0xFFFF_FFFF) as bv32)
  }

  function WriteTo(units: seq<Drhd>, address: nat, value: bv64): (r: seq<Drhd>)
    ensures |r| == |units|
  {
    match Lookup(units, address)
    case None => units
    case Some(p) => units[p.unit := WriteUnit(units[p.unit], p.reg, Truncated(value))]
  }

  function ReadFrom(units: seq<Drhd>, address: nat): Option<Word> {
    match Lookup(units, address)
    case None => None
    case Some(p) => Some(units[p.unit].regs[p.reg])
  }

  datatype Access = Access(address: nat, value: bv64)

  /** The units after a sequence of writes. */
  function After(units: seq<Drhd>, ws: seq<Access>): (r: seq<Drhd>)
    ensures |r| == |units|
    decreases |ws|
  {
    if ws == [] then units
    else
      var last := |ws| - 1;
      WriteTo(After(units, ws[..last]), ws[last].address, ws[last].value)
  }

  // ----- Writes never move a register

  lemma AddressSame(u: Drhd, u': Drhd, r: Reg)
    requires u.(regs := u'.regs) == u'
    ensures AddressOf(u, r) == AddressOf(u', r)
  {
    hide At;
  }

  lemma {:induction false} DecodeFromSame(u: Drhd, u': Drhd, address: nat, k: nat)
    requires u.(regs := u'.regs) == u'
    ensures DecodeFrom(u, address, k) == DecodeFrom(u', address, k)
    decreases REGISTERS - k
  {
    hide At, AddressOf;
    if k < REGISTERS {
      AddressSame(u, u', k);
      DecodeFromSame(u, u', address, k + 1);
    }
  }

  ghost predicate SameAddresses(units: seq<Drhd>, units': seq<Drhd>) {
    |units| == |units'| && forall i | 0 <= i < |units| :: units[i].(regs := units'[i].regs) == units'[i]
  }

  lemma {:induction false} LookupSame(units: seq<Drhd>, units': seq<Drhd>, address: nat, i: nat)
    requires SameAddresses(units, units')
    ensures LookupFrom(units, address, i) == LookupFrom(units', address, i)
    decreases |units| - i
  {
    hide DecodeFrom;
    if i < |units| {
      DecodeFromSame(units[i], units'[i], address, 0);
      LookupSame(units, units', address, i + 1);
    }
  }

  lemma {:induction false} AfterSame(units: seq<Drhd>, ws: seq<Access>)
    ensures SameAddresses(units, After(units, ws))
    decreases |ws|
  {
    hide DecodeFrom, LookupFrom, Written, EnablesTranslation, Truncated;
    if ws != [] {
      AfterSame(units, ws[..|ws| - 1]);
    }
  }

  // ----- One write

  /** The value of register r of a unit after register w was written. */
  function AfterWrite(here: Word, w: Reg, v: Word, r: Reg): Word {
    if r == w then Written(r, v)
    else if r == GSTS && EnablesTranslation(w, v) then WithTop(here)
    else here
  }

  /** What one write does to each register of its unit, and that it moves no address. */
  lemma WriteUnitFrame(u: Drhd, w: Reg, v: Word, r: Reg)
    ensures WriteUnit(u, w, v).regs[r] == AfterWrite(u.regs[r], w, v, r)
    ensures u.(regs := WriteUnit(u, w, v).regs) == WriteUnit(u, w, v)
  {
    hide Written, WithTop;
  }

  /** A write changes the addressed register of one unit, and for a command that enables translation
      the status bit of that unit; nothing else. */
  lemma WriteFrame(units: seq<Drhd>, address: nat, value: bv64, i: nat, r: Reg)
    requires i < |units|
    ensures WriteTo(units, address, value)[i].regs[r] ==
              match Lookup(units, address)
              case None => units[i].regs[r]
              case Some(p) =>
                if p.unit == i then AfterWrite(units[i].regs[r], p.reg, Truncated(value), r) else units[i].regs[r]
  {
    hide Lookup, WriteUnit, Truncated, AfterWrite;
    var p := Lookup(units, address);
    if p.Some? && p.value.unit == i {
      WriteUnitFrame(units[i], p.value.reg, Truncated(value), r);
    }
  }

  // ----- Reading back

  /** What a register holds after a sequence of writes, from those to its own unit alone: the effect
      of the last write to it, and for the global status the bit set by later enabling commands. */
  function Expected(units: seq<Drhd>, ws: seq<Access>, p: Place): Word
    requires p.unit < |units|
    decreases |ws|
  {
    if ws == [] then units[p.unit].regs[p.reg]
    else
      var last := |ws| - 1;
      var before := Expected(units, ws[..last], p);
      match Lookup(units, ws[last].address)
      case None => before
      case Some(q) =>
        if q.unit == p.unit then AfterWrite(before, q.reg, Truncated(ws[last].value), p.reg) else before
  }

  lemma {:induction false} ExpectedIsHeld(units: seq<Drhd>, ws: seq<Access>, p: Place)
    requires p.unit < |units|
    ensures After(units, ws)[p.unit].regs[p.reg] == Expected(units, ws, p)
    decreases |ws|
  {
    hide LookupFrom, WriteTo, Truncated, AfterWrite;
    if ws != [] {
      var last := |ws| - 1;
      ExpectedIsHeld(units, ws[..last], p);
      AfterSame(units, ws[..last]);
      LookupSame(units, After(units, ws[..last]), ws[last].address, 0);
      WriteFrame(After(units, ws[..last]), ws[last].address, ws[last].value, p.unit, p.reg);
    }
  }

  /** A read after any sequence of writes finds that value; an address no unit has is not read. */
  lemma ReadBack(units: seq<Drhd>, ws: seq<Access>, address: nat)
    ensures ReadFrom(After(units, ws), address) ==
            match Lookup(units, address) case None => None case Some(p) => Some(Expected(units, ws, p))
  {
    hide LookupFrom, After, Expected, AfterWrite, Truncated;
    AfterSame(units, ws);
    LookupSame(units, After(units, ws), address, 0);
    if Lookup(units, address).Some? {
      ExpectedIsHeld(units, ws, Lookup(units, address).value);
    }
  }

  lemma {:induction false} ExpectedLastWrite(units: seq<Drhd>, ws: seq<Access>, k: nat, p: Place)
    requires k < |ws| && p.unit < |units| && p.reg != GSTS && Lookup(units, ws[k].address) == Some(p)
    requires forall j | k < j < |ws| :: Lookup(units, ws[j].address) != Some(p)
    ensures Expected(units, ws, p) == Written(p.reg, Truncated(ws[k].value))
    decreases |ws|
  {
    hide Lookup, Truncated, Written, WithTop, EnablesTranslation;
    var last := |ws| - 1;
    if k < last {
      ExpectedLastWrite(units, ws[..last], k, p);
    }
  }

  /** A register other than the global status reads back the effect of the last value written to it,
      whatever was written elsewhere afterwards. */
  lemma LastWriteReadsBack(units: seq<Drhd>, ws: seq<Access>, k: nat)
    requires k < |ws| && Lookup(units, ws[k].address).Some? && Lookup(units, ws[k].address).value.reg != GSTS
    requires forall j | k < j < |ws| :: Lookup(units, ws[j].address) != Lookup(units, ws[k].address)
    ensures ReadFrom(After(units, ws), ws[k].address) ==
            Some(Written(Lookup(units, ws[k].address).value.reg, Truncated(ws[k].value)))
  {
    hide LookupFrom, After, Truncated, Written, Expected, ReadFrom;
    ReadBack(units, ws, ws[k].address);
    ExpectedLastWrite(units, ws, k, Lookup(units, ws[k].address).value);
  }

  // ----- Values read back, bit by bit

  /** Only the low 32 bits of a value count. */
  lemma TruncatedBits(value: bv64)
    ensures Truncated(value).bits as bv64 == value & 0xFFFF_FFFF
    ensures Truncated(value).bits & 0x8000_0000 != 0 <==> value & 0x8000_0000 != 0
  {}

  lemma PlainValue(r: Reg, v: Word)
    requires r != PMEN && ((r == CCMD_HI || r == IOTLB_HI) ==> v.bits & 0x8000_0000 == 0)
    ensures Written(r, v) == v
  {
    hide PmenWritten, CopyBit;
  }

  /** The protected-memory register keeps its value but for bit 0, which becomes bit 31. */
  lemma PmenValue(v: bv32)
    ensures PmenWritten(v) == (v & 0xFFFF_FFFE) | (v >> 31)
  {
    assert v & 0x8000_0000 == 0 ==> v >> 31 == 0;
    assert v & 0x8000_0000 != 0 ==> v >> 31 == 1;
  }

  /** A plain register reads back the last value written to it; so do command registers when no command
      is given, and the protected-memory register but for its status bit. */
  lemma ValuesReadBack(units: seq<Drhd>, ws: seq<Access>, k: nat, p: Place)
    requires k < |ws| && Lookup(units, ws[k].address) == Some(p) && p.reg != GSTS
    requires forall j | k < j < |ws| :: Lookup(units, ws[j].address) != Some(p)
    ensures var v, read := Truncated(ws[k].value).bits, ReadFrom(After(units, ws), ws[k].address);
            (p.reg == PMEN ==> read == Some(Word((v & 0xFFFF_FFFE) | (v >> 31)))) &&
            (p.reg != PMEN && ((p.reg == CCMD_HI || p.reg == IOTLB_HI) ==> v & 0x8000_0000 == 0) ==>
               read == Some(Word(v)))
  {
    hide Lookup, After, Truncated, ReadFrom, PmenWritten, CcmdWritten, IotlbWritten;
    LastWriteReadsBack(units, ws, k);
    var v := Truncated(ws[k].value);
    PmenValue(v.bits);
    if p.reg != PMEN && ((p.reg == CCMD_HI || p.reg == IOTLB_HI) ==> v.bits & 0x8000_0000 == 0) {
      PlainValue(p.reg, v);
    }
  }

  /** A write to unit i's global command with bit 31 set. */
  ghost predicate Enabling(units: seq<Drhd>, w: Access, i: nat) {
    Lookup(units, w.address) == Some(Place(i, GCMD)) && w.value & 0x8000_0000 != 0
  }

  /** Translation was enabled by some write after the first k. */
  ghost predicate Enabled(units: seq<Drhd>, ws: seq<Access>, k: nat, i: nat) {
    exists j :: k <= j < |ws| && Enabling(units, ws[j], i)
  }

  /** The word a unit's global status starts from: what the write before the first k left, or the
      initial contents. */
  function StatusBase(units: seq<Drhd>, ws: seq<Access>, k: nat, i: nat): Word
    requires i < |units| && k <= |ws|
  {
    if k == 0 then units[i].regs[GSTS] else Truncated(ws[k - 1].value)
  }

  lemma EnabledNext(units: seq<Drhd>, ws: seq<Access>, k: nat, i: nat)
    requires k < |ws|
    ensures var last := |ws| - 1;
            Enabled(units, ws, k, i) <==> Enabled(units, ws[..last], k, i) || Enabling(units, ws[last], i)
  {
    hide Enabling;
    var last := |ws| - 1;
    if Enabled(units, ws[..last], k, i) {
      var j :| k <= j < |ws[..last]| && Enabling(units, ws[..last][j], i);
      assert ws[j] == ws[..last][j];
    }
    if Enabled(units, ws, k, i) {
      var j :| k <= j < |ws| && Enabling(units, ws[j], i);
      assert j < last ==> ws[j] == ws[..last][j];
    }
  }

  /** What one write to any register does to a unit's global status. */
  lemma StatusStep(units: seq<Drhd>, units': seq<Drhd>, w: Access, i: nat)
    requires i < |units| && SameAddresses(units, units')
    ensures WriteTo(units', w.address, w.value)[i].regs[GSTS] ==
              if Lookup(units, w.address) == Some(Place(i, GSTS)) then Truncated(w.value)
              else if Enabling(units, w, i) then WithTop(units'[i].regs[GSTS])
              else units'[i].regs[GSTS]
  {
    hide LookupFrom, WriteTo, Truncated, WithTop, PmenWritten, CcmdWritten, IotlbWritten;
    LookupSame(units, units', w.address, 0);
    WriteFrame(units', w.address, w.value, i, GSTS);
    TruncatedBits(w.value);
  }

  lemma SetTopTwice(v: bv32)
    ensures SetTop(SetTop(v)) == SetTop(v)
  {}

  lemma TopTwice(v: Word)
    ensures WithTop(WithTop(v)) == WithTop(v)
  {
    hide SetTop;
    SetTopTwice(v.bits);
  }

  lemma {:induction false} StatusWithTop(units: seq<Drhd>, ws: seq<Access>, k: nat, i: nat)
    requires i < |units| && k <= |ws|
    requires k > 0 ==> Lookup(units, ws[k - 1].address) == Some(Place(i, GSTS))
    requires forall j | k <= j < |ws| :: Lookup(units, ws[j].address) != Some(Place(i, GSTS))
    ensures var base := StatusBase(units, ws, k, i);
            After(units, ws)[i].regs[GSTS] == if Enabled(units, ws, k, i) then WithTop(base) else base
    decreases |ws|
  {
    hide Lookup, WriteTo, Truncated, WithTop, Enabling;
    if ws != [] {
      var last := |ws| - 1;
      AfterSame(units, ws[..last]);
      StatusStep(units, After(units, ws[..last]), ws[last], i);
      if k < |ws| {
        StatusWithTop(units, ws[..last], k, i);
        EnabledNext(units, ws, k, i);
        TopTwice(StatusBase(units, ws, k, i));
      }
    }
  }

  predicate Top(v: bv32) {
    v & 0x8000_0000 != 0
  }

  function BelowTop(v: bv32): bv32 {
    v & 0x7FFF_FFFF
  }

  lemma SetTopSets(v: bv32)
    ensures Top(SetTop(v))
  {}

  lemma SetTopKeeps(v: bv32)
    ensures BelowTop(SetTop(v)) == BelowTop(v)
  {}

  /** A status word: its bit 31, and that the rest of it is that of another word. */
  predicate Reads(read: Word, base: Word, top: bool) {
    (Top(read.bits) <==> top || Top(base.bits)) && BelowTop(read.bits) == BelowTop(base.bits)
  }

  lemma TopReads(v: Word, top: bool)
    ensures Reads(if top then WithTop(v) else v, v, top)
  {
    hide SetTop, Top, BelowTop;
    SetTopSets(v.bits);
    SetTopKeeps(v.bits);
  }

  lemma WriteToSame(units: seq<Drhd>, address: nat, value: bv64)
    ensures SameAddresses(units, WriteTo(units, address, value))
  {
    hide LookupFrom, Written, EnablesTranslation, Truncated;
  }

  /** Writing the global command makes the unit's global status read as before, but for bit 31, which is
      set when bit 31 of the command is. */
  lemma CommandShowsInStatus(units: seq<Drhd>, command: nat, status: nat, value: bv64, i: nat)
    requires i < |units|
    requires Lookup(units, command) == Some(Place(i, GCMD)) && Lookup(units, status) == Some(Place(i, GSTS))
    ensures ReadFrom(units, status).Some? &&
            var after := ReadFrom(WriteTo(units, command, value), status);
            after.Some? && Reads(after.value, ReadFrom(units, status).value, value & 0x8000_0000 != 0)
  {
    hide LookupFrom, WriteTo, WithTop, Reads;
    AfterSame(units, []);
    StatusStep(units, units, Access(command, value), i);
    TopReads(units[i].regs[GSTS], value & 0x8000_0000 != 0);
    WriteToSame(units, command, value);
    LookupSame(units, WriteTo(units, command, value), status, 0);
  }

  /** After any writes, the global status is what the last write to it left, or its initial contents, but
      for bit 31, which is also set when translation was enabled since. */
  lemma StatusAfter(units: seq<Drhd>, ws: seq<Access>, status: nat, k: nat, i: nat)
    requires i < |units| && k <= |ws| && Lookup(units, status) == Some(Place(i, GSTS))
    requires k > 0 ==> Lookup(units, ws[k - 1].address) == Some(Place(i, GSTS))
    requires forall j | k <= j < |ws| :: Lookup(units, ws[j].address) != Some(Place(i, GSTS))
    ensures var read := ReadFrom(After(units, ws), status);
            read.Some? && Reads(read.value, StatusBase(units, ws, k, i), Enabled(units, ws, k, i))
  {
    hide LookupFrom, After, WithTop, Enabled, StatusBase, Reads;
    AfterSame(units, ws);
    LookupSame(units, After(units, ws), status, 0);
    StatusWithTop(units, ws, k, i);
    TopReads(StatusBase(units, ws, k, i), Enabled(units, ws, k, i));
  }

  // ----- What holds in every reachable state

  predicate TopClear(v: bv32) {
    v & 0x8000_0000 == 0
  }

  predicate PmenConsistent(v: bv32) {
    (v & 1 != 0) == (v & 0x8000_0000 != 0)
  }

  predicate Consistent(u: Drhd) {
    PmenConsistent(u.regs[PMEN].bits) && TopClear(u.regs[CCMD_HI].bits) && TopClear(u.regs[IOTLB_HI].bits)
  }

  lemma PmenWrittenConsistent(v: bv32)
    ensures PmenConsistent(PmenWritten(v))
  {}

  lemma CommandsWrittenClear(v: bv32)
    ensures TopClear(CcmdWritten(v)) && TopClear(IotlbWritten(v))
  {}

  lemma WriteUnitConsistent(u: Drhd, w: Reg, v: Word)
    requires Consistent(u)
    ensures Consistent(WriteUnit(u, w, v))
  {
    hide PmenWritten, CcmdWritten, IotlbWritten, PmenConsistent, TopClear, WriteUnit, EnablesTranslation, WithTop;
    PmenWrittenConsistent(v.bits);
    CommandsWrittenClear(v.bits);
    WriteUnitFrame(u, w, v, PMEN);
    WriteUnitFrame(u, w, v, CCMD_HI);
    WriteUnitFrame(u, w, v, IOTLB_HI);
  }

  /** In every state reached by any writes, the protected-memory status agrees with its enable bit and
      no invalidation is pending, in every unit. */
  lemma {:induction false} ReachableConsistent(units: seq<Drhd>, ws: seq<Access>)
    requires forall i | 0 <= i < |units| :: Consistent(units[i])
    ensures forall i | 0 <= i < |units| :: Consistent(After(units, ws)[i])
    decreases |ws|
  {
    hide LookupFrom, WriteUnit, Truncated, Consistent;
    if ws != [] {
      var last := |ws| - 1;
      var units' := After(units, ws[..last]);
      ReachableConsistent(units, ws[..last]);
      var p := Lookup(units', ws[last].address);
      if p.Some? {
        WriteUnitConsistent(units'[p.value.unit], p.value.reg, Truncated(ws[last].value));
      }
    }
  }

  // ----- The two units the model starts with

  function InitialUnit(capHi: bv32, ecapLo: bv32, regBase: nat, iotlb: nat, iva: nat): Drhd {
    var zero: RegFile := seq(REGISTERS, _ => Word(0));
    Drhd(zero[CAP_LO := Word(0x2066_0462)][CAP_HI := Word(capHi)][ECAP_LO := Word(ecapLo)], regBase, iotlb, iva)
  }

  function InitialUnits(): seq<Drhd> {
    [InitialUnit(0x00C0_0000, 0x00F0_101A, 0xFED9_0000, 0xFED9_0108, 0xFED9_0100),
     InitialUnit(0x00D2_0080, 0x00F0_10DA, 0xFED9_1000, 0xFED9_1108, 0xFED9_1100)]
  }

  lemma InitialConsistent()
    ensures |InitialUnits()| == 2 && Consistent(InitialUnits()[0]) && Consistent(InitialUnits()[1])
  {
    var u, v := InitialUnits()[0], InitialUnits()[1];
    assert u.regs[PMEN] == Word(0) && u.regs[CCMD_HI] == Word(0) && u.regs[IOTLB_HI] == Word(0);
    assert v.regs[PMEN] == Word(0) && v.regs[CCMD_HI] == Word(0) && v.regs[IOTLB_HI] == Word(0);
  }

  /** From the initial units every sequence of writes leads to consistent units. */
  lemma {:induction false} AlwaysConsistent(ws: seq<Access>)
    ensures |After(InitialUnits(), ws)| == 2 && forall i | 0 <= i < 2 :: Consistent(After(InitialUnits(), ws)[i])
  {
    hide After;
    InitialConsistent();
    ReachableConsistent(InitialUnits(), ws);
  }

  /** Distance of a register from the base of an initial unit. */
  function Offset(r: Reg): nat {
    if r < IOTLB_LO then OFFSETS[r] else if r < IVA_LO then 0x108 + (r - IOTLB_LO) * 4 else 0x100 + (r - IVA_LO) * 4
  }

  lemma OffsetsDiffer(q: Reg, r: Reg)
    ensures Offset(q) == Offset(r) <==> q == r
    ensures Offset(q) < 0x110
  {}

  lemma InitialAddress(u: Drhd, base: nat, r: Reg)
    requires base < 0xFEDA_0000 && u.regBase == base && u.iotlb == base + 0x108 && u.iva == base + 0x100
    ensures AddressOf(u, r) == base + Offset(r)
  {}

  lemma {:induction false} OwnRegisterFirst(u: Drhd, base: nat, r: Reg, k: nat)
    requires base < 0xFEDA_0000 && u.regBase == base && u.iotlb == base + 0x108 && u.iva == base + 0x100
    requires k <= r
    ensures AddressOf(u, r) == base + Offset(r)
    ensures DecodeFrom(u, base + Offset(r), k) == Some(r)
    decreases REGISTERS - k
  {
    hide Offset, AddressOf;
    InitialAddress(u, base, k);
    InitialAddress(u, base, r);
    OffsetsDiffer(k, r);
    if k < r {
      OwnRegisterFirst(u, base, r, k + 1);
    }
  }

  lemma {:induction false} FarAddressMisses(u: Drhd, base: nat, address: nat, k: nat)
    requires base < 0xFEDA_0000 && u.regBase == base && u.iotlb == base + 0x108 && u.iva == base + 0x100
    requires address >= base + 0x110
    ensures DecodeFrom(u, address, k) == None
    decreases REGISTERS - k
  {
    hide Offset, AddressOf;
    if k < REGISTERS {
      InitialAddress(u, base, k);
      OffsetsDiffer(k, k);
      FarAddressMisses(u, base, address, k + 1);
    }
  }

  /** No register of the initial units hides another: each answers at its own address. */
  lemma EveryRegisterAnswers(i: nat, r: Reg)
    requires i < 2
    ensures Lookup(InitialUnits(), AddressOf(InitialUnits()[i], r)) == Some(Place(i, r))
  {
    hide DecodeFrom, Offset, AddressOf;
    var us := InitialUnits();
    OwnRegisterFirst(us[i], us[i].regBase, r, 0);
    if i == 1 {
      FarAddressMisses(us[0], us[0].regBase, AddressOf(us[1], r), 0);
    }
  }

  // The offsets by name.

  const VTD_VER_REG_OFF: nat := 0x000
  const VTD_CAP_REG_OFF: nat := 0x008
  const VTD_ECAP_REG_OFF: nat := 0x010
  const VTD_GCMD_REG_OFF: nat := 0x018
  const VTD_GSTS_REG_OFF: nat := 0x01C
  const VTD_RTADDR_REG_OFF: nat := 0x020
  const VTD_CCMD_REG_OFF: nat := 0x028
  const VTD_FSTS_REG_OFF: nat := 0x034
  const VTD_FECTL_REG_OFF: nat := 0x038
  const VTD_PMEN_REG_OFF: nat := 0x064
  const VTD_PLMBASE_REG_OFF: nat := 0x068
  const VTD_PLMLIMIT_REG_OFF: nat := 0x6C
  const VTD_PHMBASE_REG_OFF: nat := 0x070
  const VTD_PHMLIMIT_REG_OFF: nat := 0x78

  /** The address of the first register of an initial unit. */
  function UnitAddress(i: nat): nat {
    if i == 0 then 0xFED9_0000 else 0xFED9_1000
  }

  predicate Answers(i: nat, offset: nat, r: Reg) {
    Lookup(InitialUnits(), UnitAddress(i) + offset) == Some(Place(i, r))
  }

  lemma AnswersAt(i: nat, offset: nat, r: Reg)
    requires i < 2 && Offset(r) == offset
    ensures Answers(i, offset, r)
  {
    hide Lookup, Offset, AddressOf;
    EveryRegisterAnswers(i, r);
    InitialAddress(InitialUnits()[i], UnitAddress(i), r);
  }

  /** Each named 32-bit register of both initial units answers at its offset. */
  lemma NamedRegisters(i: nat)
    requires i < 2
    ensures Answers(i, VTD_VER_REG_OFF, VER)
    ensures Answers(i, VTD_GCMD_REG_OFF, GCMD)
    ensures Answers(i, VTD_GSTS_REG_OFF, GSTS)
    ensures Answers(i, VTD_FSTS_REG_OFF, FSTS)
    ensures Answers(i, VTD_FECTL_REG_OFF, FECTL)
    ensures Answers(i, VTD_PMEN_REG_OFF, PMEN)
    ensures Answers(i, VTD_PLMBASE_REG_OFF, PLMBASE)
    ensures Answers(i, VTD_PLMLIMIT_REG_OFF, PLMLIMIT)
  {
    hide Answers;
    AnswersAt(i, VTD_VER_REG_OFF, VER);
    AnswersAt(i, VTD_GCMD_REG_OFF, GCMD);
    AnswersAt(i, VTD_GSTS_REG_OFF, GSTS);
    AnswersAt(i, VTD_FSTS_REG_OFF, FSTS);
    AnswersAt(i, VTD_FECTL_REG_OFF, FECTL);
    AnswersAt(i, VTD_PMEN_REG_OFF, PMEN);
    AnswersAt(i, VTD_PLMBASE_REG_OFF, PLMBASE);
    AnswersAt(i, VTD_PLMLIMIT_REG_OFF, PLMLIMIT);
  }

  predicate AnswersBoth(i: nat, offset: nat, lo: Reg, hi: Reg) {
    Answers(i, offset, lo) && Answers(i, offset + 4, hi)
  }

  lemma PairAt(i: nat, offset: nat, lo: Reg, hi: Reg)
    requires i < 2 && Offset(lo) == offset && Offset(hi) == offset + 4
    ensures AnswersBoth(i, offset, lo, hi)
  {
    hide Answers, Offset;
    AnswersAt(i, offset, lo);
    AnswersAt(i, offset + 4, hi);
  }

  /** Each 64-bit register answers with its low half, and four bytes further with its high half. */
  lemma NamedPairs(i: nat)
    requires i < 2
    ensures AnswersBoth(i, VTD_CAP_REG_OFF, CAP_LO, CAP_HI)
    ensures AnswersBoth(i, VTD_ECAP_REG_OFF, ECAP_LO, ECAP_HI)
    ensures AnswersBoth(i, VTD_RTADDR_REG_OFF, RTADDR_LO, RTADDR_HI)
    ensures AnswersBoth(i, VTD_CCMD_REG_OFF, CCMD_LO, CCMD_HI)
    ensures AnswersBoth(i, VTD_PHMBASE_REG_OFF, PHMBASE_LO, PHMBASE_HI)
    ensures AnswersBoth(i, VTD_PHMLIMIT_REG_OFF, PHMLIMIT_LO, PHMLIMIT_HI)
    ensures AnswersBoth(i, 0x108, IOTLB_LO, IOTLB_HI)
    ensures AnswersBoth(i, 0x100, IVA_LO, IVA_HI)
  {
    hide AnswersBoth;
    PairAt(i, VTD_CAP_REG_OFF, CAP_LO, CAP_HI);
    PairAt(i, VTD_ECAP_REG_OFF, ECAP_LO, ECAP_HI);
    PairAt(i, VTD_RTADDR_REG_OFF, RTADDR_LO, RTADDR_HI);
    PairAt(i, VTD_CCMD_REG_OFF, CCMD_LO, CCMD_HI);
    PairAt(i, VTD_PHMBASE_REG_OFF, PHMBASE_LO, PHMBASE_HI);
    PairAt(i, VTD_PHMLIMIT_REG_OFF, PHMLIMIT_LO, PHMLIMIT_HI);
    PairAt(i, 0x108, IOTLB_LO, IOTLB_HI);
    PairAt(i, 0x100, IVA_LO, IVA_HI);
  }

  // ----- Agreement with the register layouts

  function Both(lo: bv32, hi: bv32): bv64 {
    (hi as bv64 << 32) | lo as bv64
  }

  datatype Ccmd = Ccmd(did: bv64, sid: bv64, fm: bv64, rsvdz0: bv64, caig: bv64, cirg: bv64, icc: bv64)

  function UnpackCcmd(value: bv64): Ccmd {
    Ccmd((value >> 0) & 0xFFFF, (value >> 16) & 0xFFFF, (value >> 32) & 3, (value >> 34) & 0x1FF_FFFF,
         (value >> 59) & 3, (value >> 61) & 3, (value >> 63) & 1)
  }

  datatype Iotlb = Iotlb(rsvdz0: bv64, did: bv64, dw: bv64, dr: bv64, rsvdz1: bv64, iaig: bv64, iirg: bv64, ivt: bv64)

  function UnpackIotlb(value: bv64): Iotlb {
    Iotlb((value >> 0) & 0xFFFF_FFFF, (value >> 32) & 0xFFFF, (value >> 48) & 1, (value >> 49) & 1,
          (value >> 50) & 0x7F, (value >> 57) & 7, (value >> 60) & 7, (value >> 63) & 1)
  }

  /** A completed context command: icc is clear and the actual granularity is the requested one. */
  function CcmdDone(c: Ccmd): Ccmd {
    c.(icc := 0, caig := c.cirg)
  }

  /** A completed IOTLB command: ivt is clear and the low two bits of the actual granularity are
      those of the requested one; its high bit is not touched. */
  function IotlbDone(c: Iotlb): Iotlb {
    c.(ivt := 0, iaig := (c.iaig & 4) | (c.iirg & 3))
  }

  // The four combinations of requested granularity bits.

  lemma CcmdCase00(lo: bv32, v: bv32)
    requires v & 0x8000_0000 != 0 && v & 0x4000_0000 == 0 && v & 0x2000_0000 == 0
    ensures UnpackCcmd(Both(lo, CcmdWritten(v))) == CcmdDone(UnpackCcmd(Both(lo, v)))
  {}

  lemma CcmdCase01(lo: bv32, v: bv32)
    requires v & 0x8000_0000 != 0 && v & 0x4000_0000 == 0 && v & 0x2000_0000 != 0
    ensures UnpackCcmd(Both(lo, CcmdWritten(v))) == CcmdDone(UnpackCcmd(Both(lo, v)))
  {}

  lemma CcmdCase10(lo: bv32, v: bv32)
    requires v & 0x8000_0000 != 0 && v & 0x4000_0000 != 0 && v & 0x2000_0000 == 0
    ensures UnpackCcmd(Both(lo, CcmdWritten(v))) == CcmdDone(UnpackCcmd(Both(lo, v)))
  {}

  lemma CcmdCase11(lo: bv32, v: bv32)
    requires v & 0x8000_0000 != 0 && v & 0x4000_0000 != 0 && v & 0x2000_0000 != 0
    ensures UnpackCcmd(Both(lo, CcmdWritten(v))) == CcmdDone(UnpackCcmd(Both(lo, v)))
  {}

  /** Writing a context command with the invalidate bit set reads as a completed one. */
  lemma CcmdCompletes(lo: bv32, v: bv32)
    requires v & 0x8000_0000 != 0
    ensures UnpackCcmd(Both(lo, CcmdWritten(v))) == CcmdDone(UnpackCcmd(Both(lo, v)))
  {
    hide CcmdWritten, UnpackCcmd, Both, CcmdDone;
    if v & 0x4000_0000 != 0 {
      if v & 0x2000_0000 != 0 {
        CcmdCase11(lo, v);
      } else {
        CcmdCase10(lo, v);
      }
    } else if v & 0x2000_0000 != 0 {
      CcmdCase01(lo, v);
    } else {
      CcmdCase00(lo, v);
    }
  }

  lemma IotlbCase00(lo: bv32, v: bv32)
    requires v & 0x8000_0000 != 0 && v & 0x2000_0000 == 0 && v & 0x1000_0000 == 0
    ensures UnpackIotlb(Both(lo, IotlbWritten(v))) == IotlbDone(UnpackIotlb(Both(lo, v)))
  {}

  lemma IotlbCase01(lo: bv32, v: bv32)
    requires v & 0x8000_0000 != 0 && v & 0x2000_0000 == 0 && v & 0x1000_0000 != 0
    ensures UnpackIotlb(Both(lo, IotlbWritten(v))) == IotlbDone(UnpackIotlb(Both(lo, v)))
  {}

  lemma IotlbCase10(lo: bv32, v: bv32)
    requires v & 0x8000_0000 != 0 && v & 0x2000_0000 != 0 && v & 0x1000_0000 == 0
    ensures UnpackIotlb(Both(lo, IotlbWritten(v))) == IotlbDone(UnpackIotlb(Both(lo, v)))
  {}

  lemma IotlbCase11(lo: bv32, v: bv32)
    requires v & 0x8000_0000 != 0 && v & 0x2000_0000 != 0 && v & 0x1000_0000 != 0
    ensures UnpackIotlb(Both(lo, IotlbWritten(v))) == IotlbDone(UnpackIotlb(Both(lo, v)))
  {}

  /** Writing an IOTLB command with the invalidate bit set reads as a completed one. */
  lemma IotlbCompletes(lo: bv32, v: bv32)
    requires v & 0x8000_0000 != 0
    ensures UnpackIotlb(Both(lo, IotlbWritten(v))) == IotlbDone(UnpackIotlb(Both(lo, v)))
  {
    hide IotlbWritten, UnpackIotlb, Both, IotlbDone;
    if v & 0x2000_0000 != 0 {
      if v & 0x1000_0000 != 0 {
        IotlbCase11(lo, v);
      } else {
        IotlbCase10(lo, v);
      }
    } else if v & 0x1000_0000 != 0 {
      IotlbCase01(lo, v);
    } else {
      IotlbCase00(lo, v);
    }
  }

  function CcmdOf(u: Drhd): Ccmd {
    UnpackCcmd(Both(u.regs[CCMD_LO].bits, u.regs[CCMD_HI].bits))
  }

  function IotlbOf(u: Drhd): Iotlb {
    UnpackIotlb(Both(u.regs[IOTLB_LO].bits, u.regs[IOTLB_HI].bits))
  }

  /** Writing the high half of a command register with its top bit set leaves the unit with the
      completed command, as the register layouts read it. */
  lemma CommandsComplete(units: seq<Drhd>, address: nat, value: bv64, p: Place)
    requires p.unit < |units| && Lookup(units, address) == Some(p) && !TopClear(Truncated(value).bits)
    ensures var u, u', v := units[p.unit], WriteTo(units, address, value)[p.unit], Truncated(value).bits;
            (p.reg == CCMD_HI ==> CcmdOf(u') == CcmdDone(UnpackCcmd(Both(u.regs[CCMD_LO].bits, v)))) &&
            (p.reg == IOTLB_HI ==> IotlbOf(u') == IotlbDone(UnpackIotlb(Both(u.regs[IOTLB_LO].bits, v))))
  {
    hide Lookup, Truncated, CcmdWritten, IotlbWritten, UnpackCcmd, UnpackIotlb, Both, CcmdDone, IotlbDone, WriteTo;
    var u, v := units[p.unit], Truncated(value).bits;
    WriteFrame(units, address, value, p.unit, CCMD_LO);
    WriteFrame(units, address, value, p.unit, CCMD_HI);
    WriteFrame(units, address, value, p.unit, IOTLB_LO);
    WriteFrame(units, address, value, p.unit, IOTLB_HI);
    CcmdCompletes(u.regs[CCMD_LO].bits, v);
    IotlbCompletes(u.regs[IOTLB_LO].bits, v);
  }

  // ----- The register file

  method SetOrClear(w: bv32, from: bv32, to: bv32) returns (r: bv32)
    ensures r == CopyBit(w, from, to)
  {
    if w & from != 0 {
      r := w | to;
    } else {
      r := w & !to;
    }
  }

  lemma PmenCases(v: bv32)
    ensures v & 0x8000_0000 == 0 ==> PmenWritten(v) == v & 0xFFFF_FFFE && (v & 0xFFFF_FFFE) & 0x8000_0000 == 0
    ensures v & 0x8000_0000 != 0 ==> PmenWritten(v) == v | 1
  {}

  method SettlePmen(v: bv32) returns (w: bv32)
    ensures w == PmenWritten(v)
  {
    hide PmenWritten;
    PmenCases(v);
    w := v;
    if w & 0x8000_0000 == 0 {
      w := w & 0xFFFF_FFFE;
    }
    if w & 0x8000_0000 != 0 {
      w := w | 1;
    }
  }

  lemma CcmdInvalidates(v: bv32)
    requires v & 0x8000_0000 != 0
    ensures CcmdWritten(v) == CopyBit(CopyBit(v, 0x4000_0000, 0x1000_0000), 0x2000_0000, 0x0800_0000) & 0x7FFF_FFFF
  {
    hide CopyBit;
  }

  lemma CcmdPlain(v: bv32)
    requires v & 0x8000_0000 == 0
    ensures CcmdWritten(v) == v
  {
    hide CopyBit;
  }

  method SettleCcmd(v: bv32) returns (w: bv32)
    ensures w == CcmdWritten(v)
  {
    hide CopyBit, CcmdWritten;
    w := v;
    if w & 0x8000_0000 != 0 {
      CcmdInvalidates(v);
      w := SetOrClear(w, 0x4000_0000, 0x1000_0000);
      w := SetOrClear(w, 0x2000_0000, 0x0800_0000);
      w := w & 0x7FFF_FFFF;
    } else {
      CcmdPlain(v);
    }
  }

  lemma IotlbInvalidates(v: bv32)
    requires v & 0x8000_0000 != 0
    ensures IotlbWritten(v) == CopyBit(CopyBit(v, 0x2000_0000, 0x0400_0000), 0x1000_0000, 0x0200_0000) & 0x7FFF_FFFF
  {
    hide CopyBit;
  }

  lemma IotlbPlain(v: bv32)
    requires v & 0x8000_0000 == 0
    ensures IotlbWritten(v) == v
  {
    hide CopyBit;
  }

  method SettleIotlb(v: bv32) returns (w: bv32)
    ensures w == IotlbWritten(v)
  {
    hide CopyBit, IotlbWritten;
    w := v;
    if w & 0x8000_0000 != 0 {
      IotlbInvalidates(v);
      w := SetOrClear(w, 0x2000_0000, 0x0400_0000);
      w := SetOrClear(w, 0x1000_0000, 0x0200_0000);
      w := w & 0x7FFF_FFFF;
    } else {
      IotlbPlain(v);
    }
  }

  /** Applies a write's side effects to the value written. */
  method Settle(r: Reg, v: Word) returns (w: Word)
    ensures w == Written(r, v)
  {
    hide PmenWritten, CcmdWritten, IotlbWritten;
    var bits := v.bits;
    if r == PMEN {
      bits := SettlePmen(bits);
    } else if r == CCMD_HI {
      bits := SettleCcmd(bits);
    } else if r == IOTLB_HI {
      bits := SettleIotlb(bits);
    }
    w := Word(bits);
  }

  class RegisterModel {
    const units: array<Drhd>

    constructor (initial: seq<Drhd>)
      ensures units[..] == initial && fresh(units)
    {
      units := new Drhd[|initial|](i requires 0 <= i < |initial| => initial[i]);
    }

    method Read(address: nat) returns (found: bool, result: Word)
      ensures match ReadFrom(units[..], address) case None => !found case Some(v) => found && result == v
    {
      hide Decode;
      var i := 0;
      while i < units.Length
        invariant i <= units.Length && Lookup(units[..], address) == LookupFrom(units[..], address, i)
      {
        var r := Decode(units[i], address);
        if r.Some? {
          return true, units[i].regs[r.value];
        }
        i := i + 1;
      }
      return false, Word(0);
    }

    method Write(address: nat, value: bv64) returns (found: bool)
      modifies units
      ensures units[..] == WriteTo(old(units[..]), address, value)
      ensures found == Lookup(old(units[..]), address).Some?
    {
      hide Decode, Written, Truncated, WithTop, EnablesTranslation;
      ghost var before := units[..];
      var i := 0;
      while i < units.Length
        invariant i <= units.Length && units[..] == before
        invariant Lookup(before, address) == LookupFrom(before, address, i)
      {
        var r := Decode(units[i], address);
        if r.Some? {
          var u := units[i];
          var v := Truncated(value);
          var w := Settle(r.value, v);
          u := u.(regs := u.regs[r.value := w]);
          if EnablesTranslation(r.value, v) {
            u := u.(regs := u.regs[GSTS := WithTop(u.regs[GSTS])]);
          }
          units[i] := u;
          assert units[..] == before[i := u];
          return true;
        }
        i := i + 1;
      }
      return false;
    }
  }
}
