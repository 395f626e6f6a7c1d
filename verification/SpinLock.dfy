/**
 The spin lock as instruction steps of any number of CPUs over one lock word. Bit 0 of the
 word set means the lock is free. Only lock btr is atomic; the load and the store of the
 unlocking bts are separate steps, and any CPU may run between them.
 */
module SpinLock {

  // ----- Bit 0 of the lock word

  predicate Free(word: bv32) {
    word & 1 != 0
  }

  /** btr: clears the bit if it is set. */
  function Reset(word: bv32): bv32 {
    if Free(word) then word & 0xFFFF_FFFE else word
  }

  /** bts: sets the bit; there is no store when it is set already. */
  function Stored(word: bv32, loaded: bv32): bv32 {
    if Free(loaded) then word else loaded | 1
  }

  /** The bits of the word the lock does not use. */
  function Rest(word: bv32): bv32 {
    word & 0xFFFF_FFFE
  }

  // ----- One CPU

  datatype Pc =
    | Outside                      // neither in spin_lock nor holding the lock
    | LockLoad                     // movl 0x4(%esp), %ecx
    | LockTest                     // splock: btl
    | LockTestBranch               // jnc splock
    | LockTake                     // lock btrl
    | LockTakeBranch               // jnc splock
    | LockReturn                   // ret
    | Inside                       // between spin_lock and spin_unlock
    | UnlockLoad                   // movl 0x4(%esp), %ecx
    | UnlockFetch                  // btsl, reading the word
    | UnlockStore(loaded: bv32)    // btsl, writing it back
    | UnlockReturn                 // ret

  datatype Cpu = Cpu(pc: Pc, carry: bool)

  datatype System = System(word: bv32, cpus: seq<Cpu>)

  /** The lock word and the CPU after the CPU's next step. */
  function CpuStep(word: bv32, c: Cpu): (bv32, Cpu) {
    match c.pc
    case Outside => (word, c.(pc := LockLoad))
    case LockLoad => (word, c.(pc := LockTest))
    case LockTest => (word, Cpu(LockTestBranch, Free(word)))
    case LockTestBranch => (word, c.(pc := if c.carry then LockTake else LockTest))
    case LockTake => (Reset(word), Cpu(LockTakeBranch, Free(word)))
    case LockTakeBranch => (word, c.(pc := if c.carry then LockReturn else LockTest))
    case LockReturn => (word, c.(pc := Inside))
    case Inside => (word, c.(pc := UnlockLoad))
    case UnlockLoad => (word, c.(pc := UnlockFetch))
    case UnlockFetch => (word, c.(pc := UnlockStore(word)))
    case UnlockStore(loaded) => (Stored(word, loaded), Cpu(UnlockReturn, Free(loaded)))
    case UnlockReturn => (word, c.(pc := Outside))
  }

  function Step(s: System, i: nat): System
    requires i < |s.cpus|
  {
    var (word, c) := CpuStep(s.word, s.cpus[i]);
    System(word, s.cpus[i := c])
  }

  /** Only existing CPUs are scheduled. */
  predicate Schedules(schedule: seq<nat>, n: nat) {
    forall k | 0 <= k < |schedule| :: schedule[k] < n
  }

  /** Runs a schedule: the CPUs that take the steps, in order. */
  function Run(s: System, schedule: seq<nat>): System
    requires Schedules(schedule, |s.cpus|)
    decreases |schedule|
  {
    if schedule == [] then s else Run(Step(s, schedule[0]), schedule[1..])
  }

  // ----- Who has the lock

  /** Between a successful btr and the completed bts. */
  predicate Holds(c: Cpu) {
    (c.pc == LockTakeBranch && c.carry) || c.pc == LockReturn || c.pc == Inside || c.pc == UnlockLoad ||
    c.pc == UnlockFetch || c.pc.UnlockStore?
  }

  function Holders(cpus: seq<Cpu>): nat {
    if cpus == [] then 0 else (if Holds(cpus[0]) then 1 else 0) + Holders(cpus[1..])
  }

  function Available(word: bv32): nat {
    if Free(word) then 1 else 0
  }

  /** The lock is free or has one holder; a word fetched by an unlocking CPU is still current. */
  predicate Inv(s: System) {
    Available(s.word) + Holders(s.cpus) == 1 &&
    forall k | 0 <= k < |s.cpus| && s.cpus[k].pc.UnlockStore? :: s.cpus[k].pc.loaded == s.word
  }

  /** A free lock and no CPU at work. */
  predicate Initial(s: System) {
    Free(s.word) && forall c | c in s.cpus :: c.pc == Outside
  }

  lemma {:induction false} NoHolders(cpus: seq<Cpu>)
    requires forall c | c in cpus :: !Holds(c)
    ensures Holders(cpus) == 0
  {
    if cpus != [] {
      NoHolders(cpus[1..]);
    }
  }

  lemma {:induction false} HoldersUpdate(cpus: seq<Cpu>, i: nat, c: Cpu)
    requires i < |cpus|
    ensures Holders(cpus[i := c]) ==
            Holders(cpus) - (if Holds(cpus[i]) then 1 else 0) + (if Holds(c) then 1 else 0)
    decreases |cpus|
  {
    hide Holds;
    if i == 0 {
      assert cpus[0 := c][1..] == cpus[1..];
    } else {
      HoldersUpdate(cpus[1..], i - 1, c);
      assert cpus[i := c][1..] == cpus[1..][i - 1 := c];
    }
  }

  lemma {:induction false} HoldersAtLeast(cpus: seq<Cpu>, i: nat)
    requires i < |cpus| && Holds(cpus[i])
    ensures Holders(cpus) >= 1
  {
    hide Holds;
    if i > 0 {
      HoldersAtLeast(cpus[1..], i - 1);
    }
  }

  lemma {:induction false} TwoHolders(cpus: seq<Cpu>, i: nat, j: nat)
    requires i < j < |cpus| && Holds(cpus[i]) && Holds(cpus[j])
    ensures Holders(cpus) >= 2
  {
    hide Holds;
    if i == 0 {
      HoldersAtLeast(cpus[1..], j - 1);
    } else {
      TwoHolders(cpus[1..], i - 1, j - 1);
    }
  }

  // ----- The bits

  /** btr takes a free lock and leaves a taken one alone. */
  lemma ResetTakes(word: bv32)
    ensures if Free(word) then !Free(Reset(word)) else Reset(word) == word
  {}

  /** bts frees a taken lock when nothing happens between its load and its store. */
  lemma StoredFrees(word: bv32)
    ensures !Free(word) ==> Free(Stored(word, word))
  {}

  lemma OtherBits(word: bv32)
    ensures Rest(Reset(word)) == Rest(word) && Rest(Stored(word, word)) == Rest(word)
  {}

  // ----- Safety

  lemma InitialInv(s: System)
    requires Initial(s)
    ensures Inv(s)
  {
    NoHolders(s.cpus);
  }

  function Count(c: Cpu): nat {
    if Holds(c) then 1 else 0
  }

  /** One step moves the lock between the word and the CPU, and only its holder writes a taken lock. */
  lemma CpuStepFacts(word: bv32, c: Cpu)
    requires Holds(c) ==> !Free(word)
    requires c.pc.UnlockStore? ==> c.pc.loaded == word
    ensures var (word', c') := CpuStep(word, c);
            Available(word') + Count(c') == Available(word) + Count(c) &&
            Rest(word') == Rest(word) &&
            (word' == word || Free(word) || Holds(c)) &&
            (c'.pc.UnlockStore? ==> c'.pc.loaded == word')
  {
    hide Free, Reset, Stored, Rest;
    ResetTakes(word);
    StoredFrees(word);
    OtherBits(word);
  }

  /** Every step of every CPU keeps the invariant and the other 31 bits of the lock word. */
  lemma StepInv(s: System, i: nat)
    requires i < |s.cpus| && Inv(s)
    ensures Inv(Step(s, i)) && Rest(Step(s, i).word) == Rest(s.word)
  {
    hide Free, CpuStep, Rest, Holders;
    var c := s.cpus[i];
    if Holds(c) {
      HoldersAtLeast(s.cpus, i);
    }
    CpuStepFacts(s.word, c);
    var s' := Step(s, i);
    HoldersUpdate(s.cpus, i, s'.cpus[i]);
    forall k | 0 <= k < |s'.cpus| && s'.cpus[k].pc.UnlockStore?
      ensures s'.cpus[k].pc.loaded == s'.word
    {
      if k != i {
        HoldersAtLeast(s.cpus, k);
        if Holds(c) {
          TwoHolders(s.cpus, if i < k then i else k, if i < k then k else i);
        }
      }
    }
  }

  lemma {:induction false} RunInv(s: System, schedule: seq<nat>)
    requires Inv(s) && Schedules(schedule, |s.cpus|)
    ensures Inv(Run(s, schedule)) && Rest(Run(s, schedule).word) == Rest(s.word)
    decreases |schedule|
  {
    hide Free, Inv, Rest, CpuStep;
    if schedule != [] {
      StepInv(s, schedule[0]);
      RunInv(Step(s, schedule[0]), schedule[1..]);
    }
  }

  /** The lock is bit 0 of the word. */
  lemma LockBit(word: bv32)
    ensures Available(word) == if word & 1 != 0 then 1 else 0
  {}

  /** The rest of it is the other 31 bits. */
  lemma OtherBitsKept(v: bv32, w: bv32)
    requires Rest(v) == Rest(w)
    ensures v & 0xFFFF_FFFE == w & 0xFFFF_FFFE
  {}

  /** Whatever the interleaving, the lock bit and the number of holders add up to one, so no two CPUs
      ever hold the lock together; and the rest of the lock word never changes. */
  lemma MutualExclusion(s: System, schedule: seq<nat>)
    requires Initial(s) && Schedules(schedule, |s.cpus|)
    ensures var r := Run(s, schedule);
            Available(r.word) + Holders(r.cpus) == 1 && Rest(r.word) == Rest(s.word) &&
            forall i, j | 0 <= i < j < |r.cpus| :: !(Holds(r.cpus[i]) && Holds(r.cpus[j]))
  {
    hide Run, CpuStep, Free, Available, Rest;
    InitialInv(s);
    RunInv(s, schedule);
    var r := Run(s, schedule);
    forall i, j | 0 <= i < j < |r.cpus|
      ensures !(Holds(r.cpus[i]) && Holds(r.cpus[j]))
    {
      if Holds(r.cpus[i]) && Holds(r.cpus[j]) {
        TwoHolders(r.cpus, i, j);
      }
    }
  }

  /** n steps of one CPU. */
  function Alone(s: System, i: nat, n: nat): (r: System)
    requires i < |s.cpus|
    ensures |r.cpus| == |s.cpus|
  {
    if n == 0 then s else Step(Alone(s, i, n - 1), i)
  }

  lemma BackAgain(word: bv32)
    ensures Free(word) ==> Stored(Reset(word), Reset(word)) == word
  {}

  /** Two more steps. */
  lemma AloneTwice(s: System, i: nat, n: nat)
    requires i < |s.cpus|
    ensures Alone(s, i, n + 2) == Step(Step(Alone(s, i, n), i), i)
    ensures Alone(s, i, n + 1) == Step(Alone(s, i, n), i)
  {
    hide CpuStep;
  }

  /** A CPU that finds the lock free and is not disturbed is inside after seven steps, with the lock
      taken, and five steps later it is outside again and the lock word is as it was. */
  lemma UndisturbedRoundTrip(s: System, i: nat)
    requires i < |s.cpus| && s.cpus[i].pc == Outside && Free(s.word)
    ensures Alone(s, i, 7).cpus[i].pc == Inside && !Free(Alone(s, i, 7).word)
    ensures Alone(s, i, 12).cpus[i].pc == Outside && Alone(s, i, 12).word == s.word
  {
    hide Free, Reset, Stored;
    ResetTakes(s.word);
    BackAgain(s.word);
    var w := Reset(s.word);
    AloneTwice(s, i, 0);
    AloneTwice(s, i, 2);
    AloneTwice(s, i, 4);
    assert Alone(s, i, 6) == System(w, s.cpus[i := Cpu(LockReturn, true)]);
    AloneTwice(s, i, 6);
    AloneTwice(s, i, 8);
    AloneTwice(s, i, 10);
  }

  // ----- Waiting: spin_lock is left only with the lock

  predicate InLock(pc: Pc) {
    pc == LockLoad || pc == LockTest || pc == LockTestBranch || pc == LockTake || pc == LockTakeBranch ||
    pc == LockReturn
  }

  /** A step of spin_lock stays in it or returns; it returns only with the lock. */
  lemma LockStep(word: bv32, c: Cpu)
    requires InLock(c.pc)
    ensures var c' := CpuStep(word, c).1; InLock(c'.pc) || (c'.pc == Inside && Holds(c))
  {
    hide Free, Reset, Stored;
  }

  /** After the first k steps CPU i is inside and the lock is taken. */
  ghost predicate Entered(s: System, schedule: seq<nat>, i: nat, k: nat)
    requires i < |s.cpus| && Schedules(schedule, |s.cpus|) && k <= |schedule|
  {
    var r := Run(s, schedule[..k]);
    i < |r.cpus| && r.cpus[i].pc == Inside && !Free(r.word)
  }

  lemma {:induction false} RunKeepsCpus(s: System, schedule: seq<nat>)
    requires Schedules(schedule, |s.cpus|)
    ensures |Run(s, schedule).cpus| == |s.cpus|
    decreases |schedule|
  {
    hide CpuStep;
    if schedule != [] {
      RunKeepsCpus(Step(s, schedule[0]), schedule[1..]);
    }
  }

  lemma TakenWhenHeld(s: System, i: nat)
    requires Inv(s) && i < |s.cpus| && Holds(s.cpus[i])
    ensures !Free(s.word)
  {
    hide Free, Holds, Holders;
    HoldersAtLeast(s.cpus, i);
  }

  /** Under every schedule a CPU in spin_lock is still there, or has come out of it holding the lock. */
  lemma {:induction false} LeavesWithLock(s: System, schedule: seq<nat>, i: nat)
    requires Inv(s) && Schedules(schedule, |s.cpus|) && i < |s.cpus| && InLock(s.cpus[i].pc)
    ensures |Run(s, schedule).cpus| == |s.cpus|
    ensures InLock(Run(s, schedule).cpus[i].pc) || exists k | 0 <= k <= |schedule| :: Entered(s, schedule, i, k)
    decreases |schedule|
  {
    hide Free, CpuStep, Inv, InLock;
    RunKeepsCpus(s, schedule);
    if schedule != [] {
      var s', rest := Step(s, schedule[0]), schedule[1..];
      StepInv(s, schedule[0]);
      LockStep(s.word, s.cpus[i]);
      if InLock(s'.cpus[i].pc) {
        LeavesWithLock(s', rest, i);
        if !InLock(Run(s', rest).cpus[i].pc) {
          var k :| 0 <= k <= |rest| && Entered(s', rest, i, k);
          assert schedule[..k + 1][1..] == rest[..k];
          assert Entered(s, schedule, i, k + 1);
        }
      } else {
        TakenWhenHeld(s', i);
        assert schedule[..1][1..] == [];
        assert Run(s, schedule[..1]) == Run(s', []) == s';
        assert Entered(s, schedule, i, 1);
      }
    }
  }

  /** How many steps of its own take a waiting CPU in, when the lock is free. */
  function StepsToTake(c: Cpu): nat {
    match c.pc
    case LockLoad => 6
    case LockTest => 5
    case LockTestBranch => if c.carry then 4 else 6
    case LockTake => 3
    case LockTakeBranch => 6
    case _ => 0
  }

  lemma ResetFree(word: bv32)
    requires Free(word)
    ensures Reset(word) == word & 0xFFFF_FFFE
  {}

  lemma AloneStarts(s: System, i: nat)
    requires i < |s.cpus|
    ensures Alone(s, i, 0) == s && Alone(s, i, 1) == Step(s, i)
  {
    hide CpuStep;
    AloneTwice(s, i, 0);
  }

  /** Three steps from the atomic instruction on. */
  lemma FromTake(s: System, i: nat, n: nat)
    requires i < |s.cpus| && n <= 3 && Free(s.word)
    requires Alone(s, i, n).word == s.word && Alone(s, i, n).cpus[i].pc == LockTake
    requires Alone(s, i, n) == System(s.word, s.cpus[i := Alone(s, i, n).cpus[i]])
    ensures Alone(s, i, n + 3) == System(Reset(s.word), s.cpus[i := Cpu(Inside, true)])
  {
    hide Free, Reset, Alone;
    AloneTwice(s, i, n);
    AloneTwice(s, i, n + 1);
  }

  /** Five steps from the test on. */
  lemma FromTest(s: System, i: nat, n: nat)
    requires i < |s.cpus| && n <= 1 && Free(s.word)
    requires Alone(s, i, n).word == s.word && Alone(s, i, n).cpus[i].pc == LockTest
    requires Alone(s, i, n) == System(s.word, s.cpus[i := Alone(s, i, n).cpus[i]])
    ensures Alone(s, i, n + 5) == System(Reset(s.word), s.cpus[i := Cpu(Inside, true)])
  {
    hide Free, Reset, Alone;
    AloneTwice(s, i, n);
    FromTake(s, i, n + 2);
  }

  /** Alone with a free lock, a CPU anywhere in spin_lock takes it within six steps, and clears bit 0. */
  lemma TakesFreeLock(s: System, i: nat)
    requires Inv(s) && i < |s.cpus| && InLock(s.cpus[i].pc) && Free(s.word)
    ensures StepsToTake(s.cpus[i]) <= 6
    ensures Alone(s, i, StepsToTake(s.cpus[i])) == System(s.word & 0xFFFF_FFFE, s.cpus[i := Cpu(Inside, true)])
  {
    hide Free, Reset, Inv, Alone;
    var c := s.cpus[i];
    if Holds(c) {
      TakenWhenHeld(s, i);
    }
    ResetFree(s.word);
    AloneStarts(s, i);
    assert s.cpus[i := c] == s.cpus;
    match c.pc
    case LockLoad =>
      FromTest(s, i, 1);
    case LockTest =>
      FromTest(s, i, 0);
    case LockTestBranch =>
      if c.carry {
        FromTake(s, i, 1);
      } else {
        FromTest(s, i, 1);
      }
    case LockTake =>
      FromTake(s, i, 0);
    case LockTakeBranch =>
      FromTest(s, i, 1);
    case _ =>
  }

  /** While the lock is taken, a CPU in spin_lock that does not hold it changes nothing and stays. */
  lemma {:induction false} WaitsWhileTaken(s: System, i: nat, n: nat)
    requires i < |s.cpus| && InLock(s.cpus[i].pc) && !Holds(s.cpus[i]) && !Free(s.word)
    ensures var r := Alone(s, i, n);
            r == System(s.word, s.cpus[i := r.cpus[i]]) && InLock(r.cpus[i].pc) && !Holds(r.cpus[i])
    decreases n
  {
    hide Free, Reset, Stored;
    ResetTakes(s.word);
    if n > 0 {
      WaitsWhileTaken(s, i, n - 1);
    }
  }
}
