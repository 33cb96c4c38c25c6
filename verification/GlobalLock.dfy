/**
 The ACPI global lock: a word shared with the firmware and changed by compare-and-swap
 (section 5.2.10.1 of the ACPI specification, version 6.5), with the wait for the firmware's
 release notification on top of it. Any number of threads, one firmware agent and the interrupt
 handler take atomic steps in any order.
*/
module GlobalLock {
  import opened Options

  // ---- The lock word: bit 0 pending, bit 1 owned, the rest reserved ----

  function OwnedBit(w: bv32): bool { w & 2 != 0 }
  function PendingBit(w: bv32): bool { w & 1 != 0 }
  function ReservedBits(w: bv32): bv32 { w & 0xFFFF_FFFC }

  /** What an acquirer stores over w: owned, and pending exactly when w was owned. */
  function AcquiringBits(w: bv32): bv32 {
    var owned := (w & 0xFFFF_FFFC) | 2;
    if OwnedBit(w) then owned | 1 else owned
  }

  /** What a releaser stores over w. */
  function ReleasingBits(w: bv32): bv32 { w & 0xFFFF_FFFC }

  lemma BitsOfWord(w: bv32)
    ensures OwnedBit(AcquiringBits(w)) && (PendingBit(AcquiringBits(w)) <==> OwnedBit(w))
    ensures !OwnedBit(ReleasingBits(w)) && !PendingBit(ReleasingBits(w))
    ensures ReservedBits(AcquiringBits(w)) == ReservedBits(w) == ReservedBits(ReleasingBits(w))
  {
  }

  datatype Word = Word(bits: bv32)

  function Owned(w: Word): bool { OwnedBit(w.bits) }
  function Pending(w: Word): bool { PendingBit(w.bits) }
  function Reserved(w: Word): bv32 { ReservedBits(w.bits) }
  function Acquiring(w: Word): Word { Word(AcquiringBits(w.bits)) }
  function Releasing(w: Word): Word { Word(ReleasingBits(w.bits)) }

  lemma WordBits(w: Word)
    ensures Owned(Acquiring(w)) && (Pending(Acquiring(w)) <==> Owned(w))
    ensures !Owned(Releasing(w)) && !Pending(Releasing(w))
    ensures Reserved(Acquiring(w)) == Reserved(w) == Reserved(Releasing(w))
  {
    BitsOfWord(w.bits);
    hide OwnedBit, PendingBit, ReservedBits, AcquiringBits, ReleasingBits;
  }

  // ---- Program counters ----

  /** Where a thread is; `spins` counts its attempts, `v` is the value its swap expects. */
  datatype ThreadPc =
    | Outside
    | Lock(spins: nat)              // has the native mutex, about to take the spinlock
    | Attempt(spins: nat)           // about to count an attempt and read the word
    | Swap(v: Word, spins: nat)     // about to swap in Acquiring(v)
    | Flag(spins: nat)              // the word was owned; about to set the pending flag
    | Unlock(spins: nat)            // about to drop the spinlock before the wait
    | Wait(spins: nat)              // waiting for the event
    | Success                       // has the word; about to clear the pending flag
    | SuccessUnlock
    | GiveUp(spins: nat)            // about to clear the pending flag without the word
    | GiveUpUnlock(spins: nat)
    | Owner                         // the acquire has returned OK
    | Release                       // about to read the word
    | ReleaseSwap(v: Word)          // about to swap in Releasing(v)
    | Notify                        // about to write GBL_RLS
    | Leave                         // about to drop the native mutex

  datatype FirmwarePc =
    | Away
    | Acquire(v: Word)              // about to swap in Acquiring(v)
    | Holds
    | Drop(v: Word)                 // about to swap in Releasing(v)
    | Signal                        // about to raise the release interrupt
    | Waits                         // has set pending and waits for GBL_RLS

  /** The interrupt handler handle_global_lock, called after the status bit has been cleared. */
  datatype HandlerPc = Idle | Entered | Test | Clear | Exit

  datatype Spinlock = Free | ByThread(t: nat) | ByHandler

  datatype Shared = Shared(
    word: Word,
    native: Option<nat>,            // the native mutex
    spinlock: Spinlock,
    pending: bool,                  // global_lock_pending
    event: nat,                     // counter of global_lock_event
    status: bool,                   // the release interrupt is raised and not yet taken
    handler: HandlerPc,
    firmware: FirmwarePc,
    released: bool                  // GBL_RLS is written and the firmware has not reacted
  )

  datatype State = State(sh: Shared, threads: seq<ThreadPc>)

  ghost predicate Init(s: State) {
    && !Owned(s.sh.word) && !Pending(s.sh.word)
    && s.sh.native == None && s.sh.spinlock == Free && !s.sh.pending && s.sh.event == 0
    && s.sh.handler == Idle && s.sh.firmware == Away && !s.sh.released
    && forall t | 0 <= t < |s.threads| :: s.threads[t] == Outside
  }

  // ---- Steps ----

  datatype Move = Blocked | Move(sh: Shared, pc: ThreadPc)

  /** What one step of thread t at pc does. */
  function ThreadMove(sh: Shared, pc: ThreadPc, t: nat): Move {
    match pc
    case Outside => if sh.native == None then Move(sh.(native := Some(t)), Lock(0)) else Blocked
    case Lock(k) => if sh.spinlock == Free then Move(sh.(spinlock := ByThread(t)), Attempt(k)) else Blocked
    case Attempt(k) => Move(sh, Swap(sh.word, k + 1))
    case Swap(v, k) =>
      if sh.word != v then Move(sh, Swap(sh.word, k))
      else Move(sh.(word := Acquiring(v)), if !Owned(v) then Success else if k == 0xFFFF then GiveUp(k) else Flag(k))
    case Flag(k) => Move(sh.(pending := true), Unlock(k))
    case Unlock(k) => Move(sh.(spinlock := Free), Wait(k))
    case Wait(k) => if sh.event > 0 then Move(sh.(event := sh.event - 1), Lock(k)) else Blocked
    case Success => Move(sh.(pending := false), SuccessUnlock)
    case SuccessUnlock => Move(sh.(spinlock := Free), Owner)
    case GiveUp(k) => Move(sh.(pending := false), GiveUpUnlock(k))
    case GiveUpUnlock(_) => Move(sh.(spinlock := Free), Leave)
    case Owner => Move(sh, Release)
    case Release => Move(sh, ReleaseSwap(sh.word))
    case ReleaseSwap(v) =>
      if sh.word != v then Move(sh, ReleaseSwap(sh.word))
      else Move(sh.(word := Releasing(v)), if Pending(v) then Notify else Leave)
    case Notify => Move(sh.(released := true), Leave)
    case Leave => Move(sh.(native := None), Outside)
  }

  predicate ThreadStep(s: State, s': State, t: nat) {
    && t < |s.threads|
    && var m := ThreadMove(s.sh, s.threads[t], t);
       m.Move? && s' == State(m.sh, s.threads[t := m.pc])
  }

  predicate FirmwareStep(sh: Shared, sh': Shared) {
    match sh.firmware
    case Away => sh' == sh.(firmware := Acquire(sh.word))
    case Acquire(v) =>
      if sh.word != v then sh' == sh.(firmware := Acquire(sh.word))
      else sh' == sh.(word := Acquiring(v), firmware := if Owned(v) then Waits else Holds)
    case Holds => sh' == sh.(firmware := Drop(sh.word))
    case Drop(v) =>
      if sh.word != v then sh' == sh.(firmware := Drop(sh.word))
      else sh' == sh.(word := Releasing(v), firmware := if Pending(v) then Signal else Away)
    case Signal => sh' == sh.(status := true, firmware := Away)
    case Waits => sh.released && sh' == sh.(released := false, firmware := Acquire(sh.word))
  }

  predicate HandlerStep(sh: Shared, sh': Shared) {
    match sh.handler
    case Idle => sh.status && sh' == sh.(status := false, handler := Entered)
    case Entered => sh.spinlock == Free && sh' == sh.(spinlock := ByHandler, handler := Test)
    case Test => sh' == if sh.pending then sh.(event := sh.event + 1, handler := Clear) else sh.(handler := Exit)
    case Clear => sh' == sh.(pending := false, handler := Exit)
    case Exit => sh' == sh.(spinlock := Free, handler := Idle)
  }

  /** Everyone but the threads; the release interrupt may also fire without a release. */
  predicate OutsideStep(sh: Shared, sh': Shared) {
    FirmwareStep(sh, sh') || HandlerStep(sh, sh') || sh' == sh.(status := true)
  }

  ghost predicate Next(s: State, s': State) {
    || (exists t: nat :: ThreadStep(s, s', t))
    || (OutsideStep(s.sh, s'.sh) && s'.threads == s.threads)
  }

  ghost predicate Run(run: seq<State>) {
    run != [] && Init(run[0]) && forall i | 0 <= i < |run| - 1 :: Next(run[i], run[i + 1])
  }

  // ---- The invariant, over the shared state and the pc of the thread inside ----

  predicate ThreadOwns(pc: ThreadPc) {
    pc.Success? || pc.SuccessUnlock? || pc.Owner? || pc.Release? || pc.ReleaseSwap?
  }

  predicate FirmwareOwns(sh: Shared) {
    sh.firmware.Holds? || sh.firmware.Drop?
  }

  predicate InSpinlock(pc: ThreadPc) {
    || pc.Attempt? || pc.Swap? || pc.Flag? || pc.Unlock?
    || pc.Success? || pc.SuccessUnlock? || pc.GiveUp? || pc.GiveUpUnlock?
  }

  /** The firmware has released the lock and the interrupt that says so has not been acted on. */
  predicate ReleaseOutstanding(sh: Shared) {
    sh.firmware.Signal? || sh.status || sh.handler.Entered? || (sh.handler.Test? && sh.pending)
  }

  /** Something will still wake a thread that waits for the firmware. */
  predicate WillWake(sh: Shared) {
    (FirmwareOwns(sh) && Pending(sh.word)) || ReleaseOutstanding(sh) || sh.event > 0
  }

  predicate SpinlockOk(sh: Shared, pc: ThreadPc) {
    && (InSpinlock(pc) <==> sh.spinlock.ByThread?)
    && (sh.spinlock.ByThread? ==> sh.native == Some(sh.spinlock.t))
    && (sh.spinlock.ByHandler? <==> sh.handler.Test? || sh.handler.Clear? || sh.handler.Exit?)
  }

  predicate WordOk(sh: Shared, pc: ThreadPc) {
    && (Owned(sh.word) <==> ThreadOwns(pc) || FirmwareOwns(sh))
    && !(ThreadOwns(pc) && FirmwareOwns(sh))
    && (!Owned(sh.word) ==> !Pending(sh.word))
  }

  /** The 16-bit attempt counter never passes its limit, and only at the limit does a thread give up. */
  predicate AttemptsOk(pc: ThreadPc) {
    match pc
    case Lock(k) => k < 0xFFFF
    case Attempt(k) => k < 0xFFFF
    case Swap(_, k) => 0 < k <= 0xFFFF
    case Flag(k) => 0 < k < 0xFFFF
    case Unlock(k) => 0 < k < 0xFFFF
    case Wait(k) => 0 < k < 0xFFFF
    case GiveUp(k) => k == 0xFFFF
    case GiveUpUnlock(k) => k == 0xFFFF
    case _ => true
  }

  /** A waiter has a wake-up coming, and the flag and the event are set for a waiter only. */
  predicate WakeOk(sh: Shared, pc: ThreadPc) {
    && (pc.Flag? || pc.Unlock? || pc.Wait? ==> WillWake(sh))
    && (pc.Unlock? ==> sh.pending)
    && (pc.Wait? ==> sh.event == 1 || (sh.pending && sh.handler != Clear))
    && sh.event <= 1 && (sh.event == 1 ==> pc.Wait?)
    && (sh.pending && sh.handler != Clear ==> (pc.Unlock? || pc.Wait?) && sh.event == 0)
    && (sh.handler == Clear ==> sh.pending && (pc.Lock? || sh.event == 1))
  }

  /** The same for the firmware, which waits for GBL_RLS. */
  predicate FirmwareWakeOk(sh: Shared, pc: ThreadPc) {
    sh.firmware.Waits? ==> (ThreadOwns(pc) && Pending(sh.word)) || pc.Notify? || sh.released
  }

  predicate SharedInv(sh: Shared, pc: ThreadPc) {
    && (sh.native == None <==> pc == Outside)
    && SpinlockOk(sh, pc) && WordOk(sh, pc) && AttemptsOk(pc) && WakeOk(sh, pc) && FirmwareWakeOk(sh, pc)
  }

  lemma ThreadKeeps(sh: Shared, pc: ThreadPc, t: nat)
    requires SharedInv(sh, pc) && (sh.native == None || sh.native == Some(t)) && ThreadMove(sh, pc, t).Move?
    ensures var m := ThreadMove(sh, pc, t); SharedInv(m.sh, m.pc) && Reserved(m.sh.word) == Reserved(sh.word)
  {
    WordBits(sh.word);
    hide Owned, Pending, Acquiring, Releasing, Reserved;
  }

  lemma FirmwareKeepsWord(sh: Shared, sh': Shared, pc: ThreadPc)
    requires WordOk(sh, pc) && FirmwareWakeOk(sh, pc) && FirmwareStep(sh, sh')
    ensures WordOk(sh', pc) && FirmwareWakeOk(sh', pc) && Reserved(sh'.word) == Reserved(sh.word)
  {
    WordBits(sh.word);
    hide Owned, Pending, Acquiring, Releasing, Reserved;
  }

  lemma FirmwareKeepsWake(sh: Shared, sh': Shared, pc: ThreadPc)
    requires WakeOk(sh, pc) && FirmwareStep(sh, sh')
    ensures WakeOk(sh', pc)
  {
    hide Owned, Pending, Acquiring, Releasing;
    assert FirmwareOwns(sh) && FirmwareOwns(sh') ==> sh.word == sh'.word;
  }

  lemma FirmwareTouches(sh: Shared, sh': Shared, pc: ThreadPc)
    requires FirmwareStep(sh, sh')
    ensures sh'.native == sh.native && (SpinlockOk(sh, pc) ==> SpinlockOk(sh', pc))
  {
    hide Owned, Pending, Acquiring, Releasing;
  }

  lemma SameInv(sh: Shared, pc: ThreadPc)
    ensures SharedInv(sh, pc) <==>
      (sh.native == None <==> pc == Outside)
      && SpinlockOk(sh, pc) && WordOk(sh, pc) && AttemptsOk(pc) && WakeOk(sh, pc) && FirmwareWakeOk(sh, pc)
  {
    hide SpinlockOk, WordOk, AttemptsOk, WakeOk, FirmwareWakeOk;
  }

  lemma FirmwareKeeps(sh: Shared, sh': Shared, pc: ThreadPc)
    requires SharedInv(sh, pc) && FirmwareStep(sh, sh')
    ensures SharedInv(sh', pc) && Reserved(sh'.word) == Reserved(sh.word)
  {
    FirmwareKeepsWord(sh, sh', pc);
    FirmwareKeepsWake(sh, sh', pc);
    FirmwareTouches(sh, sh', pc);
    hide *;
    SameInv(sh, pc);
    SameInv(sh', pc);
  }

  lemma HandlerKeeps(sh: Shared, sh': Shared, pc: ThreadPc)
    requires SharedInv(sh, pc) && HandlerStep(sh, sh')
    ensures SharedInv(sh', pc) && sh'.word == sh.word
  {
    hide Owned, Pending;
  }

  // ---- Runs ----

  /** The program counter of the thread that has the native mutex. */
  function Active(s: State): ThreadPc {
    if s.sh.native.Some? && s.sh.native.value < |s.threads| then s.threads[s.sh.native.value] else Outside
  }

  ghost predicate Inv(s: State) {
    && (forall t | 0 <= t < |s.threads| :: s.threads[t] != Outside ==> s.sh.native == Some(t))
    && (s.sh.native.Some? ==> s.sh.native.value < |s.threads|)
    && SharedInv(s.sh, Active(s))
  }

  lemma StepKeepsInv(s: State, s': State)
    requires Inv(s) && Next(s, s')
    ensures Inv(s') && Reserved(s'.sh.word) == Reserved(s.sh.word) && |s'.threads| == |s.threads|
  {
    if t: nat :| ThreadStep(s, s', t) {
      ThreadAlone(s, s', t);
      ThreadKeeps(s.sh, s.threads[t], t);
      hide SharedInv, ThreadMove;
    } else {
      assert Active(s') == Active(s);
      if FirmwareStep(s.sh, s'.sh) {
        FirmwareKeeps(s.sh, s'.sh, Active(s));
      } else if HandlerStep(s.sh, s'.sh) {
        HandlerKeeps(s.sh, s'.sh, Active(s));
      }
      hide FirmwareStep, HandlerStep, ThreadMove, Owned, Pending;
    }
  }

  /** A thread that moves has the native mutex or takes it, and is the one inside afterwards. */
  lemma ThreadAlone(s: State, s': State, t: nat)
    requires Inv(s) && ThreadStep(s, s', t)
    ensures s.sh.native == None || s.sh.native == Some(t)
    ensures s'.sh.native == None || s'.sh.native == Some(t)
    ensures Active(s) == s.threads[t] && Active(s') == s'.threads[t]
  {
    hide SpinlockOk, WordOk, AttemptsOk, WakeOk, FirmwareWakeOk, Owned, Pending, Acquiring, Releasing;
  }

  lemma {:induction false} RunKeepsInv(run: seq<State>, i: nat)
    requires Run(run) && i < |run|
    ensures Inv(run[i]) && Reserved(run[i].sh.word) == Reserved(run[0].sh.word)
  {
    if i > 0 {
      RunKeepsInv(run, i - 1);
      assert Next(run[i - 1], run[i - 1 + 1]);
      StepKeepsInv(run[i - 1], run[i]);
    }
  }

  /** At most one side has the lock, the word says who does, and an unowned word is never pending. */
  lemma OneOwner(run: seq<State>, i: nat, t: nat)
    requires Run(run) && i < |run| && t < |run[i].threads|
    ensures var s := run[i]; ThreadOwns(s.threads[t]) ==>
      && Owned(s.sh.word) && !FirmwareOwns(s.sh)
      && forall u | 0 <= u < |s.threads| && u != t :: s.threads[u] == Outside
    ensures FirmwareOwns(run[i].sh) ==> Owned(run[i].sh.word)
    ensures !Owned(run[i].sh.word) ==> !Pending(run[i].sh.word)
  {
    RunKeepsInv(run, i);
    hide Owned, Pending;
  }

  /** No wake-up is lost: a waiting thread's event is signalled, or what leads to it is under way. */
  lemma NoLostWakeup(run: seq<State>, i: nat, t: nat)
    requires Run(run) && i < |run| && t < |run[i].threads| && run[i].threads[t].Wait?
    ensures var sh := run[i].sh; (FirmwareOwns(sh) && Pending(sh.word)) || ReleaseOutstanding(sh) || sh.event > 0
  {
    RunKeepsInv(run, i);
    hide Owned, Pending;
  }

  /** Nor is one of the firmware's: the owner will see pending, or the notification is on its way. */
  lemma NoLostNotification(run: seq<State>, i: nat)
    requires Run(run) && i < |run| && run[i].sh.firmware.Waits?
    ensures var s := run[i];
      (s.sh.released
       || exists t: nat ::
            t < |s.threads| && (s.threads[t].Notify? || (ThreadOwns(s.threads[t]) && Pending(s.sh.word))))
  {
    RunKeepsInv(run, i);
    hide Owned, Pending;
    if !run[i].sh.released {
      assert Active(run[i]) == run[i].threads[run[i].sh.native.value];
    }
  }

  /** A thread spends at most 0xFFFF attempts, so its 16-bit counter never wraps. */
  lemma AttemptsBounded(run: seq<State>, i: nat, t: nat)
    requires Run(run) && i < |run| && t < |run[i].threads|
    ensures AttemptsOk(run[i].threads[t])
  {
    RunKeepsInv(run, i);
    hide Owned, Pending;
  }

  /** How many steps of the firmware and the handler lie before the event of a waiting thread. */
  function Distance(sh: Shared): nat {
    if sh.handler.Test? then 1
    else if sh.handler.Entered? then 2
    else if sh.status then (if sh.handler.Idle? then 3 else 4)
    else if sh.firmware.Signal? then 5
    else if sh.firmware.Drop? && sh.firmware.v == sh.word then 6
    else if sh.firmware.Drop? then 7
    else 8
  }

  /** While the event is not signalled, the handler or the firmware can take a step towards it. */
  lemma Nearer(sh: Shared, pc: ThreadPc) returns (sh': Shared)
    requires SharedInv(sh, pc) && pc.Wait? && sh.event == 0
    ensures OutsideStep(sh, sh') && SharedInv(sh', pc)
    ensures sh'.event > 0 || Distance(sh') < Distance(sh)
  {
    hide Owned, Pending, Acquiring, Releasing;
    if sh.handler.Test? {
      sh' := sh.(event := sh.event + 1, handler := Clear);
    } else if sh.handler.Entered? {
      sh' := sh.(spinlock := ByHandler, handler := Test);
    } else if sh.status {
      sh' := if sh.handler.Idle? then sh.(status := false, handler := Entered)
        else sh.(spinlock := Free, handler := Idle);
    } else if sh.firmware.Signal? {
      sh' := sh.(status := true, firmware := Away);
    } else if sh.firmware.Drop? && sh.firmware.v == sh.word {
      sh' := sh.(word := Releasing(sh.word), firmware := Signal);
    } else {
      sh' := sh.(firmware := Drop(sh.word));
    }
    if HandlerStep(sh, sh') { HandlerKeeps(sh, sh', pc); } else { FirmwareKeeps(sh, sh', pc); }
  }

  /** From every reachable state in which t waits, firmware and handler alone can wake it. */
  lemma {:induction false} WaiterCanBeWoken(s: State, t: nat) returns (path: seq<State>)
    requires Inv(s) && t < |s.threads| && s.threads[t].Wait?
    ensures path != [] && path[0] == s && path[|path| - 1].sh.event > 0
    ensures forall i | 0 <= i < |path| - 1 :: OutsideStep(path[i].sh, path[i + 1].sh)
    ensures forall i | 0 <= i < |path| :: path[i].threads == s.threads && Inv(path[i])
    decreases if s.sh.event > 0 then 0 else 1 + Distance(s.sh)
  {
    if s.sh.event > 0 {
      return [s];
    }
    var sh' := Nearer(s.sh, s.threads[t]);
    hide SharedInv, OutsideStep;
    var next := s.(sh := sh');
    var rest := WaiterCanBeWoken(next, t);
    path := [s] + rest;
  }

  // ---- Giving up, and getting there ----

  function PcAt(run: seq<State>, i: nat, t: nat): ThreadPc
    requires i < |run|
  {
    if t < |run[i].threads| then run[i].threads[t] else Outside
  }

  /** How often thread t has read the word anew in the acquire that it is in. */
  ghost function AttemptsMade(run: seq<State>, i: nat, t: nat): nat
    requires i < |run|
  {
    if i == 0 || PcAt(run, i, t) == Outside then 0
    else AttemptsMade(run, i - 1, t) + if PcAt(run, i - 1, t).Attempt? && PcAt(run, i, t).Swap? then 1 else 0
  }

  /** How often it has come back from waiting for the event. */
  ghost function WaitsMade(run: seq<State>, i: nat, t: nat): nat
    requires i < |run|
  {
    if i == 0 || PcAt(run, i, t) == Outside then 0
    else WaitsMade(run, i - 1, t) + if PcAt(run, i - 1, t).Wait? && PcAt(run, i, t).Lock? then 1 else 0
  }

  /** The counter is the number of attempts, and between two attempts the thread has waited once. */
  predicate Counted(pc: ThreadPc, attempts: nat, waits: nat) {
    match pc
    case Lock(k) => attempts == k && waits == k
    case Attempt(k) => attempts == k && waits == k
    case Swap(_, k) => attempts == k && waits + 1 == k
    case Flag(k) => attempts == k && waits + 1 == k
    case Unlock(k) => attempts == k && waits + 1 == k
    case Wait(k) => attempts == k && waits + 1 == k
    case GiveUp(k) => attempts == k && waits + 1 == k
    case GiveUpUnlock(k) => attempts == k && waits + 1 == k
    case _ => true
  }

  lemma {:induction false} AttemptsCounted(run: seq<State>, i: nat, t: nat)
    requires Run(run) && i < |run|
    ensures Counted(PcAt(run, i, t), AttemptsMade(run, i, t), WaitsMade(run, i, t))
  {
    hide Owned, Pending, Acquiring, Releasing;
    if i == 0 {
      assert Init(run[0]);
    } else {
      AttemptsCounted(run, i - 1, t);
      assert Next(run[i - 1], run[i - 1 + 1]);
      PcStep(run[i - 1], run[i], t);
      hide Next, ThreadMove, ThreadStep, Run;
      CountStep(PcAt(run, i - 1, t), PcAt(run, i, t), AttemptsMade(run, i - 1, t), WaitsMade(run, i - 1, t));
    }
  }

  /** A step leaves a thread where it is or is its own. */
  lemma PcStep(s: State, s': State, t: nat)
    requires Next(s, s')
    ensures |s'.threads| == |s.threads|
    ensures t < |s.threads| ==>
      || s'.threads[t] == s.threads[t]
      || (ThreadMove(s.sh, s.threads[t], t).Move? && s'.threads[t] == ThreadMove(s.sh, s.threads[t], t).pc)
  {
    hide ThreadMove, FirmwareStep, HandlerStep;
  }

  lemma CountStep(pc: ThreadPc, pc': ThreadPc, attempts: nat, waits: nat)
    requires Counted(pc, attempts, waits) && (pc == Outside ==> attempts == 0 && waits == 0)
    requires pc' == pc || exists sh: Shared, t: nat :: ThreadMove(sh, pc, t).Move? && pc' == ThreadMove(sh, pc, t).pc
    ensures pc' != Outside ==>
      Counted(pc', attempts + (if pc.Attempt? && pc'.Swap? then 1 else 0),
              waits + if pc.Wait? && pc'.Lock? then 1 else 0)
    ensures pc' == Outside ==> Counted(pc', 0, 0)
  {
    hide Owned, Pending, Acquiring, Releasing;
  }

  /** A thread that gives up has made exactly 0xFFFF attempts, and has waited between any two of them. */
  lemma GaveUp(run: seq<State>, i: nat, t: nat)
    requires Run(run) && i < |run| && t < |run[i].threads|
    requires run[i].threads[t].GiveUp? || run[i].threads[t].GiveUpUnlock?
    ensures AttemptsMade(run, i, t) == 0xFFFF && WaitsMade(run, i, t) == 0xFFFE
  {
    AttemptsCounted(run, i, t);
    AttemptsBounded(run, i, t);
    hide Run;
  }

  /** One that swaps over an owned word before that sets the pending flag, drops the spinlock and waits. */
  lemma ContentionWaits(sh: Shared, flagged: Shared, unlocked: Shared, v: Word, k: nat, t: nat)
    requires Owned(v) && sh.word == v && 0 < k < 0xFFFF
    ensures ThreadMove(sh, Swap(v, k), t) == Move(sh.(word := Acquiring(v)), Flag(k))
    ensures ThreadMove(flagged, Flag(k), t) == Move(flagged.(pending := true), Unlock(k))
    ensures ThreadMove(unlocked, Unlock(k), t) == Move(unlocked.(spinlock := Free), Wait(k))
  {
    hide Owned, Acquiring;
  }

  ghost predicate Path(path: seq<State>) {
    path != [] && forall i | 0 <= i < |path| - 1 :: Next(path[i], path[i + 1])
  }

  lemma PathsJoined(a: seq<State>, b: seq<State>)
    requires Path(a) && Path(b) && a[|a| - 1] == b[0]
    ensures Path(a + b[1..]) && (a + b[1..])[0] == a[0] && (a + b[1..])[|a + b[1..]| - 1] == b[|b| - 1]
  {
    hide Next;
    var c := a + b[1..];
    forall i | 0 <= i < |c| - 1 ensures Next(c[i], c[i + 1]) {
      if i < |a| - 1 {
        assert Next(a[i], a[i + 1]);
      } else {
        var j := i - (|a| - 1);
        assert Next(b[j], b[j + 1]);
        assert c[i] == b[j] && c[i + 1] == b[j + 1];
      }
    }
  }

  /** Steps until the handler has gone and the firmware does not own the word. */
  function Unsettled(sh: Shared): nat {
    (match sh.handler case Idle => 0 case Exit => 1 case Clear => 2 case Test => 3 case Entered => 4)
    + if sh.firmware.Holds? then 2 else if sh.firmware.Drop? then (if sh.firmware.v == sh.word then 1 else 2) else 0
  }

  /** The next step of the thread is towards an attempt: it can enter, or its event is signalled. */
  predicate MayTry(sh: Shared, pc: ThreadPc) {
    (pc.Outside? && sh.native == None) || (pc.Wait? && sh.event > 0)
  }

  lemma SettleStep(sh: Shared, pc: ThreadPc) returns (sh': Shared)
    requires SharedInv(sh, pc) && MayTry(sh, pc) && Unsettled(sh) > 0
    ensures OutsideStep(sh, sh') && SharedInv(sh', pc) && MayTry(sh', pc) && Unsettled(sh') < Unsettled(sh)
  {
    hide Owned, Pending, Acquiring, Releasing;
    if sh.handler.Entered? {
      sh' := sh.(spinlock := ByHandler, handler := Test);
    } else if sh.handler.Test? {
      sh' := sh.(handler := Exit);
    } else if sh.handler.Clear? {
      sh' := sh.(pending := false, handler := Exit);
    } else if sh.handler.Exit? {
      sh' := sh.(spinlock := Free, handler := Idle);
    } else if sh.firmware.Drop? && sh.firmware.v == sh.word {
      sh' := sh.(word := Releasing(sh.word), firmware := if Pending(sh.word) then Signal else Away);
    } else {
      sh' := sh.(firmware := Drop(sh.word));
    }
    if HandlerStep(sh, sh') { HandlerKeeps(sh, sh', pc); } else { FirmwareKeeps(sh, sh', pc); }
  }

  /** Firmware and handler can get out of a thread's way. */
  lemma {:induction false} CanSettle(s: State, t: nat) returns (path: seq<State>)
    requires Inv(s) && t < |s.threads| && MayTry(s.sh, s.threads[t])
    ensures Path(path) && path[0] == s
    ensures var last := path[|path| - 1];
      Inv(last) && last.threads == s.threads && MayTry(last.sh, last.threads[t]) && Unsettled(last.sh) == 0
    decreases Unsettled(s.sh)
  {
    path := [s];
    if Unsettled(s.sh) > 0 {
      assert Active(s) == s.threads[t];
      var sh' := SettleStep(s.sh, s.threads[t]);
      var next := s.(sh := sh');
      assert Next(s, next) && Active(next) == Active(s);
      hide SharedInv, OutsideStep, Next, Unsettled, MayTry;
      var rest := CanSettle(next, t);
      StepAdded(s, rest);
      path := [s] + rest;
    }
  }

  lemma StepAdded(s: State, rest: seq<State>)
    requires Path(rest) && Next(s, rest[0])
    ensures Path([s] + rest) && ([s] + rest)[0] == s && ([s] + rest)[|rest|] == rest[|rest| - 1]
  {
    hide Next;
    var path := [s] + rest;
    forall i | 0 <= i < |path| - 1 ensures Next(path[i], path[i + 1]) {
      if i > 0 { assert Next(rest[i - 1], rest[i - 1 + 1]); }
    }
  }

  lemma Turn(s: State, t: nat) returns (s': State)
    requires t < |s.threads| && ThreadMove(s.sh, s.threads[t], t).Move?
    ensures var m := ThreadMove(s.sh, s.threads[t], t); s' == State(m.sh, s.threads[t := m.pc])
    ensures Next(s, s')
  {
    var m := ThreadMove(s.sh, s.threads[t], t);
    s' := State(m.sh, s.threads[t := m.pc]);
    hide ThreadMove;
    assert ThreadStep(s, s', t);
  }

  /** Then the thread's next six steps end with the lock. */
  lemma TakesLock(s: State, t: nat) returns (path: seq<State>)
    requires Inv(s) && t < |s.threads| && MayTry(s.sh, s.threads[t]) && Unsettled(s.sh) == 0
    ensures Path(path) && path[0] == s
    ensures var last := path[|path| - 1]; last.threads == s.threads[t := Owner] && Owned(last.sh.word)
  {
    ReadyToTry(s, t);
    hide Inv, Unsettled, Owned, Pending, Next;
    var a := Turn(s, t);
    var rest := FromLock(a, t);
    assert s.threads[t := a.threads[t]][t := Owner] == s.threads[t := Owner];
    StepAdded(s, rest);
    path := [s] + rest;
  }

  lemma ReadyToTry(s: State, t: nat)
    requires Inv(s) && t < |s.threads| && MayTry(s.sh, s.threads[t]) && Unsettled(s.sh) == 0
    ensures s.sh.spinlock == Free && !Owned(s.sh.word)
  {
    assert Active(s) == s.threads[t];
    hide Owned, Pending;
  }

  lemma FromLock(s: State, t: nat) returns (path: seq<State>)
    requires t < |s.threads| && s.threads[t].Lock? && s.sh.spinlock == Free && !Owned(s.sh.word)
    ensures Path(path) && path[0] == s
    ensures var last := path[|path| - 1]; last.threads == s.threads[t := Owner] && Owned(last.sh.word)
  {
    WordBits(s.sh.word);
    hide Owned, Pending, Acquiring, Releasing, Next;
    var b := Turn(s, t);
    var c := Turn(b, t);
    var d := Turn(c, t);
    var e := Turn(d, t);
    var f := Turn(e, t);
    assert f.threads == s.threads[t := Owner];
    path := [s, b, c, d, e, f];
  }

  /** From every reachable state in which t waits, some way leads to its owning the lock. */
  lemma WaiterCanOwn(s: State, t: nat) returns (path: seq<State>)
    requires Inv(s) && t < |s.threads| && s.threads[t].Wait?
    ensures Path(path) && path[0] == s
    ensures var last := path[|path| - 1]; last.threads == s.threads[t := Owner] && Owned(last.sh.word)
  {
    var woken := WaiterCanBeWoken(s, t);
    assert Path(woken) by {
      forall i | 0 <= i < |woken| - 1 ensures Next(woken[i], woken[i + 1]) {
        assert OutsideStep(woken[i].sh, woken[i + 1].sh);
      }
    }
    assert MayTry(woken[|woken| - 1].sh, s.threads[t]);
    hide Inv, Next, OutsideStep, MayTry, Owned;
    var taken := CanOwn(woken[|woken| - 1], t);
    PathsJoined(woken, taken);
    path := woken + taken[1..];
  }

  lemma CanOwn(s: State, t: nat) returns (path: seq<State>)
    requires Inv(s) && t < |s.threads| && MayTry(s.sh, s.threads[t])
    ensures Path(path) && path[0] == s
    ensures var last := path[|path| - 1]; last.threads == s.threads[t := Owner] && Owned(last.sh.word)
  {
    hide Inv, Next, Unsettled, MayTry, Owned;
    var settled := CanSettle(s, t);
    var taken := TakesLock(settled[|settled| - 1], t);
    PathsJoined(settled, taken);
    path := settled + taken[1..];
  }

  /** So can every thread that is outside while no other one is inside. */
  lemma OutsiderCanOwn(s: State, t: nat) returns (path: seq<State>)
    requires Inv(s) && t < |s.threads| && s.sh.native == None
    ensures Path(path) && path[0] == s
    ensures var last := path[|path| - 1]; last.threads == s.threads[t := Owner] && Owned(last.sh.word)
  {
    assert s.threads[t] == Outside && MayTry(s.sh, s.threads[t]);
    hide *;
    path := CanOwn(s, t);
  }

  /** Left alone, an owner gives the word back in four or five steps, and writes GBL_RLS exactly if it was pending. */
  lemma OwnerReleases(s: State, t: nat) returns (path: seq<State>)
    requires t < |s.threads| && s.threads[t] == Owner
    ensures Path(path) && path[0] == s
    ensures var last := path[|path| - 1];
      && last.threads == s.threads[t := Outside] && last.sh.native == None
      && !Owned(last.sh.word) && !Pending(last.sh.word)
      && last.sh.released == (s.sh.released || Pending(s.sh.word))
  {
    WordBits(s.sh.word);
    hide Owned, Pending, Acquiring, Releasing, Next;
    var a := Turn(s, t);
    var b := Turn(a, t);
    var c := Turn(b, t);
    var d := Turn(c, t);
    path := [s, a, b, c, d];
    if Pending(s.sh.word) {
      var e := Turn(d, t);
      path := path + [e];
    }
    assert path[|path| - 1].threads == s.threads[t := Outside];
  }
}
