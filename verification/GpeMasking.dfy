/**
 Masking a general purpose event (section 5.6.4 of the ACPI specification, version 6.5) against
 interrupt handlers and deferred work that read, change and write back the same enable register.
 One caller has the event lock; any number of handlers run beside it, in any order of atomic steps.
*/
module GpeMasking {
  import opened Options

  /** The bits of one register, as the set of the positions that are 1. */
  type Mask = set<nat>

  datatype GpeState = Enabled | Conditionally | Disabled

  /** Where an agent is in set_gpe_state; Out and Busy are outside of it. */
  datatype Pc =
    | Out                                        // not in flight
    | Busy                                       // in flight, between two calls
    | Check(e: nat, to: GpeState)                // about to look at masked_mask
    | CheckCurrent(e: nat)                       // about to look at current_mask
    | TakeLock(e: nat, on: bool)
    | Read(e: nat, on: bool)
    | Write(e: nat, on: bool, value: Mask)
    | Unlock

  /** What the caller with the event lock is doing. */
  datatype CallerPc =
    | Free
    | Flush(e: nat)          // has set the masked bit, about to wait for what is in flight
    | Flushing(e: nat)
    | Disabling(e: nat)      // in set_gpe_state(e, DISABLED)
    | Settling(e: nat)       // waits for the last interrupt

  datatype Shared = Shared(
    enable: Mask,            // the hardware register
    masked: Mask,
    current: Mask,
    runtime: Mask,
    spinlock: Option<nat>,
    caller: CallerPc,
    waiting: set<nat>,       // agents that were in flight when the wait began and still are
    // bookkeeping of the proof: past the first wait, and past the write of the disable step
    closed: set<nat>,
    settled: set<nat>
  )

  /** Agent 0 is the caller, the others are handlers and deferred work. */
  datatype State = State(sh: Shared, agents: seq<Pc>)

  ghost predicate Init(s: State) {
    && |s.agents| > 0 && s.agents[0] == Busy && (forall a | 0 < a < |s.agents| :: s.agents[a] == Out)
    && s.sh.spinlock == None && s.sh.caller == Free && s.sh.closed == {} && s.sh.settled == {}
  }

  /** One step inside set_gpe_state by agent a. A failed register access leaves without the write. */
  ghost predicate Call(a: nat, sh: Shared, pc: Pc, sh': Shared, pc': Pc) {
    match pc
    case Out => false
    case Busy => false
    case Check(e, to) =>
      && sh' == sh
      && pc' == (if to == Disabled then TakeLock(e, false) else if e in sh.masked then Busy
                 else if to == Enabled then TakeLock(e, true) else CheckCurrent(e))
    case CheckCurrent(e) => sh' == sh && pc' == (if e in sh.current then TakeLock(e, true) else Busy)
    case TakeLock(e, on) => sh.spinlock == None && sh' == sh.(spinlock := Some(a)) && pc' == Read(e, on)
    case Read(e, on) =>
      && sh' == sh
      && (pc' == Write(e, on, if on then sh.enable + {e} else sh.enable - {e})
          || (pc' == Unlock && !(a == 0 && sh.caller.Disabling?)))
    case Write(e, on, value) =>
      && pc' == Unlock
      && (if a == 0 && sh.caller == Disabling(e) then sh' == sh.(enable := value, settled := sh.settled + {e})
          else sh' == sh.(enable := value) || sh' == sh)
    case Unlock => sh' == sh.(spinlock := None) && pc' == Busy
  }

  /** A handler starts, calls set_gpe_state on any event with any state, and finishes. */
  ghost predicate HandlerMove(a: nat, sh: Shared, pc: Pc, sh': Shared, pc': Pc) {
    || (pc == Out && sh' == sh && pc' == Busy)
    || (pc == Busy && sh' == sh && pc'.Check?)
    || (pc == Busy && sh' == sh.(waiting := sh.waiting - {a}) && pc' == Out)
    || Call(a, sh, pc, sh', pc')
  }

  /** What the block actions write: nothing, or the runtime events that are not masked. */
  ghost predicate BlockAction(sh: Shared, sh': Shared) {
    exists value: Mask :: (value == {} || value == sh.runtime - sh.masked)
      && (sh' == sh.(current := value, enable := value) || sh' == sh.(current := value))
  }

  ghost predicate CallerMove(inFlight: set<nat>, sh: Shared, pc: Pc, sh': Shared, pc': Pc) {
    if pc != Busy then Call(0, sh, pc, sh', pc')
    else match sh.caller
      case Free =>
        || (sh' == sh && pc'.Check?)                                                         // users, suspend, resume
        || (pc' == Busy && exists r: Mask, c: Mask :: sh' == sh.(runtime := r, current := c))  // toggled masks
        || (pc' == Busy && BlockAction(sh, sh'))
        || (pc' == Busy && exists e: nat ::
              e !in sh.masked && sh' == sh.(masked := sh.masked + {e}, caller := Flush(e)))
        || Unmask(sh, sh', pc')
      case Flush(e) => pc' == Busy && sh' == sh.(waiting := inFlight, caller := Flushing(e))
      case Flushing(e) =>
        sh.waiting == {} && pc' == Check(e, Disabled) && sh' == sh.(caller := Disabling(e), closed := sh.closed + {e})
      case Disabling(e) => pc' == Busy && sh' == sh.(waiting := inFlight, caller := Settling(e))
      case Settling(e) => sh.waiting == {} && pc' == Busy && sh' == sh.(caller := Free)
  }

  ghost predicate Unmask(sh: Shared, sh': Shared, pc': Pc) {
    exists e: nat :: e in sh.masked && (pc' == Busy || pc' == Check(e, Conditionally))
      && sh' == sh.(masked := sh.masked - {e}, closed := sh.closed - {e}, settled := sh.settled - {e})
  }

  function InFlight(agents: seq<Pc>): set<nat> {
    set a: nat | a < |agents| && a > 0 && agents[a] != Out
  }

  ghost predicate StepBy(s: State, s': State, a: nat, pc: Pc) {
    && a < |s.agents| && s'.agents == s.agents[a := pc]
    && if a == 0 then CallerMove(InFlight(s.agents), s.sh, s.agents[0], s'.sh, pc)
       else HandlerMove(a, s.sh, s.agents[a], s'.sh, pc)
  }

  ghost predicate Next(s: State, s': State) {
    exists a: nat, pc: Pc :: StepBy(s, s', a, pc)
  }

  ghost predicate Run(run: seq<State>) {
    run != [] && Init(run[0]) && forall i | 0 <= i < |run| - 1 :: Next(run[i], run[i + 1])
  }

  // ---- The invariant ----

  /** The agent has seen the event unmasked and may still enable it. */
  predicate PastCheck(pc: Pc, e: nat) {
    pc == CheckCurrent(e) || pc == TakeLock(e, true) || pc == Read(e, true) || (pc.Write? && pc.e == e && pc.on)
  }

  predicate CallerOk(sh: Shared, pc: Pc) {
    && sh.settled <= sh.closed <= sh.masked && pc != Out
    && sh.settled !! sh.enable
    && match sh.caller
       case Free => true
       case Flush(e) => pc == Busy && e in sh.masked
       case Flushing(e) => pc == Busy && e in sh.masked
       case Settling(e) => pc == Busy && e in sh.settled
       case Disabling(e) =>
         && e in sh.closed
         && (pc == Check(e, Disabled) || pc == TakeLock(e, false) || pc == Read(e, false)
             || (pc.Write? && pc.e == e && !pc.on && e !in pc.value)
             || (e in sh.settled && (pc == Unlock || pc == Busy)))
  }

  ghost predicate AgentOk(a: nat, sh: Shared, pc: Pc) {
    && (sh.spinlock == Some(a) <==> pc.Read? || pc.Write? || pc.Unlock?)
    && (forall e | e in sh.closed :: !PastCheck(pc, e))
    && (pc.Write? ==> sh.settled !! pc.value)
    && (sh.caller.Flushing? && PastCheck(pc, sh.caller.e) ==> a in sh.waiting)
  }

  ghost predicate Inv(s: State) {
    && |s.agents| > 0 && CallerOk(s.sh, s.agents[0])
    && (s.sh.spinlock.Some? ==> s.sh.spinlock.value < |s.agents|)
    && forall a | 0 <= a < |s.agents| :: AgentOk(a, s.sh, s.agents[a])
  }

  lemma CallKeeps(a: nat, sh: Shared, pc: Pc, sh': Shared, pc': Pc, caller: Pc)
    requires AgentOk(a, sh, pc) && CallerOk(sh, caller) && Call(a, sh, pc, sh', pc') && (a == 0 ==> caller == pc)
    ensures AgentOk(a, sh', pc') && CallerOk(sh', if a == 0 then pc' else caller)
  {
  }

  lemma HandlerKeeps(a: nat, sh: Shared, pc: Pc, sh': Shared, pc': Pc, caller: Pc)
    requires a > 0 && AgentOk(a, sh, pc) && CallerOk(sh, caller) && HandlerMove(a, sh, pc, sh', pc')
    ensures AgentOk(a, sh', pc') && CallerOk(sh', caller)
  {
    if Call(a, sh, pc, sh', pc') { CallKeeps(a, sh, pc, sh', pc', caller); }
  }

  lemma CallerKeeps(inFlight: set<nat>, sh: Shared, pc: Pc, sh': Shared, pc': Pc)
    requires AgentOk(0, sh, pc) && CallerOk(sh, pc) && CallerMove(inFlight, sh, pc, sh', pc')
    ensures AgentOk(0, sh', pc') && CallerOk(sh', pc')
  {
    if pc != Busy { CallKeeps(0, sh, pc, sh', pc', pc); }
  }

  /** The step of one agent keeps what is known of another, b. */
  lemma OtherKeeps(a: nat, b: nat, sh: Shared, pc: Pc, sh': Shared, pc': Pc, other: Pc)
    requires a != b && AgentOk(a, sh, pc) && AgentOk(b, sh, other) && HandlerMove(a, sh, pc, sh', pc')
    ensures AgentOk(b, sh', other)
  {
  }

  lemma OtherKeepsUnderCaller(inFlight: set<nat>, b: nat, sh: Shared, pc: Pc, sh': Shared, pc': Pc, other: Pc)
    requires b != 0 && AgentOk(0, sh, pc) && AgentOk(b, sh, other) && CallerMove(inFlight, sh, pc, sh', pc')
    requires CallerOk(sh, pc) && (b in inFlight <==> other != Out)
    ensures AgentOk(b, sh', other)
  {
  }

  lemma StepKeepsInv(s: State, s': State)
    requires Inv(s) && Next(s, s')
    ensures Inv(s') && forall e | e in s.sh.settled && e in s'.sh.masked :: e in s'.sh.settled
  {
    var a: nat, pc: Pc :| StepBy(s, s', a, pc);
    assert AgentOk(a, s.sh, s.agents[a]);
    StaysSettled(InFlight(s.agents), a, s.sh, s.agents[a], s'.sh, pc);
    hide CallerMove, HandlerMove, CallerOk, AgentOk, Call;
    if a == 0 {
      CallerKeeps(InFlight(s.agents), s.sh, s.agents[0], s'.sh, pc);
    } else {
      HandlerKeeps(a, s.sh, s.agents[a], s'.sh, pc, s.agents[0]);
    }
    forall b | 0 <= b < |s.agents| ensures AgentOk(b, s'.sh, s'.agents[b]) {
      if b != a {
        if a == 0 {
          OtherKeepsUnderCaller(InFlight(s.agents), b, s.sh, s.agents[0], s'.sh, pc, s.agents[b]);
        } else {
          OtherKeeps(a, b, s.sh, s.agents[a], s'.sh, pc, s.agents[b]);
        }
      }
    }
  }

  /** Only unmasking ends the settled state of an event, and an agent takes the spinlock for itself. */
  lemma StaysSettled(inFlight: set<nat>, a: nat, sh: Shared, pc: Pc, sh': Shared, pc': Pc)
    requires if a == 0 then CallerMove(inFlight, sh, pc, sh', pc') else HandlerMove(a, sh, pc, sh', pc')
    ensures forall e | e in sh.settled && e in sh'.masked :: e in sh'.settled
    ensures sh'.spinlock == sh.spinlock || sh'.spinlock == None || sh'.spinlock == Some(a)
  {
  }

  lemma {:induction false} RunKeepsInv(run: seq<State>, i: nat)
    requires Run(run) && i < |run|
    ensures Inv(run[i])
  {
    if i > 0 {
      RunKeepsInv(run, i - 1);
      assert Next(run[i - 1], run[i - 1 + 1]);
      StepKeepsInv(run[i - 1], run[i]);
    }
  }

  /**
   Once the disable step of masking e is over, its hardware enable bit is 0 for as long as e stays
   masked, whatever handlers, deferred work and later calls do with the register.
  */
  lemma {:induction false} MaskedStaysDisabled(run: seq<State>, i: nat, j: nat, e: nat)
    requires Run(run) && i <= j < |run| && run[i].sh.caller == Settling(e)
    requires forall k | i <= k <= j :: e in run[k].sh.masked
    ensures e in run[j].sh.settled && e !in run[j].sh.enable
    decreases j
  {
    RunKeepsInv(run, j);
    if i < j {
      MaskedStaysDisabled(run, i, j - 1, e);
      RunKeepsInv(run, j - 1);
      assert Next(run[j - 1], run[j - 1 + 1]);
      StepKeepsInv(run[j - 1], run[j]);
    }
  }

  /** The enable register is read, changed and written back by one agent at a time. */
  lemma OneAtTheRegister(run: seq<State>, i: nat, a: nat, b: nat)
    requires Run(run) && i < |run| && a < |run[i].agents| && b < |run[i].agents| && a != b
    ensures run[i].agents[a].Write? ==> !run[i].agents[b].Read? && !run[i].agents[b].Write?
  {
    RunKeepsInv(run, i);
    assert AgentOk(a, run[i].sh, run[i].agents[a]) && AgentOk(b, run[i].sh, run[i].agents[b]);
  }

  // ---- Masking comes to its end ----

  ghost predicate Path(path: seq<State>) {
    path != [] && forall i | 0 <= i < |path| - 1 :: Next(path[i], path[i + 1])
  }

  /** Consecutive moves of agent a alone. */
  ghost predicate Solo(a: nat, inFlight: set<nat>, trace: seq<(Shared, Pc)>) {
    && trace != []
    && forall i | 0 <= i < |trace| - 1 :: SoloMove(a, inFlight, trace[i], trace[i + 1])
  }

  ghost predicate SoloMove(a: nat, inFlight: set<nat>, x: (Shared, Pc), y: (Shared, Pc)) {
    if a == 0 then CallerMove(inFlight, x.0, x.1, y.0, y.1) else HandlerMove(a, x.0, x.1, y.0, y.1)
  }

  lemma Start(a: nat, inFlight: set<nat>, sh: Shared, pc: Pc) returns (trace: seq<(Shared, Pc)>)
    ensures trace == [(sh, pc)] && Solo(a, inFlight, trace)
  {
    trace := [(sh, pc)];
  }

  lemma More(a: nat, inFlight: set<nat>, trace: seq<(Shared, Pc)>, sh: Shared, pc: Pc)
    returns (more: seq<(Shared, Pc)>)
    requires Solo(a, inFlight, trace) && SoloMove(a, inFlight, trace[|trace| - 1], (sh, pc))
    ensures Solo(a, inFlight, more) && more != [] && more[0] == trace[0] && more[|more| - 1] == (sh, pc)
  {
    hide SoloMove;
    more := trace + [(sh, pc)];
  }

  lemma SoloPath(s: State, a: nat, trace: seq<(Shared, Pc)>) returns (path: seq<State>)
    requires a < |s.agents| && Solo(a, InFlight(s.agents), trace) && trace[0] == (s.sh, s.agents[a])
    ensures Path(path) && path[0] == s
    ensures var last := trace[|trace| - 1]; path[|path| - 1] == State(last.0, s.agents[a := last.1])
  {
    path := seq(|trace|, i requires 0 <= i < |trace| => State(trace[i].0, s.agents[a := trace[i].1]));
    forall i | 0 <= i < |path| - 1 ensures Next(path[i], path[i + 1]) {
      var pc := trace[i + 1].1;
      assert SoloMove(a, InFlight(s.agents), trace[i], trace[i + 1]);
      assert path[i + 1].agents == path[i].agents[a := pc];
      assert a == 0 ==> InFlight(path[i].agents) == InFlight(s.agents);
      hide CallerMove, HandlerMove, InFlight;
      assert StepBy(path[i], path[i + 1], a, pc);
    }
  }

  lemma PathsJoined(x: seq<State>, y: seq<State>)
    requires Path(x) && Path(y) && x[|x| - 1] == y[0]
    ensures Path(x + y[1..]) && (x + y[1..])[0] == x[0] && (x + y[1..])[|x + y[1..]| - 1] == y[|y| - 1]
  {
    hide Next;
    var z := x + y[1..];
    forall i | 0 <= i < |z| - 1 ensures Next(z[i], z[i + 1]) {
      if i < |x| - 1 {
        assert Next(x[i], x[i + 1]);
      } else {
        var j := i - (|x| - 1);
        assert Next(y[j], y[j + 1]);
        assert z[i] == y[j] && z[i + 1] == y[j + 1];
      }
    }
  }

  /** The agent has the spinlock. */
  predicate HasSpinlock(pc: Pc) { pc.Read? || pc.Write? || pc.Unlock? }

  /** Steps until a handler is out of flight, its register accesses failing. */
  function StepsOut(pc: Pc): nat {
    match pc
    case Out => 0
    case Busy => 1
    case Unlock => 2
    case Write(_, _, _) => 3
    case Read(_, _) => 3
    case TakeLock(_, _) => 4
    case CheckCurrent(_) => 5
    case Check(_, _) => 6
  }

  lemma {:induction false} HandlerFinishes(a: nat, inFlight: set<nat>, sh: Shared, pc: Pc)
    returns (trace: seq<(Shared, Pc)>)
    requires a > 0 && sh.spinlock == if HasSpinlock(pc) then Some(a) else None
    ensures Solo(a, inFlight, trace) && trace[0] == (sh, pc)
    ensures var last := trace[|trace| - 1];
      last == (sh.(spinlock := None, waiting := if pc == Out then sh.waiting else sh.waiting - {a}), Out)
    decreases StepsOut(pc)
  {
    if pc == Out {
      trace := [(sh, pc)];
    } else {
      var next: (Shared, Pc) :=
        match pc
        case Busy => (sh.(waiting := sh.waiting - {a}), Out)
        case Unlock => (sh.(spinlock := None), Busy)
        case Write(_, _, _) => (sh, Unlock)
        case Read(_, _) => (sh, Unlock)
        case TakeLock(e, on) => (sh.(spinlock := Some(a)), Read(e, on))
        case CheckCurrent(e) => (sh, if e in sh.current then TakeLock(e, true) else Busy)
        case Check(e, to) => (sh, if to == Disabled then TakeLock(e, false) else if e in sh.masked then Busy
                                  else if to == Enabled then TakeLock(e, true) else CheckCurrent(e));
      assert SoloMove(a, inFlight, (sh, pc), next);
      var rest := HandlerFinishes(a, inFlight, next.0, next.1);
      hide SoloMove;
      trace := [(sh, pc)] + rest;
    }
  }

  /** What handlers that only finish leave alone. */
  predicate SameRegister(sh: Shared, sh': Shared) {
    sh' == sh.(spinlock := sh'.spinlock, waiting := sh'.waiting)
  }

  /** The handlers from number k on are out of flight. */
  predicate OutFrom(agents: seq<Pc>, k: nat) {
    forall a | k <= a < |agents| :: agents[a] == Out
  }

  lemma HandlerLeaves(s: State, a: nat) returns (path: seq<State>)
    requires 0 < a < |s.agents| && s.sh.spinlock == if HasSpinlock(s.agents[a]) then Some(a) else None
    ensures Path(path) && path[0] == s
    ensures var last := path[|path| - 1];
      last.agents == s.agents[a := Out] && SameRegister(s.sh, last.sh) && last.sh.spinlock == None
  {
    var trace := HandlerFinishes(a, InFlight(s.agents), s.sh, s.agents[a]);
    hide Solo, HasSpinlock;
    path := SoloPath(s, a, trace);
  }

  /** All handlers can leave while the caller does nothing, first the one that has the spinlock. */
  lemma {:induction false} HandlersLeave(s: State, k: nat) returns (path: seq<State>)
    requires 0 < k <= |s.agents| && OutFrom(s.agents, k) && s.sh.spinlock == None
    requires forall a | 0 < a < k :: !HasSpinlock(s.agents[a])
    ensures Path(path) && path[0] == s
    ensures var last := path[|path| - 1];
      && |last.agents| == |s.agents| && last.agents[0] == s.agents[0] && OutFrom(last.agents, 1)
      && SameRegister(s.sh, last.sh) && last.sh.spinlock == None
    decreases k
  {
    if k == 1 {
      path := [s];
    } else {
      var first := HandlerLeaves(s, k - 1);
      var next := first[|first| - 1];
      hide Path, HasSpinlock;
      var rest := HandlersLeave(next, k - 1);
      PathsJoined(first, rest);
      path := first + rest[1..];
    }
  }

  lemma HolderIsInside(s: State)
    requires Inv(s)
    ensures s.sh.spinlock.Some? ==> HasSpinlock(s.agents[s.sh.spinlock.value])
  {
  }

  /** While the caller is between two steps, everything in flight can finish and leave. */
  lemma CanQuiesce(s: State) returns (path: seq<State>)
    requires Inv(s) && s.agents[0] == Busy
    ensures Path(path) && path[0] == s
    ensures var last := path[|path| - 1];
      && |last.agents| == |s.agents| && last.agents[0] == Busy && OutFrom(last.agents, 1)
      && SameRegister(s.sh, last.sh) && last.sh.spinlock == None
  {
    assert forall a | 0 <= a < |s.agents| :: AgentOk(a, s.sh, s.agents[a]);
    var first := [s];
    var next := s;
    if b: nat :| 0 < b < |s.agents| && HasSpinlock(s.agents[b]) {
      assert AgentOk(b, s.sh, s.agents[b]);
      first := HandlerLeaves(s, b);
      next := first[|first| - 1];
      forall a | 0 < a < |s.agents| ensures !HasSpinlock(next.agents[a]) {
        assert AgentOk(a, s.sh, s.agents[a]);
      }
    } else {
      HolderIsInside(s);
    }
    hide Inv, AgentOk, Path, HasSpinlock;
    var rest := HandlersLeave(next, |next.agents|);
    PathsJoined(first, rest);
    path := first + rest[1..];
  }

  /** The caller's steps through set_gpe_state, with the registers answering. */
  lemma CallSucceeds(trace: seq<(Shared, Pc)>, e: nat, on: bool) returns (more: seq<(Shared, Pc)>)
    requires Solo(0, {}, trace) && trace[|trace| - 1].1 == TakeLock(e, on)
    requires trace[|trace| - 1].0.spinlock == None
    requires trace[|trace| - 1].0.caller == if on then Free else Disabling(e)
    ensures Solo(0, {}, more) && more != [] && more[0] == trace[0]
    ensures var sh := trace[|trace| - 1].0;
      more[|more| - 1] == (if on then sh.(enable := sh.enable + {e})
                           else sh.(enable := sh.enable - {e}, settled := sh.settled + {e}), Busy)
  {
    var sh := trace[|trace| - 1].0;
    var value := if on then sh.enable + {e} else sh.enable - {e};
    var written := if on then sh.(enable := value) else sh.(enable := value, settled := sh.settled + {e});
    hide Solo;
    more := More(0, {}, trace, sh.(spinlock := Some(0)), Read(e, on));
    more := More(0, {}, more, sh.(spinlock := Some(0)), Write(e, on, value));
    more := More(0, {}, more, written.(spinlock := Some(0)), Unlock);
    more := More(0, {}, more, written, Busy);
  }

  lemma MaskAlone(sh: Shared, e: nat) returns (trace: seq<(Shared, Pc)>)
    requires sh.caller == Free && sh.spinlock == None && e !in sh.masked
    ensures Solo(0, {}, trace) && trace != [] && trace[0] == (sh, Busy)
    ensures var last := trace[|trace| - 1].0;
      && trace[|trace| - 1].1 == Busy && last.caller == Free && e in last.settled
      && last.masked == sh.masked + {e} && last.enable == sh.enable - {e}
      && last.current == sh.current && last.runtime == sh.runtime
  {
    var masked := sh.(masked := sh.masked + {e}, caller := Flush(e));
    var disabling := masked.(waiting := {}, caller := Disabling(e), closed := sh.closed + {e});
    hide Solo;
    trace := Start(0, {}, sh, Busy);
    trace := More(0, {}, trace, masked, Busy);
    trace := More(0, {}, trace, masked.(waiting := {}, caller := Flushing(e)), Busy);
    trace := More(0, {}, trace, disabling, Check(e, Disabled));
    trace := More(0, {}, trace, disabling, TakeLock(e, false));
    trace := CallSucceeds(trace, e, false);
    var disabled := trace[|trace| - 1].0;
    trace := More(0, {}, trace, disabled.(waiting := {}, caller := Settling(e)), Busy);
    trace := More(0, {}, trace, disabled.(waiting := {}, caller := Free), Busy);
  }

  lemma EnableAlone(sh: Shared, e: nat) returns (trace: seq<(Shared, Pc)>)
    requires sh.caller == Free && sh.spinlock == None && e !in sh.masked
    ensures Solo(0, {}, trace) && trace != [] && trace[0] == (sh, Busy)
    ensures trace[|trace| - 1] == (sh.(enable := sh.enable + {e}), Busy)
  {
    hide Solo;
    trace := Start(0, {}, sh, Busy);
    trace := More(0, {}, trace, sh, Check(e, Enabled));
    trace := More(0, {}, trace, sh, TakeLock(e, true));
    trace := CallSucceeds(trace, e, true);
  }

  /**
   Masking can always come to its end: whatever is in flight, there is a way to the caller free again,
   with e masked, its enable bit 0 and settled, and all other bits of the register as they were.
  */
  lemma MaskingCompletes(s: State, e: nat) returns (path: seq<State>)
    requires Inv(s) && s.agents[0] == Busy && s.sh.caller == Free && e !in s.sh.masked
    ensures Path(path) && path[0] == s
    ensures var last := path[|path| - 1];
      && last.agents != [] && last.agents[0] == Busy && last.sh.caller == Free && e in last.sh.settled
      && last.sh.masked == s.sh.masked + {e} && last.sh.enable == s.sh.enable - {e}
      && last.sh.current == s.sh.current && last.sh.runtime == s.sh.runtime
  {
    assert |s.agents| > 0;
    hide Inv;
    var first := CanQuiesce(s);
    var quiet := first[|first| - 1];
    assert InFlight(quiet.agents) == {};
    hide Path, InFlight, Solo;
    var trace := MaskAlone(quiet.sh, e);
    var rest := SoloPath(quiet, 0, trace);
    PathsJoined(first, rest);
    path := first + rest[1..];
  }

  /** And an event that is not masked can always be turned on. */
  lemma EnablingCompletes(s: State, e: nat) returns (path: seq<State>)
    requires Inv(s) && s.agents[0] == Busy && s.sh.caller == Free && e !in s.sh.masked
    ensures Path(path) && path[0] == s
    ensures var last := path[|path| - 1];
      && last.agents != [] && last.agents[0] == Busy && last.sh.caller == Free
      && last.sh.masked == s.sh.masked && last.sh.enable == s.sh.enable + {e}
      && last.sh.current == s.sh.current && last.sh.runtime == s.sh.runtime
  {
    assert |s.agents| > 0;
    hide Inv;
    var first := CanQuiesce(s);
    var quiet := first[|first| - 1];
    assert InFlight(quiet.agents) == {};
    hide Path, InFlight, Solo;
    var trace := EnableAlone(quiet.sh, e);
    var rest := SoloPath(quiet, 0, trace);
    PathsJoined(first, rest);
    path := first + rest[1..];
  }

  lemma UnmaskAlone(sh: Shared, e: nat) returns (trace: seq<(Shared, Pc)>)
    requires sh.caller == Free && sh.spinlock == None && e in sh.masked
    ensures Solo(0, {}, trace) && trace != [] && trace[0] == (sh, Busy)
    ensures trace[|trace| - 1]
         == (sh.(masked := sh.masked - {e}, closed := sh.closed - {e}, settled := sh.settled - {e},
                 enable := if e in sh.current then sh.enable + {e} else sh.enable), Busy)
  {
    var unmasked := sh.(masked := sh.masked - {e}, closed := sh.closed - {e}, settled := sh.settled - {e});
    hide Solo;
    trace := Start(0, {}, sh, Busy);
    assert Unmask(sh, unmasked, Check(e, Conditionally));
    trace := More(0, {}, trace, unmasked, Check(e, Conditionally));
    trace := More(0, {}, trace, unmasked, CheckCurrent(e));
    if e in sh.current {
      trace := More(0, {}, trace, unmasked, TakeLock(e, true));
      trace := CallSucceeds(trace, e, true);
    } else {
      trace := More(0, {}, trace, unmasked, Busy);
    }
  }

  /** A mask can always be taken off, and a current event is then enabled. */
  lemma UnmaskingCompletes(s: State, e: nat) returns (path: seq<State>)
    requires Inv(s) && s.agents[0] == Busy && s.sh.caller == Free && e in s.sh.masked
    ensures Path(path) && path[0] == s
    ensures var last := path[|path| - 1];
      && last.agents != [] && last.agents[0] == Busy && last.sh.caller == Free
      && last.sh.masked == s.sh.masked - {e}
      && last.sh.enable == (if e in s.sh.current then s.sh.enable + {e} else s.sh.enable)
      && last.sh.current == s.sh.current && last.sh.runtime == s.sh.runtime
  {
    assert |s.agents| > 0;
    hide Inv;
    var first := CanQuiesce(s);
    var quiet := first[|first| - 1];
    assert InFlight(quiet.agents) == {};
    hide Path, InFlight, Solo;
    var trace := UnmaskAlone(quiet.sh, e);
    var rest := SoloPath(quiet, 0, trace);
    PathsJoined(first, rest);
    path := first + rest[1..];
  }
}
