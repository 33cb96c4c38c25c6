/**
 Recursive locks and AML mutexes: an owner and a depth behind a native mutex, the owner read
 without it. Any number of threads take atomic steps in any order.
*/
module RecursiveLock {
  import opened Options

  /** An AML mutex limits its depth, and the one for the global lock also needs the firmware. */
  datatype Kind = Recursive | Aml(global: bool)

  const DEPTH_LIMIT: nat := 0xFFFF

  datatype Pc =
    | Idle
    | LoadOwner               // acquire: about to read the owner
    | LoadDepth               // it is this thread: about to read the depth
    | StoreDeeper(d: nat)     // about to write d + 1
    | TakeNative              // it is not: about to take the native mutex
    | Firmware                // about to ask the firmware for the global lock
    | FirmwareFailed          // about to drop the native mutex again
    | StoreOwner
    | StoreOne                // about to set the depth to 1
    | Release                 // release: about to read the depth
    | StoreLess(d: nat)       // about to write d - 1
    | ReleaseFirmware         // about to hand the global lock back
    | ClearOwner
    | DropNative

  /** acquires and releases count the calls of the thread that have returned OK. */
  datatype Thread = Thread(pc: Pc, acquires: nat, releases: nat)

  datatype Shared = Shared(owner: Option<nat>, depth: nat, native: Option<nat>)

  datatype State = State(sh: Shared, threads: seq<Thread>)

  ghost predicate Init(s: State) {
    s.sh == Shared(None, 0, None) && forall t | 0 <= t < |s.threads| :: s.threads[t] == Thread(Idle, 0, 0)
  }

  predicate Holds(th: Thread) { th.acquires > th.releases }

  /** The step of thread t; a mutex wait may time out, the firmware may refuse, and only a holder releases. */
  predicate Move(kind: Kind, t: nat, sh: Shared, th: Thread, sh': Shared, th': Thread) {
    match th.pc
    case Idle =>
      sh' == sh && (th' == th.(pc := LoadOwner) || (Holds(th) && th' == th.(pc := Release)))
    case LoadOwner =>
      sh' == sh && th' == th.(pc := if sh.owner == Some(t) then LoadDepth else TakeNative)
    case LoadDepth =>
      sh' == sh && th' == th.(pc := if kind.Aml? && sh.depth == DEPTH_LIMIT then Idle else StoreDeeper(sh.depth))
    case StoreDeeper(d) =>
      sh' == sh.(depth := d + 1) && th' == th.(pc := Idle, acquires := th.acquires + 1)
    case TakeNative =>
      || (sh' == sh && th' == th.(pc := Idle))
      || (sh.native == None && sh' == sh.(native := Some(t))
          && th' == th.(pc := if kind == Aml(true) then Firmware else StoreOwner))
    case Firmware =>
      sh' == sh && (th' == th.(pc := StoreOwner) || th' == th.(pc := FirmwareFailed))
    case FirmwareFailed =>
      sh' == sh.(native := None) && th' == th.(pc := Idle)
    case StoreOwner =>
      sh' == sh.(owner := Some(t)) && th' == th.(pc := StoreOne)
    case StoreOne =>
      sh' == sh.(depth := 1) && th' == th.(pc := Idle, acquires := th.acquires + 1)
    case Release =>
      sh' == sh && th' == th.(pc := StoreLess(sh.depth))
    case StoreLess(d) =>
      sh' == sh.(depth := if d > 0 then d - 1 else 0) &&
      th' == if d > 1 then th.(pc := Idle, releases := th.releases + 1)
             else th.(pc := if kind == Aml(true) then ReleaseFirmware else ClearOwner)
    case ReleaseFirmware =>
      sh' == sh && th' == th.(pc := ClearOwner)
    case ClearOwner =>
      sh' == sh.(owner := None) && th' == th.(pc := DropNative)
    case DropNative =>
      sh' == sh.(native := None) && th' == th.(pc := Idle, releases := th.releases + 1)
  }

  ghost predicate Next(kind: Kind, s: State, s': State) {
    exists t: nat, th: Thread ::
      t < |s.threads| && s'.threads == s.threads[t := th] && Move(kind, t, s.sh, s.threads[t], s'.sh, th)
  }

  ghost predicate Run(kind: Kind, run: seq<State>) {
    run != [] && Init(run[0]) && forall i | 0 <= i < |run| - 1 :: Next(kind, run[i], run[i + 1])
  }

  /** What is known at each program counter; `depth` is written by the holder only. */
  predicate ThreadOk(kind: Kind, t: nat, sh: Shared, th: Thread) {
    if sh.native != Some(t) then
      th.acquires == th.releases && (th.pc.Idle? || th.pc.LoadOwner? || th.pc.TakeNative?)
    else
      var held: int := th.acquires - th.releases;
      && held >= 0 && (kind.Aml? ==> held <= DEPTH_LIMIT)
      && match th.pc
         case Firmware => held == 0 && sh.owner == None
         case FirmwareFailed => held == 0 && sh.owner == None
         case StoreOwner => held == 0 && sh.owner == None
         case StoreOne => held == 0 && sh.owner == Some(t)
         case TakeNative => false
         case StoreDeeper(d) => held > 0 && sh.owner == Some(t) && sh.depth == held == d
           && (kind.Aml? ==> d < DEPTH_LIMIT)
         case StoreLess(d) => held > 0 && sh.owner == Some(t) && sh.depth == held == d
         case ReleaseFirmware => held == 1 && sh.owner == Some(t) && sh.depth == 0
         case ClearOwner => held == 1 && sh.owner == Some(t) && sh.depth == 0
         case DropNative => held == 1 && sh.owner == None && sh.depth == 0
         case _ => held > 0 && sh.owner == Some(t) && sh.depth == held
  }

  ghost predicate Inv(kind: Kind, s: State) {
    && (s.sh.owner == None || s.sh.owner == s.sh.native)
    && (s.sh.native.Some? ==> s.sh.native.value < |s.threads|)
    && forall t | 0 <= t < |s.threads| :: ThreadOk(kind, t, s.sh, s.threads[t])
  }

  lemma MoveKeeps(kind: Kind, t: nat, sh: Shared, th: Thread, sh': Shared, th': Thread)
    requires sh.owner == None || sh.owner == sh.native
    requires ThreadOk(kind, t, sh, th) && Move(kind, t, sh, th, sh', th')
    ensures ThreadOk(kind, t, sh', th') && (sh'.owner == None || sh'.owner == sh'.native)
    ensures sh'.native == sh.native
         || (sh.native == None && sh'.native == Some(t)) || (sh.native == Some(t) && sh'.native == None)
  {
  }

  lemma OthersKeep(kind: Kind, t: nat, u: nat, sh: Shared, th: Thread, sh': Shared, th': Thread, other: Thread)
    requires t != u && ThreadOk(kind, u, sh, other) && ThreadOk(kind, t, sh, th) && Move(kind, t, sh, th, sh', th')
    ensures ThreadOk(kind, u, sh', other)
  {
  }

  lemma StepKeepsInv(kind: Kind, s: State, s': State)
    requires Inv(kind, s) && Next(kind, s, s')
    ensures Inv(kind, s')
  {
    var t: nat, th: Thread :| t < |s.threads| && s'.threads == s.threads[t := th]
      && Move(kind, t, s.sh, s.threads[t], s'.sh, th);
    hide ThreadOk, Move;
    MoveKeeps(kind, t, s.sh, s.threads[t], s'.sh, th);
    forall u | 0 <= u < |s.threads| ensures ThreadOk(kind, u, s'.sh, s'.threads[u]) {
      if u != t { OthersKeep(kind, t, u, s.sh, s.threads[t], s'.sh, th, s.threads[u]); }
    }
  }

  lemma {:induction false} RunKeepsInv(kind: Kind, run: seq<State>, i: nat)
    requires Run(kind, run) && i < |run|
    ensures Inv(kind, run[i])
  {
    if i > 0 {
      RunKeepsInv(kind, run, i - 1);
      assert Next(kind, run[i - 1], run[i - 1 + 1]);
      StepKeepsInv(kind, run[i - 1], run[i]);
    }
  }

  /** Whoever holds the lock has the native mutex, so there is one holder. */
  lemma OneHolder(kind: Kind, run: seq<State>, i: nat, t: nat)
    requires Run(kind, run) && i < |run| && t < |run[i].threads|
    ensures Holds(run[i].threads[t]) ==> run[i].sh.native == Some(t)
    ensures run[i].sh.owner == Some(t) ==> run[i].sh.native == Some(t)
    ensures Holds(run[i].threads[t]) ==> forall u | 0 <= u < |run[i].threads| && u != t :: !Holds(run[i].threads[u])
  {
    RunKeepsInv(kind, run, i);
    assert forall u | 0 <= u < |run[i].threads| :: ThreadOk(kind, u, run[i].sh, run[i].threads[u]);
  }

  /** The unlocked read of the owner sends exactly the holder past the native mutex. */
  lemma UnlockedRead(kind: Kind, run: seq<State>, i: nat, t: nat)
    requires Run(kind, run) && i < |run| && t < |run[i].threads| && run[i].threads[t].pc.LoadOwner?
    ensures run[i].sh.owner == Some(t) <==> Holds(run[i].threads[t])
  {
    RunKeepsInv(kind, run, i);
    assert ThreadOk(kind, t, run[i].sh, run[i].threads[t]);
  }

  /** Between calls the depth is the number of the holder's acquires without a release. */
  lemma DepthCounts(kind: Kind, run: seq<State>, i: nat, t: nat)
    requires Run(kind, run) && i < |run| && t < |run[i].threads|
    requires run[i].threads[t].pc.Idle? && Holds(run[i].threads[t])
    ensures run[i].sh.depth == run[i].threads[t].acquires - run[i].threads[t].releases
    ensures run[i].sh.owner == Some(t) && (kind.Aml? ==> run[i].sh.depth <= DEPTH_LIMIT)
  {
    RunKeepsInv(kind, run, i);
    assert ThreadOk(kind, t, run[i].sh, run[i].threads[t]);
  }

  /** With no holder and nobody between the steps of a call the lock is back in its first state. */
  lemma Quiescent(kind: Kind, run: seq<State>, i: nat)
    requires Run(kind, run) && i < |run|
    requires forall t | 0 <= t < |run[i].threads| :: run[i].threads[t].pc.Idle? && !Holds(run[i].threads[t])
    ensures run[i].sh.owner == None && run[i].sh.native == None
  {
    RunKeepsInv(kind, run, i);
    var sh := run[i].sh;
    assert sh.native.Some? ==> ThreadOk(kind, sh.native.value, sh, run[i].threads[sh.native.value]);
  }

  // ---- What a thread can do ----

  ghost predicate Path(kind: Kind, path: seq<State>) {
    path != [] && forall i | 0 <= i < |path| - 1 :: Next(kind, path[i], path[i + 1])
  }

  /** Consecutive moves of thread t alone. */
  ghost predicate Solo(kind: Kind, t: nat, trace: seq<(Shared, Thread)>) {
    && trace != []
    && forall i | 0 <= i < |trace| - 1 ::
         Move(kind, t, trace[i].0, trace[i].1, trace[i + 1].0, trace[i + 1].1)
  }

  lemma Start(kind: Kind, t: nat, sh: Shared, th: Thread) returns (trace: seq<(Shared, Thread)>)
    ensures trace == [(sh, th)] && Solo(kind, t, trace)
  {
    trace := [(sh, th)];
  }

  lemma More(kind: Kind, t: nat, trace: seq<(Shared, Thread)>, sh: Shared, th: Thread)
    returns (more: seq<(Shared, Thread)>)
    requires Solo(kind, t, trace)
    requires var last := trace[|trace| - 1]; Move(kind, t, last.0, last.1, sh, th)
    ensures Solo(kind, t, more) && more[0] == trace[0] && more[|more| - 1] == (sh, th)
  {
    hide Move;
    more := trace + [(sh, th)];
  }

  lemma SoloPath(kind: Kind, s: State, t: nat, trace: seq<(Shared, Thread)>) returns (path: seq<State>)
    requires Solo(kind, t, trace) && t < |s.threads| && trace[0] == (s.sh, s.threads[t])
    ensures Path(kind, path) && path[0] == s
    ensures var last := trace[|trace| - 1]; path[|path| - 1] == State(last.0, s.threads[t := last.1])
  {
    hide Move;
    path := seq(|trace|, i requires 0 <= i < |trace| => State(trace[i].0, s.threads[t := trace[i].1]));
    forall i | 0 <= i < |path| - 1 ensures Next(kind, path[i], path[i + 1]) {
      var th := trace[i + 1].1;
      assert path[i + 1].threads == path[i].threads[t := th];
      assert Move(kind, t, path[i].sh, path[i].threads[t], path[i + 1].sh, th);
    }
  }

  /** A holder gets the lock again, one level deeper; below 0xFFFF levels an AML mutex does, too. */
  lemma HolderCanAcquire(kind: Kind, s: State, t: nat) returns (path: seq<State>)
    requires Inv(kind, s) && t < |s.threads| && s.threads[t].pc.Idle? && Holds(s.threads[t])
    requires kind.Aml? ==> s.threads[t].acquires - s.threads[t].releases < 0xFFFF
    ensures Path(kind, path) && path[0] == s
    ensures var last := path[|path| - 1]; var th := s.threads[t];
      && last.sh == s.sh.(depth := s.sh.depth + 1)
      && last.threads == s.threads[t := th.(acquires := th.acquires + 1)]
  {
    var th := s.threads[t];
    assert ThreadOk(kind, t, s.sh, th);
    hide Inv, Path, Solo;
    var trace := Start(kind, t, s.sh, th);
    trace := More(kind, t, trace, s.sh, th.(pc := LoadOwner));
    trace := More(kind, t, trace, s.sh, th.(pc := LoadDepth));
    trace := More(kind, t, trace, s.sh, th.(pc := StoreDeeper(s.sh.depth)));
    trace := More(kind, t, trace, s.sh.(depth := s.sh.depth + 1), th.(acquires := th.acquires + 1));
    path := SoloPath(kind, s, t, trace);
  }

  /** At 0xFFFF levels, and only there, an AML mutex is refused to its holder. */
  lemma RefusedAtLimit(kind: Kind, t: nat, sh: Shared, th: Thread, sh': Shared, th': Thread)
    requires ThreadOk(kind, t, sh, th) && th.pc.LoadDepth? && Move(kind, t, sh, th, sh', th')
    ensures sh' == sh
    ensures th' == th.(pc := Idle) <==> kind.Aml? && th.acquires - th.releases == 0xFFFF
    ensures th' == th.(pc := Idle) || th' == th.(pc := StoreDeeper(th.acquires - th.releases))
  {
  }

  /** With the native mutex free, a thread gets the lock, where the firmware grants it. */
  lemma OtherCanAcquire(kind: Kind, s: State, t: nat) returns (path: seq<State>)
    requires Inv(kind, s) && t < |s.threads| && s.threads[t].pc.Idle? && s.sh.native == None
    ensures Path(kind, path) && path[0] == s
    ensures var last := path[|path| - 1]; var th := s.threads[t];
      && last.sh == Shared(Some(t), 1, Some(t))
      && last.threads == s.threads[t := th.(acquires := th.acquires + 1)]
  {
    var th := s.threads[t];
    assert ThreadOk(kind, t, s.sh, th) && s.sh.owner == None;
    hide Inv, Path, Solo, ThreadOk;
    var trace := Start(kind, t, s.sh, th);
    trace := More(kind, t, trace, s.sh, th.(pc := LoadOwner));
    trace := More(kind, t, trace, s.sh, th.(pc := TakeNative));
    var taken := s.sh.(native := Some(t));
    if kind == Aml(true) {
      trace := More(kind, t, trace, taken, th.(pc := Firmware));
      trace := More(kind, t, trace, taken, th.(pc := StoreOwner));
    } else {
      trace := More(kind, t, trace, taken, th.(pc := StoreOwner));
    }
    trace := More(kind, t, trace, taken.(owner := Some(t)), th.(pc := StoreOne));
    trace := More(kind, t, trace, Shared(Some(t), 1, Some(t)), th.(acquires := th.acquires + 1));
    path := SoloPath(kind, s, t, trace);
  }

  /** A release takes one level away, and the last one frees owner and native mutex. */
  lemma HolderCanRelease(kind: Kind, s: State, t: nat) returns (path: seq<State>)
    requires Inv(kind, s) && t < |s.threads| && s.threads[t].pc.Idle? && Holds(s.threads[t])
    ensures Path(kind, path) && path[0] == s
    ensures var last := path[|path| - 1]; var th := s.threads[t];
      && last.sh == (if s.sh.depth > 1 then s.sh.(depth := s.sh.depth - 1) else Shared(None, 0, None))
      && last.threads == s.threads[t := th.(releases := th.releases + 1)]
  {
    var th, depth := s.threads[t], s.sh.depth;
    assert ThreadOk(kind, t, s.sh, th);
    hide Inv, Path, Solo, ThreadOk;
    var done := th.(releases := th.releases + 1);
    var trace := Start(kind, t, s.sh, th);
    trace := More(kind, t, trace, s.sh, th.(pc := Release));
    trace := More(kind, t, trace, s.sh, th.(pc := StoreLess(depth)));
    var less := s.sh.(depth := depth - 1);
    if depth > 1 {
      trace := More(kind, t, trace, less, done);
    } else {
      if kind == Aml(true) {
        trace := More(kind, t, trace, less, th.(pc := ReleaseFirmware));
        trace := More(kind, t, trace, less, th.(pc := ClearOwner));
      } else {
        trace := More(kind, t, trace, less, th.(pc := ClearOwner));
      }
      trace := More(kind, t, trace, less.(owner := None), th.(pc := DropNative));
      trace := More(kind, t, trace, Shared(None, 0, None), done);
    }
    path := SoloPath(kind, s, t, trace);
  }
}
