/**
 The reader-writer lock: a count of readers behind read_mutex, and a write_mutex that the first
 reader takes and the last one drops, not always the same. Any number of sessions (one per lock
 call and its unlock) take atomic steps in any order, and a mutex may refuse at any time.
*/
module RwLock {
  import opened Options

  datatype Pc =
    | Idle
    | TakeRead                // lock_read: about to take read_mutex
    | CountIn                 // about to add itself to num_readers
    | TakeWriteAsReader       // it is the first: about to take write_mutex
    | ResetCount              // that failed: about to set num_readers to 0
    | DropRead(ok: bool)
    | Reading                 // lock_read has returned OK
    | TakeReadAgain           // unlock_read: about to take read_mutex
    | CountOut                // about to take itself out of num_readers
    | DropWriteAsReader       // it was the last: about to drop write_mutex
    | DropReadAgain
    | TakeWrite               // lock_write
    | Writing                 // lock_write has returned OK
    | DropWrite               // unlock_write

  /** Who has the write mutex; the mutex itself knows only whether it is free. */
  datatype WriteMutex = Free | Writer(t: nat) | Readers

  datatype Shared = Shared(readMutex: Option<nat>, writeMutex: WriteMutex, numReaders: nat)

  datatype State = State(sh: Shared, sessions: seq<Pc>)

  ghost predicate Init(s: State) {
    s.sh == Shared(None, Free, 0) && forall t | 0 <= t < |s.sessions| :: s.sessions[t] == Idle
  }

  predicate Move(t: nat, sh: Shared, pc: Pc, sh': Shared, pc': Pc) {
    match pc
    case Idle => sh' == sh && (pc' == TakeRead || pc' == TakeWrite)
    case TakeRead =>
      || (sh' == sh && pc' == Idle)
      || (sh.readMutex == None && sh' == sh.(readMutex := Some(t)) && pc' == CountIn)
    case CountIn =>
      && sh' == sh.(numReaders := sh.numReaders + 1)
      && pc' == (if sh.numReaders == 0 then TakeWriteAsReader else DropRead(true))
    case TakeWriteAsReader =>
      || (sh' == sh && pc' == ResetCount)
      || (sh.writeMutex == Free && sh' == sh.(writeMutex := Readers) && pc' == DropRead(true))
    case ResetCount => sh' == sh.(numReaders := 0) && pc' == DropRead(false)
    case DropRead(ok) => sh' == sh.(readMutex := None) && pc' == (if ok then Reading else Idle)
    case Reading => sh' == sh && pc' == TakeReadAgain
    case TakeReadAgain =>
      || (sh' == sh && pc' == Reading)
      || (sh.readMutex == None && sh' == sh.(readMutex := Some(t)) && pc' == CountOut)
    case CountOut =>
      && sh' == sh.(numReaders := if sh.numReaders > 0 then sh.numReaders - 1 else 0)
      && pc' == (if sh.numReaders == 1 then DropWriteAsReader else DropReadAgain)
    case DropWriteAsReader => sh' == sh.(writeMutex := Free) && pc' == DropReadAgain
    case DropReadAgain => sh' == sh.(readMutex := None) && pc' == Idle
    case TakeWrite =>
      || (sh' == sh && pc' == Idle)
      || (sh.writeMutex == Free && sh' == sh.(writeMutex := Writer(t)) && pc' == Writing)
    case Writing => sh' == sh && pc' == DropWrite
    case DropWrite => sh' == sh.(writeMutex := Free) && pc' == Idle
  }

  ghost predicate SessionStep(s: State, s': State, t: nat, pc: Pc) {
    t < |s.sessions| && s'.sessions == s.sessions[t := pc] && Move(t, s.sh, s.sessions[t], s'.sh, pc)
  }

  ghost predicate Next(s: State, s': State) {
    exists t: nat, pc: Pc :: SessionStep(s, s', t, pc)
  }

  ghost predicate Run(run: seq<State>) {
    run != [] && Init(run[0]) && forall i | 0 <= i < |run| - 1 :: Next(run[i], run[i + 1])
  }

  // ---- Counting readers ----

  /** num_readers counts this session. */
  predicate Counted(pc: Pc) {
    pc.TakeWriteAsReader? || pc.ResetCount? || pc == DropRead(true) || pc.Reading? || pc.TakeReadAgain? || pc.CountOut?
  }

  function Readings(sessions: seq<Pc>): nat {
    if sessions == [] then 0
    else Readings(sessions[..|sessions| - 1]) + if Counted(sessions[|sessions| - 1]) then 1 else 0
  }

  lemma {:induction false} ReadingsChange(sessions: seq<Pc>, t: nat, pc: Pc)
    requires t < |sessions|
    ensures Readings(sessions[t := pc]) + (if Counted(sessions[t]) then 1 else 0)
         == Readings(sessions) + (if Counted(pc) then 1 else 0)
    decreases |sessions|
  {
    var last := |sessions| - 1;
    if t < last {
      ReadingsChange(sessions[..last], t, pc);
      assert sessions[t := pc][..last] == sessions[..last][t := pc];
    } else {
      assert sessions[t := pc][..last] == sessions[..last];
    }
  }

  /** Two sessions that are counted make the count at least two. */
  lemma ReadingsOfTwo(sessions: seq<Pc>, t: nat, u: nat)
    requires t < |sessions| && u < |sessions| && Counted(sessions[t])
    ensures Readings(sessions) >= 1 && (t != u && Counted(sessions[u]) ==> Readings(sessions) >= 2)
  {
    ReadingsChange(sessions, t, Idle);
    ReadingsChange(sessions[t := Idle], u, Idle);
  }

  // ---- The invariant ----

  predicate InReadSection(pc: Pc) {
    || pc.CountIn? || pc.TakeWriteAsReader? || pc.ResetCount? || pc.DropRead?
    || pc.CountOut? || pc.DropWriteAsReader? || pc.DropReadAgain?
  }

  /** The session inside the read_mutex section, Idle if there is none. */
  function Inside(s: State): Pc {
    if s.sh.readMutex.Some? && s.sh.readMutex.value < |s.sessions| then s.sessions[s.sh.readMutex.value] else Idle
  }

  /** The readers hold write_mutex whenever there are any, save for the moments inside the section. */
  predicate CountOk(sh: Shared, inside: Pc) {
    && (sh.writeMutex == Readers <==>
          (sh.numReaders > 0 && !inside.TakeWriteAsReader? && !inside.ResetCount?) || inside.DropWriteAsReader?)
    && (inside.TakeWriteAsReader? || inside.ResetCount? ==> sh.numReaders == 1)
    && (inside.DropWriteAsReader? || inside == DropRead(false) ==> sh.numReaders == 0)
  }

  predicate SessionOk(t: nat, sh: Shared, pc: Pc) {
    && (InReadSection(pc) <==> sh.readMutex == Some(t))
    && (pc.Writing? || pc.DropWrite? <==> sh.writeMutex == Writer(t))
  }

  ghost predicate Inv(s: State) {
    && s.sh.numReaders == Readings(s.sessions)
    && (s.sh.readMutex.Some? ==> s.sh.readMutex.value < |s.sessions|)
    && (s.sh.writeMutex.Writer? ==> s.sh.writeMutex.t < |s.sessions|)
    && CountOk(s.sh, Inside(s))
    && forall t | 0 <= t < |s.sessions| :: SessionOk(t, s.sh, s.sessions[t])
  }

  /** Session t took the mutex, dropped it or left it alone. */
  predicate TakesOrDrops(t: nat, mutex: Option<nat>, mutex': Option<nat>) {
    mutex' == mutex || (mutex == None && mutex' == Some(t)) || (mutex == Some(t) && mutex' == None)
  }

  lemma MoveKeeps(t: nat, sh: Shared, pc: Pc, sh': Shared, pc': Pc, inside: Pc)
    requires SessionOk(t, sh, pc) && CountOk(sh, inside) && Move(t, sh, pc, sh', pc')
    requires sh.readMutex == Some(t) ==> inside == pc
    requires sh.readMutex == None ==> inside == Idle
    requires sh.readMutex.Some? ==> InReadSection(inside)
    requires Counted(pc) ==> sh.numReaders > 0
    ensures SessionOk(t, sh', pc')
    ensures CountOk(sh', if sh'.readMutex == Some(t) then pc' else if sh'.readMutex == None then Idle else inside)
    ensures sh'.numReaders + (if Counted(pc) then 1 else 0) == sh.numReaders + (if Counted(pc') then 1 else 0)
    ensures TakesOrDrops(t, sh.readMutex, sh'.readMutex)
    ensures forall u: nat | u != t :: sh'.writeMutex == Writer(u) <==> sh.writeMutex == Writer(u)
  {
  }

  lemma StepKeepsInv(s: State, s': State)
    requires Inv(s) && Next(s, s')
    ensures Inv(s')
  {
    var t: nat, pc: Pc :| SessionStep(s, s', t, pc);
    hide *;
    SessionKeeps(s, s', t, pc);
  }

  lemma SessionKeeps(s: State, s': State, t: nat, pc: Pc)
    requires Inv(s) && SessionStep(s, s', t, pc)
    ensures Inv(s')
  {
    var pc0 := s.sessions[t];
    assert SessionOk(t, s.sh, pc0);
    assert s.sh.readMutex.Some? ==> SessionOk(s.sh.readMutex.value, s.sh, Inside(s));
    if Counted(pc0) { ReadingsOfTwo(s.sessions, t, t); }
    MoveKeeps(t, s.sh, pc0, s'.sh, pc, Inside(s));
    ReadingsChange(s.sessions, t, pc);
    hide SessionOk, Move, CountOk, Readings, Counted, InReadSection;
    OthersKeep(s, s', t, pc);
    InsideAfter(s, s', t, pc);
  }

  /** Who is inside the section after a step of session t. */
  lemma InsideAfter(s: State, s': State, t: nat, pc: Pc)
    requires t < |s.sessions| && s'.sessions == s.sessions[t := pc] && TakesOrDrops(t, s.sh.readMutex, s'.sh.readMutex)
    requires s.sh.readMutex.Some? ==> s.sh.readMutex.value < |s.sessions|
    ensures Inside(s') == if s'.sh.readMutex == Some(t) then pc else if s'.sh.readMutex == None then Idle else Inside(s)
    ensures s'.sh.readMutex.Some? ==> s'.sh.readMutex.value < |s'.sessions|
  {
  }

  lemma OthersKeep(s: State, s': State, t: nat, pc: Pc)
    requires t < |s.sessions| && s'.sessions == s.sessions[t := pc] && SessionOk(t, s'.sh, pc)
    requires forall u | 0 <= u < |s.sessions| :: SessionOk(u, s.sh, s.sessions[u])
    requires forall u: nat | u != t :: s'.sh.writeMutex == Writer(u) <==> s.sh.writeMutex == Writer(u)
    requires TakesOrDrops(t, s.sh.readMutex, s'.sh.readMutex)
    ensures forall u | 0 <= u < |s'.sessions| :: SessionOk(u, s'.sh, s'.sessions[u])
  {
    hide SessionOk, TakesOrDrops;
    forall u | 0 <= u < |s.sessions| ensures SessionOk(u, s'.sh, s'.sessions[u]) {
      if u != t { OtherKeeps(t, u, s.sh, s'.sh, s.sessions[u]); }
    }
  }

  lemma OtherKeeps(t: nat, u: nat, sh: Shared, sh': Shared, other: Pc)
    requires t != u && SessionOk(u, sh, other)
    requires sh'.writeMutex == Writer(u) <==> sh.writeMutex == Writer(u)
    requires TakesOrDrops(t, sh.readMutex, sh'.readMutex)
    ensures SessionOk(u, sh', other)
  {
  }

  lemma {:induction false} RunKeepsInv(run: seq<State>, i: nat)
    requires Run(run) && i < |run|
    ensures Inv(run[i])
  {
    if i > 0 {
      RunKeepsInv(run, i - 1);
      assert Next(run[i - 1], run[i - 1 + 1]);
      StepKeepsInv(run[i - 1], run[i]);
    } else {
      NoReadings(run[0].sessions);
    }
  }

  lemma {:induction false} NoReadings(sessions: seq<Pc>)
    requires forall t | 0 <= t < |sessions| :: !Counted(sessions[t])
    ensures Readings(sessions) == 0
  {
    if sessions != [] {
      NoReadings(sessions[..|sessions| - 1]);
    }
  }

  // ---- What holds in every reachable state ----

  /** A writer is never inside together with a reader or another writer. */
  lemma WriterIsAlone(run: seq<State>, i: nat, t: nat, u: nat)
    requires Run(run) && i < |run| && t < |run[i].sessions| && u < |run[i].sessions| && t != u
    ensures run[i].sessions[t].Writing? ==> !run[i].sessions[u].Writing? && !run[i].sessions[u].Reading?
  {
    RunKeepsInv(run, i);
    var s := run[i];
    assert SessionOk(t, s.sh, s.sessions[t]) && SessionOk(u, s.sh, s.sessions[u]);
    if s.sessions[u].Reading? {
      ReadersHoldIt(s, u);
    }
  }

  lemma ReadersHoldIt(s: State, u: nat)
    requires Inv(s) && u < |s.sessions| && s.sessions[u].Reading?
    ensures s.sh.writeMutex == Readers
  {
    ReadingsOfTwo(s.sessions, u, u);
    var inside := Inside(s);
    if inside.TakeWriteAsReader? || inside.ResetCount? {
      ReadingsOfTwo(s.sessions, s.sh.readMutex.value, u);
    }
  }

  /** Outside the read_mutex section the count says whether the readers hold write_mutex. */
  lemma CountSaysWhoHolds(run: seq<State>, i: nat)
    requires Run(run) && i < |run| && run[i].sh.readMutex == None
    ensures run[i].sh.numReaders > 0 <==> run[i].sh.writeMutex == Readers
  {
    RunKeepsInv(run, i);
  }

  /** The count is the number of sessions that read or are about to start or stop. */
  lemma CountIsReaders(run: seq<State>, i: nat)
    requires Run(run) && i < |run|
    ensures run[i].sh.numReaders == Readings(run[i].sessions)
  {
    RunKeepsInv(run, i);
  }

  /** When every session is over, failed ones included, the lock is back in its first state. */
  lemma NothingLeaks(run: seq<State>, i: nat)
    requires Run(run) && i < |run|
    requires forall t | 0 <= t < |run[i].sessions| :: run[i].sessions[t] == Idle
    ensures run[i].sh == Shared(None, Free, 0)
  {
    RunKeepsInv(run, i);
    NoReadings(run[i].sessions);
    var sh := run[i].sh;
    forall t | 0 <= t < |run[i].sessions| ensures sh.readMutex != Some(t) && sh.writeMutex != Writer(t) {
      assert SessionOk(t, sh, run[i].sessions[t]);
    }
  }

  // ---- What a session can do ----

  ghost predicate Path(path: seq<State>) {
    path != [] && forall i | 0 <= i < |path| - 1 :: Next(path[i], path[i + 1])
  }

  /** Consecutive moves of session t alone. */
  ghost predicate Solo(t: nat, trace: seq<(Shared, Pc)>) {
    trace != [] && forall i | 0 <= i < |trace| - 1 :: Move(t, trace[i].0, trace[i].1, trace[i + 1].0, trace[i + 1].1)
  }

  lemma Start(t: nat, sh: Shared, pc: Pc) returns (trace: seq<(Shared, Pc)>)
    ensures trace == [(sh, pc)] && Solo(t, trace)
  {
    trace := [(sh, pc)];
  }

  lemma More(t: nat, trace: seq<(Shared, Pc)>, sh: Shared, pc: Pc) returns (more: seq<(Shared, Pc)>)
    requires Solo(t, trace)
    requires var last := trace[|trace| - 1]; Move(t, last.0, last.1, sh, pc)
    ensures Solo(t, more) && more[0] == trace[0] && more == trace + [(sh, pc)]
  {
    hide Move;
    more := trace + [(sh, pc)];
  }

  lemma SoloPath(s: State, t: nat, trace: seq<(Shared, Pc)>) returns (path: seq<State>)
    requires Solo(t, trace) && t < |s.sessions| && trace[0] == (s.sh, s.sessions[t])
    ensures Path(path) && path[0] == s && |path| == |trace|
    ensures forall i | 0 <= i < |path| :: path[i] == State(trace[i].0, s.sessions[t := trace[i].1])
  {
    hide Move;
    path := seq(|trace|, i requires 0 <= i < |trace| => State(trace[i].0, s.sessions[t := trace[i].1]));
    forall i | 0 <= i < |path| - 1 ensures Next(path[i], path[i + 1]) {
      assert Move(t, trace[i].0, trace[i].1, trace[i + 1].0, trace[i + 1].1);
      assert path[i + 1].sessions == path[i].sessions[t := trace[i + 1].1];
      assert SessionStep(path[i], path[i + 1], t, trace[i + 1].1);
    }
  }

  /** A reader comes in beside any others, and as the first one where nobody writes. */
  lemma ReaderCanEnter(s: State, t: nat) returns (path: seq<State>)
    requires Inv(s) && t < |s.sessions| && s.sessions[t] == Idle
    requires s.sh.readMutex == None && !s.sh.writeMutex.Writer?
    ensures Path(path) && path[0] == s
    ensures var last := path[|path| - 1];
      last.sessions == s.sessions[t := Reading] && last.sh == Shared(None, Readers, s.sh.numReaders + 1)
  {
    assert s.sh.numReaders > 0 <==> s.sh.writeMutex == Readers;
    hide Inv, Path, Solo, CountOk, SessionOk;
    var trace := Start(t, s.sh, s.sessions[t]);
    trace := More(t, trace, s.sh, TakeRead);
    trace := More(t, trace, s.sh.(readMutex := Some(t)), CountIn);
    var counted := Shared(Some(t), s.sh.writeMutex, s.sh.numReaders + 1);
    if s.sh.numReaders == 0 {
      trace := More(t, trace, counted, TakeWriteAsReader);
      trace := More(t, trace, counted.(writeMutex := Readers), DropRead(true));
    } else {
      trace := More(t, trace, counted, DropRead(true));
    }
    trace := More(t, trace, Shared(None, Readers, s.sh.numReaders + 1), Reading);
    path := SoloPath(s, t, trace);
  }

  /** A reader leaves; the last one frees write_mutex. */
  lemma ReaderCanLeave(s: State, t: nat) returns (path: seq<State>)
    requires Inv(s) && t < |s.sessions| && s.sessions[t] == Reading && s.sh.readMutex == None
    ensures Path(path) && path[0] == s
    ensures var last := path[|path| - 1];
      && last.sessions == s.sessions[t := Idle] && s.sh.numReaders > 0
      && last.sh == Shared(None, if s.sh.numReaders == 1 then Free else Readers, s.sh.numReaders - 1)
  {
    ReadersHoldIt(s, t);
    assert s.sh.numReaders > 0;
    hide Inv, Path, Solo, CountOk, SessionOk;
    var trace := Start(t, s.sh, s.sessions[t]);
    trace := More(t, trace, s.sh, TakeReadAgain);
    trace := More(t, trace, s.sh.(readMutex := Some(t)), CountOut);
    var counted := Shared(Some(t), Readers, s.sh.numReaders - 1);
    if s.sh.numReaders == 1 {
      trace := More(t, trace, counted, DropWriteAsReader);
      trace := More(t, trace, counted.(writeMutex := Free), DropReadAgain);
    } else {
      trace := More(t, trace, counted, DropReadAgain);
    }
    trace := More(t, trace, Shared(None, if s.sh.numReaders == 1 then Free else Readers, s.sh.numReaders - 1), Idle);
    path := SoloPath(s, t, trace);
  }

  /** A writer comes in where neither readers nor another writer hold write_mutex, and leaves it free. */
  lemma WriterCanEnterAndLeave(s: State, t: nat) returns (path: seq<State>, k: nat)
    requires Inv(s) && t < |s.sessions| && s.sessions[t] == Idle && s.sh.writeMutex == Free
    ensures Path(path) && path[0] == s && k < |path|
    ensures path[k].sessions == s.sessions[t := Writing] && path[k].sh == s.sh.(writeMutex := Writer(t))
    ensures path[|path| - 1] == s
  {
    hide Inv, Path, Solo, CountOk, SessionOk;
    var trace := Start(t, s.sh, s.sessions[t]);
    trace := More(t, trace, s.sh, TakeWrite);
    trace := More(t, trace, s.sh.(writeMutex := Writer(t)), Writing);
    trace := More(t, trace, s.sh.(writeMutex := Writer(t)), DropWrite);
    trace := More(t, trace, s.sh, Idle);
    k := 2;
    path := SoloPath(s, t, trace);
    assert s.sessions[t := Idle] == s.sessions;
  }
}
