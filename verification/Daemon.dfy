/** The MCP daemon's lock and sidecar protocol: acquire, release, status, stop and replace by any
    number of processes, any of which may crash between any two steps. */
module Daemon {
  import opened Options

  /** A process, identified by pid and start time; a pid is reused, a start time with it is not. */
  datatype Proc = Proc(pid: nat, start: nat)

  /** The sidecar file: absent, not decodable, or a complete record of a process. */
  datatype Sidecar = Absent | Partial | Record(p: Proc)

  /** Why an operation probes the lock: for status, for stop before or after terminating p. */
  datatype Probe = StatusProbe | StopProbe | FinalProbe(p: Proc)

  datatype Report = Released | AlreadyRunning | Running | NotRunning | Stopped(p: Proc) | Failed

  /** Where one call of acquire, release, status or stop stands. */
  datatype Phase =
    | Idle
    | Retry                         // acquire again after a replace, no longer replacing
    | Taken                         // acquire got the lock
    | Writing(created: bool)        // stale sidecar removed; new one created or not yet
    | Aborting                      // acquire failed while holding the lock
    | Serving                       // the daemon runs; its release function is not yet called
    | Releasing                     // release removed the sidecar, or failed to
    | Probing(k: Probe)             // a probe got the lock
    | Probed(k: Probe, ok: bool)    // and removed the sidecar, or failed to
    | StopTry
    | StopRead                      // the lock was busy
    | StopChecked(p: Proc)          // the record read is valid and names p
    | StopOpened(p: Proc)           // p's handle is retained and its start time is the recorded one
    | StopVerified(p: Proc)         // and the record is unchanged
    | Unprobing                     // the lock was free on re-verification: stop gives it back
    | StopArmed(p: Proc)            // the lock is still busy
    | StopWait(p: Proc)             // p was terminated, or had already gone
    | Finished(r: Report)

  datatype Agent = Agent(proc: Proc, phase: Phase, replacing: bool)

  /** `ever`, `recorded` and `killed` are history: the processes that ever ran, that completed a
      record of themselves while holding the lock, and that a stop terminated. */
  datatype State = State(
    alive: set<Proc>, agents: map<nat, Agent>, lock: Option<nat>, sidecar: Sidecar,
    ever: set<Proc>, recorded: set<Proc>, killed: set<Proc>)

  const START := State({}, map[], None, Absent, {}, {}, {})

  datatype Action =
    | Spawn(p: Proc)                // a process starts
    | Call(a: nat, p: Proc)         // one of its calls starts
    | Crash(p: Proc)
    | AcquireTry(a: nat, replace: bool)
    | StatusTry(a: nat)
    | StopStart(a: nat)
    | StopTryLock(a: nat)
    | RemoveStale(a: nat, ok: bool)
    | Create(a: nat, ok: bool)
    | FinishWrite(a: nat, ok: bool, left: Sidecar)
    | Abort(a: nat)
    | ReleaseRemove(a: nat, ok: bool)
    | ReleaseUnlock(a: nat)
    | ProbeRemove(a: nat, ok: bool)
    | ProbeUnlock(a: nat)
    | ReadHolder(a: nat)
    | OpenHandle(a: nat)
    | Reverify(a: nat)
    | ReverifyLock(a: nat)
    | Unprobe(a: nat)
    | Kill(a: nat)
    | Poll(a: nat)
    | GiveUp(a: nat)                // a read, open or check failed, or a wait timed out

  predicate Holding(ph: Phase) {
    ph.Taken? || ph.Writing? || ph.Aborting? || ph.Serving? || ph.Releasing? || ph.Probing? || ph.Probed? || ph.Unprobing?
  }

  predicate At(s: State, a: nat, ph: Phase) {
    a in s.agents && s.agents[a].phase == ph
  }

  // ---- transitions ----

  predicate Enabled(s: State, act: Action) {
    match act
    case Spawn(p) => p !in s.ever && forall q :: q in s.alive ==> q.pid != p.pid
    case Call(a, p) => p in s.alive && a !in s.agents
    case Crash(p) => p in s.alive
    case AcquireTry(a, replace) => At(s, a, Idle) || (At(s, a, Retry) && !replace)
    case StatusTry(a) => At(s, a, Idle)
    case StopStart(a) => At(s, a, Idle)
    case StopTryLock(a) => At(s, a, StopTry)
    case RemoveStale(a, ok) => At(s, a, Taken)
    case Create(a, ok) => At(s, a, Writing(false)) && (ok ==> s.sidecar == Absent)
    case FinishWrite(a, ok, left) => At(s, a, Writing(true)) && (left.Record? ==> left.p == s.agents[a].proc)
    case Abort(a) => At(s, a, Aborting)
    case ReleaseRemove(a, ok) => At(s, a, Serving)
    case ReleaseUnlock(a) => At(s, a, Releasing)
    case ProbeRemove(a, ok) => a in s.agents && s.agents[a].phase.Probing?
    case ProbeUnlock(a) => a in s.agents && s.agents[a].phase.Probed?
    case ReadHolder(a) => At(s, a, StopRead)
    case OpenHandle(a) => a in s.agents && s.agents[a].phase.StopChecked?
    case Reverify(a) => a in s.agents && s.agents[a].phase.StopOpened?
    case ReverifyLock(a) => a in s.agents && s.agents[a].phase.StopVerified?
    case Unprobe(a) => At(s, a, Unprobing)
    case Kill(a) => a in s.agents && s.agents[a].phase.StopArmed?
    case Poll(a) => a in s.agents && s.agents[a].phase.StopWait?
    case GiveUp(a) => a in s.agents && !Holding(s.agents[a].phase) && !s.agents[a].phase.Finished?
  }

  function To(s: State, a: nat, ph: Phase): State
    requires a in s.agents
  {
    s.(agents := s.agents[a := s.agents[a].(phase := ph)])
  }

  /** The lock is taken when it is free; otherwise the call goes on to `busy`. */
  function Try(s: State, a: nat, got: Phase, busy: Phase): State
    requires a in s.agents
  {
    if s.lock.None? then To(s, a, got).(lock := Some(a)) else To(s, a, busy)
  }

  function Unlock(s: State, a: nat, ph: Phase): State
    requires a in s.agents
  {
    To(s, a, ph).(lock := None)
  }

  /** A process ends: its calls vanish and the operating system drops its lock. */
  function Die(s: State, p: Proc): State {
    s.(alive := s.alive - {p},
       agents := map a | a in s.agents && s.agents[a].proc != p :: s.agents[a],
       lock := if s.lock.Some? && s.lock.value in s.agents && s.agents[s.lock.value].proc == p then None else s.lock)
  }

  /** What the call of a probe reports once it has unlocked. */
  function AfterProbe(ag: Agent, k: Probe, ok: bool): Phase {
    if !ok then Finished(Failed)
    else if ag.replacing && !k.StatusProbe? then Retry
    else if k.FinalProbe? then Finished(Stopped(k.p))
    else Finished(NotRunning)
  }

  /** Steps of acquire and release. */
  predicate OfAcquire(act: Action) {
    act.AcquireTry? || act.RemoveStale? || act.Create? || act.FinishWrite? || act.Abort? || act.ReleaseRemove? || act.ReleaseUnlock?
  }

  /** A process starts, one of its calls starts, or it crashes. */
  predicate OfSystem(act: Action) {
    act.Spawn? || act.Call? || act.Crash?
  }

  function Next(s: State, act: Action): State
    requires Enabled(s, act)
  {
    if OfSystem(act) then NextOfSystem(s, act)
    else if OfAcquire(act) then NextOfAcquire(s, act)
    else NextOfStop(s, act)
  }

  function NextOfSystem(s: State, act: Action): State
    requires Enabled(s, act) && OfSystem(act)
  {
    match act
    case Spawn(p) => s.(alive := s.alive + {p}, ever := s.ever + {p})
    case Call(a, p) => s.(agents := s.agents[a := Agent(p, Idle, false)])
    case Crash(p) => Die(s, p)
  }

  function NextOfAcquire(s: State, act: Action): State
    requires Enabled(s, act) && OfAcquire(act)
  {
    match act
    case AcquireTry(a, replace) =>
      var t := Try(s, a, Taken, if replace then StopTry else Finished(AlreadyRunning));
      t.(agents := t.agents[a := t.agents[a].(replacing := replace && s.lock.Some?)])
    case RemoveStale(a, ok) =>
      if ok then To(s, a, Writing(false)).(sidecar := Absent) else To(s, a, Aborting)
    case Create(a, ok) =>
      if ok then To(s, a, Writing(true)).(sidecar := Partial) else To(s, a, Aborting)
    case FinishWrite(a, ok, left) =>
      var p := s.agents[a].proc;
      if ok then To(s, a, Serving).(sidecar := Record(p), recorded := s.recorded + {p})
      else To(s, a, Aborting).(sidecar := left, recorded := s.recorded + if left.Record? then {p} else {})
    case Abort(a) => Unlock(s, a, Finished(Failed))
    case ReleaseRemove(a, ok) =>
      To(s, a, Releasing).(sidecar := if ok then Absent else s.sidecar)
    case ReleaseUnlock(a) => Unlock(s, a, Finished(Released))
  }

  /** Steps of status and stop. */
  function NextOfStop(s: State, act: Action): State
    requires Enabled(s, act) && !OfSystem(act) && !OfAcquire(act)
  {
    match act
    case StatusTry(a) => Try(s, a, Probing(StatusProbe), Finished(Running))
    case StopStart(a) => To(s, a, StopTry)
    case StopTryLock(a) => Try(s, a, Probing(StopProbe), StopRead)
    case ProbeRemove(a, ok) =>
      To(s, a, Probed(s.agents[a].phase.k, ok)).(sidecar := if ok then Absent else s.sidecar)
    case ProbeUnlock(a) =>
      Unlock(s, a, AfterProbe(s.agents[a], s.agents[a].phase.k, s.agents[a].phase.ok))
    case ReadHolder(a) =>
      if s.sidecar.Record? && s.sidecar.p.pid != s.agents[a].proc.pid then To(s, a, StopChecked(s.sidecar.p))
      else To(s, a, Finished(Failed))
    case OpenHandle(a) =>
      var p := s.agents[a].phase.p;
      if forall q :: q in s.alive ==> q.pid != p.pid then To(s, a, StopWait(p))
      else if p in s.alive then To(s, a, StopOpened(p))
      else To(s, a, Finished(Failed))
    case Reverify(a) =>
      var p := s.agents[a].phase.p;
      if s.sidecar == Record(p) then To(s, a, StopVerified(p)) else To(s, a, Finished(Failed))
    case ReverifyLock(a) => Try(s, a, Unprobing, StopArmed(s.agents[a].phase.p))
    case Unprobe(a) => Unlock(s, a, Finished(Failed))
    case Kill(a) =>
      var p := s.agents[a].phase.p;
      var t := To(s, a, StopWait(p)).(killed := s.killed + if p in s.alive then {p} else {});
      Die(t, p)
    case Poll(a) =>
      var p := s.agents[a].phase.p;
      Try(s, a, Probing(FinalProbe(p)), StopWait(p))
    case GiveUp(a) => To(s, a, Finished(Failed))
  }

  // ---- invariants ----

  /** At most one call believes it holds the lock, and it is the one that does. */
  predicate Exclusive(s: State) {
    && (s.lock.Some? ==> s.lock.value in s.agents && Holding(s.agents[s.lock.value].phase))
    && (forall a :: a in s.agents && Holding(s.agents[a].phase) ==> s.lock == Some(a))
  }

  /** Between the end of acquire and the start of release the sidecar is the holder's own. */
  predicate SidecarFits(s: State) {
    && (forall a :: a in s.agents && s.agents[a].phase == Serving ==> s.sidecar == Record(s.agents[a].proc))
    && (forall a :: a in s.agents && s.agents[a].phase == Writing(false) ==> s.sidecar == Absent)
    && (forall a :: a in s.agents && s.agents[a].phase.Probed? && s.agents[a].phase.ok ==> s.sidecar == Absent)
  }

  /** The process a call is about to terminate, or says it has. */
  function Target(ph: Phase): Option<Proc> {
    if ph.StopChecked? || ph.StopOpened? || ph.StopVerified? || ph.StopArmed? || ph.StopWait? then Some(ph.p)
    else if (ph.Probing? || ph.Probed?) && ph.k.FinalProbe? then Some(ph.k.p)
    else if ph.Finished? && ph.r.Stopped? then Some(ph.r.p)
    else None
  }

  predicate Terminated(ph: Phase) {
    Target(ph).Some? && !ph.StopChecked? && !ph.StopOpened? && !ph.StopVerified? && !ph.StopArmed?
  }

  /** Live processes have distinct pids, and only live processes have calls. */
  predicate Processes(s: State) {
    && s.alive <= s.ever
    && (forall p, q :: p in s.alive && q in s.alive && p.pid == q.pid ==> p == q)
    && (forall a :: a in s.agents ==> s.agents[a].proc in s.alive)
  }

  /** The sidecar, and every process a stop is about to terminate or has terminated, was recorded
      by that process itself under the lock. */
  predicate Records(s: State) {
    && s.killed <= s.recorded <= s.ever
    && (s.sidecar.Record? ==> s.sidecar.p in s.recorded)
    && (forall a :: a in s.agents && Target(s.agents[a].phase).Some? ==> Target(s.agents[a].phase).value in s.recorded)
  }

  /** A process reported or about to be reported as stopped is dead. */
  predicate StoppedIsDead(s: State) {
    forall a :: a in s.agents && Terminated(s.agents[a].phase) ==> Target(s.agents[a].phase).value !in s.alive
  }

  predicate Inv(s: State) {
    Exclusive(s) && SidecarFits(s) && Processes(s) && Records(s) && StoppedIsDead(s)
  }

  // ---- every step keeps the invariant ----

  /** The call that takes a step, if it is a call's step. */
  function Actor(act: Action): Option<nat> {
    match act
    case Spawn(_) => None
    case Call(a, _) => Some(a)
    case Crash(_) => None
    case AcquireTry(a, _) => Some(a)
    case StatusTry(a) => Some(a)
    case StopStart(a) => Some(a)
    case StopTryLock(a) => Some(a)
    case RemoveStale(a, _) => Some(a)
    case Create(a, _) => Some(a)
    case FinishWrite(a, _, _) => Some(a)
    case Abort(a) => Some(a)
    case ReleaseRemove(a, _) => Some(a)
    case ReleaseUnlock(a) => Some(a)
    case ProbeRemove(a, _) => Some(a)
    case ProbeUnlock(a) => Some(a)
    case ReadHolder(a) => Some(a)
    case OpenHandle(a) => Some(a)
    case Reverify(a) => Some(a)
    case ReverifyLock(a) => Some(a)
    case Unprobe(a) => Some(a)
    case Kill(a) => Some(a)
    case Poll(a) => Some(a)
    case GiveUp(a) => Some(a)
  }

  /** What one step can do to the rest of the system: other calls keep their phase or die with
      their process, and the lock and the sidecar change only in the hands of their holder. */
  predicate Local(s: State, a: Option<nat>, t: State) {
    && (forall b :: b in t.agents && a != Some(b) ==> b in s.agents && t.agents[b] == s.agents[b])
    && (t.sidecar != s.sidecar ==> s.lock.Some? && s.lock == a)
    && (t.lock.Some? && t.lock != s.lock ==> s.lock.None? && t.lock == a && t.lock.value in t.agents)
    && (s.lock.Some? && t.lock != s.lock ==> t.lock.None? && (s.lock == a || s.lock.value !in t.agents))
    && (s.lock.Some? && s.lock.value !in t.agents ==> t.lock.None?)
  }

  lemma StepIsLocal(s: State, act: Action)
    requires Enabled(s, act) && Exclusive(s)
    ensures Local(s, Actor(act), Next(s, act))
  {
    hide Local, NextOfAcquire, NextOfStop, NextOfSystem;
    if OfAcquire(act) {
      AcquireIsLocal(s, act);
    } else if !OfSystem(act) {
      StopIsLocal(s, act);
    } else {
      SystemIsLocal(s, act);
    }
  }

  lemma AcquireIsLocal(s: State, act: Action)
    requires Enabled(s, act) && Exclusive(s) && OfAcquire(act)
    ensures Local(s, Actor(act), NextOfAcquire(s, act))
  {}

  lemma StopIsLocal(s: State, act: Action)
    requires Enabled(s, act) && Exclusive(s) && !OfSystem(act) && !OfAcquire(act)
    ensures Local(s, Actor(act), NextOfStop(s, act))
  {}

  lemma SystemIsLocal(s: State, act: Action)
    requires Enabled(s, act) && Exclusive(s) && OfSystem(act)
    ensures Local(s, Actor(act), NextOfSystem(s, act))
  {}

  /** What holds of the call that took the step. */
  predicate Own(t: State, a: nat)
  {
    a in t.agents ==>
      var g := t.agents[a];
      && (Holding(g.phase) <==> t.lock == Some(a))
      && (g.phase == Serving ==> t.sidecar == Record(g.proc))
      && (g.phase == Writing(false) ==> t.sidecar == Absent)
      && (g.phase.Probed? && g.phase.ok ==> t.sidecar == Absent)
      && (Target(g.phase).Some? ==> Target(g.phase).value in t.recorded)
      && (Terminated(g.phase) ==> Target(g.phase).value !in t.alive)
  }

  lemma StepOwn(s: State, act: Action)
    requires Enabled(s, act) && Inv(s) && Actor(act).Some?
    ensures Own(Next(s, act), Actor(act).value)
  {
    InvOwn(s, Actor(act).value);
    hide Inv, Own, NextOfAcquire, NextOfStop, NextOfSystem;
    if OfSystem(act) {
      CallOwn(s, act);
    } else if OfAcquire(act) {
      AcquireOwn(s, act);
    } else if act.Kill? {
      KillOwn(s, act);
    } else {
      StopOwn(s, act);
    }
  }

  lemma InvOwn(s: State, a: nat)
    requires Inv(s)
    ensures Own(s, a) && (s.lock.Some? ==> s.lock.value in s.agents)
    ensures s.sidecar.Record? ==> s.sidecar.p in s.recorded
  {
    assert a in s.agents ==> (Holding(s.agents[a].phase) <==> s.lock == Some(a));
  }

  lemma CallOwn(s: State, act: Action)
    requires Enabled(s, act) && act.Call? && (s.lock.Some? ==> s.lock.value in s.agents)
    ensures Own(NextOfSystem(s, act), act.a)
  {}

  lemma AcquireOwn(s: State, act: Action)
    requires Enabled(s, act) && OfAcquire(act) && Own(s, Actor(act).value)
    ensures Own(NextOfAcquire(s, act), Actor(act).value)
  {
    hide Next, Target, Terminated;
    PlainPhases();
  }

  /** Phases without a process to terminate. */
  predicate Plain(ph: Phase) {
    || ph.Idle? || ph.Retry? || ph.Taken? || ph.Writing? || ph.Aborting? || ph.Serving? || ph.Releasing? || ph.StopTry?
    || (ph.Finished? && !ph.r.Stopped?)
  }

  lemma PlainPhases()
    ensures forall ph: Phase :: Plain(ph) ==> Target(ph).None? && !Terminated(ph)
  {}

  lemma KillOwn(s: State, act: Action)
    requires Enabled(s, act) && act.Kill? && Own(s, act.a)
    ensures Own(NextOfStop(s, act), act.a)
  {}

  lemma StopOwn(s: State, act: Action)
    requires Enabled(s, act) && !OfSystem(act) && !OfAcquire(act) && !act.Kill? && Own(s, Actor(act).value)
    requires s.sidecar.Record? ==> s.sidecar.p in s.recorded
    ensures Own(NextOfStop(s, act), Actor(act).value)
  {
    hide Next, Die;
  }

  /** What one step does to the processes and the history. */
  predicate Onward(s: State, t: State) {
    && s.ever <= t.ever && s.recorded <= t.recorded
    && (forall p :: p in t.alive && p in s.ever ==> p in s.alive)
  }

  predicate OfProcess(act: Action) {
    act.Spawn? || act.Call? || act.Crash? || act.Kill?
  }

  lemma StepOnward(s: State, act: Action)
    requires Enabled(s, act) && Processes(s) && Records(s)
    ensures Onward(s, Next(s, act)) && Processes(Next(s, act))
  {
    hide Target, Terminated;
    if !OfProcess(act) {
      CallsStay(s, act);
    }
  }

  /** A step that starts or ends no process keeps every call with its process. */
  predicate SameCalls(s: State, t: State) {
    && t.alive == s.alive && t.ever == s.ever && s.recorded <= t.recorded && t.agents.Keys == s.agents.Keys
    && forall b :: b in t.agents ==> t.agents[b].proc == s.agents[b].proc
  }

  lemma CallsStay(s: State, act: Action)
    requires Enabled(s, act) && !OfProcess(act)
    ensures SameCalls(s, Next(s, act))
  {
    hide SameCalls, NextOfAcquire, NextOfStop;
    if OfAcquire(act) {
      AcquireKeepsCalls(s, act);
    } else {
      StopKeepsCalls(s, act);
    }
  }

  lemma AcquireKeepsCalls(s: State, act: Action)
    requires Enabled(s, act) && OfAcquire(act)
    ensures SameCalls(s, NextOfAcquire(s, act))
  {}

  lemma StopKeepsCalls(s: State, act: Action)
    requires Enabled(s, act) && !OfSystem(act) && !OfAcquire(act) && !act.Kill?
    ensures SameCalls(s, NextOfStop(s, act))
  {
    hide Die;
  }

  lemma StepHistory(s: State, act: Action)
    requires Enabled(s, act) && Processes(s) && Records(s)
    ensures var t := Next(s, act);
            t.killed <= t.recorded <= t.ever && (t.sidecar.Record? ==> t.sidecar.p in t.recorded)
  {
    hide Die, Terminated, NextOfAcquire, NextOfStop;
    DieKeepsHistory();
    if OfAcquire(act) {
      AcquireHistory(s, act);
    } else if !OfSystem(act) {
      StopHistory(s, act);
    }
  }

  /** Acquire and release record only their own process. */
  lemma AcquireHistory(s: State, act: Action)
    requires Enabled(s, act) && OfAcquire(act)
    ensures var t, p := NextOfAcquire(s, act), s.agents[Actor(act).value].proc;
      && t.killed == s.killed && t.ever == s.ever && s.recorded <= t.recorded <= s.recorded + {p}
      && (t.sidecar.Record? ==> t.sidecar == s.sidecar || (t.sidecar.p == p && p in t.recorded))
  {}

  /** Status and stop record nothing, and terminate only their target. */
  lemma StopHistory(s: State, act: Action)
    requires Enabled(s, act) && !OfSystem(act) && !OfAcquire(act)
    ensures var t := NextOfStop(s, act);
      && t.ever == s.ever && t.recorded == s.recorded && (t.sidecar == s.sidecar || t.sidecar == Absent)
      && s.killed <= t.killed
      && forall p :: p in t.killed && p !in s.killed ==> Target(s.agents[Actor(act).value].phase) == Some(p)
  {
    hide Die;
    DieKeepsHistory();
  }

  lemma DieKeepsHistory()
    ensures forall t: State, p :: var d := Die(t, p);
      d.killed == t.killed && d.recorded == t.recorded && d.ever == t.ever && d.sidecar == t.sidecar
  {}

  /** What a step does, as far as the invariant is concerned. */
  predicate Moves(s: State, a: Option<nat>, t: State) {
    && Inv(s) && Local(s, a, t) && Onward(s, t) && Processes(t)
    && t.killed <= t.recorded <= t.ever && (t.sidecar.Record? ==> t.sidecar.p in t.recorded)
    && (a.Some? ==> Own(t, a.value))
  }

  lemma MovesKeepExclusive(s: State, a: Option<nat>, t: State)
    requires Moves(s, a, t)
    ensures Exclusive(t)
  {
    hide Holding, Target, Terminated, SidecarFits, Records, StoppedIsDead, Processes, Onward;
  }

  lemma MovesKeepSidecar(s: State, a: Option<nat>, t: State)
    requires Moves(s, a, t)
    ensures SidecarFits(t)
  {
    hide Target, Terminated, Records, StoppedIsDead, Processes, Onward;
    forall b | b in t.agents && a != Some(b) && Holding(t.agents[b].phase) ensures t.sidecar == s.sidecar {
      assert s.lock == Some(b);
    }
  }

  lemma MovesKeepTargets(s: State, a: Option<nat>, t: State)
    requires Moves(s, a, t)
    ensures Records(t) && StoppedIsDead(t)
  {
    hide Holding, Exclusive, SidecarFits;
    forall b | b in t.agents && Target(t.agents[b].phase).Some?
      ensures Target(t.agents[b].phase).value in t.recorded
      ensures Terminated(t.agents[b].phase) ==> Target(t.agents[b].phase).value !in t.alive
    {
      if a != Some(b) {
        assert t.agents[b] == s.agents[b];
      }
    }
  }

  /** Every step of every call, spawn or crash keeps the invariant. */
  lemma StepKeepsInv(s: State, act: Action)
    requires Enabled(s, act) && Inv(s)
    ensures Inv(Next(s, act)) && Moves(s, Actor(act), Next(s, act))
  {
    hide Next, Enabled, Target, Terminated, Holding;
    var t, a := Next(s, act), Actor(act);
    StepIsLocal(s, act);
    StepOnward(s, act);
    StepHistory(s, act);
    if a.Some? {
      StepOwn(s, act);
    }
    hide Exclusive, SidecarFits, Records, StoppedIsDead, Processes, Onward, Local, Own, Actor;
    MovesKeepExclusive(s, a, t);
    MovesKeepSidecar(s, a, t);
    MovesKeepTargets(s, a, t);
  }

  // ---- what the protocol guarantees over every run ----

  ghost predicate IsRun(s: State, acts: seq<Action>)
    decreases |acts|
  {
    acts == [] || (Enabled(s, acts[0]) && IsRun(Next(s, acts[0]), acts[1..]))
  }

  function Final(s: State, acts: seq<Action>): State
    requires IsRun(s, acts)
    decreases |acts|
  {
    if acts == [] then s else Final(Next(s, acts[0]), acts[1..])
  }

  /** Every state of every run of the protocol satisfies the invariant. */
  lemma {:induction false} RunKeepsInv(s: State, acts: seq<Action>)
    requires Inv(s) && IsRun(s, acts)
    ensures Inv(Final(s, acts))
    decreases |acts|
  {
    if acts != [] {
      StepKeepsInv(s, acts[0]);
      RunKeepsInv(Next(s, acts[0]), acts[1..]);
    }
  }

  /** After any run: one lock holder at most; a serving daemon's sidecar is its own record; every
      terminated process had recorded itself; a process reported as stopped is dead. */
  lemma EveryRunIsSafe(acts: seq<Action>)
    requires IsRun(START, acts)
    ensures var s := Final(START, acts);
      && (forall a, b :: a in s.agents && b in s.agents && Holding(s.agents[a].phase) && Holding(s.agents[b].phase) ==> a == b)
      && (forall a :: a in s.agents && s.agents[a].phase == Serving ==> s.lock == Some(a) && s.sidecar == Record(s.agents[a].proc))
      && s.killed <= s.recorded
      && (forall a :: a in s.agents && s.agents[a].phase.Finished? && s.agents[a].phase.r.Stopped? ==>
            s.agents[a].phase.r.p in s.recorded && s.agents[a].phase.r.p !in s.alive)
  {
    RunKeepsInv(START, acts);
    var s := Final(START, acts);
    forall a | a in s.agents && s.agents[a].phase.Finished? && s.agents[a].phase.r.Stopped?
      ensures s.agents[a].phase.r.p in s.recorded && s.agents[a].phase.r.p !in s.alive
    {
      assert Target(s.agents[a].phase) == Some(s.agents[a].phase.r.p) && Terminated(s.agents[a].phase);
    }
  }

  /** In every reachable state, whatever step comes next: the sidecar is created, replaced or
      removed only by the call that holds the lock; and only a step of stop that named a recorded,
      still running process terminates one. */
  lemma StepsAreGuarded(s: State, act: Action)
    requires Inv(s) && Enabled(s, act)
    ensures Next(s, act).sidecar != s.sidecar ==> s.lock.Some? && s.lock == Actor(act)
    ensures forall p :: p in Next(s, act).killed && p !in s.killed ==>
              act.Kill? && s.agents[act.a].phase == StopArmed(p) && p in s.recorded && p in s.alive
  {
    StepIsLocal(s, act);
    if act.Kill? {
      assert Target(s.agents[act.a].phase) == Some(s.agents[act.a].phase.p);
    } else {
      KillsOnly(s, act);
    }
  }

  lemma KillsOnly(s: State, act: Action)
    requires Enabled(s, act) && !act.Kill?
    ensures Next(s, act).killed == s.killed
  {}

  predicate ReportsStopped(s: State, a: nat, p: Proc) {
    At(s, a, Finished(Stopped(p)))
  }

  /** Stop reports success only in the step in which it gives back a lock it took itself, with the
      sidecar removed under it and the terminated process gone. */
  lemma StoppedOnlyUnderLock(s: State, act: Action, a: nat, p: Proc)
    requires Inv(s) && Enabled(s, act) && !ReportsStopped(s, a, p) && ReportsStopped(Next(s, act), a, p)
    ensures Actor(act) == Some(a) && s.lock == Some(a) && s.sidecar == Absent
    ensures p in s.recorded && p !in s.alive
  {
    StepIsLocal(s, act);
    OnlyUnlockReports(s, act, a, p);
    var ph := s.agents[a].phase;
    assert Holding(ph) && Target(ph) == Some(p) && Terminated(ph);
  }

  lemma OnlyUnlockReports(s: State, act: Action, a: nat, p: Proc)
    requires Enabled(s, act) && Actor(act) == Some(a) && !ReportsStopped(s, a, p) && ReportsStopped(Next(s, act), a, p)
    ensures At(s, a, Probed(FinalProbe(p), true))
  {}

  // ---- what the other reports mean ----

  /** The step brings call a to that phase. */
  predicate Comes(s: State, act: Action, a: nat, ph: Phase)
    requires Enabled(s, act)
  {
    !At(s, a, ph) && At(Next(s, act), a, ph)
  }

  /** Another call holds the lock. */
  predicate HeldByOther(s: State, a: nat) {
    s.lock.Some? && s.lock.value != a && s.lock.value in s.agents && Holding(s.agents[s.lock.value].phase)
  }

  /** Status reports a running daemon, and acquire an already running one, only when another call
      holds the lock at that moment; not running is reported only in the step that gives back a
      lock the call took itself, with the sidecar gone; release reports success only in the step
      that unlocks. */
  lemma ReportsAreRight(s: State, act: Action, a: nat)
    requires Inv(s) && Enabled(s, act)
    ensures Comes(s, act, a, Finished(Running)) ==> act == StatusTry(a) && HeldByOther(s, a)
    ensures Comes(s, act, a, Finished(AlreadyRunning)) ==> act == AcquireTry(a, false) && HeldByOther(s, a)
    ensures Comes(s, act, a, Finished(NotRunning)) ==>
              act == ProbeUnlock(a) && s.lock == Some(a) && s.sidecar == Absent && Next(s, act).lock == None
    ensures Comes(s, act, a, Finished(Released)) ==>
              act == ReleaseUnlock(a) && s.lock == Some(a) && Next(s, act).lock == None
  {
    StepIsLocal(s, act);
    hide Local, Inv, Exclusive, SidecarFits, Target, Terminated;
    if Actor(act) == Some(a) {
      if a in s.agents {
        OwnReports(s, act, a);
        LockedElsewhere(s, a);
      }
    } else {
      OthersStay(s, act, a);
    }
  }

  lemma OthersStay(s: State, act: Action, a: nat)
    requires Enabled(s, act) && Actor(act) != Some(a) && Local(s, Actor(act), Next(s, act))
    ensures forall ph :: !Comes(s, act, a, ph)
  {
    hide Next;
  }

  /** Where each report comes from, in the phases of the call itself. */
  predicate RightReport(s: State, act: Action, a: nat, t: State)
    requires a in s.agents
  {
    && (At(t, a, Finished(Running)) ==> act == StatusTry(a) && s.lock.Some?)
    && (At(t, a, Finished(AlreadyRunning)) ==> act == AcquireTry(a, false) && s.lock.Some?)
    && (At(t, a, Finished(NotRunning)) ==>
          act == ProbeUnlock(a) && s.agents[a].phase.Probed? && s.agents[a].phase.ok && t.lock == None)
    && (At(t, a, Finished(Released)) ==> act == ReleaseUnlock(a) && At(s, a, Releasing) && t.lock == None)
  }

  lemma OwnReports(s: State, act: Action, a: nat)
    requires Enabled(s, act) && Actor(act) == Some(a) && a in s.agents && !OfSystem(act)
    ensures RightReport(s, act, a, Next(s, act))
  {
    hide NextOfAcquire, NextOfStop, RightReport;
    if OfAcquire(act) {
      AcquireReports(s, act, a);
    } else {
      StopReports(s, act, a);
    }
  }

  lemma AcquireReports(s: State, act: Action, a: nat)
    requires Enabled(s, act) && Actor(act) == Some(a) && OfAcquire(act)
    ensures RightReport(s, act, a, NextOfAcquire(s, act))
  {}

  lemma StopReports(s: State, act: Action, a: nat)
    requires Enabled(s, act) && Actor(act) == Some(a) && !OfAcquire(act) && !OfSystem(act)
    ensures RightReport(s, act, a, NextOfStop(s, act))
  {
    hide Die;
    if act.Kill? {
      DieKeepsPhases();
    }
  }

  /** A call that outlives another process's end keeps its phase. */
  lemma DieKeepsPhases()
    ensures forall s: State, p, a, ph :: At(Die(s, p), a, ph) ==> At(s, a, ph)
  {}

  /** What the invariant says of a call and the lock. */
  lemma LockedElsewhere(s: State, a: nat)
    requires Inv(s) && a in s.agents
    ensures !Holding(s.agents[a].phase) && s.lock.Some? ==> HeldByOther(s, a)
    ensures Holding(s.agents[a].phase) ==> s.lock == Some(a)
    ensures s.agents[a].phase.Probed? && s.agents[a].phase.ok ==> s.sidecar == Absent
  {}

  /** The converse: a busy lock is always reported as a running daemon, a free one never; and a
      probe that removed the sidecar reports what it found, or lets a replacing call retry. */
  lemma ReportsAreGiven(s: State, act: Action, a: nat)
    requires Inv(s) && Enabled(s, act) && Actor(act) == Some(a)
    ensures act.StatusTry? ==>
      (if s.lock.Some? then Comes(s, act, a, Finished(Running)) else Comes(s, act, a, Probing(StatusProbe)))
    ensures act.AcquireTry? && !act.replace ==>
      (if s.lock.Some? then Comes(s, act, a, Finished(AlreadyRunning)) else Comes(s, act, a, Taken))
    ensures act.ProbeUnlock? && s.agents[a].phase.ok ==>
      var ph := s.agents[a].phase;
      if s.agents[a].replacing && !ph.k.StatusProbe? then Comes(s, act, a, Retry)
      else if ph.k.FinalProbe? then Comes(s, act, a, Finished(Stopped(ph.k.p)))
      else Comes(s, act, a, Finished(NotRunning))
    ensures act.ProbeUnlock? && !s.agents[a].phase.ok ==> Comes(s, act, a, Finished(Failed))
  {
    hide Inv;
  }

  /** What holds the lock need not be a daemon: while one status call probes a free lock, another
      one reports a running daemon and acquire refuses, although no daemon serves. */
  lemma RunningWithoutDaemon(s: State, a: nat, b: nat)
    requires Inv(s) && s.lock.None? && a != b && At(s, a, Idle) && At(s, b, Idle)
    ensures var t := Next(s, StatusTry(a));
      && (forall c :: !At(t, c, Serving)) && t.sidecar == s.sidecar
      && At(t, b, Idle)
      && Comes(t, StatusTry(b), b, Finished(Running))
      && Comes(t, AcquireTry(b, false), b, Finished(AlreadyRunning))
  {
    hide Target, Terminated, Records, StoppedIsDead;
  }

  /** Acquire stops at most one holder: after a replace it takes the lock, finds it taken again and
      says so, or fails. */
  lemma RetriesOnce(s: State, act: Action, a: nat)
    requires Enabled(s, act) && At(s, a, Retry) && Actor(act) == Some(a)
    ensures Comes(s, act, a, Taken) || Comes(s, act, a, Finished(AlreadyRunning)) || Comes(s, act, a, Finished(Failed))
    ensures Comes(s, act, a, Taken) ==> s.lock.None?
    ensures Comes(s, act, a, Finished(AlreadyRunning)) ==> s.lock.Some?
  {}

  /** Until it has reported, a call always has a step of its own to take besides giving up. */
  lemma NoCallIsStuck(s: State, a: nat) returns (act: Action)
    requires Inv(s) && a in s.agents && !s.agents[a].phase.Finished?
    ensures Enabled(s, act) && Actor(act) == Some(a) && !act.GiveUp?
  {
    act := NextStep(s.agents[a].phase, a);
    hide Exclusive, Processes, Records, StoppedIsDead, Holding;
  }

  function NextStep(ph: Phase, a: nat): Action {
    match ph
    case Idle => StatusTry(a)
    case Retry => AcquireTry(a, false)
    case Taken => RemoveStale(a, true)
    case Writing(created) => if created then FinishWrite(a, true, Absent) else Create(a, true)
    case Aborting => Abort(a)
    case Serving => ReleaseRemove(a, true)
    case Releasing => ReleaseUnlock(a)
    case Probing(_) => ProbeRemove(a, true)
    case Probed(_, _) => ProbeUnlock(a)
    case StopTry => StopTryLock(a)
    case StopRead => ReadHolder(a)
    case StopChecked(_) => OpenHandle(a)
    case StopOpened(_) => Reverify(a)
    case StopVerified(_) => ReverifyLock(a)
    case Unprobing => Unprobe(a)
    case StopArmed(_) => Kill(a)
    case StopWait(_) => Poll(a)
    case Finished(_) => GiveUp(a)
  }

  /** A report is final: no step changes what a finished call has reported while its process lives. */
  lemma ReportsAreFinal(s: State, act: Action, a: nat, r: Report)
    requires Inv(s) && Enabled(s, act) && At(s, a, Finished(r)) && a in Next(s, act).agents
    ensures At(Next(s, act), a, Finished(r))
  {
    StepIsLocal(s, act);
    hide Next, Inv, Exclusive;
  }

  /** What each step does to the sidecar: a removal that succeeds leaves none and one that fails leaves
      it alone, a record that is completed names the writer, and no other step touches it. */
  lemma SidecarSteps(s: State, act: Action)
    requires Enabled(s, act)
    ensures act.RemoveStale? || act.ReleaseRemove? || act.ProbeRemove? ==>
              Next(s, act).sidecar == if act.ok then Absent else s.sidecar
    ensures act.Create? ==> Next(s, act).sidecar == if act.ok then Partial else s.sidecar
    ensures act.FinishWrite? ==> Next(s, act).sidecar == if act.ok then Record(s.agents[act.a].proc) else act.left
    ensures !(act.RemoveStale? || act.ReleaseRemove? || act.ProbeRemove? || act.Create? || act.FinishWrite?) ==>
              Next(s, act).sidecar == s.sidecar
  {
    hide Die;
    DieKeepsHistory();
  }

  // ---- what a stop checked before it terminates a process ----

  /** How a call of stop advances: it names p after reading p's record, which is not its own pid;
      goes on when p itself still runs; again when the record is unchanged; and is ready to
      terminate p when another call still holds the lock. */
  lemma StopAdvances(s: State, act: Action, a: nat, p: Proc)
    requires Inv(s) && Enabled(s, act)
    ensures Comes(s, act, a, StopChecked(p)) ==>
              act == ReadHolder(a) && At(s, a, StopRead) && s.sidecar == Record(p) && p.pid != s.agents[a].proc.pid
    ensures Comes(s, act, a, StopOpened(p)) ==> act == OpenHandle(a) && At(s, a, StopChecked(p)) && p in s.alive
    ensures Comes(s, act, a, StopVerified(p)) ==> act == Reverify(a) && At(s, a, StopOpened(p)) && s.sidecar == Record(p)
    ensures Comes(s, act, a, StopArmed(p)) ==> act == ReverifyLock(a) && At(s, a, StopVerified(p)) && HeldByOther(s, a)
    ensures Comes(s, act, a, StopWait(p)) ==>
              || (act == Kill(a) && At(s, a, StopArmed(p)))
              || (act == OpenHandle(a) && At(s, a, StopChecked(p)) && forall q :: q in s.alive ==> q.pid != p.pid)
  {
    StepIsLocal(s, act);
    hide Local, Inv, Exclusive, SidecarFits, Target, Terminated;
    if Actor(act) == Some(a) {
      if a in s.agents {
        OwnAdvances(s, act, a, p);
        LockedElsewhere(s, a);
      }
    } else {
      OthersStay(s, act, a);
    }
  }

  /** StopAdvances, in the phases of the call itself. */
  predicate Advances(s: State, act: Action, a: nat, p: Proc, t: State)
    requires a in s.agents
  {
    && (At(t, a, StopChecked(p)) ==>
          act == ReadHolder(a) && At(s, a, StopRead) && s.sidecar == Record(p) && p.pid != s.agents[a].proc.pid)
    && (At(t, a, StopOpened(p)) ==> act == OpenHandle(a) && At(s, a, StopChecked(p)) && p in s.alive)
    && (At(t, a, StopVerified(p)) ==> act == Reverify(a) && At(s, a, StopOpened(p)) && s.sidecar == Record(p))
    && (At(t, a, StopArmed(p)) ==> act == ReverifyLock(a) && At(s, a, StopVerified(p)) && s.lock.Some?)
    && (At(t, a, StopWait(p)) && !At(s, a, StopWait(p)) ==>
          || (act == Kill(a) && At(s, a, StopArmed(p)))
          || (act == OpenHandle(a) && At(s, a, StopChecked(p)) && forall q :: q in s.alive ==> q.pid != p.pid))
  }

  lemma OwnAdvances(s: State, act: Action, a: nat, p: Proc)
    requires Enabled(s, act) && Actor(act) == Some(a) && a in s.agents && !OfSystem(act)
    ensures Advances(s, act, a, p, Next(s, act))
  {
    hide NextOfAcquire, NextOfStop, Advances;
    if OfAcquire(act) {
      AcquireAdvances(s, act, a, p);
    } else {
      StopCallAdvances(s, act, a, p);
    }
  }

  lemma AcquireAdvances(s: State, act: Action, a: nat, p: Proc)
    requires Enabled(s, act) && Actor(act) == Some(a) && OfAcquire(act)
    ensures Advances(s, act, a, p, NextOfAcquire(s, act))
  {}

  lemma StopCallAdvances(s: State, act: Action, a: nat, p: Proc)
    requires Enabled(s, act) && Actor(act) == Some(a) && !OfAcquire(act) && !OfSystem(act)
    ensures Advances(s, act, a, p, NextOfStop(s, act))
  {
    hide Die;
    if act.Kill? {
      DieKeepsPhases();
    }
  }

  /** The state of a run after its first n steps. */
  ghost function StateAt(acts: seq<Action>, n: nat): State
    requires IsRun(START, acts) && n <= |acts|
  {
    PrefixRuns(START, acts, n);
    Final(START, acts[..n])
  }

  lemma {:induction false} PrefixRuns(s: State, acts: seq<Action>, n: nat)
    requires IsRun(s, acts) && n <= |acts|
    ensures IsRun(s, acts[..n])
    ensures n < |acts| ==> Enabled(Final(s, acts[..n]), acts[n]) && IsRun(s, acts[..n + 1])
    ensures n < |acts| ==> Final(s, acts[..n + 1]) == Next(Final(s, acts[..n]), acts[n])
    decreases n
  {
    hide Enabled, Next;
    if n == 0 {
      assert n < |acts| ==> acts[..1] == [acts[0]] && acts[..1][1..] == [];
    } else {
      PrefixRuns(Next(s, acts[0]), acts[1..], n - 1);
      assert acts[..n][1..] == acts[1..][..n - 1];
      assert n < |acts| ==> acts[..n + 1][1..] == acts[1..][..n];
    }
  }

  lemma StateAtIsReachable(acts: seq<Action>, n: nat)
    requires IsRun(START, acts) && n <= |acts|
    ensures Inv(StateAt(acts, n))
    ensures n < |acts| ==> Enabled(StateAt(acts, n), acts[n]) && StateAt(acts, n + 1) == Next(StateAt(acts, n), acts[n])
  {
    PrefixRuns(START, acts, n);
    RunKeepsInv(START, acts[..n]);
  }

  /** Call a read p's record in step i. */
  ghost predicate ReadAt(acts: seq<Action>, a: nat, p: Proc, i: int)
    requires IsRun(START, acts)
  {
    0 <= i < |acts| && acts[i] == ReadHolder(a) && StateAt(acts, i).sidecar == Record(p)
  }

  /** Call a found p's record unchanged in step j. */
  ghost predicate ReadAgainAt(acts: seq<Action>, a: nat, p: Proc, j: int)
    requires IsRun(START, acts)
  {
    0 <= j < |acts| && acts[j] == Reverify(a) && StateAt(acts, j).sidecar == Record(p)
  }

  /** Call a found the lock still held by another call in step k. */
  ghost predicate BusyAt(acts: seq<Action>, a: nat, k: int)
    requires IsRun(START, acts)
  {
    0 <= k < |acts| && acts[k] == ReverifyLock(a) && HeldByOther(StateAt(acts, k), a)
  }

  lemma {:induction false} StopTrace(acts: seq<Action>, n: nat, a: nat, p: Proc)
    requires IsRun(START, acts) && n <= |acts|
    ensures var s := StateAt(acts, n);
      && (At(s, a, StopChecked(p)) || At(s, a, StopOpened(p)) ==> exists i :: ReadAt(acts, a, p, i) && i < n)
      && (At(s, a, StopVerified(p)) ==> exists i, j :: ReadAt(acts, a, p, i) && ReadAgainAt(acts, a, p, j) && i < j < n)
      && (At(s, a, StopArmed(p)) ==>
            exists i, j, k :: ReadAt(acts, a, p, i) && ReadAgainAt(acts, a, p, j) && BusyAt(acts, a, k) && i < j < k < n)
  {
    hide Enabled, Next, Inv, StateAt, HeldByOther;
    if n > 0 {
      StopTrace(acts, n - 1, a, p);
      StateAtIsReachable(acts, n - 1);
      StopAdvances(StateAt(acts, n - 1), acts[n - 1], a, p);
      assert ReadAt(acts, a, p, n - 1) || !(acts[n - 1] == ReadHolder(a) && StateAt(acts, n - 1).sidecar == Record(p));
      assert ReadAgainAt(acts, a, p, n - 1) || !(acts[n - 1] == Reverify(a) && StateAt(acts, n - 1).sidecar == Record(p));
      assert BusyAt(acts, a, n - 1) || !(acts[n - 1] == ReverifyLock(a) && HeldByOther(StateAt(acts, n - 1), a));
    } else {
      StartIsIdle(acts, a);
    }
  }

  lemma StartIsIdle(acts: seq<Action>, a: nat)
    requires IsRun(START, acts)
    ensures StateAt(acts, 0) == START && forall ph :: !At(START, a, ph)
  {
    assert acts[..0] == [];
  }

  /** In every run, whenever stop terminates a process: the same call had read that process's
      record from the sidecar, later found it unchanged, and after that found the lock still held
      by another call. */
  lemma KilledWasVerified(acts: seq<Action>, n: nat, p: Proc)
    requires IsRun(START, acts) && n < |acts|
    requires p in StateAt(acts, n + 1).killed && p !in StateAt(acts, n).killed
    ensures exists a, i, j, k ::
              && acts[n] == Kill(a) && i < j < k < n
              && ReadAt(acts, a, p, i) && ReadAgainAt(acts, a, p, j) && BusyAt(acts, a, k)
  {
    StateAtIsReachable(acts, n);
    var s := StateAt(acts, n);
    StepsAreGuarded(s, acts[n]);
    var a := acts[n].a;
    StopTrace(acts, n, a, p);
    hide StateAt, Enabled, Next, Inv, ReadAt, ReadAgainAt, BusyAt;
    var i, j, k :| ReadAt(acts, a, p, i) && ReadAgainAt(acts, a, p, j) && BusyAt(acts, a, k) && i < j < k < n;
    assert acts[n] == Kill(a);
  }

  // ---- what the operations achieve when nothing goes wrong ----

  /** A process that starts is alive, and its call starts idle and replaces nothing. */
  lemma Starts(s: State, act: Action)
    requires Enabled(s, act) && OfSystem(act) && !act.Crash?
    ensures act.Spawn? ==> Next(s, act).alive == s.alive + {act.p} && Next(s, act).agents == s.agents
    ensures act.Call? ==> Next(s, act).agents == s.agents[act.a := Agent(act.p, Idle, false)]
    ensures Next(s, act).lock == s.lock && Next(s, act).sidecar == s.sidecar
  {}

  /** Acquire goes through its steps in order: the lock, the old sidecar removed, a new one created
      where there was none, its record completed. */
  lemma AcquireInOrder(s: State, act: Action, a: nat)
    requires Inv(s) && Enabled(s, act)
    ensures Comes(s, act, a, Taken) ==> act.AcquireTry? && act.a == a && s.lock.None?
    ensures Comes(s, act, a, Writing(false)) ==> act == RemoveStale(a, true) && At(s, a, Taken)
    ensures Comes(s, act, a, Writing(true)) ==> act == Create(a, true) && At(s, a, Writing(false)) && s.sidecar == Absent
    ensures Comes(s, act, a, Serving) ==> act.FinishWrite? && act.a == a && act.ok && At(s, a, Writing(true))
  {
    StepIsLocal(s, act);
    if Actor(act) == Some(a) {
      if !OfSystem(act) {
        OwnAcquires(s, act, a);
      }
    } else {
      OthersStay(s, act, a);
    }
    hide Local, Inv, Exclusive, Die, NextOfAcquire, NextOfStop;
  }

  /** AcquireInOrder, in the phases of the call itself. */
  predicate InOrder(s: State, act: Action, a: nat, t: State) {
    && (At(t, a, Taken) ==> act.AcquireTry? && act.a == a && s.lock.None?)
    && (At(t, a, Writing(false)) ==> act == RemoveStale(a, true) && At(s, a, Taken))
    && (At(t, a, Writing(true)) ==> act == Create(a, true) && At(s, a, Writing(false)) && s.sidecar == Absent)
    && (At(t, a, Serving) ==> act.FinishWrite? && act.a == a && act.ok && At(s, a, Writing(true)))
  }

  lemma OwnAcquires(s: State, act: Action, a: nat)
    requires Enabled(s, act) && Actor(act) == Some(a) && !OfSystem(act)
    ensures InOrder(s, act, a, Next(s, act))
  {
    hide NextOfAcquire, NextOfStop, InOrder;
    if OfAcquire(act) {
      AcquireIsInOrder(s, act, a);
    } else {
      StopIsInOrder(s, act, a);
    }
  }

  lemma AcquireIsInOrder(s: State, act: Action, a: nat)
    requires Enabled(s, act) && Actor(act) == Some(a) && OfAcquire(act)
    ensures InOrder(s, act, a, NextOfAcquire(s, act))
  {}

  lemma StopIsInOrder(s: State, act: Action, a: nat)
    requires Enabled(s, act) && Actor(act) == Some(a) && !OfAcquire(act) && !OfSystem(act)
    ensures InOrder(s, act, a, NextOfStop(s, act))
  {
    hide Die;
    if act.Kill? {
      DieKeepsPhases();
    }
  }

  lemma OneStep(s: State, act: Action, rest: seq<Action>, t: State)
    requires Enabled(s, act) && IsRun(Next(s, act), rest) && Final(Next(s, act), rest) == t
    ensures IsRun(s, [act] + rest) && Final(s, [act] + rest) == t
  {
    assert ([act] + rest)[1..] == rest;
  }

  lemma NoStep(s: State)
    ensures IsRun(s, []) && Final(s, []) == s
  {}

  /** On a free lock, acquire ends serving under its own record. */
  lemma AcquireServes(s: State, a: nat, replace: bool)
    requires s.lock.None? && At(s, a, Idle)
    ensures var acts := [AcquireTry(a, replace)] + ([RemoveStale(a, true)] + ([Create(a, true)] + ([FinishWrite(a, true, Absent)] + [])));
      && IsRun(s, acts)
      && var t := Final(s, acts);
         At(t, a, Serving) && t.lock == Some(a) && t.sidecar == Record(s.agents[a].proc)
  {
    TakesLock(s, a, replace);
    var s1 := Next(s, AcquireTry(a, replace));
    WritesRecord(s1, a);
    var s2 := Next(s1, RemoveStale(a, true));
    var s3 := Next(s2, Create(a, true));
    var s4 := Next(s3, FinishWrite(a, true, Absent));
    hide *;
    NoStep(s4);
    OneStep(s3, FinishWrite(a, true, Absent), [], s4);
    OneStep(s2, Create(a, true), [FinishWrite(a, true, Absent)] + [], s4);
    OneStep(s1, RemoveStale(a, true), [Create(a, true)] + ([FinishWrite(a, true, Absent)] + []), s4);
    OneStep(s, AcquireTry(a, replace), [RemoveStale(a, true)] + ([Create(a, true)] + ([FinishWrite(a, true, Absent)] + [])), s4);
  }

  lemma TakesLock(s: State, a: nat, replace: bool)
    requires s.lock.None? && At(s, a, Idle)
    ensures Enabled(s, AcquireTry(a, replace))
    ensures var t := Next(s, AcquireTry(a, replace));
            At(t, a, Taken) && t.lock == Some(a) && t.agents[a].proc == s.agents[a].proc
  {
    hide NextOfStop, NextOfSystem;
  }

  lemma WritesRecord(s: State, a: nat)
    requires At(s, a, Taken)
    ensures Enabled(s, RemoveStale(a, true))
    ensures var s2 := Next(s, RemoveStale(a, true));
      Enabled(s2, Create(a, true))
      && var s3 := Next(s2, Create(a, true));
         Enabled(s3, FinishWrite(a, true, Absent))
         && var t := Next(s3, FinishWrite(a, true, Absent));
            At(t, a, Serving) && t.lock == s.lock && t.sidecar == Record(s.agents[a].proc)
  {
    hide NextOfStop, NextOfSystem;
  }

  /** The steps of a stop that finds a daemon, and what they lead to when none fails. */
  function StopSteps(a: nat): seq<Action> {
    [StopStart(a), StopTryLock(a), ReadHolder(a), OpenHandle(a), Reverify(a), ReverifyLock(a)] + KillSteps(a)
  }

  function KillSteps(a: nat): seq<Action> {
    [Kill(a), Poll(a), ProbeRemove(a, true), ProbeUnlock(a)]
  }

  /** Call b serves for process p, and the idle call a belongs to another process. */
  predicate CanStop(s: State, a: nat, b: nat, p: Proc) {
    && s.lock == Some(b) && b in s.agents && s.agents[b].proc == p && s.sidecar == Record(p) && p in s.alive
    && a in s.agents && a != b && s.agents[a].proc.pid != p.pid && !s.agents[a].replacing
  }

  /** A stop none of whose steps fails ends with the daemon's process gone, the lock free, no sidecar,
      and the report that it was stopped. */
  lemma StopStops(s: State, a: nat, b: nat)
    requires Inv(s) && At(s, a, Idle) && At(s, b, Serving)
    requires s.agents[a].proc.pid != s.agents[b].proc.pid && !s.agents[a].replacing
    ensures IsRun(s, StopSteps(a))
    ensures var p, t := s.agents[b].proc, Final(s, StopSteps(a));
      && At(t, a, Finished(Stopped(p))) && p in t.killed && p !in t.alive && t.lock == None && t.sidecar == Absent
  {
    var p := s.agents[b].proc;
    assert s.lock == Some(b);
    assert CanStop(s, a, b, p);
    hide Inv, Next, Enabled, IsRun, Final, StopSteps, CanStop;
    var t := StopArms(s, a, b, p);
  }

  /** One step towards the kill: only the call's phase changes. */
  lemma StopStep(s: State, a: nat, b: nat, p: Proc, act: Action, next: Phase)
    requires CanStop(s, a, b, p)
    requires || (At(s, a, Idle) && act == StopStart(a) && next == StopTry)
             || (At(s, a, StopTry) && act == StopTryLock(a) && next == StopRead)
             || (At(s, a, StopRead) && act == ReadHolder(a) && next == StopChecked(p))
             || (At(s, a, StopChecked(p)) && act == OpenHandle(a) && next == StopOpened(p))
             || (At(s, a, StopOpened(p)) && act == Reverify(a) && next == StopVerified(p))
             || (At(s, a, StopVerified(p)) && act == ReverifyLock(a) && next == StopArmed(p))
    ensures Enabled(s, act) && CanStop(Next(s, act), a, b, p) && At(Next(s, act), a, next)
  {
    hide Die;
  }

  predicate StoppedState(u: State, a: nat, p: Proc) {
    At(u, a, Finished(Stopped(p))) && p in u.killed && p !in u.alive && u.lock == None && u.sidecar == Absent
  }

  lemma StopArms(s: State, a: nat, b: nat, p: Proc) returns (u: State)
    requires CanStop(s, a, b, p) && At(s, a, Idle)
    ensures IsRun(s, StopSteps(a)) && Final(s, StopSteps(a)) == u && StoppedState(u, a, p)
  {
    InSteps(a);
    hide *;
    var rest := KillSteps(a);
    StopStep(s, a, b, p, StopStart(a), StopTry);
    var s1 := Next(s, StopStart(a));
    StopStep(s1, a, b, p, StopTryLock(a), StopRead);
    var s2 := Next(s1, StopTryLock(a));
    StopStep(s2, a, b, p, ReadHolder(a), StopChecked(p));
    var s3 := Next(s2, ReadHolder(a));
    StopStep(s3, a, b, p, OpenHandle(a), StopOpened(p));
    var s4 := Next(s3, OpenHandle(a));
    StopStep(s4, a, b, p, Reverify(a), StopVerified(p));
    var s5 := Next(s4, Reverify(a));
    StopStep(s5, a, b, p, ReverifyLock(a), StopArmed(p));
    u := KillEnds(Next(s5, ReverifyLock(a)), a, b, p);
    OneStep(s5, ReverifyLock(a), rest, u);
    OneStep(s4, Reverify(a), [ReverifyLock(a)] + rest, u);
    OneStep(s3, OpenHandle(a), [Reverify(a)] + ([ReverifyLock(a)] + rest), u);
    OneStep(s2, ReadHolder(a), [OpenHandle(a)] + ([Reverify(a)] + ([ReverifyLock(a)] + rest)), u);
    OneStep(s1, StopTryLock(a), [ReadHolder(a)] + ([OpenHandle(a)] + ([Reverify(a)] + ([ReverifyLock(a)] + rest))), u);
    OneStep(s, StopStart(a), [StopTryLock(a)] + ([ReadHolder(a)] + ([OpenHandle(a)] + ([Reverify(a)] + ([ReverifyLock(a)] + rest)))), u);
  }

  lemma InSteps(a: nat)
    ensures StopSteps(a) == [StopStart(a)] + ([StopTryLock(a)] + ([ReadHolder(a)] + ([OpenHandle(a)] + ([Reverify(a)]
                              + ([ReverifyLock(a)] + KillSteps(a))))))
    ensures KillSteps(a) == [Kill(a)] + ([Poll(a)] + ([ProbeRemove(a, true)] + ([ProbeUnlock(a)] + [])))
  {}

  /** The kill ends the process and frees its lock. */
  lemma KillFrees(s: State, a: nat, b: nat, p: Proc)
    requires CanStop(s, a, b, p) && At(s, a, StopArmed(p))
    ensures Enabled(s, Kill(a))
    ensures var t := Next(s, Kill(a));
      At(t, a, StopWait(p)) && !t.agents[a].replacing && t.lock.None? && p in t.killed && p !in t.alive
  {}

  /** After it, stop takes the lock, removes the sidecar and gives the lock back. */
  lemma ProbeCleans(s: State, a: nat, p: Proc)
    requires At(s, a, StopWait(p)) && !s.agents[a].replacing && s.lock.None?
    ensures Enabled(s, Poll(a))
    ensures var s2 := Next(s, Poll(a));
      Enabled(s2, ProbeRemove(a, true)) && s2.killed == s.killed && s2.alive == s.alive
      && var s3 := Next(s2, ProbeRemove(a, true));
         Enabled(s3, ProbeUnlock(a)) && s3.killed == s.killed && s3.alive == s.alive
         && var u := Next(s3, ProbeUnlock(a));
            At(u, a, Finished(Stopped(p))) && u.lock == None && u.sidecar == Absent && u.killed == s.killed && u.alive == s.alive
  {
    hide Die;
  }

  lemma IsStopped(u: State, a: nat, p: Proc)
    requires At(u, a, Finished(Stopped(p))) && p in u.killed && p !in u.alive && u.lock == None && u.sidecar == Absent
    ensures StoppedState(u, a, p)
  {}

  lemma KillEnds(s: State, a: nat, b: nat, p: Proc) returns (u: State)
    requires CanStop(s, a, b, p) && At(s, a, StopArmed(p))
    ensures IsRun(s, KillSteps(a)) && Final(s, KillSteps(a)) == u && StoppedState(u, a, p)
  {
    InSteps(a);
    KillFrees(s, a, b, p);
    hide *;
    var s1 := Next(s, Kill(a));
    ProbeCleans(s1, a, p);
    var s2 := Next(s1, Poll(a));
    var s3 := Next(s2, ProbeRemove(a, true));
    u := Next(s3, ProbeUnlock(a));
    IsStopped(u, a, p);
    NoStep(u);
    OneStep(s3, ProbeUnlock(a), [], u);
    OneStep(s2, ProbeRemove(a, true), [ProbeUnlock(a)] + [], u);
    OneStep(s1, Poll(a), [ProbeRemove(a, true)] + ([ProbeUnlock(a)] + []), u);
    OneStep(s, Kill(a), [Poll(a)] + ([ProbeRemove(a, true)] + ([ProbeUnlock(a)] + [])), u);
  }
}
