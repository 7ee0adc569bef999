/** The lock classes of the artifact writers, the order they are taken in, and why any number of
    threads that keep to a relaxed form of it cannot deadlock. */
module LockOrder {
  import opened Bytes

  /** Lifecycle global, shipment membership (A), item log (C), artifact mutation (B), stash. */
  datatype Lock = Global | Membership(id: Text) | ItemLog(id: Text) | Mutation(id: Text) | Stash

  /** What a thread does with locks; Attempt marks a stash side effect being run for an item. */
  datatype Event = Acquire(l: Lock) | Release(l: Lock) | Attempt(id: Text)

  // ---- the canonical order: global, A, C, B, by item ID within a class, then the stash ----

  function Rank(l: Lock): nat {
    match l
    case Global => 0
    case Membership(_) => 1
    case ItemLog(_) => 2
    case Mutation(_) => 3
    case Stash => 4
  }

  predicate Named(l: Lock) {
    l.Membership? || l.ItemLog? || l.Mutation?
  }

  predicate Before(l: Lock, m: Lock) {
    Rank(l) < Rank(m) || (Rank(l) == Rank(m) && Named(l) && Less(l.id, m.id))
  }

  lemma BeforeTrichotomy(l: Lock, m: Lock)
    ensures Before(l, m) || Before(m, l) || l == m
    ensures !(Before(l, m) && Before(m, l)) && !Before(l, l)
  {
    if Named(l) {
      LessTrichotomy(l.id, l.id);
      if Named(m) {
        LessTrichotomy(l.id, m.id);
      }
    }
  }

  lemma BeforeTransitive(l: Lock, m: Lock, n: Lock)
    requires Before(l, m) && Before(m, n)
    ensures Before(l, n)
  {
    if Named(l) && Rank(l) == Rank(m) == Rank(n) {
      LessTransitive(l.id, m.id, n.id);
    }
  }

  // ---- traces ----

  ghost function Apply(held: set<Lock>, e: Event): set<Lock> {
    match e
    case Acquire(l) => held + {l}
    case Release(l) => held - {l}
    case Attempt(_) => held
  }

  ghost function Held(trace: seq<Event>): set<Lock> {
    if trace == [] then {} else Apply(Held(trace[..|trace| - 1]), trace[|trace| - 1])
  }

  ghost predicate Ordered(held: set<Lock>, l: Lock) {
    forall h :: h in held ==> Before(h, l)
  }

  /** The lifecycle global is taken before every other lock, and the stash only above all locks held.
      Under the global, locks of the three classes in between may be taken in any order, unless the
      stash is held; without it, only while no such lock is held. The global is released after every
      membership lock. Locks are not reentrant at this level, only held locks are released, and stash
      effects start with no lock held. */
  ghost predicate May(held: set<Lock>, e: Event) {
    match e
    case Acquire(Membership(_)) => e.l !in held && Global in held
    case Acquire(l) =>
      if Named(l) && Global in held then l !in held && Stash !in held
      else Ordered(held, l) && (Named(l) ==> forall h :: h in held ==> !Named(h))
    case Release(l) => l in held && (l.Global? ==> forall h :: h in held ==> !h.Membership?)
    case Attempt(_) => held == {}
  }

  ghost predicate Disciplined(trace: seq<Event>) {
    trace != [] ==>
      && Disciplined(trace[..|trace| - 1])
      && May(Held(trace[..|trace| - 1]), trace[|trace| - 1])
  }

  lemma {:induction false} PrefixDisciplined(trace: seq<Event>, k: nat)
    requires Disciplined(trace) && k <= |trace|
    ensures Disciplined(trace[..k])
    ensures k < |trace| ==> May(Held(trace[..k]), trace[k])
    decreases |trace|
  {
    if k == |trace| {
      assert trace[..k] == trace;
    } else if k < |trace| - 1 {
      var t := trace[..|trace| - 1];
      PrefixDisciplined(t, k);
      assert t[..k] == trace[..k];
    }
  }

  // ---- the strict order ----

  /** The documented order: every acquisition, of a membership lock too, is above all locks held. */
  ghost predicate MayStrictly(held: set<Lock>, e: Event) {
    May(held, e) && (e.Acquire? ==> Ordered(held, e.l))
  }

  ghost predicate Strict(trace: seq<Event>) {
    trace != [] ==>
      && Strict(trace[..|trace| - 1])
      && MayStrictly(Held(trace[..|trace| - 1]), trace[|trace| - 1])
  }

  lemma {:induction false} StrictIsDisciplined(trace: seq<Event>)
    requires Strict(trace)
    ensures Disciplined(trace)
  {
    if trace != [] {
      StrictIsDisciplined(trace[..|trace| - 1]);
    }
  }

  /** In a strict trace every lock is acquired above all locks held at that point. */
  lemma {:induction false} StrictlyAbove(trace: seq<Event>, k: nat)
    requires Strict(trace) && k <= |trace|
    ensures Strict(trace[..k])
    ensures k < |trace| && trace[k].Acquire? ==> forall h :: h in Held(trace[..k]) ==> Before(h, trace[k].l)
    decreases |trace|
  {
    if k == |trace| {
      assert trace[..k] == trace;
    } else if k < |trace| - 1 {
      var t := trace[..|trace| - 1];
      StrictlyAbove(t, k);
      assert t[..k] == trace[..k];
    }
  }

  lemma StrictStep(trace: seq<Event>, e: Event)
    ensures Strict(trace + [e]) <==> Strict(trace) && MayStrictly(Held(trace), e)
    ensures Held(trace + [e]) == Apply(Held(trace), e)
  {
    assert (trace + [e])[..|trace|] == trace;
  }

  /** The other documented rule: the stash lock comes before all others. */
  ghost predicate StashFirst(trace: seq<Event>) {
    trace != [] ==>
      && StashFirst(trace[..|trace| - 1])
      && (trace[|trace| - 1] == Acquire(Stash) ==> Held(trace[..|trace| - 1]) == {})
  }

  lemma StashStep(trace: seq<Event>, e: Event)
    ensures StashFirst(trace + [e]) <==> StashFirst(trace) && (e == Acquire(Stash) ==> Held(trace) == {})
  {
    assert (trace + [e])[..|trace|] == trace;
  }

  /** A membership lock is only ever held together with the lifecycle global. */
  lemma {:induction false} MembershipUnderGlobal(trace: seq<Event>)
    requires Disciplined(trace)
    ensures forall h :: h in Held(trace) && h.Membership? ==> Global in Held(trace)
  {
    if trace != [] {
      MembershipUnderGlobal(trace[..|trace| - 1]);
    }
  }

  /** Each acquired lock is released exactly once: as many acquisitions as releases, and one more
      acquisition exactly while the lock is held. */
  ghost function Count(trace: seq<Event>, e: Event): nat {
    if trace == [] then 0
    else Count(trace[..|trace| - 1], e) + if trace[|trace| - 1] == e then 1 else 0
  }

  lemma {:induction false} ReleasedOnce(trace: seq<Event>, l: Lock)
    requires Disciplined(trace)
    ensures Count(trace, Acquire(l)) == Count(trace, Release(l)) + if l in Held(trace) then 1 else 0
  {
    if trace != [] {
      ReleasedOnce(trace[..|trace| - 1], l);
      BeforeTrichotomy(l, l);
    }
  }

  // ---- threads ----

  datatype Thread = Thread(trace: seq<Event>, pc: nat)

  /** A thread that keeps the discipline and ends holding nothing. */
  ghost predicate Wellbehaved(t: Thread) {
    t.pc <= |t.trace| && Disciplined(t.trace) && Held(t.trace) == {}
  }

  ghost function Holds(t: Thread): set<Lock>
    requires t.pc <= |t.trace|
  {
    Held(t.trace[..t.pc])
  }

  predicate Finished(t: Thread) {
    t.pc >= |t.trace|
  }

  ghost predicate Wellformed(ts: seq<Thread>) {
    forall i :: 0 <= i < |ts| ==> Wellbehaved(ts[i])
  }

  ghost predicate Exclusive(ts: seq<Thread>)
    requires Wellformed(ts)
  {
    forall i, j, l :: 0 <= i < |ts| && 0 <= j < |ts| && l in Holds(ts[i]) && l in Holds(ts[j]) ==> i == j
  }

  ghost predicate Free(ts: seq<Thread>, l: Lock)
    requires Wellformed(ts)
  {
    forall i :: 0 <= i < |ts| ==> l !in Holds(ts[i])
  }

  /** Thread i can take its next step: only an acquisition of a held lock blocks. */
  ghost predicate CanStep(ts: seq<Thread>, i: nat)
    requires Wellformed(ts) && i < |ts|
  {
    !Finished(ts[i]) && (ts[i].trace[ts[i].pc].Acquire? ==> Free(ts, ts[i].trace[ts[i].pc].l))
  }

  function Step(ts: seq<Thread>, i: nat): seq<Thread>
    requires i < |ts|
  {
    ts[i := ts[i].(pc := ts[i].pc + 1)]
  }

  lemma StepHolds(t: Thread)
    requires Wellbehaved(t) && !Finished(t)
    ensures Wellbehaved(t.(pc := t.pc + 1))
    ensures Holds(t.(pc := t.pc + 1)) == Apply(Holds(t), t.trace[t.pc])
  {
    assert t.trace[..t.pc + 1][..t.pc] == t.trace[..t.pc];
  }

  /** Mutual exclusion is kept by every step of every interleaving. */
  lemma StepKeepsExclusion(ts: seq<Thread>, i: nat)
    requires Wellformed(ts) && Exclusive(ts) && i < |ts| && CanStep(ts, i)
    ensures Wellformed(Step(ts, i)) && Exclusive(Step(ts, i))
  {
    StepHolds(ts[i]);
    var us := Step(ts, i);
    forall j, k, l | 0 <= j < |us| && 0 <= k < |us| && l in Holds(us[j]) && l in Holds(us[k])
      ensures j == k
    {
      assert j != i ==> us[j] == ts[j];
      assert k != i ==> us[k] == ts[k];
    }
  }

  /** Some blocked thread waits for a lock no other blocked thread waits above. */
  lemma {:induction false} HighestWait(ts: seq<Thread>, n: nat) returns (i: nat)
    requires 0 < n <= |ts|
    requires exists k :: 0 <= k < n && Waits(ts[k])
    ensures i < n && Waits(ts[i])
    ensures forall k :: 0 <= k < n && Waits(ts[k]) ==> !Before(WaitedFor(ts[i]), WaitedFor(ts[k]))
  {
    if exists k :: 0 <= k < n - 1 && Waits(ts[k]) {
      i := HighestWait(ts, n - 1);
      if Waits(ts[n - 1]) && Before(WaitedFor(ts[i]), WaitedFor(ts[n - 1])) {
        forall k | 0 <= k < n && Waits(ts[k]) ensures !Before(WaitedFor(ts[n - 1]), WaitedFor(ts[k])) {
          if Before(WaitedFor(ts[n - 1]), WaitedFor(ts[k])) {
            BeforeTransitive(WaitedFor(ts[i]), WaitedFor(ts[n - 1]), WaitedFor(ts[k]));
            BeforeTrichotomy(WaitedFor(ts[n - 1]), WaitedFor(ts[n - 1]));
          }
        }
        i := n - 1;
      }
    } else {
      i := n - 1;
      BeforeTrichotomy(WaitedFor(ts[i]), WaitedFor(ts[i]));
    }
  }

  predicate Waits(t: Thread) {
    t.pc < |t.trace| && t.trace[t.pc].Acquire?
  }

  function WaitedFor(t: Thread): Lock
    requires Waits(t)
  {
    t.trace[t.pc].l
  }

  /** Deadlock freedom: as long as a thread has work left, some thread can take a step. */
  lemma NoDeadlock(ts: seq<Thread>)
    requires Wellformed(ts) && Exclusive(ts)
    requires exists i :: 0 <= i < |ts| && !Finished(ts[i])
    ensures exists i :: 0 <= i < |ts| && CanStep(ts, i)
  {
    var u :| 0 <= u < |ts| && !Finished(ts[u]);
    if !CanStep(ts, u) && forall k :: 0 <= k < |ts| ==> !CanStep(ts, k) {
      assert Waits(ts[u]);
      var i := HighestWait(ts, |ts|);
      var l := WaitedFor(ts[i]);
      assert !CanStep(ts, i);
      var j :| 0 <= j < |ts| && l in Holds(ts[j]);
      assert l !in Holds(ts[i]) by { NotReentrant(ts[i]); }
      Blockers(ts, i, j);
      if !Before(l, WaitedFor(ts[j])) {
        var k := Below(ts, i, j);
      }
    }
  }

  lemma NotReentrant(t: Thread)
    requires Wellbehaved(t) && Waits(t)
    ensures WaitedFor(t) !in Holds(t)
  {
    PrefixDisciplined(t.trace, t.pc);
    BeforeTrichotomy(WaitedFor(t), WaitedFor(t));
  }

  /** A membership lock is never contended: who waits for it and who holds it hold the global. */
  lemma MembershipIsFree(ts: seq<Thread>, i: nat)
    requires Wellformed(ts) && Exclusive(ts) && i < |ts|
    requires Waits(ts[i]) && WaitedFor(ts[i]).Membership?
    ensures CanStep(ts, i)
  {
    var l := WaitedFor(ts[i]);
    PrefixDisciplined(ts[i].trace, ts[i].pc);
    assert Global in Holds(ts[i]) && l !in Holds(ts[i]);
    forall j | 0 <= j < |ts| ensures l !in Holds(ts[j]) {
      PrefixDisciplined(ts[j].trace, ts[j].pc);
      MembershipUnderGlobal(ts[j].trace[..ts[j].pc]);
    }
  }

  /** The holder of the lock thread i waits for is itself waiting: for a higher lock, or, holding the
      global and not the stash, for a log or mutation lock. */
  lemma Blockers(ts: seq<Thread>, i: nat, j: nat)
    requires Wellformed(ts) && Exclusive(ts) && i < |ts| && j < |ts|
    requires !CanStep(ts, i) && !CanStep(ts, j)
    requires Waits(ts[i]) && WaitedFor(ts[i]) in Holds(ts[j])
    ensures Waits(ts[j])
    ensures var l, m := WaitedFor(ts[i]), WaitedFor(ts[j]);
            Before(l, m) || (Named(m) && Global in Holds(ts[j]) && Stash !in Holds(ts[j]))
    ensures Named(WaitedFor(ts[i])) && Global !in Holds(ts[j]) ==> !Named(WaitedFor(ts[j]))
  {
    var u := ts[j];
    PrefixDisciplined(u.trace, u.pc);
    assert u.trace[..|u.trace|] == u.trace;
    if WaitedFor(u).Membership? {
      MembershipIsFree(ts, j);
    }
  }

  /** If that holder j waits for a lock that is not higher, the holder of that one waits for the stash,
      which is higher than what i waits for. */
  lemma Below(ts: seq<Thread>, i: nat, j: nat) returns (k: nat)
    requires Wellformed(ts) && Exclusive(ts) && i < |ts| && j < |ts|
    requires forall n :: 0 <= n < |ts| ==> !CanStep(ts, n)
    requires Waits(ts[i]) && WaitedFor(ts[i]) in Holds(ts[j]) && Waits(ts[j])
    requires Named(WaitedFor(ts[j])) && Global in Holds(ts[j]) && Stash !in Holds(ts[j])
    ensures k < |ts| && Waits(ts[k]) && WaitedFor(ts[k]).Stash? && Before(WaitedFor(ts[i]), WaitedFor(ts[k]))
  {
    var m := WaitedFor(ts[j]);
    NotReentrant(ts[j]);
    assert !CanStep(ts, j) && !Finished(ts[j]);
    k :| 0 <= k < |ts| && m in Holds(ts[k]);
    assert k != j && Global !in Holds(ts[k]);
    Blockers(ts, j, k);
    assert Before(m, WaitedFor(ts[k]));
  }

  // ---- runs ----

  function Remaining(ts: seq<Thread>): nat {
    if ts == [] then 0
    else Remaining(ts[..|ts| - 1]) + if Finished(ts[|ts| - 1]) then 0 else |ts[|ts| - 1].trace| - ts[|ts| - 1].pc
  }

  lemma {:induction false} StepIsProgress(ts: seq<Thread>, i: nat)
    requires i < |ts| && !Finished(ts[i])
    ensures Remaining(Step(ts, i)) < Remaining(ts)
  {
    var n := |ts| - 1;
    if i < n {
      StepIsProgress(ts[..n], i);
      assert Step(ts, i)[..n] == Step(ts[..n], i);
    } else {
      assert Step(ts, i)[..n] == ts[..n];
    }
  }

  /** A run: the threads that step, in order. */
  ghost predicate IsRun(ts: seq<Thread>, schedule: seq<nat>)
    requires Wellformed(ts) && Exclusive(ts)
    decreases |schedule|
  {
    schedule == [] || (
      && schedule[0] < |ts| && CanStep(ts, schedule[0])
      && (StepKeepsExclusion(ts, schedule[0]); IsRun(Step(ts, schedule[0]), schedule[1..])))
  }

  function After(ts: seq<Thread>, schedule: seq<nat>): seq<Thread>
    decreases |schedule|
  {
    if schedule == [] || schedule[0] >= |ts| then ts else After(Step(ts, schedule[0]), schedule[1..])
  }

  ghost predicate Initial(ts: seq<Thread>) {
    forall i :: 0 <= i < |ts| ==> Wellbehaved(ts[i]) && ts[i].pc == 0
  }

  /** What a run of the threads has led to: mutual exclusion, less work left, and a next step
      unless every thread has finished. */
  ghost predicate Live(ts: seq<Thread>, schedule: seq<nat>) {
    var us := After(ts, schedule);
    && |us| == |ts| && Wellformed(us) && Exclusive(us)
    && |schedule| + Remaining(us) <= Remaining(ts)
    && ((forall i :: 0 <= i < |us| ==> Finished(us[i])) || exists i :: 0 <= i < |us| && CanStep(us, i))
  }

  /** Every run of any number of threads keeps mutual exclusion, is no longer than the work there
      is, and can go on until every thread has finished. */
  lemma {:induction false} RunsNeverDeadlock(ts: seq<Thread>, schedule: seq<nat>)
    requires Wellformed(ts) && Exclusive(ts) && IsRun(ts, schedule)
    ensures Live(ts, schedule)
    decreases |schedule|
  {
    if schedule == [] {
      if exists i :: 0 <= i < |ts| && !Finished(ts[i]) {
        NoDeadlock(ts);
      }
    } else {
      StepKeepsExclusion(ts, schedule[0]);
      StepIsProgress(ts, schedule[0]);
      RunsNeverDeadlock(Step(ts, schedule[0]), schedule[1..]);
    }
  }

  lemma InitialIsExclusive(ts: seq<Thread>)
    requires Initial(ts)
    ensures Wellformed(ts) && Exclusive(ts)
  {
    assert forall i :: 0 <= i < |ts| ==> ts[i].trace[..ts[i].pc] == [];
  }

  /** From the start, every interleaving is live, and some interleaving finishes every thread. */
  ghost predicate NeverDeadlocks(ts: seq<Thread>) {
    && Wellformed(ts) && Exclusive(ts)
    && (forall schedule :: IsRun(ts, schedule) ==> Live(ts, schedule))
    && (exists schedule :: IsRun(ts, schedule) && Remaining(After(ts, schedule)) == 0)
  }

  lemma {:induction false} AllDone(ts: seq<Thread>)
    requires forall i :: 0 <= i < |ts| ==> Finished(ts[i])
    ensures Remaining(ts) == 0
  {
    if ts != [] {
      AllDone(ts[..|ts| - 1]);
    }
  }

  lemma {:induction false} CanFinish(ts: seq<Thread>) returns (schedule: seq<nat>)
    requires Wellformed(ts) && Exclusive(ts)
    ensures IsRun(ts, schedule) && Remaining(After(ts, schedule)) == 0
    decreases Remaining(ts)
  {
    schedule := [];
    if exists i :: 0 <= i < |ts| && !Finished(ts[i]) {
      NoDeadlock(ts);
      var i: nat :| i < |ts| && CanStep(ts, i);
      StepKeepsExclusion(ts, i);
      StepIsProgress(ts, i);
      var rest := CanFinish(Step(ts, i));
      schedule := [i] + rest;
      assert schedule[1..] == rest;
    } else {
      AllDone(ts);
    }
  }

  lemma StartedThreadsNeverDeadlock(ts: seq<Thread>)
    requires Initial(ts)
    ensures NeverDeadlocks(ts)
  {
    InitialIsExclusive(ts);
    forall schedule | IsRun(ts, schedule) ensures Live(ts, schedule) {
      RunsNeverDeadlock(ts, schedule);
    }
    var schedule := CanFinish(ts);
  }
}
