/** What the steps of ArchiveItem leave in its lock trace: the lock loop, the governance step, the
    calls of a cascade, recoveries and stash effects. */
module ArchiveSteps {
  import opened ArchiveNeeds
  import opened ArchiveTraces
  import opened Bytes
  import opened LockOrder
  import opened SortedSets

  // ---- stash side effects ----

  function Attempts(trace: seq<Event>): seq<Text> {
    if trace == [] then []
    else
      var last := trace[|trace| - 1];
      Attempts(trace[..|trace| - 1]) + if last.Attempt? then [last.id] else []
  }

  lemma AttemptsExtend(trace: seq<Event>, e: Event)
    ensures Attempts(trace + [e]) == Attempts(trace) + if e.Attempt? then [e.id] else []
  {
    assert (trace + [e])[..|trace|] == trace;
  }

  lemma MissingStep(class_: Class, ids: seq<Text>, i: nat, held: set<Text>)
    requires i < |ids|
    ensures Missing(class_, ids[..i + 1], held) ==
              Missing(class_, ids[..i], held) + if ids[i] in held then [] else [LockOf(class_, ids[i])]
    ensures forall id :: id in ids[..i + 1] <==> id in ids[..i] || id == ids[i]
  {
    assert ids[..i + 1][..i] == ids[..i];
    assert ids[..i + 1] == ids[..i] + [ids[i]];
  }

  lemma SortedDistinct(ids: seq<Text>, i: nat)
    requires StrictlySorted(ids) && i < |ids|
    ensures ids[i] !in ids[..i] && forall id :: id in ids[..i] ==> Less(id, ids[i])
  {
    forall id | id in ids[..i] ensures Less(id, ids[i]) && id != ids[i] {
      LessTrichotomy(id, ids[i]);
    }
  }

  // ---- the trace of a context ----

  /** The trace keeps the discipline and leaves exactly the locks of c held. */
  ghost predicate Carries(trace: seq<Event>, c: Ctx) {
    Disciplined(trace) && Held(trace) == LocksOf(c)
  }

  /** The trace has grown by the acquisitions of `locks`, which are what d holds beyond c. */
  ghost predicate Took(before: seq<Event>, c: Ctx, locks: seq<Lock>, d: Ctx, after: seq<Event>) {
    Carries(after, d) && Owns(locks, LocksOf(c), LocksOf(d)) && after == before + Acquires(locks)
  }

  lemma TookNothing(trace: seq<Event>, c: Ctx)
    requires Carries(trace, c)
    ensures Took(trace, c, [], c, trace)
  {
    assert trace + Acquires([]) == trace;
  }

  lemma TookMore(t0: seq<Event>, c: Ctx, locks: seq<Lock>, d: Ctx, t1: seq<Event>, more: seq<Lock>, e: Ctx, t2: seq<Event>)
    requires Took(t0, c, locks, d, t1) && Took(t1, d, more, e, t2) && Global !in more
    ensures Took(t0, c, locks + more, e, t2)
  {
    hide Carries, Owns, LocksOf;
    OwnsChain(locks, more, LocksOf(c), LocksOf(d), LocksOf(e));
    assert Acquires(locks + more) == Acquires(locks) + Acquires(more);
  }

  lemma TookOne(trace: seq<Event>, class_: Class, c: Ctx, locked: set<Text>, id: Text)
    requires Carries(trace, With(class_, c, locked)) && id !in locked
    requires May(Held(trace), Acquire(LockOf(class_, id)))
    ensures var l := LockOf(class_, id);
            Took(trace, With(class_, c, locked), [l], With(class_, c, locked + {id}), trace + [Acquire(l)])
  {
    var l := LockOf(class_, id);
    Extend(trace, Acquire(l));
    assert Acquires([l]) == [Acquire(l)];
    LocksOfMore(class_, c, locked, id);
  }

  lemma LocksOfMore(class_: Class, c: Ctx, locked: set<Text>, id: Text)
    requires id !in locked
    ensures LocksOf(With(class_, c, locked + {id})) == LocksOf(With(class_, c, locked)) + {LockOf(class_, id)}
    ensures LockOf(class_, id) !in LocksOf(With(class_, c, locked))
  {}

  // ---- the lock loop, for each of the three classes ----

  function OfClass(class_: Class, c: Ctx): set<Text> {
    match class_ case A => c.memberships case C => c.logs case B => c.mutations
  }

  function With(class_: Class, c: Ctx, ids: set<Text>): Ctx {
    match class_ case A => c.(memberships := ids) case C => c.(logs := ids) case B => c.(mutations := ids)
  }

  /** What holds after the first i ordered IDs: `locked` are held, `unlocks` are those taken by
      this loop. */
  ghost predicate Progress(class_: Class, c: Ctx, ordered: seq<Text>, i: nat, locked: set<Text>,
      unlocks: seq<Lock>, before: seq<Event>, trace: seq<Event>) {
    && i <= |ordered| && StrictlySorted(ordered)
    && locked == OfClass(class_, c) + (set id | id in ordered[..i])
    && unlocks == Missing(class_, ordered[..i], OfClass(class_, c))
    && Took(before, c, unlocks, With(class_, c, locked), trace)
  }

  lemma Start(class_: Class, c: Ctx, ordered: seq<Text>, trace: seq<Event>)
    requires StrictlySorted(ordered) && Carries(trace, c)
    ensures Progress(class_, c, ordered, 0, OfClass(class_, c), [], trace, trace)
  {
    hide Carries, Took;
    assert With(class_, c, OfClass(class_, c)) == c;
    TookNothing(trace, c);
  }

  lemma SkipHeld(class_: Class, c: Ctx, ordered: seq<Text>, i: nat, locked: set<Text>,
      unlocks: seq<Lock>, before: seq<Event>, trace: seq<Event>)
    requires i < |ordered| && Progress(class_, c, ordered, i, locked, unlocks, before, trace) && ordered[i] in locked
    ensures Progress(class_, c, ordered, i + 1, locked, unlocks, before, trace)
  {
    hide Missing, Took;
    MissingStep(class_, ordered, i, OfClass(class_, c));
    SortedDistinct(ordered, i);
  }

  /** The next lock may be taken under the global. */
  lemma MayTake(class_: Class, c: Ctx, ordered: seq<Text>, i: nat, locked: set<Text>,
      unlocks: seq<Lock>, before: seq<Event>, trace: seq<Event>)
    requires i < |ordered| && Progress(class_, c, ordered, i, locked, unlocks, before, trace) && ordered[i] !in locked
    requires c.inGlobal
    ensures Disciplined(trace) && May(Held(trace), Acquire(LockOf(class_, ordered[i])))
  {
    hide Missing, Acquires, Owns, Disciplined, Held;
    SortedDistinct(ordered, i);
  }

  lemma Taken(class_: Class, c: Ctx, ordered: seq<Text>, i: nat, locked: set<Text>,
      unlocks: seq<Lock>, before: seq<Event>, trace: seq<Event>)
    requires i < |ordered| && ordered[i] !in locked
    requires Progress(class_, c, ordered, i, locked, unlocks, before, trace)
    requires May(Held(trace), Acquire(LockOf(class_, ordered[i])))
    ensures var l := LockOf(class_, ordered[i]);
            Progress(class_, c, ordered, i + 1, locked + {ordered[i]}, unlocks + [l], before, trace + [Acquire(l)])
  {
    hide Missing, Held, Carries, Took, May, Owns, LocksOf, Acquires, Attempts, Less, With;
    var l, d := LockOf(class_, ordered[i]), With(class_, c, locked);
    MissingStep(class_, ordered, i, OfClass(class_, c));
    SortedDistinct(ordered, i);
    TookFacts(before, c, unlocks, d, trace);
    TookOne(trace, class_, c, locked, ordered[i]);
    TookMore(before, c, unlocks, d, trace, [l], With(class_, c, locked + {ordered[i]}), trace + [Acquire(l)]);
  }

  lemma Undoable(class_: Class, c: Ctx, ordered: seq<Text>, i: nat, locked: set<Text>,
      unlocks: seq<Lock>, before: seq<Event>, trace: seq<Event>)
    requires Progress(class_, c, ordered, i, locked, unlocks, before, trace)
    ensures Took(before, c, unlocks, With(class_, c, locked), trace)
  {}

  lemma GivenUp(class_: Class, c: Ctx, ordered: seq<Text>, i: nat, locked: set<Text>,
      unlocks: seq<Lock>, before: seq<Event>, trace: seq<Event>, after: seq<Event>)
    requires Progress(class_, c, ordered, i, locked, unlocks, before, trace) && after == trace + Releases(unlocks)
    ensures GaveBack(before, Missing(class_, ordered, OfClass(class_, c)), false, after)
  {
    hide Missing, Acquires, Releases, Carries, Owns, GaveBack;
    var rest := MissingPrefix(class_, ordered, i, OfClass(class_, c));
    AllGivenBack(before, unlocks, trace, after);
    GaveBackMore(before, unlocks, rest, true, after);
  }

  lemma Done(class_: Class, c: Ctx, ids: seq<Text>, ordered: seq<Text>, locked: set<Text>,
      unlocks: seq<Lock>, before: seq<Event>, trace: seq<Event>)
    requires ordered == SortedKeys(IdSet(ids))
    requires Progress(class_, c, ordered, |ordered|, locked, unlocks, before, trace)
    ensures locked == OfClass(class_, c) + IdSet(ids)
    ensures Took(before, c, unlocks, With(class_, c, locked), trace)
    ensures unlocks == Missing(class_, ordered, OfClass(class_, c)) && Global !in unlocks
  {
    hide Took;
    NoGlobal(class_, ordered, OfClass(class_, c));
    assert ordered[..|ordered|] == ordered;
  }

  // ---- the scope of one archive ----

  lemma RelatedIds(shipments: Shipments, scope: set<Text>)
    requires [] !in scope
    ensures Related(shipments, scope) - {[]} == Related(shipments, scope)
    ensures Governed(shipments, scope) - {[]} == Governed(shipments, scope)
  {}

  lemma SameCover(shipments: Shipments, c: Ctx)
    requires Covers(shipments, c)
    ensures Covers(shipments, c.(inGlobal := true))
  {}

  /** The contexts lockArchiveGovernance goes through, and why each step may ask for its locks. */
  lemma ScopeSteps(shipments: Shipments, c: Ctx, scope: set<Text>)
    requires Covers(shipments, c) && c.inGlobal
    ensures var related, governed := Related(shipments, scope), Governed(shipments, scope);
      var e1 := With(A, c, OfClass(A, c) + related);
      var e2 := With(C, e1, OfClass(C, e1) + scope);
      var e3 := With(B, e2, OfClass(B, e2) + governed);
      && e3 == ScopeCtx(shipments, c, scope)
      && OfClass(A, c) == c.memberships && OfClass(C, e1) == c.logs == e1.logs && OfClass(B, e2) == c.mutations == e1.mutations
      && e1.inGlobal && e2.inGlobal
      && (c.mutations != {} && scope <= c.logs ==>
            related <= c.memberships && governed <= c.mutations && e1 == c && e2 == c && e3 == c)
  {
    if scope <= c.logs {
      ScopeCovered(shipments, c, scope);
    }
    hide Related, Governed;
  }

  // ---- what the methods leave behind ----

  function Listed(cascade: bool, ids: seq<Text>): seq<Text> {
    if cascade then ids else []
  }

  /** A call without a cascade: it wanted its locks in order, got some of them, and gave them back.
      If no step fails it gets all of them, and is refused exactly when its log lock is. */
  ghost predicate Called(shipments: Shipments, c: Ctx, item: Text, smooth: bool, ok: bool, archived: seq<Text>,
      before: seq<Event>, after: seq<Event>)
  {
    var scope := IdSet([item]);
    && GaveBack(before, Wanted(shipments, c, scope), smooth, after)
    && (ok ==> !Refused(c, scope) && archived == [item])
    && (!ok ==> archived == [])
    && (smooth ==> (ok <==> !Refused(c, scope)))
  }

  /** A nested call under mutation locks: it takes no lock if its item fits, and is refused if the
      item's log is not held; without a failing step the order is kept exactly if the item fits. */
  lemma CalledOrder(shipments: Shipments, c: Ctx, item: Text, smooth: bool, ok: bool, archived: seq<Text>,
      before: seq<Event>, after: seq<Event>)
    requires Called(shipments, c, item, smooth, ok, archived, before, after)
    requires Entry(shipments, c) && c.mutations != {} && Carries(before, c) && Carries(after, c)
    ensures Fits(shipments, c, item) ==> after == before
    ensures item != [] && item !in c.logs ==> !ok
    ensures smooth && Strict(before) ==> (Strict(after) <==> Fits(shipments, c, item))
  {
    if item != [] {
      assert item in IdSet([item]);
    }
    GaveBackAny(before, Wanted(shipments, c, IdSet([item])), smooth, after);
    ChildOrder(shipments, c, item, before, after);
    if Fits(shipments, c, item) {
      FittingWantsNothing(shipments, c, item);
    }
  }

  /** The order of a top-level archive: kept when its recoveries write no item log, the children are
      in order and, unless there are none, no journal is left for their calls; and otherwise broken by
      a run without a failing step. */
  ghost predicate Cascaded(shipments: Shipments, scope: set<Text>, children: seq<Text>, quiet: bool, settled: bool, smooth: bool,
      before: seq<Event>, after: seq<Event>)
  {
    && (Strict(before) && quiet && (settled || children == []) && AllInOrder(shipments, scope, children) ==> Strict(after))
    && (smooth && settled && Strict(after) ==> quiet && AllInOrder(shipments, scope, children))
  }

  /** The same for the children under the locks of d. */
  ghost predicate Children(shipments: Shipments, d: Ctx, ids: seq<Text>, smooth: bool,
      before: seq<Event>, after: seq<Event>)
  {
    && (Strict(before) && Layered(d) && AllFit(shipments, d, ids) ==> Strict(after))
    && (smooth && Strict(after) ==> Strict(before) && AllFit(shipments, d, ids))
    && (smooth ==> after == before + ChildTraces(shipments, d, ids))
  }

  /** A top-level archive up to its last release, without a failing step. */
  ghost function LockedTrace(shipments: Shipments, scope: set<Text>, children: seq<Text>): seq<Event> {
    var locks := CanonicalLocks(shipments, scope);
    Acquires(locks) + ChildTraces(shipments, ChildCtx(shipments, scope), children) + Releases(locks)
  }

  lemma NoChildren(shipments: Shipments, d: Ctx, trace: seq<Event>)
    ensures forall smooth: bool :: Children(shipments, d, [], smooth, trace, trace)
    ensures Archivable(d, []) == []
  {
    assert trace + [] == trace;
  }

  lemma OneMoreChild(shipments: Shipments, d: Ctx, ids: seq<Text>, i: nat, smooth: bool, ok: bool, more: seq<Text>,
      start: seq<Event>, before: seq<Event>, after: seq<Event>)
    requires i < |ids| && Covers(shipments, d) && d.inGlobal && Carries(before, d) && Carries(after, d)
    requires Children(shipments, d, ids[..i], smooth, start, before)
    requires Called(shipments, d, ids[i], smooth, ok, more, before, after)
    ensures Children(shipments, d, ids[..i + 1], smooth, start, after)
    ensures smooth ==> Archivable(d, ids[..i + 1]) == Archivable(d, ids[..i]) + more
  {
    CalledUnder(shipments, d, ids[i], smooth, ok, more, before, after);
    AllFitNext(shipments, d, ids, i);
    if smooth {
      ChildNext(shipments, d, ids, i, start, before, after);
    }
    hide Wanted, ChildTraces, Archivable, Strict, Disciplined, Held, LocksOf, Fits, Covers, GaveBack, Refused, CallTrace, Called,
         AllFit, Layered, IdSet, Carries;
  }

  lemma AllFitNext(shipments: Shipments, d: Ctx, ids: seq<Text>, i: nat)
    requires i < |ids|
    ensures AllFit(shipments, d, ids[..i + 1]) <==> AllFit(shipments, d, ids[..i]) && Fits(shipments, d, ids[i])
  {
    hide Fits;
    assert ids[..i + 1] == ids[..i] + [ids[i]];
  }

  /** What one nested call does to the order of its caller's trace. */
  lemma CalledUnder(shipments: Shipments, d: Ctx, id: Text, smooth: bool, ok: bool, archived: seq<Text>,
      before: seq<Event>, after: seq<Event>)
    requires Covers(shipments, d) && d.inGlobal && Carries(before, d) && Carries(after, d)
    requires Called(shipments, d, id, smooth, ok, archived, before, after)
    ensures Strict(before) && Layered(d) && Fits(shipments, d, id) ==> Strict(after)
    ensures smooth && Strict(after) ==> Strict(before) && Fits(shipments, d, id)
    ensures smooth ==> var wanted := Wanted(shipments, d, IdSet([id])); after == before + CallTrace(wanted, |wanted|)
    ensures smooth ==> archived == if Refused(d, IdSet([id])) then [] else [id]
  {
    var wanted := Wanted(shipments, d, IdSet([id]));
    CalledSmoothly(before, wanted, after);
    GaveBackAny(before, wanted, smooth, after);
    hide Wanted, GaveBack, CallTrace, Covers, LocksOf, Strict, Disciplined, Held, Fits, Layered, Refused;
    ChildOrder(shipments, d, id, before, after);
  }

  lemma GaveBackExtends(before: seq<Event>, wanted: seq<Lock>, complete: bool, after: seq<Event>)
    requires GaveBack(before, wanted, complete, after)
    ensures before <= after
  {}

  lemma CalledSmoothly(before: seq<Event>, wanted: seq<Lock>, after: seq<Event>)
    ensures GaveBack(before, wanted, true, after) ==> after == before + CallTrace(wanted, |wanted|)
  {}

  /** The locks a call wants were all acquired, or the first of them, or all, given back. */
  ghost predicate Exactly(shipments: Shipments, c: Ctx, scope: set<Text>, smooth: bool, ok: bool, before: seq<Event>, after: seq<Event>)
  {
    && (ok ==> after == before + Acquires(Wanted(shipments, c, scope)))
    && (!ok ==> GaveBack(before, Wanted(shipments, c, scope), smooth, after))
    && (smooth ==> (ok <==> !Refused(c, scope)))
  }

  /** Call contexts and the context of an archive under them. */
  lemma EntryFacts(shipments: Shipments, c: Ctx, scope: set<Text>)
    requires Entry(shipments, c)
    ensures var e, d := c.(inGlobal := true), ScopeCtx(shipments, c.(inGlobal := true), scope);
      && Covers(shipments, e) && (c.inGlobal || c == NO_LOCKS)
      && (c == NO_LOCKS ==> !c.inGlobal && c.mutations == {} && e == ONLY_GLOBAL && !Refused(c, scope) && !Refused(e, scope) && d == ChildCtx(shipments, scope))
      && (Refused(c, scope) <==> Refused(e, scope)) && d == ScopeCtx(shipments, c, scope) && d.inGlobal
      && (Covers(shipments, d) ==> Entry(shipments, d))
  {}

  lemma GlobalFailed(shipments: Shipments, c: Ctx, scope: set<Text>, smooth: bool, before: seq<Event>, after: seq<Event>)
    requires c == NO_LOCKS && !smooth && GaveBack(before, [Global], false, after)
    ensures Exactly(shipments, c, scope, smooth, false, before, after)
  {
    WantedUnder(shipments, c, scope);
    hide Wanted, GaveBack;
    GaveBackMore(before, [Global], Wanted(shipments, ONLY_GLOBAL, scope), false, after);
  }

  lemma NotExactly(shipments: Shipments, c: Ctx, scope: set<Text>, trace: seq<Event>)
    ensures Exactly(shipments, c, scope, false, false, trace, trace)
  {
    GaveBackNothing(trace, Wanted(shipments, c, scope));
  }

  /** After the recovery: the locks of the scope were had, or the first of them given back. */
  lemma ScopeDone(shipments: Shipments, c: Ctx, d: Ctx, scope: set<Text>, smooth: bool, ok: bool, before: seq<Event>, after: seq<Event>)
    requires Carries(before, c) && (if ok then Carries(after, d) else Carries(after, c))
    requires if ok then after == before + Acquires(Wanted(shipments, c, scope)) else GaveBack(before, Wanted(shipments, c, scope), smooth, after)
    requires smooth ==> (ok <==> !Refused(c, scope))
    ensures Exactly(shipments, c, scope, smooth, ok, before, after)
    ensures c == ONLY_GLOBAL && Strict(before) ==> Strict(after)
    ensures Strict(after) ==> Strict(before)
    ensures Only(before, Elements(Wanted(shipments, c, scope)), after)
  {
    if ok {
      OnlyAcquires(before, Wanted(shipments, c, scope));
    } else {
      OnlyGaveBack(before, Wanted(shipments, c, scope), smooth, after);
    }
    hide Only, Elements;
    if Strict(after) {
      if !ok {
        GaveBackExtends(before, Wanted(shipments, c, scope), smooth, after);
      }
      StrictBefore(before, after);
    }
    if c == ONLY_GLOBAL && Strict(before) {
      assert Held(before) == {Global};
      if !ok {
        GaveBackAny(before, Wanted(shipments, c, scope), smooth, after);
      }
      hide Wanted, Strict, Held, LocksOf, Acquires, GaveBack;
      ScopeIsStrict(shipments, scope, before, after);
    }
  }

  /** Under the global the locks could not be had, and the global is given back. */
  lemma GovernanceFailed(shipments: Shipments, c: Ctx, e: Ctx, g0: seq<Lock>, scope: set<Text>, smooth: bool, clean: bool,
      t0: seq<Event>, t1: seq<Event>, t2: seq<Event>, t3: seq<Event>)
    requires (c.inGlobal || c == NO_LOCKS) && e == c.(inGlobal := true) && g0 == if c.inGlobal then [] else [Global]
    requires Carries(t3, c) && t3 == t2 + Releases(g0)
    requires clean ==> t1 == t0 + Acquires(g0) && Exactly(shipments, e, scope, smooth, false, t1, t2)
    ensures Strict(t3) <==> Strict(t2)
    ensures clean ==> Exactly(shipments, c, scope, smooth, false, t0, t3)
  {
    WantedUnder(shipments, c, scope);
    ReleasesStrictly(t2, g0);
    hide Wanted, GaveBack, Refused, Strict, Carries, Acquires, Releases;
    if clean {
      GaveBackUnder(t0, g0, t1, Wanted(shipments, e, scope), smooth, t2, t3);
    }
  }

  /** All locks of a governance step were had. */
  lemma GovernanceDone(shipments: Shipments, c: Ctx, e: Ctx, d: Ctx, g0: seq<Lock>, more: seq<Lock>, scope: set<Text>, smooth: bool,
      clean: bool, t0: seq<Event>, t1: seq<Event>, t2: seq<Event>)
    requires (c.inGlobal || c == NO_LOCKS) && e == c.(inGlobal := true) && g0 == if c.inGlobal then [] else [Global]
    requires !Refused(e, scope) && more == Wanted(shipments, e, scope) && Global !in more
    requires Owns(g0, LocksOf(c), LocksOf(e)) && Owns(more, LocksOf(e), LocksOf(d))
    requires clean ==> t1 == t0 + Acquires(g0) && Exactly(shipments, e, scope, smooth, true, t1, t2)
    ensures g0 + more == Wanted(shipments, c, scope) && Owns(g0 + more, LocksOf(c), LocksOf(d))
    ensures c == NO_LOCKS ==> g0 + more == CanonicalLocks(shipments, scope)
    ensures c.inGlobal && more == [] ==> g0 + more == []
    ensures clean ==> Exactly(shipments, c, scope, smooth, true, t0, t2)
  {
    WantedUnder(shipments, c, scope);
    TopLevelAscends(shipments, scope);
    OwnsChain(g0, more, LocksOf(c), LocksOf(e), LocksOf(d));
    hide Owns, LocksOf, Wanted, CanonicalLocks, Acquires, GaveBack, Refused;
    if clean {
      LockedExactly(shipments, c, scope, smooth, g0, more, t0, t1, t2);
    }
  }

  lemma LockedExactly(shipments: Shipments, c: Ctx, scope: set<Text>, smooth: bool, g0: seq<Lock>, more: seq<Lock>,
      t0: seq<Event>, t1: seq<Event>, t3: seq<Event>)
    requires g0 + more == Wanted(shipments, c, scope) && !Refused(c, scope)
    requires t1 == t0 + Acquires(g0) && t3 == t1 + Acquires(more)
    ensures Exactly(shipments, c, scope, smooth, true, t0, t3)
  {
    hide Wanted, Acquires, Refused;
    AcquiresJoin(g0, more);
    Joined(t0, Acquires(g0), Acquires(more));
  }

  lemma LockedOut(shipments: Shipments, c: Ctx, item: Text, smooth: bool, before: seq<Event>, after: seq<Event>)
    requires Exactly(shipments, c, IdSet([item]), smooth, false, before, after)
    ensures Called(shipments, c, item, smooth, false, [], before, after)
  {}

  lemma NotCascaded(shipments: Shipments, scope: set<Text>, children: seq<Text>, quiet: bool, settled: bool,
      before: seq<Event>, after: seq<Event>)
    requires quiet && Strict(before) ==> Strict(after)
    ensures Cascaded(shipments, scope, children, quiet, settled, false, before, after)
  {}

  /** The locks were had; `children` were archived under them, all of `asked` in a smooth run. */
  lemma LockedIn(shipments: Shipments, scope: set<Text>, children: seq<Text>, asked: seq<Text>, quiet: bool, settled: bool, smooth: bool,
      t0: seq<Event>, t1: seq<Event>, t2: seq<Event>, t3: seq<Event>)
    requires children == asked || (children == [] && !smooth)
    requires (quiet && Strict(t0) ==> Strict(t1)) && (smooth && Strict(t1) ==> quiet)
    requires Carries(t3, NO_LOCKS) && t3 == t2 + Releases(CanonicalLocks(shipments, scope))
    requires settled || children == [] ==> Children(shipments, ChildCtx(shipments, scope), children, smooth, t1, t2)
    ensures Cascaded(shipments, scope, asked, quiet, settled, smooth, t0, t3)
  {
    ReleasesStrictly(t2, CanonicalLocks(shipments, scope));
    ChildCtxIsLayered(shipments, scope);
    var d := ChildCtx(shipments, scope);
    hide Strict, Disciplined, Held, AllInOrder, Layered, Fits, ChildTraces, CanonicalLocks, ChildCtx, Releases;
    assert AllFit(shipments, d, asked) ==> AllFit(shipments, d, children);
  }

  lemma LockedFully(shipments: Shipments, scope: set<Text>, asked: seq<Text>,
      t0: seq<Event>, t1: seq<Event>, t2: seq<Event>, t3: seq<Event>)
    requires Exactly(shipments, NO_LOCKS, scope, true, true, t0, t1)
    requires t3 == t2 + Releases(CanonicalLocks(shipments, scope))
    requires Children(shipments, ChildCtx(shipments, scope), asked, true, t1, t2)
    ensures t3 == t0 + LockedTrace(shipments, scope, asked)
  {
    TopLevelAscends(shipments, scope);
    var d, locks := ChildCtx(shipments, scope), CanonicalLocks(shipments, scope);
    hide Strict, AllFit, Layered, ChildTraces, CanonicalLocks, ChildCtx, Acquires, Releases, Wanted, Refused;
    Between(t0, Acquires(locks), ChildTraces(shipments, d, asked), Releases(locks));
  }

  lemma Between(t: seq<Event>, a: seq<Event>, b: seq<Event>, c: seq<Event>)
    ensures t + a + b + c == t + (a + b + c)
  {}

  lemma LockedAlone(shipments: Shipments, c: Ctx, item: Text, smooth: bool, ok: bool, archived: seq<Text>,
      t0: seq<Event>, t1: seq<Event>, t2: seq<Event>)
    requires Exactly(shipments, c, IdSet([item]), smooth, true, t0, t1)
    requires t2 == t1 + Releases(Wanted(shipments, c, IdSet([item])))
    requires !Refused(c, IdSet([item])) && (smooth ==> ok) && archived == if ok then [item] else []
    ensures Called(shipments, c, item, smooth, ok, archived, t0, t2)
  {
    var wanted := Wanted(shipments, c, IdSet([item]));
    AllGivenBack(t0, wanted, t1, t2);
    GaveBackAny(t0, wanted, true, t2);
  }

  lemma RefusedItem(c: Ctx, item: Text)
    ensures c.mutations != {} && item != [] && item !in c.logs ==> Refused(c, IdSet([item]))
  {
    assert item != [] ==> item in IdSet([item]);
  }

  lemma Flushed(shipments: Shipments, links: Links, item: Text, first: seq<Text>, second: seq<Text>, archived: seq<Text>,
      before: seq<Event>, t: seq<Event>, after: seq<Event>)
    requires var scope := Scope(item, first);
      && t == before + LockedTrace(shipments, scope, second)
      && archived == Archivable(ChildCtx(shipments, scope), second) + [item]
      && after == t + EffectTraces(archived, links)
    ensures after == before + CascadeTrace(shipments, links, item, first, second)
  {
    hide Acquires, Releases, ChildTraces, CanonicalLocks, EffectTraces, Archivable, ChildCtx, Scope;
    var scope := Scope(item, first);
    Joined(before, LockedTrace(shipments, scope, second), EffectTraces(archived, links));
  }

  /** Effects run with no lock held, so they neither break nor repair the order. */
  lemma EffectsKeepOrder(shipments: Shipments, scope: set<Text>, children: seq<Text>, quiet: bool, settled: bool, smooth: bool,
      before: seq<Event>, t: seq<Event>, after: seq<Event>)
    requires Cascaded(shipments, scope, children, quiet, settled, smooth, before, t) && (Strict(after) <==> Strict(t))
    ensures Cascaded(shipments, scope, children, quiet, settled, smooth, before, after)
  {}

  // ---- recovery ----

  /** What the recovery of one journal does to the trace. */
  ghost predicate RecoveredOne(c: Ctx, j: Journal, smooth: bool, before: seq<Event>, after: seq<Event>) {
    && Attempts(after) == Attempts(before) && Only(before, JournalElements(j), after)
    && (Strict(after) ==> Strict(before))
    && (!Takes(c, j) ==> after == before)
    && (c == ONLY_GLOBAL && Quiet(j) && Strict(before) ==> Strict(after))
    && (smooth && c == ONLY_GLOBAL && Strict(after) ==> Quiet(j))
    && (smooth && c.mutations != {} && Strict(after) ==> !Takes(c, j))
  }

  /** The same for several. */
  ghost predicate Recovered(c: Ctx, journals: seq<Journal>, smooth: bool, before: seq<Event>, after: seq<Event>) {
    && Attempts(after) == Attempts(before) && Only(before, JournalLocksOf(journals), after)
    && (Strict(after) ==> Strict(before))
    && (Settled(c, journals) ==> after == before)
    && (c == ONLY_GLOBAL && AllQuiet(journals) && Strict(before) ==> Strict(after))
    && (smooth && c == ONLY_GLOBAL && Strict(after) ==> AllQuiet(journals))
    && (smooth && c.mutations != {} && Strict(after) ==> Settled(c, journals))
  }

  lemma RecoveredNone(c: Ctx, journals: seq<Journal>, smooth: bool, trace: seq<Event>)
    requires !smooth || journals == []
    ensures Recovered(c, journals, smooth, trace, trace)
  {}

  lemma RecoveredOrder(c: Ctx, journals: seq<Journal>, smooth: bool, before: seq<Event>, after: seq<Event>)
    requires Recovered(c, journals, smooth, before, after)
    ensures Attempts(after) == Attempts(before) && (Strict(after) ==> Strict(before))
    ensures Only(before, JournalLocksOf(journals), after)
    ensures c == ONLY_GLOBAL && AllQuiet(journals) && Strict(before) ==> Strict(after)
  {}

  lemma RecoveredNext(c: Ctx, journals: seq<Journal>, i: nat, smooth: bool, start: seq<Event>, before: seq<Event>, after: seq<Event>)
    requires i < |journals| && Recovered(c, journals[..i], smooth, start, before)
    requires RecoveredOne(c, journals[i], smooth, before, after)
    ensures Recovered(c, journals[..i + 1], smooth, start, after)
  {
    OnlyChain(start, JournalLocksOf(journals[..i]), before, JournalElements(journals[i]), after,
              JournalLocksOf(journals[..i + 1]));
    hide Strict, Attempts, Takes, Quiet, Only, JournalElements;
    assert journals[..i + 1] == journals[..i] + [journals[i]];
    assert Settled(c, journals[..i + 1]) <==> Settled(c, journals[..i]) && !Takes(c, journals[i]);
    assert AllQuiet(journals[..i + 1]) <==> AllQuiet(journals[..i]) && Quiet(journals[i]);
  }

  /** The journals left are some of those found. */
  lemma StillQuiet(found: seq<Journal>, left: seq<Journal>)
    requires forall j :: j in left ==> j in found
    ensures AllQuiet(found) ==> AllQuiet(left)
  {}

  lemma JournalParts(c: Ctx, j: Journal)
    requires c.inGlobal
    ensures !Takes(c, j) ==> JournalLocks(c, j) == []
    ensures Takes(c, j) <==> j.Intent? && j.shipment !in c.memberships
    ensures j.Intent? && Takes(c, j) ==>
      var ids := IdSet([j.shipment]);
      var c1 := With(A, c, OfClass(A, c) + ids);
      var c2 := With(B, c1, OfClass(B, c1) + IdSet([j.shipment] + j.ids));
      && OfClass(A, c) == c.memberships && OfClass(B, c1) == c.mutations && c1.inGlobal && c2.inGlobal && c2.logs == c.logs
      && c2.mutations != {}
      && JournalLocks(c, j) == Missing(A, SortedKeys(ids), c.memberships) + Missing(B, SortedKeys(IdSet([j.shipment] + j.ids)), c.mutations)
  {
    if j.Intent? {
      assert j.shipment in IdSet([j.shipment] + j.ids);
    }
  }

  lemma NothingRecovered(c: Ctx, j: Journal, smooth: bool, trace: seq<Event>)
    requires !Takes(c, j)
    ensures RecoveredOne(c, j, smooth, trace, trace)
  {}

  lemma RecoveryFailed(c: Ctx, j: Journal, before: seq<Event>, after: seq<Event>)
    requires Carries(before, c) && Carries(after, c) && Attempts(after) == Attempts(before)
    requires GaveBack(before, JournalLocks(c, j), false, after)
    ensures RecoveredOne(c, j, false, before, after)
  {
    JournalFailed(c, j, before, after);
    JournalReaches(c, j);
    OnlyGaveBack(before, JournalLocks(c, j), false, after);
    hide JournalLocks, JournalElements, GaveBack, Strict, Attempts;
  }

  lemma RecoveryDone(c: Ctx, j: Journal, smooth: bool, g1: seq<Lock>, g2: seq<Lock>,
      t0: seq<Event>, t1: seq<Event>, t2: seq<Event>, t3: seq<Event>, t4: seq<Event>, t5: seq<Event>)
    requires Takes(c, j) && Carries(t0, c) && Disciplined(t2) && Disciplined(t4) && Carries(t5, c) && Attempts(t5) == Attempts(t0)
    requires g1 + g2 == JournalLocks(c, j)
    requires t1 == t0 + Acquires(g1) && t2 == t1 + Acquires(g2) && t4 == t3 + Releases(g2) && t5 == t4 + Releases(g1)
    requires Logged(c, j.logs, smooth, t2, t3)
    ensures RecoveredOne(c, j, smooth, t0, t5)
  {
    AcquiresJoin(g1, g2);
    Joined(t0, Acquires(g1), Acquires(g2));
    JournalTaken(c, j, t0, t2);
    LoggedOrder(c, j.logs, smooth, t2, t3);
    RecoveryOnly(c, j, smooth, g1, g2, t0, t2, t3, t4, t5);
    hide Only, JournalElements, Strict, Disciplined, Attempts, Held, LocksOf, JournalLocks, Acquires, Releases, Logged;
    ReleasesStrictly(t3, g2);
    ReleasesStrictly(t4, g1);
  }

  lemma RecoveryOnly(c: Ctx, j: Journal, smooth: bool, g1: seq<Lock>, g2: seq<Lock>,
      t0: seq<Event>, t2: seq<Event>, t3: seq<Event>, t4: seq<Event>, t5: seq<Event>)
    requires Takes(c, j) && g1 + g2 == JournalLocks(c, j)
    requires t2 == t0 + Acquires(g1 + g2) && t4 == t3 + Releases(g2) && t5 == t4 + Releases(g1)
    requires Logged(c, j.logs, smooth, t2, t3)
    ensures Only(t0, JournalElements(j), t5)
  {
    JournalReaches(c, j);
    OnlyAcquires(t0, g1 + g2);
    OnlyReleases(t3, g2);
    OnlyReleases(t4, g1);
    var all := JournalElements(j);
    assert LogLocks(j.logs) <= all;
    hide JournalElements, JournalLocks, Elements, Strict, Attempts, Acquires, Releases, Only, LogLocks, Takes;
    OnlyChain(t0, Elements(g1 + g2), t2, LogLocks(j.logs), t3, all);
    OnlyChain(t0, all, t3, {}, t4, all);
    OnlyChain(t0, all, t4, {}, t5, all);
  }

  lemma LoggedAttempts(c: Ctx, logs: seq<Id>, smooth: bool, before: seq<Event>, after: seq<Event>)
    requires Logged(c, logs, smooth, before, after)
    ensures Attempts(after) == Attempts(before)
  {}

  lemma CarriesDisciplined(c: Ctx, trace: seq<Event>)
    requires Carries(trace, c)
    ensures Disciplined(trace) && Held(trace) == LocksOf(c)
  {}

  lemma LoggedOrder(c: Ctx, logs: seq<Id>, smooth: bool, before: seq<Event>, after: seq<Event>)
    requires Logged(c, logs, smooth, before, after)
    ensures Strict(after) ==> Strict(before)
    ensures logs == [] ==> after == before
    ensures smooth && c.logs == {} && Strict(after) ==> logs == []
  {
    assert logs != [] ==> logs[0] in logs;
    if Strict(after) {
      StrictBefore(before, after);
    }
  }

  /** The item logs of a recovery have been written, under mutation locks: those the call tree holds
      are used as they are, any other is locked and unlocked, which breaks the order. */
  ghost predicate Logged(c: Ctx, logs: seq<Id>, smooth: bool, before: seq<Event>, after: seq<Event>) {
    && Only(before, LogLocks(logs), after) && Attempts(after) == Attempts(before)
    && ((forall id :: id in logs ==> id in c.logs) ==> after == before)
    && (smooth && Strict(after) ==> forall id :: id in logs ==> id in c.logs)
  }

  lemma LoggedNone(c: Ctx, logs: seq<Id>, smooth: bool, trace: seq<Event>)
    ensures Logged(c, logs[..0], smooth, trace, trace)
  {}

  lemma LoggedNext(c: Ctx, d: Ctx, logs: seq<Id>, i: nat, smooth: bool, before: seq<Event>, trace: seq<Event>)
    requires i < |logs| && Logged(c, logs[..i], smooth, before, trace) && Carries(trace, d)
    requires d.inGlobal && d.logs == c.logs && d.mutations != {}
    ensures var l := ItemLog(logs[i]);
      if logs[i] in c.logs then Logged(c, logs[..i + 1], smooth, before, trace)
      else
        var t := trace + [Acquire(l)] + [Release(l)];
        && May(Held(trace), Acquire(l))
        && Carries(t, d) && Logged(c, logs[..i + 1], smooth, before, t)
        && (!smooth ==> Logged(c, logs[..i + 1], smooth, before, trace))
  {
    assert logs[..i + 1] == logs[..i] + [logs[i]];
    LogsOnly(logs, i, before, trace);
    hide Only, LogLocks;
    if logs[i] !in c.logs {
      assert logs[i] in logs[..i + 1];
      LogTaken(d, logs[i], trace);
    }
    hide Carries, Strict, Attempts, May, Held;
  }

  lemma LogsOnly(logs: seq<Id>, i: nat, before: seq<Event>, trace: seq<Event>)
    requires i < |logs| && Only(before, LogLocks(logs[..i]), trace)
    ensures var l, all := ItemLog(logs[i]), LogLocks(logs[..i + 1]);
            Only(before, all, trace) && Only(before, all, trace + [Acquire(l)] + [Release(l)])
  {
    var l, all := ItemLog(logs[i]), LogLocks(logs[..i + 1]);
    assert logs[..i + 1] == logs[..i] + [logs[i]];
    assert l in all && LogLocks(logs[..i]) <= all;
    hide Only, LogLocks;
    OnlyMore(before, LogLocks(logs[..i]), trace, all);
    OnlyEvent(before, all, trace, Acquire(l), all);
    OnlyEvent(before, all, trace + [Acquire(l)], Release(l), all);
  }

  lemma LogTaken(d: Ctx, id: Id, trace: seq<Event>)
    requires Carries(trace, d) && d.inGlobal && id !in d.logs && d.mutations != {}
    ensures var l := ItemLog(id);
      var t := trace + [Acquire(l)] + [Release(l)];
      && May(Held(trace), Acquire(l)) && Carries(t, d) && Attempts(t) == Attempts(trace) && trace <= t && !Strict(t)
  {
    var l := ItemLog(id);
    var u := trace + [Acquire(l)];
    assert l !in LocksOf(d) && Stash !in LocksOf(d) && Global in LocksOf(d);
    var m :| m in d.mutations;
    assert Mutation(m) in LocksOf(d) && !Before(Mutation(m), l);
    hide Disciplined, Held, Attempts, Strict, LocksOf;
    Extend(trace, Acquire(l));
    AttemptsExtend(trace, Acquire(l));
    StrictStep(trace, Acquire(l));
    Extend(u, Release(l));
    AttemptsExtend(u, Release(l));
    StrictStep(u, Release(l));
    assert Held(u + [Release(l)]) == LocksOf(d);
  }

  lemma LoggedAll(c: Ctx, logs: seq<Id>, i: nat, smooth: bool, before: seq<Event>, trace: seq<Event>)
    requires i <= |logs| && Logged(c, logs[..i], smooth, before, trace) && (i == |logs| || !smooth)
    ensures Logged(c, logs, smooth, before, trace)
  {
    hide Strict, Attempts;
    assert i == |logs| ==> logs[..i] == logs;
  }

  // ---- stash effects ----

  /** No stash entry is linked to any of these items. */
  predicate Unlinked(links: Links, ids: seq<Text>) {
    forall id :: id in ids ==> Linked(links, id) == 0
  }

  /** Under an item's mutation lock, the first i linked entries have been tried. */
  ghost predicate Stashing(start: seq<Event>, id: Text, i: nat, smooth: bool, trace: seq<Event>) {
    && Disciplined(trace) && Held(trace) == {Mutation(id)} && Attempts(trace) == Attempts(start)
    && Only(start, {Stash}, trace)
    && (Strict(trace) <==> Strict(start))
    && (i == 0 ==> trace == start)
    && (smooth && i > 0 ==> !StashFirst(trace))
    && (smooth ==> trace == start + StashTraces(i))
  }

  lemma StashNext(start: seq<Event>, id: Text, i: nat, smooth: bool, trace: seq<Event>)
    requires Stashing(start, id, i, smooth, trace)
    ensures May(Held(trace), Acquire(Stash))
    ensures !smooth ==> Stashing(start, id, i + 1, smooth, trace)
    ensures Stashing(start, id, i + 1, smooth, trace + [Acquire(Stash)] + [Release(Stash)])
  {
    var t := trace + [Acquire(Stash)];
    assert May(Held(trace), Acquire(Stash));
    Extend(trace, Acquire(Stash));
    StrictStep(trace, Acquire(Stash));
    StashStep(trace, Acquire(Stash));
    AttemptsExtend(trace, Acquire(Stash));
    Extend(t, Release(Stash));
    StrictStep(t, Release(Stash));
    StashStep(t, Release(Stash));
    AttemptsExtend(t, Release(Stash));
    OnlyEvent(start, {Stash}, trace, Acquire(Stash), {Stash});
    OnlyEvent(start, {Stash}, t, Release(Stash), {Stash});
    hide Only, Strict, Disciplined, StashFirst, Attempts, Held;
    assert start + StashTraces(i) + [Acquire(Stash)] + [Release(Stash)] == start + StashTraces(i + 1);
  }

  /** One effect has been tried, with the item's lock or without. */
  ghost predicate Tried(before: seq<Event>, id: Text, n: nat, smooth: bool, after: seq<Event>) {
    && Disciplined(after) && Held(after) == {} && Attempts(after) == Attempts(before) + [id]
    && Only(before, EffectReach([id]), after)
    && (Strict(after) <==> Strict(before))
    && (n == 0 ==> (StashFirst(after) <==> StashFirst(before)))
    && (smooth && StashFirst(after) ==> n == 0)
    && (smooth ==> after == before + [Attempt(id)] + [Acquire(Mutation(id))] + StashTraces(n) + [Release(Mutation(id))])
  }

  /** The attempt, and what holds if the item's lock is had and if not. */
  lemma EffectStart(trace: seq<Event>, id: Text, n: nat)
    requires Disciplined(trace) && Held(trace) == {}
    ensures var t := trace + [Attempt(id)];
      && May(Held(t), Acquire(Mutation(id))) && Tried(trace, id, n, false, t)
      && forall smooth: bool :: Stashing(t + [Acquire(Mutation(id))], id, 0, smooth, t + [Acquire(Mutation(id))])
  {
    Attempted(trace, id);
    var u := trace + [Attempt(id)] + [Acquire(Mutation(id))];
    OnlyNothing(u, {Stash});
    OnlyNothing(trace, EffectReach([id]));
    OnlyEvent(trace, EffectReach([id]), trace, Attempt(id), EffectReach([id]));
    hide Disciplined, Held, Attempts, Strict, StashFirst, May, Only, EffectReach;
    assert u + StashTraces(0) == u;
  }

  lemma EffectOnly(before: seq<Event>, id: Text, trace: seq<Event>)
    requires Only(before + [Attempt(id)] + [Acquire(Mutation(id))], {Stash}, trace)
    ensures Only(before, EffectReach([id]), trace + [Release(Mutation(id))])
  {
    var all, l := EffectReach([id]), Mutation(id);
    assert l in all && Stash in all;
    var t := before + [Attempt(id)];
    OnlyNothing(before, all);
    hide EffectReach, Only;
    OnlyEvent(before, all, before, Attempt(id), all);
    OnlyEvent(before, all, t, Acquire(l), all);
    OnlyChain(before, all, t + [Acquire(l)], {Stash}, trace, all);
    OnlyEvent(before, all, trace, Release(l), all);
  }

  lemma EffectEnd(before: seq<Event>, id: Text, i: nat, n: nat, smooth: bool, trace: seq<Event>)
    requires Disciplined(before) && Held(before) == {}
    requires Stashing(before + [Attempt(id)] + [Acquire(Mutation(id))], id, i, smooth, trace) && (i == n || (i == 0 && !smooth))
    ensures Tried(before, id, n, smooth, trace + [Release(Mutation(id))])
  {
    Attempted(before, id);
    Extend(trace, Release(Mutation(id)));
    StrictStep(trace, Release(Mutation(id)));
    StashStep(trace, Release(Mutation(id)));
    AttemptsExtend(trace, Release(Mutation(id)));
    EffectOnly(before, id, trace);
    hide Disciplined, Attempts, Strict, StashFirst, StashTraces, Held, Only, EffectReach;
  }

  /** The first i effects have been tried. */
  ghost predicate Flushing(start: seq<Event>, queued: seq<Text>, links: Links, i: nat, smooth: bool, trace: seq<Event>) {
    && i <= |queued| && Disciplined(trace) && Held(trace) == {}
    && Attempts(trace) == Attempts(start) + queued[..i]
    && Only(start, EffectReach(queued[..i]), trace)
    && (Strict(trace) <==> Strict(start))
    && (Unlinked(links, queued[..i]) ==> (StashFirst(trace) <==> StashFirst(start)))
    && (smooth && StashFirst(trace) ==> Unlinked(links, queued[..i]))
    && (smooth ==> trace == start + EffectTraces(queued[..i], links))
  }

  lemma FlushStart(start: seq<Event>, queued: seq<Text>, links: Links, smooth: bool)
    requires Disciplined(start) && Held(start) == {}
    ensures Flushing(start, queued, links, 0, smooth, start)
  {
    OnlyNothing(start, EffectReach(queued[..0]));
    assert Attempts(start) + queued[..0] == Attempts(start);
    assert start + EffectTraces(queued[..0], links) == start;
  }

  lemma FlushFacts(start: seq<Event>, queued: seq<Text>, links: Links, i: nat, smooth: bool, trace: seq<Event>)
    requires Flushing(start, queued, links, i, smooth, trace)
    ensures Disciplined(trace) && Held(trace) == {}
  {}

  lemma FlushNext(start: seq<Event>, queued: seq<Text>, links: Links, i: nat, smooth: bool, before: seq<Event>, after: seq<Event>)
    requires i < |queued| && Flushing(start, queued, links, i, smooth, before)
    requires Tried(before, queued[i], Linked(links, queued[i]), smooth, after)
    ensures Flushing(start, queued, links, i + 1, smooth, after)
  {
    var id := queued[i];
    UnlinkedNext(links, queued, i);
    if smooth {
      assert after == before + [Attempt(id)] + [Acquire(Mutation(id))] + StashTraces(Linked(links, id)) + [Release(Mutation(id))];
      NextEffect(start, queued, links, i, before, before + [Attempt(id)] + [Acquire(Mutation(id))] + StashTraces(Linked(links, id)));
    }
    if smooth && StashFirst(after) {
      StashFirstBefore(before, after);
    }
    assert queued[..i + 1] == queued[..i] + [id];
    OnlyChain(start, EffectReach(queued[..i]), before, EffectReach([id]), after, EffectReach(queued[..i + 1]));
    hide Disciplined, Held, Attempts, Strict, EffectTraces, StashFirst, Unlinked, StashTraces, Linked, Only, EffectReach;
    Queued(Attempts(start), queued[..i], [id]);
  }

  lemma {:induction false} StashFirstBefore(before: seq<Event>, after: seq<Event>)
    requires before <= after && StashFirst(after)
    ensures StashFirst(before)
    decreases |after|
  {
    if |before| < |after| {
      StashFirstBefore(before, after[..|after| - 1]);
    } else {
      assert before == after;
    }
  }

  lemma UnlinkedNext(links: Links, ids: seq<Text>, i: nat)
    requires i < |ids|
    ensures Unlinked(links, ids[..i + 1]) <==> Unlinked(links, ids[..i]) && Linked(links, ids[i]) == 0
  {
    assert ids[..i + 1] == ids[..i] + [ids[i]];
  }

  lemma FlushEnd(start: seq<Event>, queued: seq<Text>, links: Links, smooth: bool, trace: seq<Event>)
    requires Flushing(start, queued, links, |queued|, smooth, trace)
    ensures Disciplined(trace) && Held(trace) == {} && Attempts(trace) == Attempts(start) + queued
    ensures (Strict(trace) <==> Strict(start)) && (smooth ==> trace == start + EffectTraces(queued, links))
    ensures Unlinked(links, queued) ==> (StashFirst(trace) <==> StashFirst(start))
    ensures smooth && StashFirst(trace) ==> Unlinked(links, queued)
    ensures Only(start, EffectReach(queued), trace)
  {
    hide Only, EffectReach, Disciplined, Held, Attempts, Strict, EffectTraces, StashFirst, Unlinked;
    assert queued[..|queued|] == queued;
  }

  lemma NextEffect(start: seq<Event>, ids: seq<Text>, links: Links, i: nat, before: seq<Event>, t: seq<Event>)
    requires i < |ids| && before == start + EffectTraces(ids[..i], links)
    requires t == before + [Attempt(ids[i])] + [Acquire(Mutation(ids[i]))] + StashTraces(Linked(links, ids[i]))
    ensures t + [Release(Mutation(ids[i]))] == start + EffectTraces(ids[..i + 1], links)
  {
    assert ids[..i + 1][..i] == ids[..i];
    hide StashTraces, Linked;
  }

  /** What a call under the global and its membership locks wants. */
  ghost function ItemLocks(shipments: Shipments, c: Ctx, scope: set<Text>): seq<Lock> {
    if Refused(c, scope) then []
    else Missing(C, SortedKeys(scope), c.logs) + Missing(B, SortedKeys(Governed(shipments, scope)), c.mutations)
  }

  lemma ItemParts(shipments: Shipments, c: Ctx, scope: set<Text>)
    ensures Refused(c, scope) <==> c.mutations != {} && !(scope <= c.logs)
    ensures Refused(c, scope) ==> ItemLocks(shipments, c, scope) == []
    ensures var wc, wb := Missing(C, SortedKeys(scope), c.logs), Missing(B, SortedKeys(Governed(shipments, scope)), c.mutations);
            !Refused(c, scope) ==> ItemLocks(shipments, c, scope) == wc + wb
    ensures var e2 := With(C, c, OfClass(C, c) + scope); OfClass(B, e2) == c.mutations && OfClass(C, c) == c.logs
  {}

  lemma ScopeParts(shipments: Shipments, c: Ctx, scope: set<Text>)
    requires c.inGlobal && Covers(shipments, c)
    ensures var e1 := With(A, c, c.memberships + Related(shipments, scope));
      && Wanted(shipments, c, scope) ==
           Missing(A, SortedKeys(Related(shipments, scope)), c.memberships) + ItemLocks(shipments, e1, scope)
      && (Refused(e1, scope) <==> Refused(c, scope))
    ensures c.mutations != {} && scope <= c.logs ==> Wanted(shipments, c, scope) == []
  {
    if scope <= c.logs && c.mutations != {} {
      CoveredWantsNothing(shipments, c, scope);
    }
    hide Missing, Related, Governed, SortedKeys, Covers;
    LockSums(Missing(A, SortedKeys(Related(shipments, scope)), c.memberships), Missing(C, SortedKeys(scope), c.logs),
             Missing(B, SortedKeys(Governed(shipments, scope)), c.mutations));
  }

  lemma LockSums(a: seq<Lock>, b: seq<Lock>, c: seq<Lock>)
    ensures a + b + c == a + (b + c) && a + [] == a
  {}

  lemma NoLocksHeld()
    ensures LocksOf(NO_LOCKS) == {}
  {}

  lemma CarriesNothing(trace: seq<Event>)
    ensures Carries(trace, NO_LOCKS) <==> Disciplined(trace) && Held(trace) == {}
  {
    NoLocksHeld();
  }

  lemma Queued(a: seq<Text>, b: seq<Text>, c: seq<Text>)
    ensures a + b + c == a + (b + c) && a + [] == a && b[..0] == []
  {}

  /** Starting one effect: its attempt, and its item's lock. */
  lemma Attempted(trace: seq<Event>, id: Text)
    requires Disciplined(trace) && Held(trace) == {}
    ensures var t := trace + [Attempt(id)];
      && (Strict(t) <==> Strict(trace)) && (StashFirst(t) <==> StashFirst(trace))
      && Disciplined(t) && Held(t) == {} && Attempts(t) == Attempts(trace) + [id]
      && May(Held(t), Acquire(Mutation(id)))
      && var u := t + [Acquire(Mutation(id))];
         && Disciplined(u) && Held(u) == {Mutation(id)} && Attempts(u) == Attempts(t)
         && (Strict(u) <==> Strict(trace)) && (StashFirst(u) <==> StashFirst(trace))
  {
    hide Disciplined, Held, Attempts, Strict, StashFirst;
    var t := trace + [Attempt(id)];
    StrictStep(trace, Attempt(id));
    StashStep(trace, Attempt(id));
    StrictStep(t, Acquire(Mutation(id)));
    StashStep(t, Acquire(Mutation(id)));
    Extend(trace, Attempt(id));
    AttemptsExtend(trace, Attempt(id));
    Extend(t, Acquire(Mutation(id)));
    AttemptsExtend(t, Acquire(Mutation(id)));
  }

  lemma TookGlobal(trace: seq<Event>)
    requires Carries(trace, NO_LOCKS)
    ensures May(Held(trace), Acquire(Global))
    ensures Took(trace, NO_LOCKS, [Global], ONLY_GLOBAL, trace + [Acquire(Global)])
  {
    assert LocksOf(NO_LOCKS) == {} && LocksOf(ONLY_GLOBAL) == {Global};
    Extend(trace, Acquire(Global));
    assert Acquires([Global]) == [Acquire(Global)];
  }

  /** The first i of `locks` are what is held beyond base. */
  ghost predicate Undoing(locks: seq<Lock>, i: nat, base: set<Lock>, trace: seq<Event>)
    requires i <= |locks|
  {
    Disciplined(trace) && Owns(locks[..i], base, Held(trace))
  }

  lemma TookFacts(before: seq<Event>, c: Ctx, locks: seq<Lock>, d: Ctx, trace: seq<Event>)
    requires Took(before, c, locks, d, trace)
    ensures Carries(trace, d) && Owns(locks, LocksOf(c), LocksOf(d))
    ensures Attempts(trace) == Attempts(before)
    ensures trace == before + Acquires(locks)
    ensures locks == [] ==> trace == before
  {
    hide Carries, Owns, Attempts;
    AcquiresAreNoAttempts(before, locks);
  }

  lemma ToUndo(locks: seq<Lock>, c: Ctx, d: Ctx, trace: seq<Event>)
    requires Carries(trace, d) && Owns(locks, LocksOf(c), LocksOf(d))
    ensures Undoing(locks, |locks|, LocksOf(c), trace) && locks[..|locks|] == locks
    ensures locks == [] ==> Releases(locks) == [] && trace + Releases(locks) == trace
  {
    hide Held, Disciplined, Owns;
    assert locks[..|locks|] == locks;
  }

  lemma {:induction false} AcquiresAreNoAttempts(before: seq<Event>, locks: seq<Lock>)
    ensures Attempts(before + Acquires(locks)) == Attempts(before)
  {
    if locks == [] {
      assert before + Acquires(locks) == before;
    } else {
      var n := |locks| - 1;
      AcquiresAreNoAttempts(before, locks[..n]);
      assert before + Acquires(locks) == before + Acquires(locks[..n]) + [Acquire(locks[n])];
      AttemptsExtend(before + Acquires(locks[..n]), Acquire(locks[n]));
    }
  }

  lemma UnlockStep(locks: seq<Lock>, i: nat, base: set<Lock>, trace: seq<Event>)
    requires i < |locks| && Undoing(locks, i + 1, base, trace)
    ensures var after := trace + [Release(locks[i])];
      && Undoing(locks, i, base, after)
      && after + Releases(locks[..i]) == trace + Releases(locks[..i + 1])
      && !Release(locks[i]).Attempt?
  {
    hide Owns, Disciplined, Held;
    var l := locks[i];
    assert locks[..i + 1] == locks[..i] + [l] && locks[..i + 1][..i] == locks[..i];
    OwnsLess(locks[..i], l, base, Held(trace));
    Extend(trace, Release(l));
    assert trace + [Release(l)] + Releases(locks[..i]) == trace + ([Release(l)] + Releases(locks[..i]));
  }

  lemma Undone(locks: seq<Lock>, c: Ctx, trace: seq<Event>)
    requires Undoing(locks, 0, LocksOf(c), trace)
    ensures Carries(trace, c) && trace + Releases(locks[..0]) == trace
  {}

  lemma OwnsLess(locks: seq<Lock>, l: Lock, base: set<Lock>, held: set<Lock>)
    requires Owns(locks + [l], base, held)
    ensures Owns(locks, base, held - {l}) && l in held
    ensures l.Global? ==> held == {Global}
  {
    var all := locks + [l];
    assert all[|locks|] == l;
    assert forall i :: 0 <= i < |locks| ==> all[i] == locks[i];
    if l.Global? {
      assert locks == [];
    }
  }
}
