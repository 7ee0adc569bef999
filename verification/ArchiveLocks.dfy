/** Which locks ArchiveItem takes and gives back, on every success and failure path, for
    top-level calls and for the nested calls of a cascade, recoveries and stash effects included. */
module ArchiveLocks {
  import opened ArchiveNeeds
  import opened ArchiveSteps
  import opened ArchiveTraces
  import opened Bytes
  import opened LockOrder
  import opened SortedSets

  // ---- lock IDs ----

  /** uniqueNonEmptyStrings followed by sort.Strings. */
  method SortIds(ids: seq<Text>) returns (ordered: seq<Text>)
    ensures ordered == SortedKeys(IdSet(ids))
  {
    ordered := [];
    for n := 0 to |ids|
      invariant StrictlySorted(ordered)
      invariant forall id :: id in ordered <==> id in ids[..n] && id != []
    {
      var id := ids[n];
      assert ids[..n + 1] == ids[..n] + [id];
      var at := 0;
      while at < |ordered| && Less(ordered[at], id)
        invariant at <= |ordered|
        invariant forall j :: 0 <= j < at ==> Less(ordered[j], id)
      {
        at := at + 1;
      }
      if id != [] && !(at < |ordered| && ordered[at] == id) {
        InsertSorted(ordered, at, id);
        ordered := ordered[..at] + [id] + ordered[at..];
      }
    }
    assert ids[..|ids|] == ids;
    SortedKeysUnique(ordered, SortedKeys(IdSet(ids)));
  }

  lemma InsertSorted(s: seq<Text>, at: nat, id: Text)
    requires StrictlySorted(s) && at <= |s|
    requires forall j :: 0 <= j < at ==> Less(s[j], id)
    requires at < |s| ==> !Less(s[at], id) && s[at] != id
    ensures var t := s[..at] + [id] + s[at..];
            StrictlySorted(t) && forall x :: x in t <==> x in s || x == id
  {
    var t := s[..at] + [id] + s[at..];
    assert s == s[..at] + s[at..];
    forall j | at <= j < |s| ensures Less(id, s[j]) {
      LessTrichotomy(id, s[at]);
      if j > at {
        LessTransitive(id, s[at], s[j]);
      }
    }
    forall i, j | 0 <= i < j < |t| ensures Less(t[i], t[j]) {
      var i' := if i < at then i else i - 1;
      var j' := if j < at then j else j - 1;
      assert i != at && j != at ==> Less(s[i'], s[j']);
    }
  }

  /** What an archive finds: the canonical shipments and their normalized members, the stash entries
      linked to each item when its effect runs, the journals of interrupted shipment operations, and
      whether a recovered journal can be removed. The writers of shipments and journals take the
      lifecycle global, so that these do not change while an archive holds that lock. */
  datatype World = World(shipments: Shipments, links: Links, journals: seq<Journal>, removable: bool)

  class ArchiveThread {
    const shipments: Shipments
    const links: Links
    const removable: bool
    var trace: seq<Event>
    /** archiveStashQueue.effects. */
    var effects: seq<Text>
    /** The journals on disk. */
    var pending: seq<Journal>

    constructor (world: World)
      ensures shipments == world.shipments && links == world.links && removable == world.removable
      ensures trace == [] && effects == [] && pending == world.journals
    {
      shipments, links, removable := world.shipments, world.links, world.removable;
      trace, effects, pending := [], [], world.journals;
    }

    /** One lock attempt; contention past the bounded wait, cancellation or I/O make it fail. */
    method TryLock(l: Lock, smooth: bool) returns (ok: bool)
      requires May(Held(trace), Acquire(l))
      modifies this`trace
      ensures trace == if ok then old(trace) + [Acquire(l)] else old(trace)
      ensures smooth ==> ok
    {
      ok := Try(smooth);
      if ok {
        trace := trace + [Acquire(l)];
      }
    }

    /** Runs unlock closures in reverse order. */
    method Unlock(locks: seq<Lock>, ghost c: Ctx, ghost d: Ctx)
      requires Carries(trace, d) && Owns(locks, LocksOf(c), LocksOf(d))
      modifies this`trace
      ensures Carries(trace, c) && trace == old(trace) + Releases(locks)
      ensures Attempts(trace) == Attempts(old(trace)) && Only(old(trace), {}, trace)
      ensures locks == [] ==> trace == old(trace)
    {
      var i := |locks|;
      OnlyReleases(trace, locks);
      ToUndo(locks, c, d, trace);
      hide *;
      while i > 0
        invariant 0 <= i <= |locks| && Undoing(locks, i, LocksOf(c), trace)
        invariant trace + Releases(locks[..i]) == old(trace) + Releases(locks)
        invariant Attempts(trace) == Attempts(old(trace))
      {
        i := i - 1;
        UnlockStep(locks, i, LocksOf(c), trace);
        AttemptsExtend(trace, Release(locks[i]));
        trace := trace + [Release(locks[i])];
      }
      Undone(locks, c, trace);
    }

    /** lockShipmentLifecycleGlobal: reentrant through the context; a first acquisition also
        runs the recovery barrier, which can fail. */
    method LockGlobal(c: Ctx, smooth: bool) returns (ok: bool, d: Ctx, unlocks: seq<Lock>)
      requires Carries(trace, c) && (!c.inGlobal ==> c == NO_LOCKS)
      modifies this`trace, this`pending
      ensures ok ==> d == c.(inGlobal := true) && Carries(trace, d) && Owns(unlocks, LocksOf(c), LocksOf(d))
      ensures ok ==> unlocks == (if c.inGlobal then [] else [Global])
      ensures !ok ==> Carries(trace, c)
      ensures Attempts(trace) == Attempts(old(trace))
      ensures c.inGlobal ==> ok && trace == old(trace) && pending == old(pending)
      ensures !c.inGlobal && AllQuiet(old(pending)) && Strict(old(trace)) ==> Strict(trace)
      ensures !c.inGlobal && smooth && Strict(trace) ==> AllQuiet(old(pending))
      ensures !c.inGlobal && ok && removable ==> pending == []
      ensures AllQuiet(old(pending)) ==> AllQuiet(pending)
      ensures Among(pending, old(pending)) && Only(old(trace), {Global} + JournalLocksOf(old(pending)), trace)
      ensures old(pending) == [] ==> pending == []
      ensures old(pending) == [] && ok ==> Took(old(trace), c, unlocks, d, trace)
      ensures old(pending) == [] && !ok ==> GaveBack(old(trace), [Global], false, trace)
      ensures smooth ==> ok
    {
      TookNothing(trace, c);
      TookFacts(trace, c, [], c, trace);
      ghost var reach := {Global} + JournalLocksOf(pending);
      OnlyNothing(trace, reach);
      if c.inGlobal {
        return true, c, [];
      }
      d := c.(inGlobal := true);
      TookGlobal(trace);
      StrictStep(trace, Acquire(Global));
      ghost var t0 := trace;
      GaveBackNothing(trace, [Global]);
      ok := TryLock(Global, smooth);
      if ok {
        TookFacts(t0, c, [Global], d, trace);
        ghost var t1 := trace;
        OnlyEvent(t0, reach, t0, Acquire(Global), reach);
        hide Only, JournalLocksOf, Among, Took, Carries, Owns, LocksOf, GaveBack, Strict, Disciplined, Held, May, Attempts;
        ok := Recover(d, smooth);
        ghost var t2 := trace;
        OnlyChain(t0, reach, t1, JournalLocksOf(old(pending)), t2, reach);
        if !ok {
          Unlock([Global], c, d);
          OnlyChain(t0, reach, t2, {}, trace, reach);
          CarriesNothing(trace);
          ReleasesStrictly(t2, [Global]);
          if old(pending) == [] {
            AllGivenBack(t0, [Global], t1, trace);
            GaveBackAny(t0, [Global], true, trace);
          }
        }
      }
      return ok, d, [Global];
    }

    /** recoverPendingShipmentOperations: every journal once; an error for one does not stop the
        others. A recovered journal whose removal fails is left for the next recovery. */
    method Recover(c: Ctx, smooth: bool) returns (ok: bool)
      requires Carries(trace, c) && c.inGlobal
      modifies this`trace, this`pending
      ensures Carries(trace, c) && Recovered(c, old(pending), smooth, old(trace), trace)
      ensures Only(old(trace), JournalLocksOf(old(pending)), trace) && Among(pending, old(pending))
      ensures ok && removable ==> pending == []
      ensures AllQuiet(old(pending)) ==> AllQuiet(pending)
      ensures old(pending) == [] ==> pending == [] && trace == old(trace) && (smooth ==> ok)
      ensures smooth && c == ONLY_GLOBAL ==> ok
    {
      ok := Try(smooth);
      var journals, left := pending, [];
      ghost var t0 := trace;
      if !ok {
        RecoveredNone(c, journals, false, t0);
        return;
      }
      RecoveredNone(c, journals[..0], smooth, t0);
      hide Carries, Recovered, RecoveredOne, AllQuiet, Only;
      for i := 0 to |journals|
        invariant Carries(trace, c)
        invariant Recovered(c, journals[..i], smooth, t0, trace)
        invariant ok && removable ==> left == []
        invariant journals == [] ==> ok && left == [] && trace == t0
        invariant forall j :: j in left ==> j in journals
        invariant smooth && c == ONLY_GLOBAL ==> ok
      {
        ghost var t := trace;
        var done := RecoverOne(c, journals[i], smooth);
        RecoveredNext(c, journals, i, smooth, t0, t, trace);
        ok := ok && done;
        var removed := Try(removable);
        if !done || !removed {
          left := left + [journals[i]];
        }
      }
      assert journals[..|journals|] == journals;
      RecoveredOrder(c, journals, smooth, t0, trace);
      StillQuiet(journals, left);
      pending := left;
    }

    /** One journal under its locks, which are given back whatever happens. */
    method RecoverOne(c: Ctx, j: Journal, smooth: bool) returns (ok: bool)
      requires Carries(trace, c) && c.inGlobal
      modifies this`trace
      ensures Carries(trace, c) && RecoveredOne(c, j, smooth, old(trace), trace)
      ensures ok ==> j.Committed? || Takes(c, j)
      ensures smooth && (j.Committed? || Takes(c, j)) ==> ok
    {
      JournalParts(c, j);
      if !Takes(c, j) {
        NothingRecovered(c, j, smooth, trace);
      }
      hide *;
      if j.Committed? {
        return true;
      }
      if j.shipment in c.memberships {
        return false;
      }
      ghost var t0 := trace;
      ghost var wb := Missing(B, SortedKeys(IdSet([j.shipment] + j.ids)), c.mutations);
      var c1, c2, g1, g2;
      ok, c1, g1 := LockEach(A, c, [j.shipment], smooth);
      if !ok {
        GaveBackMore(t0, Missing(A, SortedKeys(IdSet([j.shipment])), c.memberships), wb, false, trace);
        RecoveryFailed(c, j, t0, trace);
        return;
      }
      ghost var t1 := trace;
      TookFacts(t0, c, g1, c1, t1);
      ok, c2, g2 := LockEach(B, c1, [j.shipment] + j.ids, smooth);
      if !ok {
        ghost var t2 := trace;
        Unlock(g1, c, c1);
        GaveBackUnder(t0, g1, t1, wb, false, t2, trace);
        RecoveryFailed(c, j, t0, trace);
        return;
      }
      ghost var t2 := trace;
      TookFacts(t1, c1, g2, c2, t2);
      ok := WriteLogs(c, c2, j.logs, smooth);
      ghost var t3 := trace;
      LoggedAttempts(c, j.logs, smooth, t2, t3);
      Unlock(g2, c1, c2);
      ghost var t4 := trace;
      Unlock(g1, c, c1);
      CarriesDisciplined(c2, t2);
      CarriesDisciplined(c1, t4);
      RecoveryDone(c, j, smooth, g1, g2, t0, t1, t2, t3, t4, trace);
    }

    /** The item logs a recovery appends to or filters, one at a time; one the call tree of c holds is
        reused. */
    method WriteLogs(ghost c: Ctx, d: Ctx, logs: seq<Id>, smooth: bool) returns (ok: bool)
      requires Carries(trace, d) && d.inGlobal && d.logs == c.logs && d.mutations != {}
      modifies this`trace
      ensures Carries(trace, d) && Logged(c, logs, smooth, old(trace), trace)
      ensures smooth ==> ok
    {
      ghost var t0 := trace;
      LoggedNone(c, logs, smooth, trace);
      hide *;
      for i := 0 to |logs|
        invariant Carries(trace, d) && Logged(c, logs[..i], smooth, t0, trace)
      {
        LoggedNext(c, d, logs, i, smooth, t0, trace);
        if logs[i] !in d.logs {
          ok := TryLock(ItemLog(logs[i]), smooth);
          if !ok {
            LoggedAll(c, logs, i, smooth, t0, trace);
            return;
          }
          trace := trace + [Release(ItemLog(logs[i]))];
        }
        ok := Try(smooth);
        if !ok {
          LoggedAll(c, logs, i + 1, smooth, t0, trace);
          return;
        }
      }
      LoggedAll(c, logs, |logs|, smooth, t0, trace);
      ok := Try(smooth);
    }

    /** The lock loop shared by lockArchiveShipmentMemberships, lockItemLogsSorted (with
        requireItemLogLockOrder) and lockArtifactMutations: in sorted order, skipping the locks
        the context carries, giving back what was taken when one cannot be had. An item log that
        is not held is refused while any mutation lock is held. */
    method LockEach(class_: Class, c: Ctx, ids: seq<Text>, smooth: bool)
      returns (ok: bool, d: Ctx, unlocks: seq<Lock>)
      requires Carries(trace, c) && c.inGlobal
      modifies this`trace
      ensures ok ==> d == With(class_, c, OfClass(class_, c) + IdSet(ids)) && Took(old(trace), c, unlocks, d, trace)
      ensures ok ==> unlocks == Missing(class_, SortedKeys(IdSet(ids)), OfClass(class_, c)) && Global !in unlocks
      ensures !ok ==> Carries(trace, c) && Attempts(trace) == Attempts(old(trace))
      ensures !ok ==> GaveBack(old(trace), Missing(class_, SortedKeys(IdSet(ids)), OfClass(class_, c)), false, trace)
      ensures smooth ==> ok || (class_ == C && c.mutations != {})
      ensures IdSet(ids) <= OfClass(class_, c) ==> ok && unlocks == [] && trace == old(trace)
      ensures class_ == C && c.mutations != {} ==> (ok <==> IdSet(ids) <= c.logs) && trace == old(trace)
    {
      var ordered := SortIds(ids);
      var locked := OfClass(class_, c);
      d, unlocks := c, [];
      ghost var free := IdSet(ids) <= locked || (class_ == C && c.mutations != {});
      ghost var before := trace;
      Start(class_, c, ordered, trace);
      hide Progress, Took, Carries, Missing, Disciplined, Held, May, Attempts, SortedKeys, With, LockOf, GaveBack;
      var i := 0;
      while i < |ordered|
        invariant i <= |ordered| && Progress(class_, c, ordered, i, locked, unlocks, before, trace)
        invariant free ==> unlocks == [] && trace == before && locked == OfClass(class_, c)
      {
        var id := ordered[i];
        if id in locked {
          SkipHeld(class_, c, ordered, i, locked, unlocks, before, trace);
        } else {
          var got := false;
          if !(class_ == C && c.mutations != {}) {
            MayTake(class_, c, ordered, i, locked, unlocks, before, trace);
            Taken(class_, c, ordered, i, locked, unlocks, before, trace);
            got := TryLock(LockOf(class_, id), smooth);
          }
          if !got {
            Undoable(class_, c, ordered, i, locked, unlocks, before, trace);
            TookFacts(before, c, unlocks, With(class_, c, locked), trace);
            ghost var t := trace;
            Unlock(unlocks, c, With(class_, c, locked));
            GivenUp(class_, c, ordered, i, locked, unlocks, before, t, trace);
            return false, c, [];
          }
          unlocks, locked := unlocks + [LockOf(class_, id)], locked + {id};
        }
        i := i + 1;
      }
      Done(class_, c, ids, ordered, locked, unlocks, before, trace);
      return true, With(class_, c, locked), unlocks;
    }

    /** lockArchiveGovernance: global, recovery, memberships, logs, mutations; whatever fails on the
        way gives back exactly what was taken. */
    method LockGovernance(c: Ctx, item: Text, cascade: bool, first: seq<Text>, smooth: bool)
      returns (ok: bool, d: Ctx, unlocks: seq<Lock>, ghost scope: set<Text>)
      requires Carries(trace, c) && Entry(shipments, c)
      modifies this`trace, this`pending
      ensures scope == Scope(item, Listed(cascade, first))
      ensures ok ==> Entry(shipments, d) && d == ScopeCtx(shipments, c, scope) && d.inGlobal
      ensures ok ==> Carries(trace, d) && Owns(unlocks, LocksOf(c), LocksOf(d))
      ensures ok ==> !Refused(c, scope) && unlocks == Wanted(shipments, c, scope)
      ensures ok && c == NO_LOCKS ==> unlocks == CanonicalLocks(shipments, scope) && d == ChildCtx(shipments, scope)
      ensures ok && c.mutations != {} ==> unlocks == [] && d == c
      ensures !ok ==> Carries(trace, c)
      ensures Attempts(trace) == Attempts(old(trace))
      ensures c == NO_LOCKS && AllQuiet(old(pending)) && Strict(old(trace)) ==> Strict(trace)
      ensures c == NO_LOCKS && smooth && Strict(trace) ==> AllQuiet(old(pending))
      ensures c == NO_LOCKS && ok && removable ==> pending == []
      ensures c == NO_LOCKS && smooth ==> ok
      ensures Among(pending, old(pending)) && Only(old(trace), Reach(shipments, c, scope, old(pending)), trace)
      ensures old(pending) == [] ==> pending == [] && Exactly(shipments, c, scope, smooth, ok, old(trace), trace)
    {
      var e, g0, more;
      var scopeIds := [item] + Listed(cascade, first);
      scope, d, unlocks := IdSet(scopeIds), c, [];
      assert scope == Scope(item, Listed(cascade, first));
      EntryFacts(shipments, c, scope);
      NewlyCovered(shipments, c.(inGlobal := true), scope);
      hide *;
      ghost var t0, clean, quiet := trace, pending == [], AllQuiet(pending);
      ok, e, g0 := LockGlobal(c, smooth);
      if !ok {
        OnlyGlobal(shipments, c, scope, old(pending), t0, trace);
        if clean {
          GlobalFailed(shipments, c, scope, smooth, t0, trace);
        }
        return;
      }
      ghost var t1 := trace;
      assert c == NO_LOCKS && smooth && Strict(t1) ==> quiet;
      assert c == NO_LOCKS && quiet && Strict(t0) ==> Strict(t1);
      if clean {
        TookFacts(t0, c, g0, e, t1);
      }
      ghost var left := pending;
      ok, d, more := LockRecovered(e, scopeIds, smooth);
      StaysInReach(shipments, c, scope, left, old(pending), t0, t1, trace);
      AmongChain(pending, left, old(pending));
      if !ok {
        ghost var t2 := trace;
        UnlockGlobal(c, e, g0, scope, smooth, clean, t0, t1);
        OnlyThen(t0, Reach(shipments, c, scope, old(pending)), t2, trace);
        return;
      }
      GovernanceDone(shipments, c, e, d, g0, more, scope, smooth, clean, t0, t1, trace);
      unlocks := g0 + more;
    }

    /** The deferred release of the global when a later step has failed. */
    method UnlockGlobal(c: Ctx, e: Ctx, g0: seq<Lock>, ghost scope: set<Text>, ghost smooth: bool, ghost clean: bool,
        ghost t0: seq<Event>, ghost t1: seq<Event>)
      requires (c.inGlobal || c == NO_LOCKS) && e == c.(inGlobal := true) && g0 == if c.inGlobal then [] else [Global]
      requires Carries(trace, e) && Owns(g0, LocksOf(c), LocksOf(e))
      requires clean ==> t1 == t0 + Acquires(g0) && Exactly(shipments, e, scope, smooth, false, t1, trace)
      modifies this`trace
      ensures Carries(trace, c) && Attempts(trace) == Attempts(old(trace))
      ensures Only(old(trace), {}, trace) && (Strict(trace) <==> Strict(old(trace)))
      ensures clean ==> Exactly(shipments, c, scope, smooth, false, t0, trace)
    {
      hide *;
      ghost var t2 := trace;
      Unlock(g0, c, e);
      GovernanceFailed(shipments, c, e, g0, scope, smooth, clean, t0, t1, t2, trace);
    }

    /** The recovery of lockArchiveGovernance and its steps after it. */
    method LockRecovered(c: Ctx, scopeIds: seq<Text>, smooth: bool) returns (ok: bool, d: Ctx, unlocks: seq<Lock>)
      requires Carries(trace, c) && Covers(shipments, c) && c.inGlobal
      modifies this`trace, this`pending
      ensures ok ==> d == ScopeCtx(shipments, c, IdSet(scopeIds)) && Carries(trace, d) && Owns(unlocks, LocksOf(c), LocksOf(d))
      ensures ok ==> !Refused(c, IdSet(scopeIds)) && unlocks == Wanted(shipments, c, IdSet(scopeIds)) && Global !in unlocks
      ensures ok && c.mutations != {} ==> unlocks == [] && d == c
      ensures !ok ==> Carries(trace, c)
      ensures Attempts(trace) == Attempts(old(trace))
      ensures c == ONLY_GLOBAL && AllQuiet(old(pending)) && Strict(old(trace)) ==> Strict(trace)
      ensures Strict(trace) ==> Strict(old(trace))
      ensures ok && removable ==> pending == []
      ensures smooth && c == ONLY_GLOBAL ==> (ok <==> !Refused(c, IdSet(scopeIds)))
      ensures Among(pending, old(pending))
      ensures Only(old(trace), JournalLocksOf(old(pending)) + Elements(Wanted(shipments, c, IdSet(scopeIds))), trace)
      ensures old(pending) == [] ==> pending == [] && Exactly(shipments, c, IdSet(scopeIds), smooth, ok, old(trace), trace)
    {
      ghost var t0, scope := trace, IdSet(scopeIds);
      hide *;
      d, unlocks := c, [];
      ghost var journals := pending;
      ok := Recover(c, smooth);
      ghost var t1 := trace;
      RecoveredOrder(c, journals, smooth, t0, t1);
      if !ok {
        NotExactly(shipments, c, scope, t1);
        OnlyNothing(t1, Elements(Wanted(shipments, c, scope)));
        OnlyBoth(t0, JournalLocksOf(journals), t1, Elements(Wanted(shipments, c, scope)), t1);
        return;
      }
      ok, d, unlocks := LockScope(c, scopeIds, smooth);
      if ok {
        TookFacts(t1, c, unlocks, d, trace);
      }
      ScopeDone(shipments, c, d, scope, smooth, ok, t1, trace);
      OnlyBoth(t0, JournalLocksOf(journals), t1, Elements(Wanted(shipments, c, scope)), trace);
    }

    /** The steps of lockArchiveGovernance under the lifecycle global. */
    method LockScope(c: Ctx, scopeIds: seq<Text>, smooth: bool) returns (ok: bool, d: Ctx, unlocks: seq<Lock>)
      requires Carries(trace, c) && Covers(shipments, c) && c.inGlobal
      modifies this`trace
      ensures ok ==> d == ScopeCtx(shipments, c, IdSet(scopeIds)) && Took(old(trace), c, unlocks, d, trace)
      ensures ok ==> !Refused(c, IdSet(scopeIds)) && unlocks == Wanted(shipments, c, IdSet(scopeIds)) && Global !in unlocks
      ensures ok && c.mutations != {} ==> unlocks == [] && d == c
      ensures !ok ==> Carries(trace, c) && Attempts(trace) == Attempts(old(trace))
      ensures !ok ==> GaveBack(old(trace), Wanted(shipments, c, IdSet(scopeIds)), smooth, trace)
      ensures smooth ==> (ok <==> !Refused(c, IdSet(scopeIds)))
      ensures c.mutations != {} && IdSet(scopeIds) <= c.logs ==> trace == old(trace)
    {
      ghost var scope := IdSet(scopeIds);
      RelatedIds(shipments, scope);
      ScopeSteps(shipments, c, scope);
      ScopeParts(shipments, c, scope);
      hide *;
      ghost var t0, w := trace, Wanted(shipments, c, scope);
      d, unlocks := c, [];
      GaveBackNothing(t0, w);
      var e1, g1, g2;
      ok := Try(smooth);
      if !ok {
        return;
      }
      var shipmentIds := Listing(Related(shipments, IdSet(scopeIds)));
      ok, e1, g1 := LockEach(A, c, shipmentIds, smooth);
      ghost var wi := ItemLocks(shipments, With(A, c, c.memberships + Related(shipments, scope)), scope);
      if !ok {
        GaveBackMore(t0, Missing(A, SortedKeys(Related(shipments, scope)), c.memberships), wi, false, trace);
        GaveBackAny(t0, w, false, trace);
        return;
      }
      ghost var t1 := trace;
      TookFacts(t0, c, g1, e1, t1);
      GaveBackNothing(t1, wi);
      ok := Try(smooth);
      if ok {
        ok, d, g2 := LockItems(e1, scopeIds, smooth);
      }
      if !ok {
        ghost var t2 := trace;
        Unlock(g1, c, e1);
        GaveBackUnder(t0, g1, t1, wi, smooth, t2, trace);
        GaveBackAny(t0, w, smooth, trace);
        return;
      }
      TookMore(t0, c, g1, e1, t1, g2, d, trace);
      unlocks := g1 + g2;
      TookFacts(t0, c, unlocks, d, trace);
    }

    /** The item logs and mutation locks of a scope, and the guard after them. */
    method LockItems(c: Ctx, scopeIds: seq<Text>, smooth: bool) returns (ok: bool, d: Ctx, unlocks: seq<Lock>)
      requires Carries(trace, c) && c.inGlobal
      modifies this`trace
      ensures ok ==> Took(old(trace), c, unlocks, d, trace)
      ensures ok ==> var e2 := With(C, c, OfClass(C, c) + IdSet(scopeIds));
                     d == With(B, e2, OfClass(B, e2) + Governed(shipments, IdSet(scopeIds)))
      ensures ok ==> !Refused(c, IdSet(scopeIds)) && unlocks == ItemLocks(shipments, c, IdSet(scopeIds)) && Global !in unlocks
      ensures !ok ==> Carries(trace, c) && Attempts(trace) == Attempts(old(trace))
      ensures !ok ==> GaveBack(old(trace), ItemLocks(shipments, c, IdSet(scopeIds)), smooth, trace)
      ensures smooth ==> (ok <==> !Refused(c, IdSet(scopeIds)))
    {
      ghost var scope := IdSet(scopeIds);
      RelatedIds(shipments, scope);
      ItemParts(shipments, c, scope);
      hide *;
      ghost var t1 := trace;
      ghost var wb := Missing(B, SortedKeys(Governed(shipments, scope)), c.mutations);
      d, unlocks := c, [];
      var e2, g2, g3;
      ok, e2, g2 := LockEach(C, c, scopeIds, smooth);
      if !ok {
        if Refused(c, scope) {
          GaveBackNothing(t1, []);
        } else {
          GaveBackMore(t1, Missing(C, SortedKeys(scope), c.logs), wb, false, trace);
        }
        return;
      }
      ghost var t2 := trace;
      TookFacts(t1, c, g2, e2, t2);
      var artifactIds := Listing(Governed(shipments, IdSet(scopeIds)));
      ok, d, g3 := LockEach(B, e2, artifactIds, smooth);
      if ok {
        ok := Try(smooth);
        if !ok {
          ghost var t3 := trace;
          TookFacts(t2, e2, g3, d, trace);
          Unlock(g3, e2, d);
          AllGivenBack(t2, g3, t3, trace);
          GaveBackAny(t2, g3, true, trace);
        }
      }
      if !ok {
        ghost var t3 := trace;
        Unlock(g2, c, e2);
        GaveBackUnder(t1, g2, t2, wb, false, t3, trace);
        return;
      }
      TookMore(t1, c, g2, e2, t2, g3, d, trace);
      unlocks := g2 + g3;
    }

    /** ArchiveItem between its locks. `first` and `second` are the descendants it finds when it
        computes the scope and when it goes on to archive them, any lists; a query that fails finds
        none. `smooth` is a run in which no other step fails. */
    method ArchiveLocked(c: Ctx, item: Text, cascade: bool, first: seq<Text>, second: seq<Text>, smooth: bool)
      returns (ok: bool, archived: seq<Text>)
      requires Carries(trace, c) && Entry(shipments, c)
      modifies this
      ensures Carries(trace, c)
      ensures effects == old(effects) + archived && Attempts(trace) == Attempts(old(trace))
      ensures ok ==> archived != [] && archived[|archived| - 1] == item
      ensures !cascade ==> archived == if ok then [item] else []
      ensures !cascade && ok ==> !Refused(c, IdSet([item]))
      ensures old(pending) == [] ==> pending == []
      ensures Among(pending, old(pending))
      ensures !cascade ==> Only(old(trace), Reach(shipments, c, IdSet([item]), old(pending)), trace)
      ensures c == NO_LOCKS ==>
                var scope := Scope(item, Listed(cascade, first));
                && Bounded(shipments, item, scope, Listed(cascade, second), old(pending), archived, old(trace), trace)
                && (ok ==> HeldTogether(CanonicalLocks(shipments, scope), trace))
      ensures !cascade && old(pending) == [] ==> Called(shipments, c, item, smooth, ok, archived, old(trace), trace)
      ensures c == NO_LOCKS ==>
                Cascaded(shipments, Scope(item, Listed(cascade, first)), Listed(cascade, second), AllQuiet(old(pending)),
                         removable || old(pending) == [], smooth, old(trace), trace)
      ensures c == NO_LOCKS && smooth && (removable || old(pending) == []) ==>
                var scope, children := Scope(item, Listed(cascade, first)), Listed(cascade, second);
                && ok && archived == Archivable(ChildCtx(shipments, scope), children) + [item]
                && (old(pending) == [] ==> trace == old(trace) + LockedTrace(shipments, scope, children))
      decreases cascade, 1
    {
      hide Took, Carries, Owns, LocksOf, Attempts, Acquires, Releases, Covers, CanonicalLocks, Wanted, GaveBack, Refused, ScopeCtx,
           Scope, Cascaded, Called, Children, Exactly, LockedTrace, AllFit, Layered, ChildTraces, Archivable, Strict, Disciplined, Held,
           Only, Reach, ChildReach, Among, Bounded, HeldTogether;
      archived := [];
      Queued(effects, [], []);
      AloneInScope(item);
      ghost var found := pending;
      ghost var quiet, settled, t0 := AllQuiet(pending), removable || pending == [], trace;
      var d, unlocks;
      ghost var scope;
      ok, d, unlocks, scope := LockGovernance(c, item, cascade, first, smooth);
      if !ok {
        NothingArchived(shipments, c, d, item, scope, Listed(cascade, second), pending, found, t0, trace);
        if !cascade && old(pending) == [] {
          LockedOut(shipments, c, item, smooth, t0, trace);
        }
        if c == NO_LOCKS {
          NotCascaded(shipments, scope, Listed(cascade, second), quiet, settled, t0, trace);
        }
        return;
      }
      ghost var t1 := trace;
      var preflight := Try(smooth);
      ghost var children, left := Listed(preflight && cascade, second), pending;
      NoChildren(shipments, d, trace);
      OnlyNothing(trace, ChildReach(shipments, d, [], pending));
      AmongSelf(pending);
      if preflight && cascade {
        archived := ArchiveDescendants(d, second, smooth);
      }
      ghost var t2, fromChildren := trace, archived;
      ok := Try(smooth);
      ok := ok && preflight;
      Unlock(unlocks, c, d);
      AmongChain(pending, left, found);
      CallIsBounded(shipments, c, d, scope, children, Listed(cascade, second), left, found, t0, t1, t2, trace);
      if ok {
        Queued(old(effects), archived, [item]);
        effects, archived := effects + [item], archived + [item];
      }
      if c == NO_LOCKS {
        CarriesDisciplined(d, t2);
        ArchiveIsBounded(shipments, item, scope, Listed(cascade, second), found, fromChildren, archived, t0, t2, trace);
        LockedIn(shipments, scope, children, Listed(cascade, second), quiet, settled, smooth, t0, t1, t2, trace);
        if old(pending) == [] && smooth {
          LockedFully(shipments, scope, Listed(cascade, second), t0, t1, t2, trace);
        }
      }
      if !cascade && old(pending) == [] {
        LockedAlone(shipments, c, item, smooth, ok, archived, t0, t1, trace);
      }
    }

    /** ArchiveItem as far as locks and deferred side effects go. A nested call finds a queue in
        its context; a call without one owns the queue and runs it after its last release. */
    method ArchiveItem(c: Ctx, item: Text, cascade: bool, nested: bool, first: seq<Text>, second: seq<Text>, smooth: bool)
      returns (ok: bool, archived: seq<Text>)
      requires Carries(trace, c) && Entry(shipments, c) && (!nested ==> c == NO_LOCKS && effects == [])
      modifies this
      ensures Carries(trace, c)
      ensures nested ==> effects == old(effects) + archived && Attempts(trace) == Attempts(old(trace))
      ensures !nested ==> effects == [] && Attempts(trace) == Attempts(old(trace)) + archived
      ensures ok ==> archived != [] && archived[|archived| - 1] == item
      ensures !cascade ==> archived == if ok then [item] else []
      ensures old(pending) == [] ==> pending == []
      ensures Among(pending, old(pending))
      ensures nested && !cascade ==> Only(old(trace), Reach(shipments, c, IdSet([item]), old(pending)), trace)
      ensures !nested ==>
                var scope := Scope(item, Listed(cascade, first));
                && AllBounded(shipments, item, scope, Listed(cascade, second), old(pending), archived, old(trace), trace)
                && (ok ==> HeldTogether(CanonicalLocks(shipments, scope), trace))
      ensures nested && !cascade && old(pending) == [] ==> Called(shipments, c, item, smooth, ok, archived, old(trace), trace)
      ensures nested && !cascade && old(pending) == [] && c.mutations != {} && Fits(shipments, c, item) ==> trace == old(trace)
      ensures !cascade && c.mutations != {} && item != [] && item !in c.logs ==> !ok
      ensures nested && !cascade && old(pending) == [] && c.mutations != {} && smooth && Strict(old(trace)) ==>
                (Strict(trace) <==> Fits(shipments, c, item))
      ensures !nested ==>
                Cascaded(shipments, Scope(item, Listed(cascade, first)), Listed(cascade, second), AllQuiet(old(pending)),
                         removable || old(pending) == [], smooth, old(trace), trace)
      ensures !nested && smooth && (removable || old(pending) == []) ==> ok
      ensures !nested && smooth && old(pending) == [] ==>
                trace == old(trace) + CascadeTrace(shipments, links, item, Listed(cascade, first), Listed(cascade, second))
      decreases cascade, 2
    {
      NoLocksHeld();
      RefusedItem(c, item);
      hide Carries, Attempts, Covers, Cascaded, Called, LockedTrace, CascadeTrace, Archivable, Listed, EffectTraces, Strict,
           Disciplined, Held, IdSet, Scope, ChildCtx, Refused, Unlinked, Only, Reach, Among, Bounded, AllBounded, HeldTogether,
           EffectReach, CanonicalLocks;
      ok, archived := ArchiveLocked(c, item, cascade, first, second, smooth);
      if nested && !cascade && old(pending) == [] && c.mutations != {} {
        CalledOrder(shipments, c, item, smooth, ok, archived, old(trace), trace);
      }
      if !nested {
        assert [] + archived == archived;
        CarriesNothing(trace);
        ghost var t := trace;
        RunEffects(smooth);
        CarriesNothing(trace);
        EffectsAreBounded(shipments, item, Scope(item, Listed(cascade, first)), Listed(cascade, second), old(pending), archived, ok,
                          old(trace), t, trace);
        if smooth && old(pending) == [] {
          Flushed(shipments, links, item, Listed(cascade, first), Listed(cascade, second), archived, old(trace), t, trace);
        }
        EffectsKeepOrder(shipments, Scope(item, Listed(cascade, first)), Listed(cascade, second), AllQuiet(old(pending)),
                         removable || old(pending) == [], smooth, old(trace), t, trace);
      }
    }

    /** archiveDescendants: the index is queried again under the locks, so a descendant may be
        one the scope was not computed from. */
    method ArchiveDescendants(d: Ctx, second: seq<Text>, smooth: bool) returns (archived: seq<Text>)
      requires Carries(trace, d) && Entry(shipments, d) && d.inGlobal
      modifies this
      ensures Carries(trace, d)
      ensures effects == old(effects) + archived && Attempts(trace) == Attempts(old(trace))
      ensures old(pending) == [] ==> pending == []
      ensures Among(pending, old(pending)) && Only(old(trace), ChildReach(shipments, d, second, old(pending)), trace)
      ensures d.mutations != {} ==> forall id :: id in archived ==> id == [] || id in d.logs
      ensures old(pending) == [] || second == [] ==> Children(shipments, d, second, smooth, old(trace), trace)
      ensures smooth && (old(pending) == [] || second == []) ==> archived == Archivable(d, second)
      decreases true, 0
    {
      hide Carries, Attempts, Covers, Called, Children, Archivable, Only, Reach, ChildReach, Among;
      archived := [];
      Queued(effects, [], []);
      NoChildren(shipments, d, trace);
      OnlyNothing(trace, ChildReach(shipments, d, second, pending));
      AmongSelf(pending);
      assert second[..0] == [];
      for i := 0 to |second|
        invariant Carries(trace, d) && Attempts(trace) == Attempts(old(trace))
        invariant effects == old(effects) + archived
        invariant old(pending) == [] ==> pending == []
        invariant Among(pending, old(pending)) && Only(old(trace), ChildReach(shipments, d, second, old(pending)), trace)
        invariant d.mutations != {} ==> forall id :: id in archived ==> id == [] || id in d.logs
        invariant i == 0 || old(pending) == [] ==> Children(shipments, d, second[..i], smooth, old(trace), trace)
        invariant smooth && (i == 0 || old(pending) == []) ==> archived == Archivable(d, second[..i])
      {
        ghost var before, left := trace, pending;
        var ok, more := ArchiveItem(d, second[i], false, true, [], [], smooth);
        OneMoreReached(shipments, d, second, i, left, old(pending), old(trace), before, trace);
        AmongChain(pending, left, old(pending));
        if old(pending) == [] {
          OneMoreChild(shipments, d, second, i, smooth, ok, more, old(trace), before, trace);
        }
        Queued(old(effects), archived, more);
        archived := archived + more;
      }
      assert second[..|second|] == second;
    }

    /** archiveStashQueue.run: every queued effect is tried once, each under its own item's
        mutation lock; a lock that cannot be had skips the effect. */
    method RunEffects(smooth: bool)
      requires Disciplined(trace) && Held(trace) == {}
      modifies this`trace, this`effects
      ensures Disciplined(trace) && Held(trace) == {} && effects == []
      ensures Attempts(trace) == Attempts(old(trace)) + old(effects)
      ensures Strict(trace) <==> Strict(old(trace))
      ensures Unlinked(links, old(effects)) ==> (StashFirst(trace) <==> StashFirst(old(trace)))
      ensures smooth && StashFirst(trace) ==> Unlinked(links, old(effects))
      ensures smooth ==> trace == old(trace) + EffectTraces(old(effects), links)
      ensures Only(old(trace), EffectReach(old(effects)), trace)
    {
      var queued := effects;
      effects := [];
      var i := 0;
      ghost var start := trace;
      FlushStart(start, queued, links, smooth);
      hide *;
      while i < |queued|
        invariant i <= |queued| && effects == []
        invariant Flushing(start, queued, links, i, smooth, trace)
      {
        FlushFacts(start, queued, links, i, smooth, trace);
        ghost var before := trace;
        ArchiveLinked(queued[i], smooth);
        FlushNext(start, queued, links, i, smooth, before, trace);
        i := i + 1;
      }
      FlushEnd(start, queued, links, smooth, trace);
    }

    /** archiveLinkedStashIfStillArchived: under the item's mutation lock, and when the item is still
        what the archive left, every linked entry is archived under the stash lock; an entry whose
        lock cannot be had is skipped. */
    method ArchiveLinked(id: Text, smooth: bool)
      requires Disciplined(trace) && Held(trace) == {}
      modifies this`trace
      ensures Tried(old(trace), id, Linked(links, id), smooth, trace)
    {
      ghost var t0 := trace;
      EffectStart(trace, id, Linked(links, id));
      hide *;
      trace := trace + [Attempt(id)];
      var locked := TryLock(Mutation(id), smooth);
      if !locked {
        return;
      }
      ghost var start := trace;
      var current := Try(smooth);
      var n := if current then Linked(links, id) else 0;
      for i := 0 to n
        invariant Stashing(start, id, i, smooth, trace)
      {
        StashNext(start, id, i, smooth, trace);
        var got := TryLock(Stash, smooth);
        if got {
          trace := trace + [Release(Stash)];
        }
      }
      EffectEnd(t0, id, n, Linked(links, id), smooth, trace);
      trace := trace + [Release(Mutation(id))];
    }
  }

  /** The elements of a set of IDs, in an arbitrary order. */
  method Listing(ids: set<Text>) returns (list: seq<Text>)
    ensures IdSet(list) == ids - {[]}
  {
    list := [];
    var rest := ids;
    while rest != {}
      invariant rest <= ids && forall id :: id in list <==> id in ids - rest
      decreases |rest|
    {
      var id :| id in rest;
      list, rest := list + [id], rest - {id};
    }
  }

  /** A step without a lock; whether it fails is up to files, git, the index or hooks. */
  method Try(smooth: bool) returns (ok: bool)
    ensures smooth ==> ok
  {
    ok := *;
    ok := ok || smooth;
  }

  /** A top-level archive, whatever fails inside it: its lock trace, recoveries and stash effects
      included, keeps the discipline, gives back all it takes, and tries the stash effect of every
      item it archived exactly once. The strict order is kept without a cascade when no recovery has
      to write an item log, and in a cascade when in addition every child is in order and recovered
      journals can be removed; without a failing step, exactly then. */
  method TopLevelArchive(world: World, item: Text, cascade: bool, first: seq<Text>, second: seq<Text>, smooth: bool)
    returns (ok: bool, archived: seq<Text>, trace: seq<Event>)
    ensures Wellbehaved(Thread(trace, 0))
    ensures Attempts(trace) == archived
    ensures ok ==> archived != [] && archived[|archived| - 1] == item
    ensures ok ==> TakesAllNeeded(world.shipments, item, Listed(cascade, first), trace)
    ensures item != [] ==>
              TakesOnlyNeeded(world.shipments, item, Listed(cascade, first), Listed(cascade, second), world.journals, trace)
    ensures !cascade && AllQuiet(world.journals) ==> Strict(trace)
    ensures (&& (world.removable || world.journals == []) && AllQuiet(world.journals)
             && AllInOrder(world.shipments, Scope(item, first), second)) ==> Strict(trace)
    ensures smooth && (world.removable || world.journals == []) ==>
              (Strict(trace) <==> AllQuiet(world.journals)
                                  && (cascade ==> AllInOrder(world.shipments, Scope(item, first), second)))
    ensures smooth && (world.removable || world.journals == []) ==> ok
    ensures smooth && world.journals == [] ==>
              trace == CascadeTrace(world.shipments, world.links, item, Listed(cascade, first), Listed(cascade, second))
  {
    var thread := new ArchiveThread(world);
    CarriesNothing([]);
    assert Strict([]) && Entry(world.shipments, NO_LOCKS);
    hide *;
    ok, archived := thread.ArchiveItem(NO_LOCKS, item, cascade, false, first, second, smooth);
    trace := thread.trace;
    Started(trace);
    TopLevelLocks(world.shipments, item, Listed(cascade, first), Listed(cascade, second), world.journals, archived, ok, trace);
    TopLevelOrder(world.shipments, item, cascade, first, second, AllQuiet(world.journals), world.removable || world.journals == [],
                  smooth, trace);
    if smooth && world.journals == [] {
      Whole(trace, CascadeTrace(world.shipments, world.links, item, Listed(cascade, first), Listed(cascade, second)));
    }
  }

  lemma Whole(a: seq<Event>, b: seq<Event>)
    requires a == [] + b
    ensures a == b
  {}

  lemma Started(trace: seq<Event>)
    requires Carries(trace, NO_LOCKS)
    ensures Wellbehaved(Thread(trace, 0))
  {
    CarriesNothing(trace);
  }

  /** What the order of a top-level archive means for its caller. */
  lemma TopLevelOrder(shipments: Shipments, item: Text, cascade: bool, first: seq<Text>, second: seq<Text>,
      quiet: bool, settled: bool, smooth: bool, trace: seq<Event>)
    requires Cascaded(shipments, Scope(item, Listed(cascade, first)), Listed(cascade, second), quiet, settled, smooth, [], trace)
    ensures !cascade && quiet ==> Strict(trace)
    ensures settled && quiet && AllInOrder(shipments, Scope(item, first), second) ==> Strict(trace)
    ensures smooth && settled ==>
              (Strict(trace) <==> quiet && (cascade ==> AllInOrder(shipments, Scope(item, first), second)))
  {
    assert Strict([]);
    hide InOrder, Scope;
  }

  datatype Request = Request(world: World, item: Text, cascade: bool, first: seq<Text>, second: seq<Text>)

  /** Any number of archives, each with its own cascade and its own failures, started together:
      every interleaving of their lock steps can go on until all have finished. */
  method ArchiveConcurrently(requests: seq<Request>) returns (ts: seq<Thread>)
    ensures |ts| == |requests| && NeverDeadlocks(ts)
  {
    ts := [];
    for i := 0 to |requests|
      invariant |ts| == i && Initial(ts)
    {
      var q := requests[i];
      var _, _, trace := TopLevelArchive(q.world, q.item, q.cascade, q.first, q.second, false);
      ts := ts + [Thread(trace, 0)];
    }
    StartedThreadsNeverDeadlock(ts);
  }
}
