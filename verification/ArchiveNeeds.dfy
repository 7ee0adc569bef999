/** Which locks an archive needs, in terms of the shipments alone, and the locks a stretch of a trace
    can have acquired. */
module ArchiveNeeds {
  import opened ArchiveTraces
  import opened Bytes
  import opened LockOrder
  import opened SortedSets

  // ---- the locks an archive needs ----

  /** The item, or a descendant found for it. */
  predicate InScope(item: Text, descendants: seq<Text>, id: Text) {
    id != [] && (id == item || id in descendants)
  }

  /** The shipment s is archived itself, or lists something that is. */
  ghost predicate Governs(shipments: Shipments, item: Text, descendants: seq<Text>, s: Text) {
    && s in shipments && s != []
    && (InScope(item, descendants, s) || exists m :: m in shipments[s] && InScope(item, descendants, m))
  }

  /** The membership lock of every governing shipment; the item log of everything in the scope; and
      the mutation locks of the scope, the governing shipments and all their members. */
  ghost predicate Needs(shipments: Shipments, item: Text, descendants: seq<Text>, l: Lock) {
    match l
    case Membership(s) => Governs(shipments, item, descendants, s)
    case ItemLog(id) => InScope(item, descendants, id)
    case Mutation(x) =>
      || InScope(item, descendants, x)
      || Governs(shipments, item, descendants, x)
      || (x != [] && exists s :: s in shipments && x in shipments[s] && Governs(shipments, item, descendants, s))
    case Global => false
    case Stash => false
  }

  lemma ScopeMeaning(item: Text, descendants: seq<Text>, id: Text)
    ensures id in Scope(item, descendants) <==> InScope(item, descendants, id)
  {
    assert id in [item] + descendants <==> id == item || id in descendants;
  }

  lemma RelatedMeaning(shipments: Shipments, item: Text, descendants: seq<Text>, s: Text)
    ensures s in Related(shipments, Scope(item, descendants)) <==> Governs(shipments, item, descendants, s)
  {
    var scope := Scope(item, descendants);
    forall id ensures id in scope <==> InScope(item, descendants, id) {
      ScopeMeaning(item, descendants, id);
    }
    hide Scope, InScope;
    if s in shipments {
      if m :| m in shipments[s] && m in scope {
        assert m in shipments[s] * scope;
      }
    }
  }

  lemma GovernedMeaning(shipments: Shipments, item: Text, descendants: seq<Text>, x: Text)
    ensures x in Governed(shipments, Scope(item, descendants)) <==> Needs(shipments, item, descendants, Mutation(x))
  {
    ScopeMeaning(item, descendants, x);
    forall s ensures s in Related(shipments, Scope(item, descendants)) <==> Governs(shipments, item, descendants, s) {
      RelatedMeaning(shipments, item, descendants, s);
    }
    hide Scope, InScope, Related, Governs;
  }

  lemma InCanonical(shipments: Shipments, scope: set<Text>, l: Lock)
    ensures l in CanonicalLocks(shipments, scope) <==>
              match l
              case Global => true
              case Membership(s) => s in Related(shipments, scope)
              case ItemLog(id) => id in scope
              case Mutation(x) => x in Governed(shipments, scope)
              case Stash => false
  {
    hide Missing, Related, Governed;
    InMissing(A, SortedKeys(Related(shipments, scope)), l);
    InMissing(C, SortedKeys(scope), l);
    InMissing(B, SortedKeys(Governed(shipments, scope)), l);
  }

  lemma InMissing(class_: Class, ids: seq<Text>, l: Lock)
    ensures l in Missing(class_, ids, {}) <==> Named(l) && l == LockOf(class_, l.id) && l.id in ids
  {
    MissingMembers(class_, ids, {});
    hide Missing;
  }

  /** The canonical locks are the global and what the archive needs. */
  lemma CanonicalMeaning(shipments: Shipments, item: Text, descendants: seq<Text>, l: Lock)
    ensures l in CanonicalLocks(shipments, Scope(item, descendants)) <==>
              l.Global? || Needs(shipments, item, descendants, l)
  {
    InCanonical(shipments, Scope(item, descendants), l);
    hide CanonicalLocks, Scope, Related, Governed, Governs, InScope;
    if Named(l) {
      ScopeMeaning(item, descendants, l.id);
      RelatedMeaning(shipments, item, descendants, l.id);
      GovernedMeaning(shipments, item, descendants, l.id);
    }
  }

  // ---- the locks a recovery can take ----

  ghost predicate JournalNeeds(j: Journal, l: Lock) {
    && j.Intent?
    && match l
       case Membership(s) => s == j.shipment
       case Mutation(id) => id == j.shipment || (id != [] && id in j.ids)
       case ItemLog(id) => id in j.logs
       case Global => false
       case Stash => false
  }

  // ---- what was acquired ----

  /** The trace has grown, and acquired only these locks. */
  ghost predicate Only(before: seq<Event>, locks: set<Lock>, after: seq<Event>) {
    before <= after && forall l :: Acquire(l) in after ==> Acquire(l) in before || l in locks
  }

  ghost function Elements(locks: seq<Lock>): set<Lock> {
    set l | l in locks
  }

  ghost function ClassLocks(class_: Class, ids: set<Text>): set<Lock> {
    set id | id in ids :: LockOf(class_, id)
  }

  lemma OnlyNothing(trace: seq<Event>, locks: set<Lock>)
    ensures Only(trace, locks, trace)
  {}

  lemma OnlyChain(a: seq<Event>, locks: set<Lock>, b: seq<Event>, more: set<Lock>, c: seq<Event>, all: set<Lock>)
    requires Only(a, locks, b) && Only(b, more, c) && locks <= all && more <= all
    ensures Only(a, all, c)
  {}

  lemma OnlyBoth(a: seq<Event>, locks: set<Lock>, b: seq<Event>, more: set<Lock>, c: seq<Event>)
    requires Only(a, locks, b) && Only(b, more, c)
    ensures Only(a, locks + more, c)
  {}

  lemma OnlyThen(a: seq<Event>, locks: set<Lock>, b: seq<Event>, c: seq<Event>)
    requires Only(a, locks, b) && Only(b, {}, c)
    ensures Only(a, locks, c)
  {}

  lemma OnlyEvent(before: seq<Event>, locks: set<Lock>, trace: seq<Event>, e: Event, all: set<Lock>)
    requires Only(before, locks, trace) && locks <= all && (e.Acquire? ==> e.l in all)
    ensures Only(before, all, trace + [e])
  {}

  lemma OnlyReleases(trace: seq<Event>, locks: seq<Lock>)
    ensures Only(trace, {}, trace + Releases(locks))
  {
    ReleasesOnly(locks);
    hide Releases;
  }

  lemma {:induction false} ReleasesOnly(locks: seq<Lock>)
    ensures forall l :: Acquire(l) !in Releases(locks)
  {
    if locks != [] {
      ReleasesOnly(locks[..|locks| - 1]);
    }
  }

  lemma OnlyAcquires(trace: seq<Event>, locks: seq<Lock>)
    ensures Only(trace, Elements(locks), trace + Acquires(locks))
  {
    forall l | Acquire(l) in Acquires(locks) ensures l in locks {
      var i :| 0 <= i < |locks| && Acquires(locks)[i] == Acquire(l);
    }
  }

  /** Locks that were wanted and given back. */
  lemma OnlyGaveBack(before: seq<Event>, wanted: seq<Lock>, complete: bool, after: seq<Event>)
    requires GaveBack(before, wanted, complete, after)
    ensures Only(before, Elements(wanted), after)
  {
    var k: nat :| k <= |wanted| && after == before + CallTrace(wanted, k);
    var some := wanted[..k];
    OnlyAcquires(before, some);
    OnlyReleases(before + Acquires(some), some);
    Halves(before, wanted, k, after);
    hide Acquires, Releases, GaveBack, Only;
    OnlyChain(before, Elements(some), before + Acquires(some), {}, after, Elements(wanted));
  }

  lemma OnlyMissing(class_: Class, ids: set<Text>, held: set<Text>)
    ensures Elements(Missing(class_, SortedKeys(ids), held)) <= ClassLocks(class_, ids - held)
  {
    MissingMembers(class_, SortedKeys(ids), held);
    hide Missing;
  }

  // ---- what is held ----

  lemma {:induction false} HeldWasAcquired(trace: seq<Event>)
    ensures forall l :: l in Held(trace) ==> Acquire(l) in trace
  {
    if trace != [] {
      HeldWasAcquired(trace[..|trace| - 1]);
      assert trace == trace[..|trace| - 1] + [trace[|trace| - 1]];
    }
  }

  /** At one point of the trace all these locks are held. */
  ghost predicate HeldTogether(locks: seq<Lock>, trace: seq<Event>) {
    exists n: nat :: n <= |trace| && forall l :: l in locks ==> l in Held(trace[..n])
  }

  lemma StillHeldTogether(locks: seq<Lock>, before: seq<Event>, after: seq<Event>)
    requires before <= after && (HeldTogether(locks, before) || forall l :: l in locks ==> l in Held(before))
    ensures HeldTogether(locks, after)
  {
    if forall l :: l in locks ==> l in Held(before) {
      assert after[..|before|] == before;
    } else {
      var n: nat :| n <= |before| && forall l :: l in locks ==> l in Held(before[..n]);
      assert after[..n] == before[..n];
    }
  }

  /** The context of an archive holds its canonical locks. */
  lemma HoldsCanonical(shipments: Shipments, scope: set<Text>)
    ensures forall l :: l in CanonicalLocks(shipments, scope) ==> l in LocksOf(ChildCtx(shipments, scope))
  {
    hide CanonicalLocks, Related, Governed;
    forall l | l in CanonicalLocks(shipments, scope) ensures l in LocksOf(ChildCtx(shipments, scope)) {
      InCanonical(shipments, scope, l);
    }
  }

  // ---- bounds on what the parts of an archive acquire ----

  ghost function JournalLocksOf(journals: seq<Journal>): set<Lock> {
    set j, l | j in journals && l in JournalElements(j) :: l
  }

  ghost function JournalElements(j: Journal): set<Lock> {
    match j
    case Committed => {}
    case Intent(s, ids, logs) =>
      {Membership(s)} + ClassLocks(B, IdSet([s] + ids)) + LogLocks(logs)
  }

  lemma JournalMeaning(j: Journal, l: Lock)
    ensures l in JournalElements(j) <==> JournalNeeds(j, l)
  {
    if j.Intent? && l.Mutation? {
      assert l.id in [j.shipment] + j.ids <==> l.id == j.shipment || l.id in j.ids;
      assert l in ClassLocks(B, IdSet([j.shipment] + j.ids)) <==> l.id in IdSet([j.shipment] + j.ids);
    }
  }

  ghost function LogLocks(logs: seq<Id>): set<Lock> {
    set id | id in logs :: ItemLog(id)
  }

  /** The locks taken before the artifacts are looked at. */
  lemma JournalReaches(c: Ctx, j: Journal)
    ensures Elements(JournalLocks(c, j)) <= JournalElements(j)
  {
    if Takes(c, j) {
      MissingMembers(A, SortedKeys(IdSet([j.shipment])), c.memberships);
      MissingMembers(B, SortedKeys(IdSet([j.shipment] + j.ids)), c.mutations);
      hide Missing;
    }
  }

  ghost predicate Among(left: seq<Journal>, found: seq<Journal>) {
    forall j :: j in left ==> j in found
  }

  lemma AmongChain(a: seq<Journal>, b: seq<Journal>, c: seq<Journal>)
    requires Among(a, b) && Among(b, c)
    ensures Among(a, c)
  {}

  lemma JournalsShrink(left: seq<Journal>, found: seq<Journal>)
    requires Among(left, found)
    ensures JournalLocksOf(left) <= JournalLocksOf(found)
  {}

  /** What one call can acquire: the global, what the recoveries take, and what it wants. */
  ghost function Reach(shipments: Shipments, c: Ctx, scope: set<Text>, journals: seq<Journal>): set<Lock> {
    {Global} + JournalLocksOf(journals) + Elements(Wanted(shipments, c, scope))
  }

  lemma OnlyGlobal(shipments: Shipments, c: Ctx, scope: set<Text>, found: seq<Journal>, t0: seq<Event>, t1: seq<Event>)
    requires Only(t0, {Global} + JournalLocksOf(found), t1)
    ensures Only(t0, Reach(shipments, c, scope, found), t1)
  {}

  /** A governance step stays within reach: after the global and what was recovered on the way,
      `more` is what it went on to take. */
  lemma StaysInReach(shipments: Shipments, c: Ctx, scope: set<Text>, left: seq<Journal>, found: seq<Journal>,
      t0: seq<Event>, t1: seq<Event>, t2: seq<Event>)
    requires (c.inGlobal || c == NO_LOCKS) && Among(left, found)
    requires Only(t0, {Global} + JournalLocksOf(found), t1)
    requires var e := c.(inGlobal := true); Only(t1, JournalLocksOf(left) + Elements(Wanted(shipments, e, scope)), t2)
    ensures Only(t0, Reach(shipments, c, scope, found), t2)
  {
    WantedUnder(shipments, c, scope);
    JournalsShrink(left, found);
    var all := Reach(shipments, c, scope, found);
    hide Only, JournalLocksOf, Wanted;
    var more := JournalLocksOf(left) + Elements(Wanted(shipments, c.(inGlobal := true), scope));
    OnlyChain(t0, {Global} + JournalLocksOf(found), t1, more, t2, all);
  }

  /** What the calls for these children can acquire. */
  ghost function ChildReach(shipments: Shipments, d: Ctx, ids: seq<Text>, journals: seq<Journal>): set<Lock> {
    {Global} + JournalLocksOf(journals) + (set id, l | id in ids && l in Wanted(shipments, d, IdSet([id])) :: l)
  }

  lemma ChildReaches(shipments: Shipments, d: Ctx, ids: seq<Text>, i: nat, left: seq<Journal>, found: seq<Journal>)
    requires i < |ids| && Among(left, found)
    ensures Reach(shipments, d, IdSet([ids[i]]), left) <= ChildReach(shipments, d, ids, found)
  {
    JournalsShrink(left, found);
    hide Wanted, JournalLocksOf, IdSet;
  }

  /** What the effects of these items can acquire. */
  ghost function EffectReach(ids: seq<Text>): set<Lock> {
    {Stash} + (set id | id in ids :: Mutation(id))
  }

  /** A top-level archive up to its effects: what it acquired, and whom it archived. */
  ghost predicate Bounded(shipments: Shipments, item: Text, scope: set<Text>, children: seq<Text>, journals: seq<Journal>,
      archived: seq<Text>, before: seq<Event>, after: seq<Event>)
  {
    && Only(before, Reach(shipments, NO_LOCKS, scope, journals) + ChildReach(shipments, ChildCtx(shipments, scope), children, journals),
            after)
    && (scope != {} ==> forall id :: id in archived ==> id == item || id == [] || id in scope)
  }

  /** No children, or those archived under the locks of d; the call then gives its locks back. */
  lemma CallIsBounded(shipments: Shipments, c: Ctx, d: Ctx, scope: set<Text>, children: seq<Text>, asked: seq<Text>,
      left: seq<Journal>, found: seq<Journal>, t0: seq<Event>, t1: seq<Event>, t2: seq<Event>, t3: seq<Event>)
    requires Among(left, found) && (children == asked || children == [])
    requires Only(t0, Reach(shipments, c, scope, found), t1) && Only(t1, ChildReach(shipments, d, children, left), t2)
    requires Only(t2, {}, t3)
    ensures Only(t0, Reach(shipments, c, scope, found) + ChildReach(shipments, d, asked, found), t3)
    ensures children == [] ==> Only(t0, Reach(shipments, c, scope, found), t3)
  {
    JournalsShrink(left, found);
    assert ChildReach(shipments, d, children, left) <= ChildReach(shipments, d, asked, found);
    assert children == [] ==> ChildReach(shipments, d, children, left) <= Reach(shipments, c, scope, found);
    hide Reach, ChildReach, Only;
    OnlyThen(t1, ChildReach(shipments, d, children, left), t2, t3);
    OnlyBoth(t0, Reach(shipments, c, scope, found), t1, ChildReach(shipments, d, children, left), t3);
    OnlyMore(t0, Reach(shipments, c, scope, found) + ChildReach(shipments, d, children, left), t3,
             Reach(shipments, c, scope, found) + ChildReach(shipments, d, asked, found));
    if children == [] {
      OnlyMore(t0, Reach(shipments, c, scope, found) + ChildReach(shipments, d, children, left), t3, Reach(shipments, c, scope, found));
    }
  }

  lemma OnlyMore(a: seq<Event>, locks: set<Lock>, b: seq<Event>, all: set<Lock>)
    requires Only(a, locks, b) && locks <= all
    ensures Only(a, all, b)
  {}

  /** The context of a top-level archive has mutation locks exactly when its scope is not empty. */
  lemma MutationsOfScope(shipments: Shipments, scope: set<Text>)
    ensures var d := ChildCtx(shipments, scope);
            (d.mutations == {} <==> scope == {}) && d.logs == scope
  {
    FitsInOrder(shipments, scope, []);
    hide Related, Governed;
  }

  /** What a child's call can take under the locks of its archive: the membership locks of shipments
      that govern it. */
  lemma ChildTakesMemberships(shipments: Shipments, item: Text, first: seq<Text>, id: Text, l: Lock)
    requires item != []
    requires l in Wanted(shipments, ChildCtx(shipments, Scope(item, first)), IdSet([id]))
    ensures l.Membership? && Governs(shipments, id, [], l.id)
    ensures !InScope(item, first, id) && !Governs(shipments, item, first, l.id)
  {
    var scope := Scope(item, first);
    var d := ChildCtx(shipments, scope);
    ScopeMeaning(item, first, item);
    ScopeMeaning(item, first, id);
    FitsInOrder(shipments, scope, id);
    NewlyCovered(shipments, ONLY_GLOBAL, scope);
    if IdSet([id]) <= d.logs {
      CoveredWantsNothing(shipments, d, IdSet([id]));
    } else {
      MissingMembers(A, SortedKeys(Related(shipments, IdSet([id]))), d.memberships);
      RelatedMeaning(shipments, id, [], l.id);
      RelatedMeaning(shipments, item, first, l.id);
      AloneInScope(id);
    }
  }

  // ---- a whole top-level archive ----

  /** The membership lock of a shipment that governs one of the children and nothing in the scope:
      what a nested call can take before it is refused. */
  ghost predicate ChildNeeds(shipments: Shipments, item: Text, first: seq<Text>, second: seq<Text>, l: Lock) {
    && l.Membership? && !Governs(shipments, item, first, l.id)
    && exists id :: id in second && !InScope(item, first, id) && Governs(shipments, id, [], l.id)
  }

  /** Every named lock that is acquired is one the archive needs, one a recovery takes for a journal,
      or one taken for a child outside the scope. */
  ghost predicate AcquiredFor(shipments: Shipments, item: Text, first: seq<Text>, second: seq<Text>, journals: seq<Journal>, l: Lock) {
    || Needs(shipments, item, first, l)
    || (exists j :: j in journals && JournalNeeds(j, l))
    || ChildNeeds(shipments, item, first, second, l)
  }

  lemma AcquiredIsNeeded(shipments: Shipments, item: Text, first: seq<Text>, second: seq<Text>, journals: seq<Journal>,
      archived: seq<Text>, trace: seq<Event>, l: Lock)
    requires item != [] && Acquire(l) in trace && Named(l) && l.id != []
    requires var scope := Scope(item, first);
      && (forall id :: id in archived ==> id == item || id == [] || id in scope)
      && Only([], Reach(shipments, NO_LOCKS, scope, journals) + ChildReach(shipments, ChildCtx(shipments, scope), second, journals)
                  + EffectReach(archived), trace)
    ensures AcquiredFor(shipments, item, first, second, journals, l)
  {
    var scope := Scope(item, first);
    var d := ChildCtx(shipments, scope);
    TopLevelAscends(shipments, scope);
    CanonicalMeaning(shipments, item, first, l);
    hide Wanted, CanonicalLocks, Needs, JournalNeeds, ChildNeeds, ChildCtx, Scope, IdSet, JournalElements, Governs, InScope;
    if l in EffectReach(archived) {
      ScopeMeaning(item, first, l.id);
      OwnMutation(shipments, item, first, l.id);
    } else if l in JournalLocksOf(journals) {
      var j :| j in journals && l in JournalElements(j);
      JournalMeaning(j, l);
    } else if l !in Elements(Wanted(shipments, NO_LOCKS, scope)) {
      var id :| id in second && l in Wanted(shipments, d, IdSet([id]));
      ChildTakesMemberships(shipments, item, first, id, l);
      ChildLock(shipments, item, first, second, id, l);
    }
  }

  lemma OwnMutation(shipments: Shipments, item: Text, first: seq<Text>, id: Text)
    requires id != [] && (id == item || InScope(item, first, id))
    ensures Needs(shipments, item, first, Mutation(id))
  {}

  lemma ChildLock(shipments: Shipments, item: Text, first: seq<Text>, second: seq<Text>, id: Text, l: Lock)
    requires l.Membership? && !Governs(shipments, item, first, l.id)
    requires id in second && !InScope(item, first, id) && Governs(shipments, id, [], l.id)
    ensures ChildNeeds(shipments, item, first, second, l)
  {}

  /** Every lock the archive needs is acquired, and at one point all of them are held. */
  ghost predicate TakesAllNeeded(shipments: Shipments, item: Text, first: seq<Text>, trace: seq<Event>) {
    && (forall l :: Needs(shipments, item, first, l) ==> Acquire(l) in trace)
    && exists n: nat :: n <= |trace| && forall l :: Needs(shipments, item, first, l) ==> l in Held(trace[..n])
  }

  /** Every named lock that is acquired has a reason to be. */
  ghost predicate TakesOnlyNeeded(shipments: Shipments, item: Text, first: seq<Text>, second: seq<Text>, journals: seq<Journal>,
      trace: seq<Event>)
  {
    forall l :: Acquire(l) in trace && Named(l) && l.id != [] ==> AcquiredFor(shipments, item, first, second, journals, l)
  }

  lemma NeededWereHeld(shipments: Shipments, item: Text, first: seq<Text>, trace: seq<Event>)
    requires HeldTogether(CanonicalLocks(shipments, Scope(item, first)), trace)
    ensures TakesAllNeeded(shipments, item, first, trace)
  {
    var locks := CanonicalLocks(shipments, Scope(item, first));
    var n: nat :| n <= |trace| && forall l :: l in locks ==> l in Held(trace[..n]);
    HeldWasAcquired(trace[..n]);
    forall l | Needs(shipments, item, first, l) ensures l in Held(trace[..n]) && Acquire(l) in trace {
      CanonicalMeaning(shipments, item, first, l);
      assert Acquire(l) in trace[..n];
    }
  }

  /** The same with its effects. */
  ghost predicate AllBounded(shipments: Shipments, item: Text, scope: set<Text>, children: seq<Text>, journals: seq<Journal>,
      archived: seq<Text>, before: seq<Event>, after: seq<Event>)
  {
    && Only(before, Reach(shipments, NO_LOCKS, scope, journals) + ChildReach(shipments, ChildCtx(shipments, scope), children, journals)
                    + EffectReach(archived), after)
    && (scope != {} ==> forall id :: id in archived ==> id == item || id == [] || id in scope)
  }

  lemma EffectsAreBounded(shipments: Shipments, item: Text, scope: set<Text>, children: seq<Text>, journals: seq<Journal>,
      archived: seq<Text>, ok: bool, before: seq<Event>, t: seq<Event>, after: seq<Event>)
    requires Bounded(shipments, item, scope, children, journals, archived, before, t) && Only(t, EffectReach(archived), after)
    requires ok ==> HeldTogether(CanonicalLocks(shipments, scope), t)
    ensures AllBounded(shipments, item, scope, children, journals, archived, before, after)
    ensures ok ==> HeldTogether(CanonicalLocks(shipments, scope), after)
  {
    hide Reach, ChildReach, EffectReach, CanonicalLocks, ChildCtx;
    if ok {
      assert t <= after;
      hide HeldTogether;
      StillHeldTogether(CanonicalLocks(shipments, scope), t, after);
    }
  }

  lemma OneMoreReached(shipments: Shipments, d: Ctx, ids: seq<Text>, i: nat, left: seq<Journal>, found: seq<Journal>,
      start: seq<Event>, before: seq<Event>, after: seq<Event>)
    requires i < |ids| && Among(left, found) && Only(start, ChildReach(shipments, d, ids, found), before)
    requires Only(before, Reach(shipments, d, IdSet([ids[i]]), left), after)
    ensures Only(start, ChildReach(shipments, d, ids, found), after)
  {
    ChildReaches(shipments, d, ids, i, left, found);
    hide Reach, ChildReach, Only, Among, IdSet;
    OnlyChain(start, ChildReach(shipments, d, ids, found), before, Reach(shipments, d, IdSet([ids[i]]), left), after,
              ChildReach(shipments, d, ids, found));
  }

  lemma AmongSelf(journals: seq<Journal>)
    ensures Among(journals, journals)
  {}

  /** The locks could not be had. */
  lemma NothingArchived(shipments: Shipments, c: Ctx, d: Ctx, item: Text, scope: set<Text>, children: seq<Text>,
      left: seq<Journal>, found: seq<Journal>, before: seq<Event>, after: seq<Event>)
    requires Only(before, Reach(shipments, c, scope, found), after)
    ensures c == NO_LOCKS ==> Bounded(shipments, item, scope, children, found, [], before, after)
  {
    hide Reach, ChildReach;
  }

  lemma ArchiveIsBounded(shipments: Shipments, item: Text, scope: set<Text>, children: seq<Text>, journals: seq<Journal>,
      fromChildren: seq<Text>, archived: seq<Text>, t0: seq<Event>, t2: seq<Event>, t3: seq<Event>)
    requires var d := ChildCtx(shipments, scope);
      && Only(t0, Reach(shipments, NO_LOCKS, scope, journals) + ChildReach(shipments, d, children, journals), t3)
      && (d.mutations != {} ==> forall id :: id in fromChildren ==> id == [] || id in d.logs)
      && (archived == fromChildren || archived == fromChildren + [item])
      && Held(t2) == LocksOf(d) && Only(t2, {}, t3)
    ensures Bounded(shipments, item, scope, children, journals, archived, t0, t3)
    ensures HeldTogether(CanonicalLocks(shipments, scope), t3)
  {
    MutationsOfScope(shipments, scope);
    HoldsCanonical(shipments, scope);
    hide Reach, ChildReach, ChildCtx, CanonicalLocks, LocksOf, Held;
    assert t2 <= t3;
    hide HeldTogether;
    StillHeldTogether(CanonicalLocks(shipments, scope), t2, t3);
  }

  lemma TopLevelLocks(shipments: Shipments, item: Text, first: seq<Text>, second: seq<Text>, journals: seq<Journal>,
      archived: seq<Text>, ok: bool, trace: seq<Event>)
    requires AllBounded(shipments, item, Scope(item, first), second, journals, archived, [], trace)
    requires ok ==> HeldTogether(CanonicalLocks(shipments, Scope(item, first)), trace)
    ensures ok ==> TakesAllNeeded(shipments, item, first, trace)
    ensures item != [] ==> TakesOnlyNeeded(shipments, item, first, second, journals, trace)
  {
    hide Reach, ChildReach, EffectReach, HeldTogether, AcquiredFor, TakesAllNeeded;
    if ok {
      NeededWereHeld(shipments, item, first, trace);
    }
    if item != [] {
      ScopeMeaning(item, first, item);
      forall l | Acquire(l) in trace && Named(l) && l.id != [] ensures AcquiredFor(shipments, item, first, second, journals, l) {
        AcquiredIsNeeded(shipments, item, first, second, journals, archived, trace, l);
      }
    }
  }
}
