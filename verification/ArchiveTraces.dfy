/** The locks an archive needs, the lock trace one call of it leaves, and which of these traces keep
    the documented order. */
module ArchiveTraces {
  import opened Bytes
  import opened LockOrder
  import opened SortedSets

  /** Canonical shipments and their normalized members. */
  type Shipments = map<Text, set<Text>>

  /** uniqueNonEmptyStrings, as a set. */
  function IdSet(ids: seq<Text>): set<Text> {
    set id | id in ids && id != []
  }

  // ---- the locks a context carries ----

  datatype Class = A | C | B

  function LockOf(class_: Class, id: Text): Lock {
    match class_ case A => Membership(id) case C => ItemLog(id) case B => Mutation(id)
  }

  /** The held locks recorded in a context.Context. */
  datatype Ctx = Ctx(inGlobal: bool, memberships: set<Text>, logs: set<Text>, mutations: set<Text>)

  const NO_LOCKS := Ctx(false, {}, {}, {})
  const ONLY_GLOBAL := Ctx(true, {}, {}, {})

  ghost function LocksOf(c: Ctx): set<Lock> {
    (if c.inGlobal then {Global} else {})
    + (set id | id in c.memberships :: Membership(id))
    + (set id | id in c.logs :: ItemLog(id))
    + (set id | id in c.mutations :: Mutation(id))
  }

  /** The locks of one class for the ids not already held, in order. */
  function Missing(class_: Class, ids: seq<Text>, held: set<Text>): seq<Lock> {
    if ids == [] then []
    else
      var id := ids[|ids| - 1];
      Missing(class_, ids[..|ids| - 1], held) + if id in held then [] else [LockOf(class_, id)]
  }

  lemma {:induction false} MissingMembers(class_: Class, ids: seq<Text>, held: set<Text>)
    ensures forall l :: l in Missing(class_, ids, held) <==>
              exists id :: id in ids && id !in held && l == LockOf(class_, id)
  {
    if ids != [] {
      MissingMembers(class_, ids[..|ids| - 1], held);
      assert ids == ids[..|ids| - 1] + [ids[|ids| - 1]];
    }
  }

  lemma {:induction false} NothingMissing(class_: Class, ids: seq<Text>, held: set<Text>)
    requires forall id :: id in ids ==> id in held
    ensures Missing(class_, ids, held) == []
  {
    if ids != [] {
      NothingMissing(class_, ids[..|ids| - 1], held);
    }
  }

  function Acquires(locks: seq<Lock>): seq<Event> {
    seq(|locks|, i requires 0 <= i < |locks| => Acquire(locks[i]))
  }

  /** Releases in the reverse order of acquisition. */
  function Releases(locks: seq<Lock>): seq<Event> {
    if locks == [] then [] else [Release(locks[|locks| - 1])] + Releases(locks[..|locks| - 1])
  }

  /** The unlock closures `locks` are exactly what is held beyond `base`. */
  ghost predicate Owns(locks: seq<Lock>, base: set<Lock>, held: set<Lock>) {
    && (forall i, j :: 0 <= i < j < |locks| ==> locks[i] != locks[j])
    && (forall l :: l in locks ==> l !in base)
    && (forall l :: l in held <==> l in base || l in locks)
    && (forall i :: 0 <= i < |locks| && locks[i].Global? ==> i == 0 && base == {})
  }

  lemma Extend(trace: seq<Event>, e: Event)
    requires Disciplined(trace) && May(Held(trace), e)
    ensures Disciplined(trace + [e]) && Held(trace + [e]) == Apply(Held(trace), e)
  {
    assert (trace + [e])[..|trace|] == trace;
  }

  lemma OwnsChain(locks: seq<Lock>, more: seq<Lock>, base: set<Lock>, mid: set<Lock>, held: set<Lock>)
    requires Owns(locks, base, mid) && Owns(more, mid, held)
    requires forall l :: l in more ==> !l.Global?
    ensures Owns(locks + more, base, held)
  {
    var all := locks + more;
    forall i, j | 0 <= i < j < |all| ensures all[i] != all[j] {
      assert i < |locks| ==> locks[i] in locks;
      assert j >= |locks| ==> more[j - |locks|] in more;
    }
  }

  // ---- which locks an archive needs ----

  /** What an archive is about: the item and the descendants found for it. */
  function Scope(item: Text, descendants: seq<Text>): set<Text> {
    IdSet([item] + descendants)
  }

  lemma AloneInScope(item: Text)
    ensures Scope(item, []) == IdSet([item])
  {
    assert [item] + [] == [item];
  }

  /** Shipments that are in the scope or list a member of it. */
  function Related(shipments: Shipments, scope: set<Text>): set<Text> {
    set s | s in shipments && s != [] && (s in scope || shipments[s] * scope != {})
  }

  /** archiveGovernedArtifactIDs: the scope, the shipments, and all their members. */
  function Governed(shipments: Shipments, scope: set<Text>): set<Text> {
    scope + Related(shipments, scope)
    + (set s, m | s in Related(shipments, scope) && m in shipments[s] && m != [] :: m)
  }

  lemma RelatedByItem(shipments: Shipments, scope: set<Text>, s: Text) returns (id: Text)
    requires s in Related(shipments, scope)
    ensures id in scope && s in Related(shipments, {id})
  {
    if s in scope {
      id := s;
    } else {
      id :| id in shipments[s] * scope;
      assert id in shipments[s] * {id};
    }
  }

  lemma GovernedByItem(shipments: Shipments, scope: set<Text>, x: Text) returns (id: Text)
    requires x in Governed(shipments, scope)
    ensures id in scope && x in Governed(shipments, {id})
  {
    if x in scope {
      id := x;
    } else if x in Related(shipments, scope) {
      id := RelatedByItem(shipments, scope, x);
    } else {
      var s :| s in Related(shipments, scope) && x in shipments[s] && x != [];
      id := RelatedByItem(shipments, scope, s);
    }
  }

  lemma GovernedGrows(shipments: Shipments, scope: set<Text>, id: Text)
    requires id in scope
    ensures Related(shipments, {id}) <= Related(shipments, scope)
    ensures Governed(shipments, {id}) <= Governed(shipments, scope) && scope <= Governed(shipments, scope)
  {
    forall s | s in Related(shipments, {id}) ensures s in Related(shipments, scope) {
      assert shipments[s] * {id} <= shipments[s] * scope;
    }
  }

  /** For every item whose log a context holds, it also holds everything an archive of that
      item needs. */
  ghost predicate Covers(shipments: Shipments, c: Ctx) {
    && c.logs <= c.mutations
    && (forall id :: id in c.logs ==>
          && Related(shipments, {id}) <= c.memberships
          && Governed(shipments, {id}) <= c.mutations)
  }

  /** A context in which ArchiveItem can be called: no lock, or those of an enclosing archive. */
  ghost predicate Entry(shipments: Shipments, c: Ctx) {
    Covers(shipments, c) && (!c.inGlobal ==> c == NO_LOCKS)
  }

  /** The context after the governance step for `scope`. */
  function ScopeCtx(shipments: Shipments, c: Ctx, scope: set<Text>): Ctx {
    Ctx(true, c.memberships + Related(shipments, scope), c.logs + scope, c.mutations + Governed(shipments, scope))
  }

  /** The locks that step takes: sorted A, then sorted C, then sorted B. */
  ghost function ScopeLocks(shipments: Shipments, c: Ctx, scope: set<Text>): seq<Lock> {
    Missing(A, SortedKeys(Related(shipments, scope)), c.memberships)
    + Missing(C, SortedKeys(scope), c.logs)
    + Missing(B, SortedKeys(Governed(shipments, scope)), c.mutations)
  }

  /** What a top-level archive of `scope` acquires, in order. */
  ghost function CanonicalLocks(shipments: Shipments, scope: set<Text>): seq<Lock> {
    [Global] + ScopeLocks(shipments, ONLY_GLOBAL, scope)
  }

  /** An item set whose logs are held needs no further membership or mutation lock. */
  lemma ScopeCovered(shipments: Shipments, c: Ctx, scope: set<Text>)
    requires Covers(shipments, c) && scope <= c.logs
    ensures Related(shipments, scope) <= c.memberships && Governed(shipments, scope) <= c.mutations
  {
    hide Related, Governed;
    forall s | s in Related(shipments, scope) ensures s in c.memberships {
      var _ := RelatedByItem(shipments, scope, s);
    }
    forall x | x in Governed(shipments, scope) ensures x in c.mutations {
      var _ := GovernedByItem(shipments, scope, x);
    }
  }

  /** The context after a governance step covers its scope. */
  lemma NewlyCovered(shipments: Shipments, c: Ctx, scope: set<Text>)
    requires Covers(shipments, c)
    ensures Covers(shipments, ScopeCtx(shipments, c, scope))
  {
    hide Related, Governed;
    forall id | id in scope
      ensures Related(shipments, {id}) <= Related(shipments, scope)
      ensures Governed(shipments, {id}) <= Governed(shipments, scope) && id in Governed(shipments, scope)
    {
      GovernedGrows(shipments, scope, id);
    }
  }

  lemma {:induction false} NoGlobal(class_: Class, ids: seq<Text>, held: set<Text>)
    ensures Global !in Missing(class_, ids, held)
  {
    MissingMembers(class_, ids, held);
  }

  // ---- the lock trace of one call ----

  /** The first k locks taken in order and given back in reverse. */
  function CallTrace(locks: seq<Lock>, k: nat): seq<Event>
    requires k <= |locks|
  {
    Acquires(locks[..k]) + Releases(locks[..k])
  }

  /** A call that wanted these locks got the first of them, all if complete, and gave them back. */
  ghost predicate GaveBack(before: seq<Event>, wanted: seq<Lock>, complete: bool, after: seq<Event>) {
    exists k: nat :: k <= |wanted| && (complete ==> k == |wanted|) && after == before + CallTrace(wanted, k)
  }

  lemma GaveBackNothing(trace: seq<Event>, wanted: seq<Lock>)
    ensures GaveBack(trace, wanted, false, trace)
    ensures wanted == [] ==> GaveBack(trace, wanted, true, trace)
    ensures trace + CallTrace(wanted, 0) == trace
  {
    assert wanted[..0] == [];
    assert Acquires([]) + Releases([]) == [];
    assert trace + [] == trace;
    assert trace == trace + CallTrace(wanted, 0);
  }

  lemma GaveBackMore(before: seq<Event>, wanted: seq<Lock>, more: seq<Lock>, complete: bool, after: seq<Event>)
    requires GaveBack(before, wanted, complete, after)
    ensures GaveBack(before, wanted + more, false, after)
  {
    var k: nat :| k <= |wanted| && after == before + CallTrace(wanted, k);
    assert (wanted + more)[..k] == wanted[..k];
    assert CallTrace(wanted + more, k) == CallTrace(wanted, k);
    assert after == before + CallTrace(wanted + more, k);
  }

  /** How many it got may be left open; one that wants nothing does nothing. */
  lemma GaveBackAny(before: seq<Event>, wanted: seq<Lock>, complete: bool, after: seq<Event>)
    requires GaveBack(before, wanted, complete, after)
    ensures GaveBack(before, wanted, false, after)
    ensures wanted == [] ==> after == before
  {
    var k: nat :| k <= |wanted| && (complete ==> k == |wanted|) && after == before + CallTrace(wanted, k);
    if wanted == [] {
      GaveBackNothing(before, wanted);
    }
  }

  lemma {:induction false} ReleasesJoin(a: seq<Lock>, b: seq<Lock>)
    ensures Releases(a + b) == Releases(b) + Releases(a)
  {
    if b == [] {
      assert a + b == a && Releases(b) + Releases(a) == Releases(a);
    } else {
      var n := |b| - 1;
      assert (a + b)[..|a + b| - 1] == a + b[..n];
      ReleasesJoin(a, b[..n]);
    }
  }

  lemma AcquiresJoin(a: seq<Lock>, b: seq<Lock>)
    ensures Acquires(a + b) == Acquires(a) + Acquires(b)
  {}

  /** A call made under locks that are given back after it. */
  lemma GaveBackUnder(t0: seq<Event>, locks: seq<Lock>, t1: seq<Event>, wanted: seq<Lock>, complete: bool, t2: seq<Event>, t3: seq<Event>)
    requires t1 == t0 + Acquires(locks) && GaveBack(t1, wanted, complete, t2) && t3 == t2 + Releases(locks)
    ensures GaveBack(t0, locks + wanted, complete, t3)
  {
    var k: nat :| k <= |wanted| && (complete ==> k == |wanted|) && t2 == t1 + CallTrace(wanted, k);
    var all, part := (locks + wanted)[..|locks| + k], wanted[..k];
    assert all == locks + part;
    ReleasesJoin(locks, part);
    AcquiresJoin(locks, part);
    hide Acquires, Releases;
    Nested(t0, Acquires(locks), Acquires(part), Releases(part), Releases(locks));
    assert t3 == t0 + CallTrace(locks + wanted, |locks| + k);
  }

  /** Everything taken was given back. */
  lemma AllGivenBack(before: seq<Event>, locks: seq<Lock>, trace: seq<Event>, after: seq<Event>)
    requires trace == before + Acquires(locks) && after == trace + Releases(locks)
    ensures GaveBack(before, locks, true, after)
  {
    hide GaveBack, Acquires, Releases;
    GaveBackNothing(trace, []);
    GaveBackUnder(before, locks, trace, [], true, trace, after);
    assert locks + [] == locks;
  }

  lemma Nested(t: seq<Event>, a: seq<Event>, b: seq<Event>, c: seq<Event>, d: seq<Event>)
    ensures t + a + (b + c) + d == t + (a + b + (c + d))
  {}

  lemma {:induction false} MissingPrefix(class_: Class, ids: seq<Text>, i: nat, held: set<Text>) returns (rest: seq<Lock>)
    requires i <= |ids|
    ensures Missing(class_, ids, held) == Missing(class_, ids[..i], held) + rest
  {
    if i == |ids| {
      assert ids[..i] == ids;
      rest := [];
    } else {
      var n := |ids| - 1;
      assert ids[..n][..i] == ids[..i];
      rest := MissingPrefix(class_, ids[..n], i, held);
      rest := rest + if ids[n] in held then [] else [LockOf(class_, ids[n])];
    }
  }

  /** With mutation locks held, an item whose log is not held is refused its log lock. */
  predicate Refused(c: Ctx, scope: set<Text>) {
    c.mutations != {} && !(scope <= c.logs)
  }

  /** The locks a call for this scope sets out to take, in order. One that will be refused its log
      locks only gets as far as the membership locks. */
  ghost function Wanted(shipments: Shipments, c: Ctx, scope: set<Text>): seq<Lock> {
    if Refused(c, scope) then Missing(A, SortedKeys(Related(shipments, scope)), c.memberships)
    else if c.inGlobal then ScopeLocks(shipments, c, scope)
    else [Global] + ScopeLocks(shipments, c, scope)
  }

  /** What a call wants, split at the lifecycle global. */
  lemma WantedUnder(shipments: Shipments, c: Ctx, scope: set<Text>)
    requires c.inGlobal || c == NO_LOCKS
    ensures var e, g := c.(inGlobal := true), if c.inGlobal then [] else [Global];
      && Wanted(shipments, c, scope) == g + Wanted(shipments, e, scope)
      && (Refused(c, scope) <==> Refused(e, scope)) && ScopeCtx(shipments, c, scope) == ScopeCtx(shipments, e, scope)
  {}

  lemma CoveredWantsNothing(shipments: Shipments, c: Ctx, scope: set<Text>)
    requires Covers(shipments, c) && c.inGlobal && scope <= c.logs
    ensures Wanted(shipments, c, scope) == []
  {
    ScopeCovered(shipments, c, scope);
    hide Missing, Related, Governed, Covers;
    NothingMissing(A, SortedKeys(Related(shipments, scope)), c.memberships);
    NothingMissing(C, SortedKeys(scope), c.logs);
    NothingMissing(B, SortedKeys(Governed(shipments, scope)), c.mutations);
  }

  // ---- the order of the locks a call wants ----

  predicate Ascending(locks: seq<Lock>) {
    forall i, j :: 0 <= i < j < |locks| ==> Before(locks[i], locks[j])
  }

  lemma AscendingJoin(a: seq<Lock>, b: seq<Lock>)
    requires Ascending(a) && Ascending(b) && forall l, m :: l in a && m in b ==> Before(l, m)
    ensures Ascending(a + b)
  {
    var s := a + b;
    forall i, j | 0 <= i < j < |s| ensures Before(s[i], s[j]) {
      assert i < |a| ==> s[i] in a;
      assert j >= |a| ==> s[j] in b;
    }
  }

  function ClassRank(class_: Class): nat {
    match class_ case A => 1 case C => 2 case B => 3
  }

  lemma {:induction false} MissingAscends(class_: Class, ids: seq<Text>, held: set<Text>)
    requires StrictlySorted(ids)
    ensures Ascending(Missing(class_, ids, held))
    ensures forall l :: l in Missing(class_, ids, held) ==> Rank(l) == ClassRank(class_)
  {
    MissingMembers(class_, ids, held);
    if ids != [] {
      var init, last := ids[..|ids| - 1], ids[|ids| - 1];
      MissingAscends(class_, init, held);
      MissingMembers(class_, init, held);
      var more := if last in held then [] else [LockOf(class_, last)];
      forall l, m | l in Missing(class_, init, held) && m in more ensures Before(l, m) {
        var id :| id in init && l == LockOf(class_, id);
        assert Less(id, last);
      }
      AscendingJoin(Missing(class_, init, held), more);
    }
  }

  lemma ScopeLocksAscend(shipments: Shipments, c: Ctx, scope: set<Text>)
    ensures Ascending(ScopeLocks(shipments, c, scope)) && Ascending([Global] + ScopeLocks(shipments, c, scope))
    ensures forall l :: l in ScopeLocks(shipments, c, scope) ==> Before(Global, l)
  {
    hide Missing, Related, Governed;
    var a := Missing(A, SortedKeys(Related(shipments, scope)), c.memberships);
    var l := Missing(C, SortedKeys(scope), c.logs);
    var b := Missing(B, SortedKeys(Governed(shipments, scope)), c.mutations);
    MissingAscends(A, SortedKeys(Related(shipments, scope)), c.memberships);
    MissingAscends(C, SortedKeys(scope), c.logs);
    MissingAscends(B, SortedKeys(Governed(shipments, scope)), c.mutations);
    AscendingJoin(a, l);
    AscendingJoin(a + l, b);
    AscendingJoin([Global], a + l + b);
  }

  /** A top-level archive wants the canonical locks, in strictly ascending order. */
  lemma TopLevelAscends(shipments: Shipments, scope: set<Text>)
    ensures Wanted(shipments, NO_LOCKS, scope) == CanonicalLocks(shipments, scope)
    ensures Ascending(CanonicalLocks(shipments, scope))
  {
    ScopeLocksAscend(shipments, ONLY_GLOBAL, scope);
  }

  // ---- calls that keep the strict order ----

  /** Every lock is above everything held. */
  ghost predicate Above(held: set<Lock>, locks: seq<Lock>) {
    forall h, l :: h in held && l in locks ==> Before(h, l)
  }

  lemma {:induction false} AcquiresStrictly(trace: seq<Event>, locks: seq<Lock>)
    requires Strict(trace) && Disciplined(trace + Acquires(locks)) && Ascending(locks) && Above(Held(trace), locks)
    ensures Strict(trace + Acquires(locks))
    ensures forall h :: h in Held(trace + Acquires(locks)) ==> h in Held(trace) || h in locks
  {
    if locks == [] {
      assert trace + Acquires(locks) == trace;
    } else {
      var n := |locks| - 1;
      var init := locks[..n];
      var t, e := trace + Acquires(init), Acquire(locks[n]);
      assert trace + Acquires(locks) == t + [e];
      LastAscends(locks, Held(trace));
      hide *;
      DisciplinedStep(t, e);
      AcquiresStrictly(trace, init);
      StrictStep(t, e);
      NextStrictly(Held(trace), init, locks[n], Held(t));
    }
  }

  lemma LastAscends(locks: seq<Lock>, held: set<Lock>)
    requires locks != [] && Ascending(locks) && Above(held, locks)
    ensures var init, l := locks[..|locks| - 1], locks[|locks| - 1];
      && Ascending(init) && Above(held, init)
      && (forall h :: h in held || h in init ==> Before(h, l))
      && (forall m :: m in locks <==> m in init || m == l)
  {
    assert locks == locks[..|locks| - 1] + [locks[|locks| - 1]];
  }

  lemma NextStrictly(base: set<Lock>, init: seq<Lock>, l: Lock, held: set<Lock>)
    requires forall h :: h in base || h in init ==> Before(h, l)
    requires forall h :: h in held ==> h in base || h in init
    requires May(held, Acquire(l))
    ensures MayStrictly(held, Acquire(l))
    ensures forall h :: h in Apply(held, Acquire(l)) ==> h in base || h in init || h == l
  {}

  lemma DisciplinedStep(trace: seq<Event>, e: Event)
    requires Disciplined(trace + [e])
    ensures Disciplined(trace) && May(Held(trace), e)
  {
    assert (trace + [e])[..|trace|] == trace;
  }

  /** Giving locks back neither breaks the strict order nor repairs it. */
  lemma {:induction false} ReleasesStrictly(trace: seq<Event>, locks: seq<Lock>)
    requires Disciplined(trace + Releases(locks))
    ensures Strict(trace + Releases(locks)) <==> Strict(trace)
    decreases |locks|
  {
    if locks == [] {
      assert trace + Releases(locks) == trace;
    } else {
      var n := |locks| - 1;
      var t := trace + [Release(locks[n])];
      assert trace + Releases(locks) == t + Releases(locks[..n]);
      ReleasesStrictly(t, locks[..n]);
      PrefixDisciplined(t + Releases(locks[..n]), |t|);
      assert (t + Releases(locks[..n]))[..|t|] == t;
      DisciplinedStep(trace, Release(locks[n]));
      StrictStep(trace, Release(locks[n]));
    }
  }

  /** A call that wants ascending locks above everything held keeps the strict order, however far it
      gets. */
  lemma CallIsStrict(before: seq<Event>, wanted: seq<Lock>, after: seq<Event>)
    requires Strict(before) && Ascending(wanted) && Above(Held(before), wanted)
    requires GaveBack(before, wanted, false, after) && Disciplined(after)
    ensures Strict(after)
  {
    var k: nat :| k <= |wanted| && after == before + CallTrace(wanted, k);
    var t := before + Acquires(wanted[..k]);
    Halves(before, wanted, k, after);
    hide *;
    PrefixDisciplined(after, |t|);
    PrefixAscends(wanted, k, Held(before));
    AcquiresStrictly(before, wanted[..k]);
    ReleasesStrictly(t, wanted[..k]);
  }

  lemma Halves(before: seq<Event>, wanted: seq<Lock>, k: nat, after: seq<Event>)
    requires k <= |wanted| && after == before + CallTrace(wanted, k)
    ensures var t := before + Acquires(wanted[..k]);
            after == t + Releases(wanted[..k]) && |t| <= |after| && after[..|t|] == t
  {}

  lemma PrefixAscends(locks: seq<Lock>, k: nat, held: set<Lock>)
    requires k <= |locks| && Ascending(locks) && Above(held, locks)
    ensures Ascending(locks[..k]) && Above(held, locks[..k])
  {
    assert forall l :: l in locks[..k] ==> l in locks;
  }

  // ---- nested calls ----

  /** The item's log is among the locks the context carries, or every shipment related to the item
      is. */
  predicate Fits(shipments: Shipments, c: Ctx, id: Text) {
    c.mutations != {} ==> id in c.logs || Related(shipments, IdSet([id])) <= c.memberships
  }

  lemma FittingWantsNothing(shipments: Shipments, c: Ctx, id: Text)
    requires Covers(shipments, c) && c.inGlobal && c.mutations != {} && Fits(shipments, c, id)
    ensures Wanted(shipments, c, IdSet([id])) == []
  {
    hide Related, Governed;
    var scope := IdSet([id]);
    if scope <= c.logs {
      CoveredWantsNothing(shipments, c, scope);
    } else {
      NothingMissing(A, SortedKeys(Related(shipments, scope)), c.memberships);
    }
  }

  lemma UnfitWantsMembership(shipments: Shipments, c: Ctx, id: Text)
    requires c.mutations != {} && !Fits(shipments, c, id)
    ensures Refused(c, IdSet([id])) && Wanted(shipments, c, IdSet([id])) != []
    ensures forall l :: l in Wanted(shipments, c, IdSet([id])) ==> l.Membership?
  {
    var scope := IdSet([id]);
    if id == [] {
      assert scope == {};
      assert Related(shipments, scope) == {};
    } else {
      assert id in scope;
    }
    hide Related;
    MissingMembers(A, SortedKeys(Related(shipments, scope)), c.memberships);
    var s :| s in Related(shipments, scope) && s !in c.memberships;
    assert s in SortedKeys(Related(shipments, scope)) && Membership(s) == LockOf(A, s);
    assert Membership(s) in Wanted(shipments, c, scope);
  }

  /** A nested call under mutation locks breaks the strict order as soon as it takes any lock; it has
      one to take exactly when its item does not fit. So all its outcomes are strictly ordered if
      and only if the item fits. */
  lemma NestedOrder(shipments: Shipments, c: Ctx, id: Text, trace: seq<Event>)
    requires Covers(shipments, c) && c.inGlobal && c.mutations != {}
    requires Strict(trace) && Held(trace) == LocksOf(c)
    ensures var wanted := Wanted(shipments, c, IdSet([id]));
      && (wanted == [] <==> Fits(shipments, c, id))
      && (forall k :: 0 <= k <= |wanted| ==> (Strict(trace + CallTrace(wanted, k)) <==> k == 0))
      && ((forall k :: 0 <= k <= |wanted| ==> Strict(trace + CallTrace(wanted, k))) <==> Fits(shipments, c, id))
  {
    var wanted := Wanted(shipments, c, IdSet([id]));
    if Fits(shipments, c, id) {
      FittingWantsNothing(shipments, c, id);
    } else {
      UnfitWantsMembership(shipments, c, id);
      assert wanted[0] in wanted;
    }
    hide *;
    forall k | 0 <= k <= |wanted| ensures Strict(trace + CallTrace(wanted, k)) <==> k == 0 {
      if k == 0 {
        GaveBackNothing(trace, wanted);
      } else {
        MembershipUnderMutation(c, wanted, k, trace);
      }
    }
    if wanted != [] {
      assert !Strict(trace + CallTrace(wanted, |wanted|));
    }
  }

  lemma MembershipUnderMutation(c: Ctx, wanted: seq<Lock>, k: nat, trace: seq<Event>)
    requires c.mutations != {} && Held(trace) == LocksOf(c)
    requires 0 < k <= |wanted| && wanted[0].Membership?
    ensures !Strict(trace + CallTrace(wanted, k))
  {
    var after := trace + CallTrace(wanted, k);
    assert after[..|trace|] == trace && after[|trace|] == Acquire(wanted[0]);
    var m :| m in c.mutations;
    assert Mutation(m) in LocksOf(c) && !Before(Mutation(m), wanted[0]);
    if Strict(after) {
      StrictlyAbove(after, |trace|);
    }
  }

  // ---- a whole cascade ----

  /** The context in which the children of an archive of this scope are archived. */
  function ChildCtx(shipments: Shipments, scope: set<Text>): Ctx {
    ScopeCtx(shipments, ONLY_GLOBAL, scope)
  }

  /** A child is in the scope, or in no shipment but those of the scope. */
  predicate InOrder(shipments: Shipments, scope: set<Text>, id: Text) {
    scope == {} || id in scope || Related(shipments, IdSet([id])) <= Related(shipments, scope)
  }

  lemma FitsInOrder(shipments: Shipments, scope: set<Text>, id: Text)
    ensures Fits(shipments, ChildCtx(shipments, scope), id) <==> InOrder(shipments, scope, id)
    ensures ChildCtx(shipments, scope).mutations == {} <==> scope == {}
    ensures scope == {} ==> ChildCtx(shipments, scope) == ONLY_GLOBAL
  {
    if scope == {} {
      assert Related(shipments, scope) == {};
      assert Governed(shipments, scope) == {};
    } else {
      assert scope <= Governed(shipments, scope);
      var x :| x in scope;
      assert x in Governed(shipments, scope);
    }
  }

  /** The lock trace of the children when no step of them fails. */
  ghost function ChildTraces(shipments: Shipments, d: Ctx, ids: seq<Text>): seq<Event> {
    if ids == [] then []
    else
      var wanted := Wanted(shipments, d, IdSet([ids[|ids| - 1]]));
      ChildTraces(shipments, d, ids[..|ids| - 1]) + CallTrace(wanted, |wanted|)
  }

  /** The children that are then archived. */
  function Archivable(d: Ctx, ids: seq<Text>): seq<Text> {
    if ids == [] then []
    else
      var id := ids[|ids| - 1];
      Archivable(d, ids[..|ids| - 1]) + if Refused(d, IdSet([id])) then [] else [id]
  }

  /** How many stash entries are linked to an item. */
  type Links = map<Text, nat>

  function Linked(links: Links, id: Text): nat {
    if id in links then links[id] else 0
  }

  /** The stash lock is taken and given back for every linked entry. */
  function StashTraces(n: nat): seq<Event> {
    if n == 0 then [] else StashTraces(n - 1) + [Acquire(Stash)] + [Release(Stash)]
  }

  /** Each effect is tried under its item's mutation lock. */
  function EffectTraces(ids: seq<Text>, links: Links): seq<Event> {
    if ids == [] then []
    else
      var id := ids[|ids| - 1];
      EffectTraces(ids[..|ids| - 1], links)
      + [Attempt(id)] + [Acquire(Mutation(id))] + StashTraces(Linked(links, id)) + [Release(Mutation(id))]
  }

  /** The trace of a cascade none of whose steps fails, with no recovery pending: `first` are the
      descendants its scope is computed from, `second` those it goes on to archive. */
  ghost function CascadeTrace(shipments: Shipments, links: Links, item: Text, first: seq<Text>, second: seq<Text>): seq<Event> {
    var scope := Scope(item, first);
    var d, locks := ChildCtx(shipments, scope), CanonicalLocks(shipments, scope);
    Acquires(locks) + ChildTraces(shipments, d, second) + Releases(locks)
    + EffectTraces(Archivable(d, second) + [item], links)
  }

  // ---- the order of a whole cascade ----

  predicate AllInOrder(shipments: Shipments, scope: set<Text>, ids: seq<Text>) {
    forall id :: id in ids ==> InOrder(shipments, scope, id)
  }

  predicate AllFit(shipments: Shipments, d: Ctx, ids: seq<Text>) {
    forall id :: id in ids ==> Fits(shipments, d, id)
  }

  /** Membership locks are only held together with mutation locks. */
  predicate Layered(d: Ctx) {
    d.mutations == {} ==> d.memberships == {}
  }

  lemma ChildCtxIsLayered(shipments: Shipments, scope: set<Text>)
    ensures Layered(ChildCtx(shipments, scope))
    ensures forall ids :: AllFit(shipments, ChildCtx(shipments, scope), ids) <==> AllInOrder(shipments, scope, ids)
  {
    forall id ensures Fits(shipments, ChildCtx(shipments, scope), id) <==> InOrder(shipments, scope, id) {
      FitsInOrder(shipments, scope, id);
    }
    FitsInOrder(shipments, scope, []);
  }

  /** One nested call: it keeps the strict order if its item fits, and breaks it if not and no step
      fails. */
  lemma ChildOrder(shipments: Shipments, d: Ctx, id: Text, before: seq<Event>, after: seq<Event>)
    requires Covers(shipments, d) && d.inGlobal && Held(before) == LocksOf(d) && Disciplined(after)
    requires var wanted := Wanted(shipments, d, IdSet([id])); GaveBack(before, wanted, false, after)
    ensures Strict(before) && Layered(d) && Fits(shipments, d, id) ==> Strict(after)
    ensures var wanted := Wanted(shipments, d, IdSet([id]));
            after == before + CallTrace(wanted, |wanted|) && Strict(after) ==> Strict(before) && Fits(shipments, d, id)
  {
    var wanted := Wanted(shipments, d, IdSet([id]));
    var k: nat :| k <= |wanted| && after == before + CallTrace(wanted, k);
    Halves(before, wanted, k, after);
    if Strict(after) {
      assert after[..|before|] == before;
      StrictlyAbove(after, |before|);
    }
    if Strict(before) {
      if d.mutations != {} {
        NestedOrder(shipments, d, id, before);
      } else if Layered(d) {
        assert d.logs == {};
        assert LocksOf(d) == {Global};
        ScopeLocksAscend(shipments, d, IdSet([id]));
        CallIsStrict(before, wanted, after);
      }
    }
  }

  lemma ChildNext(shipments: Shipments, d: Ctx, ids: seq<Text>, i: nat, start: seq<Event>, before: seq<Event>, after: seq<Event>)
    requires i < |ids| && before == start + ChildTraces(shipments, d, ids[..i])
    requires var wanted := Wanted(shipments, d, IdSet([ids[i]])); after == before + CallTrace(wanted, |wanted|)
    ensures after == start + ChildTraces(shipments, d, ids[..i + 1])
    ensures Archivable(d, ids[..i + 1]) == Archivable(d, ids[..i]) + if Refused(d, IdSet([ids[i]])) then [] else [ids[i]]
  {
    var now := ids[..i + 1];
    var wanted := Wanted(shipments, d, IdSet([ids[i]]));
    assert now[..i] == ids[..i] && |now| == i + 1 && now[i] == ids[i];
    hide Wanted, CallTrace, Refused, IdSet;
    assert ChildTraces(shipments, d, now) == ChildTraces(shipments, d, ids[..i]) + CallTrace(wanted, |wanted|);
    assert Archivable(d, now) == Archivable(d, ids[..i]) + if Refused(d, IdSet([ids[i]])) then [] else [ids[i]];
    hide *;
    Joined(start, ChildTraces(shipments, d, ids[..i]), CallTrace(wanted, |wanted|));
  }

  lemma Joined(a: seq<Event>, b: seq<Event>, c: seq<Event>)
    ensures a + b + c == a + (b + c)
  {}

  /** Under the global alone, a step that takes the locks of a scope, or gives back the first of
      them, keeps the strict order. */
  lemma ScopeIsStrict(shipments: Shipments, scope: set<Text>, before: seq<Event>, after: seq<Event>)
    requires Strict(before) && Held(before) == {Global} && Disciplined(after)
    requires var wanted := Wanted(shipments, ONLY_GLOBAL, scope);
             after == before + Acquires(wanted) || GaveBack(before, wanted, false, after)
    ensures Strict(after)
  {
    ScopeLocksAscend(shipments, ONLY_GLOBAL, scope);
    var wanted := Wanted(shipments, ONLY_GLOBAL, scope);
    if after == before + Acquires(wanted) {
      AcquiresStrictly(before, wanted);
    } else {
      CallIsStrict(before, wanted, after);
    }
  }

  // ---- recovery ----

  /** An ID that is not empty. */
  type Id = t: Text | t != [] witness [ZERO]

  /** A shipment operation journal a recovery finds: one that only needs to be removed, or an
      interrupted operation that is completed or rolled back under its shipment's membership lock and
      the mutation locks of the shipment and its artifacts, while the item logs it has to write are
      locked one at a time. A journal without a shipment is one more step of a recovery that fails. */
  datatype Journal = Committed | Intent(shipment: Id, ids: seq<Text>, logs: seq<Id>)

  /** The recovery of this journal gets to take a lock: the membership lock is not reentrant, and is
      not had by a call tree that holds it. */
  predicate Takes(c: Ctx, j: Journal) {
    j.Intent? && j.shipment !in c.memberships
  }

  predicate Settled(c: Ctx, journals: seq<Journal>) {
    forall j :: j in journals ==> !Takes(c, j)
  }

  /** No item log has to be written. */
  predicate Quiet(j: Journal) {
    j.Intent? ==> j.logs == []
  }

  predicate AllQuiet(journals: seq<Journal>) {
    forall j :: j in journals ==> Quiet(j)
  }

  /** The locks a recovery sets out to take before it looks at the artifacts. */
  ghost function JournalLocks(c: Ctx, j: Journal): seq<Lock> {
    if !Takes(c, j) then []
    else
      Missing(A, SortedKeys(IdSet([j.shipment])), c.memberships)
      + Missing(B, SortedKeys(IdSet([j.shipment] + j.ids)), c.mutations)
  }

  lemma JournalAscends(c: Ctx, j: Journal)
    ensures Ascending(JournalLocks(c, j)) && forall l :: l in JournalLocks(c, j) ==> Before(Global, l)
    ensures Takes(c, j) ==> JournalLocks(c, j) != [] && JournalLocks(c, j)[0].Membership?
  {
    if Takes(c, j) {
      var wa := Missing(A, SortedKeys(IdSet([j.shipment])), c.memberships);
      var wb := Missing(B, SortedKeys(IdSet([j.shipment] + j.ids)), c.mutations);
      MissingAscends(A, SortedKeys(IdSet([j.shipment])), c.memberships);
      MissingAscends(B, SortedKeys(IdSet([j.shipment] + j.ids)), c.mutations);
      MissingMembers(A, SortedKeys(IdSet([j.shipment])), c.memberships);
      assert j.shipment in IdSet([j.shipment]);
      assert LockOf(A, j.shipment) in wa;
      hide Missing;
      assert wa[0] in wa;
      AscendingJoin(wa, wb);
    }
  }

  /** Under mutation locks a recovery that takes any lock breaks the strict order, and it has one to
      take exactly when its journal's shipment is not among those whose membership lock is held. */
  lemma RecoveryOrder(c: Ctx, j: Journal, trace: seq<Event>)
    requires c.mutations != {} && Strict(trace) && Held(trace) == LocksOf(c)
    ensures JournalLocks(c, j) == [] <==> !Takes(c, j)
    ensures forall k :: 0 <= k <= |JournalLocks(c, j)| ==> (Strict(trace + CallTrace(JournalLocks(c, j), k)) <==> k == 0)
  {
    var wanted := JournalLocks(c, j);
    JournalAscends(c, j);
    GaveBackNothing(trace, wanted);
    forall k | 0 < k <= |wanted| ensures !Strict(trace + CallTrace(wanted, k)) {
      MembershipUnderMutation(c, wanted, k, trace);
    }
  }

  lemma StrictBefore(before: seq<Event>, after: seq<Event>)
    requires before <= after && Strict(after)
    ensures Strict(before)
  {
    assert after[..|before|] == before;
    StrictlyAbove(after, |before|);
  }

  /** Recovering one journal stopped before it had all its locks. */
  lemma JournalFailed(c: Ctx, j: Journal, before: seq<Event>, after: seq<Event>)
    requires Held(before) == LocksOf(c) && Disciplined(after) && GaveBack(before, JournalLocks(c, j), false, after)
    ensures !Takes(c, j) ==> after == before
    ensures c == ONLY_GLOBAL && Strict(before) ==> Strict(after)
    ensures Strict(after) ==> Strict(before)
  {
    var wanted := JournalLocks(c, j);
    GaveBackAny(before, wanted, false, after);
    JournalAscends(c, j);
    hide JournalLocks;
    if c == ONLY_GLOBAL && Strict(before) {
      assert LocksOf(c) == {Global};
      CallIsStrict(before, wanted, after);
    }
    if Strict(after) {
      StrictBefore(before, after);
    }
  }

  /** A recovery that has all its locks: without the locks of an enclosing archive it has kept the
      order, and under mutation locks it has broken it. */
  lemma JournalTaken(c: Ctx, j: Journal, before: seq<Event>, after: seq<Event>)
    requires Takes(c, j) && Held(before) == LocksOf(c) && Disciplined(after)
    requires after == before + Acquires(JournalLocks(c, j))
    ensures c == ONLY_GLOBAL && Strict(before) ==> Strict(after)
    ensures Strict(after) ==> Strict(before) && c.mutations == {}
  {
    JournalAscends(c, j);
    hide *;
    if c == ONLY_GLOBAL && Strict(before) {
      JournalOpened(j, before, after);
    }
    if Strict(after) {
      FirstIsMembership(c, JournalLocks(c, j), before, after);
    }
  }

  lemma JournalOpened(j: Journal, before: seq<Event>, after: seq<Event>)
    requires Strict(before) && Held(before) == LocksOf(ONLY_GLOBAL) && Disciplined(after)
    requires after == before + Acquires(JournalLocks(ONLY_GLOBAL, j))
    ensures Strict(after)
  {
    JournalAscends(ONLY_GLOBAL, j);
    assert LocksOf(ONLY_GLOBAL) == {Global};
    hide JournalLocks, Strict, Held, Acquires, Ascending;
    AcquiresStrictly(before, JournalLocks(ONLY_GLOBAL, j));
  }

  lemma FirstIsMembership(c: Ctx, wanted: seq<Lock>, before: seq<Event>, after: seq<Event>)
    requires wanted != [] && wanted[0].Membership? && Held(before) == LocksOf(c)
    requires after == before + Acquires(wanted) && Strict(after)
    ensures Strict(before) && c.mutations == {}
  {
    assert before <= after;
    StrictBefore(before, after);
    if c.mutations != {} {
      assert after[..|before|] == before && after[|before|] == Acquire(wanted[0]);
      var m :| m in c.mutations;
      assert Mutation(m) in LocksOf(c) && !Before(Mutation(m), wanted[0]);
      StrictlyAbove(after, |before|);
    }
  }

  function Violation(parent: Text, shipment: Text): seq<Event> {
    [Acquire(Global), Acquire(ItemLog(parent)), Acquire(Mutation(parent)),
     Acquire(Membership(shipment)), Release(Membership(shipment)),
     Release(Mutation(parent)), Release(ItemLog(parent)), Release(Global),
     Attempt(parent), Acquire(Mutation(parent)), Release(Mutation(parent))]
  }

  /** The order is broken by one shipment and two items: the first query for the parent's
      descendants fails, so that the scope is the parent alone; the second finds the child, which is
      in a shipment. Its nested call takes the shipment's membership lock under the parent's log and
      mutation locks and is then refused the child's log. */
  lemma ViolatingTrace(parent: Text, child: Text, shipment: Text)
    requires parent != [] && child != [] && shipment != []
    requires parent != child && parent != shipment && child != shipment
    ensures CascadeTrace(map[shipment := {child}], map[], parent, [], [child]) == Violation(parent, shipment)
    ensures !Strict(Violation(parent, shipment))
  {
    NotStrict(parent, shipment);
    assert IdSet([parent] + []) == {parent};
    OneChild(parent, child, shipment);
    Short(parent, shipment);
    hide *;
    assert [] + [parent] == [parent];
    Spelled(parent, child, shipment);
  }

  lemma Spelled(p: Text, child: Text, s: Text)
    requires var shipments := map[s := {child}];
      && IdSet([p] + []) == {p}
      && CanonicalLocks(shipments, {p}) == [Global, ItemLog(p), Mutation(p)]
      && ChildTraces(shipments, ChildCtx(shipments, {p}), [child]) == [Acquire(Membership(s)), Release(Membership(s))]
      && Archivable(ChildCtx(shipments, {p}), [child]) + [p] == [p]
    requires var locks := [Global, ItemLog(p), Mutation(p)];
      && Acquires(locks) == [Acquire(Global), Acquire(ItemLog(p)), Acquire(Mutation(p))]
      && Releases(locks) == [Release(Mutation(p)), Release(ItemLog(p)), Release(Global)]
      && EffectTraces([p], map[]) == [Attempt(p), Acquire(Mutation(p)), Release(Mutation(p))]
    ensures CascadeTrace(map[s := {child}], map[], p, [], [child]) == Violation(p, s)
  {
    hide ChildTraces, CanonicalLocks, Archivable, EffectTraces, Acquires, Releases, IdSet, ChildCtx;
  }

  lemma OneChild(p: Text, child: Text, s: Text)
    requires p != [] && child != [] && s != [] && p != child && p != s && child != s
    ensures var shipments := map[s := {child}];
      && CanonicalLocks(shipments, {p}) == [Global, ItemLog(p), Mutation(p)]
      && ChildTraces(shipments, ChildCtx(shipments, {p}), [child]) == [Acquire(Membership(s)), Release(Membership(s))]
      && Archivable(ChildCtx(shipments, {p}), [child]) == []
  {
    var shipments := map[s := {child}];
    var d := ChildCtx(shipments, {p});
    ViolatingLocks(p, child, s);
    Short(p, s);
    hide ChildCtx, Wanted, Refused, CallTrace, CanonicalLocks;
    assert IdSet([child]) == {child};
    assert [child][..0] == [];
    assert ChildTraces(shipments, d, []) == [] && Archivable(d, []) == [];
  }

  lemma NotStrict(p: Text, s: Text)
    ensures !Strict(Violation(p, s))
  {
    var trace := Violation(p, s);
    assert trace[..3] == [Acquire(Global), Acquire(ItemLog(p)), Acquire(Mutation(p))];
    HeldOfThree(Global, ItemLog(p), Mutation(p));
    assert !Before(Mutation(p), Membership(s));
    if Strict(trace) {
      StrictlyAbove(trace, 3);
    }
  }

  lemma HeldOfThree(a: Lock, b: Lock, c: Lock)
    ensures Held([Acquire(a), Acquire(b), Acquire(c)]) == {a, b, c}
  {
    StrictStep([], Acquire(a));
    StrictStep([Acquire(a)], Acquire(b));
    StrictStep([Acquire(a), Acquire(b)], Acquire(c));
    assert [] + [Acquire(a)] == [Acquire(a)];
    assert [Acquire(a)] + [Acquire(b)] == [Acquire(a), Acquire(b)];
    assert [Acquire(a), Acquire(b)] + [Acquire(c)] == [Acquire(a), Acquire(b), Acquire(c)];
  }

  lemma Short(p: Text, s: Text)
    ensures var a, b, c, m := Global, ItemLog(p), Mutation(p), Membership(s);
      && Acquires([a, b, c]) == [Acquire(a), Acquire(b), Acquire(c)]
      && Releases([a, b, c]) == [Release(c), Release(b), Release(a)]
      && CallTrace([m], 1) == [Acquire(m), Release(m)]
      && EffectTraces([p], map[]) == [Attempt(p), Acquire(Mutation(p)), Release(Mutation(p))]
  {
    var a, b, c, m := Global, ItemLog(p), Mutation(p), Membership(s);
    assert [a, b, c][..2] == [a, b] && [a, b][..1] == [a] && [a][..0] == [] && [m][..0] == [] && [m][..1] == [m];
    assert Releases([a]) == [Release(a)];
    assert Releases([a, b]) == [Release(b), Release(a)];
    assert Releases([m]) == [Release(m)];
    assert [p][..0] == [];
    assert EffectTraces([], map[]) == [] && StashTraces(Linked(map[], p)) == [];
  }

  lemma ViolatingLocks(p: Text, child: Text, s: Text)
    requires p != [] && child != [] && s != [] && p != child && p != s && child != s
    ensures var shipments := map[s := {child}];
      && CanonicalLocks(shipments, {p}) == [Global, ItemLog(p), Mutation(p)]
      && Wanted(shipments, ChildCtx(shipments, {p}), {child}) == [Membership(s)]
      && Refused(ChildCtx(shipments, {p}), {child})
  {
    var shipments := map[s := {child}];
    assert shipments[s] == {child};
    assert Related(shipments, {p}) == {};
    assert Governed(shipments, {p}) == {p};
    assert child in shipments[s] * {child};
    assert Related(shipments, {child}) == {s};
    NoKeys();
    Alone(p);
    Alone(s);
    assert child !in {p} && child in {child};
    var d := ChildCtx(shipments, {p});
    assert d == Ctx(true, {}, {p}, {p});
    assert p in d.mutations && child !in d.logs && child in {child};
    assert Refused(d, {child});
    assert [p][..0] == [] && [s][..0] == [];
    assert Missing(A, [], {}) == Missing(C, [], {}) == Missing(B, [], {}) == [];
    assert Missing(A, [s], {}) == [Membership(s)];
    assert Missing(C, [p], {}) == [ItemLog(p)];
    assert Missing(B, [p], {}) == [Mutation(p)];
  }

  lemma NoKeys()
    ensures SortedKeys({}) == []
  {}

  lemma Alone(id: Text)
    ensures SortedKeys({id}) == [id]
  {
    SortedKeysUnique(SortedKeys({id}), [id]);
  }
}
