/** The governed artifact writer: the only rewrite boundary of an artifact file, and what every
    run of writes through it keeps. */
module GovernedWrite {
  import opened Bytes
  import opened Options

  datatype Status = Queued | Active | Blocked | Review | Done | Accepted | Rejected | Archived | Shipped | Abandoned

  /** items is the normalized shipment manifest and envelope the blocked-shipment envelope, with
      timestamps in canonical form; both are read from the custom fields whatever the type. */
  datatype Artifact = Artifact(
    id: Text, shipment: bool, kind: Text, status: Status, archivedFrom: Text, archivedStatus: Text,
    items: seq<Text>, custody: Option<Text>, envelope: map<Text, Text>, rest: Text)

  /** The artifact file: absent, present, or not parseable. */
  datatype Stored = Missing | Present(a: Artifact) | Unreadable

  /** What the caller's envelope allows. */
  datatype Grant = Grant(governed: bool, custody: bool)

  datatype Error = NoProvenance | CustodyChanged | TypeFlip | MembershipSealed | EnvelopeChanged | ProtectedTransition | CannotRead | WriteFailed

  predicate BlockedShipment(a: Artifact) {
    a.shipment && a.status == Blocked
  }

  predicate SameType(a: Artifact, b: Artifact) {
    a.shipment == b.shipment && (a.shipment || a.kind == b.kind)
  }

  predicate Provenance(a: Artifact) {
    a.status == Archived ==> a.archivedFrom != [] && a.archivedStatus != []
  }

  /** What the serializer leaves of an artifact: archive provenance only while it is archived. */
  function Persisted(a: Artifact): Artifact {
    if a.status == Archived then a else a.(archivedFrom := [], archivedStatus := [])
  }

  predicate Bare(a: Artifact) {
    a.archivedFrom == [] && a.archivedStatus == []
  }

  /** Archived if and only if provenance is present: an archived artifact carries both provenance
      fields, any other carries none. */
  predicate Exact(a: Artifact) {
    if a.status == Archived then a.archivedFrom != [] && a.archivedStatus != [] else Bare(a)
  }

  /** isProtectedShipmentStatusTransition. */
  predicate Protected(previous: Status, next: Status) {
    previous != next
    && (next == Blocked || previous == Blocked || (previous == Queued && next == Active)
        || (previous == Queued && next == Abandoned))
  }

  /** What the writer refuses about a rewrite of `previous` by `next`, in its order of checks. */
  function Refusal(previous: Artifact, next: Artifact, g: Grant): Option<Error> {
    if !g.custody && previous.custody != next.custody then Some(CustodyChanged)
    else if !g.governed && !SameType(previous, next) && (BlockedShipment(previous) || BlockedShipment(next)) then Some(TypeFlip)
    else if BlockedShipment(previous) && previous.items != next.items then Some(MembershipSealed)
    else if BlockedShipment(previous) && next.status == Blocked && !g.governed && previous.envelope != next.envelope
    then Some(EnvelopeChanged)
    else if previous.shipment && Protected(previous.status, next.status) && !g.governed then Some(ProtectedTransition)
    else None
  }

  /** The rewrite of an existing artifact goes through. */
  predicate Admits(previous: Artifact, next: Artifact, g: Grant) {
    Provenance(next) && Refusal(previous, next, g).None?
  }

  /** What the writer admits, exactly. A governed write may do anything but change the members of a
      blocked shipment; an ungoverned one may neither move an artifact into or out of blocked
      shipment, nor touch the envelope of one, nor take a queued shipment to active or abandoned, nor
      give or take the blocked status of a shipment. Custody needs its own grant, and an archived
      artifact its provenance. Everything else goes through. */
  lemma AdmitsMeaning(previous: Artifact, next: Artifact, g: Grant)
    ensures Admits(previous, next, g) <==>
      var was, now := previous.shipment && previous.status.Blocked?, next.shipment && next.status.Blocked?;
      && (next.status.Archived? ==> next.archivedFrom != [] && next.archivedStatus != [])
      && (g.custody || previous.custody == next.custody)
      && (was ==> previous.items == next.items)
      && (!g.governed ==>
            && was == now
            && (was ==> previous.envelope == next.envelope)
            && (previous.shipment ==> (previous.status.Blocked? <==> next.status.Blocked?))
            && (previous.shipment && previous.status.Queued? ==> !next.status.Active? && !next.status.Abandoned?))
  {}

  class ArtifactFile {
    var stored: Stored

    /** writeArtifactFileGoverned. A write whose outcome is uncertain has replaced the file. */
    method Write(next: Artifact, g: Grant) returns (error: Option<Error>)
      modifies this
      ensures stored == old(stored) || stored == Present(Persisted(next))
      ensures error.None? ==> stored == Present(Persisted(next))
      ensures stored != old(stored) ==> stored.Present? && Exact(stored.a)
      ensures stored != old(stored) ==>
                match old(stored)
                case Present(previous) => Admits(previous, next, g)
                case Missing => Provenance(next) && (g.custody || next.custody.None?)
                case Unreadable => false
      ensures old(stored).Present? && error.Some? && !error.value.WriteFailed? ==>
                !Admits(old(stored).a, next, g)
                && error.value == if !Provenance(next) then NoProvenance else Refusal(old(stored).a, next, g).value
      ensures error.Some? && !error.value.WriteFailed? ==> stored == old(stored)
      ensures old(stored).Unreadable? ==> error.Some? && stored == old(stored)
      ensures old(stored).Missing? && error.Some? && !error.value.WriteFailed? ==>
                if !Provenance(next) then error.value.NoProvenance? else error.value.CustodyChanged? && !g.custody && next.custody.Some?
    {
      if next.status == Archived && (next.archivedFrom == [] || next.archivedStatus == []) {
        return Some(NoProvenance);
      }
      match stored {
      case Present(previous) =>
        if !g.custody && previous.custody != next.custody {
          return Some(CustodyChanged);
        }
        if !g.governed && !SameType(previous, next) && (BlockedShipment(previous) || BlockedShipment(next)) {
          return Some(TypeFlip);
        }
        if BlockedShipment(previous) && previous.items != next.items {
          return Some(MembershipSealed);
        }
        if BlockedShipment(previous) && next.status == Blocked && !g.governed {
          if previous.envelope != next.envelope {
            return Some(EnvelopeChanged);
          }
        }
        if previous.shipment && Protected(previous.status, next.status) && !g.governed {
          return Some(ProtectedTransition);
        }
      case Missing =>
        if !g.custody && next.custody.Some? {
          return Some(CustodyChanged);
        }
      case Unreadable =>
        return Some(CannotRead);
      }
      var written: bool, reported: bool := *, *;
      if written {
        stored := Present(Persisted(next));
      }
      return if written && reported then None else Some(WriteFailed);
    }
  }

  // ---- runs of writes to one file ----

  /** One write: either it changed nothing, or a rewrite was admitted and serialized. */
  ghost predicate Step(previous: Artifact, next: Artifact, g: Grant) {
    next == previous || exists want :: Admits(previous, want, g) && next == Persisted(want)
  }

  lemma StepOf(previous: Artifact, want: Artifact, g: Grant)
    requires Admits(previous, want, g)
    ensures Step(previous, Persisted(want), g)
  {}

  /** The artifact after each write of a run, states[0] before the first. */
  ghost predicate IsRun(states: seq<Artifact>, grants: seq<Grant>) {
    && |states| == |grants| + 1
    && forall i :: 0 <= i < |grants| ==> Step(states[i], states[i + 1], grants[i])
  }

  /** Being a blocked shipment begins and ends only in a governed write, whatever happens to the
      type and the status in it. */
  lemma BoundaryIsGoverned(previous: Artifact, next: Artifact, g: Grant)
    requires Step(previous, next, g) && BlockedShipment(previous) != BlockedShipment(next)
    ensures g.governed
  {}

  /** Over any run: if the first and last state differ in being a blocked shipment, some write in
      between was governed. */
  lemma {:induction false} RunBoundary(states: seq<Artifact>, grants: seq<Grant>)
    requires IsRun(states, grants) && BlockedShipment(states[0]) != BlockedShipment(states[|grants|])
    ensures exists i :: 0 <= i < |grants| && grants[i].governed && BlockedShipment(states[i]) != BlockedShipment(states[i + 1])
    decreases |grants|
  {
    var n := |grants| - 1;
    if BlockedShipment(states[n]) != BlockedShipment(states[n + 1]) {
      BoundaryIsGoverned(states[n], states[n + 1], grants[n]);
    } else {
      RunBoundary(states[..n + 1], grants[..n]);
      var i :| 0 <= i < n && grants[..n][i].governed
               && BlockedShipment(states[..n + 1][i]) != BlockedShipment(states[..n + 1][i + 1]);
      assert grants[i].governed && BlockedShipment(states[i]) != BlockedShipment(states[i + 1]);
    }
  }

  /** Through a whole blocked interval, including the write that ends it, the member list is the
      one the interval began with, governed or not; and while it lasts, ungoverned writes leave
      the envelope alone. */
  lemma {:induction false} BlockedInterval(states: seq<Artifact>, grants: seq<Grant>)
    requires IsRun(states, grants)
    requires BlockedShipment(states[0]) && forall i :: 0 <= i < |grants| ==> BlockedShipment(states[i])
    ensures forall i :: 0 <= i < |states| ==> states[i].items == states[0].items
    ensures (forall i :: 0 <= i < |grants| ==> !grants[i].governed) ==>
              forall i :: 0 <= i < |states| ==> BlockedShipment(states[i]) && states[i].envelope == states[0].envelope
    decreases |grants|
  {
    if |grants| > 0 {
      var n := |grants| - 1;
      var ss, gs := states[..n + 1], grants[..n];
      BlockedInterval(ss, gs);
      assert ss[n] == states[n] && Step(states[n], states[n + 1], grants[n]);
      assert (forall i :: 0 <= i < |grants| ==> !grants[i].governed) ==> forall i :: 0 <= i < n ==> !gs[i].governed;
      forall i | 0 <= i < |states| ensures states[i].items == states[0].items {
        if i <= n {
          assert states[i] == ss[i];
        }
      }
      if forall i :: 0 <= i < |grants| ==> !grants[i].governed {
        forall i | 0 <= i < |states| ensures BlockedShipment(states[i]) && states[i].envelope == states[0].envelope {
          if i <= n {
            assert states[i] == ss[i];
          }
        }
      }
    }
  }

  /** From an artifact that keeps the archive provenance, every state of every run keeps it; and
      custody changes only in custody writes. */
  lemma {:induction false} RunKeepsProvenance(states: seq<Artifact>, grants: seq<Grant>)
    requires IsRun(states, grants) && Provenance(states[0])
    ensures forall i :: 0 <= i < |states| ==> Provenance(states[i])
    ensures (forall i :: 0 <= i < |grants| ==> !grants[i].custody) ==>
              forall i :: 0 <= i < |states| ==> states[i].custody == states[0].custody
    decreases |grants|
  {
    if |grants| > 0 {
      var n := |grants| - 1;
      var ss, gs := states[..n + 1], grants[..n];
      RunKeepsProvenance(ss, gs);
      assert Step(states[n], states[n + 1], grants[n]);
      forall i | 0 <= i < |states| ensures Provenance(states[i]) {
        assert i <= n ==> states[i] == ss[i];
      }
      if forall i :: 0 <= i < |grants| ==> !grants[i].custody {
        assert forall i :: 0 <= i < n ==> !gs[i].custody;
        forall i | 0 <= i < |states| ensures states[i].custody == states[0].custody {
          assert i <= n ==> states[i] == ss[i];
        }
      }
    }
  }

  /** What an admitted write leaves in the file is exact, whatever the caller or an earlier version
      of the file carried, and apart from the provenance it is what the caller asked for. */
  lemma WrittenIsExact(previous: Artifact, want: Artifact, g: Grant)
    requires Admits(previous, want, g)
    ensures Exact(Persisted(want)) && Persisted(Persisted(want)) == Persisted(want)
    ensures want == Persisted(want).(archivedFrom := want.archivedFrom, archivedStatus := want.archivedStatus)
    ensures Exact(want) <==> Persisted(want) == want
  {}

  /** Over any run from any start, every state is the first one, untouched, or exact; and once a
      state is exact, all later ones are. */
  lemma {:induction false} RunIsExact(states: seq<Artifact>, grants: seq<Grant>)
    requires IsRun(states, grants)
    ensures forall i :: 0 <= i < |states| ==> states[i] == states[0] || Exact(states[i])
    ensures forall i, j :: 0 <= i <= j < |states| && Exact(states[i]) ==> Exact(states[j])
    decreases |grants|
  {
    if |grants| > 0 {
      var n := |grants| - 1;
      var ss := states[..n + 1];
      RunIsExact(ss, grants[..n]);
      assert Step(states[n], states[n + 1], grants[n]) && ss[n] == states[n];
      forall i | 0 <= i < |states| ensures states[i] == states[0] || Exact(states[i]) {
        assert i <= n ==> states[i] == ss[i];
      }
      forall i, j | 0 <= i <= j < |states| && Exact(states[i]) ensures Exact(states[j]) {
        assert i <= n ==> states[i] == ss[i];
        assert j <= n ==> states[j] == ss[j];
        assert i <= n ==> Exact(ss[i]) && Exact(ss[n]);
      }
    }
  }

  // ---- queued shipments ----

  predicate QueuedShipment(a: Artifact) {
    a.shipment && a.status == Queued
  }

  const UNGOVERNED := Grant(false, false)

  /** One write that makes a queued shipment active or abandoned is governed, whatever else it
      changes, the type included. */
  lemma LeavingQueuedIsGoverned(previous: Artifact, next: Artifact, g: Grant)
    requires Step(previous, next, g) && QueuedShipment(previous) && next.status in {Active, Abandoned}
    ensures g.governed
  {}

  /** A run without a governed write. */
  predicate Ungoverned(grants: seq<Grant>) {
    forall i :: 0 <= i < |grants| ==> !grants[i].governed
  }

  /** The run passes through something that is not a queued shipment before its last state. */
  predicate Detours(states: seq<Artifact>)
    requires |states| > 0
  {
    exists i :: 0 <= i < |states| - 1 && !QueuedShipment(states[i])
  }

  /** Over runs the protection holds exactly as long as there is no detour: an ungoverned run from a
      queued shipment can end active or abandoned if and only if it passes through a state that is
      not a queued shipment first. */
  lemma {:induction false} QueuedUntilDetour(states: seq<Artifact>, grants: seq<Grant>)
    requires IsRun(states, grants) && Ungoverned(grants) && QueuedShipment(states[0])
    requires states[|grants|].status in {Active, Abandoned}
    ensures Detours(states)
  {
    var n := |grants|;
    if QueuedShipment(states[n - 1]) {
      assert Step(states[n - 1], states[n], grants[n - 1]);
      LeavingQueuedIsGoverned(states[n - 1], states[n], grants[n - 1]);
    }
  }

  /** An ungoverned write that leaves an active or abandoned shipment behind is open to the run. */
  ghost predicate CanEnd(a: Artifact, end: Status) {
    exists next: Artifact :: next.shipment && next.status == end && Step(a, next, UNGOVERNED)
  }

  /** Exactly when the next ungoverned write can do it: from any state of an ungoverned run that is
      not a queued shipment, and from no other. */
  lemma {:induction false} OpenAfterDetour(states: seq<Artifact>, grants: seq<Grant>, end: Status)
    requires IsRun(states, grants) && Ungoverned(grants) && QueuedShipment(states[0]) && end in {Active, Abandoned}
    ensures CanEnd(states[|grants|], end) <==> !QueuedShipment(states[|grants|])
  {
    var last := states[|grants|];
    if BlockedShipment(last) {
      RunBoundary(states, grants);
    }
    if QueuedShipment(last) {
      forall next: Artifact | next.shipment && next.status == end ensures !Step(last, next, UNGOVERNED) {
        if Step(last, next, UNGOVERNED) {
          LeavingQueuedIsGoverned(last, next, UNGOVERNED);
        }
      }
    } else {
      StepOf(last, last.(shipment := true, status := end), UNGOVERNED);
    }
  }

  /** The statuses a single ungoverned write may detour through without archiving. */
  predicate Sidestep(s: Status) {
    s in {Review, Done, Accepted, Rejected, Shipped}
  }

  /** The shortest detour keeps the type: two ungoverned writes, through any of these statuses,
      activate or abandon any queued shipment; with one write neither is possible. */
  lemma QueuedToActiveAroundTheGuard(a: Artifact, through: Status, end: Status)
    requires QueuedShipment(a) && Sidestep(through) && end in {Active, Abandoned}
    ensures forall next, g | Step(a, next, g) && next.status == end :: g.governed
    ensures var states := [a, Persisted(a.(status := through)), Persisted(a.(status := end))];
            IsRun(states, [UNGOVERNED, UNGOVERNED]) && Detours(states)
  {
    var b := Persisted(a.(status := through));
    var states := [a, b, Persisted(a.(status := end))];
    StepOf(a, a.(status := through), UNGOVERNED);
    StepOf(b, b.(status := end), UNGOVERNED);
    assert Persisted(b.(status := end)) == states[2];
    assert Step(states[0], states[1], UNGOVERNED) && Step(states[1], states[2], UNGOVERNED);
    assert !QueuedShipment(states[1]);
  }
}
