/** The rename of an adopted artifact in every other artifact that refers to it: parents,
    dependencies, links and shipment manifests, all rewritten or all restored. */
module AdoptReferences {
  import opened Bytes
  import opened Options

  datatype Dep = Dep(id: Text, kind: Text)
  datatype Link = Link(target: Text, kind: Text)

  /** An artifact file; items is the normalized manifest, rest every other field and the body. */
  datatype Doc =
    | Doc(id: Text, shipment: bool, parent: Text, deps: seq<Dep>, links: seq<Link>, items: seq<Text>, rest: Text, updated: nat)
    | Unparseable

  type Path = Text
  type Docs = map<Path, Doc>

  function RenameId(id: Text, oldId: Text, newId: Text): Text {
    if id == oldId then newId else id
  }

  // ---- shipment manifests ----

  function RenameItems(items: seq<Text>, oldId: Text, newId: Text): seq<Text> {
    seq(|items|, i requires 0 <= i < |items| => RenameId(items[i], oldId, newId))
  }

  /** The first occurrences of a list, in order. */
  function Distinct(items: seq<Text>): seq<Text> {
    if items == [] then []
    else
      var init, last := items[..|items| - 1], items[|items| - 1];
      Distinct(init) + if last in init then [] else [last]
  }

  lemma {:induction false} DistinctMeaning(items: seq<Text>)
    ensures forall x :: x in Distinct(items) <==> x in items
    ensures forall i, j :: 0 <= i < j < |Distinct(items)| ==> Distinct(items)[i] != Distinct(items)[j]
    ensures forall x, y :: x in items && y in items && FirstAt(Distinct(items), x) < FirstAt(Distinct(items), y)
              ==> FirstAt(items, x) < FirstAt(items, y)
  {
    if items != [] {
      var init, last := items[..|items| - 1], items[|items| - 1];
      assert items == init + [last];
      DistinctMeaning(init);
      forall x | x in init
        ensures FirstAt(items, x) == FirstAt(init, x) && FirstAt(Distinct(items), x) == FirstAt(Distinct(init), x)
      {
        FirstAtPrefix(init, [last], x);
        if last !in init {
          FirstAtPrefix(Distinct(init), [last], x);
        }
      }
    }
  }

  /** The index of the first x. */
  function FirstAt(items: seq<Text>, x: Text): (i: nat)
    ensures x in items ==> i < |items| && items[i] == x
    ensures i <= |items|
  {
    if items == [] || items[0] == x then 0 else 1 + FirstAt(items[1..], x)
  }

  lemma {:induction false} FirstAtPrefix(a: seq<Text>, b: seq<Text>, x: Text)
    requires x in a
    ensures FirstAt(a + b, x) == FirstAt(a, x)
  {
    if a[0] != x {
      assert (a + b)[1..] == a[1..] + b;
      FirstAtPrefix(a[1..], b, x);
    }
  }

  lemma {:induction false} DistinctOfDistinct(items: seq<Text>)
    requires forall i, j :: 0 <= i < j < |items| ==> items[i] != items[j]
    ensures Distinct(items) == items
  {
    if items != [] {
      DistinctOfDistinct(items[..|items| - 1]);
      assert items == items[..|items| - 1] + [items[|items| - 1]];
    }
  }

  function Manifest(items: seq<Text>, oldId: Text, newId: Text): seq<Text> {
    Distinct(RenameItems(items, oldId, newId))
  }

  /** rewriteShipmentManifest. */
  method RewriteManifest(items: seq<Text>, oldId: Text, newId: Text) returns (rewritten: seq<Text>)
    ensures rewritten == Manifest(items, oldId, newId)
  {
    rewritten := [];
    var seen: set<Text> := {};
    ghost var renamed := RenameItems(items, oldId, newId);
    for i := 0 to |items|
      invariant seen == set x | x in renamed[..i]
      invariant rewritten == Distinct(renamed[..i])
    {
      var item := if items[i] == oldId then newId else items[i];
      assert renamed[..i + 1] == renamed[..i] + [item];
      if item !in seen {
        seen := seen + {item};
        rewritten := rewritten + [item];
      }
    }
    assert renamed[..|items|] == renamed;
  }

  /** A rewritten manifest has the renamed members, each once, in their first-seen order, and a
      second rewrite leaves it alone. */
  lemma ManifestMeaning(items: seq<Text>, oldId: Text, newId: Text)
    requires oldId != newId
    ensures var m := Manifest(items, oldId, newId);
      && oldId !in m
      && (forall x :: x in m <==> (x in items && x != oldId) || (x == newId && oldId in items))
      && (forall i, j :: 0 <= i < j < |m| ==> m[i] != m[j])
      && Manifest(m, oldId, newId) == m
  {
    var r, m := RenameItems(items, oldId, newId), Manifest(items, oldId, newId);
    DistinctMeaning(r);
    forall x ensures x in r <==> (x in items && x != oldId) || (x == newId && oldId in items) {
      if x in items && x != oldId {
        var i :| 0 <= i < |items| && items[i] == x;
        assert r[i] == x;
      }
      if oldId in items {
        var i :| 0 <= i < |items| && items[i] == oldId;
        assert r[i] == newId;
      }
    }
    assert forall i :: 0 <= i < |m| ==> m[i] in m;
    assert RenameItems(m, oldId, newId) == m;
    DistinctOfDistinct(m);
  }

  // ---- one artifact ----

  predicate RefersOutsideItems(d: Doc, oldId: Text)
    requires d.Doc?
  {
    || d.parent == oldId
    || (exists i :: 0 <= i < |d.deps| && d.deps[i].id == oldId)
    || (exists i :: 0 <= i < |d.links| && d.links[i].target == oldId)
  }

  predicate Refers(d: Doc, oldId: Text)
    requires d.Doc?
  {
    RefersOutsideItems(d, oldId) || (d.shipment && oldId in d.items)
  }

  /** The artifact after the rewrite at time `now`. */
  function Rewritten(d: Doc, oldId: Text, newId: Text, now: nat): Doc
    requires d.Doc?
  {
    d.(parent := RenameId(d.parent, oldId, newId),
       deps := seq(|d.deps|, i requires 0 <= i < |d.deps| => d.deps[i].(id := RenameId(d.deps[i].id, oldId, newId))),
       links := seq(|d.links|, i requires 0 <= i < |d.links| => d.links[i].(target := RenameId(d.links[i].target, oldId, newId))),
       items := if d.shipment then Manifest(d.items, oldId, newId) else d.items,
       updated := now)
  }

  /** Nothing in a rewritten artifact names the old ID: every edge that did names the new one and
      keeps its kind and place; every other edge, and everything else, is what and where it was. */
  lemma RewrittenMeaning(d: Doc, oldId: Text, newId: Text, now: nat)
    requires d.Doc? && oldId != newId
    ensures var r := Rewritten(d, oldId, newId, now);
      && r.Doc? && !Refers(r, oldId)
      && r.id == d.id && r.rest == d.rest && r.shipment == d.shipment
      && r.parent == (if d.parent == oldId then newId else d.parent) && r.updated == now
      && |r.deps| == |d.deps| && (forall i :: 0 <= i < |d.deps| ==>
            r.deps[i].kind == d.deps[i].kind && r.deps[i].id == if d.deps[i].id == oldId then newId else d.deps[i].id)
      && |r.links| == |d.links| && (forall i :: 0 <= i < |d.links| ==>
            r.links[i].kind == d.links[i].kind
            && r.links[i].target == if d.links[i].target == oldId then newId else d.links[i].target)
      && (if d.shipment then (newId in r.items <==> newId in d.items || oldId in d.items) else r.items == d.items)
  {
    ManifestMeaning(d.items, oldId, newId);
  }

  // ---- all artifacts ----

  /** The adopted artifact itself, under either ID, is not rewritten. */
  predicate Candidate(d: Doc, oldId: Text, newId: Text) {
    d.Doc? && d.id != oldId && d.id != newId && Refers(d, oldId)
  }

  /** Every candidate is rewritten but those in files the scan could not read. */
  function RewriteRead(docs: Docs, skipped: set<Path>, oldId: Text, newId: Text, now: nat): Docs {
    map p | p in docs ::
      if p !in skipped && Candidate(docs[p], oldId, newId) then Rewritten(docs[p], oldId, newId, now) else docs[p]
  }

  /** The ID is the artifact's parent, is in one of its dependencies or links, or, when the artifact is
      a shipment, is among its members. */
  predicate Names(d: Doc, id: Text)
    requires d.Doc?
  {
    !(&& d.parent != id
      && (forall i :: 0 <= i < |d.deps| ==> d.deps[i].id != id)
      && (forall i :: 0 <= i < |d.links| ==> d.links[i].target != id)
      && (d.shipment ==> id !in d.items))
  }

  /** The scan looks in all four places. */
  lemma RefersMeaning(oldId: Text)
    ensures forall d: Doc :: d.Doc? ==> (Refers(d, oldId) <==> Names(d, oldId))
  {}

  /** No artifact but the adopted one names the ID. */
  predicate NamesNowhere(docs: Docs, oldId: Text, newId: Text) {
    forall p :: p in docs && docs[p].Doc? && docs[p].id != oldId && docs[p].id != newId ==> !Names(docs[p], oldId)
  }

  /** No candidate was in a file the scan could not read. */
  predicate NoneSkipped(docs: Docs, skipped: set<Path>, oldId: Text, newId: Text) {
    forall p :: p in skipped && p in docs ==> !Candidate(docs[p], oldId, newId)
  }

  /** What applying exactly the found candidates does is the rename of every artifact read. */
  lemma FoundIsAll(docs: Docs, found: seq<Update>, skipped: set<Path>, oldId: Text, newId: Text, now: nat)
    requires forall p :: p in docs ==>
               (p !in skipped && Candidate(docs[p], oldId, newId) <==> exists i :: 0 <= i < |found| && found[i].path == p)
    ensures Applied(docs, found, oldId, newId, now) == RewriteRead(docs, skipped, oldId, newId, now)
  {}

  /** After the rename no other artifact names the old ID if and only if no candidate was skipped;
      and a later rename that can read everything changes what was skipped and nothing else. */
  lemma RenameIsComplete(docs: Docs, skipped: set<Path>, oldId: Text, newId: Text, now: nat, later: nat)
    requires oldId != newId
    ensures var after := RewriteRead(docs, skipped, oldId, newId, now);
      && (NamesNowhere(after, oldId, newId) <==> NoneSkipped(docs, skipped, oldId, newId))
      && var again := RewriteRead(after, {}, oldId, newId, later);
         && NamesNowhere(again, oldId, newId)
         && forall p :: p in docs ==>
              again[p] == if p in skipped && Candidate(docs[p], oldId, newId) then Rewritten(docs[p], oldId, newId, later) else after[p]
  {
    forall p, t | p in docs && docs[p].Doc? ensures !Refers(Rewritten(docs[p], oldId, newId, t), oldId) {
      RewrittenMeaning(docs[p], oldId, newId, t);
    }
    RefersMeaning(oldId);
    hide Refers, Names, Rewritten;
    var after := RewriteRead(docs, skipped, oldId, newId, now);
    if p :| p in skipped && p in docs && Candidate(docs[p], oldId, newId) {
      assert after[p] == docs[p];
    }
  }

  /** A child that cannot be read while its parent is renamed goes on naming the old ID. */
  lemma UnreadChildIsLeft(path: Path, child: Doc, oldId: Text, newId: Text, now: nat)
    requires child.Doc? && child.id != oldId && child.id != newId && child.parent == oldId && oldId != newId
    ensures var after := RewriteRead(map[path := child], {path}, oldId, newId, now);
            after == map[path := child] && !NamesNowhere(after, oldId, newId)
  {
    var after := RewriteRead(map[path := child], {path}, oldId, newId, now);
    assert Refers(after[path], oldId);
  }

  datatype Update = Update(path: Path, snapshot: Doc, doc: Doc)

  /** How the write of one artifact goes: its path can be written at all, the outcome of the write, and
      whether the index took the change. */
  datatype WriteStep = WriteStep(writable: bool, outcome: Outcome, indexed: bool)

  predicate Succeeds(w: WriteStep) {
    w.writable && w.outcome.Written? && w.indexed
  }

  class Workspace {
    var docs: Docs

    /** findCrossArtifactReferences: the candidates, in the order `walk` visits the files. A file
        that cannot be read is skipped; a walk that fails ends the scan. */
    method FindReferences(walk: seq<Path>, oldId: Text, newId: Text, now: nat)
      returns (ok: bool, updates: seq<Update>, ghost skipped: set<Path>)
      requires forall p :: p in walk <==> p in docs
      requires forall i, j :: 0 <= i < j < |walk| ==> walk[i] != walk[j]
      ensures skipped <= docs.Keys
      ensures oldId == newId ==> ok && updates == []
      ensures ok && oldId != newId ==> forall p :: p in docs ==>
                (p !in skipped && Candidate(docs[p], oldId, newId) <==> exists i :: 0 <= i < |updates| && updates[i].path == p)
      ensures Distinctly(updates) && forall i :: 0 <= i < |updates| ==>
                updates[i].path in docs && Candidate(docs[updates[i].path], oldId, newId)
    {
      ok, updates, skipped := true, [], {};
      if oldId == newId {
        return;
      }
      for n := 0 to |walk|
        invariant ok && skipped <= set p | p in walk[..n]
        invariant forall i :: 0 <= i < |updates| ==>
                    updates[i].path in walk[..n] && updates[i].path !in skipped && Candidate(docs[updates[i].path], oldId, newId)
        invariant forall p :: p in walk[..n] && p !in skipped && Candidate(docs[p], oldId, newId) ==>
                    exists i :: 0 <= i < |updates| && updates[i].path == p
        invariant Distinctly(updates)
      {
        var p := walk[n];
        assert walk[..n + 1] == walk[..n] + [p];
        var walked: bool, read: bool := *, *;
        if !walked {
          return false, updates, skipped;
        }
        var d := docs[p];
        if !read {
          skipped := skipped + {p};
        } else if d.Doc? && d.id != oldId && d.id != newId && Refers(d, oldId) {
          ghost var before := updates;
          updates := updates + [Update(p, d, Rewritten(d, oldId, newId, now))];
          assert updates[|before|].path == p;
          assert forall i :: 0 <= i < |before| ==> updates[i] == before[i];
        }
      }
      assert walk[..|walk|] == walk;
    }

    /** The refresh loop of applyCrossArtifactRewrites: what the files hold under their locks, not
        what the scan saw, is what gets rewritten and would be restored. */
    method Refresh(found: seq<Update>, oldId: Text, newId: Text, now: nat) returns (ok: bool, updates: seq<Update>)
      requires Distinctly(found)
      ensures ok ==> |updates| == |found| && Refreshed(docs, updates, oldId, newId, now)
      ensures ok ==> forall j :: 0 <= j < |found| ==> updates[j].path == found[j].path
    {
      updates := found;
      for i := 0 to |updates|
        invariant |updates| == |found|
        invariant forall j :: 0 <= j < |found| ==> updates[j].path == found[j].path
        invariant Refreshed(docs, updates[..i], oldId, newId, now)
      {
        var readable: bool := *;
        if !readable || updates[i].path !in docs || docs[updates[i].path].Unparseable? {
          return false, updates;
        }
        var current := docs[updates[i].path];
        ghost var done := updates[..i];
        updates := updates[i := Update(updates[i].path, current, Rewritten(current, oldId, newId, now))];
        assert updates[..i + 1] == done + [updates[i]];
      }
      assert updates[..|updates|] == updates;
      return true, updates;
    }

    /** applyCrossArtifactRewrites: refresh every candidate under its lock, then write them one by
        one; any failure restores all written files. `restored` is whether every restoring write
        succeeded. */
    method ApplyRewrites(found: seq<Update>, oldId: Text, newId: Text, now: nat, steps: nat -> WriteStep)
      returns (ok: bool, restored: bool)
      requires oldId != newId && Distinctly(found)
      modifies this
      ensures ok ==> docs == Applied(old(docs), found, oldId, newId, now)
      ensures ok ==> forall i :: 0 <= i < |found| ==> Succeeds(steps(i))
      ensures !ok && restored ==> docs == old(docs)
      ensures !ok ==> Mixed(old(docs), docs, oldId, newId, now)
    {
      var updates;
      ok, updates := Refresh(found, oldId, newId, now);
      if !ok {
        return false, true;
      }
      var written := 0;
      while written < |updates|
        invariant written <= |updates| && WrittenSoFar(old(docs), docs, updates, written)
        invariant forall i :: 0 <= i < written ==> Succeeds(steps(i))
      {
        var u := updates[written];
        var step := steps(written);
        if step.writable && !step.outcome.NotWritten? {
          docs := docs[u.path := u.doc];
        }
        if !step.writable || !step.outcome.Written? || !step.indexed {
          restored := RestoreWritten(updates, if !step.writable then written else written + 1, old(docs), oldId, newId, now);
          return false, restored;
        }
        written := written + 1;
      }
      AppliedAll(old(docs), docs, found, updates, oldId, newId, now);
      return true, true;
    }

    /** The reference part of an adopt rename, with no other writer between the scan and the
        rewrite. It can succeed over a file it could not read. */
    method RenameReferences(walk: seq<Path>, oldId: Text, newId: Text, now: nat, steps: nat -> WriteStep)
      returns (ok: bool, restored: bool, ghost skipped: set<Path>)
      requires oldId != newId
      requires forall p :: p in walk <==> p in docs
      requires forall i, j :: 0 <= i < j < |walk| ==> walk[i] != walk[j]
      modifies this
      ensures skipped <= old(docs).Keys
      ensures ok ==> docs == RewriteRead(old(docs), skipped, oldId, newId, now)
      ensures ok ==> (NamesNowhere(docs, oldId, newId) <==> NoneSkipped(old(docs), skipped, oldId, newId))
      ensures !ok && restored ==> docs == old(docs)
      ensures !ok ==> Mixed(old(docs), docs, oldId, newId, now)
    {
      var scanned, found;
      scanned, found, skipped := FindReferences(walk, oldId, newId, now);
      if !scanned {
        return false, true, skipped;
      }
      ok, restored := ApplyRewrites(found, oldId, newId, now, steps);
      FoundIsAll(old(docs), found, skipped, oldId, newId, now);
      RenameIsComplete(old(docs), skipped, oldId, newId, now, now);
    }

    /** restoreWritten: every written file is replaced by its snapshot; a failing restore is skipped. */
    method RestoreWritten(updates: seq<Update>, n: nat, ghost before: Docs, ghost oldId: Text, ghost newId: Text, ghost now: nat)
      returns (restored: bool)
      requires n <= |updates| && Refreshed(before, updates, oldId, newId, now)
      requires docs.Keys == before.Keys
      requires forall p :: p in before && (forall i :: 0 <= i < n ==> updates[i].path != p) ==> docs[p] == before[p]
      requires Mixed(before, docs, oldId, newId, now)
      modifies this
      ensures restored ==> docs == before
      ensures Mixed(before, docs, oldId, newId, now)
    {
      restored := true;
      for i := 0 to n
        invariant docs.Keys == before.Keys
        invariant forall p :: p in before && (forall j :: i <= j < n ==> updates[j].path != p) && restored ==> docs[p] == before[p]
        invariant Mixed(before, docs, oldId, newId, now)
      {
        var ok: bool := *;
        if ok {
          docs := docs[updates[i].path := updates[i].snapshot];
        } else {
          restored := false;
        }
      }
    }
  }

  datatype Outcome = Written | NotWritten | Uncertain

  predicate Distinctly(updates: seq<Update>) {
    forall i, j :: 0 <= i < j < |updates| ==> updates[i].path != updates[j].path
  }

  /** The updates hold what the files hold now, and what they are to hold. */
  predicate Refreshed(docs: Docs, updates: seq<Update>, oldId: Text, newId: Text, now: nat) {
    forall i :: 0 <= i < |updates| ==>
      && updates[i].path in docs && docs[updates[i].path].Doc?
      && updates[i].snapshot == docs[updates[i].path]
      && updates[i].doc == Rewritten(docs[updates[i].path], oldId, newId, now)
  }

  function Applied(docs: Docs, found: seq<Update>, oldId: Text, newId: Text, now: nat): Docs {
    map p | p in docs ::
      if docs[p].Doc? && exists i :: 0 <= i < |found| && found[i].path == p then Rewritten(docs[p], oldId, newId, now)
      else docs[p]
  }

  /** The first n updates are written and nothing else has changed. */
  predicate WrittenSoFar(before: Docs, after: Docs, updates: seq<Update>, n: nat) {
    && n <= |updates|
    && after.Keys == before.Keys
    && (forall i :: 0 <= i < n ==> updates[i].path in after && after[updates[i].path] == updates[i].doc)
    && (forall p :: p in before && (forall i :: 0 <= i < n ==> updates[i].path != p) ==> after[p] == before[p])
  }

  lemma AppliedAll(before: Docs, after: Docs, found: seq<Update>, updates: seq<Update>, oldId: Text, newId: Text, now: nat)
    requires WrittenSoFar(before, after, updates, |updates|) && Refreshed(before, updates, oldId, newId, now)
    requires |updates| == |found| && forall j :: 0 <= j < |found| ==> updates[j].path == found[j].path
    ensures after == Applied(before, found, oldId, newId, now)
  {
    forall p | p in before ensures after[p] == Applied(before, found, oldId, newId, now)[p] {
      if i :| 0 <= i < |found| && found[i].path == p {
        assert updates[i].path == p;
      } else {
        assert forall i :: 0 <= i < |updates| ==> updates[i].path != p;
      }
    }
  }

  /** Every file is as it was or as it is to be. */
  predicate Mixed(before: Docs, after: Docs, oldId: Text, newId: Text, now: nat) {
    && after.Keys == before.Keys
    && (forall p :: p in before ==>
          after[p] == before[p] || (before[p].Doc? && after[p] == Rewritten(before[p], oldId, newId, now)))
  }
}
