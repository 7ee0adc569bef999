/** The canonical-uniqueness scan of the artifact files and the cache that replaces it in a batch
    of creates. */
module CanonicalCache {
  import opened Bytes
  import opened Options

  type Path = Text

  /** A Markdown file under the scanned directories: an artifact (stash marks the legacy stash
      file, which is skipped), or one that does not parse. */
  datatype File = Artifact(id: Text, stash: bool) | Unparseable

  type Files = map<Path, File>

  datatype Ref = Ref(path: Path, id: Text)

  type Refs = map<Text, seq<Ref>>

  predicate Declares(f: File, id: Text) {
    f.Artifact? && !f.stash && f.id != [] && f.id == id
  }

  /** Some canonical file declares the ID. */
  predicate Declared(files: Files, id: Text) {
    exists p :: p in files && Declares(files[p], id)
  }

  predicate Taken(refs: Refs, id: Text) {
    id in refs && refs[id] != []
  }

  /** scanCanonicalArtifacts over the files in walk order. */
  method Scan(files: Files, walk: seq<Path>) returns (refs: Refs)
    requires forall p :: p in walk <==> p in files
    ensures forall id :: Taken(refs, id) <==> Declared(files, id)
    ensures forall id, r :: id in refs && r in refs[id] <==> id in refs && r.id == id && r.path in files && Declares(files[r.path], id)
  {
    refs := map[];
    for n := 0 to |walk|
      invariant forall id, p :: p in walk[..n] && Declares(files[p], id) ==> id in refs && Ref(p, id) in refs[id]
      invariant forall id, r :: id in refs && r in refs[id] ==> r.id == id && r.path in walk[..n] && Declares(files[r.path], id)
    {
      var p := walk[n];
      assert walk[..n + 1] == walk[..n] + [p];
      var f := files[p];
      if f.Artifact? && !f.stash && f.id != [] {
        var known := if f.id in refs then refs[f.id] else [];
        ghost var before := refs;
        refs := refs[f.id := known + [Ref(p, f.id)]];
        assert forall r :: r in known ==> r in refs[f.id];
        assert Ref(p, f.id) in refs[f.id];
      }
    }
    assert walk[..|walk|] == walk;
    forall id ensures Taken(refs, id) <==> Declared(files, id) {
      if Taken(refs, id) {
        var r := refs[id][0];
        assert r in refs[id] && r.path in files && Declares(files[r.path], id);
      }
      if p :| p in files && Declares(files[p], id) {
        assert Ref(p, id) in refs[id];
      }
    }
  }

  // ---- creates ----

  /** What goes wrong in a create after its uniqueness check: a later check refuses it, the file
      cannot be written, or indexing fails and the file is removed again or cannot be. */
  datatype Fault = NoFault | Refused | NotWritten | NotIndexed(compensated: bool)

  datatype Request = Request(id: Text, path: Path, fault: Fault)

  datatype Decision = Created | Collision | Failed

  datatype Step = Step(decision: Decision, files: Files)

  /** One create that scans afresh. */
  function FreshCreate(files: Files, q: Request): Step {
    if Declared(files, q.id) then Step(Collision, files)
    else if q.fault.Refused? then Step(Failed, files)
    else if q.path in files then Step(Collision, files)
    else if q.fault.NotWritten? then Step(Failed, files)
    else
      var written := files[q.path := Artifact(q.id, false)];
      match q.fault
      case NotIndexed(compensated) => Step(Failed, if compensated then files else written)
      case _ => Step(Created, written)
  }

  datatype Run = Run(decisions: seq<Decision>, files: Files)

  /** A batch in which every create scans afresh. */
  function FreshBatch(files: Files, qs: seq<Request>): Run {
    if qs == [] then Run([], files)
    else
      var before := FreshBatch(files, qs[..|qs| - 1]);
      var last := FreshCreate(before.files, qs[|qs| - 1]);
      Run(before.decisions + [last.decision], last.files)
  }

  predicate Compensated(q: Request) {
    q.fault.NotIndexed? ==> q.fault.compensated
  }

  class Batch {
    var files: Files
    /** CanonicalCache.refs; None is the zero value. */
    var refs: Option<Refs>

    /** NewCanonicalCache, or a zero-valued cache. */
    constructor (files: Files, seeded: bool, walk: seq<Path>)
      requires forall p :: p in walk <==> p in files
      ensures this.files == files && (refs.Some? <==> seeded) && Agrees()
    {
      this.files := files;
      if seeded {
        var scanned := Scan(files, walk);
        refs := Some(scanned);
      } else {
        refs := None;
      }
    }

    /** The cache holds exactly the IDs a scan would find, if it holds anything. */
    ghost predicate Agrees()
      reads this
    {
      refs.Some? ==> forall id :: Taken(refs.value, id) <==> Declared(files, id)
    }

    /** ensureSeeded. */
    method EnsureSeeded(walk: seq<Path>)
      requires Agrees() && forall p :: p in walk <==> p in files
      modifies this`refs
      ensures refs.Some? && Agrees() && (old(refs).Some? ==> refs == old(refs))
    {
      if refs.Some? {
        return;
      }
      var scanned := Scan(files, walk);
      refs := Some(scanned);
    }

    /** record. */
    method Record(id: Text, path: Path)
      modifies this`refs
      ensures id == [] ==> refs == old(refs)
      ensures id != [] ==>
                var was := if old(refs).Some? then old(refs).value else map[];
                refs == Some(was[id := (if id in was then was[id] else []) + [Ref(path, id)]])
    {
      if id == [] {
        return;
      }
      if refs.None? {
        refs := Some(map[]);
      }
      refs := Some(refs.value[id := (if id in refs.value then refs.value[id] else []) + [Ref(path, id)]]);
    }

    /** The part of CreateArtifact that decides about an ID and writes its file, with the cache. */
    method Create(q: Request, walk: seq<Path>) returns (d: Decision)
      requires Agrees() && forall p :: p in walk <==> p in files
      modifies this
      ensures Step(d, files) == FreshCreate(old(files), q)
      ensures refs.Some? && (Agrees() <==> Compensated(q) || q.id == [] || files == old(files))
    {
      EnsureSeeded(walk);
      if Taken(refs.value, q.id) {
        return Collision;
      }
      if q.fault.Refused? {
        return Failed;
      }
      if q.path in files {
        return Collision;
      }
      if q.fault.NotWritten? {
        return Failed;
      }
      ghost var before := files;
      files := files[q.path := Artifact(q.id, false)];
      WrittenIsDeclared(before, q);
      if q.fault.NotIndexed? {
        if q.fault.compensated {
          files := files - {q.path};
          assert files == before;
        }
        return Failed;
      }
      Record(q.id, q.path);
      return Created;
    }
  }

  /** Writing one more artifact makes exactly its ID declared besides those that were. */
  lemma WrittenIsDeclared(files: Files, q: Request)
    requires q.path !in files
    ensures var written := files[q.path := Artifact(q.id, false)];
            forall id :: Declared(written, id) <==> Declared(files, id) || (id == q.id && id != [])
  {
    var written := files[q.path := Artifact(q.id, false)];
    forall id ensures Declared(written, id) <==> Declared(files, id) || (id == q.id && id != []) {
      if Declared(files, id) {
        var p :| p in files && Declares(files[p], id);
        assert Declares(written[p], id);
      }
      if id == q.id && id != [] {
        assert Declares(written[q.path], id);
      }
    }
  }

  /** A batch of creates sharing one cache, seeded or zero-valued, decides every request and leaves
      the files exactly as a batch that scans before every create, as long as failed creates are
      compensated. `walk` is what the directory walk that seeds the cache finds;
      a scan before a create lists the files as they are then. */
  method RunBatch(files: Files, seeded: bool, qs: seq<Request>, walk: seq<Path>) returns (decisions: seq<Decision>, after: Files)
    requires forall p :: p in walk <==> p in files
    requires forall q :: q in qs ==> Compensated(q)
    ensures Run(decisions, after) == FreshBatch(files, qs)
  {
    var batch := new Batch(files, seeded, walk);
    decisions := [];
    for n := 0 to |qs|
      invariant batch.Agrees() && Run(decisions, batch.files) == FreshBatch(files, qs[..n])
    {
      assert qs[..n + 1][..n] == qs[..n];
      var now := Listing(batch.files);
      var d := batch.Create(qs[n], now);
      decisions := decisions + [d];
    }
    assert qs[..|qs|] == qs;
    return decisions, batch.files;
  }

  /** A directory walk. */
  method Listing(files: Files) returns (walk: seq<Path>)
    ensures forall p :: p in walk <==> p in files
  {
    walk := [];
    var rest := files.Keys;
    while rest != {}
      invariant rest <= files.Keys && forall p :: p in walk <==> p in files.Keys - rest
      decreases |rest|
    {
      var p :| p in rest;
      walk, rest := walk + [p], rest - {p};
    }
  }

  /** Without compensation the cache and the scan part ways: a failed create that leaves its file
      behind makes a fresh scan refuse the ID under another path. */
  lemma LeftoverIsRefused(files: Files, id: Text, path: Path, other: Path)
    requires id != [] && !Declared(files, id) && path !in files && other !in files && path != other
    ensures FreshBatch(files, [Request(id, path, NotIndexed(false)), Request(id, other, NoFault)]).decisions == [Failed, Collision]
    ensures FreshBatch(files, [Request(id, path, NotIndexed(true)), Request(id, other, NoFault)]).decisions == [Failed, Created]
  {
    var left := files[path := Artifact(id, false)];
    assert Declares(left[path], id);
    forall c: bool ensures [Request(id, path, NotIndexed(c)), Request(id, other, NoFault)][..1] == [Request(id, path, NotIndexed(c))] {}
    forall c: bool ensures FreshBatch(files, [Request(id, path, NotIndexed(c))]) == Run([Failed], if c then files else left) {
      assert [Request(id, path, NotIndexed(c))][..0] == [];
    }
  }
}
