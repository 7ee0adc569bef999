/** ArchiveItem, UnarchiveItem and the reconciliation of archived items, as steps over the files;
    other writers may run between the critical sections of a reconciliation. */
module Archive {
  import opened ArchiveStore
  import opened Bytes
  import opened Options

  datatype Outcome = Done | Conflict | Indeterminate | Failed

  datatype Kind = Archiving | Unarchiving | Setting

  /** One critical section that wrote: the frontmatter it found under the lock, the frontmatter
      it set out to write, and how it ended. */
  datatype Write = Write(kind: Kind, seen: Front, wrote: Front, outcome: Outcome)

  datatype ItemOutcome = Completed | NoOp | Partial | Unknown

  function ArchiveOutcome(files: Files, src: Path, f: Faults): Outcome {
    if UsesGit(files, src, f) && !f.move.Moved? then Failed
    else if f.write.NotWritten? then Failed
    else if f.write.Uncertain? then Indeterminate
    else if ArchiveSucceeds(files, src, f) then Done
    else Failed
  }

  function UnarchiveOutcome(p: Path, target: Path, f: Faults): Outcome {
    if !UnarchiveSucceeds(p, target, f) then Failed
    else if f.write.Uncertain? then Indeterminate
    else Done
  }

  /** A step outside the model; whether it fails is up to files, git and hooks. */
  method Try(smooth: bool) returns (ok: bool)
    ensures smooth ==> ok
  {
    ok := *;
    ok := ok || smooth;
  }

  /** A readable file with that ID is at q: what a lookup can find. */
  predicate ItemAt(files: Files, q: Path, item: Text) {
    q in files && Readable(files[q]) && files[q].fm.id == item
  }

  /** No readable file has that ID. */
  ghost predicate Missing(files: Files, item: Text) {
    forall q :: !ItemAt(files, q, item)
  }

  class Store {
    var files: Files
    var history: seq<Files>
    var writes: seq<Write>

    // ---- steps ----

    method ReplaceFile(p: Path, file: File, o: WriteOutcome)
      modifies this`files, this`history
      ensures files == Replace(old(files), p, file, o) && history == old(history) + [files]
    {
      files := Replace(files, p, file, o);
      history := history + [files];
    }

    method MoveFile(src: Path, dst: Path, o: MoveOutcome)
      modifies this`files, this`history
      ensures files == Move(old(files), src, dst, o) && history == old(history) + [files]
    {
      files := Move(files, src, dst, o);
      history := history + [files];
    }

    method RemoveFile(p: Path, removed: bool)
      modifies this`files, this`history
      ensures files == Remove(old(files), p, removed) && history == old(history) + [files]
    {
      files := Remove(files, p, removed);
      history := history + [files];
    }

    /** os.WriteFile: the file is empty before it is written. */
    method WriteFile(p: Path, file: File, o: InPlaceOutcome)
      modifies this`files, this`history
      ensures files == match o case NotOpened => old(files) case Torn => old(files)[p := Garbage]
                                   case Stored => old(files)[p := file]
      ensures history == old(history) + (if o.Stored? then [old(files)[p := Garbage]] else []) + [files]
    {
      match o
      case NotOpened =>
        history := history + [] + [files];
      case Torn =>
        files := files[p := Garbage];
        history := history + [] + [files];
      case Stored =>
        history := history + [files[p := Garbage]];
        files := files[p := file];
        history := history + [files];
    }

    method RollbackMove(moved: Path, home: Path, raw: File, f: Faults)
      modifies this`files, this`history
      ensures history == old(history) + GitRollback(old(files), moved, home, raw, f)
      ensures files == history[|history| - 1]
    {
      ReplaceFile(moved, raw, f.undoWrite);
      MoveFile(moved, home, f.undoMove);
    }

    /** FindArtifactPath: some readable file with that ID, or none, or a walk error. */
    method Find(item: Text, smooth: bool) returns (p: Option<Path>, err: bool)
      ensures smooth ==> !err
      ensures p.Some? ==> !err && ItemAt(files, p.value, item)
      ensures p.None? && !err ==> Missing(files, item)
    {
      var walked := Try(smooth);
      err := !walked;
      p := None;
      if !err && exists q :: q in files && ItemAt(files, q, item) {
        var q :| q in files && ItemAt(files, q, item);
        p := Some(q);
      }
    }

    /** findArtifactInDir on the queue root; a read error counts as not found. */
    method FindAtQueueRoot(item: Text, readable: bool) returns (p: Option<Path>)
      ensures p.Some? ==> ItemAt(files, p.value, item) && p.value.dir == QueueRoot
      ensures p.None? && readable ==> forall q :: ItemAt(files, q, item) ==> q.dir != QueueRoot
    {
      p := None;
      if readable && exists q :: q in files && q.dir == QueueRoot && ItemAt(files, q, item) {
        var q :| q in files && q.dir == QueueRoot && ItemAt(files, q, item);
        p := Some(q);
      }
    }

    // ---- archive ----

    /** ArchiveItem under its locks. `at` is the file it archived; None when it was refused before
        any write. `smooth` is a call whose lookups, reads and hooks do not fail. */
    method ArchiveItem(item: Text, expected: Option<Text>, queueReadable: bool, smooth: bool, f: Faults)
      returns (r: Outcome, at: Option<Path>)
      modifies this
      ensures at.None? ==>
        (r.Conflict? || r.Failed?) && files == old(files) && history == old(history) && writes == old(writes)
      ensures r.Conflict? ==>
        && at.None? && expected.Some?
        && (Missing(old(files), item)
            || exists q :: ItemAt(old(files), q, item) && old(files)[q].fm.status != expected.value)
      ensures smooth && at.None? ==>
        || Missing(old(files), item)
        || exists q :: ItemAt(old(files), q, item)
             && ((expected.Some? && old(files)[q].fm.status != expected.value) || !Admitted(old(files), q))
      ensures at.Some? ==> var src := at.value;
        && src in old(files) && Readable(old(files)[src]) && old(files)[src].fm.id == item
        && (expected.Some? ==> old(files)[src].fm.status == expected.value)
        && Admitted(old(files), src)
        && history == old(history) + ArchiveRun(old(files), src, f)
        && r == ArchiveOutcome(old(files), src, f)
        && writes == old(writes) + [Write(Archiving, old(files)[src].fm, Stamp(old(files)[src].fm, src), r)]
        && (queueReadable && src.dir == ArchiveDir ==> forall q :: ItemAt(old(files), q, item) ==> q.dir != QueueRoot)
        && (!r.Done? ==> ArchiveUndone(old(files), src, f, files))
      ensures r.Done? ==> files == Archived(old(files), at.value)
    {
      hide ArchiveRun, ArchiveUndone, ArchiveOutcome, Archived;
      var found, err := Find(item, smooth);
      if found.None? {
        return if expected.Some? && !err then Conflict else Failed, None;
      }
      var src := found.value;
      if src.dir == ArchiveDir {
        var queued := FindAtQueueRoot(item, queueReadable);
        if queued.Some? {
          src := queued.value;
        }
      }
      var readable := Try(smooth);
      if !readable {
        return Failed, None;
      }
      var raw := files[src];
      if expected.Some? && raw.fm.status != expected.value {
        return Conflict, None;
      }
      var dst := ArchivePath(src);
      if dst != src && dst in files && !(Readable(files[dst]) && SameItem(files[dst], raw.fm)) {
        return Failed, None;
      }
      var allowed := Try(smooth);
      if !allowed {
        return Failed, None;
      }
      var stamped := Parsed(Stamp(raw.fm, src), raw.body);
      r := WriteArchive(src, dst, raw, stamped, f);
      writes := writes + [Write(Archiving, raw.fm, stamped.fm, r)];
      return r, Some(src);
    }

    /** The writing half of ArchiveItem: a git move when the source is tracked and the destination
        is free, a plain write and removal otherwise. */
    method WriteArchive(src: Path, dst: Path, raw: File, stamped: File, f: Faults) returns (r: Outcome)
      requires src in files && files[src] == raw && raw.Parsed? && dst == ArchivePath(src)
      requires stamped == Parsed(Stamp(raw.fm, src), raw.body)
      modifies this`files, this`history
      ensures history == old(history) + ArchiveRun(old(files), src, f) && history != [] && files == history[|history| - 1]
      ensures r == ArchiveOutcome(old(files), src, f)
      ensures r.Done? ==> files == Archived(old(files), src)
      ensures !r.Conflict? && (!r.Done? ==> ArchiveUndone(old(files), src, f, files))
    {
      if f.git && src != dst && dst !in files {
        r := GitArchive(src, dst, raw, stamped, f);
      } else {
        r := PlainArchive(src, dst, raw, stamped, f);
      }
      if !r.Done? {
        FailedArchiveIsUndone(old(files), src, f);
        hide ArchiveUndone, ArchiveRun;
      }
    }

    method GitArchive(src: Path, dst: Path, raw: File, stamped: File, f: Faults) returns (r: Outcome)
      requires src in files && files[src] == raw && raw.Parsed? && dst == ArchivePath(src)
      requires stamped == Parsed(Stamp(raw.fm, src), raw.body)
      requires UsesGit(files, src, f)
      modifies this`files, this`history
      ensures history == old(history) + ArchiveRun(old(files), src, f) && history != [] && files == history[|history| - 1]
      ensures r == ArchiveOutcome(old(files), src, f)
      ensures r.Done? ==> files == Archived(old(files), src)
    {
      MoveFile(src, dst, f.move);
      if !f.move.Moved? {
        return Failed;
      }
      ReplaceFile(dst, stamped, f.write);
      if !f.write.Written? {
        RollbackMove(dst, src, raw, f);
        return if f.write.Uncertain? then Indeterminate else Failed;
      }
      if !f.indexed {
        ghost var written := files;
        RollbackMove(dst, src, raw, f);
        Regroup(old(history), Move(old(files), src, dst, f.move), written, GitRollback(written, dst, src, raw, f));
        return Failed;
      }
      return Done;
    }

    method PlainArchive(src: Path, dst: Path, raw: File, stamped: File, f: Faults) returns (r: Outcome)
      requires src in files && files[src] == raw && raw.Parsed? && dst == ArchivePath(src)
      requires stamped == Parsed(Stamp(raw.fm, src), raw.body)
      requires !UsesGit(files, src, f)
      modifies this`files, this`history
      ensures history == old(history) + ArchiveRun(old(files), src, f) && history != [] && files == history[|history| - 1]
      ensures r == ArchiveOutcome(old(files), src, f)
      ensures r.Done? ==> files == Archived(old(files), src)
    {
      ReplaceFile(dst, stamped, f.write);
      if !f.write.Written? {
        return if f.write.Uncertain? then Indeterminate else Failed;
      }
      if src != dst {
        RemoveFile(src, f.removed);
        if !f.removed {
          RemoveFile(dst, f.undoRemoved);
          return Failed;
        }
      }
      if !f.indexed {
        ghost var written := files;
        UndoPlainArchive(src, dst, raw, f);
        ghost var a, undo := Replace(old(files), dst, stamped, f.write), RestoreInPlace(written, src, dst, raw, f);
        Regroup(old(history), a, written, undo);
        assert old(history) + [a] + undo == old(history) + ([a] + [] + undo);
        return Failed;
      }
      return Done;
    }

    /** The rollback of a plain archive after an index failure. */
    method UndoPlainArchive(src: Path, dst: Path, raw: File, f: Faults)
      modifies this`files, this`history
      ensures history == old(history) + RestoreInPlace(old(files), src, dst, raw, f)
      ensures files == history[|history| - 1]
    {
      WriteFile(src, raw, f.inPlace);
      if f.inPlace.Stored? && src != dst {
        RemoveFile(dst, f.undoRemoved);
      }
    }

    // ---- unarchive ----

    /** unarchiveItem under its locks; the restore target is never overwritten. */
    method UnarchiveItem(item: Text, expected: Option<Text>, smooth: bool, f: Faults) returns (r: Outcome, at: Option<Path>)
      modifies this
      ensures at.None? ==>
        (r.Conflict? || r.Failed?) && files == old(files) && history == old(history) && writes == old(writes)
      ensures r.Conflict? ==>
        && at.None? && expected.Some?
        && (Missing(old(files), item)
            || exists q :: ItemAt(old(files), q, item)
                 && !(old(files)[q].fm.status == ARCHIVED && old(files)[q].fm.archivedStatus == expected.value))
      ensures smooth && at.None? ==>
        || Missing(old(files), item)
        || exists q :: ItemAt(old(files), q, item)
             && (Unarchived(old(files), q).None?
                 || (expected.Some?
                     && !(old(files)[q].fm.status == ARCHIVED && old(files)[q].fm.archivedStatus == expected.value)))
      ensures at.Some? ==> var p := at.value;
        && p in old(files) && Readable(old(files)[p]) && old(files)[p].fm.id == item
        && Unarchived(old(files), p).Some?
        && (expected.Some? ==>
              old(files)[p].fm.status == ARCHIVED && old(files)[p].fm.archivedStatus == expected.value)
        && var target := RestoreTarget(p, old(files)[p].fm.from.value);
           && (target == p || target !in old(files))
           && history == old(history) + UnarchiveRun(old(files), p, target, f)
           && r == UnarchiveOutcome(p, target, f)
           && writes == old(writes) + [Write(Unarchiving, old(files)[p].fm, Restore(old(files)[p].fm), r)]
           && (r.Failed? ==> UnarchiveUndone(old(files), p, target, f, files))
      ensures r.Indeterminate? ==> at.Some? && Unarchived(old(files), at.value) == Some(files)
      ensures r.Done? ==> Unarchived(old(files), at.value) == Some(files)
    {
      var found, err := Find(item, smooth);
      if found.None? {
        return if expected.Some? && !err then Conflict else Failed, None;
      }
      var p := found.value;
      var readable := Try(smooth);
      if !readable {
        return Failed, None;
      }
      var raw := files[p];
      if expected.Some? && (raw.fm.status != ARCHIVED || raw.fm.archivedStatus != expected.value) {
        return Conflict, None;
      }
      if raw.fm.from.None? {
        return Failed, None;
      }
      var target := RestoreTarget(p, raw.fm.from.value);
      if target != p && target in files {
        return Failed, None;
      }
      var planned := Try(smooth);
      if !planned {
        return Failed, None;
      }
      var restored := Parsed(Restore(raw.fm), raw.body);
      r := WriteUnarchive(p, target, raw, restored, f);
      if r.Failed? {
        FailedUnarchiveIsUndone(old(files), p, target, f);
      }
      writes := writes + [Write(Unarchiving, raw.fm, restored.fm, r)];
      return r, Some(p);
    }

    /** The writing half of unarchiveItem. */
    method WriteUnarchive(p: Path, target: Path, raw: File, restored: File, f: Faults) returns (r: Outcome)
      requires p in files && files[p] == raw && raw.Parsed? && (target == p || target !in files)
      requires raw.fm.from.Some? && target == RestoreTarget(p, raw.fm.from.value)
      requires restored == Parsed(Restore(raw.fm), raw.body)
      modifies this`files, this`history
      ensures history == old(history) + UnarchiveRun(old(files), p, target, f)
      ensures history != [] && files == history[|history| - 1]
      ensures r == UnarchiveOutcome(p, target, f)
      ensures r.Done? || r.Indeterminate? ==> Unarchived(old(files), p) == Some(files)
      ensures !r.Conflict?
    {
      if f.git && p != target {
        MoveFile(p, target, f.move);
        if !f.move.Moved? {
          return Failed;
        }
        ReplaceFile(target, restored, f.write);
        ghost var written := files;
        if f.write.NotWritten? || (f.write.Written? && !f.indexed) {
          RollbackMove(target, p, raw, f);
          Regroup(old(history), Move(old(files), p, target, f.move), written, GitRollback(written, target, p, raw, f));
          return Failed;
        }
        assert files == Unarchived(old(files), p).value;
        return if f.write.Uncertain? then Indeterminate else Done;
      }
      ReplaceFile(target, restored, f.write);
      if f.write.NotWritten? {
        return Failed;
      }
      if p != target {
        RemoveFile(p, f.removed);
        if !f.removed {
          return Failed;
        }
      }
      if f.write.Uncertain? {
        assert files == Unarchived(old(files), p).value;
        return Indeterminate;
      }
      if !f.indexed {
        ghost var written := files;
        UndoUnarchive(p, target, raw, f);
        ghost var a, undo := Replace(old(files), target, restored, f.write), ReturnToArchive(written, p, target, raw, f);
        Regroup(old(history), a, written, undo);
        assert old(history) + [a] + undo == old(history) + ([a] + [] + undo);
        return Failed;
      }
      assert files == Unarchived(old(files), p).value;
      return Done;
    }

    /** restoreArchiveAfterUnarchiveFailure. */
    method UndoUnarchive(p: Path, target: Path, raw: File, f: Faults)
      modifies this`files, this`history
      ensures history == old(history) + ReturnToArchive(old(files), p, target, raw, f)
      ensures files == history[|history| - 1]
    {
      ReplaceFile(p, raw, f.undoWrite);
      if f.undoWrite.Written? && p != target {
        RemoveFile(target, f.undoRemoved);
      }
    }

    // ---- the set step of reconciliation ----

    /** setItemStatusAndMetaLocked: a compare-and-swap on the status of a queue artifact. */
    method SetStatus(item: Text, expected: Text, status: Text, key: Text, rest: Text, smooth: bool, f: Faults)
      returns (r: Outcome, at: Option<Path>)
      modifies this
      ensures at.None? ==>
        (r.Conflict? || r.Failed?) && files == old(files) && history == old(history) && writes == old(writes)
      ensures r.Conflict? ==>
        && at.None?
        && (Missing(old(files), item)
            || exists q :: ItemAt(old(files), q, item) && (q.dir == ArchiveDir || old(files)[q].fm.status != expected))
      ensures smooth && at.None? ==> r.Conflict?
      ensures at.Some? ==> var p := at.value;
        && p in old(files) && Readable(old(files)[p]) && old(files)[p].fm.id == item
        && old(files)[p].fm.status == expected && p.dir != ArchiveDir
        && (var wrote := SetFront(old(files)[p].fm, status, key, rest);
            && history == old(history) + SetRun(old(files), p, Parsed(wrote, old(files)[p].body), f)
            && writes == old(writes) + [Write(Setting, old(files)[p].fm, wrote, r)]
            && (r.Done? ==> files == old(files)[p := Parsed(wrote, old(files)[p].body)]))
        && (r.Failed? ==> files == old(files))
        && (r.Done? <==> f.write.Written? && f.indexed)
    {
      var found, err := Find(item, smooth);
      if found.None? {
        return if err then Failed else Conflict, None;
      }
      var p := found.value;
      if p.dir == ArchiveDir {
        return Conflict, None;
      }
      var readable := Try(smooth);
      if !readable {
        return Failed, None;
      }
      var raw := files[p];
      if raw.fm.status != expected {
        return Conflict, None;
      }
      var updated := Parsed(SetFront(raw.fm, status, key, rest), raw.body);
      ReplaceFile(p, updated, f.write);
      if f.write.NotWritten? {
        r := Failed;
      } else if f.write.Uncertain? {
        r := Indeterminate;
      } else if f.indexed {
        r := Done;
      } else {
        ReplaceFile(p, raw, f.undoWrite);
        assert f.undoWrite.Written? ==> files == old(files);
        r := if f.undoWrite.Written? then Failed else Indeterminate;
      }
      writes := writes + [Write(Setting, raw.fm, updated.fm, r)];
      return r, Some(p);
    }

    // ---- reconciliation ----

    /** Between two critical sections any other writer may change any file, unless the reconciliation
        is undisturbed. */
    method Interfere(quiet: bool)
      modifies this`files
      ensures quiet ==> files == old(files)
    {
      if !quiet {
        files := *;
      }
    }

    /** reconcileArchivedItem: unarchive, set the status, archive again; each step re-checks under
        its own lock what the previous one left behind. `was` is the archived status it set out
        to correct. A quiet call is disturbed by no other writer, and no lookup, read or hook of it
        fails. */
    method ReconcileItem(item: Text, target: Text, key: Text, rest: Text, childrenTerminal: bool, quiet: bool, faults: seq<Faults>)
      returns (r: ItemOutcome, failed: bool, was: Text)
      requires target != ARCHIVED && |faults| == 4
      modifies this
      ensures old(writes) <= writes && Sequence(was, target, writes[|old(writes)|..])
      ensures r.Completed? <==> Reconciled(target, writes[|old(writes)|..])
      ensures r.NoOp? ==> writes == old(writes) && exists q :: ItemAt(old(files), q, item) && IsNoOp(old(files)[q].fm, target, key)
      ensures (forall q :: ItemAt(old(files), q, item) ==> IsNoOp(old(files)[q].fm, target, key)) ==>
        && (r.NoOp? || (r.Partial? && failed && (quiet ==> Missing(old(files), item))))
        && files == old(files) && history == old(history) && writes == old(writes)
      ensures r.Unknown? <==> EndsIndeterminate(writes[|old(writes)|..])
      ensures failed ==> r.Partial? || r.Unknown?
      ensures !failed ==> !r.Unknown? && (r.NoOp? || Corrected(writes[|old(writes)|..]))
      ensures quiet && childrenTerminal && (exists p :: Reconcilable(old(files), item, p, target, key)) ==>
        && Attempted(writes[|old(writes)|..])
        && ((forall f :: f in faults ==> FaultFree(f)) ==> r.Completed?)
    {
      hide UnarchiveRun, UnarchiveUndone, Unarchived, UnarchiveOutcome, RestoreTarget, Reconcilable, ValidStatus;
      was := [];
      assert writes[|old(writes)|..] == [];
      var found, err := Find(item, quiet);
      if found.None? {
        NotReconcilable(files, item, target, key);
        return Partial, true, was;
      }
      ReconcilableFacts(files, item, found.value, target, key);
      var readable := Try(quiet);
      if !readable {
        return Partial, true, was;
      }
      var fm := files[found.value].fm;
      was := fm.archivedStatus;
      if fm.status != ARCHIVED || fm.archivedStatus == [] {
        return Partial, true, was;
      }
      if fm.archivedStatus == target || (key != [] && fm.key == key) {
        return NoOp, false, was;
      }
      if !childrenTerminal {
        return Partial, true, was;
      }

      Interfere(quiet);
      ghost var ready := quiet && exists p :: Reconcilable(old(files), item, p, target, key);
      var step, at := UnarchiveItem(item, Some(was), quiet, faults[0]);
      if ready {
        UnarchiveProceeds(old(files), item, found.value, at, target, key, faults[0]);
      }
      if !step.Done? {
        return if step.Indeterminate? then Unknown else Partial, true, was;
      }
      ghost var home := found.value;
      if ready {
        home := ComesHome(old(files), item, found.value, target, key, files);
      }
      r, failed := SetAndRearchive(item, was, target, key, rest, quiet, ready, home, faults[1..]);
    }

    /** The steps of reconcileArchivedItem after the unarchive committed. */
    method SetAndRearchive(item: Text, was: Text, target: Text, key: Text, rest: Text, quiet: bool, ghost ready: bool, ghost home: Path,
        faults: seq<Faults>)
      returns (r: ItemOutcome, failed: bool)
      requires target != ARCHIVED && |faults| == 3
      requires ready ==> quiet && AtHome(files, item, home, was, target)
      modifies this
      ensures old(writes) <= writes && Tail(was, target, writes[|old(writes)|..])
      ensures r.Completed? <==> Finished(target, writes[|old(writes)|..])
      ensures r.Unknown? <==> EndsIndeterminate(writes[|old(writes)|..])
      ensures !r.NoOp? && (failed ==> r.Partial? || r.Unknown?)
      ensures !failed ==> !r.Unknown? && CommittedSet(writes[|old(writes)|..])
      ensures ready ==> TailAttempted(writes[|old(writes)|..])
      ensures ready && (forall f :: f in faults ==> FaultFree(f)) ==> r.Completed?
    {
      assert faults[0] in faults && faults[2] in faults;
      hide SetRun, AtHome, ValidStatus, FaultFree;
      Interfere(quiet);
      ghost var before := files;
      var step, at := SetStatus(item, was, target, key, rest, quiet, faults[0]);
      if ready {
        SetProceeds(before, item, home, was, target, at);
      }
      if step.Failed? {
        Interfere(quiet);
        step := Rearchive(item, was, target, quiet, ready, home, faults[1]);
        return if step.Indeterminate? then Unknown else Partial, true;
      }
      if !step.Done? {
        return if step.Indeterminate? then Unknown else Partial, true;
      }

      Interfere(quiet);
      if ready {
        StaysHome(before, item, home, was, target, key, rest);
      }
      step := Rearchive(item, target, target, quiet, ready, home, faults[2]);
      if !step.Done? {
        return if step.Indeterminate? then Unknown else Partial, !step.Failed?;
      }
      return Completed, false;
    }

    /** The archive of an item that is expected at a status, as the rollback and the final step make it. */
    method Rearchive(item: Text, status: Text, ghost target: Text, quiet: bool, ghost ready: bool, ghost home: Path, f: Faults)
      returns (r: Outcome)
      requires ready ==> quiet && AtHome(files, item, home, status, target)
      modifies this
      ensures writes == old(writes) ==> (r.Conflict? || r.Failed?) && !ready
      ensures writes != old(writes) ==>
        && |writes| == |old(writes)| + 1 && old(writes) <= writes
        && var w := writes[|old(writes)|];
           && w.kind.Archiving? && w.outcome == r && w.seen.status == status && w.wrote.status == ARCHIVED
           && (status != ARCHIVED ==> w.wrote.archivedStatus == status)
      ensures ready && FaultFree(f) ==> r.Done?
    {
      hide ArchiveRun, ArchiveUndone, Admitted, Archived, ArchiveOutcome, ArchivePath, AtHome, ValidStatus, FaultFree;
      ghost var before := files;
      var queueReadable: bool := *;
      var at;
      r, at := ArchiveItem(item, Some(status), queueReadable, quiet, f);
      if ready {
        ArchiveProceeds(before, item, home, status, target, at, f);
      }
    }

    /** ReconcileArchivedLifecycle after its validation: the items in order; None when every item
        failed. */
    method ReconcileAll(items: seq<Text>, target: Text, key: Text, rest: Text, faults: seq<seq<Faults>>)
      returns (r: Option<ItemOutcome>, outcomes: seq<ItemOutcome>, failed: seq<bool>)
      requires items != [] && target != ARCHIVED
      requires |faults| == |items| && forall i :: 0 <= i < |faults| ==> |faults[i]| == 4
      modifies this
      ensures |outcomes| == |failed| == |items| && old(writes) <= writes
      ensures forall w :: w in writes[|old(writes)|..] ==> exists was :: Guarded(was, target, w)
      ensures forall i :: 0 <= i < |items| && failed[i] ==> outcomes[i].Partial? || outcomes[i].Unknown?
      ensures r.None? <==> false !in failed
      ensures r.Some? ==> r.value == Overall(outcomes)
    {
      outcomes, failed := [], [];
      var failures := 0;
      assert writes[|old(writes)|..] == [];
      for i := 0 to |items|
        invariant |outcomes| == |failed| == i && old(writes) <= writes && failures <= i
        invariant forall w :: w in writes[|old(writes)|..] ==> exists was :: Guarded(was, target, w)
        invariant forall j :: 0 <= j < i && failed[j] ==> outcomes[j].Partial? || outcomes[j].Unknown?
        invariant failures == i <==> false !in failed
      {
        ghost var before := writes;
        var childrenTerminal: bool := *;
        var o, err, was := ReconcileItem(items[i], target, key, rest, childrenTerminal, false, faults[i]);
        outcomes, failed := outcomes + [o], failed + [err];
        if err {
          failures := failures + 1;
        }
        NewWritesGuarded(old(writes), before, writes, was, target);
      }
      if failures == |items| {
        return None, outcomes, failed;
      }
      var overall := ComputeOutcome(outcomes);
      return Some(overall), outcomes, failed;
    }
  }

  // ---- what a reconciliation write may overwrite ----

  /** The item is archived, and at the target status already or reconciled with that key before. */
  predicate IsNoOp(fm: Front, target: Text, key: Text) {
    && fm.status == ARCHIVED && fm.archivedStatus != []
    && (fm.archivedStatus == target || (key != [] && fm.key == key))
  }

  /** The last critical section that wrote ended with an uncertain outcome. */
  predicate EndsIndeterminate(ws: seq<Write>) {
    ws != [] && ws[|ws| - 1].outcome.Indeterminate?
  }

  /** The write happened where the state under the lock was the one the step expects. */
  predicate Guarded(was: Text, target: Text, w: Write) {
    match w.kind
    case Unarchiving => w.seen.status == ARCHIVED && w.seen.archivedStatus == was && w.wrote.status == was
    case Setting => w.seen.status == was && w.wrote.status == target
    case Archiving => Rearchives(target, w) || RollsBack(was, w)
  }

  /** The final archive: of an item with the target status, stamped with it. */
  predicate Rearchives(target: Text, w: Write) {
    w.kind.Archiving? && w.seen.status == target && w.wrote.status == ARCHIVED && w.wrote.archivedStatus == target
  }

  /** The archive that undoes a failed correction: of an item still at its old status. */
  predicate RollsBack(was: Text, w: Write) {
    && w.kind.Archiving? && w.seen.status == was && w.wrote.status == ARCHIVED
    && (was != ARCHIVED ==> w.wrote.archivedStatus == was)
  }

  /** The writes of one item: nothing, or an unarchive and, if it committed, what follows it;
      every one guarded. */
  predicate Sequence(was: Text, target: Text, ws: seq<Write>) {
    ws != [] ==>
      && ws[0].kind.Unarchiving? && Guarded(was, target, ws[0])
      && (ws[0].outcome.Done? || |ws| == 1)
      && Tail(was, target, ws[1..])
  }

  /** The writes after the unarchive: a status write, followed by the final archive if it committed
      and by the rollback archive if not; or the rollback archive alone when the status write was
      refused. */
  predicate Tail(was: Text, target: Text, ws: seq<Write>) {
    && |ws| <= 2
    && (|ws| == 1 ==> (ws[0].kind.Setting? && Guarded(was, target, ws[0])) || RollsBack(was, ws[0]))
    && (|ws| == 2 ==>
          && ws[0].kind.Setting? && Guarded(was, target, ws[0])
          && if ws[0].outcome.Done? then Rearchives(target, ws[1]) else RollsBack(was, ws[1]))
  }

  /** A status write and the final archive, both committed. */
  predicate Finished(target: Text, ws: seq<Write>) {
    |ws| == 2 && ws[0].outcome.Done? && ws[1].outcome.Done? && Rearchives(target, ws[1])
  }

  predicate CommittedSet(ws: seq<Write>) {
    ws != [] && ws[0].kind.Setting? && ws[0].outcome.Done?
  }

  /** The unarchive and the status write committed, whatever became of the final archive. */
  predicate Corrected(ws: seq<Write>) {
    ws != [] && ws[0].outcome.Done? && CommittedSet(ws[1..])
  }

  predicate Reconciled(target: Text, ws: seq<Write>) {
    |ws| == 3 && ws[0].outcome.Done? && Finished(target, ws[1..])
  }

  lemma NewWritesGuarded(start: seq<Write>, before: seq<Write>, after: seq<Write>, was: Text, target: Text)
    requires start <= before && before <= after && Sequence(was, target, after[|before|..])
    requires forall w :: w in before[|start|..] ==> exists s :: Guarded(s, target, w)
    ensures forall w :: w in after[|start|..] ==> exists s :: Guarded(s, target, w)
  {
    var ws := after[|before|..];
    assert after[|start|..] == before[|start|..] + ws;
    assert forall i :: 0 < i < |ws| ==> ws[i] == ws[1..][i - 1];
    assert forall i :: 0 <= i < |ws| ==> Guarded(was, target, ws[i]);
  }

  // ---- the outcome of a batch ----

  /** Indeterminate wins over partial, partial over completed, completed over no-op. */
  function Overall(items: seq<ItemOutcome>): ItemOutcome {
    if Unknown in items then Unknown
    else if Partial in items then Partial
    else if Completed in items then Completed
    else NoOp
  }

  /** computeReconciliationOutcome. */
  method ComputeOutcome(items: seq<ItemOutcome>) returns (r: ItemOutcome)
    ensures r == Overall(items)
  {
    var hasCompleted, hasPartial, hasUnknown := false, false, false;
    for i := 0 to |items|
      invariant hasCompleted <==> Completed in items[..i]
      invariant hasPartial <==> Partial in items[..i]
      invariant hasUnknown <==> Unknown in items[..i]
    {
      assert items[..i + 1] == items[..i] + [items[i]];
      match items[i]
      case Completed => hasCompleted := true;
      case Partial => hasPartial := true;
      case Unknown => hasUnknown := true;
      case NoOp =>
    }
    assert items[..|items|] == items;
    if hasUnknown {
      return Unknown;
    }
    if hasPartial {
      return Partial;
    }
    return if hasCompleted then Completed else NoOp;
  }

  lemma Regroup(h: seq<Files>, a: Files, b: Files, rest: seq<Files>)
    ensures h + [a] + [b] + rest == h + ([a, b] + rest) && h + [a] + [b] + rest == h + ([a] + [b] + rest)
  {}

  /** The file states of one set step. */
  function SetRun(files: Files, p: Path, updated: File, f: Faults): seq<Files>
    requires p in files
  {
    var a := Replace(files, p, updated, f.write);
    [a] + if f.write.Written? && !f.indexed then [Replace(a, p, files[p], f.undoWrite)] else []
  }

  lemma SetConserves(files: Files, p: Path, status: Text, key: Text, rest: Text, f: Faults)
    requires p in files && files[p].Parsed?
    ensures AllConserve(files, p, SetRun(files, p, Parsed(SetFront(files[p].fm, status, key, rest), files[p].body), f))
  {
    var run := SetRun(files, p, Parsed(SetFront(files[p].fm, status, key, rest), files[p].body), f);
    forall i | 0 <= i < |run| ensures Conserves(files, p, run[i]) {
      HeldAt(files, p, run[i], p);
    }
  }

  // ---- an undisturbed reconciliation ----

  /** The item has exactly one readable file, at p. */
  ghost predicate Alone(files: Files, item: Text, p: Path) {
    ItemAt(files, p, item) && forall q :: ItemAt(files, q, item) ==> q == p
  }

  /** The item is archived with another status than the target and was not reconciled with that key; it
      can be restored out of the archive and archived again without meeting another file. */
  ghost predicate Reconcilable(files: Files, item: Text, p: Path, target: Text, key: Text) {
    && Alone(files, item, p) && ValidStatus(target)
    && var fm := files[p].fm;
       && fm.status == ARCHIVED && ValidStatus(fm.archivedStatus) && !IsNoOp(fm, target, key) && fm.from.Some?
       && var home := RestoreTarget(p, fm.from.value);
          home.dir != ArchiveDir && home !in files && (ArchivePath(home) in files ==> ArchivePath(home) == p)
  }

  /** The item lies outside the archive with this status, and its place in the archive is free. */
  ghost predicate AtHome(files: Files, item: Text, home: Path, status: Text, target: Text) {
    && Alone(files, item, home) && files[home].fm.status == status && ValidStatus(target)
    && home.dir != ArchiveDir && ArchivePath(home) !in files
  }

  predicate FaultFree(f: Faults) {
    f.move.Moved? && f.write.Written? && f.removed && f.indexed
  }

  /** The archive after a status write was attempted, whether it is the final one or the rollback,
      unless the outcome of the status write is uncertain. */
  predicate TailAttempted(ws: seq<Write>) {
    ws != [] && ws[0].kind.Setting? && (ws[0].outcome.Indeterminate? || |ws| == 2)
  }

  predicate Attempted(ws: seq<Write>) {
    ws != [] && (ws[0].outcome.Done? ==> TailAttempted(ws[1..]))
  }

  lemma NotReconcilable(files: Files, item: Text, target: Text, key: Text)
    ensures Missing(files, item) ==> forall p :: !Reconcilable(files, item, p, target, key)
  {}

  lemma ReconcilableFacts(files: Files, item: Text, p: Path, target: Text, key: Text)
    requires ItemAt(files, p, item)
    ensures (exists q :: Reconcilable(files, item, q, target, key)) ==>
      && Reconcilable(files, item, p, target, key)
      && files[p].fm.status == ARCHIVED && files[p].fm.archivedStatus != [] && !IsNoOp(files[p].fm, target, key)
  {
    if q :| Reconcilable(files, item, q, target, key) {
      StatusIsNotEmpty(files[q].fm.archivedStatus);
    }
  }

  /** Undisturbed, the unarchive is not refused, and without a fault it is done. */
  lemma UnarchiveProceeds(files: Files, item: Text, p: Path, at: Option<Path>, target: Text, key: Text, f: Faults)
    requires Reconcilable(files, item, p, target, key)
    requires at.Some? ==> ItemAt(files, at.value, item)
    requires at.None? ==>
      || Missing(files, item)
      || exists q :: ItemAt(files, q, item)
           && (Unarchived(files, q).None?
               || !(files[q].fm.status == ARCHIVED && files[q].fm.archivedStatus == files[p].fm.archivedStatus))
    ensures at == Some(p)
    ensures FaultFree(f) ==> UnarchiveOutcome(p, RestoreTarget(p, files[p].fm.from.value), f).Done?
  {
    assert Unarchived(files, p).Some?;
  }

  /** The restored item is at home. */
  lemma ComesHome(files: Files, item: Text, p: Path, target: Text, key: Text, after: Files) returns (home: Path)
    requires Reconcilable(files, item, p, target, key) && Unarchived(files, p) == Some(after)
    ensures AtHome(after, item, home, files[p].fm.archivedStatus, target)
  {
    home := RestoreTarget(p, files[p].fm.from.value);
    assert forall q :: q != home && q != p ==> (ItemAt(after, q, item) <==> ItemAt(files, q, item));
    StatusIsNotEmpty(files[p].fm.archivedStatus);
  }

  lemma SetProceeds(files: Files, item: Text, home: Path, was: Text, target: Text, at: Option<Path>)
    requires AtHome(files, item, home, was, target)
    requires at.Some? ==> ItemAt(files, at.value, item)
    requires at.None? ==>
      Missing(files, item) || exists q :: ItemAt(files, q, item) && (q.dir == ArchiveDir || files[q].fm.status != was)
    ensures at == Some(home)
  {}

  /** The status write leaves the item at home. */
  lemma StaysHome(files: Files, item: Text, home: Path, was: Text, target: Text, key: Text, rest: Text)
    requires AtHome(files, item, home, was, target)
    ensures var after := files[home := Parsed(SetFront(files[home].fm, target, key, rest), files[home].body)];
            AtHome(after, item, home, target, target)
  {
    var after := files[home := Parsed(SetFront(files[home].fm, target, key, rest), files[home].body)];
    assert forall q :: q != home ==> (ItemAt(after, q, item) <==> ItemAt(files, q, item));
  }

  /** Undisturbed, the archive is not refused, and without a fault it is done. */
  lemma ArchiveProceeds(files: Files, item: Text, home: Path, status: Text, target: Text, at: Option<Path>, f: Faults)
    requires AtHome(files, item, home, status, target)
    requires at.Some? ==> ItemAt(files, at.value, item)
    requires at.None? ==>
      Missing(files, item) || exists q :: ItemAt(files, q, item) && (files[q].fm.status != status || !Admitted(files, q))
    ensures at == Some(home) && (FaultFree(f) ==> ArchiveOutcome(files, home, f).Done?)
  {}

  /** What the set step writes: the status, the reconciliation key, and refreshed other fields. */
  function SetFront(fm: Front, status: Text, key: Text, rest: Text): Front {
    fm.(status := status, key := if key != [] then key else fm.key, rest := rest)
  }

  /** A corrected item that was archived again is a no-op for every further call with the same
      target, and for every one with the same key; a call without a key keeps the one before. */
  lemma RetryIsNoOp(fm: Front, target: Text, key: Text, rest: Text, src: Path, other: Text)
    requires target != [] && target != ARCHIVED
    ensures var again := Stamp(SetFront(fm, target, key, rest), src);
      && IsNoOp(again, target, other)
      && (key != [] ==> IsNoOp(again, other, key))
      && (key == [] && other != [] && other != target ==> (IsNoOp(again, other, fm.key) <==> fm.key != []))
      && again.id == fm.id && again.title == fm.title && again.rest == rest
  {}
}
