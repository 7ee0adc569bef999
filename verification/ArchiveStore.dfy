/** The artifact files as archive and unarchive see them, the file states each operation goes
    through under every combination of step failures, and what is conserved in all of them. */
module ArchiveStore {
  import opened Bytes
  import opened Options

  /** The directories that matter: the archive, the queue root, and any other one. */
  datatype Dir = ArchiveDir | QueueRoot | OtherDir(name: Text)
  datatype Path = Path(dir: Dir, base: Text)

  /** Frontmatter: an absent string field is []; rest stands for every other field. */
  datatype Front = Front(id: Text, title: Text, status: Text, from: Option<Path>, archivedStatus: Text,
                         key: Text, rest: Text)

  /** A Markdown artifact, or bytes that do not parse. */
  datatype File = Parsed(fm: Front, body: Text) | Garbage

  type Files = map<Path, File>

  /** "archived" and "queued". */
  const ARCHIVED: Text := [97, 114, 99, 104, 105, 118, 101, 100]
  const QUEUED: Text := [113, 117, 101, 117, 101, 100]

  /** The other statuses an artifact can have. */
  const ACTIVE: Text := [97, 99, 116, 105, 118, 101]
  const BLOCKED: Text := [98, 108, 111, 99, 107, 101, 100]
  const REVIEW: Text := [114, 101, 118, 105, 101, 119]
  const DONE: Text := [100, 111, 110, 101]
  const ACCEPTED: Text := [97, 99, 99, 101, 112, 116, 101, 100]
  const REJECTED: Text := [114, 101, 106, 101, 99, 116, 101, 100]
  const SHIPPED: Text := [115, 104, 105, 112, 112, 101, 100]
  const ABANDONED: Text := [97, 98, 97, 110, 100, 111, 110, 101, 100]

  predicate ValidStatus(status: Text) {
    || status == QUEUED || status == ACTIVE || status == BLOCKED || status == REVIEW || status == DONE
    || status == ACCEPTED || status == REJECTED || status == ARCHIVED || status == SHIPPED || status == ABANDONED
  }

  /** parseFile: an artifact must also validate; bytes that do not, or whose status is none of the
      ten, are skipped by every lookup. */
  predicate Readable(file: File) {
    file.Parsed? && ValidStatus(file.fm.status)
  }

  /** A lookup finds exactly the artifacts with one of ten statuses, here in letters. */
  lemma StatusesSpelledOut(file: File)
    ensures Readable(file) <==>
              file.Parsed?
              && file.fm.status in {Ascii("queued"), Ascii("active"), Ascii("blocked"), Ascii("review"), Ascii("done"),
                                    Ascii("accepted"), Ascii("rejected"), Ascii("archived"), Ascii("shipped"), Ascii("abandoned")}
    ensures ARCHIVED == Ascii("archived") && QUEUED == Ascii("queued")
  {
    assert QUEUED == Ascii("queued") && ACTIVE == Ascii("active") && BLOCKED == Ascii("blocked") && REVIEW == Ascii("review");
    assert DONE == Ascii("done") && ACCEPTED == Ascii("accepted") && REJECTED == Ascii("rejected");
    assert ARCHIVED == Ascii("archived") && SHIPPED == Ascii("shipped") && ABANDONED == Ascii("abandoned");
    hide Ascii;
  }

  function Ascii(s: string): Text {
    seq(|s|, i requires 0 <= i < |s| => if s[i] <= '~' then s[i] as int else 0)
  }

  lemma StatusIsNotEmpty(status: Text)
    requires ValidStatus(status)
    ensures status != []
  {}

  function ArchivePath(src: Path): Path {
    Path(ArchiveDir, src.base)
  }

  /** canonicalRestorePath. */
  function RestorePath(p: Path): Path {
    Path(QueueRoot, p.base)
  }

  // ---- what archiving and unarchiving write ----

  function Stamp(fm: Front, src: Path): Front {
    fm.(from := Some(if src == ArchivePath(src) then RestorePath(src) else src),
        archivedStatus := if fm.status == ARCHIVED && fm.archivedStatus != [] then fm.archivedStatus else fm.status,
        status := ARCHIVED)
  }

  function Restore(fm: Front): Front {
    fm.(from := None, archivedStatus := [],
        status := if fm.archivedStatus == [] then QUEUED else fm.archivedStatus)
  }

  /** Where unarchive puts the item; a record that names its own archive path is healed. */
  function RestoreTarget(p: Path, from: Path): Path {
    if from == p then RestorePath(p) else from
  }

  // ---- steps, with the outcomes they can have ----

  /** replaceFileWithOptions: an uncertain write is one whose rename was committed. */
  datatype WriteOutcome = Written | NotWritten | Uncertain
  /** git mv: it refuses an existing destination, and can fail after the rename. */
  datatype MoveOutcome = Moved | NotMoved | MovedButFailed
  /** os.WriteFile, which truncates before it writes. */
  datatype InPlaceOutcome = Stored | NotOpened | Torn

  function Replace(files: Files, p: Path, file: File, o: WriteOutcome): Files {
    if o.NotWritten? then files else files[p := file]
  }

  function Move(files: Files, src: Path, dst: Path, o: MoveOutcome): Files {
    if o.NotMoved? || src !in files || dst in files then files else (files - {src})[dst := files[src]]
  }

  function Remove(files: Files, p: Path, removed: bool): Files {
    if removed then files - {p} else files
  }

  /** Every step outcome of one archive or unarchive; a fault-free record is a success. */
  datatype Faults = Faults(
    git: bool, move: MoveOutcome, write: WriteOutcome, removed: bool, indexed: bool,
    undoWrite: WriteOutcome, undoMove: MoveOutcome, undoRemoved: bool, inPlace: InPlaceOutcome)

  /** rollbackGitArtifactMove: both steps are best-effort. */
  function GitRollback(files: Files, moved: Path, home: Path, raw: File, f: Faults): seq<Files> {
    var a := Replace(files, moved, raw, f.undoWrite);
    [a, Move(a, moved, home, f.undoMove)]
  }

  // ---- archive ----

  function UsesGit(files: Files, src: Path, f: Faults): bool {
    f.git && src != ArchivePath(src) && ArchivePath(src) !in files
  }

  /** The file states an archive of the file at src goes through after its checks passed. */
  function ArchiveRun(files: Files, src: Path, f: Faults): seq<Files>
    requires src in files && files[src].Parsed?
  {
    var dst, raw := ArchivePath(src), files[src];
    var stamped := Parsed(Stamp(raw.fm, src), raw.body);
    if UsesGit(files, src, f) then
      var a := Move(files, src, dst, f.move);
      if !f.move.Moved? then [a]
      else
        var b := Replace(a, dst, stamped, f.write);
        [a, b] + if f.write.Written? && f.indexed then [] else GitRollback(b, dst, src, raw, f)
    else
      var a := Replace(files, dst, stamped, f.write);
      if !f.write.Written? then [a]
      else if src != dst && !f.removed then [a, a, Remove(a, dst, f.undoRemoved)]
      else
        var b := if src != dst then a - {src} else a;
        [a] + (if src != dst then [b] else [])
        + if f.indexed then [] else RestoreInPlace(b, src, dst, raw, f)
  }

  /** The rollback of a plain archive after an index failure: os.WriteFile, then removal. */
  function RestoreInPlace(files: Files, src: Path, dst: Path, raw: File, f: Faults): seq<Files> {
    match f.inPlace
    case NotOpened => [files]
    case Torn => [files[src := Garbage]]
    case Stored =>
      [files[src := Garbage], files[src := raw]]
      + if src != dst then [Remove(files[src := raw], dst, f.undoRemoved)] else []
  }

  predicate ArchiveSucceeds(files: Files, src: Path, f: Faults) {
    && f.write.Written? && f.indexed
    && (if UsesGit(files, src, f) then f.move.Moved? else src == ArchivePath(src) || f.removed)
  }

  /** What a failed archive of the file at src leaves. A failure with undo steps that all succeed
      leaves every file as it was, except that a plain archive over a half-archived copy removes
      that copy. A definite write failure has nothing to undo. Two results are not undone: a git
      move that failed after the rename, and a plain write of uncertain outcome. */
  ghost predicate ArchiveUndone(before: Files, src: Path, f: Faults, after: Files)
    requires src in before && before[src].Parsed?
  {
    var dst := Path(ArchiveDir, src.base);
    if f.git && src != dst && dst !in before then
      match f.move
      case NotMoved => after == before
      case MovedButFailed => after == (before - {src})[dst := before[src]]
      case Moved => f.undoWrite.NotWritten? || f.undoMove.NotMoved? || after == before
    else if f.write.NotWritten? then after == before
    else if f.write.Uncertain? then after == before[dst := Parsed(Stamp(before[src].fm, src), before[src].body)]
    else if src == dst then f.inPlace.Stored? ==> after == before
    else f.undoRemoved && (f.removed ==> f.inPlace.Stored?) ==> after == before - {dst}
  }

  lemma FailedArchiveIsUndone(files: Files, src: Path, f: Faults)
    requires src in files && files[src].Parsed? && !ArchiveSucceeds(files, src, f)
    ensures var run := ArchiveRun(files, src, f);
            run != [] && ArchiveUndone(files, src, f, run[|run| - 1])
  {
    var dst, run := ArchivePath(src), ArchiveRun(files, src, f);
    var last := run[|run| - 1];
    if UsesGit(files, src, f) {
      if f.move.Moved? && !f.undoWrite.NotWritten? && !f.undoMove.NotMoved? {
        assert last == files;
      }
    } else if f.write.Written? {
      if src == dst && f.inPlace.Stored? {
        assert last == files;
      } else if src != dst && f.undoRemoved && (f.removed ==> f.inPlace.Stored?) {
        assert last == files - {dst};
      }
    }
  }

  // ---- unarchive ----

  /** The file states an unarchive of the file at p to `target` goes through. */
  function UnarchiveRun(files: Files, p: Path, target: Path, f: Faults): seq<Files>
    requires p in files && files[p].Parsed?
  {
    var raw := files[p];
    var restored := Parsed(Restore(raw.fm), raw.body);
    if f.git && p != target then
      var a := Move(files, p, target, f.move);
      if !f.move.Moved? then [a]
      else
        var b := Replace(a, target, restored, f.write);
        [a, b] + if f.write.NotWritten? || (f.write.Written? && !f.indexed) then GitRollback(b, target, p, raw, f) else []
    else
      var a := Replace(files, target, restored, f.write);
      if f.write.NotWritten? then [a]
      else if p != target && !f.removed then [a, a]
      else
        var b := if p != target then a - {p} else a;
        [a] + (if p != target then [b] else [])
        + if f.write.Uncertain? || f.indexed then [] else ReturnToArchive(b, p, target, raw, f)
  }

  /** restoreArchiveAfterUnarchiveFailure. */
  function ReturnToArchive(files: Files, p: Path, target: Path, raw: File, f: Faults): seq<Files> {
    var a := Replace(files, p, raw, f.undoWrite);
    if !f.undoWrite.Written? || p == target then [a] else [a, Remove(a, target, f.undoRemoved)]
  }

  /** What a failed unarchive of the file at p leaves. A failure with undo steps that all succeed
      leaves every file as it was; after a plain write the archive file is put back before the
      restored one is removed, and only if putting it back was certain. Two failures have no undo:
      a git move that failed after the rename, and an archive file that could not be removed. */
  ghost predicate UnarchiveUndone(before: Files, p: Path, target: Path, f: Faults, after: Files)
    requires p in before && before[p].Parsed?
  {
    if f.git && p != target then
      match f.move
      case NotMoved => after == before
      case MovedButFailed => after == (before - {p})[target := before[p]]
      case Moved => f.undoWrite.NotWritten? || f.undoMove.NotMoved? || after == before
    else if f.write.NotWritten? then after == before
    else if p != target && !f.removed then after == before[target := Parsed(Restore(before[p].fm), before[p].body)]
    else if p == target then f.undoWrite.NotWritten? || after == before
    else f.undoWrite.Written? && f.undoRemoved ==> after == before
  }

  lemma FailedUnarchiveIsUndone(files: Files, p: Path, target: Path, f: Faults)
    requires p in files && files[p].Parsed? && (target == p || target !in files)
    requires !UnarchiveSucceeds(p, target, f)
    ensures var run := UnarchiveRun(files, p, target, f);
            run != [] && UnarchiveUndone(files, p, target, f, run[|run| - 1])
  {
    var run := UnarchiveRun(files, p, target, f);
    var last := run[|run| - 1];
    if f.git && p != target {
      if f.move.Moved? && !f.undoWrite.NotWritten? && !f.undoMove.NotMoved? {
        assert last == files;
      }
    } else if !f.write.NotWritten? {
      if p == target && !f.undoWrite.NotWritten? {
        assert last == files;
      } else if p != target && f.removed && f.undoWrite.Written? && f.undoRemoved {
        assert last == files;
      }
    }
  }

  // ---- conservation ----

  predicate SameItem(file: File, fm: Front) {
    file.Parsed? && file.fm.id == fm.id && file.fm.title == fm.title
  }

  /** Some file still holds the item's id, title and body. */
  ghost predicate Holds(files: Files, fm: Front, body: Text) {
    exists p :: p in files && SameItem(files[p], fm) && files[p].body == body
  }

  /** The item at src is still held somewhere, and every file of another item is untouched. */
  ghost predicate Conserves(before: Files, src: Path, after: Files)
    requires src in before && before[src].Parsed?
  {
    && Holds(after, before[src].fm, before[src].body)
    && (forall p :: p in before && !SameItem(before[p], before[src].fm) ==> p in after && after[p] == before[p])
  }

  /** The destination is free, or is a half-archived copy of the same item: what the occupancy
      check of ArchiveItem lets through. */
  predicate Admitted(files: Files, src: Path)
    requires src in files && files[src].Parsed?
  {
    ArchivePath(src) in files ==>
      var occupant := files[ArchivePath(src)];
      Readable(occupant) && occupant.fm.id == files[src].fm.id && occupant.fm.title == files[src].fm.title
  }

  ghost predicate AllConserve(before: Files, src: Path, run: seq<Files>)
    requires src in before && before[src].Parsed?
  {
    forall i :: 0 <= i < |run| ==> Conserves(before, src, run[i])
  }

  /** A state that differs from `before` only in copies of the item, one of them at p. */
  lemma HeldAt(before: Files, src: Path, after: Files, p: Path)
    requires src in before && before[src].Parsed?
    requires p in after && SameItem(after[p], before[src].fm) && after[p].body == before[src].body
    requires forall q :: q in before && !SameItem(before[q], before[src].fm) ==> q in after && after[q] == before[q]
    ensures Conserves(before, src, after)
  {}

  /** Archiving a file that is not yet in the archive directory conserves, in every state and
      under every fault. */
  lemma ArchiveConserves(files: Files, src: Path, f: Faults)
    requires src in files && files[src].Parsed? && Admitted(files, src) && src.dir != ArchiveDir
    ensures AllConserve(files, src, ArchiveRun(files, src, f))
  {
    if UsesGit(files, src, f) {
      GitArchiveConserves(files, src, f);
    } else {
      PlainArchiveConserves(files, src, f);
    }
  }

  lemma GitArchiveConserves(files: Files, src: Path, f: Faults)
    requires src in files && files[src].Parsed? && UsesGit(files, src, f)
    ensures AllConserve(files, src, ArchiveRun(files, src, f))
  {
    var dst, run := ArchivePath(src), ArchiveRun(files, src, f);
    forall i | 0 <= i < |run| ensures Conserves(files, src, run[i]) {
      HeldAt(files, src, run[i], if dst in run[i] then dst else src);
    }
  }

  lemma PlainArchiveConserves(files: Files, src: Path, f: Faults)
    requires src in files && files[src].Parsed? && Admitted(files, src) && src.dir != ArchiveDir
    requires !UsesGit(files, src, f)
    ensures AllConserve(files, src, ArchiveRun(files, src, f))
  {
    var dst, run := ArchivePath(src), ArchiveRun(files, src, f);
    forall i | 0 <= i < |run| ensures Conserves(files, src, run[i]) {
      HeldAt(files, src, run[i], if src in run[i] && run[i][src] == files[src] then src else dst);
    }
  }

  /** Archiving in place conserves under every fault exactly when another file holds the item:
      its rollback after an index failure truncates the only copy before rewriting it. */
  lemma InPlaceConserves(files: Files, src: Path)
    requires src in files && files[src].Parsed? && src.dir == ArchiveDir
    ensures (forall f :: AllConserve(files, src, ArchiveRun(files, src, f)))
       <==> Holds(files - {src}, files[src].fm, files[src].body)
  {
    var raw := files[src];
    if Holds(files - {src}, raw.fm, raw.body) {
      var q :| q in files - {src} && SameItem(files[q], raw.fm) && files[q].body == raw.body;
      forall f ensures AllConserve(files, src, ArchiveRun(files, src, f)) {
        var run := ArchiveRun(files, src, f);
        forall i | 0 <= i < |run| ensures Conserves(files, src, run[i]) {
          HeldAt(files, src, run[i], q);
        }
      }
    } else {
      var torn := Faults(false, Moved, Written, true, false, Written, Moved, true, Torn);
      var run := ArchiveRun(files, src, torn);
      assert run[1] == files[src := Garbage];
      assert !Holds(run[1], raw.fm, raw.body) by {
        assert forall q :: q in run[1] && q != src ==> q in files - {src} && (files - {src})[q] == run[1][q];
      }
      assert !Conserves(files, src, run[1]);
    }
  }

  /** Unarchiving conserves in every state and under every fault. */
  lemma UnarchiveConserves(files: Files, p: Path, target: Path, f: Faults)
    requires p in files && files[p].Parsed? && (target == p || target !in files)
    ensures AllConserve(files, p, UnarchiveRun(files, p, target, f))
  {
    if f.git && p != target {
      GitUnarchiveConserves(files, p, target, f);
    } else {
      PlainUnarchiveConserves(files, p, target, f);
    }
  }

  lemma GitUnarchiveConserves(files: Files, p: Path, target: Path, f: Faults)
    requires p in files && files[p].Parsed? && target !in files && f.git
    ensures AllConserve(files, p, UnarchiveRun(files, p, target, f))
  {
    var run := UnarchiveRun(files, p, target, f);
    forall i | 0 <= i < |run| ensures Conserves(files, p, run[i]) {
      HeldAt(files, p, run[i], if target in run[i] then target else p);
    }
  }

  lemma PlainUnarchiveConserves(files: Files, p: Path, target: Path, f: Faults)
    requires p in files && files[p].Parsed? && (target == p || (target !in files && !f.git))
    ensures AllConserve(files, p, UnarchiveRun(files, p, target, f))
  {
    var run := UnarchiveRun(files, p, target, f);
    forall i | 0 <= i < |run| ensures Conserves(files, p, run[i]) {
      HeldAt(files, p, run[i], if target in run[i] then target else p);
    }
  }

  // ---- success, and the round trip ----

  /** The files after a successful archive of the file at src. */
  function Archived(files: Files, src: Path): Files
    requires src in files && files[src].Parsed?
  {
    (files - {src})[ArchivePath(src) := Parsed(Stamp(files[src].fm, src), files[src].body)]
  }

  /** The files after a successful unarchive of the file at p; None when it is refused. */
  function Unarchived(files: Files, p: Path): Option<Files>
    requires p in files && files[p].Parsed?
  {
    var fm := files[p].fm;
    if fm.from.None? then None
    else
      var target := RestoreTarget(p, fm.from.value);
      if target != p && target in files then None
      else Some((files - {p})[target := Parsed(Restore(fm), files[p].body)])
  }

  /** Without a failed step, a run ends in the successful state. */
  lemma ArchiveRunSucceeds(files: Files, src: Path, f: Faults)
    requires src in files && files[src].Parsed? && ArchiveSucceeds(files, src, f)
    ensures var run := ArchiveRun(files, src, f);
            run != [] && run[|run| - 1] == Archived(files, src)
  {
    var dst, run := ArchivePath(src), ArchiveRun(files, src, f);
    assert run[|run| - 1] == Archived(files, src);
  }

  predicate UnarchiveSucceeds(p: Path, target: Path, f: Faults) {
    && !f.write.NotWritten? && (f.write.Uncertain? || f.indexed)
    && (p == target || (if f.git then f.move.Moved? else f.removed))
  }

  lemma UnarchiveRunSucceeds(files: Files, p: Path, f: Faults)
    requires p in files && files[p].Parsed? && Unarchived(files, p).Some?
    requires UnarchiveSucceeds(p, RestoreTarget(p, files[p].fm.from.value), f)
    ensures var run := UnarchiveRun(files, p, RestoreTarget(p, files[p].fm.from.value), f);
            run != [] && run[|run| - 1] == Unarchived(files, p).value
  {
    var run := UnarchiveRun(files, p, RestoreTarget(p, files[p].fm.from.value), f);
    assert run[|run| - 1] == Unarchived(files, p).value;
  }

  /** n further archives of the file at p, which is in the archive already. */
  function Rearchived(files: Files, p: Path, n: nat): (r: Files)
    requires p in files && files[p].Parsed? && p.dir == ArchiveDir
    ensures p in r && r[p].Parsed?
  {
    if n == 0 then files else Rearchived(Archived(files, p), p, n - 1)
  }

  lemma {:induction false} RearchivedFront(files: Files, p: Path, n: nat)
    requires p in files && files[p].Parsed? && p.dir == ArchiveDir && files[p].fm.status == ARCHIVED
    ensures Rearchived(files, p, n) ==
              files[p := if n == 0 then files[p] else Parsed(Stamp(files[p].fm, p), files[p].body)]
  {
    if n == 0 {
      assert files[p := files[p]] == files;
    } else {
      RearchivedFront(Archived(files, p), p, n - 1);
    }
  }

  /** An item that can be found and was never archived. */
  predicate Live(fm: Front) {
    fm.from.None? && fm.archivedStatus == [] && fm.status != ARCHIVED && ValidStatus(fm.status)
  }

  predicate RoundTrips(files: Files, src: Path, n: nat)
    requires src in files && files[src].Parsed?
  {
    Unarchived(Rearchived(Archived(files, src), ArchivePath(src), n), ArchivePath(src)) == Some(files)
  }

  /** Archive, archive again n times, unarchive: this gives back every file exactly as it was if
      and only if the item was at the queue root or archived only once. */
  lemma RoundTrip(files: Files, src: Path, n: nat)
    requires src in files && files[src].Parsed? && Live(files[src].fm)
    requires src.dir != ArchiveDir && ArchivePath(src) !in files
    ensures RoundTrips(files, src, n) <==> n == 0 || src.dir == QueueRoot
  {
    var p, fm := ArchivePath(src), files[src].fm;
    StatusIsNotEmpty(fm.status);
    hide ValidStatus;
    var once := Archived(files, src);
    RearchivedFront(once, p, n);
    var many := Rearchived(once, p, n);
    var target := if n == 0 then src else RestorePath(p);
    assert many[p].fm.from == Some(target);
    var back := Unarchived(many, p);
    if n == 0 || src.dir == QueueRoot {
      assert target == src;
      assert back.value == files;
    } else if back.Some? {
      assert target in back.value && target != src;
      assert src !in back.value;
    }
  }

  /** The item itself, whatever else is in the store: its frontmatter always comes back, to its own
      place after one archive and to the queue root after more. */
  lemma RoundTripOfItem(fm: Front, src: Path, n: nat)
    requires Live(fm) && src.dir != ArchiveDir
    ensures var p := ArchivePath(src);
      var once := Stamp(fm, src);
      && Restore(if n == 0 then once else Stamp(once, p)) == fm
      && (n == 0 ==> RestoreTarget(p, once.from.value) == src)
      && (n > 0 ==> RestoreTarget(p, Stamp(once, p).from.value) == Path(QueueRoot, src.base))
  {
    StatusIsNotEmpty(fm.status);
    hide ValidStatus;
  }

  /** A record archived before archived_status was kept. */
  predicate Legacy(fm: Front) {
    fm.status == ARCHIVED && fm.archivedStatus == [] && fm.from.Some?
  }

  /** Where the file at p is restored to after n more archives, and what it is restored as. */
  lemma LegacyRoundTrip(files: Files, p: Path, n: nat)
    requires p in files && files[p].Parsed? && p.dir == ArchiveDir && Legacy(files[p].fm)
    ensures var fm := files[p].fm;
      var target := if n == 0 then RestoreTarget(p, fm.from.value) else RestorePath(p);
      var back := Unarchived(Rearchived(files, p, n), p);
      && (back.None? <==> target != p && target in files)
      && (back.Some? ==>
            && back.value == (files - {p})[target := Parsed(fm.(from := None, status := if n == 0 then QUEUED else ARCHIVED), files[p].body)]
            && (n > 0 ==> Unarchived(back.value, target) == None))
  {
    RearchivedFront(files, p, n);
    var many := Rearchived(files, p, n);
    var fm := files[p].fm;
    var target := if n == 0 then RestoreTarget(p, fm.from.value) else RestorePath(p);
    assert many.Keys == files.Keys;
    assert many - {p} == files - {p};
    assert Restore(many[p].fm) == fm.(from := None, status := if n == 0 then QUEUED else ARCHIVED);
  }
}
