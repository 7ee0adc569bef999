/** The atomic file write: a temporary file, an optional fsync, a rename, an optional directory
    fsync; what a reader, a crash and a power loss can see of it. */
module AtomicWrite {
  import opened Bytes
  import opened Options

  datatype Bits = Bits(r: bool, w: bool, x: bool)
  datatype Mode = Mode(user: Bits, group: Bits, other: Bits)
  datatype File = File(bytes: Text, mode: Mode)

  /** 0o644 and 0o600. */
  const DEFAULT_MODE := Mode(Bits(true, true, false), Bits(true, false, false), Bits(true, false, false))
  const TEMP_MODE := Mode(Bits(true, true, false), Bits(false, false, false), Bits(false, false, false))

  /** perm &^ 0o022. */
  function Clamp(m: Mode): Mode {
    m.(group := m.group.(w := false), other := m.other.(w := false))
  }

  datatype Outcome = Ok | NotApplied | Indeterminate

  function Lookup(names: map<Text, nat>, path: Text): Option<nat> {
    if path in names then Some(names[path]) else None
  }

  /** A directory: names to inodes and inodes to files as running programs see them; `saved` is
      the name table on the disk and `synced` the inodes whose content and mode are on it. */
  datatype Disk = Disk(names: map<Text, nat>, files: map<nat, File>, saved: map<Text, nat>, synced: set<nat>)

  ghost predicate Good(d: Disk) {
    && (forall n :: n in d.names ==> d.names[n] in d.files)
    && (forall n :: n in d.saved ==> d.saved[n] in d.files)
    && d.synced <= d.files.Keys
  }

  /** The file a reader of the path gets. */
  function View(d: Disk, path: Text): Option<File>
    requires Good(d)
  {
    if path in d.names then Some(d.files[d.names[path]]) else None
  }

  /** Every other name still leads to the same file, and only the temporary name may be new. */
  ghost predicate OthersKept(d: Disk, e: Disk, path: Text, temp: Option<Text>) {
    && (forall n :: n in d.names && n != path ==> n in e.names && e.names[n] == d.names[n])
    && (forall n :: n in e.names && n != path && Some(n) != temp ==> n in d.names)
    && (forall i :: i in d.files ==> i in e.files && e.files[i] == d.files[i])
  }

  /** Before the rename: e is d with the file under construction at a new name and inode. */
  ghost predicate Staged(d: Disk, e: Disk, path: Text, t: Text, ino: nat, file: File) {
    && Good(d) && t !in d.names && t != path && ino !in d.files
    && e.names == d.names[t := ino] && e.files == d.files[ino := file]
    && e.saved == d.saved && (e.synced == d.synced || e.synced == d.synced + {ino})
  }

  lemma StagedIsInvisible(d: Disk, e: Disk, path: Text, t: Text, ino: nat, file: File)
    requires Staged(d, e, path, t, ino, file)
    ensures Good(e) && View(e, path) == View(d, path) && OthersKept(d, e, path, Some(t))
    ensures var r := e.(names := e.names - {t});
            Good(r) && View(r, path) == View(d, path) && OthersKept(d, r, path, Some(t))
  {}

  lemma UntouchedIsKept(d: Disk, path: Text, t: Text)
    ensures OthersKept(d, d, path, Some(t))
  {}

  function Renamed(e: Disk, t: Text, path: Text): Disk
    requires t in e.names
  {
    e.(names := (e.names - {t})[path := e.names[t]])
  }

  lemma RenamedIsVisible(d: Disk, e: Disk, path: Text, t: Text, ino: nat, file: File)
    requires Staged(d, e, path, t, ino, file)
    ensures var r := Renamed(e, t, path);
      && Good(r) && View(r, path) == Some(file) && OthersKept(d, r, path, Some(t))
      && r.names[path] == ino && r.saved == d.saved && (ino in r.synced <==> e.synced != d.synced)
      && var s := r.(saved := r.saved[path := ino]);
         Good(s) && View(s, path) == Some(file) && OthersKept(d, s, path, Some(t))
  {
    assert ino !in d.synced;
  }

  /** Since `before`, only these have been visible. */
  ghost predicate Saw(before: seq<Option<File>>, after: seq<Option<File>>, views: set<Option<File>>) {
    before <= after && forall k :: |before| <= k < |after| ==> after[k] in views
  }

  class Directory {
    var disk: Disk
    /** What has been visible at the destination after every step so far. */
    var seen: seq<Option<File>>

    /** writeFileAtomic; `posix` is whether directories can be fsynced, `statted` whether the file there
        can be examined, `removable` whether a temporary file can be removed. Any step may fail, a
        write may be short, and the process may be killed after any step. */
    method WriteFileAtomic(path: Text, data: Text, durable: bool, posix: bool, statted: bool, removable: bool)
      returns (r: Outcome, ghost temp: Option<Text>)
      requires Good(disk)
      modifies this
      ensures Good(disk) && OthersKept(old(disk), disk, path, temp)
      ensures r.NotApplied? ==> View(disk, path) == View(old(disk), path) && disk.saved == old(disk).saved
      ensures r.NotApplied? && removable ==> disk.names == old(disk).names
      ensures !r.NotApplied? ==> NewFile(View(old(disk), path), View(disk, path), data)
      ensures !r.NotApplied? ==>
        var before := View(old(disk), path);
        View(disk, path).value.mode == if statted && before.Some? then Clamp(before.value.mode) else DEFAULT_MODE
      ensures !r.NotApplied? ==> path in disk.names && (disk.names[path] in disk.synced <==> durable)
      ensures r.Ok? ==> Lookup(disk.saved, path) == if durable && posix then Some(disk.names[path]) else Lookup(old(disk).saved, path)
      ensures r.Ok? ==> (Survives(disk, path) <==> durable && (posix || SavedAs(old(disk), path, View(disk, path))))
      ensures Saw(old(seen), seen, if r.NotApplied? then {View(old(disk), path)} else {View(old(disk), path), View(disk, path)})
    {
      temp := None;
      var mode := DEFAULT_MODE;
      if statted && path in disk.names {
        mode := Clamp(disk.files[disk.names[path]].mode);
      }
      ghost var d := disk;
      var staged, t, ino := Stage(path, data, mode, durable, posix, removable);
      var renamed: bool := *;
      if !staged || !renamed {
        if staged {
          StagedIsInvisible(d, disk, path, t, ino, File(data, mode));
          RemoveTemp(path, t, removable);
        }
        temp := Some(t);
        return NotApplied, temp;
      }
      temp := Some(t);
      RenamedIsVisible(d, disk, path, t, ino, File(data, mode));
      assert durable <==> disk.synced != d.synced;
      disk := Renamed(disk, t, path);
      seen := seen + [View(disk, path)];
      if durable && posix {
        var flushed: bool, reached: bool := *, *;
        if flushed || reached {
          disk := disk.(saved := disk.saved[path := ino]);
        }
        if !flushed {
          return Indeterminate, temp;
        }
      }
      PowerLoss(disk, path);
      return Ok, temp;
    }

    /** The steps before the rename: create, write, chmod, fsync, close, and opening the parent
        directory. A failed step leaves at most the temporary file behind. */
    method Stage(path: Text, data: Text, mode: Mode, durable: bool, posix: bool, removable: bool)
      returns (ok: bool, t: Text, ino: nat)
      requires Good(disk)
      modifies this
      ensures ok ==> Staged(old(disk), disk, path, t, ino, File(data, mode)) && (durable <==> disk.synced != old(disk).synced)
      ensures !ok ==> Good(disk) && View(disk, path) == View(old(disk), path) && OthersKept(old(disk), disk, path, Some(t))
      ensures !ok ==> disk.saved == old(disk).saved && (removable ==> disk.names == old(disk).names)
      ensures Saw(old(seen), seen, {View(old(disk), path)})
    {
      hide OthersKept, View;
      t, ino := FreshName(path);
      ghost var d := disk;
      UntouchedIsKept(d, path, t);
      ok := *;
      if !ok {
        return;
      }
      disk := disk.(names := disk.names[t := ino], files := disk.files[ino := File([], TEMP_MODE)]);
      StagedIsInvisible(d, disk, path, t, ino, File([], TEMP_MODE));
      seen := seen + [View(disk, path)];
      AddRemove(d.names, t, ino);
      var n :| 0 <= n;
      var part := if n < |data| then data[..n] else data;
      Update(d, path, t, ino, File([], TEMP_MODE), File(part, TEMP_MODE));
      ok := *;
      if !ok || n < |data| {
        RemoveTemp(path, t, removable);
        return false, t, ino;
      }
      ok := *;
      if ok {
        Update(d, path, t, ino, File(part, TEMP_MODE), File(part, mode));
        if durable {
          ok := *;
          if ok {
            disk := disk.(synced := disk.synced + {ino});
            StagedIsInvisible(d, disk, path, t, ino, File(part, mode));
          }
        }
      }
      if ok {
        ok := *;
      }
      if !ok {
        RemoveTemp(path, t, removable);
      }
    }

    /** Writing to or changing the mode of the temporary file. */
    method Update(ghost d: Disk, path: Text, t: Text, ino: nat, ghost was: File, file: File)
      requires Staged(d, disk, path, t, ino, was)
      modifies this
      ensures disk == old(disk).(files := old(disk).files[ino := file]) && Staged(d, disk, path, t, ino, file)
      ensures Good(disk) && View(disk, path) == View(d, path) && OthersKept(d, disk, path, Some(t))
      ensures seen == old(seen) + [View(d, path)]
      ensures OthersKept(d, disk.(names := disk.names - {t}), path, Some(t))
    {
      disk := disk.(files := disk.files[ino := file]);
      StagedIsInvisible(d, disk, path, t, ino, file);
      seen := seen + [View(disk, path)];
    }

    /** os.CreateTemp: a name and an inode not in use. */
    method FreshName(path: Text) returns (t: Text, ino: nat)
      ensures t !in disk.names && t != path && ino !in disk.files
    {
      SomeFreshName(disk.names.Keys + {path});
      SomeFreshInode(disk.files.Keys);
      t :| t !in disk.names.Keys + {path};
      ino :| ino !in disk.files.Keys;
    }

    /** The deferred removal of the temporary file; its error is ignored. */
    method RemoveTemp(path: Text, t: Text, removable: bool)
      requires Good(disk) && t != path
      modifies this
      ensures disk == if removable then old(disk).(names := old(disk).names - {t}) else old(disk)
      ensures Good(disk) && seen == old(seen) + [View(disk, path)] && View(disk, path) == View(old(disk), path)
    {
      if removable {
        disk := disk.(names := disk.names - {t});
      }
      seen := seen + [View(disk, path)];
    }
  }

  lemma AddRemove(names: map<Text, nat>, t: Text, ino: nat)
    requires t !in names
    ensures names[t := ino] - {t} == names
  {}

  /** The complete new content, at the default mode or the old mode without its group and world
      write bits. */
  predicate NewFile(before: Option<File>, after: Option<File>, data: Text) {
    && after.Some? && after.value.bytes == data
    && (after.value.mode == DEFAULT_MODE || (before.Some? && after.value.mode == Clamp(before.value.mode)))
  }

  /** No file written this way can be written by the group or the world. */
  lemma NewFileIsNotWritable(before: Option<File>, after: Option<File>, data: Text)
    requires NewFile(before, after, data)
    ensures !after.value.mode.group.w && !after.value.mode.other.w
    ensures after.value.mode != DEFAULT_MODE ==> before.Some?
    ensures before.Some? && after.value.mode != DEFAULT_MODE ==>
      var old_, new_ := before.value.mode, after.value.mode;
      && new_.user == old_.user
      && new_.group.r == old_.group.r && new_.group.x == old_.group.x
      && new_.other.r == old_.other.r && new_.other.x == old_.other.x
  {}

  lemma SomeFreshInode(used: set<nat>)
    ensures exists i: nat :: i !in used
  {
    var i := Above(used);
    assert i !in used;
  }

  lemma {:induction false} Above(used: set<nat>) returns (i: nat)
    ensures forall u :: u in used ==> u < i
    decreases |used|
  {
    i := 0;
    if used != {} {
      var u :| u in used;
      i := Above(used - {u});
      assert used == (used - {u}) + {u};
      i := if i <= u then u + 1 else i;
    }
  }

  lemma SomeFreshName(used: set<Text>)
    ensures exists t :: t !in used
  {
    var lengths := set t | t in used :: |t|;
    var i := Above(lengths);
    var t: Text := seq(i, _ => ZERO);
    assert t in used ==> |t| in lengths;
    assert t !in used;
  }

  // ---- power loss ----

  /** What may be found at a path after a power loss: the name as it was saved or as it was last
      seen, and for an inode that was not synced any content at all. */
  ghost predicate Found(d: Disk, path: Text, found: Option<File>) {
    FoundAt(d, Lookup(d.names, path), found) || FoundAt(d, Lookup(d.saved, path), found)
  }

  predicate FoundAt(d: Disk, e: Option<nat>, found: Option<File>) {
    match e
    case None => found.None?
    case Some(i) => found.Some? && (i in d.synced && i in d.files ==> found.value == d.files[i])
  }

  /** Whatever a power loss leaves at the path is what is there now. */
  ghost predicate Survives(d: Disk, path: Text)
    requires Good(d)
  {
    forall found :: Found(d, path, found) ==> found == View(d, path)
  }

  /** The saved name leads to synced content, and it is this file. */
  ghost predicate SavedAs(d: Disk, path: Text, file: Option<File>)
    requires Good(d)
  {
    path in d.saved && d.saved[path] in d.synced && Some(d.files[d.saved[path]]) == file
  }

  /** A file survives every power loss exactly when its inode was synced and the name that may come
      back leads to the same synced content. */
  lemma PowerLoss(d: Disk, path: Text)
    requires Good(d) && path in d.names
    ensures Survives(d, path) <==> d.names[path] in d.synced && SavedAs(d, path, View(d, path))
  {
    var i, now := d.names[path], View(d, path);
    if i !in d.synced {
      Torn(d, path, i);
    } else if path !in d.saved {
      assert Found(d, path, None);
    } else if d.saved[path] !in d.synced {
      Torn(d, path, d.saved[path]);
    } else {
      assert Found(d, path, Some(d.files[d.saved[path]]));
    }
  }

  /** An inode that was not synced may hold anything after a power loss. */
  lemma Torn(d: Disk, path: Text, i: nat)
    requires Good(d) && path in d.names && i !in d.synced
    requires Lookup(d.names, path) == Some(i) || Lookup(d.saved, path) == Some(i)
    ensures exists found :: Found(d, path, found) && found != View(d, path)
  {
    var other := Some(View(d, path).value.(bytes := View(d, path).value.bytes + [ZERO]));
    assert |other.value.bytes| != |View(d, path).value.bytes|;
    assert Found(d, path, other);
  }
}
