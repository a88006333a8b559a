/** Atomic replacement of the workspace file, `write_atomically` of
    src/storage.rs, on a file system that can lose what it has not synced. */
module AtomicFile {
  import opened Options

  datatype Inode = Inode(data: string, synced: bool)

  /** What a file system knows of one path. `entry` is the file that the path
      leads to; `durable` holds what it can lead to after a crash: the entry at the
      last sync of the directory and every later one. `temporary` is the new file. */
  datatype Disk = Disk(inodes: seq<Inode>, entry: Option<nat>, durable: set<Option<nat>>, temporary: Option<nat>)

  /** The step at which a write fails. A failed write can leave a part of the data. */
  datatype Fault = NoFault | EncodeFails | CreateFails | WriteFails(kept: string) | SyncFails | RenameFails
      | DirectoryFails

  ghost predicate ValidDisk(disk: Disk) {
    && disk.entry in disk.durable
    && (forall e :: e in disk.durable && e.Some? ==> e.value < |disk.inodes| && disk.inodes[e.value].synced)
    && (disk.temporary.Some? ==> disk.temporary.value < |disk.inodes| && disk.temporary !in disk.durable)
  }

  /** After a crash the path can lead to a durable entry; data that is not synced can be anything. */
  ghost predicate Leads(disk: Disk, e: Option<nat>, content: Option<string>) {
    if e.None? then content.None?
    else content.Some? && (e.value < |disk.inodes| && disk.inodes[e.value].synced ==>
        content.value == disk.inodes[e.value].data)
  }

  ghost predicate CanCrashTo(disk: Disk, content: Option<string>) {
    exists e :: e in disk.durable && Leads(disk, e, content)
  }

  /** What a reader finds at the path. */
  function Visible(disk: Disk): Option<string>
    requires disk.entry.Some? ==> disk.entry.value < |disk.inodes|
  {
    if disk.entry.None? then None else Some(disk.inodes[disk.entry.value].data)
  }

  // ----- Steps of the file system

  function Create(disk: Disk): Disk {
    disk.(inodes := disk.inodes + [Inode("", false)], temporary := Some(|disk.inodes|))
  }

  function Write(disk: Disk, data: string): Disk
    requires disk.temporary.Some? && disk.temporary.value < |disk.inodes|
  {
    disk.(inodes := disk.inodes[disk.temporary.value := Inode(data, false)])
  }

  function SyncFile(disk: Disk): Disk
    requires disk.temporary.Some? && disk.temporary.value < |disk.inodes|
  {
    disk.(inodes := disk.inodes[disk.temporary.value := disk.inodes[disk.temporary.value].(synced := true)])
  }

  function Rename(disk: Disk): Disk {
    disk.(entry := disk.temporary, durable := disk.durable + {disk.temporary}, temporary := None)
  }

  function SyncDirectory(disk: Disk): Disk { disk.(durable := {disk.entry}) }

  function Remove(disk: Disk): Disk { disk.(temporary := None) }

  /** `next` can crash only to what `disk` could, or to `data`. */
  ghost predicate Safe(disk: Disk, next: Disk, data: string) {
    forall content :: CanCrashTo(next, content) ==> CanCrashTo(disk, content) || content == Some(data)
  }

  /** Whatever happens, the path leads to `data`. */
  ghost predicate LeavesOnly(disk: Disk, data: string) {
    forall content :: CanCrashTo(disk, content) <==> content == Some(data)
  }

  /** A step on the temporary file alone changes nothing that a crash can show. */
  lemma TemporaryIsHidden(start: Disk, disk: Disk, next: Disk, data: string)
    requires ValidDisk(disk) && next.durable == disk.durable && |disk.inodes| <= |next.inodes|
    requires forall i :: 0 <= i < |disk.inodes| && disk.temporary != Some(i) ==> next.inodes[i] == disk.inodes[i]
    requires Safe(start, disk, data)
    ensures Safe(start, next, data)
    ensures LeavesOnly(disk, data) ==> LeavesOnly(next, data)
  {
    forall e, content | e in disk.durable
      ensures Leads(next, e, content) <==> Leads(disk, e, content)
    {
    }
    assert forall content :: CanCrashTo(next, content) <==> CanCrashTo(disk, content);
  }

  lemma RenameIsSafe(start: Disk, disk: Disk, data: string)
    requires ValidDisk(disk) && disk.temporary.Some? && disk.inodes[disk.temporary.value] == Inode(data, true)
    requires Safe(start, disk, data)
    ensures ValidDisk(Rename(disk)) && Safe(start, Rename(disk), data)
    ensures LeavesOnly(SyncDirectory(Rename(disk)), data) && Safe(start, SyncDirectory(Rename(disk)), data)
    ensures Visible(Rename(disk)) == Some(data)
  {
    var next := Rename(disk);
    forall content | CanCrashTo(next, content)
      ensures CanCrashTo(disk, content) || content == Some(data)
    {
      var e :| e in next.durable && Leads(next, e, content);
      if e in disk.durable {
        assert Leads(disk, e, content);
      }
    }
    var last := SyncDirectory(next);
    assert last.durable == {disk.temporary};
    assert Leads(last, disk.temporary, Some(data));
  }

  /** Why there are two syncs: without that of the file a crash can leave anything under the
      path, and without that of the directory still all that it could leave before. */
  lemma SyncsAreNeeded(disk: Disk, data: string)
    requires ValidDisk(disk)
    ensures forall torn :: CanCrashTo(Rename(Write(Create(disk), data)), Some(torn))
    ensures forall content :: CanCrashTo(Rename(SyncFile(Write(Create(disk), data))), content)
                              <==> CanCrashTo(disk, content) || content == Some(data)
  {
    var written, synced := Write(Create(disk), data), SyncFile(Write(Create(disk), data));
    forall torn
      ensures CanCrashTo(Rename(written), Some(torn))
    {
      assert Leads(Rename(written), written.temporary, Some(torn));
    }
    var renamed := Rename(synced);
    forall e, content | e in disk.durable
      ensures Leads(renamed, e, content) <==> Leads(disk, e, content)
    {
    }
    forall content
      ensures CanCrashTo(renamed, content) <==> CanCrashTo(disk, content) || content == Some(data)
    {
      assert Leads(renamed, synced.temporary, content) <==> content == Some(data);
      if CanCrashTo(renamed, content) {
        var e :| e in renamed.durable && Leads(renamed, e, content);
        assert e in disk.durable || e == synced.temporary;
      }
      if CanCrashTo(disk, content) {
        var e :| e in disk.durable && Leads(disk, e, content);
        assert Leads(renamed, e, content);
      }
    }
  }

  lemma SafeAtFirst(disk: Disk, data: string)
    ensures Safe(disk, disk, data)
  {
  }

  /** The states from `from` on are safe. */
  ghost predicate AllSafe(start: Disk, history: seq<Disk>, from: nat, data: string) {
    from <= |history| && forall h :: from <= h < |history| ==> Safe(start, history[h], data)
  }

  class WorkspaceFile {
    var disk: Disk
    /** Every state of the file system, so every point at which a crash can come. */
    ghost var history: seq<Disk>

    ghost predicate Valid()
      reads this
    {
      ValidDisk(disk) && history != [] && history[|history| - 1] == disk
    }

    constructor (start: Disk)
      requires ValidDisk(start)
      ensures Valid() && disk == start && history == [start]
    {
      disk, history := start, [start];
    }

    method Advance(next: Disk, ghost start: Disk, ghost from: nat, ghost data: string)
      requires ValidDisk(next) && Safe(start, next, data) && AllSafe(start, history, from, data)
      modifies this
      ensures Valid() && disk == next && history == old(history) + [next] && AllSafe(start, history, from, data)
    {
      hide Safe, ValidDisk;
      disk := next;
      history := history + [next];
    }

    /** Puts all of `data` into a new file. The path does not change. */
    method Stage(data: string, fault: Fault, ghost start: Disk, ghost from: nat) returns (ok: bool)
      requires Valid() && disk.temporary.None? && Safe(start, disk, data) && AllSafe(start, history, from, data)
      modifies this
      ensures Valid() && old(history) <= history && Safe(start, disk, data) && AllSafe(start, history, from, data)
      ensures ok <==> fault.NoFault? || fault.RenameFails? || fault.DirectoryFails?
      ensures ok ==> disk.temporary.Some? && disk.inodes[disk.temporary.value] == Inode(data, true)
      ensures Visible(disk) == old(Visible(disk))
    {
      hide Safe, LeavesOnly, AllSafe;
      if fault.EncodeFails? || fault.CreateFails? {
        return false;
      }
      TemporaryIsHidden(start, disk, Create(disk), data);
      Advance(Create(disk), start, from, data);
      if fault.WriteFails? {
        TemporaryIsHidden(start, disk, Write(disk, fault.kept), data);
        Advance(Write(disk, fault.kept), start, from, data);
        return false;
      }
      TemporaryIsHidden(start, disk, Write(disk, data), data);
      Advance(Write(disk, data), start, from, data);
      if fault.SyncFails? {
        return false;
      }
      TemporaryIsHidden(start, disk, SyncFile(disk), data);
      Advance(SyncFile(disk), start, from, data);
      return true;
    }

    /** Leads the path to the new file. */
    method Install(data: string, fault: Fault, ghost start: Disk, ghost from: nat) returns (ok: bool)
      requires Valid() && disk.temporary.Some? && disk.inodes[disk.temporary.value] == Inode(data, true)
      requires Safe(start, disk, data) && AllSafe(start, history, from, data)
      modifies this
      ensures Valid() && old(history) <= history && Safe(start, disk, data) && AllSafe(start, history, from, data)
      ensures ok <==> !fault.RenameFails? && !fault.DirectoryFails?
      ensures ok ==> LeavesOnly(disk, data)
      ensures if fault.RenameFails? then Visible(disk) == old(Visible(disk)) else Visible(disk) == Some(data)
    {
      hide Safe, LeavesOnly, AllSafe;
      if fault.RenameFails? {
        return false;
      }
      RenameIsSafe(start, disk, data);
      Advance(Rename(disk), start, from, data);
      if fault.DirectoryFails? {
        return false;
      }
      Advance(SyncDirectory(disk), start, from, data);
      return true;
    }

    /** At every point a crash leaves what it could leave before, or all of `data`;
        after a success nothing but `data`. The temporary file goes in any case. */
    method Save(data: string, fault: Fault) returns (ok: bool)
      requires Valid() && disk.temporary.None?
      modifies this
      ensures Valid() && disk.temporary.None? && old(history) < history
      ensures ok <==> fault.NoFault?
      ensures forall h :: |old(history)| <= h < |history| ==> Safe(old(disk), history[h], data)
      ensures ok ==> LeavesOnly(disk, data)
      ensures Visible(disk) ==
              if fault.NoFault? || fault.DirectoryFails? then Some(data) else old(Visible(disk))
    {
      hide Safe, LeavesOnly;
      ghost var start, from := disk, |history|;
      SafeAtFirst(disk, data);
      ok := Stage(data, fault, start, from);
      if ok {
        ok := Install(data, fault, start, from);
      }
      TemporaryIsHidden(start, disk, Remove(disk), data);
      Advance(Remove(disk), start, from, data);
    }
  }
}
