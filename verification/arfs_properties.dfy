/** Properties of the native store's operations: what create, delete, open,
    close, read, write and metadata update promise, alone and in sequence. */
module ArfsProperties {
  import opened Base
  import opened Arfs

  /** The entries whose key differs from `x`, in their original order: the
      reference against which deletion is checked. */
  function KeepOthers<T>(s: seq<T>, key: T -> string, x: string): (r: seq<T>)
    ensures |r| <= |s|
    ensures forall e :: e in r ==> e in s && key(e) != x
  {
    if s == [] then []
    else (if key(s[0]) == x then [] else [s[0]]) + KeepOthers(s[1..], key, x)
  }

  lemma {:induction false} KeepOthersOfAbsent<T>(s: seq<T>, key: T -> string, x: string)
    requires forall i :: 0 <= i < |s| ==> key(s[i]) != x
    ensures KeepOthers(s, key, x) == s
  {
    if s != [] {
      KeepOthersOfAbsent(s[1..], key, x);
    }
  }

  /** Removing the one entry with key `x` from a list with distinct keys is
      the same as keeping every entry with another key. */
  lemma {:induction false} RemoveAtIsKeepOthers<T>(s: seq<T>, key: T -> string, k: nat)
    requires k < |s|
    requires forall i, j :: 0 <= i < j < |s| ==> key(s[i]) != key(s[j])
    ensures RemoveAt(s, k) == KeepOthers(s, key, key(s[k]))
  {
    if k == 0 {
      KeepOthersOfAbsent(s[1..], key, key(s[0]));
      assert RemoveAt(s, 0) == s[1..];
    } else {
      RemoveAtIsKeepOthers(s[1..], key, k - 1);
      assert RemoveAt(s, k) == [s[0]] + RemoveAt(s[1..], k - 1);
    }
  }

  lemma FileNamesOfUpdate(fs: seq<File>, k: nat, f: File)
    requires k < |fs| && f.name == fs[k].name
    ensures FileNames(fs[k := f]) == FileNames(fs)
  {
  }

  lemma DirNamesOfUpdate(ds: seq<Directory>, k: nat, e: Directory)
    requires k < |ds| && e.name == ds[k].name
    ensures DirNames(ds[k := e]) == DirNames(ds)
  {
  }

  // ---------------------------------------------------------------------
  // Creation.
  // ---------------------------------------------------------------------

  /** Create fails exactly on a taken name and then changes nothing; otherwise
      the new file is at the head with the old counter value as its inode
      number, the counter advances, and file names stay unique. */
  lemma CreateFileSpec(d: Disk, fname: string, now: nat)
    requires WellFormed(d)
    ensures var (r, d') := CreateFileOn(d, fname, now);
      && WellFormed(d')
      && (r == 0 || r == -1)
      && (r == -1 <==> fname in FileNames(d.files))
      && (r == -1 ==> d' == d)
      && (r == 0 ==>
            && d'.files[0] == File(Inode(d.nextInode, 0, now, now), [], fname, false)
            && d'.files[1..] == d.files
            && d'.dirs == d.dirs && d'.name == d.name
            && d'.nextInode == NextInode(d.nextInode)
            && (d.nextInode + 1 < U32Limit ==> d'.nextInode == d.nextInode + 1))
  {
  }

  /** The directory counterpart of `CreateFileSpec`; both draw on the one counter. */
  lemma CreateDirectorySpec(d: Disk, dname: string, now: nat)
    requires WellFormed(d)
    ensures var (r, d') := CreateDirectoryOn(d, dname, now);
      && WellFormed(d')
      && (r == 0 || r == -1)
      && (r == -1 <==> dname in DirNames(d.dirs))
      && (r == -1 ==> d' == d)
      && (r == 0 ==>
            && d'.dirs[0] == Directory(Inode(d.nextInode, 0, now, now), 0, dname, false)
            && d'.dirs[1..] == d.dirs
            && d'.files == d.files && d'.name == d.name
            && d'.nextInode == NextInode(d.nextInode)
            && (d.nextInode + 1 < U32Limit ==> d'.nextInode == d.nextInode + 1))
  {
  }

  // ---------------------------------------------------------------------
  // Deletion.
  // ---------------------------------------------------------------------

  /** Delete reports -1 for a missing name, -2 for a busy file, and changes
      nothing then; on success exactly the named file is gone and every other
      file remains, in its original order. */
  lemma DeleteFileSpec(d: Disk, fname: string)
    requires WellFormed(d)
    ensures var (r, d') := DeleteFileOn(d, fname);
      && WellFormed(d')
      && (r == 0 || r == -1 || r == -2)
      && (r == -1 <==> fname !in FileNames(d.files))
      && (r == -2 <==> fname in FileNames(d.files) && d.files[FileIndex(d, fname)].inUse)
      && (r == 0 <==> fname in FileNames(d.files) && !d.files[FileIndex(d, fname)].inUse)
      && (r != 0 ==> d' == d)
      && (r == 0 ==>
            && d'.files == KeepOthers(d.files, (f: File) => f.name, fname)
            && fname !in FileNames(d'.files)
            && |d'.files| == |d.files| - 1
            && d'.dirs == d.dirs && d'.nextInode == d.nextInode && d'.name == d.name)
  {
    DeleteFileKeepsWellFormed(d, fname);
    var key := (f: File) => f.name;
    match FirstIndex(FileNames(d.files), fname)
    case None =>
    case Some(k) =>
      if !d.files[k].inUse {
        RemoveAtIsKeepOthers(d.files, key, k);
      }
  }

  /** The directory counterpart of `DeleteFileSpec`. */
  lemma DeleteDirectorySpec(d: Disk, dname: string)
    requires WellFormed(d)
    ensures var (r, d') := DeleteDirectoryOn(d, dname);
      && WellFormed(d')
      && (r == 0 || r == -1 || r == -2)
      && (r == -1 <==> dname !in DirNames(d.dirs))
      && (r == -2 <==> dname in DirNames(d.dirs) && d.dirs[FirstIndex(DirNames(d.dirs), dname).value].inUse)
      && (r == 0 <==> dname in DirNames(d.dirs) && !d.dirs[FirstIndex(DirNames(d.dirs), dname).value].inUse)
      && (r != 0 ==> d' == d)
      && (r == 0 ==>
            && d'.dirs == KeepOthers(d.dirs, (e: Directory) => e.name, dname)
            && dname !in DirNames(d'.dirs)
            && |d'.dirs| == |d.dirs| - 1
            && d'.files == d.files && d'.nextInode == d.nextInode && d'.name == d.name)
  {
    DeleteDirectoryKeepsWellFormed(d, dname);
    var key := (e: Directory) => e.name;
    match FirstIndex(DirNames(d.dirs), dname)
    case None =>
    case Some(k) =>
      if !d.dirs[k].inUse {
        RemoveAtIsKeepOthers(d.dirs, key, k);
      }
  }

  /** Creating a file and deleting it again, with no open in between, leaves
      the file list as it was. */
  lemma CreateThenDeleteFile(d: Disk, fname: string, now: nat)
    requires fname !in FileNames(d.files)
    ensures DeleteFileOn(CreateFileOn(d, fname, now).1, fname) == (0, d.(nextInode := NextInode(d.nextInode)))
  {
    var d1 := CreateFileOn(d, fname, now).1;
    assert FirstIndex(FileNames(d1.files), fname) == Some(0);
    assert RemoveAt(d1.files, 0) == d.files;
  }

  // ---------------------------------------------------------------------
  // The busy flag.
  // ---------------------------------------------------------------------

  /** An open file cannot be deleted. */
  lemma OpenThenDeleteIsBusy(d: Disk, fname: string)
    requires fname in FileNames(d.files)
    ensures var (found, d1) := OpenFileOn(d, fname);
      found && DeleteFileOn(d1, fname) == (-2, d1)
  {
    var k := FileIndex(d, fname);
    var d1 := OpenFileOn(d, fname).1;
    FileNamesOfUpdate(d.files, k, d.files[k].(inUse := true));
    assert FileNames(d1.files) == FileNames(d.files);
  }

  /** Open, close, delete succeeds and removes just that file, whatever the
      busy flag was before. */
  lemma OpenCloseThenDelete(d: Disk, fname: string)
    requires fname in FileNames(d.files)
    ensures var d1 := OpenFileOn(d, fname).1;
      && fname in FileNames(d1.files)
      && DeleteFileOn(CloseFileOn(d1, fname), fname) == (0, d.(files := RemoveAt(d.files, FileIndex(d, fname))))
  {
    var k := FileIndex(d, fname);
    var d1 := OpenFileOn(d, fname).1;
    FileNamesOfUpdate(d.files, k, d.files[k].(inUse := true));
    assert FileNames(d1.files) == FileNames(d.files);
    var d2 := CloseFileOn(d1, fname);
    FileNamesOfUpdate(d1.files, k, d1.files[k].(inUse := false));
    assert FileNames(d2.files) == FileNames(d.files);
    assert RemoveAt(d2.files, k) == RemoveAt(d.files, k);
  }

  // ---------------------------------------------------------------------
  // Reading and writing.
  // ---------------------------------------------------------------------

  /** A write replaces the contents outright; a read of `count` bytes then
      returns the first `min(count, n)` of the `n` bytes written (for a
      write below 4 GiB; beyond it the 32-bit size field cuts reads short). */
  lemma WriteThenRead(d: Disk, fname: string, bytes: seq<byte>, now: nat, count: nat)
    requires fname in FileNames(d.files)
    ensures var d' := WriteFileOn(d, fname, bytes, now);
      && fname in FileNames(d'.files)
      && ReadFileOn(d', fname, count) == bytes[..Min(count, U32(|bytes|))]
      && (count >= |bytes| && |bytes| < U32Limit ==> ReadFileOn(d', fname, count) == bytes)
  {
    var k := FileIndex(d, fname);
    var f := d.files[k];
    var d' := WriteFileOn(d, fname, bytes, now);
    FileNamesOfUpdate(d.files, k, f.(data := bytes, inode := f.inode.(size := U32(|bytes|), modified := now)));
    assert FileNames(d'.files) == FileNames(d.files);
    assert bytes[..|bytes|] == bytes;
  }

  /** The byte count `arfs_read_file` computes: `count` clamped to the inode
      size only, whatever the length of the data buffer. */
  function SourceReadCount(f: File, count: nat): (n: nat)
    ensures n <= count && n <= f.inode.size
    ensures n == count || n == f.inode.size
  {
    Min(count, f.inode.size)
  }

  /** `arfs_update_metadata` may set the size of a never-written file to 8;
      a read of 8 bytes then copies 8 bytes out of an empty buffer. */
  lemma SourceReadOverrunsBuffer()
    ensures var d1 := CreateFileOn(EmptyDisk, "a", 0).1;
            var (r, d2) := UpdateMetadataOn(d1, "a", Inode(1, 8, 0, 0));
            && r == 0 && |d2.files| == 1 && d2.files[0].name == "a"
            && d2.files[0].data == []
            && SourceReadCount(d2.files[0], 8) == 8
  {
    var d1 := CreateFileOn(EmptyDisk, "a", 0).1;
    assert FirstIndex(FileNames(d1.files), "a") == Some(0);
  }

  /** The model's read never goes past the buffer, and agrees with the
      driver's count whenever size and buffer agree, as after every write. */
  lemma ReadStaysInBuffer(d: Disk, fname: string, count: nat)
    requires fname in FileNames(d.files)
    ensures var f := d.files[FileIndex(d, fname)];
      && |ReadFileOn(d, fname, count)| <= |f.data|
      && ReadFileOn(d, fname, count) == f.data[..|ReadFileOn(d, fname, count)|]
      && (f.inode.size == |f.data| ==> |ReadFileOn(d, fname, count)| == SourceReadCount(f, count))
  {
  }

  // ---------------------------------------------------------------------
  // Metadata.
  // ---------------------------------------------------------------------

  /** Get finds a file before a directory of the same name. */
  lemma MetadataPrefersFiles(d: Disk, name: string)
    ensures name in FileNames(d.files) ==>
      MetadataOn(d, name) == Some(d.files[FileIndex(d, name)].inode)
    ensures name !in FileNames(d.files) && name in DirNames(d.dirs) ==>
      MetadataOn(d, name) == Some(d.dirs[FirstIndex(DirNames(d.dirs), name).value].inode)
    ensures MetadataOn(d, name).None? <==> name !in FileNames(d.files) && name !in DirNames(d.dirs)
  {
  }

  /** The busy flag of the entry a metadata lookup finds: the first file of
      that name, or failing one, the first directory of that name. */
  ghost predicate FoundBusy(d: Disk, name: string)
    requires MetadataOn(d, name).Some?
  {
    if name in FileNames(d.files) then d.files[FileIndex(d, name)].inUse
    else d.dirs[FirstIndex(DirNames(d.dirs), name).value].inUse
  }

  /** Update fails with -1 when get would find nothing and with -2 exactly
      when the entry get would return is busy, changing nothing; otherwise it
      returns 0 and replaces the inode of exactly that entry (inode number
      included), after which get returns the new inode, and every other entry
      is as before. */
  lemma UpdateMetadataSpec(d: Disk, name: string, ino: Inode)
    requires WellFormed(d)
    ensures var (r, d') := UpdateMetadataOn(d, name, ino);
      && WellFormed(d')
      && (r == 0 || r == -1 || r == -2)
      && (r == -1 <==> MetadataOn(d, name).None?)
      && (r == -2 <==> MetadataOn(d, name).Some? && FoundBusy(d, name))
      && (r == 0 <==> MetadataOn(d, name).Some? && !FoundBusy(d, name))
      && (r != 0 ==> d' == d)
      && (r == 0 ==> MetadataOn(d', name) == Some(ino))
      && (r == 0 ==> d'.nextInode == d.nextInode && d'.name == d.name)
      && (r == 0 && name in FileNames(d.files) ==>
            && d'.dirs == d.dirs && |d'.files| == |d.files|
            && forall k :: 0 <= k < |d.files| ==>
                 d'.files[k] == if d.files[k].name == name then d.files[k].(inode := ino) else d.files[k])
      && (r == 0 && name !in FileNames(d.files) ==>
            && d'.files == d.files && |d'.dirs| == |d.dirs|
            && forall k :: 0 <= k < |d.dirs| ==>
                 d'.dirs[k] == if d.dirs[k].name == name then d.dirs[k].(inode := ino) else d.dirs[k])
  {
    match FirstIndex(FileNames(d.files), name)
    case Some(k) =>
      if !d.files[k].inUse {
        var d' := UpdateMetadataOn(d, name, ino).1;
        FileNamesOfUpdate(d.files, k, d.files[k].(inode := ino));
        assert FileNames(d'.files) == FileNames(d.files);
      }
    case None =>
      match FirstIndex(DirNames(d.dirs), name)
      case Some(k) =>
        if !d.dirs[k].inUse {
          var d' := UpdateMetadataOn(d, name, ino).1;
          DirNamesOfUpdate(d.dirs, k, d.dirs[k].(inode := ino));
          assert DirNames(d'.dirs) == DirNames(d.dirs);
        }
      case None =>
  }

  // ---------------------------------------------------------------------
  // An end-to-end run through the registry.
  // ---------------------------------------------------------------------

  /** A fresh registry after `arfs_init` and `arfs_add_disk("disk0")`. */
  method OneDisk() returns (reg: Registry, added: int)
    ensures fresh(reg) && fresh(reg.disks) && reg.Valid()
    ensures added == 0 && reg.numDisks == 1 && reg.disks[0] == EmptyDisk.(name := Some("disk0"))
  {
    reg := new Registry();
    reg.Init();
    added := reg.AddDisk("disk0");
  }

  /** On that registry: create "a.txt" at time 7, open it, and write
      "hello" at time 8. */
  method WriteHello(reg: Registry) returns (h: Option<FileRef>, written: int)
    requires reg.Valid() && reg.numDisks == 1 && reg.disks[0] == EmptyDisk.(name := Some("disk0"))
    modifies reg.disks
    ensures reg.Valid() && h == Some(FileRef(0, "a.txt")) && reg.Live(h.value) && written == 5
    ensures reg.disks[0] == EmptyDisk.(name := Some("disk0"), nextInode := 2,
      files := [File(Inode(1, 5, 7, 8), [104, 101, 108, 108, 111], "a.txt", true)])
  {
    assert DiskIndex(reg.disks[..], reg.numDisks, "disk0") == Some(0);
    var created := reg.CreateFile("disk0", "a.txt", 7);
    assert reg.disks[0].files == [NewFile(1, "a.txt", 7)];
    h := reg.OpenFile("disk0", "a.txt");
    assert h == Some(FileRef(0, "a.txt"));
    written := reg.WriteFile(h, [104, 101, 108, 108, 111], 8);
  }

  /** Register "disk0", create "a.txt", open it, write "hello", read with room
      for 10 bytes (5 come back), close, delete (succeeds), then look it up
      (absent). */
  method HelloScenario() returns (written: int, got: seq<byte>, deleted: int, meta: Option<Inode>)
    ensures written == 5 && got == [104, 101, 108, 108, 111]
    ensures deleted == 0 && meta == None
  {
    var reg, added := OneDisk();
    var h;
    h, written := WriteHello(reg);
    var n;
    n, got := reg.ReadFile(h, 10);
    reg.CloseFile(h);
    assert reg.disks[0].files == [File(Inode(1, 5, 7, 8), [104, 101, 108, 108, 111], "a.txt", false)];
    assert DiskIndex(reg.disks[..], reg.numDisks, "disk0") == Some(0);
    deleted := reg.DeleteFile("disk0", "a.txt");
    assert reg.disks[0].files == [];
    meta := reg.GetMetadata("disk0", "a.txt");
  }
}
