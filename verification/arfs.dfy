/** The AurorOS native store: a fixed table of up to 1024 disks, each with a
    list of files and a list of directories (newest first), a shared
    inode-number counter, and per-entry busy flags that guard deletion and
    metadata updates.

    A disk record is a value held in one slot of the registry's array, as the
    C struct is held in the static table; a pointer to a disk becomes its slot
    index, and a pointer to a file becomes a `FileRef` (slot index and file
    name, which is unique within its disk and never changes). */
module Arfs {
  import opened Base

  /** Capacity of the disk table. */
  const MaxDisks := 1024
  /** `next_inode_number` and inode sizes are 32-bit unsigned integers. */
  const U32Limit := 0x1_0000_0000
  /** The largest byte count the `int` results of read and write can report. */
  const IntMax := 0x7FFF_FFFF

  datatype Inode = Inode(inodeNumber: nat, size: nat, created: nat, modified: nat)

  /** `data` is empty both before the first write (a null buffer) and after
      writing zero bytes. */
  datatype File = File(inode: Inode, data: seq<byte>, name: string, inUse: bool)

  datatype Directory = Directory(inode: Inode, numChildren: nat, name: string, inUse: bool)

  /** Index 0 of `files` and `dirs` is the head of the linked list. */
  datatype Disk = Disk(files: seq<File>, dirs: seq<Directory>, nextInode: nat, name: Option<string>)

  /** Stands for a `struct arfs_file *` handed out by open. */
  datatype FileRef = FileRef(disk: nat, name: string)

  /** A slot of the zero-initialised static table. */
  const ZeroDisk := Disk([], [], 0, None)
  /** A slot as `arfs_init` leaves it. */
  const EmptyDisk := Disk([], [], 1, None)

  function FileNames(fs: seq<File>): (ns: seq<string>)
    ensures |ns| == |fs| && forall k :: 0 <= k < |fs| ==> ns[k] == fs[k].name
  {
    seq(|fs|, k requires 0 <= k < |fs| => fs[k].name)
  }

  function DirNames(ds: seq<Directory>): (ns: seq<string>)
    ensures |ns| == |ds| && forall k :: 0 <= k < |ds| ==> ns[k] == ds[k].name
  {
    seq(|ds|, k requires 0 <= k < |ds| => ds[k].name)
  }

  function DiskNames(ds: seq<Disk>): (ns: seq<Option<string>>)
    ensures |ns| == |ds| && forall k :: 0 <= k < |ds| ==> ns[k] == ds[k].name
  {
    seq(|ds|, k requires 0 <= k < |ds| => ds[k].name)
  }

  /** What holds of every disk at all times: names are unique within the file
      list and within the directory list, the counter fits in 32 bits, and no
      directory has children (nothing in the driver ever adds one). */
  ghost predicate WellFormed(d: Disk)
  {
    && (forall i, j :: 0 <= i < j < |d.files| ==> d.files[i].name != d.files[j].name)
    && (forall i, j :: 0 <= i < j < |d.dirs| ==> d.dirs[i].name != d.dirs[j].name)
    && d.nextInode < U32Limit
    && (forall k :: 0 <= k < |d.dirs| ==> d.dirs[k].numChildren == 0)
  }

  /** The post-increment of the 32-bit counter. */
  function NextInode(n: nat): (m: nat)
    ensures m < U32Limit
    ensures n + 1 < U32Limit ==> m == n + 1
  {
    (n + 1) % U32Limit
  }

  /** A byte count stored into the 32-bit `size` field keeps its low 32 bits. */
  function U32(n: nat): (m: nat)
    ensures m < U32Limit && m <= n
    ensures n < U32Limit ==> m == n
  {
    n % U32Limit
  }

  /** The `(int)` conversion of a byte count on a 32-bit two's-complement
      `int`: counts above `IntMax` come out negative. */
  function Int32(n: nat): (i: int)
    ensures -(IntMax + 1) <= i <= IntMax
    ensures n <= IntMax ==> i == n
    ensures n < U32Limit && n > IntMax ==> i == n - U32Limit
  {
    var m := n % U32Limit;
    if m <= IntMax then m else m - U32Limit
  }

  function NewFile(ino: nat, name: string, now: nat): File
  {
    File(Inode(ino, 0, now, now), [], name, false)
  }

  function NewDirectory(ino: nat, name: string, now: nat): Directory
  {
    Directory(Inode(ino, 0, now, now), 0, name, false)
  }

  // ---------------------------------------------------------------------
  // What each operation does to the disk it found (`now` is the clock).
  // ---------------------------------------------------------------------

  function CreateFileOn(d: Disk, fname: string, now: nat): (int, Disk)
  {
    if fname in FileNames(d.files) then (-1, d)
    else (0, d.(files := [NewFile(d.nextInode, fname, now)] + d.files,
                nextInode := NextInode(d.nextInode)))
  }

  function DeleteFileOn(d: Disk, fname: string): (int, Disk)
  {
    match FirstIndex(FileNames(d.files), fname)
    case None => (-1, d)
    case Some(k) =>
      if d.files[k].inUse then (-2, d)
      else (0, d.(files := RemoveAt(d.files, k)))
  }

  /** Marks the first file of that name busy; reports whether there was one. */
  function OpenFileOn(d: Disk, fname: string): (bool, Disk)
  {
    match FirstIndex(FileNames(d.files), fname)
    case None => (false, d)
    case Some(k) => (true, d.(files := d.files[k := d.files[k].(inUse := true)]))
  }

  /** The position of the file a live handle designates. */
  function FileIndex(d: Disk, fname: string): (k: nat)
    requires fname in FileNames(d.files)
    ensures k < |d.files| && d.files[k].name == fname
  {
    FirstIndex(FileNames(d.files), fname).value
  }

  function CloseFileOn(d: Disk, fname: string): Disk
    requires fname in FileNames(d.files)
  {
    var k := FileIndex(d, fname);
    d.(files := d.files[k := d.files[k].(inUse := false)])
  }

  /** The bytes a read of at most `count` bytes delivers. The count is clamped
      to the inode size, as the driver does, and also to the length of the
      buffer, which the driver omits (see `SourceReadCount`). */
  function ReadFileOn(d: Disk, fname: string, count: nat): seq<byte>
    requires fname in FileNames(d.files)
  {
    var f := d.files[FileIndex(d, fname)];
    f.data[..Min(count, Min(f.inode.size, |f.data|))]
  }

  /** Whole-file overwrite; the size field records the count modulo 2^32. */
  function WriteFileOn(d: Disk, fname: string, bytes: seq<byte>, now: nat): Disk
    requires fname in FileNames(d.files)
  {
    var k := FileIndex(d, fname);
    var f := d.files[k];
    d.(files := d.files[k := f.(data := bytes, inode := f.inode.(size := U32(|bytes|), modified := now))])
  }

  function CreateDirectoryOn(d: Disk, dname: string, now: nat): (int, Disk)
  {
    if dname in DirNames(d.dirs) then (-1, d)
    else (0, d.(dirs := [NewDirectory(d.nextInode, dname, now)] + d.dirs,
                nextInode := NextInode(d.nextInode)))
  }

  function DeleteDirectoryOn(d: Disk, dname: string): (int, Disk)
  {
    match FirstIndex(DirNames(d.dirs), dname)
    case None => (-1, d)
    case Some(k) =>
      if d.dirs[k].inUse then (-2, d)
      else (0, d.(dirs := RemoveAt(d.dirs, k)))
  }

  /** The child count reported for a directory; 0 when it is absent. */
  function ListDirectoryOn(d: Disk, dname: string): nat
  {
    match FirstIndex(DirNames(d.dirs), dname)
    case None => 0
    case Some(k) => d.dirs[k].numChildren
  }

  /** Files are searched before directories. */
  function MetadataOn(d: Disk, name: string): Option<Inode>
  {
    match FirstIndex(FileNames(d.files), name)
    case Some(k) => Some(d.files[k].inode)
    case None =>
      match FirstIndex(DirNames(d.dirs), name)
      case Some(k) => Some(d.dirs[k].inode)
      case None => None
  }

  /** Same search order as `MetadataOn`; the whole inode is replaced. */
  function UpdateMetadataOn(d: Disk, name: string, ino: Inode): (int, Disk)
  {
    match FirstIndex(FileNames(d.files), name)
    case Some(k) =>
      if d.files[k].inUse then (-2, d)
      else (0, d.(files := d.files[k := d.files[k].(inode := ino)]))
    case None =>
      match FirstIndex(DirNames(d.dirs), name)
      case Some(k) =>
        if d.dirs[k].inUse then (-2, d)
        else (0, d.(dirs := d.dirs[k := d.dirs[k].(inode := ino)]))
      case None => (-1, d)
  }

  /** Unlinking an entry keeps the remaining names distinct. */
  lemma DeleteFileKeepsWellFormed(d: Disk, fname: string)
    requires WellFormed(d)
    ensures WellFormed(DeleteFileOn(d, fname).1)
  {
    match FirstIndex(FileNames(d.files), fname)
    case None =>
    case Some(k) =>
      var r := RemoveAt(d.files, k);
      forall i, j | 0 <= i < j < |r| ensures r[i].name != r[j].name {
        var i' := if i < k then i else i + 1;
        var j' := if j < k then j else j + 1;
        assert r[i] == d.files[i'] && r[j] == d.files[j'];
      }
  }

  /** Unlinking an entry keeps the remaining names distinct. */
  lemma DeleteDirectoryKeepsWellFormed(d: Disk, dname: string)
    requires WellFormed(d)
    ensures WellFormed(DeleteDirectoryOn(d, dname).1)
  {
    match FirstIndex(DirNames(d.dirs), dname)
    case None =>
    case Some(k) =>
      var r := RemoveAt(d.dirs, k);
      forall i, j | 0 <= i < j < |r| ensures r[i].name != r[j].name {
        var i' := if i < k then i else i + 1;
        var j' := if j < k then j else j + 1;
        assert r[i] == d.dirs[i'] && r[j] == d.dirs[j'];
      }
      forall i | 0 <= i < |r| ensures r[i].numChildren == 0 {
        assert r[i] == d.dirs[if i < k then i else i + 1];
      }
  }

  // ---------------------------------------------------------------------
  // The registry.
  // ---------------------------------------------------------------------

  /** The slot `arfs_find_disk` returns: the lowest registered slot with that name. */
  function DiskIndex(ds: seq<Disk>, num: nat, name: string): (r: Option<nat>)
    requires num <= |ds|
    ensures r.Some? ==> r.value < num && ds[r.value].name == Some(name)
    ensures r.Some? ==> forall j :: 0 <= j < r.value ==> ds[j].name != Some(name)
    ensures r.None? ==> forall j :: 0 <= j < num ==> ds[j].name != Some(name)
  {
    var r := FirstIndex(DiskNames(ds[..num]), Some(name));
    assert r.None? ==> forall j :: 0 <= j < num ==> DiskNames(ds[..num])[j] != Some(name);
    r
  }

  /** An operation addressed by disk name: -1 and no change when no registered
      disk has that name, otherwise `op` applied to the slot found. */
  function OnDisk(ds: seq<Disk>, num: nat, diskName: string, op: Disk -> (int, Disk)): (int, seq<Disk>)
    requires num <= |ds|
  {
    match DiskIndex(ds, num, diskName)
    case None => (-1, ds)
    case Some(i) => (op(ds[i]).0, ds[i := op(ds[i]).1])
  }

  /** The front-to-back walk of a file or directory list, comparing each
      name with the one sought (the `strcmp` loops of the driver). */
  method FindName(names: seq<string>, x: string) returns (k: Option<nat>)
    ensures k == FirstIndex(names, x)
  {
    var i := 0;
    while i < |names|
      invariant 0 <= i <= |names|
      invariant forall j :: 0 <= j < i ==> names[j] != x
    {
      if names[i] == x {
        return Some(i);
      }
      i := i + 1;
    }
    return None;
  }

  class Registry {
    /** The static table `disks[MAX_ARFS_DEVICES]`. */
    var disks: array<Disk>
    /** `num_disks`: slots below it are registered. */
    var numDisks: nat

    ghost predicate Valid()
      reads this, disks
    {
      && disks.Length == MaxDisks
      && numDisks <= MaxDisks
      && (forall i :: 0 <= i < MaxDisks ==> WellFormed(disks[i]))
      && (forall i :: 0 <= i < numDisks ==> disks[i].name.Some?)
      && (forall i :: numDisks <= i < MaxDisks ==>
            disks[i].files == [] && disks[i].dirs == [] && disks[i].name == None)
    }

    /** A handle that designates a file still present on a registered disk. */
    ghost predicate Live(h: FileRef)
      reads this, disks
    {
      h.disk < numDisks <= disks.Length && h.name in FileNames(disks[h.disk].files)
    }

    /** The table as the program starts, before `arfs_init`: all zero. */
    constructor ()
      ensures Valid() && fresh(disks)
      ensures numDisks == 0 && forall i :: 0 <= i < MaxDisks ==> disks[i] == ZeroDisk
    {
      disks := new Disk[MaxDisks](_ => ZeroDisk);
      numDisks := 0;
    }

    /** `arfs_init`: every slot emptied with the counter at 1, no disk registered. */
    method Init()
      requires Valid()
      modifies this, disks
      ensures Valid() && disks == old(disks)
      ensures numDisks == 0 && forall i :: 0 <= i < MaxDisks ==> disks[i] == EmptyDisk
    {
      var i := 0;
      while i < MaxDisks
        invariant 0 <= i <= MaxDisks
        invariant disks == old(disks)
        invariant forall j :: 0 <= j < i ==> disks[j] == EmptyDisk
      {
        disks[i] := EmptyDisk;
        i := i + 1;
      }
      numDisks := 0;
    }

    /** `arfs_add_disk`: fills the next free slot; duplicate names are accepted. */
    method AddDisk(name: string) returns (r: int)
      requires Valid()
      modifies this, disks
      ensures Valid() && disks == old(disks)
      ensures old(numDisks) == MaxDisks ==>
        r == -1 && numDisks == old(numDisks) && disks[..] == old(disks[..])
      ensures old(numDisks) < MaxDisks ==>
        && r == 0 && numDisks == old(numDisks) + 1
        && disks[..] == old(disks[..])[old(numDisks) := old(disks[numDisks]).(name := Some(name))]
    {
      if numDisks >= MaxDisks {
        return -1;
      }
      disks[numDisks] := disks[numDisks].(name := Some(name));
      numDisks := numDisks + 1;
      r := 0;
    }

    /** `arfs_find_disk`. */
    method FindDisk(name: string) returns (r: Option<nat>)
      requires Valid()
      ensures r == DiskIndex(disks[..], numDisks, name)
    {
      var i := 0;
      while i < numDisks
        invariant 0 <= i <= numDisks
        invariant forall j :: 0 <= j < i ==> disks[j].name != Some(name)
      {
        if disks[i].name == Some(name) {
          return Some(i);
        }
        i := i + 1;
      }
      return None;
    }

    /** `arfs_create_file`. */
    method CreateFile(diskName: string, fname: string, now: nat) returns (r: int)
      requires Valid()
      modifies disks
      ensures Valid()
      ensures (r, disks[..]) == OnDisk(old(disks[..]), numDisks, diskName, d => CreateFileOn(d, fname, now))
    {
      var i := FindDisk(diskName);
      if i.None? {
        return -1;
      }
      var d := disks[i.value];
      var k := FindName(FileNames(d.files), fname);
      if k.Some? {
        assert disks[..][i.value := d] == disks[..];
        return -1;
      }
      disks[i.value] := d.(files := [NewFile(d.nextInode, fname, now)] + d.files,
                           nextInode := NextInode(d.nextInode));
      r := 0;
    }

    /** `arfs_delete_file`. */
    method DeleteFile(diskName: string, fname: string) returns (r: int)
      requires Valid()
      modifies disks
      ensures Valid()
      ensures (r, disks[..]) == OnDisk(old(disks[..]), numDisks, diskName, d => DeleteFileOn(d, fname))
    {
      var i := FindDisk(diskName);
      if i.None? {
        return -1;
      }
      var d := disks[i.value];
      var k := FindName(FileNames(d.files), fname);
      if k.None? {
        assert disks[..][i.value := d] == disks[..];
        return -1;
      }
      if d.files[k.value].inUse {
        assert disks[..][i.value := d] == disks[..];
        return -2;
      }
      DeleteFileKeepsWellFormed(d, fname);
      disks[i.value] := d.(files := RemoveAt(d.files, k.value));
      r := 0;
    }

    /** `arfs_open_file`: no check that the file is already open. */
    method OpenFile(diskName: string, fname: string) returns (h: Option<FileRef>)
      requires Valid()
      modifies disks
      ensures Valid()
      ensures h.Some? ==> Live(h.value)
      ensures match DiskIndex(old(disks[..]), numDisks, diskName)
        case None => h == None && disks[..] == old(disks[..])
        case Some(i) =>
          && h == (if OpenFileOn(old(disks[i]), fname).0 then Some(FileRef(i, fname)) else None)
          && disks[..] == old(disks[..])[i := OpenFileOn(old(disks[i]), fname).1]
    {
      var i := FindDisk(diskName);
      if i.None? {
        return None;
      }
      var d := disks[i.value];
      var k := FindName(FileNames(d.files), fname);
      if k.None? {
        return None;
      }
      disks[i.value] := d.(files := d.files[k.value := d.files[k.value].(inUse := true)]);
      assert FileNames(disks[i.value].files) == FileNames(d.files);
      h := Some(FileRef(i.value, fname));
    }

    /** `arfs_read_file`; `None` stands for a null file pointer. */
    method ReadFile(h: Option<FileRef>, count: nat) returns (n: int, buf: seq<byte>)
      requires Valid()
      requires h.Some? ==> Live(h.value)
      ensures h.None? ==> n == -1 && buf == []
      ensures h.Some? ==> buf == ReadFileOn(disks[h.value.disk], h.value.name, count) && n == Int32(|buf|)
    {
      if h.None? {
        return -1, [];
      }
      var d := disks[h.value.disk];
      var f := d.files[FileIndex(d, h.value.name)];
      var c := count;
      if c > f.inode.size {
        c := f.inode.size;
      }
      if c > |f.data| {
        c := |f.data|;
      }
      buf := f.data[..c];
      n := Int32(c);
    }

    /** `arfs_write_file`. */
    method WriteFile(h: Option<FileRef>, bytes: seq<byte>, now: nat) returns (n: int)
      requires Valid()
      requires h.Some? ==> Live(h.value)
      modifies disks
      ensures Valid()
      ensures h.Some? ==> Live(h.value)
      ensures h.None? ==> n == -1 && disks[..] == old(disks[..])
      ensures h.Some? ==>
        && n == Int32(|bytes|)
        && disks[..] == old(disks[..])[h.value.disk := WriteFileOn(old(disks[h.value.disk]), h.value.name, bytes, now)]
    {
      if h.None? {
        return -1;
      }
      var d := disks[h.value.disk];
      var k := FileIndex(d, h.value.name);
      var f := d.files[k];
      disks[h.value.disk] := d.(files := d.files[k := f.(data := bytes, inode := f.inode.(size := U32(|bytes|), modified := now))]);
      assert FileNames(disks[h.value.disk].files) == FileNames(d.files);
      n := Int32(|bytes|);
    }

    /** `arfs_close_file`. */
    method CloseFile(h: Option<FileRef>)
      requires Valid()
      requires h.Some? ==> Live(h.value)
      modifies disks
      ensures Valid()
      ensures h.None? ==> disks[..] == old(disks[..])
      ensures h.Some? ==> disks[..] == old(disks[..])[h.value.disk := CloseFileOn(old(disks[h.value.disk]), h.value.name)]
    {
      if h.None? {
        return;
      }
      var d := disks[h.value.disk];
      var k := FileIndex(d, h.value.name);
      disks[h.value.disk] := d.(files := d.files[k := d.files[k].(inUse := false)]);
    }

    /** `arfs_create_directory`. */
    method CreateDirectory(diskName: string, dname: string, now: nat) returns (r: int)
      requires Valid()
      modifies disks
      ensures Valid()
      ensures (r, disks[..]) == OnDisk(old(disks[..]), numDisks, diskName, d => CreateDirectoryOn(d, dname, now))
    {
      var i := FindDisk(diskName);
      if i.None? {
        return -1;
      }
      var d := disks[i.value];
      var k := FindName(DirNames(d.dirs), dname);
      if k.Some? {
        assert disks[..][i.value := d] == disks[..];
        return -1;
      }
      disks[i.value] := d.(dirs := [NewDirectory(d.nextInode, dname, now)] + d.dirs,
                           nextInode := NextInode(d.nextInode));
      r := 0;
    }

    /** `arfs_delete_directory`. */
    method DeleteDirectory(diskName: string, dname: string) returns (r: int)
      requires Valid()
      modifies disks
      ensures Valid()
      ensures (r, disks[..]) == OnDisk(old(disks[..]), numDisks, diskName, d => DeleteDirectoryOn(d, dname))
    {
      var i := FindDisk(diskName);
      if i.None? {
        return -1;
      }
      var d := disks[i.value];
      var k := FindName(DirNames(d.dirs), dname);
      if k.None? {
        assert disks[..][i.value := d] == disks[..];
        return -1;
      }
      if d.dirs[k.value].inUse {
        assert disks[..][i.value := d] == disks[..];
        return -2;
      }
      DeleteDirectoryKeepsWellFormed(d, dname);
      disks[i.value] := d.(dirs := RemoveAt(d.dirs, k.value));
      r := 0;
    }

    /** `arfs_list_directory`: the child count (the child array is always null). */
    method ListDirectory(diskName: string, dname: string) returns (n: nat)
      requires Valid()
      ensures n == match DiskIndex(disks[..], numDisks, diskName)
                   case None => 0
                   case Some(i) => ListDirectoryOn(disks[i], dname)
      ensures n == 0
    {
      var i := FindDisk(diskName);
      if i.None? {
        return 0;
      }
      var d := disks[i.value];
      var k := FindName(DirNames(d.dirs), dname);
      if k.None? {
        return 0;
      }
      n := d.dirs[k.value].numChildren;
    }

    /** `arfs_get_metadata`; `None` stands for the result -1. */
    method GetMetadata(diskName: string, name: string) returns (r: Option<Inode>)
      requires Valid()
      ensures r == match DiskIndex(disks[..], numDisks, diskName)
                   case None => None
                   case Some(i) => MetadataOn(disks[i], name)
    {
      var i := FindDisk(diskName);
      if i.None? {
        return None;
      }
      var d := disks[i.value];
      var k := FindName(FileNames(d.files), name);
      if k.Some? {
        return Some(d.files[k.value].inode);
      }
      var m := FindName(DirNames(d.dirs), name);
      if m.Some? {
        return Some(d.dirs[m.value].inode);
      }
      return None;
    }

    /** `arfs_update_metadata`. */
    method UpdateMetadata(diskName: string, name: string, ino: Inode) returns (r: int)
      requires Valid()
      modifies disks
      ensures Valid()
      ensures (r, disks[..]) == OnDisk(old(disks[..]), numDisks, diskName, d => UpdateMetadataOn(d, name, ino))
    {
      var i := FindDisk(diskName);
      if i.None? {
        return -1;
      }
      var d := disks[i.value];
      var k := FindName(FileNames(d.files), name);
      if k.Some? {
        if d.files[k.value].inUse {
          assert disks[..][i.value := d] == disks[..];
          return -2;
        }
        disks[i.value] := d.(files := d.files[k.value := d.files[k.value].(inode := ino)]);
        return 0;
      }
      var m := FindName(DirNames(d.dirs), name);
      if m.Some? {
        if d.dirs[m.value].inUse {
          assert disks[..][i.value := d] == disks[..];
          return -2;
        }
        disks[i.value] := d.(dirs := d.dirs[m.value := d.dirs[m.value].(inode := ino)]);
        return 0;
      }
      assert disks[..][i.value := d] == disks[..];
      return -1;
    }
  }
}
