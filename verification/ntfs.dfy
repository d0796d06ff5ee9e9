/** The read-only NTFS driver (src/drivers/fs/ntfs.h): mounting a volume
    from its boot sector, reading MFT entries, walking the attribute list
    of an entry and reading the resident $DATA attribute of entry 0.

    The block device is the byte content of the image file, or None when
    the file cannot be opened; every read of the driver goes through
    `ReadAt`, which follows the stdio seek-then-read sequence. */
module Ntfs {
  import opened Base
  import opened NtfsLayout

  const SectorSize := 512
  /** Values of a `uint64_t` are below this bound; arithmetic on them wraps. */
  const U64Limit := 0x1_0000_0000_0000_0000
  /** `fseek` takes a signed `long`: offsets from here on come out negative. */
  const LongLimit := 0x8000_0000_0000_0000

  type Device = Option<seq<byte>>

  /** Why a driver call fails; the C functions report every one as -1. */
  datatype Fault =
    | NotMounted
    | ReadFailed
    | InvalidEntry
    | AttributeNotFound
    | MalformedAttribute
    | NonResident
    | BufferTooSmall

  datatype Outcome<T> = Ok(value: T) | Err(fault: Fault)

  /* ---------------- device access ---------------- */

  /** Open the device, seek to byte `offset` and read `size` bytes; fails
      when the device cannot be opened, the offset is not a valid `long`
      or fewer than `size` bytes follow it. */
  function ReadAt(dev: Device, offset: nat, size: nat): (r: Option<seq<byte>>)
    ensures r.Some? <==> dev.Some? && offset < LongLimit && offset + size <= |dev.value|
    ensures r.Some? ==> (|r.value| == size
      && forall i :: 0 <= i < size ==> r.value[i] == dev.value[offset + i])
  {
    if dev.None? || offset >= LongLimit || offset + size > |dev.value| then None
    else Some(dev.value[offset..offset + size])
  }

  /** Reading at a sector: the byte offset `sector * 512` is a `uint64_t` product. */
  function ReadSector(dev: Device, sector: nat, size: nat): (r: Option<seq<byte>>)
    requires sector < U64Limit
    ensures r == ReadAt(dev, (sector * SectorSize) % U64Limit, size)
    ensures sector < LongLimit / SectorSize ==> r == ReadAt(dev, sector * SectorSize, size)
  {
    ReadAt(dev, (sector * SectorSize) % U64Limit, size)
  }

  /* ---------------- mounting ---------------- */

  /** The state kept while a volume is mounted. */
  datatype Volume = Volume(boot: BootSector, mftStart: nat)

  ghost predicate VolumeFits(v: Volume)
  {
    BootSectorFits(v.boot) && v.mftStart < U64Limit
  }

  /** The volume a mount of `dev` produces, or None when the mount fails. */
  function MountImage(dev: Device): (r: Option<Volume>)
    ensures r.Some? ==> VolumeFits(r.value)
    ensures r.Some? ==> r.value.boot.endOfSectorMarker == EndOfSectorMarker
    ensures r.Some? ==>
      r.value.mftStart == (r.value.boot.mftCluster * r.value.boot.sectorsPerCluster) % U64Limit
  {
    match ReadSector(dev, 0, BootSectorSize)
    case None => None
    case Some(bytes) =>
      var b := DecodeBootSector(bytes);
      DecodeBootSectorFits(bytes);
      if b.endOfSectorMarker != EndOfSectorMarker then None
      else Some(Volume(b, (b.mftCluster * b.sectorsPerCluster) % U64Limit))
  }

  /** A device whose first sector encodes a boot sector with the end
      marker mounts, and the MFT starts at cluster times sectors per cluster. */
  lemma MountEncodedBootSector(b: BootSector, rest: seq<byte>)
    requires BootSectorFits(b) && b.endOfSectorMarker == EndOfSectorMarker
    ensures MountImage(Some(EncodeBootSector(b) + rest))
      == Some(Volume(b, (b.mftCluster * b.sectorsPerCluster) % U64Limit))
  {
    var s := EncodeBootSector(b);
    DecodeEncodeBootSector(b);
    assert (s + rest)[0..BootSectorSize] == s;
  }

  /** A boot sector without the end marker is refused. */
  lemma MountRejectsMissingMarker(b: BootSector, rest: seq<byte>)
    requires BootSectorFits(b) && b.endOfSectorMarker != EndOfSectorMarker
    ensures MountImage(Some(EncodeBootSector(b) + rest)).None?
  {
    var s := EncodeBootSector(b);
    DecodeEncodeBootSector(b);
    assert (s + rest)[0..BootSectorSize] == s;
  }

  /** A device whose bytes 510 and 511 are not 0x55, 0xAA is refused, and
      one that holds a whole sector ending in them is accepted. */
  lemma MountChecksMarkerBytes(dev: Device)
    requires dev.Some? && |dev.value| >= BootSectorSize
    ensures MountImage(dev).Some? <==> dev.value[510] == 0x55 && dev.value[511] == 0xAA
  {
    var s := dev.value[0..BootSectorSize];
    EndMarkerBytes(s);
  }

  /** A device that cannot be opened or is shorter than a sector is refused. */
  lemma MountRejectsShortDevice(dev: Device)
    requires dev.None? || |dev.value| < BootSectorSize
    ensures MountImage(dev).None?
  {
  }

  /* ---------------- MFT entries ---------------- */

  /** The byte position the source reads entry `n` from: the start of the
      sector holding byte `n * 42` of the MFT, all in `uint64_t`. */
  function SourceEntryPosition(v: Volume, n: nat): (p: nat)
    requires v.mftStart < U64Limit && n < U64Limit
    ensures p < U64Limit
  {
    var sector := (v.mftStart + ((n * MftEntrySize) % U64Limit) / SectorSize) % U64Limit;
    (sector * SectorSize) % U64Limit
  }

  /** As written, entries 0 and 1 are read from the same bytes. */
  lemma SourceEntriesAlias(v: Volume)
    requires v.mftStart < U64Limit
    ensures SourceEntryPosition(v, 1) == SourceEntryPosition(v, 0)
  {
  }

  /** The byte position of entry `n`: `n * 42` bytes past the MFT start. */
  function EntryPosition(v: Volume, n: nat): (p: nat)
    requires v.mftStart < U64Limit && n < U64Limit
    ensures p < U64Limit
  {
    (v.mftStart * SectorSize + n * MftEntrySize) % U64Limit
  }

  /** Without wrap-around, distinct entries occupy disjoint byte ranges,
      and entry 0 is where the source reads it. */
  lemma EntriesDisjoint(v: Volume, n: nat, m: nat)
    requires v.mftStart < U64Limit && n < m < U64Limit
    requires v.mftStart * SectorSize + m * MftEntrySize < U64Limit
    ensures EntryPosition(v, n) + MftEntrySize <= EntryPosition(v, m)
    ensures EntryPosition(v, 0) == SourceEntryPosition(v, 0)
  {
    assert v.mftStart * SectorSize < U64Limit;
    assert v.mftStart * SectorSize + n * MftEntrySize < U64Limit by {
      assert n * MftEntrySize < m * MftEntrySize;
    }
    assert n * MftEntrySize + MftEntrySize <= m * MftEntrySize;
  }

  /** Read MFT entry `n` of the mounted volume as the driver does: 42 bytes
      from the start of the sector that holds byte `n * 42` of the MFT,
      accepted exactly when they start with the "FILE" signature. */
  function ReadEntry(vol: Option<Volume>, dev: Device, n: nat): (r: Outcome<seq<byte>>)
    requires vol.Some? ==> vol.value.mftStart < U64Limit
    requires n < U64Limit
    ensures vol.None? <==> r == Err(NotMounted)
    ensures r.Ok? <==> (vol.Some?
      && ReadAt(dev, SourceEntryPosition(vol.value, n), MftEntrySize).Some?
      && DecodeMftEntry(ReadAt(dev, SourceEntryPosition(vol.value, n), MftEntrySize).value).signature
         == FileSignature)
    ensures r.Ok? ==> (|r.value| == MftEntrySize
      && ReadAt(dev, SourceEntryPosition(vol.value, n), MftEntrySize) == Some(r.value))
    ensures r == Err(InvalidEntry) <==> (vol.Some?
      && ReadAt(dev, SourceEntryPosition(vol.value, n), MftEntrySize).Some?
      && DecodeMftEntry(ReadAt(dev, SourceEntryPosition(vol.value, n), MftEntrySize).value).signature
         != FileSignature)
    ensures r == Err(ReadFailed) <==> (vol.Some?
      && ReadAt(dev, SourceEntryPosition(vol.value, n), MftEntrySize).None?)
  {
    match vol
    case None => Err(NotMounted)
    case Some(v) =>
      match ReadAt(dev, SourceEntryPosition(v, n), MftEntrySize)
      case None => Err(ReadFailed)
      case Some(bytes) =>
        if DecodeMftEntry(bytes).signature != FileSignature then Err(InvalidEntry)
        else Ok(bytes)
  }

  /** As written, reading entry 1 gives back entry 0, whatever the device holds. */
  lemma ReadEntryOneIsEntryZero(vol: Option<Volume>, dev: Device)
    requires vol.Some? ==> vol.value.mftStart < U64Limit
    ensures ReadEntry(vol, dev, 1) == ReadEntry(vol, dev, 0)
  {
  }

  /** Entry 0, the only one the file read uses, is read from its corrected
      position, so the correction leaves the file read unchanged. */
  lemma ReadEntryZeroAtCorrectedPosition(vol: Option<Volume>, dev: Device)
    requires vol.Some? && vol.value.mftStart < U64Limit
    ensures ReadEntry(vol, dev, 0).Ok? ==>
      ReadAt(dev, EntryPosition(vol.value, 0), MftEntrySize) == Some(ReadEntry(vol, dev, 0).value)
    ensures ReadEntry(vol, dev, 0) == Err(ReadFailed) <==>
      ReadAt(dev, EntryPosition(vol.value, 0), MftEntrySize).None?
  {
  }

  /* ---------------- attributes ---------------- */

  /** The attribute header at byte `off` of an entry, read in place. */
  function AttributeAt(e: seq<byte>, off: nat): AttributeHeader
    requires off + AttributeHeaderSize <= |e|
  {
    AttributeHeader(
      U32At(e, off), U32At(e, off + 4), e[off + 8] as nat, e[off + 9] as nat,
      U16At(e, off + 10), U16At(e, off + 12), U16At(e, off + 14))
  }

  /** Reading the header in place agrees with decoding its 16 bytes. */
  lemma AttributeAtIsDecoded(e: seq<byte>, off: nat)
    requires off + AttributeHeaderSize <= |e|
    ensures AttributeAt(e, off) == DecodeAttributeHeader(e[off..off + AttributeHeaderSize])
  {
    var h := e[off..off + AttributeHeaderSize];
    U32AtIsLittleEndian(h, 0);
    U32AtIsLittleEndian(h, 4);
    U16AtIsLittleEndian(h, 10);
    U16AtIsLittleEndian(h, 12);
    U16AtIsLittleEndian(h, 14);
    assert U32At(h, 0) == U32At(e, off) && U32At(h, 4) == U32At(e, off + 4);
    assert U16At(h, 10) == U16At(e, off + 10) && U16At(h, 12) == U16At(e, off + 12);
    assert U16At(h, 14) == U16At(e, off + 14);
    U8IsLittleEndian(h, 8);
    U8IsLittleEndian(h, 9);
  }

  /** As written, the walk advances by the header's length; a header of
      length 0 leaves the position where it was. */
  function SourceNextAttribute(e: seq<byte>, off: nat): (next: nat)
    requires off + AttributeHeaderSize <= |e|
    ensures next >= off
  {
    off + AttributeAt(e, off).length
  }

  /** The source loop revisits a zero-length header of another type for ever. */
  lemma SourceScanStalls(e: seq<byte>, off: nat, used: nat, t: nat)
    requires off < used && off + AttributeHeaderSize <= |e|
    requires AttributeAt(e, off).attributeType != t && AttributeAt(e, off).length == 0
    ensures SourceNextAttribute(e, off) == off && off < used
  {
  }

  /** The first attribute of type `t` at or after `off`, following the
      length chain while the position is below `used`. A header that
      does not fit in the entry, or that has length 0, ends the search. */
  function Scan(e: seq<byte>, off: nat, used: nat, t: nat): (r: Outcome<nat>)
    decreases used - off
    ensures r.Ok? ==> (off <= r.value < used && r.value + AttributeHeaderSize <= |e|
      && AttributeAt(e, r.value).attributeType == t)
    ensures r.Err? ==> r.fault == AttributeNotFound || r.fault == MalformedAttribute
  {
    if off >= used then Err(AttributeNotFound)
    else if off + AttributeHeaderSize > |e| then Err(MalformedAttribute)
    else
      var a := AttributeAt(e, off);
      if a.attributeType == t then Ok(off)
      else if a.length == 0 then Err(MalformedAttribute)
      else Scan(e, off + a.length, used, t)
  }

  /** The walk stops with an error at a zero-length header of another type. */
  lemma ScanRejectsZeroLength(e: seq<byte>, off: nat, used: nat, t: nat)
    requires off < used && off + AttributeHeaderSize <= |e|
    requires AttributeAt(e, off).attributeType != t && AttributeAt(e, off).length == 0
    ensures Scan(e, off, used, t) == Err(MalformedAttribute)
  {
  }

  /** Search an MFT entry for an attribute of type `t`; the walk starts at
      the entry's first-attribute offset and is bounded by its used size. */
  function FindAttribute(e: seq<byte>, t: nat): (r: Outcome<nat>)
    requires |e| == MftEntrySize
    ensures r.Ok? ==> (DecodeMftEntry(e).offsetToFirstAttribute <= r.value < DecodeMftEntry(e).usedSize
      && r.value + AttributeHeaderSize <= |e| && AttributeAt(e, r.value).attributeType == t)
  {
    var m := DecodeMftEntry(e);
    Scan(e, m.offsetToFirstAttribute, m.usedSize, t)
  }

  /** Reference: the positions of all headers the walk from `off` visits,
      regardless of their type. */
  ghost function Walk(e: seq<byte>, off: nat, used: nat): (w: seq<nat>)
    decreases used - off
    ensures forall i :: 0 <= i < |w| ==> off <= w[i] < used && w[i] + AttributeHeaderSize <= |e|
    ensures |w| > 0 ==> w[0] == off
  {
    if off >= used || off + AttributeHeaderSize > |e| then []
    else
      var len := AttributeAt(e, off).length;
      if len == 0 then [off] else [off] + Walk(e, off + len, used)
  }

  /** The header at position `i` of `w` has a positive length and the
      next position is where it ends. */
  ghost predicate Linked(e: seq<byte>, w: seq<nat>, i: nat)
    requires i + 1 < |w| && w[i] + AttributeHeaderSize <= |e|
  {
    AttributeAt(e, w[i]).length > 0 && w[i + 1] == w[i] + AttributeAt(e, w[i]).length
  }

  /** Each visited header starts where the previous one ends, so the
      positions strictly increase. */
  lemma {:induction false} WalkLinks(e: seq<byte>, off: nat, used: nat)
    decreases used - off
    ensures forall i :: 0 <= i < |Walk(e, off, used)| - 1 ==> Linked(e, Walk(e, off, used), i)
  {
    if off < used && off + AttributeHeaderSize <= |e| {
      var len := AttributeAt(e, off).length;
      if len > 0 {
        var w' := Walk(e, off + len, used);
        WalkLinks(e, off + len, used);
        var w := Walk(e, off, used);
        assert w == [off] + w';
        forall i | 0 <= i < |w| - 1
          ensures Linked(e, w, i)
        {
          if i > 0 {
            assert Linked(e, w', i - 1);
            assert w[i] == w'[i - 1] && w[i + 1] == w'[i];
          } else {
            assert w[1] == w'[0];
          }
        }
      }
    }
  }

  /** The walk from `off` reaches `used` without meeting a header that does
      not fit or has length 0. */
  ghost predicate WalkEnds(e: seq<byte>, off: nat, used: nat)
    decreases used - off
  {
    off >= used
    || (off + AttributeHeaderSize <= |e| && AttributeAt(e, off).length > 0
        && WalkEnds(e, off + AttributeAt(e, off).length, used))
  }

  /** The first position in `w` whose header has type `t`. */
  ghost function FirstOfType(e: seq<byte>, w: seq<nat>, t: nat): (r: Option<nat>)
    requires forall i :: 0 <= i < |w| ==> w[i] + AttributeHeaderSize <= |e|
    ensures r.Some? ==> r.value in w && AttributeAt(e, r.value).attributeType == t
    ensures r.None? ==> forall i :: 0 <= i < |w| ==> AttributeAt(e, w[i]).attributeType != t
  {
    if w == [] then None
    else if AttributeAt(e, w[0]).attributeType == t then Some(w[0])
    else FirstOfType(e, w[1..], t)
  }

  /** Reference search: the first header of type `t` on the walk; failing
      that, not-found when the walk ends at `used` and malformed otherwise. */
  ghost function WalkSearch(e: seq<byte>, off: nat, used: nat, t: nat): Outcome<nat>
  {
    var first := FirstOfType(e, Walk(e, off, used), t);
    if first.Some? then Ok(first.value)
    else if WalkEnds(e, off, used) then Err(AttributeNotFound)
    else Err(MalformedAttribute)
  }

  /** The driver's scan and the reference search agree on every entry. */
  lemma {:induction false} ScanFollowsWalk(e: seq<byte>, off: nat, used: nat, t: nat)
    decreases used - off
    ensures Scan(e, off, used, t) == WalkSearch(e, off, used, t)
  {
    if off >= used || off + AttributeHeaderSize > |e| {
      WalkSearchAtEnd(e, off, used, t);
    } else if AttributeAt(e, off).attributeType == t {
      WalkSearchAtMatch(e, off, used, t);
    } else if AttributeAt(e, off).length == 0 {
      WalkSearchAtZeroLength(e, off, used, t);
    } else {
      ScanFollowsWalk(e, off + AttributeAt(e, off).length, used, t);
      WalkSearchStep(e, off, used, t);
    }
  }

  /** At `used`, or at a header that does not fit, the walk is empty. */
  lemma WalkSearchAtEnd(e: seq<byte>, off: nat, used: nat, t: nat)
    requires off >= used || off + AttributeHeaderSize > |e|
    ensures Scan(e, off, used, t) == WalkSearch(e, off, used, t)
  {
    assert Walk(e, off, used) == [];
  }

  /** A header of the wanted type is the first one both searches report. */
  lemma WalkSearchAtMatch(e: seq<byte>, off: nat, used: nat, t: nat)
    requires off < used && off + AttributeHeaderSize <= |e|
    requires AttributeAt(e, off).attributeType == t
    ensures Scan(e, off, used, t) == WalkSearch(e, off, used, t) == Ok(off)
  {
    var w := Walk(e, off, used);
    assert w[0] == off;
  }

  /** A zero-length header of another type ends both searches as malformed. */
  lemma WalkSearchAtZeroLength(e: seq<byte>, off: nat, used: nat, t: nat)
    requires off < used && off + AttributeHeaderSize <= |e|
    requires AttributeAt(e, off).attributeType != t && AttributeAt(e, off).length == 0
    ensures Scan(e, off, used, t) == WalkSearch(e, off, used, t) == Err(MalformedAttribute)
  {
    assert Walk(e, off, used) == [off];
  }

  /** Past a header of another type with a positive length, both searches
      go on from where that header ends. */
  lemma WalkSearchStep(e: seq<byte>, off: nat, used: nat, t: nat)
    requires off < used && off + AttributeHeaderSize <= |e|
    requires AttributeAt(e, off).attributeType != t && AttributeAt(e, off).length > 0
    ensures Scan(e, off, used, t) == Scan(e, off + AttributeAt(e, off).length, used, t)
    ensures WalkSearch(e, off, used, t) == WalkSearch(e, off + AttributeAt(e, off).length, used, t)
  {
    var w' := Walk(e, off + AttributeAt(e, off).length, used);
    assert Walk(e, off, used) == [off] + w';
    assert ([off] + w')[1..] == w';
  }

  /* ---------------- reading a file ---------------- */

  /** The data of the file: the resident $DATA attribute of MFT entry 0.
      As in the source, `length` bytes are taken from `nameOffset` bytes
      past the attribute header, and they must lie inside the entry. */
  function FileContents(vol: Option<Volume>, dev: Device, size: nat): (r: Outcome<seq<byte>>)
    requires vol.Some? ==> vol.value.mftStart < U64Limit
    ensures vol.None? ==> r == Err(NotMounted)
    ensures r.Ok? ==> |r.value| <= size && |r.value| <= MftEntrySize
  {
    match ReadEntry(vol, dev, 0)
    case Err(f) => Err(f)
    case Ok(e) =>
      match FindAttribute(e, DataAttributeType)
      case Err(f) => Err(f)
      case Ok(off) =>
        var a := AttributeAt(e, off);
        if a.nonResident != 0 then Err(NonResident)
        else if a.length > size then Err(BufferTooSmall)
        else if off + a.nameOffset + a.length > |e| then Err(MalformedAttribute)
        else Ok(e[off + a.nameOffset .. off + a.nameOffset + a.length])
  }

  /** What a successful read returns: bytes of a valid entry 0, taken from
      the first $DATA attribute on its walk, which is resident. */
  lemma ReadFileSource(vol: Option<Volume>, dev: Device, size: nat)
    requires vol.Some? ==> vol.value.mftStart < U64Limit
    requires FileContents(vol, dev, size).Ok?
    ensures ReadEntry(vol, dev, 0).Ok?
    ensures var e := ReadEntry(vol, dev, 0).value;
      var off := FindAttribute(e, DataAttributeType);
      off.Ok?
      && AttributeAt(e, off.value).nonResident == 0
      && |FileContents(vol, dev, size).value| == AttributeAt(e, off.value).length
      && FileContents(vol, dev, size).value
         == e[off.value + AttributeAt(e, off.value).nameOffset ..][..AttributeAt(e, off.value).length]
  {
  }

  /** The converse: a readable entry 0 whose first $DATA attribute is
      resident, fits in the buffer and lies inside the entry is read. */
  lemma ReadFileSucceeds(vol: Option<Volume>, dev: Device, size: nat)
    requires vol.Some? ==> vol.value.mftStart < U64Limit
    requires ReadEntry(vol, dev, 0).Ok?
    requires FindAttribute(ReadEntry(vol, dev, 0).value, DataAttributeType).Ok?
    requires var e := ReadEntry(vol, dev, 0).value;
      var a := AttributeAt(e, FindAttribute(e, DataAttributeType).value);
      a.nonResident == 0 && a.length <= size
      && FindAttribute(e, DataAttributeType).value + a.nameOffset + a.length <= |e|
    ensures var e := ReadEntry(vol, dev, 0).value;
      var off := FindAttribute(e, DataAttributeType).value;
      var a := AttributeAt(e, off);
      FileContents(vol, dev, size) == Ok(e[off + a.nameOffset .. off + a.nameOffset + a.length])
  {
  }

  /** Only the 42 bytes of entry 0 matter: two devices that agree on them
      give the same read. */
  lemma ReadFileDependsOnEntryZero(vol: Option<Volume>, dev1: Device, dev2: Device, size: nat)
    requires vol.Some? ==> vol.value.mftStart < U64Limit
    requires ReadEntry(vol, dev1, 0) == ReadEntry(vol, dev2, 0)
    ensures FileContents(vol, dev1, size) == FileContents(vol, dev2, size)
  {
  }

  /** A larger buffer never changes a successful read, and a read refused
      for a small buffer succeeds or fails for another reason once the
      buffer is large enough for any attribute in the entry. */
  lemma ReadFileBufferSize(vol: Option<Volume>, dev: Device, size: nat, larger: nat)
    requires vol.Some? ==> vol.value.mftStart < U64Limit
    requires size <= larger
    ensures FileContents(vol, dev, size).Ok? ==> FileContents(vol, dev, larger) == FileContents(vol, dev, size)
    ensures FileContents(vol, dev, larger) == Err(BufferTooSmall) ==> FileContents(vol, dev, size) == Err(BufferTooSmall)
  {
  }

  /* ---------------- the driver ---------------- */

  /** The driver's single mount slot. */
  class NtfsDriver {
    var volume: Option<Volume>

    ghost predicate Valid()
      reads this
    {
      volume.Some? ==> VolumeFits(volume.value)
    }

    constructor ()
      ensures Valid() && volume == None
    {
      volume := None;
    }

    /** Mount the device: 0 on success, -1 when the boot sector cannot be
        read or lacks the end marker, leaving nothing mounted. */
    method Mount(dev: Device) returns (r: int)
      modifies this
      ensures Valid()
      ensures volume == MountImage(dev)
      ensures r == (if volume.Some? then 0 else -1)
    {
      var bytes := ReadSector(dev, 0, BootSectorSize);
      if bytes.None? {
        volume := None;
        return -1;
      }
      var b := DecodeBootSector(bytes.value);
      DecodeBootSectorFits(bytes.value);
      if b.endOfSectorMarker != EndOfSectorMarker {
        volume := None;
        return -1;
      }
      volume := Some(Volume(b, (b.mftCluster * b.sectorsPerCluster) % U64Limit));
      r := 0;
    }

    /** Unmount: 0 if a volume was mounted, -1 otherwise; nothing is mounted after. */
    method Unmount() returns (r: int)
      modifies this
      ensures Valid() && volume == None
      ensures r == (if old(volume).Some? then 0 else -1)
    {
      if volume.Some? {
        volume := None;
        r := 0;
      } else {
        r := -1;
      }
    }

    /** Read MFT entry `n`: 0 and its bytes, or -1. The mount state is not touched. */
    method ReadMftEntry(dev: Device, n: nat) returns (r: int, entry: seq<byte>)
      requires Valid() && n < U64Limit
      ensures r == 0 || r == -1
      ensures r == 0 <==> ReadEntry(volume, dev, n).Ok?
      ensures r == 0 ==> entry == ReadEntry(volume, dev, n).value
    {
      var res := ReadEntry(volume, dev, n);
      if res.Err? {
        return -1, [];
      }
      return 0, res.value;
    }

    /** Read the file at `path` into a buffer of `size` bytes: the number of
        bytes read and the bytes, or -1. The path does not take part. */
    method ReadFile(dev: Device, path: string, size: nat) returns (r: int, data: seq<byte>)
      requires Valid()
      ensures r == -1 || r == |data|
      ensures r >= 0 <==> FileContents(volume, dev, size).Ok?
      ensures r >= 0 ==> data == FileContents(volume, dev, size).value
    {
      var res := FileContents(volume, dev, size);
      if res.Err? {
        return -1, [];
      }
      return |res.value|, res.value;
    }
  }

  /** Mounting, unmounting twice: the second unmount finds nothing. */
  method MountCycle(dev: Device) returns (mounted: int, first: int, second: int)
    ensures mounted == 0 <==> MountImage(dev).Some?
    ensures first == mounted
    ensures second == -1
  {
    var driver := new NtfsDriver();
    mounted := driver.Mount(dev);
    first := driver.Unmount();
    second := driver.Unmount();
  }
}
