# AurorOS filesystem drivers in Dafny

This project models the two filesystem drivers of AurorOS and proves
properties of them.

**ARFS** is the native in-memory store in `src/drivers/fs/arfs.h`. It has:

- a fixed table of up to 1024 disks;
- for each disk, a newest-first list of files and one of directories;
- a 32-bit inode counter shared by files and directories;
- per-entry busy flags, which guard deletion and metadata updates.

The table is a Dafny `class Registry` over an `array<Disk>` (module `Arfs`). Each driver call is a method that changes the table in place. Each method is proved against a pure function of the disk it found: `CreateFileOn`, `DeleteFileOn` and the rest. The module `ArfsProperties` proves what those functions promise, alone and in sequence.

**The NTFS driver** is in `src/drivers/fs/ntfs.h` and is read-only. It:

- mounts a volume from its boot sector;
- reads 42-byte MFT entries;
- walks the attribute list of an entry;
- returns the resident `$DATA` attribute of entry 0.

The packed on-disk layouts of `src/lib/ntfs3.h` are in module `NtfsLayout`. Each layout has a little-endian decoder, an encoder and round-trip lemmas in both directions. Further lemmas fix the byte offsets of the fields the driver reads. The header's error codes are in the same module.

Module `Ntfs` holds the driver. The mount singleton is `class NtfsDriver`, whose one field holds the mounted volume or `None`. The disk image is a parameter: its bytes, or `None` when it cannot be opened. Every read goes through `ReadAt`, which follows the seek-then-read sequence of `ntfs_read_sector`.

Three defects of the source are logged under "## Findings", each with an as-written member that shows it and a corrected member. The zero-length attribute header and the ARFS read past the data buffer are fixed in the definitions the rest of the model uses. The MFT entry position is kept as written, because the driver's file read only uses entry 0, where the written and the corrected positions coincide.

Facts of the code the model keeps:

- Every NTFS call returns -1 on failure. The error codes of `ntfs3.h` are defined but never used.
- Every ARFS failure is -1, except "busy", which is -2.
- The inode counter of a disk is a `uint32_t` and wraps at 2^32 (`Arfs.NextInode`).

Where the model departs from the code:

- `Ntfs.Scan` ends the attribute walk as malformed at a zero-length header of another type; `ntfs_find_attribute` loops there for ever.
- `Ntfs.Scan` and `Ntfs.FileContents` report an attribute header or data that lies past the 42-byte entry copy as malformed; the source reads the memory beyond the copy.
- `ArfsProperties.ReadStaysInBuffer` states the read clamped to the data buffer; `arfs_read_file` clamps only to the inode size.

## Model

| member | source | states |
|---|---|---|
| Base.FirstIndex | src/drivers/fs/arfs.h:83-89 | The front-to-back name walk: None exactly when the name is absent; otherwise a position holding it with no earlier match |
| Base.RemoveAt | src/drivers/fs/arfs.h:116-121 | Unlinking entry k: one shorter, entries before k unchanged, entries after k shifted down by one |
| Arfs.NextInode | src/drivers/fs/arfs.h:100 | The post-increment of the `uint32_t` counter stays below 2^32 and is n+1 whenever that fits |
| Arfs.U32 | src/drivers/fs/arfs.h:160 | Storing a byte count into the 32-bit size field keeps it below 2^32 and unchanged when it fits |
| Arfs.Int32 | src/drivers/fs/arfs.h:151 | The `(int)` conversion of a count: unchanged up to 2^31-1, shifted down by 2^32 above that |
| Arfs.DeleteFileKeepsWellFormed | src/drivers/fs/arfs.h:112-130 | Unlinking a file keeps names unique, the counter in range and directories childless |
| Arfs.DeleteDirectoryKeepsWellFormed | src/drivers/fs/arfs.h:205-223 | The same for unlinking a directory |
| Arfs.DiskIndex | src/drivers/fs/arfs.h:70-77 | The slot found is a registered one with that name and no lower registered slot has it; None means no registered slot has it |
| Arfs.FindName | src/drivers/fs/arfs.h:83-89 | The loop over a file or directory list finds exactly the first entry of that name, or reports none |
| Arfs.Registry.constructor | src/drivers/fs/arfs.h:48-49 | The zero-initialised static table: 1024 slots, all empty with counter 0, none registered |
| Arfs.Registry.Init | src/drivers/fs/arfs.h:51-60 | Every slot is emptied with its counter at 1 and no name, and no disk is registered |
| Arfs.Registry.AddDisk | src/drivers/fs/arfs.h:62-68 | -1 and no change on a full table; otherwise 0, the next slot is named and the count grows by one (duplicates accepted) |
| Arfs.Registry.FindDisk | src/drivers/fs/arfs.h:70-77 | The scan returns the lowest registered slot with that name, or none |
| Arfs.Registry.CreateFile | src/drivers/fs/arfs.h:79-110 | -1 and no change for an unknown disk; otherwise exactly `CreateFileOn` applied to the disk found, and the table stays well formed |
| Arfs.Registry.DeleteFile | src/drivers/fs/arfs.h:112-130 | -1 for an unknown disk; otherwise exactly `DeleteFileOn` on the disk found, keeping the table well formed |
| Arfs.Registry.OpenFile | src/drivers/fs/arfs.h:132-145 | A handle is returned exactly when the disk and file exist; the file is then marked busy and nothing else changes |
| Arfs.Registry.ReadFile | src/drivers/fs/arfs.h:147-152 | -1 for a null handle; otherwise the bytes of `ReadFileOn` and their count as an `int` |
| Arfs.Registry.WriteFile | src/drivers/fs/arfs.h:154-163 | -1 for a null handle; otherwise the file's data is replaced by the bytes, with size and modification time updated, the handle stays live, and the count is returned as an `int` |
| Arfs.Registry.CloseFile | src/drivers/fs/arfs.h:165-169 | Clears the busy flag of the handle's file; a null handle changes nothing |
| Arfs.Registry.CreateDirectory | src/drivers/fs/arfs.h:171-203 | -1 for an unknown disk; otherwise exactly `CreateDirectoryOn` on the disk found |
| Arfs.Registry.DeleteDirectory | src/drivers/fs/arfs.h:205-223 | -1 for an unknown disk; otherwise exactly `DeleteDirectoryOn` on the disk found |
| Arfs.Registry.ListDirectory | src/drivers/fs/arfs.h:225-242 | The child count of the named directory, 0 when the disk or directory is absent, and 0 in every reachable state |
| Arfs.Registry.GetMetadata | src/drivers/fs/arfs.h:244-267 | The inode `MetadataOn` finds on the disk found, or None |
| Arfs.Registry.UpdateMetadata | src/drivers/fs/arfs.h:269-294 | -1 for an unknown disk; otherwise exactly `UpdateMetadataOn` on the disk found |
| ArfsProperties.KeepOthers | src/drivers/fs/arfs.h:116-129 | Reference for deletion: only entries of the list whose name differs |
| ArfsProperties.RemoveAtIsKeepOthers | src/drivers/fs/arfs.h:116-129 | With unique names, unlinking the entry at k is keeping every entry with another name, in order |
| ArfsProperties.CreateFileSpec | src/drivers/fs/arfs.h:79-110 | Fails (-1) exactly on a taken name and then changes nothing; otherwise the new empty file heads the list with the old counter as its inode number, timestamps set to now, other lists kept, counter advanced, names still unique |
| ArfsProperties.CreateDirectorySpec | src/drivers/fs/arfs.h:171-203 | The same for directories, drawing on the same counter |
| ArfsProperties.DeleteFileSpec | src/drivers/fs/arfs.h:112-130 | The result is 0, -1 or -2: -1 exactly when the name is absent, -2 exactly when that file is busy, 0 exactly when it is present and idle; no change on failure; on success every other file remains in order and the name is gone |
| ArfsProperties.DeleteDirectorySpec | src/drivers/fs/arfs.h:205-223 | The same for directories: 0, -1 or -2; -1 exactly when absent, -2 exactly when busy, 0 exactly when present and idle |
| ArfsProperties.CreateThenDeleteFile | src/drivers/fs/arfs.h:79-130 | Create then delete of a new name succeeds and restores the disk, except for the advanced counter |
| ArfsProperties.OpenThenDeleteIsBusy | src/drivers/fs/arfs.h:112-145 | Deleting an opened file reports -2 and changes nothing |
| ArfsProperties.OpenCloseThenDelete | src/drivers/fs/arfs.h:112-169 | Open, close, delete succeeds and removes exactly that file |
| ArfsProperties.WriteThenRead | src/drivers/fs/arfs.h:147-163 | After a write, a read of `count` bytes returns the first `min(count, size)` written bytes, and all of them when `count` covers a write below 4 GiB |
| ArfsProperties.SourceReadCount | src/drivers/fs/arfs.h:149 | The driver's read count is `count` clamped to the inode size alone |
| ArfsProperties.SourceReadOverrunsBuffer | src/drivers/fs/arfs.h:147-152 | As written: after an update sets size 8 on a never-written file, the read copies 8 bytes from an empty buffer |
| ArfsProperties.ReadStaysInBuffer | src/drivers/fs/arfs.h:147-152 | Corrected read: a prefix of the data buffer, never longer than it, equal in length to the driver's count whenever size and buffer agree |
| ArfsProperties.MetadataPrefersFiles | src/drivers/fs/arfs.h:244-267 | Files are found before directories of the same name; None exactly when neither list has the name |
| ArfsProperties.UpdateMetadataSpec | src/drivers/fs/arfs.h:269-294 | The result is 0, -1 or -2: -1 exactly when get would find nothing, -2 exactly when the entry get finds is busy, 0 exactly when it is found and idle; no change on failure; on success get returns the new inode, only the entry found changes and the table stays well formed |
| ArfsProperties.HelloScenario | src/drivers/fs/arfs.h:51-267 | Register disk0, create, open, write "hello", read 10 (5 bytes come back), close, delete (0), then get (not found) |
| NtfsLayout.LittleEndianOfToLittleEndian | src/lib/ntfs3.h:8-61 | Encoding a value below 256^n in n little-endian bytes and decoding gives it back |
| NtfsLayout.ToLittleEndianOfLittleEndian | src/lib/ntfs3.h:8-61 | Decoding n bytes gives a value below 256^n that encodes back to the same bytes |
| NtfsLayout.Int8RoundTrip | src/lib/ntfs3.h:26-28 | The signed one-byte fields decode and encode in both directions |
| NtfsLayout.DecodeBootSectorFits | src/lib/ntfs3.h:8-34 | Every decoded boot sector field fits its declared width |
| NtfsLayout.BootSectorSlices | src/lib/ntfs3.h:8-34 | Each field of an encoded boot sector sits at its packed offset (bytes 0-511, no padding) |
| NtfsLayout.DecodeEncodeBootSector | src/lib/ntfs3.h:8-34 | Encoding a boot sector gives 512 bytes that decode to the same sector |
| NtfsLayout.EncodeDecodeBootSector | src/lib/ntfs3.h:8-34 | Every 512-byte sector decodes to a sector that encodes back to the same bytes |
| NtfsLayout.BootSectorFieldOffsets | src/lib/ntfs3.h:11-33 | Bytes per sector is the u16 at 11, sectors per cluster the byte at 13, total sectors the u64 at 40, MFT cluster the u64 at 48, the marker the u16 at 510 |
| NtfsLayout.EndMarkerBytes | src/lib/ntfs3.h:33 | The marker is 0xAA55 exactly when byte 510 is 0x55 and byte 511 is 0xAA |
| NtfsLayout.DecodeEncodeMftEntry | src/lib/ntfs3.h:37-50 | Encoding an MFT entry header gives 42 bytes that decode to it |
| NtfsLayout.EncodeDecodeMftEntry | src/lib/ntfs3.h:37-50 | Every 42-byte record decodes to a header that encodes back to the same bytes |
| NtfsLayout.MftEntryFieldOffsets | src/lib/ntfs3.h:38-47 | Signature is the u32 at 0, first-attribute offset the u16 at 20, used size the u32 at 24, allocated size the u32 at 28 |
| NtfsLayout.FileSignatureBytes | src/drivers/fs/ntfs.h:72 | The signature equals 0x454C4946 exactly when the record starts with the bytes "FILE" |
| NtfsLayout.DecodeEncodeAttributeHeader | src/lib/ntfs3.h:53-61 | Encoding an attribute header gives 16 bytes that decode to it |
| NtfsLayout.EncodeDecodeAttributeHeader | src/lib/ntfs3.h:53-61 | Every 16 bytes decode to a header that encodes back to them |
| NtfsLayout.Code | src/lib/ntfs3.h:71-81 | Every error code lies in -10..-1 and differs from success (0) |
| NtfsLayout.ErrorOf | src/lib/ntfs3.h:71-81 | A code names an error exactly when it lies in -10..-1 |
| NtfsLayout.CodeRoundTrip | src/lib/ntfs3.h:71-81 | Code and error name are inverse both ways |
| NtfsLayout.CodesDistinct | src/lib/ntfs3.h:71-81 | Distinct errors have distinct codes |
| Ntfs.ReadAt | src/drivers/fs/ntfs.h:125-143 | Succeeds exactly when the image opens, the offset is a valid `long` and enough bytes follow; then returns exactly those bytes |
| Ntfs.ReadSector | src/drivers/fs/ntfs.h:131 | Reads at `sector * 512` computed in `uint64_t`, which is the plain product below 2^54 sectors |
| Ntfs.MountImage | src/drivers/fs/ntfs.h:26-48 | A mounted volume has a well-formed boot sector with the 0xAA55 marker and MFT start = MFT cluster x sectors per cluster (mod 2^64) |
| Ntfs.MountEncodedBootSector | src/drivers/fs/ntfs.h:26-48 | An image starting with an encoded boot sector that has the marker mounts exactly that sector and that MFT start |
| Ntfs.MountRejectsMissingMarker | src/drivers/fs/ntfs.h:39-44 | An encoded boot sector without the marker does not mount |
| Ntfs.MountChecksMarkerBytes | src/drivers/fs/ntfs.h:39-44 | An image of at least a sector mounts exactly when bytes 510 and 511 are 0x55 and 0xAA |
| Ntfs.MountRejectsShortDevice | src/drivers/fs/ntfs.h:32-37 | An image that cannot be opened or is shorter than a sector does not mount |
| Ntfs.SourceEntryPosition | src/drivers/fs/ntfs.h:66 | As written: entry n is read from the start of the sector that holds byte n*42 of the MFT, a position below 2^64 |
| Ntfs.SourceEntriesAlias | src/drivers/fs/ntfs.h:66-68 | As written, entries 0 and 1 are read from the same bytes |
| Ntfs.EntryPosition | src/drivers/fs/ntfs.h:66 | Corrected: entry n starts n*42 bytes past the MFT's first byte (mod 2^64) |
| Ntfs.EntriesDisjoint | src/drivers/fs/ntfs.h:66-68 | Corrected positions of distinct entries do not overlap, and entry 0 is where the source reads it |
| Ntfs.ReadEntry | src/drivers/fs/ntfs.h:61-77 | Reads at the source's sector position: not mounted exactly without a volume; read failure exactly when the 42 bytes there cannot be read; invalid entry exactly when they can but lack the "FILE" signature; success exactly when they can and have it, returning those bytes |
| Ntfs.ReadEntryOneIsEntryZero | src/drivers/fs/ntfs.h:66-68 | As written, a read of entry 1 gives the same outcome as a read of entry 0 on every image |
| Ntfs.ReadEntryZeroAtCorrectedPosition | src/drivers/fs/ntfs.h:66-77 | Entry 0 is read from its corrected position: success returns the 42 bytes there, and read failure happens exactly when they cannot be read |
| Ntfs.AttributeAtIsDecoded | src/drivers/fs/ntfs.h:83 | Reading a header in place at an offset agrees with decoding its 16 bytes |
| Ntfs.SourceNextAttribute | src/drivers/fs/ntfs.h:88 | As written, the next position is never before the current one |
| Ntfs.SourceScanStalls | src/drivers/fs/ntfs.h:82-88 | As written, a zero-length header of another type below the used size leaves the loop where it was, for ever |
| Ntfs.Scan | src/drivers/fs/ntfs.h:80-91 | A found position lies in [start, used), holds a whole header and has the wanted type; failures are not-found or malformed |
| Ntfs.ScanRejectsZeroLength | src/drivers/fs/ntfs.h:82-88 | Corrected: a zero-length header of another type ends the search as malformed |
| Ntfs.FindAttribute | src/drivers/fs/ntfs.h:80-91 | A found attribute lies between the entry's first-attribute offset and its used size and has the wanted type |
| Ntfs.Walk | src/drivers/fs/ntfs.h:82-88 | Reference walk: every visited position lies in [start, used) with a whole header, and the walk begins at the start |
| Ntfs.WalkLinks | src/drivers/fs/ntfs.h:82-88 | Each visited header has a positive length and the next position is where it ends |
| Ntfs.FirstOfType | src/drivers/fs/ntfs.h:84 | The first visited header of the type, or a guarantee that none has it |
| Ntfs.ScanFollowsWalk | src/drivers/fs/ntfs.h:80-91 | The scan equals the reference search for every entry: the first header of the type on the walk, else not-found when the walk reaches the used size, else malformed |
| Ntfs.FileContents | src/drivers/fs/ntfs.h:94-122 | Not mounted without a volume; a successful read returns at most `size` bytes and no more than the entry holds |
| Ntfs.ReadFileSource | src/drivers/fs/ntfs.h:99-121 | A successful read comes from a valid entry 0 and the first $DATA attribute on its walk, which is resident; it returns `length` bytes from `name_offset` past that header |
| Ntfs.ReadFileSucceeds | src/drivers/fs/ntfs.h:99-121 | Conversely, a valid entry 0 whose first $DATA attribute is resident, no longer than the buffer and inside the entry yields exactly `length` bytes from `name_offset` past its header |
| Ntfs.ReadFileDependsOnEntryZero | src/drivers/fs/ntfs.h:99-103 | Two images that agree on entry 0 give the same read |
| Ntfs.ReadFileBufferSize | src/drivers/fs/ntfs.h:116-118 | A larger buffer never changes a successful read, and "buffer too small" at a size implies it at every smaller size |
| Ntfs.NtfsDriver.constructor | src/drivers/fs/ntfs.h:23 | Nothing is mounted at start |
| Ntfs.NtfsDriver.Mount | src/drivers/fs/ntfs.h:26-48 | The mount slot becomes `MountImage` of the device, and the result is 0 exactly when a volume is mounted |
| Ntfs.NtfsDriver.Unmount | src/drivers/fs/ntfs.h:51-58 | Nothing is mounted after; 0 exactly when a volume was mounted before, else -1 |
| Ntfs.NtfsDriver.ReadMftEntry | src/drivers/fs/ntfs.h:61-77 | 0 with the entry's bytes exactly when `ReadEntry` succeeds, else -1 |
| Ntfs.NtfsDriver.ReadFile | src/drivers/fs/ntfs.h:94-122 | A non-negative result exactly when `FileContents` succeeds; the result is then the number of bytes delivered, otherwise -1 |
| Ntfs.MountCycle | src/drivers/fs/ntfs.h:26-58 | Mount, unmount, unmount: the first unmount returns what the mount returned and the second returns -1 |

## Left out

- Allocation failure (`malloc`, `strdup`, `realloc` returning null) is not modelled. Allocation always succeeds, so the corresponding -1 paths of add, create, write and mount do not occur.
- The null-buffer checks of `arfs_read_file` and `arfs_write_file` are not modelled. A buffer is a value here, so only the null file handle is modelled (`None`).
- Pointers are not modelled. A file pointer is a `FileRef`: a disk slot and a name. Operations on a handle require it to designate a live file, so using a freed pointer is outside the model.
- `arfs_list_directory` returns the child count only. Nothing in the driver adds children, so the child array is always null.
- Inode fields are unbounded naturals. The 32-bit and 64-bit widths are written out only where the driver computes them: the counter, the size stored by write, and the `int` results.
- Clocks (`time(NULL)`) become a `now` parameter.
- File input and output become a parameter: the image's bytes, or `None`. `ntfs_mount` opens its argument, but `ntfs_read_mft_entry` always opens the file named "device". The model passes one image to both.
- A mount over a mounted volume replaces it. The leak of the old allocation is not modelled.
- `ntfs_device_t` (src/lib/ntfs3.h:63-68) is declared but never used, so it is not modelled.
- Ntfs.FileContents: the source takes attribute headers and data beyond the 42-byte entry copy from memory outside the entry. The model reports `MalformedAttribute` for them instead.
- Ntfs.Scan: a header that does not fit in the 42-byte entry ends the search as malformed. The source reads past the entry there.
- The `path` argument of `ntfs_read_file` is ignored, as in the source.

## Findings

| source | as written | input that shows it | evidently intended | confidence | as-written member | corrected member |
|---|---|---|---|---|---|---|
| src/drivers/fs/arfs.h:147-152 | the read count is clamped to the inode size only, and `arfs_update_metadata` may set any size | create "a", set its size to 8 through update, then read 8 bytes: 8 bytes are copied from an empty buffer | never read past the data buffer | not executed | ArfsProperties.SourceReadOverrunsBuffer | ArfsProperties.ReadStaysInBuffer |
| src/drivers/fs/ntfs.h:66-68 | the sector of entry n is `mft_start + n*42/512`, and the read starts at that sector's first byte | entries 0 and 1 are both read from the first byte of the MFT, so reading entry 1 returns entry 0 | entry n is read `n*42` bytes past the MFT start | not executed | Ntfs.ReadEntryOneIsEntryZero | Ntfs.EntriesDisjoint |
| src/drivers/fs/ntfs.h:82-88 | the loop advances by the header's length, which may be 0 | an entry whose first header has another type and length 0 below the used size: the loop never ends | reject a zero-length header | not executed | Ntfs.SourceScanStalls | Ntfs.ScanRejectsZeroLength |
