/** The packed on-disk layouts of the NTFS driver (src/lib/ntfs3.h): the
    512-byte boot sector, the 42-byte MFT entry header and the 16-byte
    attribute header, each as a record with a decoder from bytes and an
    encoder back to bytes, plus the driver's error codes.

    Multi-byte fields are little-endian and unsigned, except the two
    signed 8-bit clusters-per-record fields of the boot sector. */
module NtfsLayout {
  import opened Base

  /* ---------------- little-endian integers ---------------- */

  /** 256 to the power n: one more than the largest n-byte value. */
  function Pow256(n: nat): (p: nat)
    ensures p >= 1
  {
    if n == 0 then 1 else 256 * Pow256(n - 1)
  }

  /** The unsigned value of the little-endian bytes `s`. */
  function LittleEndian(s: seq<byte>): nat
  {
    if s == [] then 0 else s[0] as nat + 256 * LittleEndian(s[1..])
  }

  /** An `n`-byte field holds a value below 256^n. */
  lemma {:induction false} LittleEndianBound(s: seq<byte>)
    ensures LittleEndian(s) < Pow256(|s|)
  {
    if s != [] {
      LittleEndianBound(s[1..]);
    }
  }

  /** The `n` little-endian bytes of `v`. */
  function ToLittleEndian(v: nat, n: nat): (s: seq<byte>)
    requires v < Pow256(n)
    ensures |s| == n
  {
    if n == 0 then [] else [(v % 256) as byte] + ToLittleEndian(v / 256, n - 1)
  }

  lemma {:induction false} LittleEndianOfToLittleEndian(v: nat, n: nat)
    requires v < Pow256(n)
    ensures LittleEndian(ToLittleEndian(v, n)) == v
  {
    if n > 0 {
      LittleEndianOfToLittleEndian(v / 256, n - 1);
      assert ToLittleEndian(v, n)[1..] == ToLittleEndian(v / 256, n - 1);
    }
  }

  lemma {:induction false} ToLittleEndianOfLittleEndian(s: seq<byte>)
    ensures LittleEndian(s) < Pow256(|s|) && ToLittleEndian(LittleEndian(s), |s|) == s
  {
    LittleEndianBound(s);
    if s != [] {
      ToLittleEndianOfLittleEndian(s[1..]);
      var v := LittleEndian(s);
      assert v % 256 == s[0] as nat;
      assert v / 256 == LittleEndian(s[1..]);
    }
  }

  /** Little-endian values of concatenated fields combine positionally. */
  lemma {:induction false} LittleEndianAppend(a: seq<byte>, b: seq<byte>)
    ensures LittleEndian(a + b) == LittleEndian(a) + Pow256(|a|) * LittleEndian(b)
  {
    if a == [] {
      assert a + b == b;
    } else {
      LittleEndianAppend(a[1..], b);
      assert (a + b)[1..] == a[1..] + b;
      var p := Pow256(|a| - 1);
      calc {
        LittleEndian(a + b);
        a[0] as nat + 256 * LittleEndian(a[1..] + b);
        a[0] as nat + 256 * (LittleEndian(a[1..]) + p * LittleEndian(b));
        a[0] as nat + 256 * LittleEndian(a[1..]) + (256 * p) * LittleEndian(b);
      }
    }
  }

  /** The 16-bit little-endian field at byte `i`, read in place. */
  function U16At(s: seq<byte>, i: nat): nat
    requires i + 2 <= |s|
  {
    s[i] as nat + 256 * s[i + 1] as nat
  }

  /** The 32-bit little-endian field at byte `i`, read in place. */
  function U32At(s: seq<byte>, i: nat): nat
    requires i + 4 <= |s|
  {
    U16At(s, i) + 0x1_0000 * U16At(s, i + 2)
  }

  lemma U16AtIsLittleEndian(s: seq<byte>, i: nat)
    requires i + 2 <= |s|
    ensures U16At(s, i) == LittleEndian(s[i..i + 2])
  {
    var f := s[i..i + 2];
    assert f[1..][1..] == [];
    assert LittleEndian(f[1..]) == s[i + 1] as nat + 256 * LittleEndian(f[1..][1..]);
  }

  /** The 64-bit little-endian field at byte `i`, read in place. */
  function U64At(s: seq<byte>, i: nat): nat
    requires i + 8 <= |s|
  {
    U32At(s, i) + 0x1_0000_0000 * U32At(s, i + 4)
  }

  lemma U64AtIsLittleEndian(s: seq<byte>, i: nat)
    requires i + 8 <= |s|
    ensures U64At(s, i) == LittleEndian(s[i..i + 8])
  {
    U32AtIsLittleEndian(s, i);
    U32AtIsLittleEndian(s, i + 4);
    assert s[i..i + 8] == s[i..i + 4] + s[i + 4..i + 8];
    LittleEndianAppend(s[i..i + 4], s[i + 4..i + 8]);
    assert Pow256(4) == 0x1_0000_0000;
  }

  lemma U8IsLittleEndian(s: seq<byte>, i: nat)
    requires i + 1 <= |s|
    ensures s[i] as nat == LittleEndian(s[i..i + 1])
  {
    assert s[i..i + 1][1..] == [];
  }

  lemma U32AtIsLittleEndian(s: seq<byte>, i: nat)
    requires i + 4 <= |s|
    ensures U32At(s, i) == LittleEndian(s[i..i + 4])
  {
    U16AtIsLittleEndian(s, i);
    U16AtIsLittleEndian(s, i + 2);
    assert s[i..i + 4] == s[i..i + 2] + s[i + 2..i + 4];
    LittleEndianAppend(s[i..i + 2], s[i + 2..i + 4]);
  }

  /** A one-byte two's-complement value (C `int8_t`). */
  function Int8Of(s: seq<byte>): (c: int)
    requires |s| == 1
    ensures -128 <= c < 128
    ensures c >= 0 <==> s[0] < 128
  {
    if s[0] < 128 then s[0] as int else s[0] as int - 256
  }

  function Int8Bytes(c: int): (s: seq<byte>)
    requires -128 <= c < 128
    ensures |s| == 1
  {
    if c < 0 then [(c + 256) as byte] else [c as byte]
  }

  lemma Int8RoundTrip(c: int, s: seq<byte>)
    requires -128 <= c < 128 && |s| == 1
    ensures Int8Of(Int8Bytes(c)) == c
    ensures Int8Bytes(Int8Of(s)) == s
  {
  }

  /* ---------------- cutting a record into adjacent fields ---------------- */

  /** Adjacent slices of a sequence glue back into the slice that spans them. */
  lemma Adjacent3(s: seq<byte>, a: nat, b: nat, c: nat, d: nat)
    requires a <= b <= c <= d <= |s|
    ensures s[a..b] + s[b..c] + s[c..d] == s[a..d]
  {
    assert s[a..b] + s[b..c] == s[a..c];
  }

  lemma Adjacent4(s: seq<byte>, a: nat, b: nat, c: nat, d: nat, e: nat)
    requires a <= b <= c <= d <= e <= |s|
    ensures s[a..b] + s[b..c] + s[c..d] + s[d..e] == s[a..e]
  {
    Adjacent3(s, a, b, c, d);
    assert s[a..d] + s[d..e] == s[a..e];
  }

  lemma Adjacent5(s: seq<byte>, a: nat, b: nat, c: nat, d: nat, e: nat, f: nat)
    requires a <= b <= c <= d <= e <= f <= |s|
    ensures s[a..b] + s[b..c] + s[c..d] + s[d..e] + s[e..f] == s[a..f]
  {
    Adjacent4(s, a, b, c, d, e);
    assert s[a..e] + s[e..f] == s[a..f];
  }

  /* ---------------- boot sector (512 bytes) ---------------- */

  const BootSectorSize := 512
  /** The value of the last two bytes of a valid boot sector. */
  const EndOfSectorMarker := 0xAA55

  datatype BootSector = BootSector(
    jump: seq<byte>, oemId: seq<byte>, bytesPerSector: nat, sectorsPerCluster: nat,
    reservedSectors: nat, zeroes1: seq<byte>, notUsed1: nat, mediaDescriptor: nat,
    zeroes2: nat, sectorsPerTrack: nat, numberOfHeads: nat, hiddenSectors: nat,
    notUsed2: nat, notUsed3: nat, totalSectors: nat, mftCluster: nat,
    mftMirrorCluster: nat, clustersPerFileRecord: int, notUsed4: seq<byte>,
    clustersPerIndexRecord: int, notUsed5: seq<byte>, volumeSerialNumber: nat,
    checksum: nat, bootstrap: seq<byte>, endOfSectorMarker: nat)

  /** Every field fits its width in the packed structure. */
  ghost predicate BootSectorFits(b: BootSector)
  {
    |b.jump| == 3 && |b.oemId| == 8 && |b.zeroes1| == 3 && |b.notUsed4| == 3
    && |b.notUsed5| == 3 && |b.bootstrap| == 426
    && b.bytesPerSector < Pow256(2) && b.sectorsPerCluster < Pow256(1)
    && b.reservedSectors < Pow256(2) && b.notUsed1 < Pow256(2) && b.mediaDescriptor < Pow256(1)
    && b.zeroes2 < Pow256(2) && b.sectorsPerTrack < Pow256(2) && b.numberOfHeads < Pow256(2)
    && b.hiddenSectors < Pow256(4) && b.notUsed2 < Pow256(4) && b.notUsed3 < Pow256(4)
    && b.totalSectors < Pow256(8) && b.mftCluster < Pow256(8) && b.mftMirrorCluster < Pow256(8)
    && -128 <= b.clustersPerFileRecord < 128 && -128 <= b.clustersPerIndexRecord < 128
    && b.volumeSerialNumber < Pow256(8) && b.checksum < Pow256(4) && b.endOfSectorMarker < Pow256(2)
  }

  function DecodeBootSector(s: seq<byte>): (b: BootSector)
    requires |s| == BootSectorSize
  {
    BootSector(
      s[0..3], s[3..11], LittleEndian(s[11..13]), LittleEndian(s[13..14]),
      LittleEndian(s[14..16]), s[16..19], LittleEndian(s[19..21]), LittleEndian(s[21..22]),
      LittleEndian(s[22..24]), LittleEndian(s[24..26]), LittleEndian(s[26..28]), LittleEndian(s[28..32]),
      LittleEndian(s[32..36]), LittleEndian(s[36..40]), LittleEndian(s[40..48]), LittleEndian(s[48..56]),
      LittleEndian(s[56..64]), Int8Of(s[64..65]), s[65..68],
      Int8Of(s[68..69]), s[69..72], LittleEndian(s[72..80]),
      LittleEndian(s[80..84]), s[84..510], LittleEndian(s[510..512]))
  }

  /** Every decoded field fits its width. */
  lemma DecodeBootSectorFits(s: seq<byte>)
    requires |s| == BootSectorSize
    ensures BootSectorFits(DecodeBootSector(s))
  {
    LittleEndianBound(s[11..13]);
    LittleEndianBound(s[13..14]);
    LittleEndianBound(s[14..16]);
    LittleEndianBound(s[19..21]);
    LittleEndianBound(s[21..22]);
    LittleEndianBound(s[22..24]);
    LittleEndianBound(s[24..26]);
    LittleEndianBound(s[26..28]);
    LittleEndianBound(s[28..32]);
    LittleEndianBound(s[32..36]);
    LittleEndianBound(s[36..40]);
    LittleEndianBound(s[40..48]);
    LittleEndianBound(s[48..56]);
    LittleEndianBound(s[56..64]);
    LittleEndianBound(s[72..80]);
    LittleEndianBound(s[80..84]);
    LittleEndianBound(s[510..512]);
  }

  function EncodeBootSector(b: BootSector): (s: seq<byte>)
    requires BootSectorFits(b)
  {
    BootBytes0(b) + BootBytes16(b) + BootBytes26(b) + BootBytes48(b) + BootBytes69(b)
  }

  /** Bytes 0-15: jump, OEM id, bytes per sector, sectors per cluster, reserved sectors. */
  function BootBytes0(b: BootSector): seq<byte>
    requires BootSectorFits(b)
  {
    b.jump + b.oemId + ToLittleEndian(b.bytesPerSector, 2) + ToLittleEndian(b.sectorsPerCluster, 1)
    + ToLittleEndian(b.reservedSectors, 2)
  }

  /** Bytes 16-25: zeroes, unused, media descriptor, zeroes, sectors per track. */
  function BootBytes16(b: BootSector): seq<byte>
    requires BootSectorFits(b)
  {
    b.zeroes1 + ToLittleEndian(b.notUsed1, 2) + ToLittleEndian(b.mediaDescriptor, 1)
    + ToLittleEndian(b.zeroes2, 2) + ToLittleEndian(b.sectorsPerTrack, 2)
  }

  /** Bytes 26-47: heads, hidden sectors, two unused words, total sectors. */
  function BootBytes26(b: BootSector): seq<byte>
    requires BootSectorFits(b)
  {
    ToLittleEndian(b.numberOfHeads, 2) + ToLittleEndian(b.hiddenSectors, 4) + ToLittleEndian(b.notUsed2, 4)
    + ToLittleEndian(b.notUsed3, 4) + ToLittleEndian(b.totalSectors, 8)
  }

  /** Bytes 48-68: MFT cluster, mirror cluster, clusters per file record and per index record. */
  function BootBytes48(b: BootSector): seq<byte>
    requires BootSectorFits(b)
  {
    ToLittleEndian(b.mftCluster, 8) + ToLittleEndian(b.mftMirrorCluster, 8)
    + Int8Bytes(b.clustersPerFileRecord) + b.notUsed4 + Int8Bytes(b.clustersPerIndexRecord)
  }

  /** Bytes 69-511: unused, serial number, checksum, bootstrap code, end marker. */
  function BootBytes69(b: BootSector): seq<byte>
    requires BootSectorFits(b)
  {
    b.notUsed5 + ToLittleEndian(b.volumeSerialNumber, 8) + ToLittleEndian(b.checksum, 4)
    + b.bootstrap + ToLittleEndian(b.endOfSectorMarker, 2)
  }

  /** Where each field lands in the encoded sector. */
  lemma BootSectorSlices(b: BootSector)
    requires BootSectorFits(b)
    ensures var s := EncodeBootSector(b);
      |s| == BootSectorSize
      && s[0..3] == b.jump && s[3..11] == b.oemId
      && s[11..13] == ToLittleEndian(b.bytesPerSector, 2) && s[13..14] == ToLittleEndian(b.sectorsPerCluster, 1)
      && s[14..16] == ToLittleEndian(b.reservedSectors, 2) && s[16..19] == b.zeroes1
      && s[19..21] == ToLittleEndian(b.notUsed1, 2) && s[21..22] == ToLittleEndian(b.mediaDescriptor, 1)
      && s[22..24] == ToLittleEndian(b.zeroes2, 2) && s[24..26] == ToLittleEndian(b.sectorsPerTrack, 2)
      && s[26..28] == ToLittleEndian(b.numberOfHeads, 2) && s[28..32] == ToLittleEndian(b.hiddenSectors, 4)
      && s[32..36] == ToLittleEndian(b.notUsed2, 4) && s[36..40] == ToLittleEndian(b.notUsed3, 4)
      && s[40..48] == ToLittleEndian(b.totalSectors, 8) && s[48..56] == ToLittleEndian(b.mftCluster, 8)
      && s[56..64] == ToLittleEndian(b.mftMirrorCluster, 8) && s[64..65] == Int8Bytes(b.clustersPerFileRecord)
      && s[65..68] == b.notUsed4 && s[68..69] == Int8Bytes(b.clustersPerIndexRecord)
      && s[69..72] == b.notUsed5 && s[72..80] == ToLittleEndian(b.volumeSerialNumber, 8)
      && s[80..84] == ToLittleEndian(b.checksum, 4) && s[84..510] == b.bootstrap
      && s[510..512] == ToLittleEndian(b.endOfSectorMarker, 2)
  {
    var s := EncodeBootSector(b);
    assert s[0..16] == BootBytes0(b);
    assert s[16..26] == BootBytes16(b);
    assert s[26..48] == BootBytes26(b);
    assert s[48..69] == BootBytes48(b);
    assert s[69..512] == BootBytes69(b);
  }

  /** Encoding a boot sector and decoding the 512 bytes gives it back. */
  lemma DecodeEncodeBootSector(b: BootSector)
    requires BootSectorFits(b)
    ensures |EncodeBootSector(b)| == BootSectorSize
    ensures DecodeBootSector(EncodeBootSector(b)) == b
  {
    LittleEndianOfToLittleEndian(b.bytesPerSector, 2);
    LittleEndianOfToLittleEndian(b.sectorsPerCluster, 1);
    LittleEndianOfToLittleEndian(b.reservedSectors, 2);
    LittleEndianOfToLittleEndian(b.notUsed1, 2);
    LittleEndianOfToLittleEndian(b.mediaDescriptor, 1);
    LittleEndianOfToLittleEndian(b.zeroes2, 2);
    LittleEndianOfToLittleEndian(b.sectorsPerTrack, 2);
    LittleEndianOfToLittleEndian(b.numberOfHeads, 2);
    LittleEndianOfToLittleEndian(b.hiddenSectors, 4);
    LittleEndianOfToLittleEndian(b.notUsed2, 4);
    LittleEndianOfToLittleEndian(b.notUsed3, 4);
    LittleEndianOfToLittleEndian(b.totalSectors, 8);
    LittleEndianOfToLittleEndian(b.mftCluster, 8);
    LittleEndianOfToLittleEndian(b.mftMirrorCluster, 8);
    LittleEndianOfToLittleEndian(b.volumeSerialNumber, 8);
    LittleEndianOfToLittleEndian(b.checksum, 4);
    LittleEndianOfToLittleEndian(b.endOfSectorMarker, 2);
    Int8RoundTrip(b.clustersPerFileRecord, [0]);
    Int8RoundTrip(b.clustersPerIndexRecord, [0]);
    BootSectorSlices(b);
  }

  /** Decoding 512 bytes and encoding the record gives the same bytes. */
  lemma EncodeDecodeBootSector(s: seq<byte>)
    requires |s| == BootSectorSize
    ensures BootSectorFits(DecodeBootSector(s)) && EncodeBootSector(DecodeBootSector(s)) == s
  {
    BootBytes0OfDecode(s);
    BootBytes16OfDecode(s);
    BootBytes26OfDecode(s);
    BootBytes48OfDecode(s);
    BootBytes69OfDecode(s);
    Adjacent5(s, 0, 16, 26, 48, 69, 512);
  }

  lemma BootBytes0OfDecode(s: seq<byte>)
    requires |s| == BootSectorSize
    ensures BootSectorFits(DecodeBootSector(s)) && BootBytes0(DecodeBootSector(s)) == s[0..16]
  {
    DecodeBootSectorFits(s);
    var b := DecodeBootSector(s);
    ToLittleEndianOfLittleEndian(s[11..13]);
    assert ToLittleEndian(b.bytesPerSector, 2) == s[11..13];
    ToLittleEndianOfLittleEndian(s[13..14]);
    assert ToLittleEndian(b.sectorsPerCluster, 1) == s[13..14];
    ToLittleEndianOfLittleEndian(s[14..16]);
    assert ToLittleEndian(b.reservedSectors, 2) == s[14..16];
    Adjacent5(s, 0, 3, 11, 13, 14, 16);
  }

  lemma BootBytes16OfDecode(s: seq<byte>)
    requires |s| == BootSectorSize
    ensures BootSectorFits(DecodeBootSector(s)) && BootBytes16(DecodeBootSector(s)) == s[16..26]
  {
    DecodeBootSectorFits(s);
    var b := DecodeBootSector(s);
    ToLittleEndianOfLittleEndian(s[19..21]);
    assert ToLittleEndian(b.notUsed1, 2) == s[19..21];
    ToLittleEndianOfLittleEndian(s[21..22]);
    assert ToLittleEndian(b.mediaDescriptor, 1) == s[21..22];
    ToLittleEndianOfLittleEndian(s[22..24]);
    assert ToLittleEndian(b.zeroes2, 2) == s[22..24];
    ToLittleEndianOfLittleEndian(s[24..26]);
    assert ToLittleEndian(b.sectorsPerTrack, 2) == s[24..26];
    Adjacent5(s, 16, 19, 21, 22, 24, 26);
  }

  lemma BootBytes26OfDecode(s: seq<byte>)
    requires |s| == BootSectorSize
    ensures BootSectorFits(DecodeBootSector(s)) && BootBytes26(DecodeBootSector(s)) == s[26..48]
  {
    DecodeBootSectorFits(s);
    var b := DecodeBootSector(s);
    ToLittleEndianOfLittleEndian(s[26..28]);
    assert ToLittleEndian(b.numberOfHeads, 2) == s[26..28];
    ToLittleEndianOfLittleEndian(s[28..32]);
    assert ToLittleEndian(b.hiddenSectors, 4) == s[28..32];
    ToLittleEndianOfLittleEndian(s[32..36]);
    assert ToLittleEndian(b.notUsed2, 4) == s[32..36];
    ToLittleEndianOfLittleEndian(s[36..40]);
    assert ToLittleEndian(b.notUsed3, 4) == s[36..40];
    ToLittleEndianOfLittleEndian(s[40..48]);
    assert ToLittleEndian(b.totalSectors, 8) == s[40..48];
    Adjacent5(s, 26, 28, 32, 36, 40, 48);
  }

  lemma BootBytes48OfDecode(s: seq<byte>)
    requires |s| == BootSectorSize
    ensures BootSectorFits(DecodeBootSector(s)) && BootBytes48(DecodeBootSector(s)) == s[48..69]
  {
    DecodeBootSectorFits(s);
    var b := DecodeBootSector(s);
    ToLittleEndianOfLittleEndian(s[48..56]);
    assert ToLittleEndian(b.mftCluster, 8) == s[48..56];
    ToLittleEndianOfLittleEndian(s[56..64]);
    assert ToLittleEndian(b.mftMirrorCluster, 8) == s[56..64];
    Int8RoundTrip(0, s[64..65]);
    assert Int8Bytes(b.clustersPerFileRecord) == s[64..65];
    Int8RoundTrip(0, s[68..69]);
    assert Int8Bytes(b.clustersPerIndexRecord) == s[68..69];
    Adjacent5(s, 48, 56, 64, 65, 68, 69);
  }

  lemma BootBytes69OfDecode(s: seq<byte>)
    requires |s| == BootSectorSize
    ensures BootSectorFits(DecodeBootSector(s)) && BootBytes69(DecodeBootSector(s)) == s[69..512]
  {
    DecodeBootSectorFits(s);
    var b := DecodeBootSector(s);
    ToLittleEndianOfLittleEndian(s[72..80]);
    assert ToLittleEndian(b.volumeSerialNumber, 8) == s[72..80];
    ToLittleEndianOfLittleEndian(s[80..84]);
    assert ToLittleEndian(b.checksum, 4) == s[80..84];
    ToLittleEndianOfLittleEndian(s[510..512]);
    assert ToLittleEndian(b.endOfSectorMarker, 2) == s[510..512];
    Adjacent5(s, 69, 72, 80, 84, 510, 512);
  }

  /** Where the fields the driver uses sit in the sector: bytes per
      sector at 11, sectors per cluster at 13, total sectors at 40, the MFT
      cluster at 48 and the end marker in the last two bytes. */
  lemma BootSectorFieldOffsets(s: seq<byte>)
    requires |s| == BootSectorSize
    ensures var b := DecodeBootSector(s);
      b.bytesPerSector == U16At(s, 11)
      && b.sectorsPerCluster == s[13] as nat
      && b.totalSectors == U64At(s, 40)
      && b.mftCluster == U64At(s, 48)
      && b.endOfSectorMarker == U16At(s, 510)
  {
    U16AtIsLittleEndian(s, 11);
    U8IsLittleEndian(s, 13);
    U16AtIsLittleEndian(s, 510);
    U64AtIsLittleEndian(s, 40);
    U64AtIsLittleEndian(s, 48);
  }

  /** The end marker 0xAA55 is the byte 0x55 followed by 0xAA. */
  lemma EndMarkerBytes(s: seq<byte>)
    requires |s| == BootSectorSize
    ensures DecodeBootSector(s).endOfSectorMarker == EndOfSectorMarker <==> s[510] == 0x55 && s[511] == 0xAA
  {
    BootSectorFieldOffsets(s);
  }

  /* ---------------- MFT entry header (42 bytes) ---------------- */

  const MftEntrySize := 42
  /** "FILE" read as a little-endian 32-bit word. */
  const FileSignature := 0x454C4946

  datatype MftEntry = MftEntry(
    signature: nat, offsetOfFixupArray: nat, numberOfEntriesInFixupArray: nat,
    logFileSequenceNumber: nat, sequenceNumber: nat, linkCount: nat,
    offsetToFirstAttribute: nat, flags: nat, usedSize: nat, allocatedSize: nat,
    fileReferenceToBaseRecord: nat, nextAttributeId: nat)

  ghost predicate MftEntryFits(m: MftEntry)
  {
    m.signature < Pow256(4) && m.offsetOfFixupArray < Pow256(2) && m.numberOfEntriesInFixupArray < Pow256(2)
    && m.logFileSequenceNumber < Pow256(8) && m.sequenceNumber < Pow256(2) && m.linkCount < Pow256(2)
    && m.offsetToFirstAttribute < Pow256(2) && m.flags < Pow256(2) && m.usedSize < Pow256(4)
    && m.allocatedSize < Pow256(4) && m.fileReferenceToBaseRecord < Pow256(8) && m.nextAttributeId < Pow256(2)
  }

  function DecodeMftEntry(s: seq<byte>): (m: MftEntry)
    requires |s| == MftEntrySize
    ensures MftEntryFits(m)
  {
    LittleEndianBound(s[0..4]);
    LittleEndianBound(s[4..6]);
    LittleEndianBound(s[6..8]);
    LittleEndianBound(s[8..16]);
    LittleEndianBound(s[16..18]);
    LittleEndianBound(s[18..20]);
    LittleEndianBound(s[20..22]);
    LittleEndianBound(s[22..24]);
    LittleEndianBound(s[24..28]);
    LittleEndianBound(s[28..32]);
    LittleEndianBound(s[32..40]);
    LittleEndianBound(s[40..42]);
    MftEntry(
      LittleEndian(s[0..4]), LittleEndian(s[4..6]), LittleEndian(s[6..8]), LittleEndian(s[8..16]),
      LittleEndian(s[16..18]), LittleEndian(s[18..20]), LittleEndian(s[20..22]), LittleEndian(s[22..24]),
      LittleEndian(s[24..28]), LittleEndian(s[28..32]), LittleEndian(s[32..40]), LittleEndian(s[40..42]))
  }

  function EncodeMftEntry(m: MftEntry): (s: seq<byte>)
    requires MftEntryFits(m)
  {
    MftBytes0(m) + MftBytes16(m) + MftBytes28(m)
  }

  /** Bytes 0-15: signature, fixup array offset and count, log sequence number. */
  function MftBytes0(m: MftEntry): seq<byte>
    requires MftEntryFits(m)
  {
    ToLittleEndian(m.signature, 4) + ToLittleEndian(m.offsetOfFixupArray, 2)
    + ToLittleEndian(m.numberOfEntriesInFixupArray, 2) + ToLittleEndian(m.logFileSequenceNumber, 8)
  }

  /** Bytes 16-27: sequence number, link count, first attribute offset, flags, used size. */
  function MftBytes16(m: MftEntry): seq<byte>
    requires MftEntryFits(m)
  {
    ToLittleEndian(m.sequenceNumber, 2) + ToLittleEndian(m.linkCount, 2)
    + ToLittleEndian(m.offsetToFirstAttribute, 2) + ToLittleEndian(m.flags, 2) + ToLittleEndian(m.usedSize, 4)
  }

  /** Bytes 28-41: allocated size, base record reference, next attribute id. */
  function MftBytes28(m: MftEntry): seq<byte>
    requires MftEntryFits(m)
  {
    ToLittleEndian(m.allocatedSize, 4) + ToLittleEndian(m.fileReferenceToBaseRecord, 8)
    + ToLittleEndian(m.nextAttributeId, 2)
  }

  /** Where each field lands in the encoded header. */
  lemma MftEntrySlices(m: MftEntry)
    requires MftEntryFits(m)
    ensures var s := EncodeMftEntry(m);
      |s| == MftEntrySize
      && s[0..4] == ToLittleEndian(m.signature, 4)
      && s[4..6] == ToLittleEndian(m.offsetOfFixupArray, 2)
      && s[6..8] == ToLittleEndian(m.numberOfEntriesInFixupArray, 2)
      && s[8..16] == ToLittleEndian(m.logFileSequenceNumber, 8)
      && s[16..18] == ToLittleEndian(m.sequenceNumber, 2)
      && s[18..20] == ToLittleEndian(m.linkCount, 2)
      && s[20..22] == ToLittleEndian(m.offsetToFirstAttribute, 2)
      && s[22..24] == ToLittleEndian(m.flags, 2)
      && s[24..28] == ToLittleEndian(m.usedSize, 4)
      && s[28..32] == ToLittleEndian(m.allocatedSize, 4)
      && s[32..40] == ToLittleEndian(m.fileReferenceToBaseRecord, 8)
      && s[40..42] == ToLittleEndian(m.nextAttributeId, 2)
  {
    var s := EncodeMftEntry(m);
    assert s[0..16] == MftBytes0(m);
    assert s[16..28] == MftBytes16(m);
    assert s[28..42] == MftBytes28(m);
  }

  /** Encoding a header and decoding the 42 bytes gives it back. */
  lemma DecodeEncodeMftEntry(m: MftEntry)
    requires MftEntryFits(m)
    ensures |EncodeMftEntry(m)| == MftEntrySize
    ensures DecodeMftEntry(EncodeMftEntry(m)) == m
  {
    LittleEndianOfToLittleEndian(m.signature, 4);
    LittleEndianOfToLittleEndian(m.offsetOfFixupArray, 2);
    LittleEndianOfToLittleEndian(m.numberOfEntriesInFixupArray, 2);
    LittleEndianOfToLittleEndian(m.logFileSequenceNumber, 8);
    LittleEndianOfToLittleEndian(m.sequenceNumber, 2);
    LittleEndianOfToLittleEndian(m.linkCount, 2);
    LittleEndianOfToLittleEndian(m.offsetToFirstAttribute, 2);
    LittleEndianOfToLittleEndian(m.flags, 2);
    LittleEndianOfToLittleEndian(m.usedSize, 4);
    LittleEndianOfToLittleEndian(m.allocatedSize, 4);
    LittleEndianOfToLittleEndian(m.fileReferenceToBaseRecord, 8);
    LittleEndianOfToLittleEndian(m.nextAttributeId, 2);
    MftEntrySlices(m);
  }

  /** Decoding 42 bytes and encoding the header gives the same bytes. */
  lemma EncodeDecodeMftEntry(s: seq<byte>)
    requires |s| == MftEntrySize
    ensures EncodeMftEntry(DecodeMftEntry(s)) == s
  {
    MftBytes0OfDecode(s);
    MftBytes16OfDecode(s);
    MftBytes28OfDecode(s);
    Adjacent3(s, 0, 16, 28, 42);
  }

  lemma MftBytes0OfDecode(s: seq<byte>)
    requires |s| == MftEntrySize
    ensures MftBytes0(DecodeMftEntry(s)) == s[0..16]
  {
    var m := DecodeMftEntry(s);
    ToLittleEndianOfLittleEndian(s[0..4]);
    assert ToLittleEndian(m.signature, 4) == s[0..4];
    ToLittleEndianOfLittleEndian(s[4..6]);
    assert ToLittleEndian(m.offsetOfFixupArray, 2) == s[4..6];
    ToLittleEndianOfLittleEndian(s[6..8]);
    assert ToLittleEndian(m.numberOfEntriesInFixupArray, 2) == s[6..8];
    ToLittleEndianOfLittleEndian(s[8..16]);
    assert ToLittleEndian(m.logFileSequenceNumber, 8) == s[8..16];
    Adjacent4(s, 0, 4, 6, 8, 16);
  }

  lemma MftBytes16OfDecode(s: seq<byte>)
    requires |s| == MftEntrySize
    ensures MftBytes16(DecodeMftEntry(s)) == s[16..28]
  {
    var m := DecodeMftEntry(s);
    ToLittleEndianOfLittleEndian(s[16..18]);
    assert ToLittleEndian(m.sequenceNumber, 2) == s[16..18];
    ToLittleEndianOfLittleEndian(s[18..20]);
    assert ToLittleEndian(m.linkCount, 2) == s[18..20];
    ToLittleEndianOfLittleEndian(s[20..22]);
    assert ToLittleEndian(m.offsetToFirstAttribute, 2) == s[20..22];
    ToLittleEndianOfLittleEndian(s[22..24]);
    assert ToLittleEndian(m.flags, 2) == s[22..24];
    ToLittleEndianOfLittleEndian(s[24..28]);
    assert ToLittleEndian(m.usedSize, 4) == s[24..28];
    Adjacent5(s, 16, 18, 20, 22, 24, 28);
  }

  lemma MftBytes28OfDecode(s: seq<byte>)
    requires |s| == MftEntrySize
    ensures MftBytes28(DecodeMftEntry(s)) == s[28..42]
  {
    var m := DecodeMftEntry(s);
    ToLittleEndianOfLittleEndian(s[28..32]);
    assert ToLittleEndian(m.allocatedSize, 4) == s[28..32];
    ToLittleEndianOfLittleEndian(s[32..40]);
    assert ToLittleEndian(m.fileReferenceToBaseRecord, 8) == s[32..40];
    ToLittleEndianOfLittleEndian(s[40..42]);
    assert ToLittleEndian(m.nextAttributeId, 2) == s[40..42];
    Adjacent3(s, 28, 32, 40, 42);
  }

  /** Where the fields the driver uses sit in the header: the signature
      at 0, the first attribute offset at 20, the used size at 24 and the
      allocated size at 28. */
  lemma MftEntryFieldOffsets(s: seq<byte>)
    requires |s| == MftEntrySize
    ensures var m := DecodeMftEntry(s);
      m.signature == U32At(s, 0)
      && m.offsetToFirstAttribute == U16At(s, 20)
      && m.usedSize == U32At(s, 24)
      && m.allocatedSize == U32At(s, 28)
  {
    U32AtIsLittleEndian(s, 0);
    U16AtIsLittleEndian(s, 20);
    U32AtIsLittleEndian(s, 24);
    U32AtIsLittleEndian(s, 28);
  }

  /** An entry carries the signature exactly when it starts with the
      characters "FILE". */
  lemma FileSignatureBytes(s: seq<byte>)
    requires |s| == MftEntrySize
    ensures DecodeMftEntry(s).signature == FileSignature <==> s[0..4] == [0x46, 0x49, 0x4C, 0x45]
  {
    MftEntryFieldOffsets(s);
  }

  /* ---------------- attribute header (16 bytes) ---------------- */

  const AttributeHeaderSize := 16
  /** The type code of the $DATA attribute. */
  const DataAttributeType := 0x80

  datatype AttributeHeader = AttributeHeader(
    attributeType: nat, length: nat, nonResident: nat, nameLength: nat,
    nameOffset: nat, flags: nat, attributeId: nat)

  ghost predicate AttributeHeaderFits(a: AttributeHeader)
  {
    a.attributeType < Pow256(4) && a.length < Pow256(4) && a.nonResident < Pow256(1)
    && a.nameLength < Pow256(1) && a.nameOffset < Pow256(2) && a.flags < Pow256(2)
    && a.attributeId < Pow256(2)
  }

  function DecodeAttributeHeader(s: seq<byte>): (a: AttributeHeader)
    requires |s| == AttributeHeaderSize
    ensures AttributeHeaderFits(a)
  {
    LittleEndianBound(s[0..4]);
    LittleEndianBound(s[4..8]);
    LittleEndianBound(s[8..9]);
    LittleEndianBound(s[9..10]);
    LittleEndianBound(s[10..12]);
    LittleEndianBound(s[12..14]);
    LittleEndianBound(s[14..16]);
    AttributeHeader(
      LittleEndian(s[0..4]), LittleEndian(s[4..8]), LittleEndian(s[8..9]), LittleEndian(s[9..10]),
      LittleEndian(s[10..12]), LittleEndian(s[12..14]), LittleEndian(s[14..16]))
  }

  function EncodeAttributeHeader(a: AttributeHeader): (s: seq<byte>)
    requires AttributeHeaderFits(a)
  {
    ToLittleEndian(a.attributeType, 4) + ToLittleEndian(a.length, 4) + ToLittleEndian(a.nonResident, 1)
    + ToLittleEndian(a.nameLength, 1) + ToLittleEndian(a.nameOffset, 2) + ToLittleEndian(a.flags, 2)
    + ToLittleEndian(a.attributeId, 2)
  }

  lemma DecodeEncodeAttributeHeader(a: AttributeHeader)
    requires AttributeHeaderFits(a)
    ensures |EncodeAttributeHeader(a)| == AttributeHeaderSize
    ensures DecodeAttributeHeader(EncodeAttributeHeader(a)) == a
  {
    var s := EncodeAttributeHeader(a);
    LittleEndianOfToLittleEndian(a.attributeType, 4);
    LittleEndianOfToLittleEndian(a.length, 4);
    LittleEndianOfToLittleEndian(a.nonResident, 1);
    LittleEndianOfToLittleEndian(a.nameLength, 1);
    LittleEndianOfToLittleEndian(a.nameOffset, 2);
    LittleEndianOfToLittleEndian(a.flags, 2);
    LittleEndianOfToLittleEndian(a.attributeId, 2);
    assert s[0..4] == ToLittleEndian(a.attributeType, 4);
    assert s[4..8] == ToLittleEndian(a.length, 4);
    assert s[8..9] == ToLittleEndian(a.nonResident, 1);
    assert s[9..10] == ToLittleEndian(a.nameLength, 1);
    assert s[10..12] == ToLittleEndian(a.nameOffset, 2);
    assert s[12..14] == ToLittleEndian(a.flags, 2);
    assert s[14..16] == ToLittleEndian(a.attributeId, 2);
  }

  lemma EncodeDecodeAttributeHeader(s: seq<byte>)
    requires |s| == AttributeHeaderSize
    ensures EncodeAttributeHeader(DecodeAttributeHeader(s)) == s
  {
    ToLittleEndianOfLittleEndian(s[0..4]);
    ToLittleEndianOfLittleEndian(s[4..8]);
    ToLittleEndianOfLittleEndian(s[8..9]);
    ToLittleEndianOfLittleEndian(s[9..10]);
    ToLittleEndianOfLittleEndian(s[10..12]);
    ToLittleEndianOfLittleEndian(s[12..14]);
    ToLittleEndianOfLittleEndian(s[14..16]);
    assert s[0..4] + s[4..8] + s[8..9] + s[9..10] + s[10..12] + s[12..14] + s[14..16] == s;
  }

  /* ---------------- error codes ---------------- */

  const Success := 0

  datatype NtfsError =
    | MaxDevicesReached
    | MemoryAllocationFailure
    | ReadingBootSector
    | InvalidBootSector
    | DeviceNotFound
    | DeviceInUse
    | ReadingSector
    | WritingSector
    | FileNotFound
    | InvalidMftEntry

  /** The integer each error is reported as. */
  function Code(e: NtfsError): (c: int)
    ensures -10 <= c <= -1
    ensures c != Success
  {
    match e
    case MaxDevicesReached => -1
    case MemoryAllocationFailure => -2
    case ReadingBootSector => -3
    case InvalidBootSector => -4
    case DeviceNotFound => -5
    case DeviceInUse => -6
    case ReadingSector => -7
    case WritingSector => -8
    case FileNotFound => -9
    case InvalidMftEntry => -10
  }

  /** The error an integer code stands for, if any. */
  function ErrorOf(c: int): (r: Option<NtfsError>)
    ensures r.None? <==> (c < -10 || c > -1)
  {
    if c == -1 then Some(MaxDevicesReached)
    else if c == -2 then Some(MemoryAllocationFailure)
    else if c == -3 then Some(ReadingBootSector)
    else if c == -4 then Some(InvalidBootSector)
    else if c == -5 then Some(DeviceNotFound)
    else if c == -6 then Some(DeviceInUse)
    else if c == -7 then Some(ReadingSector)
    else if c == -8 then Some(WritingSector)
    else if c == -9 then Some(FileNotFound)
    else if c == -10 then Some(InvalidMftEntry)
    else None
  }

  /** Codes and errors are in one-to-one correspondence. */
  lemma CodeRoundTrip(e: NtfsError, c: int)
    ensures ErrorOf(Code(e)) == Some(e)
    ensures ErrorOf(c).Some? ==> Code(ErrorOf(c).value) == c
  {
  }

  /** No two errors share a code, and none is the success code. */
  lemma CodesDistinct(e1: NtfsError, e2: NtfsError)
    ensures Code(e1) == Code(e2) <==> e1 == e2
    ensures Code(e1) != Success
  {
    CodeRoundTrip(e1, 0);
    CodeRoundTrip(e2, 0);
  }
}
