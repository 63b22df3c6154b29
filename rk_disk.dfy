/**
 * The state of an RK DOS volume as values. The disk image is 160 track
 * sides of 3125 bytes, each holding five sectors of 512 data bytes. The
 * volume keeps, besides the image, a table of 160 x 5 sector descriptors
 * (here one sequence of 800, entry `5 t + s` for track `t`, sector `s`, which
 * is how the C++ two-dimensional array is laid out), the list of files, the
 * free-sector and free-directory-entry counters and the "disk read" flag.
 *
 * A sector descriptor's data pointer is an offset into the image; before
 * `readSectors` finds the sector it is `Unset` (the C++ array is not
 * initialised). Following such a pointer, reading outside the image buffer
 * or indexing the table outside its 800 entries is undefined behaviour in the
 * source; the model stops there with the status `Undefined`.
 */
module RkDisk {
  import opened Bytes

  /** A value of the source's `uint16_t`. */
  type uint16 = x: int | 0 <= x < 0x1_0000

  const Tracks := 160
  const SectorsPerTrack := 5
  const SectorCount := 800
  const TrackBytes := 3125
  const ImageBytes := 500000
  const SectorBytes := 512

  /** Sector (32, 0) holds the allocation bitmap (VTOC), the directory
    * chain starts at (32, 1). */
  const VtocTrack := 32
  const VtocIndex := 160
  const DirIndex := 161

  /** A data pointer `readSectors` has not set. */
  const Unset := -1

  /** The table entry of track `t`, sector `s`. (The empty `reads` clause
    * keeps the verifier from evaluating this and the next functions on
    * literal arguments, which loops when an argument equals the result.) */
  function Index(t: int, s: int): int reads {} { 5 * t + s }

  /** A little-endian 16-bit field of the image (no literal evaluation
    * either: `Word(lo, 0)` is `lo`). */
  function Word(lo: uint8, hi: uint8): int reads {} { lo as int + 256 * hi as int }

  /** The track and the sector of table entry `i`. */
  function TrackOf(i: int): int reads {} { i / 5 }
  function SectorOf(i: int): int reads {} { i % 5 }

  lemma IndexParts(t: int, s: int)
    requires 0 <= s < SectorsPerTrack
    ensures TrackOf(Index(t, s)) == t && SectorOf(Index(t, s)) == s
  {
  }

  /** `RkSector`: where the sector's data starts in the image, its length,
    * whether it must be written back and whether it is in use
    * (`allocated`, a reserved word in Dafny). */
  datatype RkSector = RkSector(ptr: int, len: uint16, dirty: bool, isAllocated: bool)

  /** `RkFileInfo`: a directory entry as the volume lists it, with where
    * the entry itself lies (directory sector and offset in it). */
  datatype RkFileInfo = RkFileInfo(fileName: seq<uint8>, dirTrack: uint8, dirSector: uint8, dirOffset: int,
                                   tList: uint8, sList: uint8, sCount: uint16, attr: uint8, addr: uint16,
                                   fileSize: nat)

  /** The seven kinds of `RkVolumeException`. */
  datatype ExceptionType = SectorNotFound | BadDiskFormat | NoFilesystem | DiskFull | DirFull | FileNotFound | FileExists

  /** An exception with the track and sector it names; both default to 0,
    * and only `SectorNotFound` is thrown with others. */
  datatype RkVolumeException = RkVolumeException(kind: ExceptionType, track: int, sector: int)

  /** How an operation ends: normally, by an exception, in undefined
    * behaviour, or (for a chain walk longer than the volume has sectors)
    * by going round a cycle of links forever. */
  datatype Status = Ok | Thrown(exc: RkVolumeException) | Undefined | Diverges

  /** `throw RkVolumeException {kind}`. */
  function Throw(kind: ExceptionType): Status
  {
    Thrown(RkVolumeException(kind, 0, 0))
  }

  /** `throw RkVolumeException {RVET_SECTOR_NOT_FOUND, t, s}`. */
  function NotFound(t: int, s: int): Status
  {
    Thrown(RkVolumeException(SectorNotFound, t, s))
  }

  /** Everything the volume object holds. */
  datatype Disk = Disk(image: seq<uint8>, sectors: seq<RkSector>, fileList: seq<RkFileInfo>,
                       freeSectors: int, freeDirEntries: int, diskRead: bool)

  /** A data pointer that `readSectors` set lies at least 3 bytes into the
    * image (the length field is written at `ptr - 3`) and leaves room for 512
    * data bytes and the 2 checksum bytes. */
  predicate PtrFits(e: RkSector, size: nat)
  {
    e.ptr == Unset || (3 <= e.ptr && e.ptr + 514 <= size)
  }

  predicate Wf(d: Disk)
  {
    |d.sectors| == SectorCount && forall i :: 0 <= i < SectorCount ==> PtrFits(d.sectors[i], |d.image|)
  }

  /** The table entries keep fitting when only data bytes change. */
  lemma WfImage(d: Disk, img: seq<uint8>)
    requires Wf(d) && |img| == |d.image|
    ensures Wf(d.(image := img))
  {
    assert forall i :: 0 <= i < SectorCount ==> PtrFits(d.sectors[i], |img|) by {
      forall i | 0 <= i < SectorCount
        ensures PtrFits(d.sectors[i], |img|)
      {
        assert PtrFits(d.sectors[i], |d.image|);
      }
    }
  }

  // ---------------------------------------------------------------------
  // Byte-level edits of the image

  /** `memset(img + p, 0, n)`. */
  function Zero(img: seq<uint8>, p: int, n: nat): (r: seq<uint8>)
    requires 0 <= p && p + n <= |img|
    ensures |r| == |img|
    ensures forall j :: 0 <= j < |img| ==> r[j] == if p <= j < p + n then 0 else img[j]
  {
    seq(|img|, j requires 0 <= j < |img| => if p <= j < p + n then 0 else img[j])
  }

  /** `memcpy(img + p, src, |src|)`. */
  function Copy(img: seq<uint8>, p: int, src: seq<uint8>): (r: seq<uint8>)
    requires 0 <= p && p + |src| <= |img|
    ensures |r| == |img|
    ensures forall j :: 0 <= j < |img| ==> r[j] == if p <= j < p + |src| then src[j - p] else img[j]
  {
    seq(|img|, j requires 0 <= j < |img| => if p <= j < p + |src| then src[j - p] else img[j])
  }

  // ---------------------------------------------------------------------
  // Bits of a VTOC byte

  /** Bit `s` of `b`: what `b >> s & 1` tests. */
  predicate TestBit(b: nat, s: nat)
  {
    if s == 0 then b % 2 == 1 else TestBit(b / 2, s - 1)
  }

  /** `b | (1 << s)`. */
  function SetBit(b: nat, s: nat): nat
  {
    if s == 0 then b / 2 * 2 + 1 else 2 * SetBit(b / 2, s - 1) + b % 2
  }

  /** `b & ~(1 << s)`. */
  function ClearBit(b: nat, s: nat): nat
  {
    if s == 0 then b / 2 * 2 else 2 * ClearBit(b / 2, s - 1) + b % 2
  }

  /** Setting bit `s` sets it and keeps every other bit. */
  lemma {:induction false} SetBitBits(b: nat, s: nat, s2: nat)
    ensures TestBit(SetBit(b, s), s2) == (s2 == s || TestBit(b, s2))
  {
    if s > 0 && s2 > 0 {
      SetBitBits(b / 2, s - 1, s2 - 1);
    }
  }

  /** Clearing bit `s` clears it and keeps every other bit. */
  lemma {:induction false} ClearBitBits(b: nat, s: nat, s2: nat)
    ensures TestBit(ClearBit(b, s), s2) == (s2 != s && TestBit(b, s2))
  {
    if s > 0 && s2 > 0 {
      ClearBitBits(b / 2, s - 1, s2 - 1);
    }
  }

  /** A bit set or cleared in a byte leaves a byte. */
  lemma {:induction false} BitsInByte(b: nat, s: nat, n: nat)
    requires s < n && b < Pow2(n)
    ensures SetBit(b, s) < Pow2(n) && ClearBit(b, s) < Pow2(n)
  {
    if s > 0 {
      BitsInByte(b / 2, s - 1, n - 1);
    }
  }

  function Pow2(n: nat): nat
  {
    if n == 0 then 1 else 2 * Pow2(n - 1)
  }

  /** The VTOC byte with bit `s` set. */
  function SetVtocBit(b: uint8, s: nat): (r: uint8)
    requires s < 8
    ensures TestBit(r, s)
  {
    BitsInByte(b, s, 8);
    SetBitBits(b, s, s);
    SetBit(b, s)
  }

  /** The VTOC byte with bit `s` cleared. */
  function ClearVtocBit(b: uint8, s: nat): (r: uint8)
    requires s < 8
    ensures !TestBit(r, s)
  {
    BitsInByte(b, s, 8);
    ClearBitBits(b, s, s);
    ClearBit(b, s)
  }

  // ---------------------------------------------------------------------
  // Counting and searching the sector table and the file list

  /** How many entries are allocated. */
  function Allocated(sec: seq<RkSector>): (n: nat)
    ensures n <= |sec|
  {
    if sec == [] then 0 else Allocated(sec[..|sec| - 1]) + (if sec[|sec| - 1].isAllocated then 1 else 0)
  }

  /** The first entry that is not allocated, in track-major, sector-minor
    * order, or `|sec|` when all are. */
  function FirstFree(sec: seq<RkSector>): (i: nat)
    ensures i <= |sec| && (i < |sec| ==> !sec[i].isAllocated)
    ensures forall j :: 0 <= j < i ==> sec[j].isAllocated
  {
    if sec == [] then 0 else if !sec[0].isAllocated then 0 else 1 + FirstFree(sec[1..])
  }

  /** `::toupper` on each character, in the C locale. */
  function ToUpper(name: seq<uint8>): (r: seq<uint8>)
    ensures |r| == |name|
    ensures forall i :: 0 <= i < |name| ==> r[i] == if IsLower(name[i]) then name[i] - 0x20 else name[i]
  {
    seq(|name|, i requires 0 <= i < |name| => if IsLower(name[i]) then name[i] - 0x20 else name[i])
  }

  /** `find_if` over the file list by name: the first entry with that
    * name, or `|files|`. */
  function FindFile(files: seq<RkFileInfo>, name: seq<uint8>): (i: nat)
    ensures i <= |files| && (i < |files| ==> files[i].fileName == name)
    ensures forall j :: 0 <= j < i ==> files[j].fileName != name
  {
    if files == [] then 0 else if files[0].fileName == name then 0 else 1 + FindFile(files[1..], name)
  }
}
