/**
 * The allocation side of an RK DOS volume as functions on `Disk`: claiming
 * and releasing sectors, the VTOC bitmap that records which sectors are in
 * use, and writing each changed sector's length and checksum back into the
 * image. The volume's methods are proved to compute exactly these.
 */
module RkSectors {
  import opened Bytes
  import opened Wrappers
  import opened RkDisk

  // ---------------------------------------------------------------------
  // The VTOC and what it must agree with

  /** Bit `s` of VTOC byte `t` for entry `i = 5 t + s`. */
  predicate VtocBit(sec: seq<RkSector>, img: seq<uint8>, i: int)
    requires |sec| == SectorCount && PtrFits(sec[VtocIndex], |img|) && sec[VtocIndex].ptr != Unset
    requires 0 <= i < SectorCount
  {
    TestBit(img[sec[VtocIndex].ptr + TrackOf(i)], SectorOf(i))
  }

  /** Every allocated flag of the table is its bit in the VTOC. */
  predicate Agrees(sec: seq<RkSector>, img: seq<uint8>)
    requires |sec| == SectorCount && PtrFits(sec[VtocIndex], |img|)
  {
    sec[VtocIndex].ptr != Unset &&
    forall i :: 0 <= i < SectorCount ==> sec[i].isAllocated == VtocBit(sec, img, i)
  }

  /** The sector table agrees with the VTOC, and the free counter counts the
    * entries not in use. */
  predicate VtocConsistent(d: Disk)
    requires Wf(d)
  {
    Agrees(d.sectors, d.image) && d.freeSectors == SectorCount - Allocated(d.sectors)
  }

  /** Every entry has a data pointer. */
  predicate AllSet(sec: seq<RkSector>)
  {
    forall i :: 0 <= i < |sec| ==> sec[i].ptr != Unset
  }

  /** No two sectors share a byte of their length fields, data or checksums:
    * the 517 bytes from `ptr - 3` of one entry are apart from another's. */
  predicate Apart(sec: seq<RkSector>)
  {
    forall i, j ::
      0 <= i < |sec| && 0 <= j < |sec| && i != j && sec[i].ptr != Unset && sec[j].ptr != Unset ==>
        sec[i].ptr + 517 <= sec[j].ptr || sec[j].ptr + 517 <= sec[i].ptr
  }

  // ---------------------------------------------------------------------
  // allocateSector, allocateSpecificSector, freeSector

  /** Two tables with the same data pointers and lengths: only flags differ. */
  predicate SameShape(a: seq<RkSector>, b: seq<RkSector>)
  {
    |a| == |b| && forall j :: 0 <= j < |a| ==> b[j].ptr == a[j].ptr && b[j].len == a[j].len
  }

  /** The table with entry `i` marked dirty and in use (`b`) or free, and
    * the VTOC sector marked dirty; the count follows the one flag. */
  function Mark(sec: seq<RkSector>, i: int, b: bool): (r: seq<RkSector>)
    requires |sec| == SectorCount && 0 <= i < SectorCount
    ensures |r| == SectorCount
    ensures forall j :: 0 <= j < SectorCount ==>
      r[j] == sec[j].(dirty := j == i || j == VtocIndex || sec[j].dirty, isAllocated := if j == i then b else sec[j].isAllocated)
    ensures Allocated(r) == Allocated(sec) - (if sec[i].isAllocated then 1 else 0) + (if b then 1 else 0)
  {
    var e := sec[i];
    var s1 := sec[i := e.(dirty := true, isAllocated := b)];
    AllocatedUpdate(sec, i, e.(dirty := true, isAllocated := b));
    AllocatedUpdate(s1, VtocIndex, s1[VtocIndex].(dirty := true));
    s1[VtocIndex := s1[VtocIndex].(dirty := true)]
  }

  /**
   * What `allocateSector` and `allocateSpecificSector` both do to entry `i`:
   * zero its 512 data bytes, mark it dirty and allocated, set its bit in the
   * VTOC and mark the VTOC sector dirty. Going through an unset pointer is
   * undefined.
   */
  function Claim(d: Disk, i: int): (r: (Status, Disk))
    requires Wf(d) && 0 <= i < SectorCount
    ensures r.0 == Ok <==> d.sectors[i].ptr != Unset && d.sectors[VtocIndex].ptr != Unset
    ensures r.0 == Ok ==> Wf(r.1) && |r.1.image| == |d.image|
    ensures r.0 == Ok ==> r.1 == d.(image := r.1.image, sectors := r.1.sectors) && SameShape(d.sectors, r.1.sectors)
    ensures r.0 != Ok ==> r.1 == d
  {
    var p := d.sectors[i].ptr;
    var v := d.sectors[VtocIndex].ptr;
    if p == Unset || v == Unset then (Undefined, d)
    else
      var img := Zero(d.image, p, SectorBytes);
      var img' := img[v + TrackOf(i) := SetVtocBit(img[v + TrackOf(i)], SectorOf(i))];
      (Ok, d.(image := img', sectors := Mark(d.sectors, i, true)))
  }

  /**
   * `allocateSector`: DISK_FULL when the free counter is 0 or every entry is
   * in use; otherwise claim the first entry not in use (track-major,
   * sector-minor) and count it off. The middle result is the entry claimed.
   */
  function AllocateSector(d: Disk): (r: (Status, int, Disk))
    requires Wf(d)
    ensures r.0 == Ok ==> Wf(r.2) && 0 <= r.1 < SectorCount && !d.sectors[r.1].isAllocated
    ensures r.0 == Ok ==> forall j :: 0 <= j < r.1 ==> d.sectors[j].isAllocated
    ensures d.freeSectors == 0 ==> r.0 == Thrown(RkVolumeException(DiskFull, 0, 0))
    ensures r.0 == Ok ==> d.sectors[r.1].ptr != Unset && |r.2.image| == |d.image| && SameShape(d.sectors, r.2.sectors)
    ensures r.0 == Ok ==> r.2 == d.(image := r.2.image, sectors := r.2.sectors, freeSectors := d.freeSectors - 1)
    ensures r.0 != Ok ==> r.2 == d
  {
    if d.freeSectors == 0 then (Throw(DiskFull), 0, d)
    else
      var i := FirstFree(d.sectors);
      if i == SectorCount then (Throw(DiskFull), 0, d)
      else
        var c := Claim(d, i);
        if c.0 != Ok then (c.0, i, d) else (Ok, i, c.1.(freeSectors := d.freeSectors - 1))
  }

  /** `allocateSpecificSector(t, s)`: claim entry `5 t + s`, counting it off
    * only when it was not in use. An entry past the table is undefined. */
  function AllocateSpecific(d: Disk, t: int, s: int): (r: (Status, Disk))
    requires Wf(d) && 0 <= t && 0 <= s < SectorsPerTrack
    ensures r.0 == Ok ==> Wf(r.1) && |r.1.image| == |d.image| && SameShape(d.sectors, r.1.sectors)
    ensures r.0 == Ok ==> r.1 == d.(image := r.1.image, sectors := r.1.sectors, freeSectors := r.1.freeSectors)
    ensures r.0 == Ok <==> Index(t, s) < SectorCount && d.sectors[Index(t, s)].ptr != Unset && d.sectors[VtocIndex].ptr != Unset
    ensures r.0 != Ok ==> r.1 == d
  {
    var i := Index(t, s);
    if i >= SectorCount then (Undefined, d)
    else
      var free := if d.sectors[i].isAllocated then d.freeSectors else d.freeSectors - 1;
      var c := Claim(d, i);
      if c.0 != Ok then (c.0, d) else (Ok, c.1.(freeSectors := free))
  }

  /** `freeSector(t, s)`: nothing for an entry not in use; otherwise mark it
    * free and dirty, clear its VTOC bit, mark the VTOC dirty and count it
    * back. */
  function FreeSector(d: Disk, t: int, s: int): (r: (Status, Disk))
    requires Wf(d) && 0 <= t < Tracks && 0 <= s < SectorsPerTrack
    ensures r.0 == Ok ==> Wf(r.1) && |r.1.image| == |d.image| && SameShape(d.sectors, r.1.sectors)
    ensures r.0 == Ok ==> r.1 == d.(image := r.1.image, sectors := r.1.sectors, freeSectors := r.1.freeSectors)
    ensures r.0 != Ok ==> r.1 == d
    ensures r.0 == Ok ==> forall j :: 0 <= j < SectorCount ==> r.1.sectors[j].isAllocated == (d.sectors[j].isAllocated && j != Index(t, s))
    ensures r.0 == Ok ==> forall x :: 0 <= x < |d.image| && x != d.sectors[VtocIndex].ptr + t ==> r.1.image[x] == d.image[x]
  {
    var i := Index(t, s);
    var e := d.sectors[i];
    var v := d.sectors[VtocIndex].ptr;
    if !e.isAllocated then (Ok, d)
    else if v == Unset then (Undefined, d)
    else
      var img := d.image[v + t := ClearVtocBit(d.image[v + t], s)];
      (Ok, d.(image := img, sectors := Mark(d.sectors, i, false), freeSectors := d.freeSectors + 1))
  }

  // ---------------------------------------------------------------------
  // readVtoc

  /** The table with each entry's allocated flag taken from the VTOC at `v`. */
  function VtocFlags(sec: seq<RkSector>, img: seq<uint8>, v: int): (r: seq<RkSector>)
    requires |sec| == SectorCount && 0 <= v && v + Tracks <= |img|
    ensures |r| == SectorCount
    ensures forall i :: 0 <= i < SectorCount ==> r[i] == sec[i].(isAllocated := TestBit(img[v + TrackOf(i)], SectorOf(i)))
  {
    seq(SectorCount, i requires 0 <= i < SectorCount => sec[i].(isAllocated := TestBit(img[v + TrackOf(i)], SectorOf(i))))
  }

  /** `readVtoc`: NO_FILESYSTEM unless bits 0 and 1 of VTOC byte 32 are set;
    * otherwise every allocated flag from the bitmap and the free counter
    * from the flags. */
  function ReadVtoc(d: Disk): (r: (Status, Disk))
    requires Wf(d)
    ensures r.0 == Ok ==> Wf(r.1)
    ensures r.0 != Ok ==> r.1 == d
  {
    var v := d.sectors[VtocIndex].ptr;
    if v == Unset then (Undefined, d)
    else if !(TestBit(d.image[v + 32], 0) && TestBit(d.image[v + 32], 1)) then (Throw(NoFilesystem), d)
    else
      var sec := VtocFlags(d.sectors, d.image, v);
      (Ok, d.(sectors := sec, freeSectors := SectorCount - Allocated(sec)))
  }

  // ---------------------------------------------------------------------
  // updateSectors

  /** Write one dirty sector back: its length little-endian at `ptr - 3`,
    * and the 16-bit sum of its `len` data bytes little-endian after them.
    * Summing or writing past the image is undefined (`None`). */
  function WriteBack(img: seq<uint8>, e: RkSector): (r: Option<seq<uint8>>)
    requires PtrFits(e, |img|)
    ensures r.Some? <==> e.ptr != Unset && e.ptr + e.len + 2 <= |img|
    ensures r.Some? ==> |r.value| == |img|
  {
    if e.ptr == Unset || e.ptr + e.len + 2 > |img| then None
    else Some(Written(img, e.ptr, e.len))
  }

  /** The image with the `n` data bytes at `p` framed by their length and
    * their checksum. */
  function Written(img: seq<uint8>, p: int, n: int): (r: seq<uint8>)
    requires 3 <= p && 0 <= n && p + n + 2 <= |img|
    ensures |r| == |img|
  {
    PutWord(PutWord(img, p - 3, n), p + n, Checksum(img[p..p + n]))
  }

  /** The 16-bit sum `updateSectors` accumulates in a `uint16_t`. */
  function Checksum(data: seq<uint8>): (cs: uint16)
    ensures cs == Sum(data) % 0x1_0000
  {
    Sum(data) % 0x1_0000
  }

  /** `v` stored little-endian at `at`. */
  function PutWord(img: seq<uint8>, at: int, v: int): (r: seq<uint8>)
    requires 0 <= at && at + 2 <= |img|
    ensures |r| == |img| && r[at] == Low(v) && r[at + 1] == High(v)
    ensures forall x :: 0 <= x < |img| && x != at && x != at + 1 ==> r[x] == img[x]
  {
    img[at := Low(v)][at + 1 := High(v)]
  }

  /** The entries `k` onwards of `updateSectors`' loop. */
  function UpdateFrom(img: seq<uint8>, sec: seq<RkSector>, k: nat): (r: (Status, seq<uint8>))
    requires forall i :: 0 <= i < |sec| ==> PtrFits(sec[i], |img|)
    ensures r.0 == Ok ==> |r.1| == |img|
    decreases |sec| - k
  {
    if k >= |sec| then (Ok, img)
    else if !sec[k].dirty then UpdateFrom(img, sec, k + 1)
    else match WriteBack(img, sec[k])
      case None => (Undefined, img)
      case Some(img') => UpdateFrom(img', sec, k + 1)
  }

  /** `updateSectors`: write back every dirty sector, in table order. The
    * dirty flags stay set. */
  function UpdateSectors(d: Disk): (r: (Status, Disk))
    requires Wf(d)
    ensures Wf(r.1) && r.1 == d.(image := r.1.image) && |r.1.image| == |d.image|
  {
    var u := UpdateFrom(d.image, d.sectors, 0);
    if u.0 != Ok then (u.0, d)
    else WfImage(d, u.1); (Ok, d.(image := u.1))
  }

  // ---------------------------------------------------------------------
  // Counting

  /** Changing one entry changes the count by what its flag did. */
  lemma {:induction false} AllocatedUpdate(sec: seq<RkSector>, i: int, e: RkSector)
    requires 0 <= i < |sec|
    ensures Allocated(sec[i := e]) == Allocated(sec) - (if sec[i].isAllocated then 1 else 0) + (if e.isAllocated then 1 else 0)
  {
    var n := |sec|;
    if i == n - 1 {
      assert sec[i := e][..n - 1] == sec[..n - 1];
    } else {
      assert sec[i := e][..n - 1] == sec[..n - 1][i := e];
      AllocatedUpdate(sec[..n - 1], i, e);
    }
  }

  /** With every entry in use the count is the table size. */
  lemma {:induction false} AllAllocated(sec: seq<RkSector>)
    requires forall j :: 0 <= j < |sec| ==> sec[j].isAllocated
    ensures Allocated(sec) == |sec|
  {
    if sec != [] {
      AllAllocated(sec[..|sec| - 1]);
    }
  }

  // ---------------------------------------------------------------------
  // What the operations keep

  /** After `readVtoc` the table agrees with the VTOC, the VTOC sector and the
    * first directory sector are in use, and nothing but the flags and the
    * free counter changed. */
  lemma ReadVtocConsistent(d: Disk)
    requires Wf(d) && ReadVtoc(d).0 == Ok
    ensures var r := ReadVtoc(d).1;
      VtocConsistent(r) && r.sectors[VtocIndex].isAllocated && r.sectors[DirIndex].isAllocated &&
      r.image == d.image && r.fileList == d.fileList && r.freeDirEntries == d.freeDirEntries && r.diskRead == d.diskRead &&
      forall i :: 0 <= i < SectorCount ==> r.sectors[i] == d.sectors[i].(isAllocated := r.sectors[i].isAllocated)
  {
    var r := ReadVtoc(d).1;
    assert r.sectors[VtocIndex].ptr == d.sectors[VtocIndex].ptr;
    assert TrackOf(VtocIndex) == 32 && SectorOf(VtocIndex) == 0;
    assert TrackOf(DirIndex) == 32 && SectorOf(DirIndex) == 1;
  }

  /** The free counter is 0 exactly when every entry is in use, so
    * `allocateSector` reports DISK_FULL exactly when nothing is free. */
  lemma AllocateSectorFull(d: Disk)
    requires Wf(d) && VtocConsistent(d)
    ensures AllocateSector(d).0 == Throw(DiskFull) <==> d.freeSectors == 0
    ensures d.freeSectors == 0 <==> forall j :: 0 <= j < SectorCount ==> d.sectors[j].isAllocated
  {
    var i := FirstFree(d.sectors);
    if i == SectorCount {
      AllAllocated(d.sectors);
    } else {
      AllocatedUpdate(d.sectors, i, d.sectors[i].(isAllocated := true));
    }
  }

  /** The VTOC bits after claiming entry `i`: the zeroed sector lies apart
    * from the VTOC, and only `i`'s own bit was set. */
  lemma ClaimBits(d: Disk, i: int)
    requires Wf(d) && VtocConsistent(d) && Apart(d.sectors) && AllSet(d.sectors)
    requires 0 <= i < SectorCount && i != VtocIndex
    ensures Claim(d, i).0 == Ok
    ensures var c := Claim(d, i).1;
      c.sectors[VtocIndex].ptr == d.sectors[VtocIndex].ptr &&
      forall j :: 0 <= j < SectorCount ==> VtocBit(c.sectors, c.image, j) == (j == i || VtocBit(d.sectors, d.image, j))
  {
    var c := Claim(d, i).1;
    forall j | 0 <= j < SectorCount
      ensures VtocBit(c.sectors, c.image, j) == (j == i || VtocBit(d.sectors, d.image, j))
    {
      ClaimBit(d, i, j);
    }
  }

  /** The VTOC bit of entry `j` after claiming entry `i`. */
  lemma ClaimBit(d: Disk, i: int, j: int)
    requires Wf(d) && Apart(d.sectors) && AllSet(d.sectors)
    requires 0 <= i < SectorCount && i != VtocIndex && 0 <= j < SectorCount
    ensures Claim(d, i).0 == Ok
    ensures var c := Claim(d, i).1;
      c.sectors[VtocIndex].ptr == d.sectors[VtocIndex].ptr &&
      VtocBit(c.sectors, c.image, j) == (j == i || VtocBit(d.sectors, d.image, j))
  {
    var c := Claim(d, i).1;
    var v, p := d.sectors[VtocIndex].ptr, d.sectors[i].ptr;
    var b := d.image[v + TrackOf(i)];
    var x := v + TrackOf(j);
    assert !(p <= x < p + SectorBytes);
    if TrackOf(j) == TrackOf(i) {
      SetBitBits(b, SectorOf(i), SectorOf(j));
      assert c.image[x] == SetBit(b, SectorOf(i));
    } else {
      assert c.image[x] == d.image[x];
    }
  }

  /** Claiming entry `i` (not the VTOC's) keeps the table agreeing with the
    * VTOC bit by bit, counts `i` as in use and zeroes its data; the data
    * pointers stay as they were. */
  lemma ClaimKeeps(d: Disk, i: int)
    requires Wf(d) && VtocConsistent(d) && Apart(d.sectors) && AllSet(d.sectors)
    requires 0 <= i < SectorCount && i != VtocIndex
    ensures Claim(d, i).0 == Ok
    ensures var c := Claim(d, i).1;
      Wf(c) && c.sectors[VtocIndex].ptr != Unset &&
      Agrees(c.sectors, c.image) &&
      Allocated(c.sectors) == Allocated(d.sectors) + (if d.sectors[i].isAllocated then 0 else 1) &&
      (forall j :: 0 <= j < SectorCount ==> c.sectors[j].ptr == d.sectors[j].ptr) &&
      c.sectors[i].isAllocated && c.sectors[VtocIndex].isAllocated == d.sectors[VtocIndex].isAllocated &&
      c.freeSectors == d.freeSectors &&
      (forall x :: d.sectors[i].ptr <= x < d.sectors[i].ptr + SectorBytes ==> c.image[x] == 0)
  {
    ClaimBits(d, i);
  }

  /** The data pointers, hence `Apart` and `AllSet`, carry over from `d` to `r`. */
  lemma SamePointers(d: Disk, r: Disk)
    requires Wf(d) && Wf(r) && Apart(d.sectors) && AllSet(d.sectors)
    requires forall j :: 0 <= j < SectorCount ==> r.sectors[j].ptr == d.sectors[j].ptr
    ensures Apart(r.sectors) && AllSet(r.sectors)
  {
  }

  /**
   * `allocateSector` on a table that agrees with its VTOC, whose sectors lie
   * apart and whose VTOC sector is in use: when anything is free it claims
   * the first free entry, zeroes its data, counts it off, and the table
   * still agrees with the VTOC.
   */
  lemma AllocateSectorKeeps(d: Disk)
    requires Wf(d) && VtocConsistent(d) && Apart(d.sectors) && AllSet(d.sectors)
    requires d.sectors[VtocIndex].isAllocated && d.freeSectors != 0
    ensures AllocateSector(d).0 == Ok && AllocateSector(d).1 == FirstFree(d.sectors)
    ensures var r := AllocateSector(d).2;
      Wf(r) && VtocConsistent(r) && Apart(r.sectors) && AllSet(r.sectors) &&
      r.sectors[VtocIndex].isAllocated && r.sectors[FirstFree(d.sectors)].isAllocated && r.freeSectors == d.freeSectors - 1 &&
      (forall x :: d.sectors[FirstFree(d.sectors)].ptr <= x < d.sectors[FirstFree(d.sectors)].ptr + SectorBytes ==> r.image[x] == 0)
  {
    AllocateSectorFull(d);
    var i := FirstFree(d.sectors);
    ClaimKeeps(d, i);
    var r := AllocateSector(d).2;
    SamePointers(d, r);
  }

  /** `allocateSpecificSector` of an entry other than the VTOC's keeps the
    * table agreeing with the VTOC and counts the entry off only when it
    * was free. */
  lemma AllocateSpecificKeeps(d: Disk, t: int, s: int)
    requires Wf(d) && VtocConsistent(d) && Apart(d.sectors) && AllSet(d.sectors)
    requires 0 <= t < Tracks && 0 <= s < SectorsPerTrack && Index(t, s) != VtocIndex
    ensures AllocateSpecific(d, t, s).0 == Ok
    ensures var r := AllocateSpecific(d, t, s).1;
      Wf(r) && VtocConsistent(r) && Apart(r.sectors) && AllSet(r.sectors) &&
      r.sectors[Index(t, s)].isAllocated &&
      r.freeSectors == d.freeSectors - (if d.sectors[Index(t, s)].isAllocated then 0 else 1)
  {
    var i := Index(t, s);
    ClaimKeeps(d, i);
    var r := AllocateSpecific(d, t, s).1;
    SamePointers(d, r);
  }

  /** Freeing an entry in use clears its VTOC bit and only that one. */
  lemma FreeBits(d: Disk, t: int, s: int)
    requires Wf(d) && d.sectors[VtocIndex].ptr != Unset && 0 <= t < Tracks && 0 <= s < SectorsPerTrack
    requires d.sectors[Index(t, s)].isAllocated
    ensures var r := FreeSector(d, t, s).1;
      FreeSector(d, t, s).0 == Ok && r.sectors[VtocIndex].ptr == d.sectors[VtocIndex].ptr &&
      forall j :: 0 <= j < SectorCount ==> VtocBit(r.sectors, r.image, j) == (j != Index(t, s) && VtocBit(d.sectors, d.image, j))
  {
    var i := Index(t, s);
    IndexParts(t, s);
    var r := FreeSector(d, t, s).1;
    var v := d.sectors[VtocIndex].ptr;
    forall j | 0 <= j < SectorCount
      ensures VtocBit(r.sectors, r.image, j) == (j != i && VtocBit(d.sectors, d.image, j))
    {
      if TrackOf(j) == t {
        ClearBitBits(d.image[v + t], s, SectorOf(j));
      }
    }
  }

  /** `freeSector` keeps the table agreeing with the VTOC, leaves the entry
    * free and counts it back only when it was in use. */
  lemma FreeSectorKeeps(d: Disk, t: int, s: int)
    requires Wf(d) && VtocConsistent(d) && 0 <= t < Tracks && 0 <= s < SectorsPerTrack
    ensures FreeSector(d, t, s).0 == Ok
    ensures var r := FreeSector(d, t, s).1;
      Wf(r) && VtocConsistent(r) && !r.sectors[Index(t, s)].isAllocated &&
      r.freeSectors == d.freeSectors + (if d.sectors[Index(t, s)].isAllocated then 1 else 0) &&
      forall j :: 0 <= j < SectorCount ==> r.sectors[j].ptr == d.sectors[j].ptr
  {
    if d.sectors[Index(t, s)].isAllocated {
      FreeBits(d, t, s);
    }
  }

  /** Freeing an entry twice is freeing it once. */
  lemma FreeSectorIdempotent(d: Disk, t: int, s: int)
    requires Wf(d) && 0 <= t < Tracks && 0 <= s < SectorsPerTrack && FreeSector(d, t, s).0 == Ok
    ensures FreeSector(FreeSector(d, t, s).1, t, s) == FreeSector(d, t, s)
  {
  }

  /** An entry just freed, with every entry before it in use, is the one
    * `allocateSector` hands out next. */
  lemma FreeThenAllocate(d: Disk, t: int, s: int)
    requires Wf(d) && VtocConsistent(d) && Apart(d.sectors) && AllSet(d.sectors) && d.sectors[VtocIndex].isAllocated
    requires 0 <= t < Tracks && 0 <= s < SectorsPerTrack && Index(t, s) != VtocIndex
    requires forall j :: 0 <= j < Index(t, s) ==> d.sectors[j].isAllocated
    ensures var f := FreeSector(d, t, s).1;
      Wf(f) && AllocateSector(f).0 == Ok && AllocateSector(f).1 == Index(t, s)
  {
    var i := Index(t, s);
    FreeSectorKeeps(d, t, s);
    var f := FreeSector(d, t, s).1;
    assert !f.sectors[i].isAllocated;
    assert forall j :: 0 <= j < i ==> f.sectors[j].isAllocated;
    FirstFreeIs(f.sectors, i);
    AllocatedUpdate(f.sectors, i, f.sectors[i].(isAllocated := true));
  }

  /** The first entry not in use is the one all before which are in use. */
  lemma FirstFreeIs(sec: seq<RkSector>, i: int)
    requires 0 <= i < |sec| && !sec[i].isAllocated && forall j :: 0 <= j < i ==> sec[j].isAllocated
    ensures FirstFree(sec) == i
  {
  }

  // ---------------------------------------------------------------------
  // What updateSectors writes

  /** The 517 bytes of entry `e` from its length field to its checksum. */
  predicate InRegion(e: RkSector, x: int)
  {
    e.ptr - 3 <= x < e.ptr + 514
  }

  /** `a` and `b` hold the same bytes in the region of `e`. */
  predicate SameRegion(a: seq<uint8>, b: seq<uint8>, e: RkSector)
  {
    |a| == |b| && forall x :: 0 <= x < |a| && InRegion(e, x) ==> a[x] == b[x]
  }

  /** A dirty entry whose write-back stays within its 514 bytes. */
  predicate Writable(e: RkSector)
  {
    e.ptr != Unset && e.len <= SectorBytes
  }

  /** Writing one sector back touches its four header and checksum bytes and
    * nothing else. */
  lemma WriteBackFrame(img: seq<uint8>, e: RkSector, x: int)
    requires PtrFits(e, |img|) && Writable(e) && 0 <= x < |img|
    requires x != e.ptr - 3 && x != e.ptr - 2 && x != e.ptr + e.len && x != e.ptr + e.len + 1
    ensures WriteBack(img, e).Some? && WriteBack(img, e).value[x] == img[x]
  {
  }

  /** What one sector's write-back leaves in its region depends only on
    * that region. */
  lemma WriteBackLocal(a: seq<uint8>, b: seq<uint8>, e: RkSector)
    requires PtrFits(e, |a|) && Writable(e) && SameRegion(a, b, e)
    ensures WriteBack(a, e).Some? && WriteBack(b, e).Some?
    ensures SameRegion(WriteBack(a, e).value, WriteBack(b, e).value, e)
  {
    assert a[e.ptr..e.ptr + e.len] == b[e.ptr..e.ptr + e.len];
  }

  /** The dirty entries that the write-back loop will reach. */
  predicate WritableFrom(sec: seq<RkSector>, k: nat)
  {
    forall j :: k <= j < |sec| && sec[j].dirty ==> Writable(sec[j])
  }

  /**
   * From entry `k` on, the loop ends normally and leaves in the region of
   * each set entry `i` what `i`'s own write-back makes of it (if `i` is
   * dirty and still ahead) or what was there.
   */
  lemma {:induction false} UpdateFromRegion(img: seq<uint8>, sec: seq<RkSector>, k: nat, i: int)
    requires forall j :: 0 <= j < |sec| ==> PtrFits(sec[j], |img|)
    requires Apart(sec) && WritableFrom(sec, k) && 0 <= i < |sec| && sec[i].ptr != Unset
    ensures UpdateFrom(img, sec, k).0 == Ok
    ensures SameRegion(UpdateFrom(img, sec, k).1, if k <= i && sec[i].dirty then WriteBack(img, sec[i]).value else img, sec[i])
    decreases |sec| - k
  {
    if k < |sec| {
      if !sec[k].dirty {
        UpdateFromRegion(img, sec, k + 1, i);
      } else {
        var img' := WriteBack(img, sec[k]).value;
        UpdateFromRegion(img', sec, k + 1, i);
        if k != i {
          OtherWriteBack(img, sec, k, i);
          if k < i && sec[i].dirty {
            WriteBackLocal(img', img, sec[i]);
            SameRegionTrans(UpdateFrom(img', sec, k + 1).1, WriteBack(img', sec[i]).value, WriteBack(img, sec[i]).value, sec[i]);
          } else {
            SameRegionTrans(UpdateFrom(img', sec, k + 1).1, img', img, sec[i]);
          }
        }
      }
    }
  }

  /** Writing back entry `k` leaves the region of another set entry `i`
    * as it was. */
  lemma OtherWriteBack(img: seq<uint8>, sec: seq<RkSector>, k: int, i: int)
    requires forall j :: 0 <= j < |sec| ==> PtrFits(sec[j], |img|)
    requires Apart(sec) && 0 <= k < |sec| && 0 <= i < |sec| && k != i && sec[i].ptr != Unset && Writable(sec[k])
    ensures WriteBack(img, sec[k]).Some? && SameRegion(WriteBack(img, sec[k]).value, img, sec[i])
  {
    var img' := WriteBack(img, sec[k]).value;
    forall x | 0 <= x < |img| && InRegion(sec[i], x)
      ensures img'[x] == img[x]
    {
      WriteBackFrame(img, sec[k], x);
    }
  }

  lemma SameRegionTrans(a: seq<uint8>, b: seq<uint8>, c: seq<uint8>, e: RkSector)
    requires SameRegion(a, b, e) && SameRegion(b, c, e)
    ensures SameRegion(a, c, e)
  {
  }

  /** One write-back puts the length and the checksum of the data around
    * the data. */
  lemma WrittenBytes(img: seq<uint8>, p: int, n: int)
    requires 3 <= p && 0 <= n < 0x1_0000 && p + n + 2 <= |img|
    ensures var w := Written(img, p, n);
      Word(w[p - 3], w[p - 2]) == n && w[p..p + n] == img[p..p + n] &&
      Word(w[p + n], w[p + n + 1]) == Checksum(img[p..p + n])
  {
    var cs := Checksum(img[p..p + n]);
    PutWords(img, p, n, cs);
  }

  /** The two words around `n` bytes left as they were. */
  lemma PutWords(img: seq<uint8>, p: int, n: int, cs: int)
    requires 3 <= p && 0 <= n < 0x1_0000 && p + n + 2 <= |img| && 0 <= cs < 0x1_0000
    ensures var w := PutWord(PutWord(img, p - 3, n), p + n, cs);
      Word(w[p - 3], w[p - 2]) == n && w[p..p + n] == img[p..p + n] && Word(w[p + n], w[p + n + 1]) == cs
  {
    WordSplit(n);
    WordSplit(cs);
    var w := PutWord(PutWord(img, p - 3, n), p + n, cs);
    assert w[p..p + n] == img[p..p + n];
  }

  /** A 16-bit value is its low byte plus 256 times its high byte. */
  lemma WordSplit(x: int)
    requires 0 <= x < 0x1_0000
    ensures Word(Low(x), High(x)) == x
  {
    Div256(x, x / 256, x % 256);
  }

  /** The image `updateSectors` leaves when it ends normally. */
  lemma UpdatedImage(d: Disk)
    requires Wf(d) && UpdateFrom(d.image, d.sectors, 0).0 == Ok
    ensures UpdateSectors(d) == (Ok, d.(image := UpdateFrom(d.image, d.sectors, 0).1))
  {
  }

  /**
   * `updateSectors` on a table whose sectors lie apart and whose dirty
   * entries are set and at most 512 bytes long ends normally, and each dirty
   * sector then has its length little-endian at `ptr - 3` and the 16-bit
   * sum of its unchanged data bytes little-endian at `ptr + len`.
   */
  lemma UpdateSectorsWrites(d: Disk, i: int)
    requires Wf(d) && Apart(d.sectors) && WritableFrom(d.sectors, 0)
    requires 0 <= i < SectorCount && d.sectors[i].ptr != Unset && d.sectors[i].dirty
    ensures UpdateSectors(d).0 == Ok
    ensures Framed(UpdateSectors(d).1.image, d.image, d.sectors[i].ptr, d.sectors[i].len)
  {
    var e := d.sectors[i];
    var u := UpdateFrom(d.image, d.sectors, 0);
    UpdateFromRegion(d.image, d.sectors, 0, i);
    assert WriteBack(d.image, e).value == Written(d.image, e.ptr, e.len);
    WrittenRegion(d.image, u.1, e);
    UpdatedImage(d);
  }

  /** `img'` holds at `p` the `n` data bytes of `img` framed by their length
    * before them and their 16-bit checksum after them, both little-endian. */
  predicate Framed(img': seq<uint8>, img: seq<uint8>, p: int, n: int)
  {
    3 <= p && 0 <= n && p + n + 2 <= |img'| && p + n <= |img| &&
    Word(img'[p - 3], img'[p - 2]) == n &&
    img'[p..p + n] == img[p..p + n] &&
    Word(img'[p + n], img'[p + n + 1]) == Checksum(img[p..p + n])
  }

  /** An image that agrees with one write-back of `e` on `e`'s region holds
    * the length, the data and the checksum there. */
  lemma WrittenRegion(img: seq<uint8>, u: seq<uint8>, e: RkSector)
    requires PtrFits(e, |img|) && Writable(e) && SameRegion(u, Written(img, e.ptr, e.len), e)
    ensures Framed(u, img, e.ptr, e.len)
  {
    WrittenBytes(img, e.ptr, e.len);
    SameWords(u, Written(img, e.ptr, e.len), e);
  }

  /** ... and leaves the bytes of every clean sector as they were. */
  lemma UpdateSectorsKeepsClean(d: Disk, i: int)
    requires Wf(d) && Apart(d.sectors) && WritableFrom(d.sectors, 0)
    requires 0 <= i < SectorCount && d.sectors[i].ptr != Unset && !d.sectors[i].dirty
    ensures UpdateSectors(d).0 == Ok
    ensures var p := d.sectors[i].ptr; UpdateSectors(d).1.image[p - 3..p + 514] == d.image[p - 3..p + 514]
  {
    UpdateFromRegion(d.image, d.sectors, 0, i);
    UpdatedImage(d);
    RegionWords(UpdateFrom(d.image, d.sectors, 0).1, d.image, d.sectors[i]);
  }

  /** Two images with the same region of `e` hold the same bytes there,
    * words and data included. */
  lemma RegionWords(a: seq<uint8>, b: seq<uint8>, e: RkSector)
    requires SameRegion(a, b, e) && PtrFits(e, |a|) && e.ptr != Unset
    ensures var p, n := e.ptr, e.len;
      a[p - 3..p + 514] == b[p - 3..p + 514] &&
      (n <= SectorBytes ==>
        a[p - 3] == b[p - 3] && a[p - 2] == b[p - 2] && a[p + n] == b[p + n] && a[p + n + 1] == b[p + n + 1] &&
        a[p..p + n] == b[p..p + n])
  {
    var p, n := e.ptr, e.len;
    assert a[p - 3..p + 514] == b[p - 3..p + 514];
    if n <= SectorBytes {
      assert a[p..p + n] == b[p..p + n];
    }
  }

  /** Two images with the same region of a writable entry agree on its
    * length word, its data and its checksum word. */
  lemma SameWords(a: seq<uint8>, b: seq<uint8>, e: RkSector)
    requires SameRegion(a, b, e) && PtrFits(e, |a|) && Writable(e)
    ensures var p, n := e.ptr, e.len;
      Word(a[p - 3], a[p - 2]) == Word(b[p - 3], b[p - 2]) &&
      a[p..p + n] == b[p..p + n] &&
      Word(a[p + n], a[p + n + 1]) == Word(b[p + n], b[p + n + 1])
  {
    RegionWords(a, b, e);
  }

  /**
   * Every sector has a data pointer and at most 512 data bytes, no two
   * sectors overlap, and the VTOC sector is at least as long as its 160
   * bitmap bytes: the table `readSectors` builds from a formatted disk
   * (`RkFormat.FormatLaidOut`), where the VTOC sector is 160 bytes long
   * and every other one 512, and which allocating, freeing and writing
   * back keep (`LaidOutShape`).
   */
  predicate LaidOut(sec: seq<RkSector>)
  {
    |sec| == SectorCount && Apart(sec) && sec[VtocIndex].len >= Tracks &&
    forall i :: 0 <= i < |sec| ==> sec[i].ptr != Unset && sec[i].len <= SectorBytes
  }

  /** Only flags change: a laid-out table stays laid out. */
  lemma LaidOutShape(a: seq<RkSector>, b: seq<RkSector>)
    requires LaidOut(a) && SameShape(a, b)
    ensures LaidOut(b)
  {
  }

  /** `updateSectors` on a laid-out table ends normally and keeps the `len`
    * data bytes of every sector: it writes only length fields and
    * checksums, each checksum just after its sector's data. */
  lemma UpdateKeepsData(d: Disk, i: int, y: int)
    requires Wf(d) && LaidOut(d.sectors) && 0 <= i < SectorCount
    requires d.sectors[i].ptr <= y < d.sectors[i].ptr + d.sectors[i].len
    ensures UpdateSectors(d).0 == Ok && UpdateSectors(d).1.image[y] == d.image[y]
  {
    var e := d.sectors[i];
    assert PtrFits(e, |d.image|);
    UpdateFromRegion(d.image, d.sectors, 0, i);
    if e.dirty {
      WriteBackFrame(d.image, e, y);
    }
    UpdatedImage(d);
  }

  /** A table that agrees with its VTOC keeps agreeing when image bytes
    * outside the 160 VTOC bytes change. */
  lemma AgreesOffVtoc(d: Disk, img: seq<uint8>)
    requires Wf(d) && |img| == |d.image| && VtocConsistent(d)
    requires forall y :: d.sectors[VtocIndex].ptr <= y < d.sectors[VtocIndex].ptr + Tracks ==> img[y] == d.image[y]
    ensures Wf(d.(image := img)) && VtocConsistent(d.(image := img))
  {
    WfImage(d, img);
    var v := d.sectors[VtocIndex].ptr;
    assert PtrFits(d.sectors[VtocIndex], |d.image|);
    forall i | 0 <= i < SectorCount
      ensures VtocBit(d.sectors, img, i) == VtocBit(d.sectors, d.image, i)
    {
      assert img[v + TrackOf(i)] == d.image[v + TrackOf(i)];
    }
  }

  /** `updateSectors` on a laid-out table keeps it agreeing with its VTOC:
    * the VTOC sector's own checksum lands after the bitmap. */
  lemma UpdateKeepsVtoc(d: Disk)
    requires Wf(d) && LaidOut(d.sectors) && VtocConsistent(d)
    ensures UpdateSectors(d).0 == Ok && VtocConsistent(UpdateSectors(d).1)
  {
    var v := d.sectors[VtocIndex].ptr;
    UpdateKeepsData(d, VtocIndex, v);
    var u := UpdateSectors(d).1;
    forall y | v <= y < v + Tracks
      ensures u.image[y] == d.image[y]
    {
      UpdateKeepsData(d, VtocIndex, y);
    }
    AgreesOffVtoc(d, u.image);
    assert u == d.(image := u.image);
  }
}
