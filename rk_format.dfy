/**
 * Formatting an RK DOS volume, as functions on `Disk`. Every track gets
 * five 586-byte slots, in sector order 0, 3, 1, 4, 2, each holding the
 * sync bytes, the address mark (`EA D3`, track, sector, their sum), the
 * data mark (`DD F3`) and the length word, followed by zeroed data; the
 * last 195 bytes of the track are `0xFF`. The sectors are then found
 * again, the VTOC sector and the directory sectors are claimed, each
 * directory sector is linked to the next, and the changed sectors are
 * written back.
 */
module RkFormat {
  import opened Bytes
  import opened RkDisk
  import opened RkSectors
  import opened RkScan

  const SlotBytes := 586
  /** Where the `0xFF` filler of a track starts. */
  const SlotsEnd := 2930
  /** The sector number written into each slot of a track. */
  const SectorNums: seq<int> := [0, 3, 1, 4, 2]
  /** Where, in a slot, `readSectors` puts the data pointer: three bytes
    * past the length field at offsets 32 and 33. */
  const DataStart := 35
  /** The VTOC sector's length; the length of every other sector is 512. */
  const VtocBytes := 160

  // ---------------------------------------------------------------------
  // The layout

  /**
   * Byte `o` of slot `k` of track `tr`: five `06`, five `00`, `EA D3`, the
   * track, the slot's sector number and their sum, five `00`, five `06`,
   * five `00`, `DD F3`, the length `00 02`; everything else `00`. In slot 0
   * of track 32 the length is `A0 00` and the bytes 32 and 160 past the
   * length field are `1F`.
   */
  function SlotByte(tr: int, k: int, o: int): uint8
    requires 0 <= tr < Tracks && 0 <= k < SectorsPerTrack && 0 <= o < SlotBytes
  {
    if o < 5 then 0x06
    else if o < 10 then 0
    else if o == 10 then 0xEA
    else if o == 11 then 0xD3
    else if o == 12 then tr
    else if o == 13 then SectorNums[k]
    else if o == 14 then tr + SectorNums[k]
    else if o < 20 then 0
    else if o < 25 then 0x06
    else if o < 30 then 0
    else if o == 30 then 0xDD
    else if o == 31 then 0xF3
    else if tr == VtocTrack && k == 0 then
      (if o == 32 then 0xA0 else if o == 34 + 0x20 || o == 34 + 0xA0 then 0x1F else 0)
    else if o == 33 then 0x02
    else 0
  }

  /** Byte `x` of a freshly laid out image. */
  function LayoutByte(x: int): uint8
    requires 0 <= x < ImageBytes
  {
    var tr := x / TrackBytes;
    var j := x % TrackBytes;
    if j >= SlotsEnd then 0xFF else SlotByte(tr, j / SlotBytes, j % SlotBytes)
  }

  function Layout(): (img: seq<uint8>)
    ensures |img| == ImageBytes
  {
    seq(ImageBytes, x requires 0 <= x < ImageBytes => LayoutByte(x))
  }

  /** The layout byte at offset `o` of slot `k` of track `tr`. */
  lemma LayoutAt(tr: int, k: int, o: int)
    requires 0 <= tr < Tracks && 0 <= k < SectorsPerTrack && 0 <= o < SlotBytes
    ensures Layout()[TrackBytes * tr + SlotBytes * k + o] == SlotByte(tr, k, o)
  {
    var x := TrackBytes * tr + SlotBytes * k + o;
    var j := SlotBytes * k + o;
    assert x / TrackBytes == tr && x % TrackBytes == j;
    assert j / SlotBytes == k && j % SlotBytes == o;
  }

  /** The filler at the end of every track. */
  lemma LayoutTail(tr: int, j: int)
    requires 0 <= tr < Tracks && SlotsEnd <= j < TrackBytes
    ensures Layout()[TrackBytes * tr + j] == 0xFF
  {
    var x := TrackBytes * tr + j;
    assert x / TrackBytes == tr && x % TrackBytes == j;
  }

  // ---------------------------------------------------------------------
  // readSectors on the layout

  /** `SkipUntil` stops at the first `b`. */
  lemma {:induction false} SkipUntilAt(img: seq<uint8>, at: int, pos: int, lim: int, b: int, target: int)
    requires 0 <= at && 0 <= pos <= target < lim && at + lim <= |img| && img[at + target] == b
    requires forall y :: at + pos <= y < at + target ==> img[y] != b
    ensures SkipUntil(img, at, pos, lim, b) == target
    decreases target - pos
  {
    if pos < target {
      SkipUntilAt(img, at, pos + 1, lim, b, target);
    }
  }

  /** `SeekMark` stops at the first position where a marker byte matches. */
  lemma {:induction false} SeekMarkAt(img: seq<uint8>, at: int, pos: int, lim: int, m1: int, m2: int, target: int)
    requires 0 <= at && 0 <= pos <= target < lim && at + lim + 1 <= |img| && MarkAt(img, at + target, m1, m2)
    requires forall y :: at + pos <= y < at + target ==> !MarkAt(img, y, m1, m2)
    ensures SeekMark(img, at, pos, lim, m1, m2) == target
    decreases target - pos
  {
    if pos < target {
      assert !MarkAt(img, at + pos, m1, m2);
      SeekMarkAt(img, at, pos + 1, lim, m1, m2, target);
    }
  }

  /** Where the scan of a laid-out track starts looking for slot `k`: at the
    * track's start, or 530 bytes past the previous slot's data pointer. */
  function SlotSearch(k: int): int { if k == 0 then 0 else SlotBytes * k - 21 }

  /** The length word of slot `k` of track `tr`. */
  function SlotLen(tr: int, k: int): int { if tr == VtocTrack && k == 0 then VtocBytes else SectorBytes }

  /** The bytes of slot `k` from offset `lo` to `hi` are not `b`. */
  lemma SlotBytesNot(tr: int, k: int, lo: int, hi: int, b: int)
    requires 0 <= tr < Tracks && 0 <= k < SectorsPerTrack && 0 <= lo <= hi <= SlotBytes
    requires forall o :: lo <= o < hi ==> SlotByte(tr, k, o) != b
    ensures forall y :: TrackBytes * tr + SlotBytes * k + lo <= y < TrackBytes * tr + SlotBytes * k + hi ==> Layout()[y] != b
  {
    forall y | TrackBytes * tr + SlotBytes * k + lo <= y < TrackBytes * tr + SlotBytes * k + hi
      ensures Layout()[y] != b
    {
      LayoutAt(tr, k, y - TrackBytes * tr - SlotBytes * k);
    }
  }

  /** The address mark of slot `k` is found from where the scan looks for
    * the slot. */
  lemma AddressMarkLayout(tr: int, k: int)
    requires 0 <= tr < Tracks && 0 <= k < SectorsPerTrack
    ensures AddressMark(Layout(), tr, SlotSearch(k)) == SlotBytes * k + 12
  {
    var img := Layout();
    var at := TrackBytes * tr;
    var base := SlotBytes * k;
    LayoutAt(tr, k, 0);
    if k > 0 {
      SlotBytesNot(tr, k - 1, SlotBytes - 21, SlotBytes, 0x06);
    }
    SkipUntilAt(img, at, SlotSearch(k), TrackBytes, 0x06, base);
    LayoutAt(tr, k, 10);
    forall y | at + base <= y < at + base + 10
      ensures !MarkAt(img, y, 0xEA, 0xD3)
    {
      LayoutAt(tr, k, y - at - base);
      LayoutAt(tr, k, y + 1 - at - base);
    }
    SeekMarkAt(img, at, base, TrackBytes - 3, 0xEA, 0xD3, base + 10);
  }

  /** No data mark starts between the address mark and the data mark. */
  lemma DataGap(tr: int, k: int)
    requires 0 <= tr < Tracks && 0 <= k < SectorsPerTrack
    ensures forall y :: TrackBytes * tr + SlotBytes * k + 14 <= y < TrackBytes * tr + SlotBytes * k + 30 ==>
      !MarkAt(Layout(), y, 0xDD, 0xF3)
  {
    var at := TrackBytes * tr;
    var base := SlotBytes * k;
    forall y | at + base + 14 <= y < at + base + 30
      ensures !MarkAt(Layout(), y, 0xDD, 0xF3)
    {
      LayoutAt(tr, k, y - at - base);
      LayoutAt(tr, k, y + 1 - at - base);
    }
  }

  /** Where the search for the data mark's sync bytes stops: at the
    * address mark's checksum when that happens to be `06`, else at the
    * second run of sync bytes. */
  function DataSync(tr: int, k: int): int
    requires 0 <= k < SectorsPerTrack
  {
    if tr + SectorNums[k] == 0x06 then SlotBytes * k + 14 else SlotBytes * k + 20
  }

  /** The search for the data mark's sync bytes stops where `DataSync`
    * says. */
  lemma DataSyncLayout(tr: int, k: int)
    requires 0 <= tr < Tracks && 0 <= k < SectorsPerTrack
    ensures SkipUntil(Layout(), TrackBytes * tr, SlotBytes * k + 14, TrackBytes, 0x06) == DataSync(tr, k)
  {
    if tr + SectorNums[k] == 0x06 {
      LayoutAt(tr, k, 14);
      SkipUntilAt(Layout(), TrackBytes * tr, SlotBytes * k + 14, TrackBytes, 0x06, SlotBytes * k + 14);
    } else {
      DataSyncRun(tr, k);
    }
  }

  /** When the address mark's checksum is not `06`, the search runs on to
    * the second run of sync bytes. */
  lemma DataSyncRun(tr: int, k: int)
    requires 0 <= tr < Tracks && 0 <= k < SectorsPerTrack && tr + SectorNums[k] != 0x06
    ensures SkipUntil(Layout(), TrackBytes * tr, SlotBytes * k + 14, TrackBytes, 0x06) == SlotBytes * k + 20
  {
    var at := TrackBytes * tr;
    var base := SlotBytes * k;
    LayoutAt(tr, k, 14);
    assert Layout()[at + base + 20] == 0x06 by { LayoutAt(tr, k, 20); }
    assert forall y :: at + base + 14 <= y < at + base + 20 ==> Layout()[y] != 0x06 by {
      SlotBytesNot(tr, k, 14, 20, 0x06);
    }
    SkipUntilAt(Layout(), at, base + 14, TrackBytes, 0x06, base + 20);
  }

  /** The data mark of slot `k` is found from just past its address mark. */
  lemma DataMarkLayout(tr: int, k: int)
    requires 0 <= tr < Tracks && 0 <= k < SectorsPerTrack
    ensures DataMark(Layout(), tr, SlotBytes * k + 14) == SlotBytes * k + 32
  {
    DataSyncLayout(tr, k);
    LayoutAt(tr, k, 30);
    DataGap(tr, k);
    SeekMarkAt(Layout(), TrackBytes * tr, DataSync(tr, k), TrackBytes - 3, 0xDD, 0xF3, SlotBytes * k + 30);
  }

  /**
   * One round of `readSectors` on slot `k` of a laid-out track finds the
   * slot's sector, its data 35 bytes into the slot, its length, and starts
   * the next round where it looks for slot `k + 1`.
   */
  lemma ScanSlot(tr: int, k: int)
    requires 0 <= tr < Tracks && 0 <= k < SectorsPerTrack
    ensures ScanOne(Layout(), tr, SlotSearch(k)) == SlotRound(tr, k)
  {
    AddressMarkLayout(tr, k);
    DataMarkLayout(tr, k);
    SlotFields(tr, k);
    ScanSlotFound(Layout(), tr, k);
  }

  /** The address field of slot `k` names track `tr` and the slot's sector,
    * and its length word is the sector's length. */
  lemma SlotFields(tr: int, k: int)
    requires 0 <= tr < Tracks && 0 <= k < SectorsPerTrack
    ensures Layout()[TrackBytes * tr + (SlotBytes * k + 12)] == tr
    ensures Layout()[TrackBytes * tr + (SlotBytes * k + 12) + 1] == SectorNums[k]
    ensures Word(Layout()[TrackBytes * tr + (SlotBytes * k + 32)], Layout()[TrackBytes * tr + (SlotBytes * k + 32) + 1]) == SlotLen(tr, k)
  {
    LayoutAt(tr, k, 12);
    LayoutAt(tr, k, 13);
    LayoutAt(tr, k, 32);
    LayoutAt(tr, k, 33);
  }

  /** On any image whose slot `k` has the marks and fields of a laid-out
    * slot, the round looking for it records it. */
  lemma ScanSlotFound(img: seq<uint8>, tr: int, k: int)
    requires |img| >= ImageBytes && 0 <= tr < Tracks && 0 <= k < SectorsPerTrack
    requires AddressMark(img, tr, SlotSearch(k)) == SlotBytes * k + 12
    requires DataMark(img, tr, SlotBytes * k + 14) == SlotBytes * k + 32
    requires img[TrackBytes * tr + (SlotBytes * k + 12)] == tr
    requires img[TrackBytes * tr + (SlotBytes * k + 12) + 1] == SectorNums[k]
    requires Word(img[TrackBytes * tr + (SlotBytes * k + 32)], img[TrackBytes * tr + (SlotBytes * k + 32) + 1]) == SlotLen(tr, k)
    ensures ScanOne(img, tr, SlotSearch(k)) == SlotRound(tr, k)
  {
    SlotOfNums(k);
    ScanOneFound(img, tr, SlotSearch(k), SlotBytes * k + 12, SlotBytes * k + 32);
  }

  /** A round of `readSectors` whose address mark names this track and a
    * sector of the table, followed by a data mark far enough from the end,
    * records that sector. */
  lemma ScanOneFound(img: seq<uint8>, t: int, pos: int, p: int, q: int)
    requires |img| >= ImageBytes && 0 <= t < Tracks && 0 <= pos
    requires AddressMark(img, t, pos) == p && p < TrackBytes - 2 && img[TrackBytes * t + p] == t
    requires DataMark(img, t, p + 2) == q && q < TrackBytes - 519
    requires Index(t, img[TrackBytes * t + p + 1]) < SectorCount
    ensures ScanOne(img, t, pos) ==
      Round(Ok, Index(t, img[TrackBytes * t + p + 1]), TrackBytes * t + q + 3,
            Word(img[TrackBytes * t + q], img[TrackBytes * t + q + 1]), q + 3 + 530)
  {
  }

  // ---------------------------------------------------------------------
  // The table readSectors builds from the layout

  /** The slot sector `s` is written to: the inverse of `SectorNums`. */
  function SlotOf(s: int): (k: int)
    requires 0 <= s < SectorsPerTrack
    ensures 0 <= k < SectorsPerTrack && SectorNums[k] == s
  {
    [0, 2, 4, 1, 3][s]
  }

  lemma SlotOfNums(k: int)
    requires 0 <= k < SectorsPerTrack
    ensures 0 <= SectorNums[k] < SectorsPerTrack && SlotOf(SectorNums[k]) == k
  {
  }

  /** Where `readSectors` finds the data of entry `i` in a laid-out image. */
  function SlotPtr(i: int): (p: int)
    requires 0 <= i < SectorCount
    ensures DataStart <= p && p + 514 <= ImageBytes
  {
    TrackBytes * TrackOf(i) + SlotBytes * SlotOf(SectorOf(i)) + DataStart
  }

  /** The length word laid out for entry `i`. */
  function FmtLen(i: int): uint16
  {
    if i == VtocIndex then VtocBytes else SectorBytes
  }

  /** Entry `i` as `readSectors` records it from the layout. */
  function Fmt(e: RkSector, i: int): RkSector
    requires 0 <= i < SectorCount
  {
    e.(ptr := SlotPtr(i), len := FmtLen(i), dirty := false)
  }

  /** The table once the tracks before `tr`, and the first `k` slots of
    * track `tr`, have been scanned. */
  function FmtUpTo(sec: seq<RkSector>, tr: int, k: int): (r: seq<RkSector>)
    requires |sec| == SectorCount
    ensures |r| == SectorCount
  {
    seq(SectorCount, i requires 0 <= i < SectorCount =>
      if TrackOf(i) < tr || (TrackOf(i) == tr && SlotOf(SectorOf(i)) < k) then Fmt(sec[i], i) else sec[i])
  }

  lemma FmtFits(sec: seq<RkSector>, tr: int, k: int, n: nat)
    requires TableFits(sec, n) && n >= ImageBytes
    ensures TableFits(FmtUpTo(sec, tr, k), n)
  {
  }

  /** What the scan finds in slot `k` of track `tr`. */
  function SlotRound(tr: int, k: int): Round
    requires 0 <= k < SectorsPerTrack
  {
    Round(Ok, Index(tr, SectorNums[k]), TrackBytes * tr + SlotBytes * k + DataStart, SlotLen(tr, k), SlotSearch(k + 1))
  }

  /** Recording slot `k` of track `tr` formats exactly the entry of that
    * slot's sector. */
  lemma FmtStep(sec: seq<RkSector>, tr: int, k: int)
    requires |sec| == SectorCount && 0 <= tr < Tracks && 0 <= k < SectorsPerTrack
    ensures Record(FmtUpTo(sec, tr, k), SlotRound(tr, k)) == FmtUpTo(sec, tr, k + 1)
  {
    var i := Index(tr, SectorNums[k]);
    SlotOfNums(k);
    IndexParts(tr, SectorNums[k]);
    var a := Record(FmtUpTo(sec, tr, k), SlotRound(tr, k));
    var b := FmtUpTo(sec, tr, k + 1);
    forall j | 0 <= j < SectorCount
      ensures a[j] == b[j]
    {
      if j != i && TrackOf(j) == tr {
        assert j == Index(tr, SectorOf(j));
      }
    }
  }

  /** The scan of a track whose slots from `k` on are laid out records
    * them and ends there. */
  lemma {:induction false} TrackScan(img: seq<uint8>, sec: seq<RkSector>, tr: int, k: int)
    requires |img| >= ImageBytes && TableFits(sec, |img|) && 0 <= tr < Tracks && 0 <= k <= SectorsPerTrack
    requires forall j :: k <= j < SectorsPerTrack ==> ScanOne(img, tr, SlotSearch(j)) == SlotRound(tr, j)
    ensures TableFits(FmtUpTo(sec, tr, k), |img|)
    ensures ScanTrack(img, FmtUpTo(sec, tr, k), tr, SlotSearch(k), k) == (Ok, FmtUpTo(sec, tr, SectorsPerTrack))
    decreases SectorsPerTrack - k
  {
    FmtFits(sec, tr, k, |img|);
    if k < SectorsPerTrack {
      FmtStep(sec, tr, k);
      TrackScan(img, sec, tr, k + 1);
    }
  }

  /** The scan of a laid-out track records its five slots. */
  lemma TrackLayout(sec: seq<RkSector>, tr: int)
    requires TableFits(sec, ImageBytes) && 0 <= tr < Tracks
    ensures TableFits(FmtUpTo(sec, tr, 0), ImageBytes)
    ensures ScanTrack(Layout(), FmtUpTo(sec, tr, 0), tr, 0, 0) == (Ok, FmtUpTo(sec, tr, SectorsPerTrack))
  {
    forall j | 0 <= j < SectorsPerTrack
      ensures ScanOne(Layout(), tr, SlotSearch(j)) == SlotRound(tr, j)
    {
      ScanSlot(tr, j);
    }
    TrackScan(Layout(), sec, tr, 0);
  }

  /** Marking track `t` dirty before its scan changes nothing the scan
    * does not set again. */
  lemma MarkFmt(sec: seq<RkSector>, t: int)
    requires |sec| == SectorCount && 0 <= t < Tracks
    ensures MarkTrackDirty(FmtUpTo(sec, t, 0), t) == FmtUpTo(MarkTrackDirty(sec, t), t, 0)
    ensures FmtUpTo(MarkTrackDirty(sec, t), t, SectorsPerTrack) == FmtUpTo(sec, t + 1, 0)
  {
    var m := MarkTrackDirty(sec, t);
    forall i | 0 <= i < SectorCount
      ensures MarkTrackDirty(FmtUpTo(sec, t, 0), t)[i] == FmtUpTo(m, t, 0)[i]
      ensures FmtUpTo(m, t, SectorsPerTrack)[i] == FmtUpTo(sec, t + 1, 0)[i]
    {
      assert 5 * t <= i < 5 * t + 5 <==> TrackOf(i) == t;
    }
  }

  /** `readSectors` from track `t` on, over a laid-out image whose tracks
    * before `t` are already recorded, records every slot. */
  lemma {:induction false} ReadLayout(sec: seq<RkSector>, t: int)
    requires TableFits(sec, ImageBytes) && 0 <= t <= Tracks
    ensures TableFits(FmtUpTo(sec, t, 0), ImageBytes)
    ensures ReadSectorsFrom(Layout(), FmtUpTo(sec, t, 0), t) == (Ok, FmtUpTo(sec, Tracks, 0))
    decreases Tracks - t
  {
    FmtFits(sec, t, 0, ImageBytes);
    if t < Tracks {
      var m := MarkTrackDirty(sec, t);
      MarkFmt(sec, t);
      TrackLayout(m, t);
      ReadLayout(sec, t + 1);
    }
  }

  /** The table `readSectors` builds from the layout: every entry's data
    * pointer and length, clean, its allocated flag untouched. */
  function Formatted(sec: seq<RkSector>): (r: seq<RkSector>)
    requires |sec| == SectorCount
    ensures |r| == SectorCount && forall i :: 0 <= i < SectorCount ==> r[i] == Fmt(sec[i], i)
  {
    FmtUpTo(sec, Tracks, 0)
  }

  /** `readSectors` on the laid-out image finds every sector in its slot. */
  lemma FormatReads(d: Disk)
    requires Wf(d) && |d.image| == ImageBytes
    ensures ReadSectors(d.(image := Layout())) == (Ok, d.(image := Layout(), sectors := Formatted(d.sectors)))
  {
    assert FmtUpTo(d.sectors, 0, 0) == d.sectors;
    ReadLayout(d.sectors, 0);
  }

  // ---------------------------------------------------------------------
  // format

  /** The table entry of directory sector `i`: track `32 + i / 5`, sector
    * `i % 5`, which is the entry `i` past the VTOC's. */
  lemma DirEntry(i: int)
    requires 0 <= i
    ensures Index(VtocTrack + i / 5, i % 5) == VtocIndex + i
  {
  }

  /** Directory sector `i` links to sector `i + 1`: the first two bytes of
    * its data are that sector's track and sector numbers. */
  function Link(d: Disk, i: int): (r: Disk)
    requires Wf(d) && 0 <= i && VtocIndex + i < SectorCount && d.sectors[VtocIndex + i].ptr != Unset
    ensures Wf(r) && r == d.(image := r.image) && |r.image| == |d.image|
    ensures r.image[d.sectors[VtocIndex + i].ptr] == VtocTrack + (i + 1) / 5
    ensures r.image[d.sectors[VtocIndex + i].ptr + 1] == (i + 1) % 5
    ensures forall y :: 0 <= y < |d.image| && y != d.sectors[VtocIndex + i].ptr && y != d.sectors[VtocIndex + i].ptr + 1 ==>
      r.image[y] == d.image[y]
  {
    var p := d.sectors[VtocIndex + i].ptr;
    assert PtrFits(d.sectors[VtocIndex + i], |d.image|);
    var img := d.image[p := Low(VtocTrack + (i + 1) / 5)][p + 1 := (i + 1) % 5];
    WfImage(d, img);
    d.(image := img)
  }

  /** Directory sectors `i` to `n`: claim each, and link each but the last
    * to the next. A sector past the table is undefined. */
  function DirSectors(d: Disk, i: int, n: int): (r: (Status, Disk))
    requires Wf(d) && 1 <= i
    ensures Wf(r.1) && |r.1.image| == |d.image|
    ensures r.1 == d.(image := r.1.image, sectors := r.1.sectors, freeSectors := r.1.freeSectors)
    ensures SameShape(d.sectors, r.1.sectors)
    decreases n - i
  {
    if i > n then (Ok, d)
    else
      DirEntry(i);
      var a := AllocateSpecific(d, VtocTrack + i / 5, i % 5);
      if a.0 != Ok then a
      else if i == n then a
      else DirSectors(Link(a.1, i), i + 1, n)
  }

  /** Claim the VTOC sector and set its length to 160. */
  function ClaimVtoc(d: Disk): (r: (Status, Disk))
    requires Wf(d)
    ensures Wf(r.1) && |r.1.image| == |d.image|
    ensures r.1 == d.(image := r.1.image, sectors := r.1.sectors, freeSectors := r.1.freeSectors)
  {
    var a := AllocateSpecific(d, VtocTrack, 0);
    if a.0 != Ok then a
    else (Ok, a.1.(sectors := a.1.sectors[VtocIndex := a.1.sectors[VtocIndex].(len := VtocBytes)]))
  }

  /**
   * `format(directorySize)`: refuse an image that is not 500000 bytes; lay
   * out all 160 tracks; find the sectors again with `readSectors`; claim
   * the VTOC sector and set its length to 160; claim and link the
   * `directorySize` directory sectors that follow it; write the changed
   * sectors back. The allocated flags and the free counter are not reset
   * first: the claims count off from whatever they were.
   */
  function Format(d: Disk, directorySize: int): (r: (Status, Disk))
    requires Wf(d)
    ensures Wf(r.1)
    ensures |d.image| != ImageBytes ==> r == (Throw(BadDiskFormat), d)
    ensures r.1.fileList == d.fileList && r.1.freeDirEntries == d.freeDirEntries && r.1.diskRead == d.diskRead
  {
    if |d.image| != ImageBytes then (Throw(BadDiskFormat), d)
    else
      var s := ReadSectors(d.(image := Layout()));
      if s.0 != Ok then s
      else
        var a := ClaimVtoc(s.1);
        if a.0 != Ok then a
        else
          var ds := DirSectors(a.1, 1, directorySize);
          if ds.0 != Ok then ds else UpdateSectors(ds.1)
  }

  // ---------------------------------------------------------------------
  // What format leaves

  /** Every entry points at its slot with its laid-out length. */
  predicate AtSlots(sec: seq<RkSector>)
  {
    |sec| == SectorCount && forall i :: 0 <= i < SectorCount ==> sec[i].ptr == SlotPtr(i) && sec[i].len == FmtLen(i)
  }

  /** Two slots lie at least a slot apart. */
  lemma SlotsApart(i: int, j: int)
    requires 0 <= i < SectorCount && 0 <= j < SectorCount && i != j
    ensures SlotPtr(i) + SlotBytes <= SlotPtr(j) || SlotPtr(j) + SlotBytes <= SlotPtr(i)
  {
    var ti, tj := TrackOf(i), TrackOf(j);
    var ki, kj := SlotOf(SectorOf(i)), SlotOf(SectorOf(j));
    if ti == tj {
      assert i == 5 * ti + SectorOf(i) && j == 5 * tj + SectorOf(j);
      assert ki != kj;
    } else if ti < tj {
      assert TrackBytes * ti + TrackBytes <= TrackBytes * tj;
    } else {
      assert TrackBytes * tj + TrackBytes <= TrackBytes * ti;
    }
  }

  /** A table at the slots has every pointer set, its sectors apart, and
    * every entry can be written back. */
  lemma AtSlotsShape(sec: seq<RkSector>)
    requires AtSlots(sec)
    ensures AllSet(sec) && Apart(sec) && WritableFrom(sec, 0) && TableFits(sec, ImageBytes)
  {
    forall i, j | 0 <= i < SectorCount && 0 <= j < SectorCount && i != j
      ensures sec[i].ptr + 517 <= sec[j].ptr || sec[j].ptr + 517 <= sec[i].ptr
    {
      SlotsApart(i, j);
    }
  }

  /** A table at the slots is laid out, with every sector but the VTOC
    * 512 bytes long. */
  lemma AtSlotsLaidOut(sec: seq<RkSector>)
    requires AtSlots(sec)
    ensures LaidOut(sec)
    ensures forall i :: 0 <= i < SectorCount && i != VtocIndex ==> sec[i].len == SectorBytes
  {
    AtSlotsShape(sec);
  }

  /** Where directory sector `j` keeps its data. */
  function DirPtr(j: int): int
    requires 0 <= j < SectorCount - VtocIndex
  {
    SlotPtr(VtocIndex + j)
  }

  /** Directory sectors `lo` to `hi - 1` each link to the next. */
  predicate Linked(img: seq<uint8>, lo: int, hi: int)
    requires |img| == ImageBytes
  {
    forall j :: lo <= j < hi && 0 <= j < SectorCount - VtocIndex ==>
      img[DirPtr(j)] == VtocTrack + (j + 1) / 5 && img[DirPtr(j) + 1] == (j + 1) % 5
  }

  /**
   * A fresh volume part-way through format: the table is at the slots, the
   * VTOC sector and directory sectors 1 to `i - 1` are exactly the entries
   * in use and are dirty, the VTOC agrees with the table, and `i` sectors
   * have been counted off the free counter `free` held before.
   */
  predicate Claimed(d: Disk, free: int, i: int)
  {
    Wf(d) && |d.image| == ImageBytes && AtSlots(d.sectors) && Agrees(d.sectors, d.image) &&
    (forall j :: 0 <= j < SectorCount ==> d.sectors[j].isAllocated == (VtocIndex <= j < VtocIndex + i)) &&
    (forall j :: VtocIndex <= j < VtocIndex + i && j < SectorCount ==> d.sectors[j].dirty) &&
    d.freeSectors == free - i
  }

  /** No bit of a zero byte is set. */
  lemma {:induction false} TestBitZero(s: nat)
    ensures !TestBit(0, s)
  {
    if s > 0 {
      TestBitZero(s - 1);
    }
  }

  /** Only bit 0 of the byte 1 is set. */
  lemma TestBitOne(s: nat)
    ensures TestBit(1, s) == (s == 0)
  {
    if s > 0 {
      TestBitZero(s - 1);
    }
  }

  /** On a table with nothing in use, claiming the VTOC sector leaves only
    * its own bit set in the VTOC. */
  lemma ClaimVtocFresh(d: Disk)
    requires Wf(d) && |d.image| == ImageBytes && AtSlots(d.sectors)
    requires forall j :: 0 <= j < SectorCount ==> !d.sectors[j].isAllocated
    ensures ClaimVtoc(d).0 == Ok && Claimed(ClaimVtoc(d).1, d.freeSectors, 1)
    ensures ClaimVtoc(d).1 == d.(image := ClaimVtoc(d).1.image, sectors := ClaimVtoc(d).1.sectors, freeSectors := ClaimVtoc(d).1.freeSectors)
  {
    AtSlotsShape(d.sectors);
    var v := d.sectors[VtocIndex].ptr;
    var c := Claim(d, VtocIndex);
    var r := ClaimVtoc(d).1;
    assert r.sectors == c.1.sectors;
    assert r.image == c.1.image;
    assert TrackOf(VtocIndex) == VtocTrack && SectorOf(VtocIndex) == 0;
    assert r.image[v + VtocTrack] == 1;
    forall j | 0 <= j < SectorCount
      ensures r.sectors[j].isAllocated == VtocBit(r.sectors, r.image, j)
    {
      if TrackOf(j) == VtocTrack {
        TestBitOne(SectorOf(j));
        assert j == 5 * VtocTrack + SectorOf(j);
      } else {
        assert r.image[v + TrackOf(j)] == 0;
        TestBitZero(SectorOf(j));
      }
    }
    AllocatedUpdate(d.sectors, VtocIndex, d.sectors[VtocIndex].(dirty := true, isAllocated := true));
  }

  /** Claiming directory sector `i` adds it to the entries in use and
    * zeroes its data, keeping the links already written. */
  lemma ClaimDir(d: Disk, free: int, i: int)
    requires Claimed(d, free, i) && Linked(d.image, 1, i) && 1 <= i < SectorCount - VtocIndex
    ensures var a := AllocateSpecific(d, VtocTrack + i / 5, i % 5);
      a.0 == Ok && Claimed(a.1, free, i + 1) && Linked(a.1.image, 1, i) &&
      a.1.image[DirPtr(i)] == 0 && a.1.image[DirPtr(i) + 1] == 0
  {
    ClaimDirClaimed(d, free, i);
    ClaimDirLinks(d, free, i);
  }

  /** Claiming directory sector `i` sets its flag and its VTOC bit. */
  lemma ClaimDirClaimed(d: Disk, free: int, i: int)
    requires Claimed(d, free, i) && 1 <= i < SectorCount - VtocIndex
    ensures var a := AllocateSpecific(d, VtocTrack + i / 5, i % 5);
      a.0 == Ok && Claimed(a.1, free, i + 1)
  {
    DirEntry(i);
    AtSlotsShape(d.sectors);
    var k := VtocIndex + i;
    var a := AllocateSpecific(d, VtocTrack + i / 5, i % 5);
    var c := Claim(d, k);
    assert a.1.image == c.1.image && a.1.sectors == c.1.sectors;
    forall j | 0 <= j < SectorCount
      ensures a.1.sectors[j].isAllocated == VtocBit(a.1.sectors, a.1.image, j)
    {
      ClaimBit(d, k, j);
    }
  }

  /** Claiming directory sector `i` zeroes its data and keeps the links of
    * sectors 1 to `i - 1`. */
  lemma ClaimDirLinks(d: Disk, free: int, i: int)
    requires Claimed(d, free, i) && Linked(d.image, 1, i) && 1 <= i < SectorCount - VtocIndex
    ensures var a := AllocateSpecific(d, VtocTrack + i / 5, i % 5);
      a.0 == Ok && Linked(a.1.image, 1, i) && a.1.image[DirPtr(i)] == 0 && a.1.image[DirPtr(i) + 1] == 0
  {
    ClaimDirZero(d, free, i);
    ClaimDirKeeps(d, free, i);
  }

  /** The first two data bytes of a claimed directory sector are zero. */
  lemma ClaimDirZero(d: Disk, free: int, i: int)
    requires Claimed(d, free, i) && 1 <= i < SectorCount - VtocIndex
    ensures var a := AllocateSpecific(d, VtocTrack + i / 5, i % 5);
      a.0 == Ok && a.1.image[DirPtr(i)] == 0 && a.1.image[DirPtr(i) + 1] == 0
  {
    DirEntry(i);
    AtSlotsShape(d.sectors);
    var k := VtocIndex + i;
    SlotsApart(k, VtocIndex);
    assert AllocateSpecific(d, VtocTrack + i / 5, i % 5).1.image == Claim(d, k).1.image;
  }

  /** Claiming directory sector `i` keeps the links of sectors 1 to `i - 1`. */
  lemma ClaimDirKeeps(d: Disk, free: int, i: int)
    requires Claimed(d, free, i) && Linked(d.image, 1, i) && 1 <= i < SectorCount - VtocIndex
    ensures var a := AllocateSpecific(d, VtocTrack + i / 5, i % 5);
      a.0 == Ok && Linked(a.1.image, 1, i)
  {
    DirEntry(i);
    AtSlotsShape(d.sectors);
    var k := VtocIndex + i;
    var a := AllocateSpecific(d, VtocTrack + i / 5, i % 5);
    assert a.1.image == Claim(d, k).1.image;
    forall j | 1 <= j < i
      ensures a.1.image[DirPtr(j)] == d.image[DirPtr(j)] && a.1.image[DirPtr(j) + 1] == d.image[DirPtr(j) + 1]
    {
      SlotsApart(VtocIndex + j, k);
      SlotsApart(VtocIndex + j, VtocIndex);
    }
  }

  /** Writing the link of directory sector `i` keeps the VTOC. */
  lemma LinkDir(d: Disk, free: int, i: int)
    requires Claimed(d, free, i + 1) && Linked(d.image, 1, i) && 1 <= i < SectorCount - VtocIndex
    ensures Claimed(Link(d, i), free, i + 1) && Linked(Link(d, i).image, 1, i + 1)
  {
    LinkClaimed(d, free, i);
    LinkLinked(d, free, i);
  }

  /** The link of directory sector `i` lies outside the VTOC, so the table
    * still agrees with it. */
  lemma LinkClaimed(d: Disk, free: int, i: int)
    requires Claimed(d, free, i + 1) && 1 <= i < SectorCount - VtocIndex
    ensures Claimed(Link(d, i), free, i + 1)
  {
    AtSlotsShape(d.sectors);
    var r := Link(d, i);
    var v := d.sectors[VtocIndex].ptr;
    SlotsApart(VtocIndex + i, VtocIndex);
    forall j | 0 <= j < SectorCount
      ensures r.sectors[j].isAllocated == VtocBit(r.sectors, r.image, j)
    {
      assert r.image[v + TrackOf(j)] == d.image[v + TrackOf(j)];
    }
  }

  /** The link of directory sector `i` is written into its own slot and
    * keeps the links of sectors 1 to `i - 1`. */
  lemma LinkLinked(d: Disk, free: int, i: int)
    requires Claimed(d, free, i + 1) && Linked(d.image, 1, i) && 1 <= i < SectorCount - VtocIndex
    ensures Linked(Link(d, i).image, 1, i + 1)
  {
    AtSlotsShape(d.sectors);
    var r := Link(d, i);
    forall j | 1 <= j < i
      ensures r.image[DirPtr(j)] == d.image[DirPtr(j)] && r.image[DirPtr(j) + 1] == d.image[DirPtr(j) + 1]
    {
      SlotsApart(VtocIndex + j, VtocIndex + i);
      var y := DirPtr(j);
      assert y != DirPtr(i) && y != DirPtr(i) + 1 && y + 1 != DirPtr(i) && y + 1 != DirPtr(i) + 1;
    }
  }

  /** Directory sectors `i` to `n` of a fresh volume are claimed and linked;
    * the last one's first two bytes stay zero. */
  lemma {:induction false} DirSectorsFresh(d: Disk, free: int, i: int, n: int)
    requires Claimed(d, free, i) && Linked(d.image, 1, i) && 1 <= i <= n < SectorCount - VtocIndex
    ensures var r := DirSectors(d, i, n);
      r.0 == Ok && Claimed(r.1, free, n + 1) && Linked(r.1.image, 1, n) &&
      r.1.image[DirPtr(n)] == 0 && r.1.image[DirPtr(n) + 1] == 0
    decreases n - i, 1
  {
    if i < n {
      DirSectorsOn(d, free, i, n);
    } else {
      ClaimDir(d, free, i);
    }
  }

  /** Claiming directory sector `i` and linking it to the next hands the
    * rest of the claim a fresh volume claimed up to `i + 1`. */
  lemma {:induction false} DirSectorsOn(d: Disk, free: int, i: int, n: int)
    requires Claimed(d, free, i) && Linked(d.image, 1, i) && 1 <= i < n < SectorCount - VtocIndex
    ensures var r := DirSectors(d, i, n);
      r.0 == Ok && Claimed(r.1, free, n + 1) && Linked(r.1.image, 1, n) &&
      r.1.image[DirPtr(n)] == 0 && r.1.image[DirPtr(n) + 1] == 0
    decreases n - i, 0
  {
    ClaimDir(d, free, i);
    var a := AllocateSpecific(d, VtocTrack + i / 5, i % 5);
    LinkDir(a.1, free, i);
    DirSectorsFresh(Link(a.1, i), free, i + 1, n);
  }

  /** On a table at the slots, `updateSectors` keeps the data bytes of a
    * dirty sector. */
  lemma UpdateKeepsByte(d: Disk, k: int, y: int)
    requires Wf(d) && AtSlots(d.sectors) && 0 <= k < SectorCount && d.sectors[k].dirty
    requires SlotPtr(k) <= y < SlotPtr(k) + FmtLen(k)
    ensures UpdateSectors(d).0 == Ok && UpdateSectors(d).1.image[y] == d.image[y]
  {
    AtSlotsShape(d.sectors);
    UpdateSectorsWrites(d, k);
    var p := SlotPtr(k);
    var u := UpdateSectors(d).1.image;
    assert u[p..p + FmtLen(k)][y - p] == d.image[p..p + FmtLen(k)][y - p];
  }

  /** Writing the claimed sectors back keeps the VTOC and the links. */
  lemma UpdateFresh(d: Disk, free: int, n: int)
    requires Claimed(d, free, n + 1) && Linked(d.image, 1, n) && 0 <= n < SectorCount - VtocIndex
    ensures var u := UpdateSectors(d);
      u.0 == Ok && Claimed(u.1, free, n + 1) && Linked(u.1.image, 1, n) &&
      (n >= 1 ==> u.1.image[DirPtr(n)] == d.image[DirPtr(n)] && u.1.image[DirPtr(n) + 1] == d.image[DirPtr(n) + 1])
  {
    var u := UpdateSectors(d).1;
    var v := SlotPtr(VtocIndex);
    UpdateKeepsByte(d, VtocIndex, v);
    forall j | 0 <= j < SectorCount
      ensures u.sectors[j].isAllocated == VtocBit(u.sectors, u.image, j)
    {
      UpdateKeepsByte(d, VtocIndex, v + TrackOf(j));
    }
    forall j | 1 <= j < n
      ensures u.image[DirPtr(j)] == d.image[DirPtr(j)] && u.image[DirPtr(j) + 1] == d.image[DirPtr(j) + 1]
    {
      UpdateKeepsByte(d, VtocIndex + j, DirPtr(j));
      UpdateKeepsByte(d, VtocIndex + j, DirPtr(j) + 1);
    }
    if n >= 1 {
      UpdateKeepsByte(d, VtocIndex + n, DirPtr(n));
      UpdateKeepsByte(d, VtocIndex + n, DirPtr(n) + 1);
    }
  }

  /**
   * Formatting a volume whose table has nothing in use (as a new volume's
   * has) with fewer than 640 directory sectors ends normally: every sector
   * is at its slot, exactly the VTOC sector and the `n` directory sectors
   * after it are in use, the VTOC says so bit for bit, `n + 1` sectors are
   * counted off the free counter, each directory sector but the last links
   * to the next, and the last one's link bytes are zero.
   */
  lemma FormatFresh(d: Disk, n: int)
    requires Wf(d) && |d.image| == ImageBytes && 0 <= n < SectorCount - VtocIndex
    requires forall j :: 0 <= j < SectorCount ==> !d.sectors[j].isAllocated
    ensures var r := Format(d, n);
      r.0 == Ok && Claimed(r.1, d.freeSectors, n + 1) && r.1.freeSectors == d.freeSectors - 1 - n &&
      Linked(r.1.image, 1, n) && (n >= 1 ==> r.1.image[DirPtr(n)] == 0 && r.1.image[DirPtr(n) + 1] == 0)
  {
    FormatReads(d);
    var s := d.(image := Layout(), sectors := Formatted(d.sectors));
    ClaimVtocFresh(s);
    var a := ClaimVtoc(s).1;
    var ds := DirSectors(a, 1, n);
    if n >= 1 {
      DirSectorsFresh(a, d.freeSectors, 1, n);
    }
    UpdateFresh(ds.1, d.freeSectors, n);
  }

  /** `format` that ends normally leaves the table at the slots: laid out,
    * the VTOC sector 160 bytes long and every other sector 512. */
  lemma FormatLaidOut(d: Disk, n: int)
    requires Wf(d) && Format(d, n).0 == Ok
    ensures AtSlots(Format(d, n).1.sectors) && LaidOut(Format(d, n).1.sectors)
    ensures forall i :: 0 <= i < SectorCount && i != VtocIndex ==> Format(d, n).1.sectors[i].len == SectorBytes
  {
    FormatReads(d);
    var s := d.(image := Layout(), sectors := Formatted(d.sectors));
    AtSlotsShape(s.sectors);
    var a := ClaimVtoc(s);
    var ds := DirSectors(a.1, 1, n);
    assert AtSlots(ds.1.sectors);
    AtSlotsLaidOut(Format(d, n).1.sectors);
  }

  /** The directory sectors from `i` on are claimed normally unless there
    * are 640 or more of them: sector 640 would be entry 800, past the
    * table. */
  lemma {:induction false} DirSectorsStatus(d: Disk, i: int, n: int)
    requires Wf(d) && AtSlots(d.sectors) && 1 <= i <= SectorCount - VtocIndex
    ensures DirSectors(d, i, n).0 == (if n < i || n < SectorCount - VtocIndex then Ok else Undefined)
    decreases n - i, 1
  {
    if i <= n {
      DirSectorStatusAt(d, i, n);
    }
  }

  /** Sector `i` of the directory is claimed normally when it has an entry
    * in the table, and the claim goes on from there. */
  lemma {:induction false} DirSectorStatusAt(d: Disk, i: int, n: int)
    requires Wf(d) && AtSlots(d.sectors) && 1 <= i <= n && i <= SectorCount - VtocIndex
    ensures DirSectors(d, i, n).0 == (if n < SectorCount - VtocIndex then Ok else Undefined)
    decreases n - i, 0
  {
    DirEntry(i);
    var a := AllocateSpecific(d, VtocTrack + i / 5, i % 5);
    if i < SectorCount - VtocIndex {
      assert d.sectors[VtocIndex].ptr == SlotPtr(VtocIndex);
      assert d.sectors[VtocIndex + i].ptr == SlotPtr(VtocIndex + i);
      assert a.0 == Ok;
      if i < n {
        var l := Link(a.1, i);
        assert AtSlots(l.sectors);
        assert DirSectors(d, i, n) == DirSectors(l, i + 1, n);
        DirSectorsStatus(l, i + 1, n);
      } else {
        assert DirSectors(d, i, n) == a;
      }
    } else {
      assert a.0 != Ok;
      assert DirSectors(d, i, n) == a;
    }
  }

  /** `format` on a 500000-byte image ends normally exactly when the
    * directory has fewer than 640 sectors, whatever the table held. */
  lemma FormatStatus(d: Disk, n: int)
    requires Wf(d) && |d.image| == ImageBytes
    ensures Format(d, n).0 == (if n < SectorCount - VtocIndex then Ok else Undefined)
  {
    FormatReads(d);
    var s := d.(image := Layout(), sectors := Formatted(d.sectors));
    AtSlotsShape(s.sectors);
    var a := ClaimVtoc(s);
    assert a.0 == Ok;
    DirSectorsStatus(a.1, 1, n);
    var ds := DirSectors(a.1, 1, n);
    if ds.0 == Ok {
      assert AtSlots(ds.1.sectors);
      AtSlotsShape(ds.1.sectors);
      UpdateFromRegion(ds.1.image, ds.1.sectors, 0, 0);
      UpdatedImage(ds.1);
    }
  }
}
