/**
 * Finding the sectors of an RK image: the `isValid` test on the first 32
 * bytes and `readSectors`, which walks each 3125-byte track looking for the
 * address mark (`EA D3`, track, sector) and the data mark (`DD F3`, length)
 * of up to five sectors and records where each sector's data starts.
 *
 * Both marker searches stop at the first position whose byte is the first
 * marker byte OR whose next byte is the second: the loop condition is
 * `b[pos] != m1 && b[pos + 1] != m2`. The sector number read from the
 * address mark is not checked, so a number of 5 or more selects an entry of
 * a later track in the flat 800-entry table, and one past the table is
 * undefined.
 */
module RkScan {
  import opened Bytes
  import opened RkDisk
  import opened RkSectors

  // ---------------------------------------------------------------------
  // The three searches, over bytes `at + pos` of the image

  /** Advance while `pos < lim` and the byte is not `b`: the first `b` at or
    * after `pos`, or `lim`. */
  function SkipUntil(img: seq<uint8>, at: int, pos: int, lim: int, b: int): (p: int)
    requires 0 <= at && 0 <= pos && at + lim <= |img|
    ensures pos <= p && (p == pos || p <= lim)
    ensures p < lim ==> img[at + p] == b
    decreases lim - pos
  {
    if pos < lim && img[at + pos] != b then
      var p := SkipUntil(img, at, pos + 1, lim, b);
      p
    else pos
  }

  /** Advance while `pos < lim` and the byte is `b`. */
  function SkipWhile(img: seq<uint8>, at: int, pos: int, lim: int, b: int): (p: int)
    requires 0 <= at && 0 <= pos && at + lim <= |img|
    ensures pos <= p && (p == pos || p <= lim)
    ensures p < lim ==> img[at + p] != b
    decreases lim - pos
  {
    if pos < lim && img[at + pos] == b then
      var p := SkipWhile(img, at, pos + 1, lim, b);
      p
    else pos
  }

  /** Advance while `pos < lim`, the byte is not `m1` and the next byte is
    * not `m2`: the first position where either marker byte matches, or
    * `lim`. */
  predicate MarkAt(img: seq<uint8>, x: int, m1: int, m2: int)
    requires 0 <= x && x + 1 < |img|
  {
    img[x] == m1 || img[x + 1] == m2
  }

  function SeekMark(img: seq<uint8>, at: int, pos: int, lim: int, m1: int, m2: int): (p: int)
    requires 0 <= at && 0 <= pos && at + lim + 1 <= |img|
    ensures pos <= p && (p == pos || p <= lim)
    ensures p < lim ==> MarkAt(img, at + p, m1, m2)
    decreases lim - pos
  {
    if pos < lim && img[at + pos] != m1 && img[at + pos + 1] != m2 then
      var p := SeekMark(img, at, pos + 1, lim, m1, m2);
      p
    else pos
  }

  /** `SkipUntil` passes only bytes other than `b`. */
  lemma {:induction false} SkipUntilFirst(img: seq<uint8>, at: int, pos: int, lim: int, b: int)
    requires 0 <= at && 0 <= pos && at + lim <= |img|
    ensures forall x :: at + pos <= x < at + SkipUntil(img, at, pos, lim, b) ==> img[x] != b
    decreases lim - pos
  {
    if pos < lim && img[at + pos] != b {
      SkipUntilFirst(img, at, pos + 1, lim, b);
    }
  }

  /** `SkipWhile` passes only bytes equal to `b`. */
  lemma {:induction false} SkipWhileRun(img: seq<uint8>, at: int, pos: int, lim: int, b: int)
    requires 0 <= at && 0 <= pos && at + lim <= |img|
    ensures forall x :: at + pos <= x < at + SkipWhile(img, at, pos, lim, b) ==> img[x] == b
    decreases lim - pos
  {
    if pos < lim && img[at + pos] == b {
      SkipWhileRun(img, at, pos + 1, lim, b);
    }
  }

  /** `SeekMark` passes only positions where neither marker byte matches. */
  lemma {:induction false} SeekMarkFirst(img: seq<uint8>, at: int, pos: int, lim: int, m1: int, m2: int)
    requires 0 <= at && 0 <= pos && at + lim + 1 <= |img|
    ensures forall x :: at + pos <= x < at + SeekMark(img, at, pos, lim, m1, m2) ==> !MarkAt(img, x, m1, m2)
    decreases lim - pos
  {
    if pos < lim && img[at + pos] != m1 && img[at + pos + 1] != m2 {
      SeekMarkFirst(img, at, pos + 1, lim, m1, m2);
    }
  }

  // ---------------------------------------------------------------------
  // isValid

  /** How many leading bytes `isValid` looks at. */
  const ProbeBytes := 32

  /**
   * `isValid`: the image is 500000 bytes, and in its first 32 bytes, after
   * the first `06` and the run of `06` it starts, a byte `EA` or a byte
   * `D3` after it is found before position 30.
   */
  function IsValid(img: seq<uint8>): (ok: bool)
    ensures ok ==> |img| == ImageBytes
    ensures ok ==> exists p :: 0 <= p < ProbeBytes - 2 && MarkAt(img, p, 0xEA, 0xD3)
  {
    if |img| != ImageBytes then false
    else
      var p := SeekMark(img, 0, SkipWhile(img, 0, SkipUntil(img, 0, 0, ProbeBytes, 0x06), ProbeBytes, 0x06), ProbeBytes - 1, 0xEA, 0xD3);
      p < ProbeBytes - 2
  }

  // ---------------------------------------------------------------------
  // readSectors

  /** Every pointer of the table fits an image of `n` bytes. */
  predicate TableFits(sec: seq<RkSector>, n: nat)
  {
    |sec| == SectorCount && forall i :: 0 <= i < SectorCount ==> PtrFits(sec[i], n)
  }

  /** The five entries of track `t` marked dirty, i.e. not found yet. */
  function MarkTrackDirty(sec: seq<RkSector>, t: int): (r: seq<RkSector>)
    ensures |r| == |sec|
    ensures forall i :: 0 <= i < |sec| ==> r[i] == if 5 * t <= i < 5 * t + 5 then sec[i].(dirty := true) else sec[i]
  {
    seq(|sec|, i requires 0 <= i < |sec| => if 5 * t <= i < 5 * t + 5 then sec[i].(dirty := true) else sec[i])
  }

  /** Where the scan of track `t` from `pos` finds the byte after the
    * address mark `EA D3`: past the next `06`, at the first position where
    * either marker byte matches, plus two. */
  function AddressMark(img: seq<uint8>, t: int, pos: int): (p: int)
    requires |img| >= ImageBytes && 0 <= t < Tracks && 0 <= pos
    ensures p >= pos + 2
  {
    var at := TrackBytes * t;
    SeekMark(img, at, SkipUntil(img, at, pos, TrackBytes, 0x06), TrackBytes - 3, 0xEA, 0xD3) + 2
  }

  /** The same for the data mark `DD F3`, which is followed by the length. */
  function DataMark(img: seq<uint8>, t: int, pos: int): (q: int)
    requires |img| >= ImageBytes && 0 <= t < Tracks && 0 <= pos
    ensures q >= pos + 2
  {
    var at := TrackBytes * t;
    SeekMark(img, at, SkipUntil(img, at, pos, TrackBytes, 0x06), TrackBytes - 3, 0xDD, 0xF3) + 2
  }

  /** What one round of the scan of a track finds: how it ended, the table
    * entry the sector number selects, the sector's data pointer and length,
    * and where the next round starts. */
  datatype Round = Round(st: Status, index: int, ptr: int, len: int, next: int)

  /**
   * One round of the scan of track `t` from offset `pos`: find the address
   * mark and check its track number, find the data mark; the sector's data
   * starts three bytes past the mark's length field, and the next round
   * starts 530 bytes after that.
   */
  function ScanOne(img: seq<uint8>, t: int, pos: int): (r: Round)
    requires |img| >= ImageBytes && 0 <= t < Tracks && 0 <= pos
    ensures r.next > pos
    ensures r.st == Ok ==>
      5 * t <= r.index < SectorCount && (r.index < 5 * t + 5 ==> TrackOf(r.index) == t) &&
      TrackBytes * t + pos + 9 <= r.ptr <= TrackBytes * t + 2608 && r.next == r.ptr - TrackBytes * t + 530 &&
      0 <= r.len < 0x1_0000 && Word(img[r.ptr - 3], img[r.ptr - 2]) == r.len
  {
    var at := TrackBytes * t;
    var p := AddressMark(img, t, pos);
    if p >= TrackBytes - 2 || img[at + p] != t then Round(Throw(BadDiskFormat), 0, 0, 0, pos + 1)
    else
      var i := Index(t, img[at + p + 1]);
      var q := DataMark(img, t, p + 2);
      if q >= TrackBytes - 519 then Round(Throw(BadDiskFormat), 0, 0, 0, pos + 1)
      else if i >= SectorCount then Round(Undefined, 0, 0, 0, pos + 1)
      else
        IndexTrack(t, img[at + p + 1]);
        Round(Ok, i, at + q + 3, Word(img[at + q], img[at + q + 1]), q + 3 + 530)
  }

  /** The round that `ScanOne` returns once the address mark is at `p`,
    * case by case. */
  lemma ScanOneCases(img: seq<uint8>, t: int, pos: int, p: int)
    requires |img| >= ImageBytes && 0 <= t < Tracks && 0 <= pos && p == AddressMark(img, t, pos)
    ensures p >= TrackBytes - 2 || img[TrackBytes * t + p] != t ==>
      ScanOne(img, t, pos) == Round(Throw(BadDiskFormat), 0, 0, 0, pos + 1)
    ensures p < TrackBytes - 2 && img[TrackBytes * t + p] == t ==>
      var at, q := TrackBytes * t, DataMark(img, t, p + 2);
      var i := Index(t, img[at + p + 1]);
      ScanOne(img, t, pos) ==
        if q >= TrackBytes - 519 then Round(Throw(BadDiskFormat), 0, 0, 0, pos + 1)
        else if i >= SectorCount then Round(Undefined, 0, 0, 0, pos + 1)
        else Round(Ok, i, at + q + 3, Word(img[at + q], img[at + q + 1]), q + 3 + 530)
  {
  }

  /** An index below the next track's first lies on track `t`. */
  lemma IndexTrack(t: int, s: int)
    requires 0 <= t && 0 <= s
    ensures Index(t, s) < 5 * t + 5 ==> TrackOf(Index(t, s)) == t
  {
    if s < SectorsPerTrack {
      IndexParts(t, s);
    }
  }

  /** The entry a round records: its pointer and length, marked clean. */
  function Record(sec: seq<RkSector>, o: Round): (r: seq<RkSector>)
    requires o.st == Ok && 0 <= o.index < |sec| && 0 <= o.len < 0x1_0000
  {
    sec[o.index := sec[o.index].(ptr := o.ptr, len := o.len, dirty := false)]
  }

  /** The rounds of the scan of track `t` from offset `pos`, with `n`
    * sectors found; it ends at the end of the track or after five sectors. */
  function ScanTrack(img: seq<uint8>, sec: seq<RkSector>, t: int, pos: int, n: int): (r: (Status, seq<RkSector>))
    requires |img| >= ImageBytes && 0 <= t < Tracks && 0 <= pos && TableFits(sec, |img|)
    ensures TableFits(r.1, |img|)
    ensures forall i :: 0 <= i < SectorCount ==> r.1[i].isAllocated == sec[i].isAllocated
    ensures r.0 == Ok && CleanFound(img, sec, 0, 5 * t + 5) ==> CleanFound(img, r.1, 0, 5 * t + 5)
    ensures r.0 == Ok && Apart(sec) && Below(sec, TrackBytes * t + pos) && Below(sec, TrackBytes * t + TrackBytes) ==>
      Apart(r.1) && Below(r.1, TrackBytes * t + TrackBytes)
    decreases TrackBytes - pos
  {
    if pos >= TrackBytes || n >= SectorsPerTrack then (Ok, sec)
    else
      var o := ScanOne(img, t, pos);
      if o.st != Ok then (o.st, sec)
      else
        RecordFound(img, sec, t, pos);
        RecordApart(img, sec, t, pos);
        ScanTrack(img, Record(sec, o), t, o.next, n + 1)
  }

  /** One round of the scan of a track: a failed round ends it with the
    * table unchanged; a round that finds a sector records it and the scan
    * goes on after that sector. */
  lemma ScanTrackStep(img: seq<uint8>, sec: seq<RkSector>, t: int, pos: int, n: int)
    requires |img| >= ImageBytes && 0 <= t < Tracks && 0 <= pos && TableFits(sec, |img|)
    requires pos < TrackBytes && n < SectorsPerTrack
    ensures var o := ScanOne(img, t, pos);
      (o.st != Ok ==> ScanTrack(img, sec, t, pos, n) == (o.st, sec)) &&
      (o.st == Ok ==>
         0 <= o.index < |sec| && 0 <= o.len < 0x1_0000 && 0 <= o.next &&
         TableFits(Record(sec, o), |img|) &&
         ScanTrack(img, sec, t, pos, n) == ScanTrack(img, Record(sec, o), t, o.next, n + 1))
  {
  }

  /** Tracks `t` onwards of `readSectors`. */
  function ReadSectorsFrom(img: seq<uint8>, sec: seq<RkSector>, t: int): (r: (Status, seq<RkSector>))
    requires |img| >= ImageBytes && 0 <= t && TableFits(sec, |img|)
    ensures TableFits(r.1, |img|)
    ensures forall i :: 0 <= i < SectorCount ==> r.1[i].isAllocated == sec[i].isAllocated
    ensures r.0 == Ok && CleanFound(img, sec, 0, 5 * t) ==> CleanFound(img, r.1, 0, SectorCount)
    ensures r.0 == Ok && Apart(sec) && Below(sec, TrackBytes * t) ==> Apart(r.1)
    decreases Tracks - t
  {
    if t >= Tracks then (Ok, sec)
    else
      TrackFound(img, sec, t);
      TrackApart(img, sec, t);
      var s := ScanTrack(img, MarkTrackDirty(sec, t), t, 0, 0);
      if s.0 != Ok then s else ReadSectorsFrom(img, s.1, t + 1)
  }

  /**
   * `readSectors`: scan the 160 tracks in order. An entry is left dirty
   * when its sector was not found on its track. The check for missing
   * sectors that follows each track starts from `true` and ORs into it, so
   * it never fails and is not part of the model. An image shorter than
   * 500000 bytes would be read past its end.
   */
  function ReadSectors(d: Disk): (r: (Status, Disk))
    requires Wf(d)
    ensures Wf(r.1) && r.1 == d.(sectors := r.1.sectors)
    ensures forall i :: 0 <= i < SectorCount ==> r.1.sectors[i].isAllocated == d.sectors[i].isAllocated
    ensures r.0 == Ok ==> CleanFound(d.image, r.1.sectors, 0, SectorCount)
    ensures r.0 == Ok && NoPointers(d.sectors) ==> Apart(r.1.sectors)
  {
    if |d.image| < ImageBytes then (Undefined, d)
    else
      var s := ReadSectorsFrom(d.image, d.sectors, 0);
      (s.0, d.(sectors := s.1))
  }

  // ---------------------------------------------------------------------
  // What readSectors establishes

  /** Entry `i` was found on its own track: its data lies between bytes 5
    * and 2608 of track `i / 5`, and the length field three bytes before the
    * data holds its length. */
  predicate Found(img: seq<uint8>, i: int, e: RkSector)
  {
    e.ptr != Unset && 3 <= e.ptr && TrackBytes * TrackOf(i) + 5 <= e.ptr <= TrackBytes * TrackOf(i) + 2608 &&
    e.ptr + 514 <= |img| && Word(img[e.ptr - 3], img[e.ptr - 2]) == e.len
  }

  /** Every clean entry in `lo..hi` was found. */
  predicate CleanFound(img: seq<uint8>, sec: seq<RkSector>, lo: int, hi: int)
  {
    forall i :: lo <= i < hi && 0 <= i < |sec| && !sec[i].dirty ==> Found(img, i, sec[i])
  }

  /** Recording a round's sector keeps every clean entry of tracks up to
    * `t` found. */
  lemma RecordFound(img: seq<uint8>, sec: seq<RkSector>, t: int, pos: int)
    requires |img| >= ImageBytes && 0 <= t < Tracks && 0 <= pos && |sec| == SectorCount
    requires ScanOne(img, t, pos).st == Ok
    ensures CleanFound(img, sec, 0, 5 * t + 5) ==> CleanFound(img, Record(sec, ScanOne(img, t, pos)), 0, 5 * t + 5)
  {
    var o := ScanOne(img, t, pos);
    var s' := Record(sec, o);
    if CleanFound(img, sec, 0, 5 * t + 5) {
    forall j | 0 <= j < 5 * t + 5 && 0 <= j < |s'| && !s'[j].dirty
      ensures Found(img, j, s'[j])
    {
      if j != o.index {
        assert s'[j] == sec[j];
      }
    }
    }
  }


  /** The scan of track `t` keeps every clean entry of the tracks before
    * it and of track `t` found. */
  lemma TrackFound(img: seq<uint8>, sec: seq<RkSector>, t: int)
    requires |img| >= ImageBytes && 0 <= t < Tracks && TableFits(sec, |img|)
    ensures var s := ScanTrack(img, MarkTrackDirty(sec, t), t, 0, 0);
      s.0 == Ok && CleanFound(img, sec, 0, 5 * t) ==> CleanFound(img, s.1, 0, 5 * t + 5)
  {
    var m := MarkTrackDirty(sec, t);
    if CleanFound(img, sec, 0, 5 * t) {
      assert CleanFound(img, m, 0, 5 * t + 5);
    }
  }


  /** Every set pointer's 517 bytes end by `lim`. */
  predicate Below(sec: seq<RkSector>, lim: int)
  {
    forall i :: 0 <= i < |sec| && sec[i].ptr != Unset ==> sec[i].ptr + 517 <= lim
  }

  /** Recording a round's sector keeps the sectors apart and ending by the
    * next round's start and by the end of the track. */
  lemma RecordApart(img: seq<uint8>, sec: seq<RkSector>, t: int, pos: int)
    requires |img| >= ImageBytes && 0 <= t < Tracks && 0 <= pos && |sec| == SectorCount
    requires ScanOne(img, t, pos).st == Ok
    ensures var o := ScanOne(img, t, pos);
      Apart(sec) && Below(sec, TrackBytes * t + pos) && Below(sec, TrackBytes * t + TrackBytes) ==>
      Apart(Record(sec, o)) && Below(Record(sec, o), TrackBytes * t + o.next) && Below(Record(sec, o), TrackBytes * t + TrackBytes)
  {
    var o := ScanOne(img, t, pos);
    var s' := Record(sec, o);
    if Apart(sec) && Below(sec, TrackBytes * t + pos) && Below(sec, TrackBytes * t + TrackBytes) {
    forall j, k | 0 <= j < |s'| && 0 <= k < |s'| && j != k && s'[j].ptr != Unset && s'[k].ptr != Unset
      ensures s'[j].ptr + 517 <= s'[k].ptr || s'[k].ptr + 517 <= s'[j].ptr
    {
      if j != o.index && k != o.index {
        assert s'[j] == sec[j] && s'[k] == sec[k];
      }
    }
    }
  }


  /** The scan of track `t` keeps the sectors found apart, and ending
    * by the end of track `t`. */
  lemma TrackApart(img: seq<uint8>, sec: seq<RkSector>, t: int)
    requires |img| >= ImageBytes && 0 <= t < Tracks && TableFits(sec, |img|)
    ensures var s := ScanTrack(img, MarkTrackDirty(sec, t), t, 0, 0);
      s.0 == Ok && Apart(sec) && Below(sec, TrackBytes * t) ==> Apart(s.1) && Below(s.1, TrackBytes * t + TrackBytes)
  {
    var m := MarkTrackDirty(sec, t);
    if Apart(sec) && Below(sec, TrackBytes * t) {
      assert forall i :: 0 <= i < |m| ==> m[i].ptr == sec[i].ptr;
      assert Apart(m) && Below(m, TrackBytes * t + 0) && Below(m, TrackBytes * t + TrackBytes);
    }
  }

  /** No entry has a data pointer yet, as in a new volume. */
  predicate NoPointers(sec: seq<RkSector>)
  {
    forall i :: 0 <= i < |sec| ==> sec[i].ptr == Unset
  }
}
