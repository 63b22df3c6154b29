/**
 * The RK volume object. Its fields are those of `RkVolume`: the image
 * bytes, the 160 x 5 sector table (flattened to 800 entries, entry
 * `5 t + s` for track `t`, sector `s`), the file list, the free counters
 * and the read flag. The methods that work step by step on the image and
 * the table are proved to leave exactly the state the functions on `Disk`
 * describe; `Model()` is that `Disk`.
 */
module RkVolumes {
  import opened Bytes
  import opened Wrappers
  import opened RkDisk
  import opened RkSectors
  import opened RkScan
  import RkDir
  import RkFiles
  import RkDelete
  import RkWrite
  import RkFormat

  /** The volume as it is opened: the image file's bytes, a table with no
    * sector found yet, the counters at 0 and nothing read. */
  function Opened(data: seq<uint8>): (d: Disk)
    ensures Wf(d) && |d.image| == |data| && !d.diskRead
    ensures forall i :: 0 <= i < SectorCount ==> d.sectors[i].ptr == Unset && !d.sectors[i].isAllocated
  {
    Disk(data, seq(SectorCount, _ => RkSector(Unset, 0, false, false)), [], 0, 0, false)
  }

  /** Bits 0 and 1 of a VTOC byte are both set exactly when `b & 3` is 3. */
  lemma LowBits(b: uint8)
    ensures (TestBit(b, 0) && TestBit(b, 1)) == (b % 4 == 3)
  {
    assert TestBit(b, 1) == (b / 2 % 2 == 1);
  }

  /** Entry `j` of track `t` takes bit `j - 5 t` of VTOC byte `t`. */
  lemma FlagAt(sec: seq<RkSector>, img: seq<uint8>, v: int, t: int, j: int)
    requires |sec| == SectorCount && 0 <= v && v + Tracks <= |img|
    requires 0 <= t < Tracks && 5 * t <= j < 5 * t + 5
    ensures VtocFlags(sec, img, v)[j] == sec[j].(isAllocated := TestBit(img[v + t], j - 5 * t))
  {
    IndexParts(t, j - 5 * t);
  }

  /** The bits of `bt` are those of `x` from bit `s` on. */
  ghost predicate BitsFrom(bt: nat, x: nat, s: nat)
  {
    forall j: nat :: TestBit(bt, j) == TestBit(x, s + j)
  }

  /** Dropping the low bit of `bt`, whose bits are those of `x` from bit
    * `s` on, leaves the bits of `x` from bit `s + 1` on. */
  lemma NextBits(bt: nat, x: nat, s: nat, bt': nat, s': nat)
    requires BitsFrom(bt, x, s)
    requires bt' == bt / 2 && s' == s + 1
    ensures TestBit(bt, 0) == TestBit(x, s)
    ensures BitsFrom(bt', x, s')
  {
    forall j: nat
      ensures TestBit(bt', j) == TestBit(x, s' + j)
    {
      assert TestBit(bt, j + 1) == TestBit(bt', j);
    }
  }

  /** Changing entry `i` and nothing before it: the count of the entries
    * up to `i` is that of the entries before it plus `i`'s flag. */
  lemma AllocatedStep(a: seq<RkSector>, b: seq<RkSector>, i: int)
    requires 0 <= i < |a| == |b| && forall j :: 0 <= j < i ==> b[j] == a[j]
    ensures Allocated(b[..i + 1]) == Allocated(a[..i]) + (if b[i].isAllocated then 1 else 0)
  {
    assert b[..i + 1][..i] == a[..i];
  }

  /** The table with the flags of the first `s` entries of track `t` taken
    * from the low bits of `x`. */
  function TrackFlagged(sec: seq<RkSector>, x: nat, t: int, s: int): (r: seq<RkSector>)
    ensures |r| == |sec|
    ensures forall j :: 0 <= j < |sec| ==>
      r[j] == if 5 * t <= j < 5 * t + s then sec[j].(isAllocated := TestBit(x, j - 5 * t)) else sec[j]
  {
    seq(|sec|, j requires 0 <= j < |sec| => if 5 * t <= j < 5 * t + s then sec[j].(isAllocated := TestBit(x, j - 5 * t)) else sec[j])
  }

  /** The table with the flags of its first `k` entries taken from the
    * VTOC at `v`. */
  function VtocPrefix(sec: seq<RkSector>, img: seq<uint8>, v: int, k: int): (r: seq<RkSector>)
    requires |sec| == SectorCount && 0 <= v && v + Tracks <= |img|
    ensures |r| == SectorCount
    ensures forall j :: 0 <= j < SectorCount ==>
      r[j] == if j < k then VtocFlags(sec, img, v)[j] else sec[j]
  {
    seq(SectorCount, j requires 0 <= j < SectorCount => if j < k then VtocFlags(sec, img, v)[j] else sec[j])
  }

  /** Flagging track `t` from VTOC byte `t` extends the flagged prefix by
    * the track's five entries. */
  lemma VtocPrefixStep(sec: seq<RkSector>, img: seq<uint8>, v: int, t: int, before: seq<RkSector>, after: seq<RkSector>)
    requires |sec| == SectorCount && 0 <= v && v + Tracks <= |img| && 0 <= t < Tracks
    requires before == VtocPrefix(sec, img, v, 5 * t)
    requires after == TrackFlagged(before, img[v + t], t, 5)
    ensures after == VtocPrefix(sec, img, v, 5 * t + 5)
  {
    forall j | 5 * t <= j < 5 * t + 5
      ensures after[j] == VtocFlags(sec, img, v)[j]
    {
      FlagAt(sec, img, v, t, j);
    }
  }

  /** The whole table flagged is `VtocFlags`. */
  lemma VtocPrefixAll(sec: seq<RkSector>, img: seq<uint8>, v: int)
    requires |sec| == SectorCount && 0 <= v && v + Tracks <= |img|
    ensures VtocPrefix(sec, img, v, SectorCount) == VtocFlags(sec, img, v)
  {
  }

  /** Setting entry `5 t + s` from bit `s` of `x` flags one more entry. */
  lemma TrackFlaggedStep(sec: seq<RkSector>, before: seq<RkSector>, after: seq<RkSector>, x: nat, t: int, s: int)
    requires 0 <= t && 0 <= s && 5 * t + s < |sec| && before == TrackFlagged(sec, x, t, s)
    requires after == before[5 * t + s := before[5 * t + s].(isAllocated := TestBit(x, s))]
    ensures after == TrackFlagged(sec, x, t, s + 1)
  {
  }

  /** The slot bytes as `LayoutByte` sees them. */
  lemma LayoutByteAt(tr: int, k: int, o: int)
    requires 0 <= tr < Tracks && 0 <= k < SectorsPerTrack && 0 <= o < RkFormat.SlotBytes
    ensures RkFormat.LayoutByte(TrackBytes * tr + RkFormat.SlotBytes * k + o) == RkFormat.SlotByte(tr, k, o)
  {
    var x := TrackBytes * tr + RkFormat.SlotBytes * k + o;
    var j := RkFormat.SlotBytes * k + o;
    assert x / TrackBytes == tr && x % TrackBytes == j;
    assert j / RkFormat.SlotBytes == k && j % RkFormat.SlotBytes == o;
  }

  /** The filler after the slots of every track. */
  lemma LayoutByteTail(tr: int, x: int)
    requires 0 <= tr < Tracks && TrackBytes * tr + RkFormat.SlotsEnd <= x < TrackBytes * tr + TrackBytes
    ensures RkFormat.LayoutByte(x) == 0xFF
  {
    assert x / TrackBytes == tr && x % TrackBytes == x - TrackBytes * tr;
  }

  class RkVolume {
    const image: array<uint8>
    const sectors: array<RkSector>
    var fileList: seq<RkFileInfo>
    var freeSectors: int
    var freeDirEntries: int
    var diskRead: bool

    /** The state as a value. */
    function Model(): Disk
      reads this, image, sectors
    {
      Disk(image[..], sectors[..], fileList, freeSectors, freeDirEntries, diskRead)
    }

    ghost predicate Valid()
      reads this, image, sectors
    {
      Wf(Model())
    }

    /** Open a volume on the bytes of its image file. */
    constructor (data: seq<uint8>)
      ensures Valid() && Model() == Opened(data)
    {
      image := new uint8[|data|](i requires 0 <= i < |data| reads {} => data[i]);
      sectors := new RkSector[SectorCount](_ => RkSector(Unset, 0, false, false));
      fileList := [];
      freeSectors := 0;
      freeDirEntries := 0;
      diskRead := false;
      new;
      assert image[..] == data;
    }

    // -------------------------------------------------------------------
    // allocateSector, allocateSpecificSector, freeSector

    /** `memset(ptr, b, n)` on the image. */
    method Fill(p: int, n: int, b: uint8)
      requires 0 <= p && 0 <= n && p + n <= image.Length
      modifies image
      ensures forall x :: 0 <= x < image.Length ==> image[x] == if p <= x < p + n then b else old(image[x])
    {
      var k := 0;
      while k < n
        invariant 0 <= k <= n
        invariant forall x :: 0 <= x < image.Length ==> image[x] == if p <= x < p + k then b else old(image[x])
      {
        image[p + k] := b;
        k := k + 1;
      }
    }

    /** Claim entry `i`: zero its data, set its VTOC bit, mark it and the
      * VTOC sector dirty and it in use. */
    method Claim(i: int) returns (st: Status)
      requires Valid() && 0 <= i < SectorCount
      modifies image, sectors
      ensures Valid() && (st, Model()) == RkSectors.Claim(old(Model()), i)
    {
      var p := sectors[i].ptr;
      var v := sectors[VtocIndex].ptr;
      if p == Unset || v == Unset {
        return Undefined;
      }
      assert PtrFits(sectors[i], image.Length) && PtrFits(sectors[VtocIndex], image.Length);
      Fill(p, SectorBytes, 0);
      assert image[..] == Zero(old(image[..]), p, SectorBytes);
      image[v + TrackOf(i)] := SetVtocBit(image[v + TrackOf(i)], SectorOf(i));
      sectors[i] := sectors[i].(dirty := true, isAllocated := true);
      sectors[VtocIndex] := sectors[VtocIndex].(dirty := true);
      assert sectors[..] == Mark(old(sectors[..]), i, true);
      st := Ok;
    }

    /** `allocateSector`: claim the first entry not in use, track by track,
      * and return its track and sector. */
    method AllocateSector() returns (st: Status, track: int, sector: int)
      requires Valid()
      modifies this, image, sectors
      ensures Valid()
      ensures var r := RkSectors.AllocateSector(old(Model()));
        st == r.0 && Model() == r.2 && (st == Ok ==> 0 <= sector < SectorsPerTrack && Index(track, sector) == r.1)
    {
      track, sector := 0, 0;
      if freeSectors == 0 {
        return Throw(DiskFull), 0, 0;
      }
      var t := 0;
      while t < Tracks
        invariant 0 <= t <= Tracks && Model() == old(Model())
        invariant forall j :: 0 <= j < 5 * t ==> sectors[j].isAllocated
      {
        var s := 0;
        while s < SectorsPerTrack
          invariant 0 <= s <= SectorsPerTrack && Model() == old(Model())
          invariant forall j :: 0 <= j < 5 * t + s ==> sectors[j].isAllocated
        {
          if !sectors[Index(t, s)].isAllocated {
            FirstFreeIs(sectors[..], Index(t, s));
            st := Claim(Index(t, s));
            if st == Ok {
              freeSectors := freeSectors - 1;
            }
            return st, t, s;
          }
          s := s + 1;
        }
        t := t + 1;
      }
      assert FirstFree(sectors[..]) == SectorCount;
      st := Throw(DiskFull);
    }

    /** `allocateSpecificSector(track, sector)`: claim that entry, counting
      * it off when it was not in use. */
    method AllocateSpecificSector(track: int, sector: int) returns (st: Status)
      requires Valid() && 0 <= track && 0 <= sector < SectorsPerTrack
      modifies this, image, sectors
      ensures Valid() && (st, Model()) == RkSectors.AllocateSpecific(old(Model()), track, sector)
    {
      var i := Index(track, sector);
      if i >= SectorCount {
        return Undefined;
      }
      var free := if sectors[i].isAllocated then freeSectors else freeSectors - 1;
      st := Claim(i);
      if st == Ok {
        freeSectors := free;
      }
    }

    /** `freeSector(track, sector)`: release an entry in use. */
    method FreeSector(track: int, sector: int) returns (st: Status)
      requires Valid() && 0 <= track < Tracks && 0 <= sector < SectorsPerTrack
      modifies this, image, sectors
      ensures Valid() && (st, Model()) == RkSectors.FreeSector(old(Model()), track, sector)
    {
      var i := Index(track, sector);
      var v := sectors[VtocIndex].ptr;
      if !sectors[i].isAllocated {
        return Ok;
      }
      if v == Unset {
        return Undefined;
      }
      assert PtrFits(sectors[VtocIndex], image.Length);
      sectors[i] := sectors[i].(dirty := true, isAllocated := false);
      image[v + track] := ClearVtocBit(image[v + track], sector);
      sectors[VtocIndex] := sectors[VtocIndex].(dirty := true);
      assert sectors[..] == Mark(old(sectors[..]), i, false);
      freeSectors := freeSectors + 1;
      st := Ok;
    }
  
    // -------------------------------------------------------------------
    // readVtoc, updateSectors

    /** One pass of `readVtoc`'s track loop: the five flags of track `t`
      * from the bits of VTOC byte `t`, low bit first, added to the count. */
    method TrackBits(v: int, t: int, n0: int) returns (n: int)
      requires sectors.Length == SectorCount && 0 <= t < Tracks
      requires 0 <= v && v + Tracks <= image.Length
      requires n0 == Allocated(sectors[..5 * t])
      modifies sectors
      ensures sectors[..] == TrackFlagged(old(sectors[..]), image[v + t], t, 5)
      ensures n == Allocated(sectors[..5 * t + 5])
    {
      var x: nat := image[v + t];
      var bt := x;
      n := n0;
      var s := 0;
      while s < SectorsPerTrack
        invariant 0 <= s <= SectorsPerTrack
        invariant BitsFrom(bt, x, s)
        invariant sectors[..] == TrackFlagged(old(sectors[..]), x, t, s)
        invariant n == Allocated(sectors[..5 * t + s])
      {
        var i := Index(t, s);
        ghost var before := sectors[..];
        NextBits(bt, x, s, bt / 2, s + 1);
        sectors[i] := sectors[i].(isAllocated := bt % 2 == 1);
        AllocatedStep(before, sectors[..], i);
        TrackFlaggedStep(old(sectors[..]), before, sectors[..], x, t, s);
        n := n + bt % 2;
        bt := bt / 2;
        s := s + 1;
      }
    }

    /** `readVtoc`'s track loop: every flag from the bitmap at `v`, and the
      * number of entries in use. */
    method VtocBitmap(v: int) returns (inUse: int)
      requires sectors.Length == SectorCount && 0 <= v && v + Tracks <= image.Length
      modifies sectors
      ensures sectors[..] == VtocFlags(old(sectors[..]), image[..], v)
      ensures inUse == Allocated(sectors[..])
    {
      inUse := 0;
      var t := 0;
      while t < Tracks
        invariant 0 <= t <= Tracks
        invariant sectors[..] == VtocPrefix(old(sectors[..]), image[..], v, 5 * t)
        invariant inUse == Allocated(sectors[..5 * t])
      {
        ghost var before := sectors[..];
        inUse := TrackBits(v, t, inUse);
        VtocPrefixStep(old(sectors[..]), image[..], v, t, before, sectors[..]);
        t := t + 1;
      }
      VtocPrefixAll(old(sectors[..]), image[..], v);
      assert sectors[..5 * Tracks] == sectors[..];
    }

    /** `readVtoc`: refuse a VTOC whose byte 32 lacks bits 0 and 1; take
      * each entry's inUse flag from its VTOC bit, track by track, and
      * count the entries in use. */
    method ReadVtoc() returns (st: Status)
      requires Valid()
      modifies this, sectors
      ensures Valid() && (st, Model()) == RkSectors.ReadVtoc(old(Model()))
    {
      ghost var d := Model();
      var v := sectors[VtocIndex].ptr;
      if v == Unset {
        return Undefined;
      }
      assert PtrFits(sectors[VtocIndex], image.Length);
      LowBits(image[v + 32]);
      if image[v + 32] % 4 != 3 {
        return Throw(NoFilesystem);
      }
      var inUse := VtocBitmap(v);
      freeSectors := SectorCount - inUse;
      st := Ok;
      ghost var r := RkSectors.ReadVtoc(d);
      assert r.0 == Ok;
      assert Model() == r.1;
    }

    /** The 16-bit sum of the `n` bytes at `p`, as `updateSectors` adds
      * them into a `uint16_t`. */
    method SumAt(p: int, n: int) returns (cs: int)
      requires 0 <= p && 0 <= n && p + n <= image.Length
      ensures cs == Checksum(image[p..p + n])
    {
      cs := 0;
      var i := 0;
      while i < n
        invariant 0 <= i <= n && cs == Sum(image[p..p + i]) % 0x1_0000
      {
        assert image[p..p + i + 1][..i] == image[p..p + i];
        cs := (cs + image[p + i]) % 0x1_0000;
        i := i + 1;
      }
    }

    /** Frame the `n` data bytes at `p`: their length before them, their
      * checksum after them. */
    method WriteBackAt(p: int, n: int)
      requires 3 <= p && 0 <= n && p + n + 2 <= image.Length
      modifies image
      ensures image[..] == Written(old(image[..]), p, n)
    {
      image[p - 3] := Low(n);
      image[p - 2] := High(n);
      assert image[p..p + n] == old(image[p..p + n]);
      var cs := SumAt(p, n);
      image[p + n] := Low(cs);
      image[p + n + 1] := High(cs);
    }

    /** `updateSectors`: write back every dirty sector, track by track. A
      * dirty entry with no data, or whose checksum would lie past the image,
      * is undefined behaviour; the image is then left unspecified. */
    method UpdateSectors() returns (st: Status)
      requires Valid()
      modifies image
      ensures Valid()
      ensures var r := RkSectors.UpdateSectors(old(Model()));
        st == r.0 && (st == Ok ==> Model() == r.1)
    {
      var t := 0;
      while t < Tracks
        invariant 0 <= t <= Tracks && Valid() && unchanged(this, sectors)
        invariant UpdateFrom(image[..], sectors[..], Index(t, 0)) == UpdateFrom(old(image[..]), sectors[..], 0)
      {
        var s := 0;
        while s < SectorsPerTrack
          invariant 0 <= s <= SectorsPerTrack && Valid() && unchanged(this, sectors)
          invariant UpdateFrom(image[..], sectors[..], Index(t, s)) == UpdateFrom(old(image[..]), sectors[..], 0)
        {
          var e := sectors[Index(t, s)];
          if e.dirty {
            if e.ptr == Unset || e.ptr + e.len as int + 2 > image.Length {
              return Undefined;
            }
            assert PtrFits(e, image.Length);
            WriteBackAt(e.ptr, e.len as int);
            WfImage(old(Model()), image[..]);
          }
          s := s + 1;
        }
        t := t + 1;
      }
      st := Ok;
    }

    // -------------------------------------------------------------------
    // readSectors

    /** `while (pos < lim && trackData[pos] != b) pos++;` */
    method SkipTo(at: int, pos: int, lim: int, b: int) returns (p: int)
      requires 0 <= at && 0 <= pos && at + lim <= image.Length
      ensures p == SkipUntil(image[..], at, pos, lim, b)
    {
      p := pos;
      while p < lim && image[at + p] != b
        invariant pos <= p && SkipUntil(image[..], at, p, lim, b) == SkipUntil(image[..], at, pos, lim, b)
        decreases lim - p
      {
        p := p + 1;
      }
    }

    /** `while (pos < lim && trackData[pos] != m1 && trackData[pos + 1] != m2) pos++;` */
    method SeekTo(at: int, pos: int, lim: int, m1: int, m2: int) returns (p: int)
      requires 0 <= at && 0 <= pos && at + lim + 1 <= image.Length
      ensures p == SeekMark(image[..], at, pos, lim, m1, m2)
    {
      p := pos;
      while p < lim && image[at + p] != m1 && image[at + p + 1] != m2
        invariant pos <= p && SeekMark(image[..], at, p, lim, m1, m2) == SeekMark(image[..], at, pos, lim, m1, m2)
        decreases lim - p
      {
        p := p + 1;
      }
    }

    /** One round of the scan of track `t` from offset `pos`. */
    method ScanRound(t: int, pos: int) returns (r: Round)
      requires image.Length >= ImageBytes && 0 <= t < Tracks && 0 <= pos
      ensures r == ScanOne(image[..], t, pos)
    {
      var at := TrackBytes * t;
      var p := MarkAfter(t, pos, 0xEA, 0xD3);
      ScanOneCases(image[..], t, pos, p);
      if p >= TrackBytes - 2 {
        return Round(Throw(BadDiskFormat), 0, 0, 0, pos + 1);
      }
      var nTrack := image[at + p];
      if nTrack as int != t {
        return Round(Throw(BadDiskFormat), 0, 0, 0, pos + 1);
      }
      r := RoundFrom(t, pos, p);
    }

    /** The rest of a round whose address mark at `p` names track `t`:
      * the data mark, then the table index from the sector number. */
    method RoundFrom(t: int, pos: int, p: int) returns (r: Round)
      requires image.Length >= ImageBytes && 0 <= t < Tracks && 0 <= pos
      requires p == AddressMark(image[..], t, pos) && p < TrackBytes - 2 && image[TrackBytes * t + p] as int == t
      ensures r == ScanOne(image[..], t, pos)
    {
      var at := TrackBytes * t;
      ScanOneCases(image[..], t, pos, p);
      var nSect := image[at + p + 1];
      var q := MarkAfter(t, p + 2, 0xDD, 0xF3);
      if q >= TrackBytes - 519 {
        return Round(Throw(BadDiskFormat), 0, 0, 0, pos + 1);
      }
      var i := Index(t, nSect as int);
      if i >= SectorCount {
        return Round(Undefined, 0, 0, 0, pos + 1);
      }
      r := Round(Ok, i, at + q + 3, Word(image[at + q], image[at + q + 1]), q + 3 + 530);
    }

    /** Skip to the next sync byte of track `t` from `pos`, seek the mark
      * `m1 m2` from there and step past it. */
    method MarkAfter(t: int, pos: int, m1: int, m2: int) returns (p: int)
      requires image.Length >= ImageBytes && 0 <= t < Tracks && 0 <= pos
      ensures p == SeekMark(image[..], TrackBytes * t, SkipUntil(image[..], TrackBytes * t, pos, TrackBytes, 0x06), TrackBytes - 3, m1, m2) + 2
    {
      var at := TrackBytes * t;
      p := SkipTo(at, pos, TrackBytes, 0x06);
      p := SeekTo(at, p, TrackBytes - 3, m1, m2);
      p := p + 2;
    }

    /** The rounds of the scan of track `t`, recording each sector found,
      * until the end of the track or the fifth sector. */
    method ScanTrackAt(t: int) returns (st: Status)
      requires image.Length >= ImageBytes && 0 <= t < Tracks && TableFits(sectors[..], image.Length)
      modifies sectors
      ensures (st, sectors[..]) == ScanTrack(image[..], old(sectors[..]), t, 0, 0)
    {
      var pos := 0;
      var found := 0;
      while pos < TrackBytes && found < SectorsPerTrack
        invariant 0 <= pos && TableFits(sectors[..], image.Length)
        invariant ScanTrack(image[..], sectors[..], t, pos, found) == ScanTrack(image[..], old(sectors[..]), t, 0, 0)
        decreases TrackBytes - pos
      {
        var o := ScanRound(t, pos);
        ScanTrackStep(image[..], sectors[..], t, pos, found);
        if o.st != Ok {
          return o.st;
        }
        label Round:
        sectors[o.index] := sectors[o.index].(ptr := o.ptr, len := o.len as uint16, dirty := false);
        assert sectors[..] == Record(old@Round(sectors[..]), o);
        found := found + 1;
        pos := o.next;
      }
      st := Ok;
    }

    /** Mark the five entries of track `t` dirty, i.e. not found yet. */
    method MarkDirty(t: int)
      requires sectors.Length == SectorCount && 0 <= t < Tracks
      modifies sectors
      ensures sectors[..] == MarkTrackDirty(old(sectors[..]), t)
    {
      var i := 0;
      while i < SectorsPerTrack
        invariant 0 <= i <= SectorsPerTrack
        invariant forall j :: 0 <= j < SectorCount ==>
          sectors[j] == if 5 * t <= j < 5 * t + i then old(sectors[j]).(dirty := true) else old(sectors[j])
      {
        sectors[Index(t, i)] := sectors[Index(t, i)].(dirty := true);
        i := i + 1;
      }
    }

    /** One pass of `readSectors`' track loop: mark track `t`'s entries
      * dirty and scan it. The check for missing entries that follows starts
      * from `true` and ORs into it, so it reads nothing and never fails. */
    method ReadTrack(t: int) returns (st: Status)
      requires image.Length >= ImageBytes && 0 <= t < Tracks && TableFits(sectors[..], image.Length)
      modifies sectors
      ensures (st, sectors[..]) == ScanTrack(image[..], MarkTrackDirty(old(sectors[..]), t), t, 0, 0)
    {
      MarkDirty(t);
      st := ScanTrackAt(t);
    }

    /** `readSectors`: the 160 tracks in order. */
    method ReadSectors() returns (st: Status)
      requires Valid()
      modifies sectors
      ensures Valid() && (st, Model()) == RkScan.ReadSectors(old(Model()))
    {
      if image.Length < ImageBytes {
        return Undefined;
      }
      var t := 0;
      while t < Tracks
        invariant 0 <= t <= Tracks && TableFits(sectors[..], image.Length)
        invariant ReadSectorsFrom(image[..], sectors[..], t) == ReadSectorsFrom(image[..], old(sectors[..]), 0)
      {
        st := ReadTrack(t);
        if st != Ok {
          return;
        }
        t := t + 1;
      }
      st := Ok;
    }

    // -------------------------------------------------------------------
    // format

    /** The sync bytes and the address mark of slot `k` of track `tr`
      * (offsets 0 to 19), written over zeros: five `06`, five zeros,
      * `EA D3`, the track, the sector number and their sum. */
    method WriteAddressMark(tr: int, k: int)
      requires image.Length == ImageBytes && 0 <= tr < Tracks && 0 <= k < SectorsPerTrack
      requires var p := TrackBytes * tr + RkFormat.SlotBytes * k;
        forall x :: p <= x < p + 20 ==> image[x] == 0
      modifies image
      ensures var p := TrackBytes * tr + RkFormat.SlotBytes * k;
        forall x :: p <= x < p + 20 ==> image[x] == RkFormat.SlotByte(tr, k, x - p)
      ensures var p := TrackBytes * tr + RkFormat.SlotBytes * k;
        forall x :: 0 <= x < image.Length && !(p <= x < p + 20) ==> image[x] == old(image[x])
    {
      var p := TrackBytes * tr + RkFormat.SlotBytes * k;
      Fill(p, 5, 0x06);
      image[p + 10] := 0xEA;
      image[p + 11] := 0xD3;
      image[p + 12] := tr as uint8;
      image[p + 13] := RkFormat.SectorNums[k] as uint8;
      image[p + 14] := (tr + RkFormat.SectorNums[k]) as uint8;
    }

    /** The sync bytes and the data mark of slot `k` of track `tr` (offsets
      * 20 onwards), written over zeros: five `06`, five zeros, `DD F3` and
      * the length 512, or in the VTOC's slot the length 160 and two `1F`
      * bytes 32 and 160 bytes past the length field's end. */
    method WriteDataMark(tr: int, k: int)
      requires image.Length == ImageBytes && 0 <= tr < Tracks && 0 <= k < SectorsPerTrack
      requires var p := TrackBytes * tr + RkFormat.SlotBytes * k;
        forall x :: p + 20 <= x < p + RkFormat.SlotBytes ==> image[x] == 0
      modifies image
      ensures var p := TrackBytes * tr + RkFormat.SlotBytes * k;
        forall x :: p + 20 <= x < p + RkFormat.SlotBytes ==> image[x] == RkFormat.SlotByte(tr, k, x - p)
      ensures var p := TrackBytes * tr + RkFormat.SlotBytes * k;
        forall x :: 0 <= x < image.Length && !(p + 20 <= x < p + RkFormat.SlotBytes) ==> image[x] == old(image[x])
    {
      var p := TrackBytes * tr + RkFormat.SlotBytes * k;
      Fill(p + 20, 5, 0x06);
      image[p + 30] := 0xDD;
      image[p + 31] := 0xF3;
      image[p + 32] := 0x00;
      image[p + 33] := 0x02;
      if tr == VtocTrack && k == 0 {
        image[p + 32] := 0xA0;
        image[p + 33] := 0x00;
        image[p + 34 + 0x20] := 0x1F;
        image[p + 34 + 0xA0] := 0x1F;
      }
    }

    /** The marks of slot `k` of track `tr`, written over zeros. */
    method WriteSlot(tr: int, k: int)
      requires image.Length == ImageBytes && 0 <= tr < Tracks && 0 <= k < SectorsPerTrack
      requires var p := TrackBytes * tr + RkFormat.SlotBytes * k;
        forall x :: p <= x < p + RkFormat.SlotBytes ==> image[x] == 0
      modifies image
      ensures var p := TrackBytes * tr + RkFormat.SlotBytes * k;
        forall x :: p <= x < p + RkFormat.SlotBytes ==> image[x] == RkFormat.LayoutByte(x)
      ensures var p := TrackBytes * tr + RkFormat.SlotBytes * k;
        forall x :: 0 <= x < image.Length && !(p <= x < p + RkFormat.SlotBytes) ==> image[x] == old(image[x])
    {
      var p := TrackBytes * tr + RkFormat.SlotBytes * k;
      WriteAddressMark(tr, k);
      WriteDataMark(tr, k);
      forall x | p <= x < p + RkFormat.SlotBytes
        ensures image[x] == RkFormat.LayoutByte(x)
      {
        LayoutByteAt(tr, k, x - p);
      }
    }

    /** Track `tr` laid out: zeros over the slots, `0xFF` after them, then
      * the marks of each slot. */
    method LayTrack(tr: int)
      requires image.Length == ImageBytes && 0 <= tr < Tracks
      modifies image
      ensures forall x :: TrackBytes * tr <= x < TrackBytes * tr + TrackBytes ==> image[x] == RkFormat.LayoutByte(x)
      ensures forall x :: 0 <= x < image.Length && !(TrackBytes * tr <= x < TrackBytes * tr + TrackBytes) ==> image[x] == old(image[x])
    {
      var at := TrackBytes * tr;
      Fill(at, RkFormat.SlotsEnd, 0);
      Fill(at + RkFormat.SlotsEnd, TrackBytes - RkFormat.SlotsEnd, 0xFF);
      var k := 0;
      while k < SectorsPerTrack
        invariant 0 <= k <= SectorsPerTrack
        invariant forall x :: at <= x < at + RkFormat.SlotBytes * k ==> image[x] == RkFormat.LayoutByte(x)
        invariant forall x :: at + RkFormat.SlotBytes * k <= x < at + RkFormat.SlotsEnd ==> image[x] == 0
        invariant forall x :: 0 <= x < image.Length && !(at <= x < at + RkFormat.SlotsEnd) ==>
          image[x] == if at + RkFormat.SlotsEnd <= x < at + TrackBytes then 0xFF else old(image[x])
      {
        WriteSlot(tr, k);
        k := k + 1;
      }
      forall x | at + RkFormat.SlotsEnd <= x < at + TrackBytes
        ensures image[x] == RkFormat.LayoutByte(x)
      {
        LayoutByteTail(tr, x);
      }
    }

    /** `format`'s track loop: the whole image laid out. */
    method LayOut()
      requires image.Length == ImageBytes
      modifies image
      ensures image[..] == RkFormat.Layout()
    {
      var tr := 0;
      while tr < Tracks
        invariant 0 <= tr <= Tracks
        invariant forall x :: 0 <= x < TrackBytes * tr ==> image[x] == RkFormat.LayoutByte(x)
      {
        LayTrack(tr);
        tr := tr + 1;
      }
      assert forall x :: 0 <= x < ImageBytes ==> image[x] == RkFormat.Layout()[x];
    }

    /** Write into directory sector `i` the track and sector of the next. */
    method LinkTo(i: int)
      requires Valid() && 0 <= i && VtocIndex + i < SectorCount && sectors[VtocIndex + i].ptr != Unset
      modifies image
      ensures Valid() && Model() == RkFormat.Link(old(Model()), i)
    {
      var p := sectors[VtocIndex + i].ptr;
      assert PtrFits(sectors[VtocIndex + i], image.Length);
      image[p] := (VtocTrack + (i + 1) / 5) as uint8;
      image[p + 1] := ((i + 1) % 5) as uint8;
    }

    /** Claim the VTOC sector and set its length to 160. */
    method ClaimVtoc() returns (st: Status)
      requires Valid()
      modifies this, image, sectors
      ensures Valid() && (st, Model()) == RkFormat.ClaimVtoc(old(Model()))
    {
      st := AllocateSpecificSector(VtocTrack, 0);
      if st != Ok {
        return;
      }
      sectors[VtocIndex] := sectors[VtocIndex].(len := RkFormat.VtocBytes);
    }

    /** `format`'s directory loop: claim directory sectors 1 to `n`, the
      * entries after the VTOC, and write into each but the last the track
      * and sector of the next. */
    method ClaimDirectory(n: int) returns (st: Status)
      requires Valid()
      modifies this, image, sectors
      ensures Valid() && (st, Model()) == RkFormat.DirSectors(old(Model()), 1, n)
    {
      st := Ok;
      var i := 1;
      while i <= n
        invariant 1 <= i && Valid()
        invariant RkFormat.DirSectors(Model(), i, n) == RkFormat.DirSectors(old(Model()), 1, n)
      {
        var t, s := VtocTrack + i / 5, i % 5;
        RkFormat.DirEntry(i);
        st := AllocateSpecificSector(t, s);
        if st != Ok {
          return;
        }
        if i != n {
          LinkTo(i);
        }
        i := i + 1;
      }
      st := Ok;
    }

    /**
     * `format(directorySize)`: refuse an image that is not 500000 bytes, lay
     * out the 160 tracks, find the sectors with `readSectors`, claim the
     * VTOC sector with length 160, claim and link the directory sectors,
     * and write the changed sectors back. When the claims or the write-back
     * reach undefined behaviour the state is left unspecified.
     */
    method Format(directorySize: int) returns (st: Status)
      requires Valid()
      modifies this, image, sectors
      ensures Valid()
      ensures var r := RkFormat.Format(old(Model()), directorySize);
        st == r.0 && (st == Ok ==> Model() == r.1)
      ensures image.Length != ImageBytes ==> Model() == old(Model())
    {
      if image.Length != ImageBytes {
        return Throw(BadDiskFormat);
      }
      LayOut();
      WfImage(old(Model()), image[..]);
      st := ReadSectors();
      if st != Ok {
        return;
      }
      st := ClaimVtoc();
      if st != Ok {
        return;
      }
      st := ClaimDirectory(directorySize);
      if st != Ok {
        return;
      }
      st := UpdateSectors();
    }

    // -------------------------------------------------------------------
    // readDisk and the operations on files

    /** Replace the whole state by `d`. The directory and file operations
      * below compute their new state with the functions of the model and
      * store it here. */
    method Store(d: Disk)
      requires |d.image| == image.Length && |d.sectors| == sectors.Length
      modifies this, image, sectors
      ensures Model() == d
    {
      forall x | 0 <= x < image.Length {
        image[x] := d.image[x];
      }
      forall j | 0 <= j < sectors.Length {
        sectors[j] := d.sectors[j];
      }
      fileList, freeSectors, freeDirEntries, diskRead := d.fileList, d.freeSectors, d.freeDirEntries, d.diskRead;
      assert image[..] == d.image && sectors[..] == d.sectors;
    }

    /** `readDir` with `calcSizes`: the file list and the free entry count
      * from the directory. */
    method ReadDir() returns (st: Status)
      requires Valid()
      modifies this
      ensures Valid() && (st, Model()) == RkDir.ReadDir(old(Model()))
    {
      var r := RkDir.ReadDir(Model());
      fileList, freeDirEntries := r.1.fileList, r.1.freeDirEntries;
      st := r.0;
    }

    /** `readDisk`: on the first call find the sectors, read the VTOC and
      * the directory, and remember that the disk was read. */
    method ReadDisk() returns (st: Status)
      requires Valid()
      modifies this, sectors
      ensures Valid() && (st, Model()) == RkFiles.ReadDisk(old(Model()))
    {
      if diskRead {
        return Ok;
      }
      st := ReadSectors();
      if st != Ok {
        return;
      }
      st := ReadVtoc();
      if st != Ok {
        return;
      }
      st := ReadDir();
      if st != Ok {
        return;
      }
      diskRead := true;
    }

    /** `find_if` over the file list: the first entry named `name`, or the
      * list's length. */
    method Find(name: seq<uint8>) returns (i: int)
      ensures i == FindFile(fileList, name)
    {
      i := 0;
      while i < |fileList| && fileList[i].fileName != name
        invariant 0 <= i <= |fileList|
        invariant forall j :: 0 <= j < i ==> fileList[j].fileName != name
      {
        i := i + 1;
      }
    }

    /** `getFileList`, `getFreeBlocks` and `getFreeDirEntries`: read the
      * disk, then report the list and the two counters. */
    method GetFileList() returns (st: Status, files: seq<RkFileInfo>)
      requires Valid()
      modifies this, sectors
      ensures Valid() && (st, Model()) == RkFiles.ReadDisk(old(Model())) && files == fileList
    {
      st := ReadDisk();
      files := fileList;
    }

    method GetFreeBlocks() returns (st: Status, n: int)
      requires Valid()
      modifies this, sectors
      ensures Valid() && (st, Model()) == RkFiles.ReadDisk(old(Model())) && n == freeSectors
    {
      st := ReadDisk();
      n := freeSectors;
    }

    method GetFreeDirEntries() returns (st: Status, n: int)
      requires Valid()
      modifies this, sectors
      ensures Valid() && (st, Model()) == RkFiles.ReadDisk(old(Model())) && n == freeDirEntries
    {
      st := ReadDisk();
      n := freeDirEntries;
    }

    /** `getFileInfo`: the entry of the upper-cased name. */
    method GetFileInfo(name: seq<uint8>) returns (st: Status, info: Option<RkFileInfo>)
      requires Valid()
      modifies this, sectors
      ensures Valid() && (st, info, Model()) == RkFiles.GetFileInfo(old(Model()), name)
    {
      st := ReadDisk();
      if st != Ok {
        return st, None;
      }
      var i := Find(ToUpper(name));
      if i == |fileList| {
        return Throw(FileNotFound), None;
      }
      st, info := Ok, Some(fileList[i]);
    }

    /** `setAttributes`: set the listed entry's attribute, write it to
      * byte 20 of its directory entry, mark the directory sector dirty and
      * write the dirty sectors back. */
    method SetAttributes(name: seq<uint8>, attr: uint8) returns (st: Status)
      requires Valid()
      modifies this, image, sectors
      ensures Valid()
      ensures var r := RkDelete.SetAttributes(old(Model()), name, attr);
        st == r.0 && (st == Ok ==> Model() == r.1)
    {
      st := ReadDisk();
      if st != Ok {
        return;
      }
      st := SetAttributesRead(name, attr);
    }

    /** `setAttributes` once the disk is read: find the entry by its
      * upper-cased name, set its attribute and write it to the disk. */
    method SetAttributesRead(name: seq<uint8>, attr: uint8) returns (st: Status)
      requires Valid()
      modifies this, image, sectors
      ensures Valid()
      ensures var r := RkDelete.SetAttributesParsed(old(Model()), name, attr);
        st == r.0 && (st == Ok ==> Model() == r.1)
    {
      var i := Find(ToUpper(name));
      if i == |fileList| {
        return Throw(FileNotFound);
      }
      var f := fileList[i];
      fileList := fileList[i := f.(attr := attr)];
      st := WriteAttrOf(f, attr);
    }

    /** Write attribute `attr` to byte 20 of the directory entry of `f`,
      * mark the directory sector dirty and write the dirty sectors back. */
    method WriteAttrOf(f: RkFileInfo, attr: uint8) returns (st: Status)
      requires Valid()
      modifies image, sectors
      ensures Valid()
      ensures var r := RkDelete.WriteAttr(old(Model()), f, attr);
        st == r.0 && (st == Ok ==> Model() == r.1)
    {
      var x := Index(f.dirTrack as int, f.dirSector as int);
      if x >= SectorCount || sectors[x].ptr == Unset {
        return Undefined;
      }
      var e := sectors[x].ptr + f.dirOffset;
      if e < 0 || e + 21 > image.Length {
        return Undefined;
      }
      image[e + 20] := attr;
      sectors[x] := sectors[x].(dirty := true);
      st := UpdateSectors();
    }

    /** `readFile`: read the disk, then the bytes of the named file. */
    method ReadFile(name: seq<uint8>) returns (st: Status, data: seq<uint8>)
      requires Valid()
      modifies this, sectors
      ensures Valid() && (st, data, Model()) == RkFiles.ReadFile(old(Model()), name)
    {
      st := ReadDisk();
      if st != Ok {
        return st, [];
      }
      var q := RkFiles.ReadFileParsed(Model(), name);
      st, data := q.0, q.1;
    }

    /** `deleteFile`: read the disk, then delete the named file. */
    method DeleteFile(name: seq<uint8>) returns (st: Status)
      requires Valid()
      modifies this, image, sectors
      ensures Valid() && (st, Model()) == RkDelete.DeleteFile(old(Model()), name)
    {
      st := ReadDisk();
      if st != Ok {
        return;
      }
      var r := RkDelete.DeleteFileParsed(Model(), name);
      Store(r.1);
      st := r.0;
    }

    /** `allocateDirEntry`: the image offset of a free directory entry. */
    method AllocateDirEntry() returns (st: Status, e: int)
      requires Valid()
      modifies this, image, sectors
      ensures Valid() && (st, e, Model()) == RkDir.AllocateDirEntry(old(Model()))
    {
      var r := RkDir.AllocateDirEntry(Model());
      Store(r.2);
      st, e := r.0, r.1;
    }

    /** `writeFile`: read the disk, then write the file. */
    method WriteFile(name: seq<uint8>, data: seq<uint8>, addr: uint16, attr: uint8, allowOverwrite: bool)
      returns (st: Status)
      requires Valid()
      modifies this, image, sectors
      ensures Valid() && (st, Model()) == RkWrite.WriteFile(old(Model()), name, data, addr, attr, allowOverwrite)
    {
      st := ReadDisk();
      if st != Ok {
        return;
      }
      var r := RkWrite.WriteFileParsed(Model(), name, data, addr, attr, allowOverwrite);
      Store(r.1);
      st := r.0;
    }
  }
}
