/**
 * Deleting a file and changing its attribute byte on an RK DOS volume, as
 * functions on `Disk`. Deleting marks the directory entry deleted (first
 * byte `0xFF`, the old first byte kept at offset 10 of the entry), frees
 * every data sector and every list sector of the file's chain, writes the
 * changed sectors back and reads the directory again.
 */
module RkDelete {
  import opened Bytes
  import opened RkDisk
  import opened RkSectors
  import opened RkDir
  import opened RkFiles

  // ---------------------------------------------------------------------
  // Freeing a file's chain

  /** How freeing ended, the disk it left and the entries `freeSector` was
    * called on, in order. */
  datatype Freed = Freed(st: Status, disk: Disk, freed: seq<int>)

  /** What freeing leaves of `d` in `r`: the same data pointers, lengths,
    * file list and directory count; the bytes outside the 160 VTOC bytes;
    * and an entry in use exactly when it was and `freeSector` was not
    * called on it. */
  predicate FreedFrom(d: Disk, r: Disk, freed: seq<int>)
    requires Wf(d)
  {
    Wf(r) && r == d.(image := r.image, sectors := r.sectors, freeSectors := r.freeSectors) &&
    |r.image| == |d.image| && SameShape(d.sectors, r.sectors) &&
    (forall k :: 0 <= k < |freed| ==> 0 <= freed[k] < SectorCount) &&
    (forall j {:trigger r.sectors[j]} :: 0 <= j < SectorCount ==> r.sectors[j].isAllocated == (d.sectors[j].isAllocated && j !in freed)) &&
    SameOffVtoc(d, r.image)
  }

  /** `img` holds the bytes of `d`'s image outside the 160 VTOC bytes. The
    * bytes are compared through `ImageByte`, so that a proof meets them
    * only where it names them. */
  predicate SameOffVtoc(d: Disk, img: seq<uint8>)
    requires Wf(d)
  {
    |img| == |d.image| &&
    forall x {:trigger ImageByte(img, x)} ::
      0 <= x < |d.image| && !(d.sectors[VtocIndex].ptr <= x < d.sectors[VtocIndex].ptr + Tracks) ==>
        ImageByte(img, x) == ImageByte(d.image, x)
  }

  function ImageByte(img: seq<uint8>, x: int): uint8
    requires 0 <= x < |img|
  {
    img[x]
  }

  /** A byte outside the VTOC bytes that `SameOffVtoc` keeps. */
  lemma KeptByte(d: Disk, img: seq<uint8>, x: int)
    requires Wf(d) && SameOffVtoc(d, img) && 0 <= x < |d.image|
    requires !(d.sectors[VtocIndex].ptr <= x < d.sectors[VtocIndex].ptr + Tracks)
    ensures img[x] == d.image[x]
  {
    assert ImageByte(img, x) == ImageByte(d.image, x);
  }

  /** Nothing freed leaves the disk as it was. */
  lemma FreedNothing(d: Disk)
    requires Wf(d)
    ensures FreedFrom(d, d, [])
  {
  }

  /** One `freeSector` call on entry `5 t + s`. */
  lemma FreedOne(d: Disk, t: int, s: int)
    requires Wf(d) && 0 <= t < Tracks && 0 <= s < SectorsPerTrack && FreeSector(d, t, s).0 == Ok
    ensures FreedFrom(d, FreeSector(d, t, s).1, [Index(t, s)])
  {
    var r := FreeSector(d, t, s).1;
    IndexParts(t, s);
    forall x | 0 <= x < |d.image| && !(d.sectors[VtocIndex].ptr <= x < d.sectors[VtocIndex].ptr + Tracks)
      ensures r.image[x] == d.image[x]
    {
      assert x != d.sectors[VtocIndex].ptr + t;
    }
  }

  /** Freeing `a` and then `b` frees `a + b`. */
  lemma FreedTrans(d: Disk, m: Disk, r: Disk, a: seq<int>, b: seq<int>)
    requires Wf(d) && Wf(m) && FreedFrom(d, m, a) && FreedFrom(m, r, b)
    ensures FreedFrom(d, r, a + b)
  {
    assert m.sectors[VtocIndex].ptr == d.sectors[VtocIndex].ptr;
    forall j | 0 <= j < SectorCount
      ensures r.sectors[j].isAllocated == (d.sectors[j].isAllocated && j !in a + b)
    {
      assert j in a + b <==> j in a || j in b;
    }
    forall k | 0 <= k < |a + b|
      ensures 0 <= (a + b)[k] < SectorCount
    {
      if k >= |a| {
        assert (a + b)[k] == b[k - |a|];
      }
    }
  }

  /** `freeSector` on a table that agrees with its VTOC ends normally and
    * keeps it agreeing. */
  lemma FreeKeeps(d: Disk, t: int, s: int)
    requires Wf(d) && 0 <= t < Tracks && 0 <= s < SectorsPerTrack
    ensures VtocConsistent(d) ==> FreeSector(d, t, s).0 == Ok && VtocConsistent(FreeSector(d, t, s).1)
  {
    if VtocConsistent(d) {
      FreeSectorKeeps(d, t, s);
    }
  }

  /** The `n` bytes from `p` lie apart from the 160 VTOC bytes. */
  predicate OffVtoc(d: Disk, p: int, n: int)
    requires Wf(d)
  {
    var v := d.sectors[VtocIndex].ptr;
    p + n <= v || v + Tracks <= p
  }

  /** `Listed` reads only the bytes of its list sector. */
  lemma {:induction false} ListedSame(a: seq<uint8>, b: seq<uint8>, p: int, size: int, pos: int)
    requires 0 <= p && 2 <= pos && |a| == |b|
    requires forall x :: p <= x < p + size && 0 <= x < |a| ==> a[x] == b[x]
    ensures Listed(a, p, size, pos) == Listed(b, p, size, pos)
    decreases size - pos
  {
    if pos <= size - 2 && p + pos + 1 < |a| {
      ListedSame(a, b, p, size, pos + 2);
    }
  }

  /** A list sector apart from the VTOC bytes reads the same after frees. */
  lemma ListedAfterFree(d: Disk, r: Disk, freed: seq<int>, p: int, size: int, pos: int)
    requires Wf(d) && FreedFrom(d, r, freed) && 0 <= p && 2 <= pos
    ensures OffVtoc(d, p, size) ==> Listed(r.image, p, size, pos) == Listed(d.image, p, size, pos)
  {
    if OffVtoc(d, p, size) {
      ListedKept(d, r.image, p, size, pos);
    }
  }

  /** `Listed` reads the same from an image that keeps the bytes outside
    * the VTOC bytes, when its list sector lies apart from them. */
  lemma ListedKept(d: Disk, img: seq<uint8>, p: int, size: int, pos: int)
    requires Wf(d) && SameOffVtoc(d, img) && 0 <= p && 2 <= pos && OffVtoc(d, p, size)
    ensures Listed(img, p, size, pos) == Listed(d.image, p, size, pos)
  {
    forall x | p <= x < p + size && 0 <= x < |img|
      ensures img[x] == d.image[x]
    {
      KeptByte(d, img, x);
    }
    ListedSame(img, d.image, p, size, pos);
  }

  /** One step of pairing the inner loop with `Listed`: what the loop
    * does from the next pair on the disk after one `freeSector`, it does
    * from this pair on the disk before. */
  lemma ListedPairs(d: Disk, f: Disk, p: int, size: int, pos: int, st: Status, freed: seq<int>)
    requires Wf(d) && 0 <= p && 2 <= pos && pos <= size - 2 && p + pos + 1 < |d.image|
    requires InRange(d.image[p + pos], d.image[p + pos + 1]) && !(d.image[p + pos] == 0 && d.image[p + pos + 1] == 0)
    requires FreeSector(d, d.image[p + pos], d.image[p + pos + 1]) == (Ok, f)
    requires Wf(f) && f.sectors[VtocIndex].ptr != Unset && OffVtoc(f, p, size) ==>
      st == Listed(f.image, p, size, pos + 2).0 && freed == Listed(f.image, p, size, pos + 2).1
    ensures d.sectors[VtocIndex].ptr != Unset && OffVtoc(d, p, size) ==>
      st == Listed(d.image, p, size, pos).0 && [Index(d.image[p + pos], d.image[p + pos + 1])] + freed == Listed(d.image, p, size, pos).1
  {
    if d.sectors[VtocIndex].ptr != Unset && OffVtoc(d, p, size) {
      assert f.sectors[VtocIndex].ptr == d.sectors[VtocIndex].ptr;
      ListedSame(f.image, d.image, p, size, pos + 2);
    }
  }

  /**
   * `deleteFile`'s inner loop over the list sector at `p` of `size` bytes
   * from offset `pos`: read the pair at `pos` from the image as it is now,
   * stop at (0, 0) or past offset `size - 2`, SECTOR_NOT_FOUND for a pair
   * out of range, otherwise free that data sector and go on. What it
   * frees is `FreeListedFrees`.
   */
  function FreeListed(d: Disk, p: int, size: int, pos: int): (r: Freed)
    requires Wf(d) && 0 <= p && 2 <= pos
    ensures Wf(r.disk) && |r.disk.image| == |d.image|
    decreases size - pos
  {
    if pos > size - 2 then Freed(Ok, d, [])
    else if p + pos + 1 >= |d.image| then Freed(Undefined, d, [])
    else
      var nt := d.image[p + pos];
      var ns := d.image[p + pos + 1];
      if !InRange(nt, ns) then Freed(NotFound(nt, ns), d, [])
      else if nt == 0 && ns == 0 then Freed(Ok, d, [])
      else
        var f := FreeSector(d, nt, ns);
        if f.0 != Ok then Freed(f.0, d, [])
        else
          var rest := FreeListed(f.1, p, size, pos + 2);
          Freed(rest.st, rest.disk, [Index(nt, ns)] + rest.freed)
  }

  /** The inner loop frees what it has called `freeSector` on and changes
    * nothing else outside the VTOC bytes; it keeps the VTOC consistent;
    * and on a list sector apart from the VTOC bytes it frees exactly the
    * data sectors `Listed` reads, ending as `Listed` ends. */
  lemma {:induction false} FreeListedFrees(d: Disk, p: int, size: int, pos: int)
    requires Wf(d) && 0 <= p && 2 <= pos
    ensures var r := FreeListed(d, p, size, pos);
      FreedFrom(d, r.disk, r.freed) && (VtocConsistent(d) ==> VtocConsistent(r.disk)) &&
      (d.sectors[VtocIndex].ptr != Unset && OffVtoc(d, p, size) ==>
        r.st == Listed(d.image, p, size, pos).0 && r.freed == Listed(d.image, p, size, pos).1)
    decreases size - pos
  {
    if pos > size - 2 || p + pos + 1 >= |d.image| {
      FreedNothing(d);
    } else {
      var nt, ns := d.image[p + pos], d.image[p + pos + 1];
      if !InRange(nt, ns) || (nt == 0 && ns == 0) {
        FreedNothing(d);
      } else {
        var f := FreeSector(d, nt, ns);
        FreeKeeps(d, nt, ns);
        if f.0 != Ok {
          FreedNothing(d);
        } else {
          FreedOne(d, nt, ns);
          FreeListedFrees(f.1, p, size, pos + 2);
          var rest := FreeListed(f.1, p, size, pos + 2);
          FreedTrans(d, f.1, rest.disk, [Index(nt, ns)], rest.freed);
          ListedPairs(d, f.1, p, size, pos, rest.st, rest.freed);
        }
      }
    }
  }

  /**
   * `deleteFile`'s outer loop from list sector (`t`, `s`): free the data
   * sectors it lists, then the list sector itself, then follow the link
   * read from the image after those frees. A table index past the 800
   * entries or an unset pointer is undefined; a pair out of range is
   * SECTOR_NOT_FOUND; more than `fuel` list sectors is a cycle. What it
   * frees is `FreeChainFrees` and `FreeChainFreesChain`.
   */
  function FreeChain(d: Disk, t: int, s: int, fuel: nat): (r: Freed)
    requires Wf(d) && 0 <= t && 0 <= s
    ensures Wf(r.disk) && |r.disk.image| == |d.image|
    decreases fuel, 1
  {
    var i := Index(t, s);
    if fuel == 0 then Freed(Diverges, d, [])
    else if i >= SectorCount then Freed(Undefined, d, [])
    else if !InRange(t, s) then Freed(NotFound(t, s), d, [])
    else if d.sectors[i].ptr == Unset then Freed(Undefined, d, [])
    else FreeStep(d, t, s, fuel)
  }

  /** One pass of the outer loop, on a list sector in range with a data
    * pointer. */
  function FreeStep(d: Disk, t: int, s: int, fuel: nat): (r: Freed)
    requires Wf(d) && InRange(t, s) && 0 <= t && 0 <= s && fuel > 0
    requires d.sectors[Index(t, s)].ptr != Unset
    ensures Wf(r.disk) && |r.disk.image| == |d.image|
    decreases fuel, 0
  {
    var i := Index(t, s);
    var p := d.sectors[i].ptr;
    assert PtrFits(d.sectors[i], |d.image|);
    var l := FreeListed(d, p, d.sectors[i].len, 2);
    if l.st != Ok then l
    else
      var f := FreeSector(l.disk, t, s);
      if f.0 != Ok then Freed(f.0, l.disk, l.freed)
      else
        var nt := f.1.image[p];
        var ns := f.1.image[p + 1];
        if nt == 0 && ns == 0 then Freed(Ok, f.1, l.freed + [i])
        else
          var rest := FreeChain(f.1, nt, ns, fuel - 1);
          Freed(rest.st, rest.disk, l.freed + [i] + rest.freed)
  }

  /** The outer loop frees what it has called `freeSector` on and changes
    * nothing else outside the VTOC bytes; it keeps the VTOC consistent;
    * and when it ends normally it started from a pair in range and freed
    * that list sector. */
  lemma {:induction false} FreeChainFrees(d: Disk, t: int, s: int, fuel: nat)
    requires Wf(d) && 0 <= t && 0 <= s
    ensures var r := FreeChain(d, t, s, fuel);
      FreedFrom(d, r.disk, r.freed) && (VtocConsistent(d) ==> VtocConsistent(r.disk)) &&
      (r.st == Ok ==> InRange(t, s) && Index(t, s) in r.freed)
    decreases fuel, 3
  {
    var i := Index(t, s);
    if fuel == 0 || i >= SectorCount || !InRange(t, s) || d.sectors[i].ptr == Unset {
      FreedNothing(d);
    } else {
      FreeStepFrees(d, t, s, fuel);
    }
  }

  /** `FreeChainFrees` for one pass. */
  lemma {:induction false} FreeStepFrees(d: Disk, t: int, s: int, fuel: nat)
    requires Wf(d) && InRange(t, s) && 0 <= t && 0 <= s && fuel > 0
    requires d.sectors[Index(t, s)].ptr != Unset
    ensures var r := FreeStep(d, t, s, fuel);
      FreedFrom(d, r.disk, r.freed) && (VtocConsistent(d) ==> VtocConsistent(r.disk)) &&
      (r.st == Ok ==> Index(t, s) in r.freed)
    decreases fuel, 2
  {
    var i := Index(t, s);
    var p := d.sectors[i].ptr;
    assert PtrFits(d.sectors[i], |d.image|);
    FreeListedFrees(d, p, d.sectors[i].len, 2);
    var l := FreeListed(d, p, d.sectors[i].len, 2);
    if l.st != Ok {
      assert FreeStep(d, t, s, fuel) == l;
    } else {
      StepFreesSector(d, t, s, fuel);
    }
  }

  /** `FreeStepFrees` for a pass whose listed sectors were all freed. */
  lemma {:induction false} StepFreesSector(d: Disk, t: int, s: int, fuel: nat)
    requires Wf(d) && InRange(t, s) && 0 <= t && 0 <= s && fuel > 0
    requires var p := d.sectors[Index(t, s)].ptr;
      p != Unset && FreeListed(d, p, d.sectors[Index(t, s)].len, 2).st == Ok
    requires var i := Index(t, s);
      var l := FreeListed(d, d.sectors[i].ptr, d.sectors[i].len, 2);
      FreedFrom(d, l.disk, l.freed) && (VtocConsistent(d) ==> VtocConsistent(l.disk))
    ensures var r := FreeStep(d, t, s, fuel);
      FreedFrom(d, r.disk, r.freed) && (VtocConsistent(d) ==> VtocConsistent(r.disk)) &&
      (r.st == Ok ==> Index(t, s) in r.freed)
    decreases fuel, 1
  {
    var i := Index(t, s);
    var p := d.sectors[i].ptr;
    assert PtrFits(d.sectors[i], |d.image|);
    var l := FreeListed(d, p, d.sectors[i].len, 2);
    var f := FreeSector(l.disk, t, s);
    FreeKeeps(l.disk, t, s);
    if f.0 != Ok {
      assert FreeStep(d, t, s, fuel) == Freed(f.0, l.disk, l.freed);
    } else {
      FreedOne(l.disk, t, s);
      FreedTrans(d, l.disk, f.1, l.freed, [i]);
      if f.1.image[p] == 0 && f.1.image[p + 1] == 0 {
        assert FreeStep(d, t, s, fuel) == Freed(Ok, f.1, l.freed + [i]);
      } else {
        StepLinks(d, t, s, fuel);
      }
    }
  }

  /** `FreeStepFrees` for a pass past a list sector that links on. */
  lemma {:induction false} StepLinks(d: Disk, t: int, s: int, fuel: nat)
    requires Wf(d) && InRange(t, s) && 0 <= t && 0 <= s && fuel > 0
    requires var p := d.sectors[Index(t, s)].ptr;
      p != Unset && FreeListed(d, p, d.sectors[Index(t, s)].len, 2).st == Ok
    requires var i := Index(t, s);
      var l := FreeListed(d, d.sectors[i].ptr, d.sectors[i].len, 2);
      FreedFrom(d, l.disk, l.freed) && (VtocConsistent(d) ==> VtocConsistent(l.disk))
    requires var i := Index(t, s);
      var p := d.sectors[i].ptr;
      var l := FreeListed(d, p, d.sectors[i].len, 2);
      var f := FreeSector(l.disk, t, s);
      f.0 == Ok && !(f.1.image[p] == 0 && f.1.image[p + 1] == 0) &&
      FreedFrom(d, f.1, l.freed + [i]) && (VtocConsistent(d) ==> VtocConsistent(f.1))
    ensures var r := FreeStep(d, t, s, fuel);
      FreedFrom(d, r.disk, r.freed) && (VtocConsistent(d) ==> VtocConsistent(r.disk)) &&
      (r.st == Ok ==> Index(t, s) in r.freed)
    decreases fuel, 0
  {
    var i := Index(t, s);
    var p := d.sectors[i].ptr;
    var l := FreeListed(d, p, d.sectors[i].len, 2);
    var f := FreeSector(l.disk, t, s);
    var nt, ns := f.1.image[p], f.1.image[p + 1];
    FreeChainFrees(f.1, nt, ns, fuel - 1);
    var rest := FreeChain(f.1, nt, ns, fuel - 1);
    FreedTrans(d, f.1, rest.disk, l.freed + [i], rest.freed);
  }

  // ---------------------------------------------------------------------
  // What the chain walk frees

  /** Every sector has a data pointer and at most 512 data bytes, and every
    * sector other than the VTOC sector lies apart from the 160 VTOC bytes:
    * the part of a laid-out table that the chain walk needs. */
  predicate ListsOffVtoc(d: Disk)
    requires Wf(d)
  {
    (forall i :: 0 <= i < SectorCount ==> d.sectors[i].ptr != Unset && d.sectors[i].len <= SectorBytes) &&
    forall i {:trigger OffVtoc(d, d.sectors[i].ptr, SectorBytes)} ::
      0 <= i < SectorCount && i != VtocIndex ==> OffVtoc(d, d.sectors[i].ptr, SectorBytes)
  }

  /** A laid-out table gives the chain walk what it needs. */
  lemma LaidOutOffVtoc(d: Disk)
    requires Wf(d) && LaidOut(d.sectors)
    ensures ListsOffVtoc(d)
  {
  }

  /** A table of the same shape keeps the sectors apart from the VTOC. */
  lemma ShapeOffVtoc(d: Disk, f: Disk)
    requires Wf(d) && Wf(f) && SameShape(d.sectors, f.sectors) && ListsOffVtoc(d)
    ensures ListsOffVtoc(f)
  {
    forall i | 0 <= i < SectorCount && i != VtocIndex
      ensures OffVtoc(f, f.sectors[i].ptr, SectorBytes)
    {
      assert OffVtoc(d, d.sectors[i].ptr, SectorBytes);
    }
  }

  /** Images that agree outside the VTOC bytes give the same chain, as long
    * as the chain does not pass through the VTOC sector. */
  lemma {:induction false} ChainOffVtoc(d: Disk, img: seq<uint8>, sec: seq<RkSector>, t: int, s: int, fuel: nat)
    requires Wf(d) && ListsOffVtoc(d) && 0 <= t && 0 <= s && SameShape(d.sectors, sec) && |img| == |d.image|
    requires SameOffVtoc(d, img)
    requires VtocIndex !in ChainFrom(d.image, d.sectors, t, s, fuel).lists
    ensures forall i :: 0 <= i < SectorCount ==> PtrFits(sec[i], |img|)
    ensures ChainFrom(img, sec, t, s, fuel) == ChainFrom(d.image, d.sectors, t, s, fuel)
    decreases fuel
  {
    ShapeFits(d, img, sec);
    var i := Index(t, s);
    if fuel > 0 && i < SectorCount {
      HeadBytesKept(d, img, t, s, fuel);
      var p := d.sectors[i].ptr;
      var nt, ns := d.image[p], d.image[p + 1];
      ChainHeadKept(d, img, sec, t, s, fuel, p, nt, ns);
      if InRange(nt, ns) && Listed(d.image, p, d.sectors[i].len, 2).0 == Ok && !(nt == 0 && ns == 0) {
        ChainOffVtoc(d, img, sec, nt, ns, fuel - 1);
      }
    }
  }

  /** A table of the same shape fits an image of the same length. */
  lemma ShapeFits(d: Disk, img: seq<uint8>, sec: seq<RkSector>)
    requires Wf(d) && SameShape(d.sectors, sec) && |img| == |d.image|
    ensures forall i :: 0 <= i < SectorCount ==> PtrFits(sec[i], |img|)
  {
    forall i | 0 <= i < SectorCount
      ensures PtrFits(sec[i], |img|)
    {
      assert PtrFits(d.sectors[i], |d.image|);
    }
  }

  /** The first list sector of a chain that avoids the VTOC sector reads
    * the same from an image that agrees outside the VTOC bytes. */
  lemma HeadBytesKept(d: Disk, img: seq<uint8>, t: int, s: int, fuel: nat)
    requires Wf(d) && ListsOffVtoc(d) && 0 <= t && 0 <= s && |img| == |d.image| && SameOffVtoc(d, img)
    requires VtocIndex !in ChainFrom(d.image, d.sectors, t, s, fuel).lists
    requires fuel > 0 && Index(t, s) < SectorCount
    ensures var p, len := d.sectors[Index(t, s)].ptr, d.sectors[Index(t, s)].len;
      0 <= p && p + SectorBytes <= |img| &&
      img[p] == d.image[p] && img[p + 1] == d.image[p + 1] && Listed(img, p, len, 2) == Listed(d.image, p, len, 2)
  {
    var i := Index(t, s);
    var p := d.sectors[i].ptr;
    assert i != VtocIndex;
    assert OffVtoc(d, p, SectorBytes);
    KeptByte(d, img, p);
    KeptByte(d, img, p + 1);
    ListedKept(d, img, p, d.sectors[i].len, 2);
  }

  /** `ChainOffVtoc` for the first list sector: with its bytes the same in
    * both images, the chains agree when their tails from its link do. */
  lemma ChainHeadKept(d: Disk, img: seq<uint8>, sec: seq<RkSector>, t: int, s: int, fuel: nat, p: int, nt: int, ns: int)
    requires Wf(d) && 0 <= t && 0 <= s && SameShape(d.sectors, sec) && |img| == |d.image|
    requires forall i :: 0 <= i < SectorCount ==> PtrFits(sec[i], |img|)
    requires fuel > 0 && Index(t, s) < SectorCount && d.sectors[Index(t, s)].ptr != Unset
    requires VtocIndex !in ChainFrom(d.image, d.sectors, t, s, fuel).lists
    requires p == d.sectors[Index(t, s)].ptr && 0 <= p && p + 1 < |d.image| && nt == d.image[p] && ns == d.image[p + 1]
    requires img[p] == nt && img[p + 1] == ns
    requires Listed(img, p, d.sectors[Index(t, s)].len, 2) == Listed(d.image, p, d.sectors[Index(t, s)].len, 2)
    ensures if InRange(nt, ns) && Listed(d.image, p, d.sectors[Index(t, s)].len, 2).0 == Ok && !(nt == 0 && ns == 0) then
        VtocIndex !in ChainFrom(d.image, d.sectors, nt, ns, fuel - 1).lists &&
        (ChainFrom(img, sec, nt, ns, fuel - 1) == ChainFrom(d.image, d.sectors, nt, ns, fuel - 1) ==>
           ChainFrom(img, sec, t, s, fuel) == ChainFrom(d.image, d.sectors, t, s, fuel))
      else
        ChainFrom(img, sec, t, s, fuel) == ChainFrom(d.image, d.sectors, t, s, fuel)
  {
    var i := Index(t, s);
    assert sec[i].ptr == p && sec[i].len == d.sectors[i].len;
    if InRange(nt, ns) && Listed(d.image, p, d.sectors[i].len, 2).0 == Ok && !(nt == 0 && ns == 0) {
      assert ChainFrom(d.image, d.sectors, t, s, fuel).lists ==
        [i] + ChainFrom(d.image, d.sectors, nt, ns, fuel - 1).lists;
    }
  }

  /** What `FreeChain` does from a list sector that it gets past: its data
    * sectors, then itself, then the chain from its link read from the disk
    * that pass leaves. */
  lemma FreeChainUnfold(d: Disk, t: int, s: int, fuel: nat)
    requires Wf(d) && ListsOffVtoc(d) && 0 <= t && 0 <= s && FreeChain(d, t, s, fuel).st == Ok
    ensures fuel > 0 && InRange(t, s) && Index(t, s) < SectorCount
    ensures var i := Index(t, s);
      var p := d.sectors[i].ptr;
      var l := FreeListed(d, p, d.sectors[i].len, 2);
      var f := AfterHead(d, t, s);
      l.st == Ok &&
      (f.image[p] == 0 && f.image[p + 1] == 0 ==> FreeChain(d, t, s, fuel).freed == l.freed + [i]) &&
      (!(f.image[p] == 0 && f.image[p + 1] == 0) ==>
        FreeChain(f, f.image[p], f.image[p + 1], fuel - 1).st == Ok &&
        FreeChain(d, t, s, fuel).freed == l.freed + [i] + FreeChain(f, f.image[p], f.image[p + 1], fuel - 1).freed)
  {
    var i := Index(t, s);
    assert d.sectors[i].ptr != Unset;
  }

  /** What `ChainFrom` collects from a list sector with a link in range and
    * a list that reads through. */
  lemma ChainUnfold(d: Disk, t: int, s: int, fuel: nat)
    requires Wf(d) && ListsOffVtoc(d) && 0 <= t && 0 <= s && fuel > 0 && Index(t, s) < SectorCount
    requires var p := d.sectors[Index(t, s)].ptr;
      InRange(d.image[p], d.image[p + 1]) && Listed(d.image, p, d.sectors[Index(t, s)].len, 2).0 == Ok
    ensures var i := Index(t, s);
      var p := d.sectors[i].ptr;
      var nt, ns := d.image[p], d.image[p + 1];
      var c, l := ChainFrom(d.image, d.sectors, t, s, fuel), Listed(d.image, p, d.sectors[i].len, 2).1;
      (nt == 0 && ns == 0 ==> c == Chain(Ok, [i], l)) &&
      (!(nt == 0 && ns == 0) ==>
        var rest := ChainFrom(d.image, d.sectors, nt, ns, fuel - 1);
        c == Chain(rest.st, [i] + rest.lists, l + rest.data))
  {
    assert d.sectors[Index(t, s)].ptr != Unset;
  }

  /** The disk after the first pass of the outer loop from list sector
    * (`t`, `s`): its data sectors freed, then the list sector itself. */
  function AfterHead(d: Disk, t: int, s: int): (f: Disk)
    requires Wf(d) && InRange(t, s) && 0 <= t && 0 <= s && d.sectors[Index(t, s)].ptr != Unset
    ensures Wf(f) && SameShape(d.sectors, f.sectors)
  {
    var i := Index(t, s);
    assert PtrFits(d.sectors[i], |d.image|);
    FreeListedFrees(d, d.sectors[i].ptr, d.sectors[i].len, 2);
    var l := FreeListed(d, d.sectors[i].ptr, d.sectors[i].len, 2);
    FreeSector(l.disk, t, s).1
  }

  /** That disk keeps every byte outside the VTOC bytes. */
  lemma AfterHeadKeeps(d: Disk, t: int, s: int)
    requires Wf(d) && InRange(t, s) && 0 <= t && 0 <= s && d.sectors[Index(t, s)].ptr != Unset
    ensures SameOffVtoc(d, AfterHead(d, t, s).image)
  {
    var i := Index(t, s);
    assert PtrFits(d.sectors[i], |d.image|);
    FreeListedFrees(d, d.sectors[i].ptr, d.sectors[i].len, 2);
    var l := FreeListed(d, d.sectors[i].ptr, d.sectors[i].len, 2);
    var f := FreeSector(l.disk, t, s);
    FreeKeeps(l.disk, t, s);
    if f.0 == Ok {
      FreedOne(l.disk, t, s);
      FreedTrans(d, l.disk, f.1, l.freed, [i]);
    }
  }

  /** The first pass of `FreeChain` from a list sector, on a chain that
    * does not pass through the VTOC sector, frees the list as `Listed`
    * reads it from the untouched image. */
  lemma FreeChainHead(d: Disk, t: int, s: int, fuel: nat)
    requires Wf(d) && ListsOffVtoc(d) && 0 <= t && 0 <= s && FreeChain(d, t, s, fuel).st == Ok
    requires VtocIndex !in ChainFrom(d.image, d.sectors, t, s, fuel).lists
    ensures fuel > 0 && InRange(t, s) && Index(t, s) < SectorCount
    ensures var i := Index(t, s);
      var p, len := d.sectors[i].ptr, d.sectors[i].len;
      Listed(d.image, p, len, 2).0 == Ok && FreeListed(d, p, len, 2).freed == Listed(d.image, p, len, 2).1
  {
    FreeChainUnfold(d, t, s, fuel);
    var i := Index(t, s);
    assert i != VtocIndex by {
      assert ChainFrom(d.image, d.sectors, t, s, fuel).lists[0] == i;
    }
    assert OffVtoc(d, d.sectors[i].ptr, SectorBytes);
    FreeListedFrees(d, d.sectors[i].ptr, d.sectors[i].len, 2);
  }

  /** That pass leaves the link of the list sector as the untouched image
    * holds it, and the link is a pair in range. */
  lemma FreeChainLink(d: Disk, t: int, s: int, fuel: nat)
    requires Wf(d) && ListsOffVtoc(d) && 0 <= t && 0 <= s && FreeChain(d, t, s, fuel).st == Ok
    requires VtocIndex !in ChainFrom(d.image, d.sectors, t, s, fuel).lists
    ensures fuel > 0 && InRange(t, s) && Index(t, s) < SectorCount
    ensures var p := d.sectors[Index(t, s)].ptr;
      var f := AfterHead(d, t, s);
      InRange(d.image[p], d.image[p + 1]) && f.image[p] == d.image[p] && f.image[p + 1] == d.image[p + 1]
  {
    TailOk(d, t, s, fuel);
    var i := Index(t, s);
    assert i != VtocIndex by {
      assert ChainFrom(d.image, d.sectors, t, s, fuel).lists[0] == i;
    }
    LinkKept(d, t, s);
  }

  /** A pass that ends normally reads a link in range and, past a list
    * sector that links on, goes on normally from the link. */
  lemma TailOk(d: Disk, t: int, s: int, fuel: nat)
    requires Wf(d) && ListsOffVtoc(d) && 0 <= t && 0 <= s && FreeChain(d, t, s, fuel).st == Ok
    ensures fuel > 0 && InRange(t, s) && Index(t, s) < SectorCount
    ensures var p := d.sectors[Index(t, s)].ptr;
      var f := AfterHead(d, t, s);
      !(f.image[p] == 0 && f.image[p + 1] == 0) ==> FreeChain(f, f.image[p], f.image[p + 1], fuel - 1).st == Ok
    ensures var p := d.sectors[Index(t, s)].ptr;
      var f := AfterHead(d, t, s);
      InRange(f.image[p], f.image[p + 1])
  {
    FreeChainStarts(d, t, s, fuel);
    assert d.sectors[Index(t, s)].ptr != Unset;
    assert FreeStep(d, t, s, fuel).st == Ok;
    var p := d.sectors[Index(t, s)].ptr;
    var f := AfterHead(d, t, s);
    if !(f.image[p] == 0 && f.image[p + 1] == 0) {
      FreeChainStarts(f, f.image[p], f.image[p + 1], fuel - 1);
    }
  }

  /** The first pass from a list sector other than the VTOC sector keeps
    * the sector's link. */
  lemma LinkKept(d: Disk, t: int, s: int)
    requires Wf(d) && ListsOffVtoc(d) && 0 <= t && 0 <= s && InRange(t, s)
    requires Index(t, s) < SectorCount && Index(t, s) != VtocIndex
    ensures var p := d.sectors[Index(t, s)].ptr;
      var f := AfterHead(d, t, s);
      f.image[p] == d.image[p] && f.image[p + 1] == d.image[p + 1]
  {
    var p := d.sectors[Index(t, s)].ptr;
    assert OffVtoc(d, p, SectorBytes);
    AfterHeadKeeps(d, t, s);
    KeptByte(d, AfterHead(d, t, s).image, p);
    KeptByte(d, AfterHead(d, t, s).image, p + 1);
  }

  /** `FreeChainFreesChain` on the part of a laid-out table it needs. */
  lemma {:induction false} FreesChain(d: Disk, t: int, s: int, fuel: nat)
    requires Wf(d) && ListsOffVtoc(d) && 0 <= t && 0 <= s
    requires FreeChain(d, t, s, fuel).st == Ok
    requires VtocIndex !in ChainFrom(d.image, d.sectors, t, s, fuel).lists
    ensures ChainFrom(d.image, d.sectors, t, s, fuel).st == Ok
    ensures multiset(FreeChain(d, t, s, fuel).freed) ==
      multiset(ChainFrom(d.image, d.sectors, t, s, fuel).lists) + multiset(ChainFrom(d.image, d.sectors, t, s, fuel).data)
    decreases fuel, 2
  {
    FreeChainStarts(d, t, s, fuel);
    var p := d.sectors[Index(t, s)].ptr;
    if d.image[p] == 0 && d.image[p + 1] == 0 {
      FreesEnd(d, t, s, fuel);
    } else {
      FreesLink(d, t, s, fuel);
    }
  }

  /** A walk that ends normally starts from a list sector in the table. */
  lemma FreeChainStarts(d: Disk, t: int, s: int, fuel: nat)
    requires Wf(d) && 0 <= t && 0 <= s && FreeChain(d, t, s, fuel).st == Ok
    ensures fuel > 0 && InRange(t, s) && Index(t, s) < SectorCount
  {
  }

  /** `FreesChain` from the last list sector of a chain. */
  lemma FreesEnd(d: Disk, t: int, s: int, fuel: nat)
    requires Wf(d) && ListsOffVtoc(d) && 0 <= t && 0 <= s && Index(t, s) < SectorCount
    requires FreeChain(d, t, s, fuel).st == Ok
    requires VtocIndex !in ChainFrom(d.image, d.sectors, t, s, fuel).lists
    requires var p := d.sectors[Index(t, s)].ptr; d.image[p] == 0 && d.image[p + 1] == 0
    ensures ChainFrom(d.image, d.sectors, t, s, fuel).st == Ok
    ensures multiset(FreeChain(d, t, s, fuel).freed) ==
      multiset(ChainFrom(d.image, d.sectors, t, s, fuel).lists) + multiset(ChainFrom(d.image, d.sectors, t, s, fuel).data)
  {
    FreeChainHead(d, t, s, fuel);
    FreeChainLink(d, t, s, fuel);
    FreeChainUnfold(d, t, s, fuel);
    ChainUnfold(d, t, s, fuel);
  }

  /** `FreesChain` from a list sector that links on. */
  lemma {:induction false} FreesLink(d: Disk, t: int, s: int, fuel: nat)
    requires Wf(d) && ListsOffVtoc(d) && 0 <= t && 0 <= s && Index(t, s) < SectorCount
    requires FreeChain(d, t, s, fuel).st == Ok
    requires VtocIndex !in ChainFrom(d.image, d.sectors, t, s, fuel).lists
    requires var p := d.sectors[Index(t, s)].ptr; !(d.image[p] == 0 && d.image[p + 1] == 0)
    ensures ChainFrom(d.image, d.sectors, t, s, fuel).st == Ok
    ensures multiset(FreeChain(d, t, s, fuel).freed) ==
      multiset(ChainFrom(d.image, d.sectors, t, s, fuel).lists) + multiset(ChainFrom(d.image, d.sectors, t, s, fuel).data)
    decreases fuel, 1
  {
    FreeChainHead(d, t, s, fuel);
    FreeChainLink(d, t, s, fuel);
    FreeChainUnfold(d, t, s, fuel);
    ChainUnfold(d, t, s, fuel);
    var p := d.sectors[Index(t, s)].ptr;
    FreeChainTail(d, t, s, fuel, AfterHead(d, t, s), d.image[p], d.image[p + 1]);
  }

  /** The step of `FreesChain` past a list sector that links on: the walk
    * from the link on the disk left by the first pass frees the rest of
    * the chain read from the untouched image. */
  lemma FreeChainTail(d: Disk, t: int, s: int, fuel: nat, f: Disk, nt: int, ns: int)
    requires Wf(d) && ListsOffVtoc(d) && 0 <= t && 0 <= s && fuel > 0 && InRange(t, s) && Index(t, s) < SectorCount
    requires var p := d.sectors[Index(t, s)].ptr; nt == d.image[p] && ns == d.image[p + 1]
    requires f == AfterHead(d, t, s) && InRange(nt, ns) && 0 <= nt && 0 <= ns
    requires FreeChain(f, nt, ns, fuel - 1).st == Ok
    requires VtocIndex !in ChainFrom(d.image, d.sectors, nt, ns, fuel - 1).lists
    ensures ChainFrom(d.image, d.sectors, nt, ns, fuel - 1).st == Ok
    ensures multiset(FreeChain(f, nt, ns, fuel - 1).freed) ==
      multiset(ChainFrom(d.image, d.sectors, nt, ns, fuel - 1).lists) + multiset(ChainFrom(d.image, d.sectors, nt, ns, fuel - 1).data)
    decreases fuel, 0
  {
    AfterHeadKeeps(d, t, s);
    ShapeOffVtoc(d, f);
    ChainOffVtoc(d, f.image, f.sectors, nt, ns, fuel - 1);
    FreesChain(f, nt, ns, fuel - 1);
  }

  /**
   * On a laid-out table, freeing the chain from list sector (`t`, `s`) to
   * its end calls `freeSector` on exactly the list sectors and the data
   * sectors of the file's chain, once for each time the chain names them.
   * The chain is taken not to pass through the VTOC sector, whose bytes the
   * frees change.
   */
  lemma FreeChainFreesChain(d: Disk, t: int, s: int, fuel: nat)
    requires Wf(d) && LaidOut(d.sectors) && 0 <= t && 0 <= s
    requires FreeChain(d, t, s, fuel).st == Ok
    requires VtocIndex !in ChainFrom(d.image, d.sectors, t, s, fuel).lists
    ensures ChainFrom(d.image, d.sectors, t, s, fuel).st == Ok
    ensures multiset(FreeChain(d, t, s, fuel).freed) ==
      multiset(ChainFrom(d.image, d.sectors, t, s, fuel).lists) + multiset(ChainFrom(d.image, d.sectors, t, s, fuel).data)
  {
    LaidOutOffVtoc(d);
    FreesChain(d, t, s, fuel);
  }

  // ---------------------------------------------------------------------
  // deleteFile

  /** The image offset of the directory entry of `f`: its directory
    * sector's data pointer plus the entry's offset; `Unset` when the
    * sector is past the table or has no pointer, or when the `n` bytes
    * from there would pass the end of the image. */
  function EntryPos(d: Disk, f: RkFileInfo, n: nat): (e: int)
    requires Wf(d)
    ensures e == Unset || (0 <= e && e + n <= |d.image|)
    ensures Locates(d.image, d.sectors, f) && n <= EntryBytes ==>
      e == d.sectors[Index(f.dirTrack, f.dirSector)].ptr + f.dirOffset
  {
    var x := Index(f.dirTrack, f.dirSector);
    if x >= SectorCount || d.sectors[x].ptr == Unset then Unset
    else
      assert PtrFits(d.sectors[x], |d.image|);
      var e := d.sectors[x].ptr + f.dirOffset;
      if e < 0 || e + n > |d.image| then Unset else e
  }

  /**
   * What `deleteFile` does once the disk is read: FILE_NOT_FOUND, changing
   * nothing, for a name not listed; otherwise delete the entry found.
   */
  function DeleteFileParsed(d: Disk, name: seq<uint8>): (r: (Status, Disk))
    requires Wf(d)
    ensures Wf(r.1) && |r.1.image| == |d.image| && SameShape(d.sectors, r.1.sectors)
    ensures FindFile(d.fileList, ToUpper(name)) == |d.fileList| ==> r == (Throw(FileNotFound), d)
    ensures FindFile(d.fileList, ToUpper(name)) < |d.fileList| ==> r == DeleteEntry(d, d.fileList[FindFile(d.fileList, ToUpper(name))])
  {
    var i := FindFile(d.fileList, ToUpper(name));
    if i == |d.fileList| then (Throw(FileNotFound), d) else DeleteEntry(d, d.fileList[i])
  }

  /**
   * Deleting the listed entry `f`: mark it deleted (its first byte moved to
   * offset 10, `0xFF` put in its place), check the first list sector's
   * pair, free the chain, write the dirty sectors back and read the
   * directory again. The directory sector is not marked dirty. An exception
   * leaves the disk as far as it got. Normally, no sector comes into use,
   * the first list sector is no longer in use, and the directory read again
   * is sorted with its entries at their places.
   */
  function DeleteEntry(d: Disk, f: RkFileInfo): (r: (Status, Disk))
    requires Wf(d)
    ensures Wf(r.1) && |r.1.image| == |d.image| && SameShape(d.sectors, r.1.sectors)
    ensures r.0 == Ok ==> forall j :: 0 <= j < SectorCount && r.1.sectors[j].isAllocated ==> d.sectors[j].isAllocated
    ensures r.0 == Ok ==> InRange(f.tList, f.sList) && !r.1.sectors[Index(f.tList, f.sList)].isAllocated
    ensures r.0 == Ok ==> SortedByName(r.1.fileList) && forall g :: g in r.1.fileList ==> Locates(r.1.image, r.1.sectors, g)
  {
    var e := EntryPos(d, f, 11);
    if e == Unset then (Undefined, d)
    else
      var d1 := MarkDeleted(d, e);
      if !InRange(f.tList, f.sList) then (NotFound(f.tList, f.sList), d1)
      else
        FreeAndRewrite(d1, f.tList, f.sList)
  }

  /**
   * Free the chain from list sector (`t`, `s`), then write back and read
   * the directory again. Normally, no sector comes into use and the list
   * sector is no longer in use. On a laid-out table, the data bytes of
   * every sector outside the VTOC bytes stay as they were, and a table
   * agreeing with its VTOC keeps agreeing.
   */
  function FreeAndRewrite(d: Disk, t: int, s: int): (r: (Status, Disk))
    requires Wf(d) && 0 <= t && 0 <= s
    ensures Wf(r.1) && |r.1.image| == |d.image| && SameShape(d.sectors, r.1.sectors)
    ensures r.0 == Ok ==> forall j :: 0 <= j < SectorCount && r.1.sectors[j].isAllocated ==> d.sectors[j].isAllocated
    ensures r.0 == Ok ==> InRange(t, s) && !r.1.sectors[Index(t, s)].isAllocated
    ensures r.0 == Ok ==> SortedByName(r.1.fileList) && forall g :: g in r.1.fileList ==> Locates(r.1.image, r.1.sectors, g)
    ensures r.0 == Ok && LaidOut(d.sectors) ==> DataKept(d, r.1.image)
    ensures LaidOut(d.sectors) && VtocConsistent(d) && r.0 == Ok ==> VtocConsistent(r.1)
  {
    var c := FreeChain(d, t, s, SectorCount);
    FreeChainFrees(d, t, s, SectorCount);
    if c.st != Ok then (c.st, c.disk)
    else
      var r := Rewrite(c.disk);
      RewriteKeeps(d, c.disk, c.freed, r);
      r
  }

  /** Every one of the `len` data bytes of every sector that is not a VTOC
    * byte is in `img` as it is in `d`. */
  predicate DataKept(d: Disk, img: seq<uint8>)
    requires Wf(d)
  {
    var v := d.sectors[VtocIndex].ptr;
    |img| == |d.image| &&
    forall i, y :: 0 <= i < SectorCount && 0 <= y < |img| && d.sectors[i].ptr <= y < d.sectors[i].ptr + d.sectors[i].len && !(v <= y < v + Tracks) ==>
      img[y] == d.image[y]
  }

  lemma RewriteKeeps(d: Disk, c: Disk, freed: seq<int>, r: (Status, Disk))
    requires Wf(d) && FreedFrom(d, c, freed) && (VtocConsistent(d) ==> VtocConsistent(c)) && r == Rewrite(c)
    ensures r.0 == Ok && LaidOut(d.sectors) ==> DataKept(d, r.1.image)
    ensures LaidOut(d.sectors) && VtocConsistent(d) ==> VtocConsistent(r.1)
  {
    if LaidOut(d.sectors) {
      LaidOutShape(d.sectors, c.sectors);
      var v := d.sectors[VtocIndex].ptr;
      assert c.sectors[VtocIndex].ptr == v;
      if r.0 == Ok {
        forall i, y | 0 <= i < SectorCount && d.sectors[i].ptr <= y < d.sectors[i].ptr + d.sectors[i].len && !(v <= y < v + Tracks)
          ensures r.1.image[y] == d.image[y]
        {
          assert PtrFits(d.sectors[i], |d.image|);
          KeptByte(d, c.image, y);
          UpdateKeepsData(c, i, y);
        }
      }
      if VtocConsistent(d) {
        UpdateKeepsVtoc(c);
      }
    }
  }

  /** `dir[10] = dir[0]; dir[0] = 0xFF` for the entry at `e`. */
  function MarkDeleted(d: Disk, e: int): (r: Disk)
    requires Wf(d) && 0 <= e && e + 10 < |d.image|
    ensures Wf(r) && r == d.(image := r.image) && |r.image| == |d.image|
    ensures r.image[e] == Deleted && r.image[e + 10] == d.image[e]
    ensures forall y :: 0 <= y < |d.image| && y != e && y != e + 10 ==> r.image[y] == d.image[y]
  {
    var img := d.image[e + 10 := d.image[e]][e := Deleted];
    WfImage(d, img);
    d.(image := img)
  }

  /** `updateSectors(); readDir();`: the table stays as it is. */
  function Rewrite(c: Disk): (r: (Status, Disk))
    requires Wf(c)
    ensures Wf(r.1) && r.1.sectors == c.sectors && |r.1.image| == |c.image| && r.1.freeSectors == c.freeSectors
    ensures r.0 == Ok ==> UpdateSectors(c).0 == Ok
    ensures UpdateSectors(c).0 == Ok ==> r.1.image == UpdateSectors(c).1.image
    ensures r.0 == Ok ==> SortedByName(r.1.fileList) && forall g :: g in r.1.fileList ==> Locates(r.1.image, r.1.sectors, g)
  {
    var u := UpdateSectors(c);
    if u.0 != Ok then u else ReadDir(u.1)
  }

  /** `deleteFile`: read the disk, then delete as above. */
  function DeleteFile(d: Disk, name: seq<uint8>): (r: (Status, Disk))
    requires Wf(d)
    ensures ReadDisk(d).0 != Ok ==> r == ReadDisk(d)
    ensures ReadDisk(d).0 == Ok ==> r == DeleteFileParsed(ReadDisk(d).1, name)
    ensures ReadDisk(d).0 == Ok && (forall f :: f in ReadDisk(d).1.fileList ==> f.fileName != ToUpper(name)) ==>
      r == (Throw(FileNotFound), ReadDisk(d).1)
  {
    var rd := ReadDisk(d);
    if rd.0 != Ok then rd else DeleteFileParsed(rd.1, name)
  }

  /** The 21 bytes of the entry of `f` lie within the `len` data bytes of
    * its directory sector, so that writing the sector back keeps them
    * (every directory sector `format` lays out is 512 bytes long). */
  predicate EntryInData(d: Disk, f: RkFileInfo)
  {
    var x := Index(f.dirTrack, f.dirSector);
    0 <= x < |d.sectors| && f.dirOffset + EntryBytes <= d.sectors[x].len
  }

  /** On a table whose sectors other than the VTOC are 512 bytes long, as
    * `format` leaves them, every entry at its place outside the VTOC sector
    * lies inside its sector's data. */
  lemma EntriesInData(d: Disk, f: RkFileInfo)
    requires Wf(d) && Locates(d.image, d.sectors, f) && Index(f.dirTrack, f.dirSector) != VtocIndex
    requires forall i :: 0 <= i < SectorCount && i != VtocIndex ==> d.sectors[i].len == SectorBytes
    ensures EntryInData(d, f)
  {
  }

  /** The bytes of a directory entry at its place lie inside its
    * directory sector, apart from the VTOC bytes of another sector. */
  lemma EntryOffVtoc(d: Disk, f: RkFileInfo, y: int)
    requires Wf(d) && LaidOut(d.sectors) && Locates(d.image, d.sectors, f)
    requires Index(f.dirTrack, f.dirSector) != VtocIndex
    requires var e := EntryPos(d, f, 11); e <= y < e + EntryBytes
    ensures var p := d.sectors[Index(f.dirTrack, f.dirSector)].ptr; p <= y < p + SectorBytes
    ensures var v := d.sectors[VtocIndex].ptr; !(v <= y < v + Tracks)
  {
    var x := Index(f.dirTrack, f.dirSector);
    assert d.sectors[x].ptr != Unset && d.sectors[VtocIndex].ptr != Unset;
  }

  /**
   * On a laid-out disk, deleting an entry at its place that ends normally
   * leaves the entry marked deleted with its first byte kept at offset 10,
   * so that the directory read again no longer lists an entry there; and
   * it keeps the table agreeing with the VTOC. The entry's directory sector
   * is taken to be another than the VTOC, and long enough to hold the
   * entry, which `updateSectors` would otherwise overwrite with the
   * checksum.
   */
  lemma DeleteUnlists(d: Disk, f: RkFileInfo)
    requires Wf(d) && LaidOut(d.sectors) && Locates(d.image, d.sectors, f) && EntryInData(d, f) && DeleteEntry(d, f).0 == Ok
    requires Index(f.dirTrack, f.dirSector) != VtocIndex
    ensures var e := EntryPos(d, f, 11);
      var r := DeleteEntry(d, f).1;
      e != Unset && r.image[e] == Deleted && r.image[e + 10] == d.image[e] &&
      (forall g :: g in r.fileList ==> !(g.dirTrack == f.dirTrack && g.dirSector == f.dirSector && g.dirOffset == f.dirOffset))
    ensures VtocConsistent(d) ==> VtocConsistent(DeleteEntry(d, f).1)
  {
    DeleteMarks(d, f);
    DeleteKeepsVtoc(d, f);
  }

  /** The entry is marked deleted and no longer listed. */
  lemma DeleteMarks(d: Disk, f: RkFileInfo)
    requires Wf(d) && LaidOut(d.sectors) && Locates(d.image, d.sectors, f) && EntryInData(d, f) && DeleteEntry(d, f).0 == Ok
    requires Index(f.dirTrack, f.dirSector) != VtocIndex
    ensures var e := EntryPos(d, f, 11);
      var r := DeleteEntry(d, f).1;
      e != Unset && r.image[e] == Deleted && r.image[e + 10] == d.image[e] &&
      (forall g :: g in r.fileList ==> !(g.dirTrack == f.dirTrack && g.dirSector == f.dirSector && g.dirOffset == f.dirOffset))
  {
    var x := Index(f.dirTrack, f.dirSector);
    var e := EntryPos(d, f, 11);
    var d1 := MarkDeleted(d, e);
    EntryOffVtoc(d, f, e);
    EntryOffVtoc(d, f, e + 10);
    LaidOutShape(d.sectors, d1.sectors);
    var r := FreeAndRewrite(d1, f.tList, f.sList);
    assert r.1.image[e] == d1.image[e] && r.1.image[e + 10] == d1.image[e + 10];
    assert DeleteEntry(d, f) == r;
    assert r.1.sectors[x].ptr == d.sectors[x].ptr;
    forall g | g in r.1.fileList
      ensures !(g.dirTrack == f.dirTrack && g.dirSector == f.dirSector && g.dirOffset == f.dirOffset)
    {
      NotAtDeleted(r.1.image, r.1.sectors, g, f, e);
    }
  }

  /** Deleting keeps a consistent VTOC consistent. */
  lemma DeleteKeepsVtoc(d: Disk, f: RkFileInfo)
    requires Wf(d) && LaidOut(d.sectors) && Locates(d.image, d.sectors, f) && DeleteEntry(d, f).0 == Ok
    requires Index(f.dirTrack, f.dirSector) != VtocIndex
    ensures VtocConsistent(d) ==> VtocConsistent(DeleteEntry(d, f).1)
  {
    var e := EntryPos(d, f, 11);
    var d1 := MarkDeleted(d, e);
    EntryOffVtoc(d, f, e);
    EntryOffVtoc(d, f, e + 10);
    LaidOutShape(d.sectors, d1.sectors);
    assert DeleteEntry(d, f) == FreeAndRewrite(d1, f.tList, f.sList);
    if VtocConsistent(d) {
      AgreesOffVtoc(d, d1.image);
      assert d1 == d.(image := d1.image);
    }
  }

  /** No entry at its place lies where the first byte is `0xFF`. */
  lemma NotAtDeleted(img: seq<uint8>, sec: seq<RkSector>, g: RkFileInfo, f: RkFileInfo, e: int)
    requires |sec| == SectorCount && forall i :: 0 <= i < SectorCount ==> PtrFits(sec[i], |img|)
    requires Locates(img, sec, g) && Index(f.dirTrack, f.dirSector) < SectorCount
    requires e == sec[Index(f.dirTrack, f.dirSector)].ptr + f.dirOffset && 0 <= e < |img| && img[e] == Deleted
    ensures !(g.dirTrack == f.dirTrack && g.dirSector == f.dirSector && g.dirOffset == f.dirOffset)
  {
  }

  /** A listed entry is deleted from a laid-out disk as above: the
    * directory read again has no entry at its place. */
  lemma DeleteFileUnlists(d: Disk, name: seq<uint8>)
    requires Wf(d) && LaidOut(d.sectors) && DeleteFileParsed(d, name).0 == Ok
    requires forall g :: g in d.fileList ==> Locates(d.image, d.sectors, g)
    requires var f := d.fileList[FindFile(d.fileList, ToUpper(name))];
      Index(f.dirTrack, f.dirSector) != VtocIndex && EntryInData(d, f)
    ensures var f := d.fileList[FindFile(d.fileList, ToUpper(name))];
      forall g :: g in DeleteFileParsed(d, name).1.fileList ==>
        !(g.dirTrack == f.dirTrack && g.dirSector == f.dirSector && g.dirOffset == f.dirOffset)
    ensures VtocConsistent(d) ==> VtocConsistent(DeleteFileParsed(d, name).1)
  {
    var f := d.fileList[FindFile(d.fileList, ToUpper(name))];
    assert Locates(d.image, d.sectors, f);
    DeleteUnlists(d, f);
  }

  // ---------------------------------------------------------------------
  // setAttributes

  /**
   * What `setAttributes` does once the disk is read: FILE_NOT_FOUND,
   * changing nothing, for a name not listed; otherwise set the listed
   * entry's attribute and write it to the directory entry.
   */
  function SetAttributesParsed(d: Disk, name: seq<uint8>, attr: uint8): (r: (Status, Disk))
    requires Wf(d)
    ensures Wf(r.1) && |r.1.image| == |d.image| && r.1.freeSectors == d.freeSectors && r.1.diskRead == d.diskRead
    ensures FindFile(d.fileList, ToUpper(name)) == |d.fileList| ==> r == (Throw(FileNotFound), d)
    ensures FindFile(d.fileList, ToUpper(name)) < |d.fileList| ==> var i := FindFile(d.fileList, ToUpper(name));
      r.1.fileList == d.fileList[i := d.fileList[i].(attr := attr)]
  {
    var i := FindFile(d.fileList, ToUpper(name));
    if i == |d.fileList| then (Throw(FileNotFound), d)
    else WriteAttr(d.(fileList := d.fileList[i := d.fileList[i].(attr := attr)]), d.fileList[i], attr)
  }

  /**
   * Write attribute `attr` to byte 20 of the directory entry of `f`, mark
   * the directory sector dirty and write the dirty sectors back; the
   * directory is not read again. On a laid-out table with `f` at its place,
   * inside its sector's data, this ends normally, the entry then reads back as `f` with the new
   * attribute, and of the data bytes of the sectors only that one changes.
   */
  function WriteAttr(d: Disk, f: RkFileInfo, attr: uint8): (r: (Status, Disk))
    requires Wf(d)
    ensures Wf(r.1) && |r.1.image| == |d.image| && r.1 == d.(image := r.1.image, sectors := r.1.sectors)
    ensures r.0 == Ok ==> var x := Index(f.dirTrack, f.dirSector);
      x < SectorCount && r.1.sectors == d.sectors[x := d.sectors[x].(dirty := true)]
    ensures LaidOut(d.sectors) && Locates(d.image, d.sectors, f) && EntryInData(d, f) ==>
      r.0 == Ok && Locates(r.1.image, r.1.sectors, f.(attr := attr)) && AttrOnly(d, r.1.image, EntryPos(d, f, 21) + 20)
  {
    var e := EntryPos(d, f, 21);
    if e == Unset then (Undefined, d)
    else
      var x := Index(f.dirTrack, f.dirSector);
      var d2 := d.(image := d.image[e + 20 := attr], sectors := d.sectors[x := d.sectors[x].(dirty := true)]);
      assert Wf(d2) by {
        forall j | 0 <= j < SectorCount
          ensures PtrFits(d2.sectors[j], |d2.image|)
        {
          assert PtrFits(d.sectors[j], |d.image|);
        }
      }
      WriteAttrRereads(d, f, attr, e, d2);
      UpdateSectors(d2)
  }

  /** Of the `len` data bytes of the sectors, `img` differs from `d`'s image
    * at most at `a`. */
  predicate AttrOnly(d: Disk, img: seq<uint8>, a: int)
  {
    |img| == |d.image| && |d.sectors| == SectorCount &&
    forall j, y :: 0 <= j < SectorCount && 0 <= y < |img| && d.sectors[j].ptr <= y < d.sectors[j].ptr + d.sectors[j].len && y != a ==>
      img[y] == d.image[y]
  }

  /** After the attribute byte is set and the sectors written back, the
    * entry rereads with the new attribute and no other data byte changed. */
  lemma WriteAttrRereads(d: Disk, f: RkFileInfo, attr: uint8, e: int, d2: Disk)
    requires Wf(d) && e == EntryPos(d, f, 21) && e != Unset && Index(f.dirTrack, f.dirSector) < SectorCount
    requires d2 == d.(image := d.image[e + 20 := attr], sectors := d.sectors[Index(f.dirTrack, f.dirSector) := d.sectors[Index(f.dirTrack, f.dirSector)].(dirty := true)])
    requires Wf(d2)
    ensures LaidOut(d.sectors) && Locates(d.image, d.sectors, f) && EntryInData(d, f) ==>
      UpdateSectors(d2).0 == Ok && Locates(UpdateSectors(d2).1.image, d2.sectors, f.(attr := attr)) &&
      AttrOnly(d, UpdateSectors(d2).1.image, e + 20)
  {
    if LaidOut(d.sectors) && Locates(d.image, d.sectors, f) && EntryInData(d, f) {
      assert SameShape(d.sectors, d2.sectors);
      LaidOutShape(d.sectors, d2.sectors);
      AttrReread(d, f, attr, e, d2);
      AttrKeepsRest(d, e, d2);
    }
  }

  /** The entry, whose bytes the write-back keeps, rereads with the new
    * attribute. */
  lemma AttrReread(d: Disk, f: RkFileInfo, attr: uint8, e: int, d2: Disk)
    requires Wf(d) && e == EntryPos(d, f, 21) && e != Unset && Index(f.dirTrack, f.dirSector) < SectorCount
    requires d2 == d.(image := d.image[e + 20 := attr], sectors := d.sectors[Index(f.dirTrack, f.dirSector) := d.sectors[Index(f.dirTrack, f.dirSector)].(dirty := true)])
    requires Wf(d2) && LaidOut(d2.sectors) && Locates(d.image, d.sectors, f) && EntryInData(d, f)
    ensures UpdateSectors(d2).0 == Ok && Locates(UpdateSectors(d2).1.image, d2.sectors, f.(attr := attr))
  {
    var x := Index(f.dirTrack, f.dirSector);
    var p := d.sectors[x].ptr;
    var img := d2.image;
    UpdateKeepsData(d2, x, e);
    var u := UpdateSectors(d2).1;
    forall y | e <= y < e + EntryBytes
      ensures u.image[y] == img[y]
    {
      UpdateKeepsData(d2, x, y);
    }
    ParseEntrySame(u.image, img, p, f.dirTrack, f.dirSector, f.dirOffset);
    ParseEntryAttr(d.image, p, f.dirTrack, f.dirSector, f.dirOffset, attr);
  }

  /** The write-back after setting the byte at `e + 20` changes no other
    * data byte. */
  lemma AttrKeepsRest(d: Disk, e: int, d2: Disk)
    requires Wf(d) && Wf(d2) && LaidOut(d2.sectors) && SameShape(d.sectors, d2.sectors)
    requires |d2.image| == |d.image| && 0 <= e + 20 < |d.image| && d2.image == d.image[e + 20 := d2.image[e + 20]]
    requires UpdateSectors(d2).0 == Ok
    ensures AttrOnly(d, UpdateSectors(d2).1.image, e + 20)
  {
    var u := UpdateSectors(d2).1;
    forall j, y | 0 <= j < SectorCount && 0 <= y < |u.image| && d.sectors[j].ptr <= y < d.sectors[j].ptr + d.sectors[j].len && y != e + 20
      ensures u.image[y] == d.image[y]
    {
      UpdateKeepsData(d2, j, y);
    }
  }

  /** `setAttributes`: read the disk, then set the attribute as above. */
  function SetAttributes(d: Disk, name: seq<uint8>, attr: uint8): (r: (Status, Disk))
    requires Wf(d)
    ensures ReadDisk(d).0 != Ok ==> r == ReadDisk(d)
    ensures ReadDisk(d).0 == Ok ==> r == SetAttributesParsed(ReadDisk(d).1, name, attr)
    ensures ReadDisk(d).0 == Ok && (forall f :: f in ReadDisk(d).1.fileList ==> f.fileName != ToUpper(name)) ==>
      r == (Throw(FileNotFound), ReadDisk(d).1)
  {
    var rd := ReadDisk(d);
    if rd.0 != Ok then rd else SetAttributesParsed(rd.1, name, attr)
  }

  /** An entry read from bytes that agree on its 21 bytes reads the same. */
  lemma ParseEntrySame(a: seq<uint8>, b: seq<uint8>, p: int, dt: uint8, ds: uint8, pos: int)
    requires 0 <= p && 0 <= pos && p + pos + EntryBytes <= |a| && p + pos + EntryBytes <= |b|
    requires forall y :: p + pos <= y < p + pos + EntryBytes ==> a[y] == b[y]
    ensures ParseEntry(a, p, dt, ds, pos) == ParseEntry(b, p, dt, ds, pos)
  {
    var e := p + pos;
    assert a[e..e + 10] == b[e..e + 10];
    assert a[e + 11..e + 14] == b[e + 11..e + 14];
  }

  /** Writing byte 20 of an entry changes just its attribute. */
  lemma ParseEntryAttr(img: seq<uint8>, p: int, dt: uint8, ds: uint8, pos: int, attr: uint8)
    requires 0 <= p && 0 <= pos && p + pos + EntryBytes <= |img|
    ensures ParseEntry(img[p + pos + 20 := attr], p, dt, ds, pos) == ParseEntry(img, p, dt, ds, pos).(attr := attr)
  {
    var e := p + pos;
    var img' := img[e + 20 := attr];
    assert img'[e..e + 10] == img[e..e + 10];
    assert img'[e + 11..e + 14] == img[e + 11..e + 14];
  }

  /**
   * On a laid-out disk whose listed entries are at their places, setting
   * an attribute that finds the name, whose entry lies inside its sector's
   * data, ends normally; the changed entry is
   * then at its place, so that reading the directory again would list it
   * with the new attribute, and of the data bytes of the sectors only that
   * attribute byte changes.
   */
  lemma SetAttributesRereads(d: Disk, name: seq<uint8>, attr: uint8)
    requires Wf(d) && LaidOut(d.sectors) && FindFile(d.fileList, ToUpper(name)) < |d.fileList|
    requires forall g :: g in d.fileList ==> Locates(d.image, d.sectors, g)
    requires EntryInData(d, d.fileList[FindFile(d.fileList, ToUpper(name))])
    ensures var i := FindFile(d.fileList, ToUpper(name));
      var r := SetAttributesParsed(d, name, attr);
      r.0 == Ok && Locates(r.1.image, r.1.sectors, r.1.fileList[i]) &&
      AttrOnly(d, r.1.image, EntryPos(d, d.fileList[i], 21) + 20)
  {
    var i := FindFile(d.fileList, ToUpper(name));
    assert Locates(d.image, d.sectors, d.fileList[i]);
    var d1 := d.(fileList := d.fileList[i := d.fileList[i].(attr := attr)]);
    assert EntryPos(d1, d.fileList[i], 21) == EntryPos(d, d.fileList[i], 21);
  }
}
