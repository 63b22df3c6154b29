/**
 * The directory of an RK DOS volume and the track/sector lists of its
 * files. The directory is a chain of sectors starting at (32, 1); each holds
 * up to 24 entries of 21 bytes from offset 7, and its first two bytes name
 * the next sector ((0, 0) ends the chain). An entry is a 10-byte name, a
 * spare byte, a 3-byte extension, the file's first list sector, its load
 * address, its sector count and its attribute byte. A list sector links on
 * through its first two bytes too, and from offset 2 holds the (track,
 * sector) pairs of the file's data sectors, ended by (0, 0).
 *
 * Walks along a chain give up with `Diverges` after more than 800 sectors;
 * since those walks do not change what they read, a chain that long
 * repeats a sector and the source loops forever.
 */
module RkDir {
  import opened Bytes
  import opened RkDisk

  // ---------------------------------------------------------------------
  // Names and the sorted file list

  /** `<` on `std::string`: byte by byte as unsigned characters, and a
    * proper prefix before the longer name. */
  predicate NameLess(a: seq<uint8>, b: seq<uint8>)
  {
    if a == [] then b != []
    else if b == [] then false
    else if a[0] != b[0] then a[0] < b[0]
    else NameLess(a[1..], b[1..])
  }

  /** Exactly one of `a < b`, `b < a` and `a == b` holds. */
  lemma {:induction false} NameLessTrichotomy(a: seq<uint8>, b: seq<uint8>)
    ensures NameLess(a, b) || NameLess(b, a) || a == b
    ensures !(NameLess(a, b) && NameLess(b, a))
    ensures NameLess(a, b) ==> a != b
  {
    if a != [] && b != [] && a[0] == b[0] {
      NameLessTrichotomy(a[1..], b[1..]);
      if a[1..] == b[1..] {
        assert a == [a[0]] + a[1..] && b == [b[0]] + b[1..];
      }
    }
  }

  /** Each name is ordered not after its successor. */
  predicate SortedByName(fs: seq<RkFileInfo>)
  {
    forall i :: 0 < i < |fs| ==> !NameLess(fs[i].fileName, fs[i - 1].fileName)
  }

  /** `x` placed before the first entry whose name is not less than its own. */
  function InsertByName(x: RkFileInfo, s: seq<RkFileInfo>): (r: seq<RkFileInfo>)
    ensures |r| == |s| + 1 && multiset(r) == multiset(s) + multiset{x}
    ensures r[0] == x || (s != [] && r[0] == s[0])
  {
    if s == [] || !NameLess(s[0].fileName, x.fileName) then [x] + s
    else
      var t := InsertByName(x, s[1..]);
      assert s == [s[0]] + s[1..];
      [s[0]] + t
  }

  /** The stable sort `std::list::sort` performs with the name comparison:
    * insertion from the back, each entry going before the equal names that
    * follow it. */
  function SortByName(fs: seq<RkFileInfo>): (r: seq<RkFileInfo>)
    ensures |r| == |fs| && multiset(r) == multiset(fs)
  {
    if fs == [] then []
    else
      assert fs == [fs[0]] + fs[1..];
      InsertByName(fs[0], SortByName(fs[1..]))
  }

  /** The entries named `n`, in order. */
  function Named(s: seq<RkFileInfo>, n: seq<uint8>): seq<RkFileInfo>
  {
    if s == [] then [] else (if s[0].fileName == n then [s[0]] else []) + Named(s[1..], n)
  }

  lemma {:induction false} InsertSorted(x: RkFileInfo, s: seq<RkFileInfo>)
    requires SortedByName(s)
    ensures SortedByName(InsertByName(x, s))
  {
    if s != [] && NameLess(s[0].fileName, x.fileName) {
      InsertSorted(x, s[1..]);
      var t := InsertByName(x, s[1..]);
      NameLessTrichotomy(s[0].fileName, x.fileName);
      var r := [s[0]] + t;
      forall i | 0 < i < |r|
        ensures !NameLess(r[i].fileName, r[i - 1].fileName)
      {
        if i > 1 {
          assert r[i] == t[i - 1] && r[i - 1] == t[i - 2];
        }
      }
    } else if s != [] {
      var r := [x] + s;
      forall i | 0 < i < |r|
        ensures !NameLess(r[i].fileName, r[i - 1].fileName)
      {
        if i > 1 {
          assert r[i] == s[i - 1] && r[i - 1] == s[i - 2];
        }
      }
    }
  }

  lemma {:induction false} InsertNamed(x: RkFileInfo, s: seq<RkFileInfo>, n: seq<uint8>)
    ensures Named(InsertByName(x, s), n) == (if x.fileName == n then [x] else []) + Named(s, n)
  {
    if s == [] || !NameLess(s[0].fileName, x.fileName) {
      assert ([x] + s)[1..] == s;
    } else {
      var t := InsertByName(x, s[1..]);
      InsertNamed(x, s[1..], n);
      NameLessTrichotomy(s[0].fileName, x.fileName);
      assert ([s[0]] + t)[1..] == t;
    }
  }

  /**
   * The file list `readDir` leaves is sorted by name, holds the same
   * entries, and keeps entries of equal names in directory order, so the
   * first match of a name is the one met first along the directory.
   */
  lemma {:induction false} SortByNameSpec(fs: seq<RkFileInfo>, n: seq<uint8>)
    ensures SortedByName(SortByName(fs))
    ensures multiset(SortByName(fs)) == multiset(fs)
    ensures Named(SortByName(fs), n) == Named(fs, n)
  {
    if fs != [] {
      SortByNameSpec(fs[1..], n);
      InsertSorted(fs[0], SortByName(fs[1..]));
      InsertNamed(fs[0], SortByName(fs[1..]), n);
    }
  }

  // ---------------------------------------------------------------------
  // Directory entries

  const EntryBytes := 21
  const FirstEntry := 7
  /** The first offset at which no entry is read: `512 - 21`. */
  const EntriesEnd := 491
  const EntriesPerSector := 24
  const Deleted: uint8 := 0xFF

  /** The bytes a C string read from `s` takes: up to the first 0. */
  function CString(s: seq<uint8>): (r: seq<uint8>)
    ensures |r| <= |s| && r == s[..|r|]
    ensures forall k :: 0 <= k < |r| ==> r[k] != 0
    ensures |r| < |s| ==> s[|r|] == 0
  {
    s[..FirstIndex(s, 0)]
  }

  /**
   * The entry at offset `pos` of the directory sector whose data starts at
   * `p`: the name is the 10 name bytes, read as a C string when the last of
   * them is 0; a '.' follows when the first extension byte is not 0; the
   * extension is its 3 bytes, read as a C string when the last is 0. The
   * size is left 0 for `calcSizes` to fill in.
   */
  function ParseEntry(img: seq<uint8>, p: int, dt: uint8, ds: uint8, pos: int): (fi: RkFileInfo)
    requires 0 <= p && 0 <= pos && p + pos + EntryBytes <= |img|
  {
    var e := p + pos;
    var base := if img[e + 9] == 0 then CString(img[e..e + 10]) else img[e..e + 10];
    var dot: seq<uint8> := if img[e + 11] != 0 then [0x2E] else [];
    var ext := if img[e + 13] == 0 then CString(img[e + 11..e + 14]) else img[e + 11..e + 14];
    RkFileInfo(base + dot + ext, dt, ds, pos, img[e + 14], img[e + 15], Word(img[e + 18], img[e + 19]),
               img[e + 20], Word(img[e + 16], img[e + 17]), 0)
  }

  /** The entries of one directory sector from offset `pos`: reading stops
    * at a first byte 0 or at offset 491, and deleted entries (first byte
    * `0xFF`) are passed over. */
  function SectorEntries(img: seq<uint8>, p: int, dt: uint8, ds: uint8, pos: int): (r: seq<RkFileInfo>)
    requires 0 <= p && 0 <= pos && p + SectorBytes <= |img|
    decreases SectorBytes - pos
  {
    if pos >= EntriesEnd || img[p + pos] == 0 then []
    else if img[p + pos] == Deleted then SectorEntries(img, p, dt, ds, pos + EntryBytes)
    else [ParseEntry(img, p, dt, ds, pos)] + SectorEntries(img, p, dt, ds, pos + EntryBytes)
  }

  /** `f` is the entry parsed in the directory sector (`dt`, `ds`) at `p`,
    * at an offset whose first byte marks it in use. */
  predicate ParsedFrom(img: seq<uint8>, p: int, dt: uint8, ds: uint8, f: RkFileInfo)
    requires 0 <= p && p + SectorBytes <= |img|
  {
    f.dirTrack == dt && f.dirSector == ds && 0 <= f.dirOffset < EntriesEnd &&
    img[p + f.dirOffset] != 0 && img[p + f.dirOffset] != Deleted &&
    ParseEntry(img, p, dt, ds, f.dirOffset) == f
  }

  /** Every entry the loop lists comes from directory sector (`dt`, `ds`),
    * at an offset from `pos` on whose first byte marks it in use, and is
    * the entry parsed there. */
  lemma {:induction false} SectorEntriesAt(img: seq<uint8>, p: int, dt: uint8, ds: uint8, pos: int)
    requires 0 <= p && 0 <= pos && p + SectorBytes <= |img|
    ensures forall k {:trigger SectorEntries(img, p, dt, ds, pos)[k]} :: 0 <= k < |SectorEntries(img, p, dt, ds, pos)| ==>
      pos <= SectorEntries(img, p, dt, ds, pos)[k].dirOffset && ParsedFrom(img, p, dt, ds, SectorEntries(img, p, dt, ds, pos)[k])
    decreases SectorBytes - pos
  {
    if pos < EntriesEnd && img[p + pos] != 0 {
      SectorEntriesAt(img, p, dt, ds, pos + EntryBytes);
      if img[p + pos] != Deleted {
        var r := SectorEntries(img, p, dt, ds, pos);
        forall k | 0 < k < |r|
          ensures r[k] == SectorEntries(img, p, dt, ds, pos + EntryBytes)[k - 1]
        {
        }
      } else {
        assert SectorEntries(img, p, dt, ds, pos) == SectorEntries(img, p, dt, ds, pos + EntryBytes);
      }
    }
  }

  /** A directory sector holds at most 24 entries in use: at most 24 - k
    * from the k-th entry on. */
  lemma {:induction false} SectorEntriesCount(img: seq<uint8>, p: int, dt: uint8, ds: uint8, k: nat)
    requires 0 <= p && p + SectorBytes <= |img|
    ensures |SectorEntries(img, p, dt, ds, FirstEntry + EntryBytes * k)| <= if k <= EntriesPerSector then EntriesPerSector - k else 0
    decreases EntriesPerSector - k
  {
    if k < EntriesPerSector {
      SectorEntriesCount(img, p, dt, ds, k + 1);
      assert FirstEntry + EntryBytes * (k + 1) == FirstEntry + EntryBytes * k + EntryBytes;
    }
  }

  /** `f` is the entry at its recorded place: directory sector
    * (`dirTrack`, `dirSector`), offset `dirOffset`, whose first byte marks
    * it in use. Its size is not part of the entry. */
  predicate Locates(img: seq<uint8>, sec: seq<RkSector>, f: RkFileInfo)
    requires |sec| == SectorCount && forall i :: 0 <= i < SectorCount ==> PtrFits(sec[i], |img|)
  {
    var i := Index(f.dirTrack, f.dirSector);
    i < SectorCount && sec[i].ptr != Unset && PtrFits(sec[i], |img|) && FirstEntry <= f.dirOffset < EntriesEnd &&
    img[sec[i].ptr + f.dirOffset] != 0 && img[sec[i].ptr + f.dirOffset] != Deleted &&
    ParseEntry(img, sec[i].ptr, f.dirTrack, f.dirSector, f.dirOffset) == f.(fileSize := 0)
  }

  /** What the walk along the directory chain found: how it ended, the
    * entries in directory order, the number of directory sectors and of
    * entries in use. */
  datatype DirWalkResult = DirWalkResult(st: Status, files: seq<RkFileInfo>, dirSectors: nat, used: nat)

  /** The directory chain from sector (`dt`, `ds`). Reading through a table
    * index past the 800 entries or an unset pointer is undefined; more than
    * `fuel` sectors is a cycle. */
  function DirWalk(img: seq<uint8>, sec: seq<RkSector>, dt: uint8, ds: uint8, fuel: nat): (r: DirWalkResult)
    requires |sec| == SectorCount && forall i :: 0 <= i < SectorCount ==> PtrFits(sec[i], |img|)
    ensures r.used == |r.files|
    ensures r.st == Ok ==> r.used <= EntriesPerSector * r.dirSectors
    decreases fuel
  {
    var i := Index(dt, ds);
    if fuel == 0 then DirWalkResult(Diverges, [], 0, 0)
    else if i >= SectorCount || sec[i].ptr == Unset then DirWalkResult(Undefined, [], 0, 0)
    else
      var p := sec[i].ptr;
      assert PtrFits(sec[i], |img|);
      SectorEntriesCount(img, p, dt, ds, 0);
      var es := SectorEntries(img, p, dt, ds, FirstEntry);
      if img[p] == 0 && img[p + 1] == 0 then DirWalkResult(Ok, es, 1, |es|)
      else
        var rest := DirWalk(img, sec, img[p], img[p + 1], fuel - 1);
        DirWalkResult(rest.st, es + rest.files, rest.dirSectors + 1, rest.used + |es|)
  }

  /** Every entry the walk lists is at its recorded place. */
  lemma {:induction false} DirWalkLocates(img: seq<uint8>, sec: seq<RkSector>, dt: uint8, ds: uint8, fuel: nat)
    requires |sec| == SectorCount && forall i :: 0 <= i < SectorCount ==> PtrFits(sec[i], |img|)
    ensures forall f :: f in DirWalk(img, sec, dt, ds, fuel).files ==> Locates(img, sec, f)
    decreases fuel
  {
    var i := Index(dt, ds);
    if fuel > 0 && i < SectorCount && sec[i].ptr != Unset {
      var p := sec[i].ptr;
      assert PtrFits(sec[i], |img|);
      SectorLocates(img, sec, dt, ds);
      if img[p] != 0 || img[p + 1] != 0 {
        DirWalkLocates(img, sec, img[p], img[p + 1], fuel - 1);
        var es := SectorEntries(img, p, dt, ds, FirstEntry);
        var rest := DirWalk(img, sec, img[p], img[p + 1], fuel - 1);
        assert DirWalk(img, sec, dt, ds, fuel).files == es + rest.files;
      }
    }
  }

  lemma SectorLocates(img: seq<uint8>, sec: seq<RkSector>, dt: uint8, ds: uint8)
    requires |sec| == SectorCount && forall i :: 0 <= i < SectorCount ==> PtrFits(sec[i], |img|)
    requires Index(dt, ds) < SectorCount && sec[Index(dt, ds)].ptr != Unset && PtrFits(sec[Index(dt, ds)], |img|)
    ensures forall f :: f in SectorEntries(img, sec[Index(dt, ds)].ptr, dt, ds, FirstEntry) ==> Locates(img, sec, f)
  {
    var i := Index(dt, ds);
    assert PtrFits(sec[i], |img|);
    var es := SectorEntries(img, sec[i].ptr, dt, ds, FirstEntry);
    SectorEntriesAt(img, sec[i].ptr, dt, ds, FirstEntry);
    forall f | f in es
      ensures Locates(img, sec, f)
    {
      var k :| 0 <= k < |es| && es[k] == f;
      assert ParsedFrom(img, sec[i].ptr, dt, ds, es[k]);
    }
  }

  /**
   * `readDir`: walk the directory from (32, 1), count 24 entries per
   * directory sector less those in use as free, sort the list by name and
   * compute the sizes. The walk itself checks nothing.
   */
  function ReadDir(d: Disk): (r: (Status, Disk))
    requires Wf(d)
    ensures r.1 == d.(fileList := r.1.fileList, freeDirEntries := r.1.freeDirEntries)
    ensures r.1.freeDirEntries >= 0
    ensures r.0 == Ok ==> SortedByName(r.1.fileList)
    ensures r.0 == Ok ==> forall f :: f in r.1.fileList ==> Locates(d.image, d.sectors, f)
  {
    var w := DirWalk(d.image, d.sectors, VtocTrack, 1, SectorCount);
    if w.st != Ok then (w.st, d.(fileList := w.files, freeDirEntries := 0))
    else
      var d1 := d.(fileList := SortByName(w.files), freeDirEntries := EntriesPerSector * w.dirSectors - w.used);
      SortByNameSpec(w.files, []);
      DirWalkLocates(d.image, d.sectors, VtocTrack, 1, SectorCount);
      SortedLocates(d.image, d.sectors, w.files);
      var c := CalcSizes(d1);
      SizedLocates(d.image, d.sectors, d1.fileList, c.1.fileList);
      c
  }

  lemma SortedLocates(img: seq<uint8>, sec: seq<RkSector>, fs: seq<RkFileInfo>)
    requires |sec| == SectorCount && forall i :: 0 <= i < SectorCount ==> PtrFits(sec[i], |img|)
    requires forall f :: f in fs ==> Locates(img, sec, f)
    ensures forall f :: f in SortByName(fs) ==> Locates(img, sec, f)
  {
    forall f | f in SortByName(fs)
      ensures Locates(img, sec, f)
    {
      assert f in multiset(SortByName(fs));
    }
  }

  /** Sizes aside, the entries after `calcSizes` are at their places when
    * they were before. */
  lemma SizedLocates(img: seq<uint8>, sec: seq<RkSector>, fs: seq<RkFileInfo>, gs: seq<RkFileInfo>)
    requires |sec| == SectorCount && forall i :: 0 <= i < SectorCount ==> PtrFits(sec[i], |img|)
    requires forall f :: f in fs ==> Locates(img, sec, f)
    requires |gs| == |fs| && forall j :: 0 <= j < |fs| ==> gs[j] == fs[j].(fileSize := gs[j].fileSize)
    ensures forall g :: g in gs ==> Locates(img, sec, g)
  {
    forall g | g in gs
      ensures Locates(img, sec, g)
    {
      var j :| 0 <= j < |gs| && gs[j] == g;
      assert Locates(img, sec, fs[j]);
    }
  }

  // ---------------------------------------------------------------------
  // Track/sector lists and file sizes

  const MaxInt := 0x7FFF_FFFF

  /** A (track, sector) pair that names a sector of the volume. */
  predicate InRange(t: int, s: int) { t < Tracks && s < SectorsPerTrack }

  /** The data sectors listed in one list sector at `p` of length `size`,
    * from offset `pos`: pairs up to offset `size - 2`, ended by (0, 0). */
  function Listed(img: seq<uint8>, p: int, size: int, pos: int): (r: (Status, seq<int>))
    requires 0 <= p && 2 <= pos
    ensures forall k :: 0 <= k < |r.1| ==> 0 < r.1[k] < SectorCount
    decreases size - pos
  {
    if pos > size - 2 then (Ok, [])
    else if p + pos + 1 >= |img| then (Undefined, [])
    else
      var nt := img[p + pos];
      var ns := img[p + pos + 1];
      if !InRange(nt, ns) then (NotFound(nt, ns), [])
      else if nt == 0 && ns == 0 then (Ok, [])
      else
        var rest := Listed(img, p, size, pos + 2);
        (rest.0, [Index(nt, ns)] + rest.1)
  }

  /** A file's chain from list sector (`t`, `s`): the list sectors and the
    * data sectors they list, in order. The link is checked before the
    * list's entries are read. */
  datatype Chain = Chain(st: Status, lists: seq<int>, data: seq<int>)

  function ChainFrom(img: seq<uint8>, sec: seq<RkSector>, t: int, s: int, fuel: nat): (r: Chain)
    requires |sec| == SectorCount && forall i :: 0 <= i < SectorCount ==> PtrFits(sec[i], |img|)
    requires 0 <= t && 0 <= s
    ensures forall k :: 0 <= k < |r.data| ==> 0 <= r.data[k] < SectorCount
    ensures forall k :: 0 <= k < |r.lists| ==> 0 <= r.lists[k] < SectorCount
    decreases fuel
  {
    var i := Index(t, s);
    if fuel == 0 then Chain(Diverges, [], [])
    else if i >= SectorCount || sec[i].ptr == Unset then Chain(Undefined, [], [])
    else
      var p := sec[i].ptr;
      assert PtrFits(sec[i], |img|);
      var nt := img[p];
      var ns := img[p + 1];
      if !InRange(nt, ns) then Chain(NotFound(nt, ns), [i], [])
      else
        var l := Listed(img, p, sec[i].len, 2);
        if l.0 != Ok then Chain(l.0, [i], l.1)
        else if nt == 0 && ns == 0 then Chain(Ok, [i], l.1)
        else
          var rest := ChainFrom(img, sec, nt, ns, fuel - 1);
          // a list sector that lists nothing adds no data sectors
          Chain(rest.st, [i] + rest.lists, if l.1 == [] then rest.data else l.1 + rest.data)
  }

  /** The lengths of the sectors `ix` added up. */
  function Lengths(sec: seq<RkSector>, ix: seq<int>): nat
    requires forall k :: 0 <= k < |ix| ==> 0 <= ix[k] < |sec|
  {
    if ix == [] then 0 else sec[ix[0]].len + Lengths(sec, ix[1..])
  }

  /** `calcSizes`' inner loop: `len` plus the lengths of the data sectors
    * one list sector names from `pos`; going past `int` is undefined. */
  function AddListed(img: seq<uint8>, sec: seq<RkSector>, p: int, size: int, pos: int, len: nat): (r: (Status, nat))
    requires |sec| == SectorCount && 0 <= p && 2 <= pos
    decreases size - pos
  {
    if pos > size - 2 then (Ok, len)
    else if p + pos + 1 >= |img| then (Undefined, len)
    else
      var nt := img[p + pos];
      var ns := img[p + pos + 1];
      if !InRange(nt, ns) then (NotFound(nt, ns), len)
      else if nt == 0 && ns == 0 then (Ok, len)
      else if len + sec[Index(nt, ns)].len > MaxInt then (Undefined, len)
      else AddListed(img, sec, p, size, pos + 2, len + sec[Index(nt, ns)].len)
  }

  /** `calcSizes`' outer loop for one file, from list sector (`t`, `s`). */
  function ListSize(img: seq<uint8>, sec: seq<RkSector>, t: int, s: int, len: nat, fuel: nat): (r: (Status, nat))
    requires |sec| == SectorCount && forall i :: 0 <= i < SectorCount ==> PtrFits(sec[i], |img|)
    requires 0 <= t && 0 <= s
    decreases fuel
  {
    var i := Index(t, s);
    if fuel == 0 then (Diverges, len)
    else if i >= SectorCount || sec[i].ptr == Unset then (Undefined, len)
    else
      var p := sec[i].ptr;
      assert PtrFits(sec[i], |img|);
      var nt := img[p];
      var ns := img[p + 1];
      if !InRange(nt, ns) then (NotFound(nt, ns), len)
      else
        var a := AddListed(img, sec, p, sec[i].len, 2, len);
        if a.0 != Ok || (nt == 0 && ns == 0) then a
        else ListSize(img, sec, nt, ns, a.1, fuel - 1)
  }

  /** The sizes of files `k` onwards; the first failure stops the loop with
    * the earlier sizes set. */
  function SizesFrom(img: seq<uint8>, sec: seq<RkSector>, files: seq<RkFileInfo>, k: nat): (r: (Status, seq<RkFileInfo>))
    requires |sec| == SectorCount && forall i :: 0 <= i < SectorCount ==> PtrFits(sec[i], |img|)
    ensures |r.1| == |files|
    ensures forall j :: 0 <= j < |files| ==> r.1[j] == files[j].(fileSize := r.1[j].fileSize)
    ensures forall j :: 0 <= j < k && j < |files| ==> r.1[j] == files[j]
    decreases |files| - k
  {
    if k >= |files| then (Ok, files)
    else
      var z := ListSize(img, sec, files[k].tList, files[k].sList, 0, SectorCount);
      if z.0 != Ok then (z.0, files)
      else SizesFrom(img, sec, files[k := files[k].(fileSize := z.1)], k + 1)
  }

  /** `calcSizes`: each file's size is the sum of the lengths of the data
    * sectors its lists name. The list's first sector is not range-checked. */
  function CalcSizes(d: Disk): (r: (Status, Disk))
    requires Wf(d)
    ensures r.1 == d.(fileList := r.1.fileList)
    ensures |r.1.fileList| == |d.fileList|
    ensures forall j :: 0 <= j < |d.fileList| ==> r.1.fileList[j] == d.fileList[j].(fileSize := r.1.fileList[j].fileSize)
  {
    var z := SizesFrom(d.image, d.sectors, d.fileList, 0);
    (z.0, d.(fileList := z.1))
  }

  lemma {:induction false} LengthsAppend(sec: seq<RkSector>, a: seq<int>, b: seq<int>)
    requires forall k :: 0 <= k < |a| ==> 0 <= a[k] < |sec|
    requires forall k :: 0 <= k < |b| ==> 0 <= b[k] < |sec|
    ensures Lengths(sec, a + b) == Lengths(sec, a) + Lengths(sec, b)
  {
    if a != [] {
      LengthsAppend(sec, a[1..], b);
      assert (a + b)[1..] == a[1..] + b;
    } else {
      assert a + b == b;
    }
  }

  /** The inner loop adds the lengths of exactly the data sectors the list
    * sector names. */
  lemma {:induction false} AddListedSum(img: seq<uint8>, sec: seq<RkSector>, p: int, size: int, pos: int, len: nat)
    requires |sec| == SectorCount && 0 <= p && 2 <= pos
    ensures var a := AddListed(img, sec, p, size, pos, len);
      a.0 == Ok ==> Listed(img, p, size, pos).0 == Ok && a.1 == len + Lengths(sec, Listed(img, p, size, pos).1)
    decreases size - pos
  {
    if pos <= size - 2 && p + pos + 1 < |img| {
      var nt := img[p + pos];
      var ns := img[p + pos + 1];
      if InRange(nt, ns) && (nt != 0 || ns != 0) && len + sec[Index(nt, ns)].len <= MaxInt {
        AddListedSum(img, sec, p, size, pos + 2, len + sec[Index(nt, ns)].len);
        var rest := Listed(img, p, size, pos + 2);
        assert ([Index(nt, ns)] + rest.1)[1..] == rest.1;
      }
    }
  }

  /** A file's size as `calcSizes` computes it is the sum of the lengths of
    * the data sectors on its chain. */
  lemma {:induction false} ListSizeSum(img: seq<uint8>, sec: seq<RkSector>, t: int, s: int, len: nat, fuel: nat)
    requires |sec| == SectorCount && forall i :: 0 <= i < SectorCount ==> PtrFits(sec[i], |img|)
    requires 0 <= t && 0 <= s
    ensures var z := ListSize(img, sec, t, s, len, fuel);
      z.0 == Ok ==> ChainFrom(img, sec, t, s, fuel).st == Ok && z.1 == len + Lengths(sec, ChainFrom(img, sec, t, s, fuel).data)
    decreases fuel
  {
    var i := Index(t, s);
    if fuel > 0 && i < SectorCount && sec[i].ptr != Unset {
      var p := sec[i].ptr;
      assert PtrFits(sec[i], |img|);
      var nt := img[p];
      var ns := img[p + 1];
      if InRange(nt, ns) {
        AddListedSum(img, sec, p, sec[i].len, 2, len);
        var a := AddListed(img, sec, p, sec[i].len, 2, len);
        var l := Listed(img, p, sec[i].len, 2);
        if a.0 == Ok && (nt != 0 || ns != 0) {
          ListSizeSum(img, sec, nt, ns, a.1, fuel - 1);
          var rest := ChainFrom(img, sec, nt, ns, fuel - 1);
          if rest.st == Ok {
            LengthsAppend(sec, l.1, rest.data);
          }
        }
      }
    }
  }

  /** After `calcSizes` completes, file `j`'s size is the total length of
    * the data sectors its chain names. */
  lemma {:induction false} SizesFromSum(img: seq<uint8>, sec: seq<RkSector>, files: seq<RkFileInfo>, k: nat, j: int)
    requires |sec| == SectorCount && forall i :: 0 <= i < SectorCount ==> PtrFits(sec[i], |img|)
    requires k <= j < |files| && SizesFrom(img, sec, files, k).0 == Ok
    ensures var c := ChainFrom(img, sec, files[j].tList, files[j].sList, SectorCount);
      c.st == Ok && SizesFrom(img, sec, files, k).1[j].fileSize == Lengths(sec, c.data)
    decreases |files| - k
  {
    var z := ListSize(img, sec, files[k].tList, files[k].sList, 0, SectorCount);
    var files' := files[k := files[k].(fileSize := z.1)];
    if k == j {
      ListSizeSum(img, sec, files[k].tList, files[k].sList, 0, SectorCount);
      assert SizesFrom(img, sec, files', k + 1).1[j] == files'[j];
    } else {
      SizesFromSum(img, sec, files', k + 1, j);
    }
  }

  lemma CalcSizesSum(d: Disk, j: int)
    requires Wf(d) && CalcSizes(d).0 == Ok && 0 <= j < |d.fileList|
    ensures var c := ChainFrom(d.image, d.sectors, d.fileList[j].tList, d.fileList[j].sList, SectorCount);
      c.st == Ok && CalcSizes(d).1.fileList[j].fileSize == Lengths(d.sectors, c.data)
  {
    SizesFromSum(d.image, d.sectors, d.fileList, 0, j);
  }

  /** Every listed file's size is the total length of the data sectors its
    * chain names. */
  predicate SizesAgree(d: Disk)
    requires Wf(d)
  {
    forall j :: 0 <= j < |d.fileList| ==>
      var c := ChainFrom(d.image, d.sectors, d.fileList[j].tList, d.fileList[j].sList, SectorCount);
      c.st == Ok && d.fileList[j].fileSize == Lengths(d.sectors, c.data)
  }

  /** After `readDir` completes, the sizes it lists are those of the files'
    * chains. */
  lemma ReadDirSizes(d: Disk)
    requires Wf(d) && ReadDir(d).0 == Ok
    ensures SizesAgree(ReadDir(d).1)
  {
    var w := DirWalk(d.image, d.sectors, VtocTrack, 1, SectorCount);
    var d1 := d.(fileList := SortByName(w.files), freeDirEntries := EntriesPerSector * w.dirSectors - w.used);
    var r := ReadDir(d).1;
    assert r == CalcSizes(d1).1;
    forall j | 0 <= j < |r.fileList|
      ensures var c := ChainFrom(r.image, r.sectors, r.fileList[j].tList, r.fileList[j].sList, SectorCount);
        c.st == Ok && r.fileList[j].fileSize == Lengths(r.sectors, c.data)
    {
      CalcSizesSum(d1, j);
    }
  }

  // ---------------------------------------------------------------------
  // allocateDirEntry

  /** The entry at offset `x` of the sector at `p` is unused: its first
    * byte is 0 (never used) or `0xFF` (deleted). */
  predicate FreeSlot(img: seq<uint8>, p: int, x: int)
    requires 0 <= p && 0 <= x < SectorBytes && p + SectorBytes <= |img|
  {
    img[p + x] == 0 || img[p + x] == Deleted
  }

  /** The first entry offset from `pos` on, stepping by 21 below 491,
    * whose first byte is 0 or `0xFF`; 491 or more when there is none. */
  function FreeEntry(img: seq<uint8>, p: int, pos: int): (q: int)
    requires 0 <= p && 0 <= pos && p + SectorBytes <= |img|
    ensures pos <= q
    decreases SectorBytes - pos
  {
    if pos >= EntriesEnd then pos
    else if img[p + pos] == 0 || img[p + pos] == Deleted then pos
    else FreeEntry(img, p, pos + EntryBytes)
  }

  /** The entry found is free and on the 21-byte grid from `pos`, and no
    * entry of the grid before it is free. */
  lemma {:induction false} FreeEntryFinds(img: seq<uint8>, p: int, pos: int)
    requires 0 <= p && 0 <= pos && p + SectorBytes <= |img|
    ensures var q := FreeEntry(img, p, pos);
      (q < EntriesEnd ==> (q - pos) % EntryBytes == 0 && FreeSlot(img, p, q)) &&
      forall x :: pos <= x < q && x < EntriesEnd && (x - pos) % EntryBytes == 0 ==> !FreeSlot(img, p, x)
    decreases SectorBytes - pos
  {
    if pos < EntriesEnd && img[p + pos] != 0 && img[p + pos] != Deleted {
      FreeEntryFinds(img, p, pos + EntryBytes);
      var q := FreeEntry(img, p, pos);
      forall x | pos <= x < q && x < EntriesEnd && (x - pos) % EntryBytes == 0
        ensures !FreeSlot(img, p, x)
      {
        if x != pos {
          assert (x - (pos + EntryBytes)) % EntryBytes == 0;
        }
      }
    }
  }

  /** `allocateDirEntry` from directory sector (`t`, `s`): the image offset
    * of the first free entry along the chain, with its sector marked
    * dirty; SECTOR_NOT_FOUND for a link out of range, DIR_FULL at the end
    * of the chain. */
  function DirEntryFrom(d: Disk, t: int, s: int, fuel: nat): (r: (Status, int, Disk))
    requires Wf(d) && 0 <= t < Tracks && 0 <= s < SectorsPerTrack
    ensures r.2 == d.(sectors := r.2.sectors)
    decreases fuel
  {
    var i := Index(t, s);
    var p := d.sectors[i].ptr;
    if fuel == 0 then (Diverges, 0, d)
    else if p == Unset then (Undefined, 0, d)
    else
      var q := FreeEntry(d.image, p, FirstEntry);
      if q < EntriesEnd then
        (Ok, p + q, d.(sectors := d.sectors[i := d.sectors[i].(dirty := true)]))
      else
        var nt := d.image[p];
        var ns := d.image[p + 1];
        if !InRange(nt, ns) then (NotFound(nt, ns), 0, d)
        else if nt == 0 && ns == 0 then (Throw(DirFull), 0, d)
        else DirEntryFrom(d, nt, ns, fuel - 1)
  }

  function AllocateDirEntry(d: Disk): (r: (Status, int, Disk))
    requires Wf(d)
    ensures r.0 == Ok ==> Wf(r.2) && 3 <= r.1 && r.1 + EntryBytes <= |d.image|
    ensures r.0 == Ok ==> r.2.image == d.image && (d.image[r.1] == 0 || d.image[r.1] == Deleted)
    ensures r.0 != Ok ==> r.2 == d
    ensures r.2 == d.(sectors := r.2.sectors) && |r.2.sectors| == SectorCount
    ensures forall j :: 0 <= j < SectorCount && r.2.sectors[j] != d.sectors[j] ==>
      r.2.sectors[j] == d.sectors[j].(dirty := true) && d.sectors[j].ptr <= r.1 < d.sectors[j].ptr + SectorBytes
  {
    DirEntryFromTakes(d, VtocTrack, 1, SectorCount);
    DirEntryFrom(d, VtocTrack, 1, SectorCount)
  }

  /** What the walk from (`t`, `s`) returns: a free entry inside the image
    * whose sector alone is marked dirty, or the disk unchanged. */
  lemma {:induction false} DirEntryFromTakes(d: Disk, t: int, s: int, fuel: nat)
    requires Wf(d) && 0 <= t < Tracks && 0 <= s < SectorsPerTrack
    ensures var r := DirEntryFrom(d, t, s, fuel);
      (r.0 == Ok ==> Wf(r.2) && 3 <= r.1 && r.1 + EntryBytes <= |d.image|) &&
      (r.0 == Ok ==> r.2.image == d.image && (d.image[r.1] == 0 || d.image[r.1] == Deleted)) &&
      (r.0 != Ok ==> r.2 == d) &&
      r.2 == d.(sectors := r.2.sectors) && |r.2.sectors| == SectorCount &&
      forall j :: 0 <= j < SectorCount && r.2.sectors[j] != d.sectors[j] ==>
        r.2.sectors[j] == d.sectors[j].(dirty := true) && d.sectors[j].ptr <= r.1 < d.sectors[j].ptr + SectorBytes
    decreases fuel
  {
    var p := d.sectors[Index(t, s)].ptr;
    if fuel > 0 && p != Unset {
      FreeEntryFinds(d.image, p, FirstEntry);
      if FreeEntry(d.image, p, FirstEntry) >= EntriesEnd && InRange(d.image[p], d.image[p + 1]) {
        DirEntryFromTakes(d, d.image[p], d.image[p + 1], fuel - 1);
      }
    }
  }

  /**
   * The chain of directory sectors from (`t`, `s`), independently of what
   * they hold: the data pointer of each sector visited, and how the walk
   * ends when no entry is taken. Each sector's first two bytes link to the
   * next; a link out of range is SECTOR_NOT_FOUND, the link (0, 0) ends the
   * chain with DIR_FULL, and an unread sector is undefined behaviour.
   */
  function DirChain(d: Disk, t: int, s: int, fuel: nat): (r: (seq<int>, Status))
    requires Wf(d) && 0 <= t < Tracks && 0 <= s < SectorsPerTrack
    ensures r.1 != Ok
    ensures forall k :: 0 <= k < |r.0| ==> 3 <= r.0[k] && r.0[k] + SectorBytes <= |d.image|
    decreases fuel
  {
    var p := d.sectors[Index(t, s)].ptr;
    if fuel == 0 then ([], Diverges)
    else if p == Unset then ([], Undefined)
    else
      var nt := d.image[p];
      var ns := d.image[p + 1];
      if !InRange(nt, ns) then ([p], NotFound(nt, ns))
      else if nt == 0 && ns == 0 then ([p], Throw(DirFull))
      else
        var rest := DirChain(d, nt, ns, fuel - 1);
        ([p] + rest.0, rest.1)
  }

  /** No entry of the sector at `p` is free. */
  predicate SectorFull(img: seq<uint8>, p: int)
    requires 0 <= p && p + SectorBytes <= |img|
  {
    forall x :: FirstEntry <= x < EntriesEnd && (x - FirstEntry) % EntryBytes == 0 ==> !FreeSlot(img, p, x)
  }

  /** Every pointer of `ps` starts a whole sector of `img`. */
  predicate SectorsIn(img: seq<uint8>, ps: seq<int>)
  {
    forall j :: 0 <= j < |ps| ==> 0 <= ps[j] && ps[j] + SectorBytes <= |img|
  }

  /**
   * A walk with result `r` over the chain `c` takes the first free entry of
   * sector `k` of the chain, every sector before it being full; or, with `k`
   * past the end of the chain, every sector is full and the walk ends as the
   * chain does.
   */
  predicate AllocatesOn(img: seq<uint8>, c: (seq<int>, Status), r: (Status, int, Disk), k: nat)
    requires SectorsIn(img, c.0)
  {
    k <= |c.0| && (forall j :: 0 <= j < k ==> FreeEntry(img, c.0[j], FirstEntry) >= EntriesEnd) &&
    (k < |c.0| ==>
      FreeEntry(img, c.0[k], FirstEntry) < EntriesEnd && r.0 == Ok && r.1 == c.0[k] + FreeEntry(img, c.0[k], FirstEntry)) &&
    (k == |c.0| ==> r.0 == c.1)
  }

  /** The walk from (`t`, `s`) takes its entry from sector `k` of the chain
    * from (`t`, `s`). */
  predicate AllocatesAt(d: Disk, t: int, s: int, fuel: nat, k: nat)
    requires Wf(d) && 0 <= t < Tracks && 0 <= s < SectorsPerTrack
  {
    AllocatesOn(d.image, DirChain(d, t, s, fuel), DirEntryFrom(d, t, s, fuel), k)
  }

  /**
   * `allocateDirEntry` walks the directory chain: it takes the first free
   * entry of the first sector of the chain that has one, and when every
   * sector of the chain is full it ends as the chain does, with DIR_FULL
   * after the last sector.
   */
  lemma {:induction false} DirEntryChain(d: Disk, t: int, s: int, fuel: nat) returns (k: nat)
    requires Wf(d) && 0 <= t < Tracks && 0 <= s < SectorsPerTrack
    ensures AllocatesAt(d, t, s, fuel, k)
    decreases fuel, 1
  {
    var p := d.sectors[Index(t, s)].ptr;
    if fuel == 0 || p == Unset || FreeEntry(d.image, p, FirstEntry) < EntriesEnd {
      k := ChainStarts(d, t, s, fuel);
    } else if !InRange(d.image[p], d.image[p + 1]) || (d.image[p] == 0 && d.image[p + 1] == 0) {
      k := ChainStops(d, t, s, fuel);
    } else {
      k := ChainOn(d, t, s, fuel);
    }
  }

  /** A walk whose full first sector links on to another sector. */
  lemma {:induction false} ChainOn(d: Disk, t: int, s: int, fuel: nat) returns (k: nat)
    requires Wf(d) && 0 <= t < Tracks && 0 <= s < SectorsPerTrack && fuel > 0
    requires var p := d.sectors[Index(t, s)].ptr;
      p != Unset && FreeEntry(d.image, p, FirstEntry) >= EntriesEnd &&
      InRange(d.image[p], d.image[p + 1]) && !(d.image[p] == 0 && d.image[p + 1] == 0)
    ensures AllocatesAt(d, t, s, fuel, k)
    decreases fuel, 0
  {
    var p := d.sectors[Index(t, s)].ptr;
    var k' := DirEntryChain(d, d.image[p], d.image[p + 1], fuel - 1);
    ChainStep(d, t, s, fuel, k');
    k := k' + 1;
  }

  /** A walk that ends or takes an entry in its first sector. */
  lemma ChainStarts(d: Disk, t: int, s: int, fuel: nat) returns (k: nat)
    requires Wf(d) && 0 <= t < Tracks && 0 <= s < SectorsPerTrack
    requires var p := d.sectors[Index(t, s)].ptr;
      fuel == 0 || p == Unset || FreeEntry(d.image, p, FirstEntry) < EntriesEnd
    ensures k == 0 && AllocatesAt(d, t, s, fuel, k)
  {
    k := 0;
  }

  /** A walk whose full first sector has no next sector. */
  lemma ChainStops(d: Disk, t: int, s: int, fuel: nat) returns (k: nat)
    requires Wf(d) && 0 <= t < Tracks && 0 <= s < SectorsPerTrack && fuel > 0
    requires var p := d.sectors[Index(t, s)].ptr;
      p != Unset && FreeEntry(d.image, p, FirstEntry) >= EntriesEnd &&
      (!InRange(d.image[p], d.image[p + 1]) || (d.image[p] == 0 && d.image[p + 1] == 0))
    ensures k == 1 && AllocatesAt(d, t, s, fuel, k)
  {
    k := 1;
  }

  /** A sector with no free entry from the first on is full. */
  lemma FullSector(img: seq<uint8>, p: int)
    requires 0 <= p && p + SectorBytes <= |img| && FreeEntry(img, p, FirstEntry) >= EntriesEnd
    ensures SectorFull(img, p)
  {
    FreeEntryFinds(img, p, FirstEntry);
  }

  /** Past a full sector linking on, both the chain and the walk go on from
    * the linked sector. */
  lemma ChainLinks(d: Disk, t: int, s: int, fuel: nat)
    requires Wf(d) && 0 <= t < Tracks && 0 <= s < SectorsPerTrack && fuel > 0
    requires var p := d.sectors[Index(t, s)].ptr;
      p != Unset && FreeEntry(d.image, p, FirstEntry) >= EntriesEnd &&
      InRange(d.image[p], d.image[p + 1]) && !(d.image[p] == 0 && d.image[p + 1] == 0)
    ensures var p := d.sectors[Index(t, s)].ptr;
      var rest := DirChain(d, d.image[p], d.image[p + 1], fuel - 1);
      DirChain(d, t, s, fuel) == ([p] + rest.0, rest.1) &&
      DirEntryFrom(d, t, s, fuel) == DirEntryFrom(d, d.image[p], d.image[p + 1], fuel - 1)
  {
  }

  /** One more full sector in front of a chain puts the walk's position one
    * further on. */
  lemma OnStep(img: seq<uint8>, p: int, rest: (seq<int>, Status), r: (Status, int, Disk), k: nat)
    requires 0 <= p && p + SectorBytes <= |img| && FreeEntry(img, p, FirstEntry) >= EntriesEnd
    requires SectorsIn(img, rest.0) && AllocatesOn(img, rest, r, k)
    ensures SectorsIn(img, [p] + rest.0) && AllocatesOn(img, ([p] + rest.0, rest.1), r, k + 1)
  {
    var c := [p] + rest.0;
    forall j | 0 <= j < k + 1
      ensures FreeEntry(img, c[j], FirstEntry) >= EntriesEnd
    {
      if j > 0 {
        assert c[j] == rest.0[j - 1];
      }
    }
    if k < |rest.0| {
      assert c[k + 1] == rest.0[k];
    }
  }

  /** A full sector linking on puts one more sector in front of the
    * walk's position. */
  lemma ChainStep(d: Disk, t: int, s: int, fuel: nat, k: nat)
    requires Wf(d) && 0 <= t < Tracks && 0 <= s < SectorsPerTrack && fuel > 0
    requires var p := d.sectors[Index(t, s)].ptr;
      p != Unset && FreeEntry(d.image, p, FirstEntry) >= EntriesEnd &&
      InRange(d.image[p], d.image[p + 1]) && !(d.image[p] == 0 && d.image[p + 1] == 0) &&
      AllocatesAt(d, d.image[p], d.image[p + 1], fuel - 1, k)
    ensures AllocatesAt(d, t, s, fuel, k + 1)
  {
    var p := d.sectors[Index(t, s)].ptr;
    var nt, ns := d.image[p], d.image[p + 1];
    ChainLinks(d, t, s, fuel);
    var rest, r := DirChain(d, nt, ns, fuel - 1), DirEntryFrom(d, nt, ns, fuel - 1);
    assert SectorsIn(d.image, rest.0);
    assert AllocatesOn(d.image, rest, r, k);
    OnStep(d.image, p, rest, r, k);
    assert DirChain(d, t, s, fuel) == ([p] + rest.0, rest.1);
    assert AllocatesOn(d.image, DirChain(d, t, s, fuel), r, k + 1);
  }

  /** The allocation throws DIR_FULL exactly when the directory chain ends
    * at a (0, 0) link and no sector on it has a free entry. */
  lemma DirFullIffChainFull(d: Disk)
    requires Wf(d)
    ensures var c := DirChain(d, VtocTrack, 1, SectorCount);
      AllocateDirEntry(d).0 == Throw(DirFull) <==>
        c.1 == Throw(DirFull) && forall j :: 0 <= j < |c.0| ==> SectorFull(d.image, c.0[j])
  {
    var c := DirChain(d, VtocTrack, 1, SectorCount);
    var k := DirEntryChain(d, VtocTrack, 1, SectorCount);
    forall j | 0 <= j < k
      ensures SectorFull(d.image, c.0[j])
    {
      FullSector(d.image, c.0[j]);
    }
    if k < |c.0| {
      assert !SectorFull(d.image, c.0[k]) by {
        FreeEntryFinds(d.image, c.0[k], FirstEntry);
        var x := FreeEntry(d.image, c.0[k], FirstEntry);
        assert FreeSlot(d.image, c.0[k], x);
      }
    }
  }
}
