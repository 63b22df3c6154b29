/**
 * Writing a file to an RK DOS volume, as functions on `Disk`: the name is
 * split into a base name of at most 10 characters and an extension of at
 * most 3, the number of sectors the file needs is estimated and checked
 * against the free count, a directory entry and a first track/sector list
 * are allocated, and the data is copied sector by sector while its
 * (track, sector) pairs are appended to the list.
 */
module RkWrite {
  import opened Bytes
  import opened RkDisk
  import opened RkSectors
  import opened RkDir
  import opened RkFiles
  import opened RkDelete

  const Period: uint8 := 0x2E
  /** Offset, in a list sector, at which the list is full and a new one is chained. */
  const ListEnd := 254
  /** (Track, sector) pairs one list sector holds before `writeFile` chains the next. */
  const PairsPerList := 126

  // ---------------------------------------------------------------------
  // The name

  /** `find_last_of('.')`: the position of the last '.', or -1 for `npos`. */
  function LastPeriod(s: seq<uint8>): (k: int)
    ensures -1 <= k < |s|
    ensures k >= 0 ==> s[k] == Period
    ensures forall j :: k < j < |s| ==> s[j] != Period
  {
    if s == [] then -1
    else if s[|s| - 1] == Period then |s| - 1
    else LastPeriod(s[..|s| - 1])
  }

  /** The extension: up to 3 characters after the last '.', or none. */
  function ExtName(up: seq<uint8>): (r: seq<uint8>)
    ensures |r| <= 3
  {
    var k := LastPeriod(up);
    if k < 0 then [] else up[k + 1..][..Min(3, |up| - k - 1)]
  }

  /** The base name: everything before the last '.', cut at 10
    * characters; 10 characters when there is no '.'. */
  function BaseName(up: seq<uint8>): (r: seq<uint8>)
    ensures |r| <= 10
  {
    var k := LastPeriod(up);
    var cut := if k < 0 || k > 10 then 10 else k;
    up[..Min(cut, |up|)]
  }

  function Min(a: int, b: int): int { if a < b then a else b }

  /** `strncpy(dst, s.c_str(), n)`: the characters of `s` up to its first
    * 0, at most `n` of them, padded with 0 to `n` bytes. */
  function Field(s: seq<uint8>, n: nat): (r: seq<uint8>)
    ensures |r| == n
    ensures |CString(s)| < n ==> CString(r) == CString(s)
    ensures |CString(s)| >= n ==> r == CString(s)[..n]
  {
    var c := CString(s);
    var m := Min(n, |c|);
    PaddedCString(c, m, n);
    c[..m] + Fill(0, n - m)
  }

  lemma PaddedCString(c: seq<uint8>, m: nat, n: nat)
    requires m <= n && m <= |c| && forall j :: 0 <= j < |c| ==> c[j] != 0
    ensures m < n ==> CString(c[..m] + Fill(0, n - m)) == c[..m]
  {
    var r := c[..m] + Fill(0, n - m);
    if m < n {
      assert r[m] == 0;
      FirstZero(r, m);
      assert r[..m] == c[..m];
    }
  }

  lemma FirstZero(s: seq<uint8>, m: nat)
    requires m < |s| && s[m] == 0 && forall j :: 0 <= j < m ==> s[j] != 0
    ensures FirstIndex(s, 0) == m
  {
    assert FirstIndex(s, 0) <= m;
  }

  /** The first 14 bytes of the new directory entry: the base name in 10
    * bytes, a 0, the extension in 3 bytes. */
  function NameBytes(up: seq<uint8>): (r: seq<uint8>)
    ensures |r| == 14
  {
    Field(BaseName(up), 10) + [0] + Field(ExtName(up), 3)
  }

  /** The name `readDir` reads back from an entry whose first 14 bytes are
    * `NameBytes(up)`. */
  function StoredName(up: seq<uint8>): (r: seq<uint8>)
  {
    var ext := CString(ExtName(up));
    CString(BaseName(up)) + (if ext != [] then [Period] else []) + ext
  }

  /** A name `writeFile` stores unchanged: no 0 byte, and either no '.' and
    * at most 10 characters, or a base of at most 10 characters before its
    * last '.' and an extension of 1 to 3 characters after it. */
  predicate NameFits(up: seq<uint8>)
  {
    (forall j :: 0 <= j < |up| ==> up[j] != 0) &&
    var k := LastPeriod(up);
    if k < 0 then |up| <= 10 else k <= 10 && 1 <= |up| - k - 1 <= 3
  }

  lemma CStringNoZero(s: seq<uint8>)
    requires forall j :: 0 <= j < |s| ==> s[j] != 0
    ensures CString(s) == s
  {
  }

  /** A name that fits is read back from the directory exactly as written,
    * so a later `writeFile`, `getFileInfo` or `deleteFile` with the same
    * name finds it. */
  lemma NameRoundTrip(up: seq<uint8>)
    requires NameFits(up)
    ensures StoredName(up) == up
  {
    var k := LastPeriod(up);
    CStringNoZero(BaseName(up));
    CStringNoZero(ExtName(up));
    if k < 0 {
      assert BaseName(up) == up;
    } else {
      assert BaseName(up) == up[..k];
      assert ExtName(up) == up[k + 1..];
      assert up == up[..k] + [Period] + up[k + 1..];
    }
  }

  /** A name with more than 10 characters before its extension is stored
    * cut short, so a second `writeFile` with the same name does not find
    * the first one. */
  lemma LongNameCut()
    ensures var up: seq<uint8> := [0x41, 0x41, 0x41, 0x41, 0x41, 0x41, 0x41, 0x41, 0x41, 0x41, 0x41];
      StoredName(up) != up && !NameFits(up)
  {
    var up: seq<uint8> := [0x41, 0x41, 0x41, 0x41, 0x41, 0x41, 0x41, 0x41, 0x41, 0x41, 0x41];
    assert LastPeriod(up[..0]) == -1;
    assert LastPeriod(up) == -1 by {
      var j := 11;
      while j > 0
        invariant 0 <= j <= 11
        invariant LastPeriod(up) == LastPeriod(up[..j])
      {
        assert up[..j][..j - 1] == up[..j - 1];
        j := j - 1;
      }
    }
    assert |StoredName(up)| <= |BaseName(up)| + 1 + 0;
  }

  /**
   * The existence check as evidently intended: the new name looked up as
   * the directory will hold it, rather than as given.
   */
  function StoredLookup(files: seq<RkFileInfo>, name: seq<uint8>): (i: nat)
    ensures i <= |files| && (i < |files| ==> files[i].fileName == StoredName(ToUpper(name)))
    ensures forall j :: 0 <= j < i ==> files[j].fileName != StoredName(ToUpper(name))
  {
    FindFile(files, StoredName(ToUpper(name)))
  }

  /** With that lookup a file written under any name, however long, is
    * found again once `readDir` lists its entry. */
  lemma StoredLookupFinds(img: seq<uint8>, p: int, dt: uint8, ds: uint8, pos: int, name: seq<uint8>,
                          t: uint8, s: uint8, addr: uint16, count: int, attr: uint8, files: seq<RkFileInfo>)
    requires 0 <= p && 0 <= pos && p + pos + EntryBytes <= |img|
    requires img[p + pos..p + pos + EntryBytes] == EntryImage(ToUpper(name), t, s, addr, count, attr)
    requires ParseEntry(img, p, dt, ds, pos) in files
    ensures StoredLookup(files, name) < |files|
  {
    EntryRoundTrip(img, p, dt, ds, pos, ToUpper(name), t, s, addr, count, attr);
  }

  /** The 21 bytes of a new directory entry. */
  function EntryImage(up: seq<uint8>, t: uint8, s: uint8, addr: uint16, count: int, attr: uint8): (r: seq<uint8>)
    ensures |r| == EntryBytes
  {
    NameBytes(up) + [t, s, Low(addr), High(addr), Low(count), High(count), attr]
  }

  /**
   * What `readDir` reads from an entry `writeFile` wrote: the stored name,
   * the first list sector, the start address, the sector count modulo
   * 65536 and the attribute byte.
   */
  lemma EntryRoundTrip(img: seq<uint8>, p: int, dt: uint8, ds: uint8, pos: int,
                       up: seq<uint8>, t: uint8, s: uint8, addr: uint16, count: int, attr: uint8)
    requires 0 <= p && 0 <= pos && p + pos + EntryBytes <= |img|
    requires img[p + pos..p + pos + EntryBytes] == EntryImage(up, t, s, addr, count, attr)
    ensures ParseEntry(img, p, dt, ds, pos) ==
      RkFileInfo(StoredName(up), dt, ds, pos, t, s, count % 65536, attr, addr, 0)
  {
    var e := p + pos;
    var w := EntryImage(up, t, s, addr, count, attr);
    EntryImageParts(up, t, s, addr, count, attr);
    SliceOf(img, e, w, 0, 10);
    SliceOf(img, e, w, 11, 14);
    SliceOf(img, e, w, 14, 21);
    StoredNameRead(img, e, up);
    var tail := [t, s, Low(addr), High(addr), Low(count), High(count), attr];
    ByteAt(img, e + 14, tail, 0);
    ByteAt(img, e + 14, tail, 1);
    ByteAt(img, e + 14, tail, 2);
    ByteAt(img, e + 14, tail, 3);
    ByteAt(img, e + 14, tail, 4);
    ByteAt(img, e + 14, tail, 5);
    ByteAt(img, e + 14, tail, 6);
    WordBytes(count, img[e + 18], img[e + 19]);
    WordBytes(addr as int, img[e + 16], img[e + 17]);
  }

  /** The name part of `ParseEntry` over the 14 name bytes `writeFile` wrote. */
  lemma StoredNameRead(img: seq<uint8>, e: int, up: seq<uint8>)
    requires 0 <= e && e + 14 <= |img|
    requires img[e..e + 10] == Field(BaseName(up), 10) && img[e + 11..e + 14] == Field(ExtName(up), 3)
    ensures (if img[e + 9] == 0 then CString(img[e..e + 10]) else img[e..e + 10]) +
            (if img[e + 11] != 0 then [Period] else []) +
            (if img[e + 13] == 0 then CString(img[e + 11..e + 14]) else img[e + 11..e + 14]) == StoredName(up)
  {
    FieldReadBack(BaseName(up), 10);
    FieldReadBack(ExtName(up), 3);
    ByteAt(img, e, Field(BaseName(up), 10), 9);
    ByteAt(img, e + 11, Field(ExtName(up), 3), 0);
    ByteAt(img, e + 11, Field(ExtName(up), 3), 2);
  }

  lemma EntryImageParts(up: seq<uint8>, t: uint8, s: uint8, addr: uint16, count: int, attr: uint8)
    ensures var w := EntryImage(up, t, s, addr, count, attr);
      w[..10] == Field(BaseName(up), 10) && w[11..14] == Field(ExtName(up), 3) &&
      w[14..21] == [t, s, Low(addr), High(addr), Low(count), High(count), attr]
  {
    ConcatParts(Field(BaseName(up), 10), Field(ExtName(up), 3), [t, s, Low(addr), High(addr), Low(count), High(count), attr]);
  }

  lemma ConcatParts(a: seq<uint8>, b: seq<uint8>, c: seq<uint8>)
    requires |a| == 10 && |b| == 3 && |c| == 7
    ensures var w := a + [0] + b + c; w[..10] == a && w[11..14] == b && w[14..21] == c
  {
  }

  lemma SliceOf(img: seq<uint8>, e: int, w: seq<uint8>, i: int, j: int)
    requires 0 <= e && e + |w| <= |img| && img[e..e + |w|] == w && 0 <= i <= j <= |w|
    ensures img[e + i..e + j] == w[i..j]
  {
    forall k | 0 <= k < j - i
      ensures img[e + i..e + j][k] == w[i..j][k]
    {
      assert img[e..e + |w|][i + k] == img[e + i + k];
    }
  }

  lemma ByteAt(img: seq<uint8>, e: int, w: seq<uint8>, k: int)
    requires 0 <= e && e + |w| <= |img| && img[e..e + |w|] == w && 0 <= k < |w|
    ensures img[e + k] == w[k]
  {
    assert img[e..e + |w|][k] == img[e + k];
  }

  lemma WordBytes(x: int, lo: uint8, hi: uint8)
    requires lo == Low(x) && hi == High(x)
    ensures Word(lo, hi) == x % 65536
  {
    var q := x / 65536;
    var y := x % 65536;
    assert x == 65536 * q + y;
    assert x / 256 == 256 * q + y / 256;
    assert hi == y / 256 && lo == y % 256;
  }

  /** A field of `n` bytes holding a string of at most `n` characters
    * reads back as its C string, and starts with 0 exactly when that is
    * empty. */
  lemma FieldReadBack(s: seq<uint8>, n: nat)
    requires 0 < n && |s| <= n
    ensures (if Field(s, n)[n - 1] == 0 then CString(Field(s, n)) else Field(s, n)) == CString(s)
    ensures Field(s, n)[0] != 0 <==> CString(s) != []
  {
    var c := CString(s);
    if |c| < n {
      assert Field(s, n) == c + Fill(0, n - |c|);
      if c == [] {
        assert Field(s, n)[0] == 0;
      }
    } else {
      assert c == s && Field(s, n) == c;
    }
  }

  // ---------------------------------------------------------------------
  // How many sectors

  /** Data sectors for `size` bytes: one per 512 bytes, rounded up. */
  function Chunks(size: nat): (k: nat)
    ensures size > 0 <==> k > 0
  {
    (size + 511) / 512
  }

  /**
   * `writeFile`'s estimate: at least one data sector, plus one list sector
   * per 254 data sectors, rounded up.
   */
  function SectorsNeeded(size: nat): (n: nat)
    ensures n >= 2 && n >= Chunks(size) + 1
    ensures size > 0 ==> n == Chunks(size) + (Chunks(size) + 253) / 254
  {
    var k := if Chunks(size) == 0 then 1 else Chunks(size);
    k + (k + 253) / 254
  }

  /**
   * The sectors `writeFile` actually allocates for `size` bytes: the first
   * list sector, one per data sector and one more list sector each time a
   * list fills up with 126 pairs.
   */
  function Allocations(size: nat): (n: nat)
    ensures n >= Chunks(size) + 1
  {
    1 + Chunks(size) + Chunks(size) / PairsPerList
  }

  /**
   * The free-space check is enough exactly for files of fewer than 126
   * data sectors: from 126 on, the estimate counts one list sector per 254
   * pairs while a list holds 126, and the write can run out of sectors
   * after the check has passed.
   */
  lemma EstimateEnough(size: nat)
    ensures Allocations(size) <= SectorsNeeded(size) <==> Chunks(size) < PairsPerList
  {
    var k := Chunks(size);
    if k == 0 {
    } else if k < PairsPerList {
      assert k / PairsPerList == 0;
      assert (k + 253) / 254 >= 1;
    } else if k < 255 {
      assert (k + 253) / 254 == 1;
      assert k / PairsPerList >= 1;
    } else {
      DivMonotone(k, 126, 254);
    }
  }

  lemma DivMonotone(k: int, a: int, b: int)
    requires k >= 255 && a == 126 && b == 254
    ensures (k + 253) / b <= k / a
  {
    var q := (k + 253) / b;
    assert q * b <= k + 253;
    assert q >= 2;
    assert q * 126 <= k;
    assert q <= k / a;
  }

  /** A list sector as evidently meant to be used: 254 pairs in bytes 2 to
    * 509, the terminating pair in bytes 510 and 511. */
  const FixedPairsPerList := 254

  /**
   * The sectors the copy loop allocates for `k` more data sectors, with
   * `p` pairs already in the current list, when a list holds 254 pairs and
   * a new list sector is taken only if another data sector follows.
   */
  function FixedListed(k: nat, p: nat): nat
  {
    if k == 0 then 0
    else if p + 1 == FixedPairsPerList && k > 1 then 2 + FixedListed(k - 1, 0)
    else 1 + FixedListed(k - 1, p + 1)
  }

  lemma {:induction false} FixedListedCount(k: nat, p: nat)
    requires p < FixedPairsPerList
    ensures k > 0 ==> FixedListed(k, p) == k + (p + k - 1) / FixedPairsPerList
    decreases k
  {
    if k > 1 {
      if p + 1 == FixedPairsPerList {
        FixedListedCount(k - 1, 0);
      } else {
        FixedListedCount(k - 1, p + 1);
      }
    }
  }

  /** With that loop the estimate of `writeFile` is exact for every
    * non-empty file, and enough for the empty one. */
  lemma FixedEstimateExact(size: nat)
    ensures 1 + FixedListed(Chunks(size), 0) <= SectorsNeeded(size)
    ensures size > 0 ==> 1 + FixedListed(Chunks(size), 0) == SectorsNeeded(size)
  {
    var k := Chunks(size);
    FixedListedCount(k, 0);
    if k > 0 {
      assert (k + 253) / 254 == 1 + (k - 1) / 254;
    }
  }

  // ---------------------------------------------------------------------
  // Copying the data

  /** Two disks with the same file list and directory bookkeeping. */
  predicate SameListing(a: Disk, b: Disk)
  {
    b.fileList == a.fileList && b.freeDirEntries == a.freeDirEntries && b.diskRead == a.diskRead
  }

  /** The disk after part of the copy loop, with the number of pairs in
    * the list at the first list sector (its offset is `2 + 2 * pairs`). */
  datatype Wrote = Wrote(st: Status, disk: Disk, pairs: int)

  /**
   * One turn of the copy loop up to the rollover test: a newly allocated
   * sector gets the next piece of at most 512 bytes of `rest` (a short
   * piece is followed by zeros up to and including the checksum bytes),
   * its length is set to the piece's, and its track and sector are
   * appended to the list at `p`, which holds `m` pairs.
   */
  function PutChunk(d: Disk, rest: seq<uint8>, p: int, m: int): (r: (Status, Disk))
    requires Wf(d) && 3 <= p && p + 514 <= |d.image| && 0 <= m < PairsPerList && rest != []
    ensures Wf(r.1) && |r.1.image| == |d.image| && SameListing(d, r.1)
    ensures r.0 == Ok ==> r.1.freeSectors == d.freeSectors - 1
  {
    var a := AllocateSector(d);
    if a.0 != Ok then (a.0, a.2)
    else
      var i := a.1;
      var q := d.sectors[i].ptr;
      var n := Min(SectorBytes, |rest|);
      var img := Copy(a.2.image, q, rest[..n]);
      var img2 := if n < SectorBytes then Zero(img, q + n, SectorBytes - n + 2) else img;
      var pos := 2 + 2 * m;
      var img3 := img2[p + pos := TrackOf(i)][p + pos + 1 := SectorOf(i)];
      WfLen(a.2, img3, i, n);
      (Ok, a.2.(image := img3, sectors := a.2.sectors[i := a.2.sectors[i].(len := n)]))
  }

  /**
   * The rollover: the list at `p` gets a (0, 0) pair at offset 254, a new
   * list sector is allocated and linked from bytes 0 and 1 of the list at
   * `p`, and the new list is started with a (0, 0) link.
   */
  function NewList(d: Disk, p: int): (r: (Status, Disk))
    requires Wf(d) && 3 <= p && p + 514 <= |d.image|
    ensures Wf(r.1) && |r.1.image| == |d.image| && SameListing(d, r.1)
    ensures r.0 == Ok ==> r.1.freeSectors == d.freeSectors - 1
  {
    var img := d.image[p + ListEnd := 0][p + ListEnd + 1 := 0];
    WfImage(d, img);
    var b := AllocateSector(d.(image := img));
    if b.0 != Ok then (b.0, b.2)
    else
      var q := d.sectors[b.1].ptr;
      var img2 := b.2.image[p := TrackOf(b.1)][p + 1 := SectorOf(b.1)][q := 0][q + 1 := 0];
      WfImage(b.2, img2);
      (Ok, b.2.(image := img2))
  }

  /** A whole turn of the copy loop: the piece, then the rollover when the
    * list has reached offset 254. */
  function Turn(d: Disk, rest: seq<uint8>, p: int, m: int): (r: Wrote)
    requires Wf(d) && 3 <= p && p + 514 <= |d.image| && 0 <= m < PairsPerList && rest != []
    ensures Wf(r.disk) && |r.disk.image| == |d.image| && SameListing(d, r.disk)
    ensures r.st == Ok ==> (r.pairs == (m + 1) % PairsPerList &&
                            r.disk.freeSectors == d.freeSectors - 1 - (m + 1) / PairsPerList)
  {
    var c := PutChunk(d, rest, p, m);
    if c.0 != Ok then Wrote(c.0, c.1, m)
    else if m + 1 < PairsPerList then Wrote(Ok, c.1, m + 1)
    else
      var b := NewList(c.1, p);
      Wrote(b.0, b.1, 0)
  }

  /**
   * The copy loop of `writeFile` with `m` pairs in the list at `p`, one
   * piece of `rest` per turn: `k` pieces take `k` data sectors and one
   * list sector each time the list fills up. After a rollover the pairs
   * that follow are still written into the list at `p` from offset 2 on,
   * over the pairs already there, and the new list stays empty.
   */
  function WriteData(d: Disk, rest: seq<uint8>, p: int, m: int): (r: Wrote)
    requires Wf(d) && 3 <= p && p + 514 <= |d.image| && 0 <= m < PairsPerList
    ensures Wf(r.disk) && |r.disk.image| == |d.image| && SameListing(d, r.disk)
    ensures 0 <= r.pairs < PairsPerList
    ensures r.st == Ok ==> Counted(d.freeSectors, r, m, Chunks(|rest|))
    decreases |rest|
  {
    if rest == [] then
      Wrote(Ok, d, m)
    else
      var c := Turn(d, rest, p, m);
      if c.st != Ok then c
      else
        var n := Min(SectorBytes, |rest|);
        ChunksStep(rest, n);
        var w := WriteData(c.disk, rest[n..], p, c.pairs);
        if w.st != Ok then w
        else
          TurnCount(d.freeSectors, c, w, m, Chunks(|rest|));
          w
  }

  /** After `k` pieces from `m` pairs: `k` data sectors and one list sector
    * per rollover taken from `free`, and the pairs left in the list. */
  predicate Counted(free: int, w: Wrote, m: int, k: nat)
  {
    w.disk.freeSectors == free - k - (m + k) / PairsPerList && w.pairs == (m + k) % PairsPerList
  }

  /** The counts of the whole loop from those of its first turn and of the rest. */
  lemma TurnCount(free: int, c: Wrote, w: Wrote, m: int, k: nat)
    requires 0 <= m < PairsPerList && k > 0
    requires c.pairs == (m + 1) % PairsPerList && c.disk.freeSectors == free - 1 - (m + 1) / PairsPerList
    requires Counted(c.disk.freeSectors, w, c.pairs, k - 1)
    ensures Counted(free, w, m, k)
  {
    if m + 1 == PairsPerList {
      assert m + k == (k - 1) + PairsPerList;
    }
  }

  lemma ChunksStep(rest: seq<uint8>, n: nat)
    requires rest != [] && n == Min(SectorBytes, |rest|)
    ensures Chunks(|rest[n..]|) == Chunks(|rest|) - 1
  {
    var size := |rest|;
    assert |rest[n..]| == size - n;
    if n == SectorBytes {
      assert size - n + 511 == (size + 511) - 512;
    }
  }

  lemma WfLen(d: Disk, img: seq<uint8>, i: int, n: uint16)
    requires Wf(d) && |img| == |d.image| && 0 <= i < SectorCount
    ensures Wf(d.(image := img, sectors := d.sectors[i := d.sectors[i].(len := n)]))
  {
    WfImage(d, img);
  }

  // ---------------------------------------------------------------------
  // writeFile

  /**
   * `writeFile` on a volume whose directory is read: an existing file of
   * the same (upper-cased) name is an error unless overwriting is allowed,
   * in which case it is deleted first; the rest is `Create`.
   */
  function WriteFileParsed(d: Disk, name: seq<uint8>, data: seq<uint8>, addr: uint16, attr: uint8,
                           allowOverwrite: bool): (r: (Status, Disk))
    requires Wf(d)
    ensures Wf(r.1) && |r.1.image| == |d.image|
    ensures FindFile(d.fileList, ToUpper(name)) < |d.fileList| && !allowOverwrite ==>
      r == (Throw(FileExists), d)
    ensures FindFile(d.fileList, ToUpper(name)) == |d.fileList| ==> r == Create(d, ToUpper(name), data, addr, attr)
    ensures FindFile(d.fileList, ToUpper(name)) < |d.fileList| && allowOverwrite ==>
      var del := DeleteFile(d, ToUpper(name));
      r == if del.0 != Ok then del else Create(del.1, ToUpper(name), data, addr, attr)
    ensures r.0 == Ok ==> SortedByName(r.1.fileList) && forall g :: g in r.1.fileList ==> Locates(r.1.image, r.1.sectors, g)
  {
    var up := ToUpper(name);
    if FindFile(d.fileList, up) < |d.fileList| then
      if !allowOverwrite then (Throw(FileExists), d)
      else
        var del := DeleteFile(d, up);
        if del.0 != Ok then del else Create(del.1, up, data, addr, attr)
    else Create(d, up, data, addr, attr)
  }

  /**
   * Creating the file once the name is free: the estimate is checked
   * against the free count before anything changes; then the entry gets
   * the name, the first list sector, the start address, the estimate and
   * the attribute byte, the data is copied, the list is terminated with a
   * (0, 0) pair, and the changed sectors are written back and the
   * directory read again.
   */
  function Create(d: Disk, up: seq<uint8>, data: seq<uint8>, addr: uint16, attr: uint8): (r: (Status, Disk))
    requires Wf(d)
    ensures Wf(r.1) && |r.1.image| == |d.image|
    ensures SectorsNeeded(|data|) > d.freeSectors ==> r == (Throw(DiskFull), d)
    ensures r.0 == Ok ==> r.1.freeSectors == d.freeSectors - Allocations(|data|)
    ensures r.0 == Ok ==> SortedByName(r.1.fileList) && forall g :: g in r.1.fileList ==> Locates(r.1.image, r.1.sectors, g)
  {
    var need := SectorsNeeded(|data|);
    if need > d.freeSectors then (Throw(DiskFull), d)
    else
      var a := AllocateDirEntry(d);
      if a.0 != Ok then (a.0, a.2)
      else
        var e := a.1;
        var d1 := a.2.(image := Copy(a.2.image, e, NameBytes(up)));
        WfImage(a.2, d1.image);
        var b := AllocateSector(d1);
        if b.0 != Ok then (b.0, b.2)
        else
          var fields := EntryImage(up, TrackOf(b.1), SectorOf(b.1), addr, need, attr)[14..];
          var p := d1.sectors[b.1].ptr;
          var img := Copy(b.2.image, e + 14, fields)[p := 0][p + 1 := 0];
          WfImage(b.2, img);
          var w := WriteData(b.2.(image := img), data, p, 0);
          if w.st != Ok then (w.st, w.disk)
          else
            var pos := 2 + 2 * w.pairs;
            var img2 := w.disk.image[p + pos := 0][p + pos + 1 := 0];
            WfImage(w.disk, img2);
            Rewrite(w.disk.(image := img2))
  }

  /** `writeFile`: read the disk, then write as above. */
  function WriteFile(d: Disk, name: seq<uint8>, data: seq<uint8>, addr: uint16, attr: uint8,
                     allowOverwrite: bool): (r: (Status, Disk))
    requires Wf(d)
    ensures ReadDisk(d).0 != Ok ==> r == ReadDisk(d)
    ensures ReadDisk(d).0 == Ok ==> r == WriteFileParsed(ReadDisk(d).1, name, data, addr, attr, allowOverwrite)
  {
    var rd := ReadDisk(d);
    if rd.0 != Ok then rd else WriteFileParsed(rd.1, name, data, addr, attr, allowOverwrite)
  }
}
