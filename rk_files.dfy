/**
 * The file operations of an RK DOS volume as functions on `Disk`: parsing
 * the disk once (`readDisk`), reading a file's bytes along its chain,
 * writing a new file, deleting one and changing its attribute byte. Each
 * operation upper-cases the name it is given and looks it up in the sorted
 * file list by exact match.
 */
module RkFiles {
  import opened Bytes
  import opened Wrappers
  import opened RkDisk
  import opened RkSectors
  import opened RkScan
  import opened RkDir
  import opened RkNames

  // ---------------------------------------------------------------------
  // readDisk and the lookups

  /**
   * `readDisk`: on the first call find the sectors, read the VTOC and the
   * directory and remember that the disk was read; afterwards do nothing.
   * A disk read completely has its table agreeing with the VTOC, its file
   * list sorted, each file at its directory entry and each size the length
   * of the file's chain.
   */
  function ReadDisk(d: Disk): (r: (Status, Disk))
    requires Wf(d)
    ensures Wf(r.1) && r.1.image == d.image
    ensures d.diskRead ==> r == (Ok, d)
    ensures r.0 == Ok ==> r.1.diskRead
  {
    if d.diskRead then (Ok, d)
    else
      var a := ReadSectors(d);
      if a.0 != Ok then a
      else
        var b := ReadVtoc(a.1);
        if b.0 != Ok then b
        else
          ReadVtocConsistent(a.1);
          var c := ReadDir(b.1);
          if c.0 != Ok then c else (Ok, c.1.(diskRead := true))
  }

  /** A disk read completely has its table agreeing with the VTOC, its file
    * list sorted by name, each file at its directory entry and each size
    * the length of the file's chain. */
  lemma ReadDiskParses(d: Disk)
    requires Wf(d) && !d.diskRead && ReadDisk(d).0 == Ok
    ensures var r := ReadDisk(d).1;
      VtocConsistent(r) && SortedByName(r.fileList) && SizesAgree(r) &&
      forall f :: f in r.fileList ==> Locates(r.image, r.sectors, f)
  {
    var a := ReadSectors(d);
    var b := ReadVtoc(a.1);
    ReadVtocConsistent(a.1);
    ReadDirSizes(b.1);
  }

  /** `getFileInfo`: the entry of the upper-cased name, FILE_NOT_FOUND when
    * there is none. */
  function GetFileInfo(d: Disk, name: seq<uint8>): (r: (Status, Option<RkFileInfo>, Disk))
    requires Wf(d)
    ensures Wf(r.2) && r.2.image == d.image
    ensures r.0 == Ok <==> r.1.Some?
    ensures r.0 == Ok ==> r.1.value in r.2.fileList && r.1.value.fileName == ToUpper(name)
    ensures ReadDisk(d).0 == Ok && r.0 != Ok ==>
      r.0 == Throw(FileNotFound) && forall f :: f in r.2.fileList ==> f.fileName != ToUpper(name)
  {
    var rd := ReadDisk(d);
    if rd.0 != Ok then (rd.0, None, rd.1)
    else
      var i := FindFile(rd.1.fileList, ToUpper(name));
      if i == |rd.1.fileList| then (Throw(FileNotFound), None, rd.1)
      else (Ok, Some(rd.1.fileList[i]), rd.1)
  }

  // ---------------------------------------------------------------------
  // readFile

  /** Copying the data sectors `ix` in order into the buffer after `out`:
    * a sector longer than what is left of the file's `total` bytes is passed
    * over; copying from a sector without data or past the image is
    * undefined. */
  function CopySectors(img: seq<uint8>, sec: seq<RkSector>, ix: seq<int>, total: int, out: seq<uint8>)
    : (r: (Status, seq<uint8>))
    requires |sec| == SectorCount && forall i :: 0 <= i < SectorCount ==> PtrFits(sec[i], |img|)
    requires forall k :: 0 <= k < |ix| ==> 0 <= ix[k] < SectorCount
    ensures |out| <= |r.1| && (|out| <= total ==> |r.1| <= total)
  {
    if ix == [] then (Ok, out)
    else
      var e := sec[ix[0]];
      assert PtrFits(e, |img|);
      if e.len > total - |out| then CopySectors(img, sec, ix[1..], total, out)
      else if e.ptr == Unset || e.ptr + e.len > |img| then (Undefined, out)
      else CopySectors(img, sec, ix[1..], total, out + img[e.ptr..e.ptr + e.len])
  }

  /**
   * `readFile`'s two nested loops from list sector (`t`, `s`), already
   * checked to be in range: the outer one follows the links, the inner one
   * copies the data sectors each list names. Reading changes nothing, so
   * the pairs the walk meets are those `ChainFrom` collects, and the walk
   * is stated as that chain followed by the copies: a failed copy of a
   * sector named before the point where the walk fails comes first,
   * otherwise the walk's own outcome is the result.
   */
  function ReadChain(img: seq<uint8>, sec: seq<RkSector>, t: int, s: int, total: int): (r: (Status, seq<uint8>))
    requires |sec| == SectorCount && forall i :: 0 <= i < SectorCount ==> PtrFits(sec[i], |img|)
    requires 0 <= t && 0 <= s
    ensures 0 <= total ==> |r.1| <= total
  {
    var c := ChainFrom(img, sec, t, s, SectorCount);
    var r := CopySectors(img, sec, c.data, total, []);
    if r.0 != Ok then r else (c.st, r.1)
  }

  /**
   * `readFile`: the bytes of the named file, as many as its size. The
   * buffer is allocated with the size and filled along the chain; the C++
   * buffer is not initialised, so bytes the walk does not fill are 0 here.
   * The file's first list sector is range-checked, as is each link.
   */
  function ReadFile(d: Disk, name: seq<uint8>): (r: (Status, seq<uint8>, Disk))
    requires Wf(d)
    ensures r.2 == ReadDisk(d).1
    ensures ReadDisk(d).0 == Ok ==> (r.0, r.1) == ReadFileParsed(r.2, name)
    ensures ReadDisk(d).0 != Ok ==> r.0 == ReadDisk(d).0
  {
    var rd := ReadDisk(d);
    if rd.0 != Ok then (rd.0, [], rd.1)
    else
      var q := ReadFileParsed(rd.1, name);
      (q.0, q.1, rd.1)
  }

  /** What `readFile` does once the disk is read. */
  function ReadFileParsed(d: Disk, name: seq<uint8>): (r: (Status, seq<uint8>))
    requires Wf(d)
    ensures r.0 == Ok ==>
      FindFile(d.fileList, ToUpper(name)) < |d.fileList| &&
      |r.1| == d.fileList[FindFile(d.fileList, ToUpper(name))].fileSize
    ensures FindFile(d.fileList, ToUpper(name)) == |d.fileList| ==> r.0 == Throw(FileNotFound)
  {
    var i := FindFile(d.fileList, ToUpper(name));
    if i == |d.fileList| then (Throw(FileNotFound), [])
    else
      var f := d.fileList[i];
      if !InRange(f.tList, f.sList) then (NotFound(f.tList, f.sList), [])
      else
        var c := ReadChain(d.image, d.sectors, f.tList, f.sList, f.fileSize);
        (c.0, c.1 + Fill(0, f.fileSize - |c.1|))
  }

  // ---------------------------------------------------------------------
  // What readFile reads

  /** Table entry `i` has a data pointer and its data lie in the image. */
  predicate SectorReadable(img: seq<uint8>, sec: seq<RkSector>, i: int)
  {
    0 <= i < |sec| && sec[i].ptr != Unset && 0 <= sec[i].ptr && sec[i].ptr + sec[i].len <= |img|
  }

  /** The data sectors `ix` all have data pointers and lie in the image. */
  predicate Readable(img: seq<uint8>, sec: seq<RkSector>, ix: seq<int>)
  {
    forall k :: 0 <= k < |ix| ==> SectorReadable(img, sec, ix[k])
  }

  /** The data bytes of sectors `ix`, one after another (a sector that
    * cannot be read contributes nothing; `Readable` rules such sectors out
    * wherever this is used). */
  function Gather(img: seq<uint8>, sec: seq<RkSector>, ix: seq<int>): seq<uint8>
  {
    if ix == [] then []
    else
      (if SectorReadable(img, sec, ix[0]) then img[sec[ix[0]].ptr..sec[ix[0]].ptr + sec[ix[0]].len] else [])
      + Gather(img, sec, ix[1..])
  }

  lemma {:induction false} GatherLength(img: seq<uint8>, sec: seq<RkSector>, ix: seq<int>)
    requires Readable(img, sec, ix)
    ensures |Gather(img, sec, ix)| == Lengths(sec, ix)
  {
    if ix != [] {
      GatherLength(img, sec, ix[1..]);
    }
  }

  lemma ReadableCons(img: seq<uint8>, sec: seq<RkSector>, ix: seq<int>)
    requires ix != [] && SectorReadable(img, sec, ix[0]) && Readable(img, sec, ix[1..])
    ensures Readable(img, sec, ix)
  {
    forall j | 0 < j < |ix|
      ensures SectorReadable(img, sec, ix[j])
    {
      assert ix[j] == ix[1..][j - 1];
    }
  }

  /** When the sectors `ix` fit in what is left, each is copied whole. */
  lemma {:induction false} CopySectorsGathers(img: seq<uint8>, sec: seq<RkSector>, ix: seq<int>, total: int, out: seq<uint8>)
    requires |sec| == SectorCount && forall i :: 0 <= i < SectorCount ==> PtrFits(sec[i], |img|)
    requires forall k :: 0 <= k < |ix| ==> 0 <= ix[k] < SectorCount
    requires |out| + Lengths(sec, ix) <= total && CopySectors(img, sec, ix, total, out).0 == Ok
    ensures Readable(img, sec, ix) && CopySectors(img, sec, ix, total, out).1 == out + Gather(img, sec, ix)
  {
    if ix != [] {
      var e := sec[ix[0]];
      assert PtrFits(e, |img|);
      var out' := out + img[e.ptr..e.ptr + e.len];
      CopySectorsGathers(img, sec, ix[1..], total, out');
      ReadableCons(img, sec, ix);
      assert out' + Gather(img, sec, ix[1..]) == out + Gather(img, sec, ix);
    }
  }

  /**
   * On a disk whose sizes agree with the chains (as `readDisk` leaves
   * them), a file read completely is the data of the sectors its chain
   * names, in chain order, each sector as long as its recorded length.
   */
  lemma ReadFileContents(d: Disk, name: seq<uint8>)
    requires Wf(d) && SizesAgree(d) && ReadFileParsed(d, name).0 == Ok
    ensures var f := d.fileList[FindFile(d.fileList, ToUpper(name))];
      var c := ChainFrom(d.image, d.sectors, f.tList, f.sList, SectorCount);
      c.st == Ok && Readable(d.image, d.sectors, c.data) && ReadFileParsed(d, name).1 == Gather(d.image, d.sectors, c.data)
  {
    var i := FindFile(d.fileList, ToUpper(name));
    var f := d.fileList[i];
    var c := ChainFrom(d.image, d.sectors, f.tList, f.sList, SectorCount);
    var r := CopySectors(d.image, d.sectors, c.data, f.fileSize, []);
    assert ReadFileParsed(d, name) == (c.st, r.1 + Fill(0, f.fileSize - |r.1|)) && r.0 == Ok && c.st == Ok;
    CopySectorsGathers(d.image, d.sectors, c.data, f.fileSize, []);
    GatherLength(d.image, d.sectors, c.data);
    assert r.1 + Fill(0, 0) == r.1;
  }

  /** On a disk not read yet, a file read completely is its chain's data. */
  lemma ReadFileFresh(d: Disk, name: seq<uint8>)
    requires Wf(d) && !d.diskRead && ReadFile(d, name).0 == Ok
    ensures var d0 := ReadDisk(d).1;
      var f := d0.fileList[FindFile(d0.fileList, ToUpper(name))];
      var c := ChainFrom(d0.image, d0.sectors, f.tList, f.sList, SectorCount);
      c.st == Ok && Readable(d0.image, d0.sectors, c.data) && ReadFile(d, name).1 == Gather(d0.image, d0.sectors, c.data)
  {
    ReadDiskParses(d);
    ReadFileContents(ReadDisk(d).1, name);
  }
}
