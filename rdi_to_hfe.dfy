/**
 * rdi2hfe: an RDI image (80 tracks of two 3125-byte sides) becomes an HFE
 * file of a header block, a LUT block and, per track, 25 blocks of 512 bytes
 * that interleave the FM words of 128-byte chunks of side 1 and side 0.
 * The bytes of each side's sync runs are written with a suppressed clock.
 */
module RdiToHfeConvert {
  import opened Bytes
  import opened Wrappers
  import opened HfeLayout
  import opened FmEncoding
  import opened SyncLocator

  /** Data bytes per chunk; each chunk fills one 256-byte half of a block. */
  const ChunkBytes := 128
  const ChunksPerTrack := 25
  /** Bytes of one track in the RDI image and in the HFE file. */
  const RdiTrackBytes := 6250
  const HfeTrackBytes := 12800
  /** The track length rdi2hfe writes into every LUT entry. */
  const LutTrackLength := 12504
  /** The size of a complete RDI image. */
  const RdiBytes := 500000

  /** The sync masks a track is encoded with and whether both sides showed
    * five sectors. */
  datatype TrackSync = TrackSync(sync0: seq<bool>, sync1: seq<bool>, complete: bool)

  /**
   * The scans of `main` for one track: side 0 by the fixed sector length,
   * again by the recorded lengths if that did not find five sectors; then
   * side 1 the same way, except that the second scan of side 1 stores its
   * mask as the mask of side 0. `None` when a scan raises on a short side.
   */
  function SyncMasks(side0: seq<byte>, side1: seq<byte>): Option<TrackSync>
    requires |side0| <= TrackSideBytes && |side1| <= TrackSideBytes
  {
    var first0 := Syncrobytes(side0, false);
    if first0.None? then None
    else
      var scan0 := if first0.value.nSect != MaxSectors then Syncrobytes(side0, true) else first0;
      if scan0.None? then None
      else
        var first1 := Syncrobytes(side1, false);
        if first1.None? then None
        else if first1.value.nSect == MaxSectors then
          Some(TrackSync(scan0.value.mask, first1.value.mask, scan0.value.nSect == MaxSectors))
        else
          var second1 := Syncrobytes(side1, true);
          if second1.None? then None
          else Some(TrackSync(second1.value.mask, first1.value.mask,
                              scan0.value.nSect == MaxSectors && second1.value.nSect == MaxSectors))
  }

  /**
   * Sides of 3125 bytes always give masks, of 3125 entries. The mask of
   * side 1 marks only 0x06 bytes of side 1. The mask of side 0 marks only
   * 0x06 bytes of side 0 when the fixed-length scan of side 1 found five
   * sectors; otherwise it is the mask of the second scan of side 1, and what
   * side 0's own scans found is lost.
   */
  lemma SyncMasksSound(side0: seq<byte>, side1: seq<byte>)
    requires |side0| <= TrackSideBytes && |side1| <= TrackSideBytes
    ensures |side0| == TrackSideBytes && |side1| == TrackSideBytes ==> SyncMasks(side0, side1).Some?
    ensures var r := SyncMasks(side0, side1);
      r.Some? ==>
        |r.value.sync0| == TrackSideBytes && |r.value.sync1| == TrackSideBytes &&
        MarksSyncBytes(side1, r.value.sync1) &&
        (Syncrobytes(side1, false).value.nSect == MaxSectors ==> MarksSyncBytes(side0, r.value.sync0)) &&
        (Syncrobytes(side1, false).value.nSect != MaxSectors ==>
           r.value.sync0 == Syncrobytes(side1, true).value.mask && MarksSyncBytes(side1, r.value.sync0))
  {
    SyncrobytesSound(side0, false);
    SyncrobytesSound(side0, true);
    SyncrobytesSound(side1, false);
    SyncrobytesSound(side1, true);
  }

  /** A track is reported complete exactly when the scan kept for each side
    * found five sectors. */
  lemma SyncMasksComplete(side0: seq<byte>, side1: seq<byte>)
    requires |side0| <= TrackSideBytes && |side1| <= TrackSideBytes
    requires SyncMasks(side0, side1).Some?
    ensures var first0 := Syncrobytes(side0, false).value;
      var first1 := Syncrobytes(side1, false).value;
      var n0 := if first0.nSect == MaxSectors then MaxSectors else Syncrobytes(side0, true).value.nSect;
      var n1 := if first1.nSect == MaxSectors then MaxSectors else Syncrobytes(side1, true).value.nSect;
      SyncMasks(side0, side1).value.complete <==> n0 == MaxSectors && n1 == MaxSectors
  {
  }

  /** The scans of one track in `main`, computing `SyncMasks`. */
  method LocateSyncs(side0: seq<byte>, side1: seq<byte>) returns (r: Option<TrackSync>)
    requires |side0| <= TrackSideBytes && |side1| <= TrackSideBytes
    ensures r == SyncMasks(side0, side1)
  {
    var scan0 := FindSyncBytes(side0, false);
    if scan0.None? {
      return None;
    }
    if scan0.value.nSect != MaxSectors {
      scan0 := FindSyncBytes(side0, true);
      if scan0.None? {
        return None;
      }
    }
    var sync0 := scan0.value.mask;
    var scan1 := FindSyncBytes(side1, false);
    if scan1.None? {
      return None;
    }
    var sync1 := scan1.value.mask;
    var nSect1 := scan1.value.nSect;
    if nSect1 != MaxSectors {
      var again := FindSyncBytes(side1, true);
      if again.None? {
        return None;
      }
      sync0, nSect1 := again.value.mask, again.value.nSect;
    }
    r := Some(TrackSync(sync0, sync1, scan0.value.nSect == MaxSectors && nSect1 == MaxSectors));
  }

  /** Bytes in chunk `j` of a side: 128, and the 53 left for the last one. */
  function ChunkLen(j: nat): nat
    requires j < ChunksPerTrack
  {
    if TrackSideBytes - 128 * j < ChunkBytes then TrackSideBytes - 128 * j else ChunkBytes
  }

  /** Chunk `j` of a side or of a mask, clamped like a Python slice. */
  function Chunk<T>(s: seq<T>, j: nat): (r: seq<T>)
    requires j < ChunksPerTrack
    ensures |r| <= ChunkBytes
  {
    Slice(s, 128 * j, 128 * j + ChunkLen(j))
  }

  /** Chunk `j` of a side, FM-encoded with the same chunk of its mask: one
    * half block. */
  function EncodedChunk(side: seq<byte>, sync: seq<bool>, j: nat): (r: seq<byte>)
    requires j < ChunksPerTrack
    ensures |r| == 256
  {
    FmBlockContents(Chunk(side, j), Chunk(sync, j));
    FmBlock(Chunk(side, j), Chunk(sync, j))
  }

  /** Every piece is one half block. */
  predicate HalfBlocks(h: seq<seq<byte>>)
  {
    forall i :: 0 <= i < |h| ==> |h[i]| == 256
  }

  /** The 25 encoded chunks of a side. */
  function EncodedChunks(side: seq<byte>, sync: seq<bool>): (r: seq<seq<byte>>)
    ensures |r| == ChunksPerTrack && HalfBlocks(r)
    ensures forall j :: 0 <= j < ChunksPerTrack ==> r[j] == EncodedChunk(side, sync, j)
  {
    seq(ChunksPerTrack, j requires 0 <= j < ChunksPerTrack => EncodedChunk(side, sync, j))
  }

  /** The first `n` blocks built from half blocks: `h1[i]` then `h0[i]`. */
  function InterleaveHalves(h1: seq<seq<byte>>, h0: seq<seq<byte>>, n: nat): (r: seq<byte>)
    requires n <= |h1| && n <= |h0| && HalfBlocks(h1) && HalfBlocks(h0)
    ensures |r| == 512 * n
  {
    if n == 0 then [] else InterleaveHalves(h1, h0, n - 1) + h1[n - 1] + h0[n - 1]
  }

  /** Byte `k` of the first and of the second half of block `j`. */
  lemma {:induction false} InterleaveHalvesAt(h1: seq<seq<byte>>, h0: seq<seq<byte>>, n: nat, j: nat, k: nat)
    requires n <= |h1| && n <= |h0| && HalfBlocks(h1) && HalfBlocks(h0)
    requires j < n && k < 256
    ensures InterleaveHalves(h1, h0, n)[512 * j + k] == h1[j][k]
    ensures InterleaveHalves(h1, h0, n)[512 * j + 256 + k] == h0[j][k]
    decreases n
  {
    if j < n - 1 {
      InterleaveHalvesAt(h1, h0, n - 1, j, k);
    }
  }

  /** One more block: the next half blocks appended. */
  lemma InterleaveHalvesStep(h1: seq<seq<byte>>, h0: seq<seq<byte>>, n: nat, pair: seq<byte>)
    requires n < |h1| && n < |h0| && HalfBlocks(h1) && HalfBlocks(h0)
    requires pair == h1[n] + h0[n]
    ensures InterleaveHalves(h1, h0, n + 1) == InterleaveHalves(h1, h0, n) + pair
  {
  }

  /** The 25 blocks of a track: the encoded chunk of side 1, then the
    * encoded chunk of side 0. */
  function TrackBlocks(side0: seq<byte>, side1: seq<byte>, sync0: seq<bool>, sync1: seq<bool>): (r: seq<byte>)
    ensures |r| == 512 * ChunksPerTrack
  {
    var e1, e0 := EncodedChunks(side1, sync1), EncodedChunks(side0, sync0);
    InterleaveHalves(e1, e0, |e1|)
  }

  /** Block `j` of a track holds the encoded chunk `j` of side 1 in its first
    * half and that of side 0 in its second. */
  lemma TrackBlockAt(side0: seq<byte>, side1: seq<byte>, sync0: seq<bool>, sync1: seq<bool>, j: nat, k: nat)
    requires j < ChunksPerTrack && k < 256
    ensures TrackBlocks(side0, side1, sync0, sync1)[512 * j + k] == EncodedChunk(side1, sync1, j)[k]
    ensures TrackBlocks(side0, side1, sync0, sync1)[512 * j + 256 + k] == EncodedChunk(side0, sync0, j)[k]
  {
    InterleaveHalvesAt(EncodedChunks(side1, sync1), EncodedChunks(side0, sync0), ChunksPerTrack, j, k);
  }

  /**
   * The chunk loop of `main` for one track: while bytes are left, the next
   * chunk of side 1 and then of side 0, each with the same slice of its
   * mask, through `fm_encode_block`.
   */
  method EncodeTrack(side0: seq<byte>, side1: seq<byte>, sync0: seq<bool>, sync1: seq<bool>) returns (out: seq<byte>)
    ensures out == TrackBlocks(side0, side1, sync0, sync1)
  {
    ghost var e1, e0 := EncodedChunks(side1, sync1), EncodedChunks(side0, sync0);
    var bytesLeft := TrackSideBytes;
    var offset := 0;
    ghost var j := 0;
    out := [];
    while bytesLeft != 0
      invariant 0 <= j <= ChunksPerTrack && offset == 128 * j
      invariant bytesLeft == if j < ChunksPerTrack then TrackSideBytes - 128 * j else 0
      invariant bytesLeft == 0 <==> j == ChunksPerTrack
      invariant out == InterleaveHalves(e1, e0, j)
      decreases bytesLeft
    {
      var n := if bytesLeft < ChunkBytes then bytesLeft else ChunkBytes;
      var pair := EncodeChunks(side0, side1, sync0, sync1, offset, n, j, e1, e0);
      InterleaveHalvesStep(e1, e0, j, pair);
      out := out + pair;
      offset := offset + ChunkBytes;
      bytesLeft := bytesLeft - n;
      j := j + 1;
    }
  }

  /** One pass of the chunk loop: `n` bytes from `offset` of side 1, then of
    * side 0, each FM-encoded with the same slice of its mask. */
  method EncodeChunks(side0: seq<byte>, side1: seq<byte>, sync0: seq<bool>, sync1: seq<bool>, offset: nat, n: nat,
                      ghost j: nat, ghost e1: seq<seq<byte>>, ghost e0: seq<seq<byte>>)
    returns (pair: seq<byte>)
    requires j < ChunksPerTrack && offset == 128 * j && n == ChunkLen(j)
    requires e1 == EncodedChunks(side1, sync1) && e0 == EncodedChunks(side0, sync0)
    ensures pair == e1[j] + e0[j]
  {
    var chunkS0 := Slice(side0, offset, offset + n);
    var chunkS1 := Slice(side1, offset, offset + n);
    var syncS0 := Slice(sync0, offset, offset + n);
    var syncS1 := Slice(sync1, offset, offset + n);
    var fm1 := FmEncodeBlock(chunkS1, syncS1);
    var fm0 := FmEncodeBlock(chunkS0, syncS0);
    pair := fm1 + fm0;
  }

  /** Side `side` of track `t` of the RDI image, clamped like a Python slice. */
  function Side(rdi: seq<byte>, t: nat, side: nat): (r: seq<byte>)
    requires side <= 1
    ensures |r| <= TrackSideBytes
  {
    Slice(rdi, 6250 * t + 3125 * side, 6250 * t + 3125 * (side + 1))
  }

  /** The HFE data of track `t` and whether its sides were complete. */
  function TrackFile(rdi: seq<byte>, t: nat): (r: Option<(seq<byte>, bool)>)
    ensures r.Some? ==> |r.value.0| == HfeTrackBytes
  {
    var side0, side1 := Side(rdi, t, 0), Side(rdi, t, 1);
    match SyncMasks(side0, side1)
    case None => None
    case Some(m) => Some((TrackBlocks(side0, side1, m.sync0, m.sync1), m.complete))
  }

  /** What the track loop makes of each of the 80 tracks. */
  function TrackFiles(rdi: seq<byte>): (r: seq<Option<(seq<byte>, bool)>>)
    ensures |r| == Tracks && TrackSized(r)
  {
    seq(Tracks, t requires 0 <= t < Tracks => TrackFile(rdi, t))
  }

  /** Every encoded track is 12800 bytes long. */
  predicate TrackSized(files: seq<Option<(seq<byte>, bool)>>)
  {
    forall t :: 0 <= t < |files| && files[t].Some? ==> |files[t].value.0| == HfeTrackBytes
  }

  /** The tracks from `k` on appended to `out`, with `ok` the success flag
    * so far, or `None` at the first track whose scan raises. */
  function Assemble(files: seq<Option<(seq<byte>, bool)>>, out: seq<byte>, ok: bool, k: nat): (r: Option<(seq<byte>, bool)>)
    ensures r.Some? && TrackSized(files) && k <= |files| ==> |r.value.0| == |out| + 12800 * (|files| - k)
    decreases |files| - k
  {
    if k >= |files| then Some((out, ok))
    else
      match files[k]
      case None => None
      case Some(x) => Assemble(files, out + x.0, ok && x.1, k + 1)
  }

  /** The LUT entry of track `i`: first block `2 + 25 i` and length 12504,
    * both little-endian. */
  function LutEntry(i: nat): (r: seq<byte>)
    requires i < 80
    ensures |r| == 4 && Le16(r[0], r[1]) == 2 + 25 * i && Le16(r[2], r[3]) == 12504
  {
    LeBytes(2 + 25 * i) + LeBytes(12504)
  }

  /** The entries of the first `n` tracks. */
  function EntryTable(n: nat): (r: seq<seq<byte>>)
    requires n <= 80
    ensures |r| == n && forall i :: 0 <= i < n ==> r[i] == LutEntry(i)
  {
    seq(n, i requires 0 <= i < n => LutEntry(i))
  }

  /** Four-byte LUT entries one after the other. */
  function Concat(entries: seq<seq<byte>>): (r: seq<byte>)
    requires forall k :: 0 <= k < |entries| ==> |entries[k]| == 4
    ensures |r| == 4 * |entries|
  {
    if |entries| == 0 then [] else Concat(entries[..|entries| - 1]) + entries[|entries| - 1]
  }

  /** Byte `r` of entry `i` is byte `4 i + r` of the concatenation. */
  lemma {:induction false} ConcatAt(entries: seq<seq<byte>>, i: nat, r: nat)
    requires forall k :: 0 <= k < |entries| ==> |entries[k]| == 4
    requires i < |entries| && r < 4
    ensures Concat(entries)[4 * i + r] == entries[i][r]
  {
    var n := |entries|;
    if i < n - 1 {
      ConcatAt(entries[..n - 1], i, r);
    }
  }

  /** The LUT entries of the first `n` tracks, one after the other. */
  function LutEntries(n: nat): (r: seq<byte>)
    requires n <= 80
    ensures |r| == 4 * n
  {
    Concat(EntryTable(n))
  }

  /** The LUT block rdi2hfe writes: 80 entries padded with 0xFF. */
  function LutBlock(): (r: seq<byte>)
    ensures |r| == BlockBytes
  {
    LutEntries(Tracks) + Fill(0xFF, BlockBytes - 320)
  }

  /** The whole HFE file rdi2hfe writes for `rdi` and its success flag, or
    * `None` when a sync scan raises on a short side. */
  function ConvertImage(rdi: seq<byte>): Option<(seq<byte>, bool)>
  {
    Assemble(TrackFiles(rdi), HeaderBlock() + LutBlock(), true, 0)
  }

  /** Entry `i` of the first `n` holds block `2 + 25 i` and length 12504. */
  lemma LutEntriesContents(n: nat)
    requires n <= 80
    ensures forall i :: 0 <= i < n ==>
      LutOffset(LutEntries(n), i) == 2 + 25 * i && LutLength(LutEntries(n), i) == 12504
  {
    forall i | 0 <= i < n
      ensures LutOffset(LutEntries(n), i) == 2 + 25 * i && LutLength(LutEntries(n), i) == 12504
    {
      EntryFields(n, i);
    }
  }

  /** The fields of entry `i` are read from the four bytes of `LutEntry(i)`. */
  lemma EntryFields(n: nat, i: nat)
    requires i < n <= 80
    ensures LutOffset(LutEntries(n), i) == 2 + 25 * i && LutLength(LutEntries(n), i) == 12504
  {
    var lut, e := LutEntries(n), LutEntry(i);
    forall r | 0 <= r < 4
      ensures lut[4 * i + r] == e[r]
    {
      EntryByte(n, i, r);
    }
    FieldsOfEntry(lut, i, e);
  }

  /** The two fields of an entry whose four bytes are `e`. */
  lemma FieldsOfEntry(lut: seq<byte>, i: nat, e: seq<byte>)
    requires |e| == 4 && 4 * i + 3 < |lut|
    requires forall r :: 0 <= r < 4 ==> lut[4 * i + r] == e[r]
    ensures LutOffset(lut, i) == Le16(e[0], e[1]) && LutLength(lut, i) == Le16(e[2], e[3])
  {
    assert lut[4 * i + 0] == e[0];
    assert lut[4 * i + 1] == e[1];
    assert lut[4 * i + 2] == e[2];
    assert lut[4 * i + 3] == e[3];
  }

  /** Byte `r` of entry `i` is byte `4 i + r` of the LUT. */
  lemma EntryByte(n: nat, i: nat, r: nat)
    requires i < n <= 80 && r < 4
    ensures LutEntries(n)[4 * i + r] == LutEntry(i)[r]
  {
    var table := EntryTable(n);
    ConcatAt(table, i, r);
    assert table[i] == LutEntry(i);
  }

  /** Appending entry `i` to the first `i` entries gives the first `i + 1`. */
  lemma EntriesStep(i: nat)
    requires i < 80
    ensures LutEntries(i) + LutEntry(i) == LutEntries(i + 1)
  {
    assert EntryTable(i + 1)[..i] == EntryTable(i);
  }

  /** The LUT block has the layout hfe2rdi reads. */
  lemma LutBlockLayout()
    ensures LutLayout(LutBlock())
  {
    LutEntriesContents(Tracks);
    PaddedLayout(LutEntries(Tracks), Fill(0xFF, BlockBytes - 320));
  }

  /** 80 entries padded with 0xFF to 512 bytes. */
  lemma PaddedLayout(entries: seq<byte>, pad: seq<byte>)
    requires |entries| == 4 * Tracks && |pad| == BlockBytes - 4 * Tracks
    requires forall i :: 0 <= i < Tracks ==> LutOffset(entries, i) == 2 + 25 * i && LutLength(entries, i) == 12504
    requires forall j :: 0 <= j < |pad| ==> pad[j] == 0xFF
    ensures LutLayout(entries + pad)
  {
    var lut := entries + pad;
    forall i | 0 <= i < Tracks
      ensures LutOffset(lut, i) == 2 + 25 * i && LutLength(lut, i) == 12504
    {
      assert LutOffset(lut, i) == LutOffset(entries, i);
      assert LutLength(lut, i) == LutLength(entries, i);
    }
  }

  /** The LUT loop of `main`: `ofs` starts at block 2 and grows by 25 per
    * entry; then the 0xFF padding. */
  method WriteLut() returns (lut: seq<byte>)
    ensures lut == LutBlock()
  {
    lut := [];
    var ofs := 2;
    var i := 0;
    while i < 80
      invariant 0 <= i <= 80 && ofs == 2 + 25 * i && lut == LutEntries(i)
    {
      lut := AppendEntry(lut, i, ofs);
      ofs := ofs + 25;
      i := i + 1;
    }
    lut := lut + Fill(0xFF, BlockBytes - 320);
  }

  method AppendEntry(lut: seq<byte>, i: nat, ofs: nat) returns (r: seq<byte>)
    requires i < 80 && ofs == 2 + 25 * i && lut == LutEntries(i)
    ensures r == LutEntries(i + 1)
  {
    EntriesStep(i);
    r := lut + (LeBytes(ofs) + LeBytes(12504));
  }

  /** One pass of the track loop of `main`: cut the two sides, scan them and
    * encode the track. */
  method ConvertTrack(rdi: seq<byte>, t: nat) returns (r: Option<(seq<byte>, bool)>)
    ensures r == TrackFile(rdi, t)
  {
    var side0 := Slice(rdi, 6250 * t, 6250 * t + TrackSideBytes);
    var side1 := Slice(rdi, 6250 * t + TrackSideBytes, 6250 * t + RdiTrackBytes);
    var masks := LocateSyncs(side0, side1);
    if masks.None? {
      return None;
    }
    var blocks := EncodeTrack(side0, side1, masks.value.sync0, masks.value.sync1);
    r := Some((blocks, masks.value.complete));
  }

  /** `main` after reading the file: the header block, the LUT block and the
    * 80 tracks, with the success flag it reports. */
  method RdiToHfe(rdi: seq<byte>) returns (r: Option<(seq<byte>, bool)>)
    ensures r == ConvertImage(rdi)
  {
    var lut := WriteLut();
    r := EncodeTracks(rdi, HeaderBlock() + lut);
  }

  /** The track loop of `main`, after the header and LUT blocks `prefix`. */
  method EncodeTracks(rdi: seq<byte>, prefix: seq<byte>) returns (r: Option<(seq<byte>, bool)>)
    ensures r == Assemble(TrackFiles(rdi), prefix, true, 0)
  {
    ghost var files := TrackFiles(rdi);
    var out, success := prefix, true;
    var track := 0;
    while track < Tracks
      invariant 0 <= track <= Tracks
      invariant Assemble(files, out, success, track) == Assemble(files, prefix, true, 0)
    {
      var next := AppendTrack(rdi, out, success, track, files);
      if next.None? {
        return None;
      }
      out, success := next.value.0, next.value.1;
      track := track + 1;
    }
    r := Some((out, success));
  }

  /** The output and success flag after track `t`, or `None` when its scan
    * raises. */
  method AppendTrack(rdi: seq<byte>, out: seq<byte>, ok: bool, t: nat, ghost files: seq<Option<(seq<byte>, bool)>>)
    returns (r: Option<(seq<byte>, bool)>)
    requires t < Tracks && files == TrackFiles(rdi)
    ensures r.None? ==> Assemble(files, out, ok, t) == None
    ensures r.Some? ==> Assemble(files, out, ok, t) == Assemble(files, r.value.0, r.value.1, t + 1)
  {
    var x := ConvertTrack(rdi, t);
    if x.None? {
      return None;
    }
    r := Some((out + x.value.0, ok && x.value.1));
  }
}
