/**
 * What hfe2rdi finds in a file written by rdi2hfe: the header and every LUT
 * entry pass its checks, and at the raw offset it computes for logical
 * position `b` of a side lie exactly the two bytes of the FM word of RDI byte
 * `b` of that side, clock-suppressed where the side's sync mask says so.
 */
module HfeReadBack {
  import opened Bytes
  import opened Wrappers
  import opened HfeLayout
  import opened FmEncoding
  import opened SyncLocator
  import opened RdiToHfeConvert

  /** The bytes already written stay in front of what the track loop adds. */
  lemma {:induction false} AssembleKeeps(files: seq<Option<(seq<byte>, bool)>>, out: seq<byte>, ok: bool, k: nat, i: nat)
    requires Assemble(files, out, ok, k).Some? && i < |out|
    ensures |Assemble(files, out, ok, k).value.0| > i
    ensures Assemble(files, out, ok, k).value.0[i] == out[i]
    decreases |files| - k
  {
    if k < |files| {
      var x := files[k].value;
      AssembleKeeps(files, out + x.0, ok && x.1, k + 1, i);
    }
  }

  /** Track `t` (from `k` on) is written 12800 bytes per preceding track
    * after what was already there. */
  lemma {:induction false} AssembleTrack(files: seq<Option<(seq<byte>, bool)>>, out: seq<byte>, ok: bool, k: nat, t: nat, i: nat)
    requires Assemble(files, out, ok, k).Some? && TrackSized(files)
    requires k <= t < |files| && i < HfeTrackBytes
    ensures files[t].Some?
    ensures Assemble(files, out, ok, k).value.0[|out| + 12800 * (t - k) + i] == files[t].value.0[i]
    decreases t - k
  {
    var x := files[k].value;
    var next := out + x.0;
    if t == k {
      AssembleKeeps(files, next, ok && x.1, k + 1, |out| + i);
    } else {
      AssembleTrack(files, next, ok && x.1, k + 1, t, i);
    }
  }

  /** When no track's scan raises, the loop runs to the end. */
  lemma {:induction false} AssembleComplete(files: seq<Option<(seq<byte>, bool)>>, out: seq<byte>, ok: bool, k: nat)
    requires forall t :: 0 <= t < |files| ==> files[t].Some?
    ensures Assemble(files, out, ok, k).Some?
    decreases |files| - k
  {
    if k < |files| {
      var x := files[k].value;
      AssembleComplete(files, out + x.0, ok && x.1, k + 1);
    }
  }

  /** Each side of each track of a complete image is 3125 bytes of it. */
  lemma SidesComplete(rdi: seq<byte>, t: nat)
    requires |rdi| >= RdiBytes && t < Tracks
    ensures |Side(rdi, t, 0)| == TrackSideBytes && |Side(rdi, t, 1)| == TrackSideBytes
  {
  }

  /** No track of a complete image makes a sync scan raise. */
  lemma TracksComplete(rdi: seq<byte>)
    requires |rdi| >= RdiBytes
    ensures forall t :: 0 <= t < Tracks ==> TrackFiles(rdi)[t].Some?
  {
    forall t | 0 <= t < Tracks
      ensures TrackFiles(rdi)[t].Some?
    {
      SidesComplete(rdi, t);
      SyncMasksSound(Side(rdi, t, 0), Side(rdi, t, 1));
    }
  }

  /**
   * rdi2hfe writes 1024 bytes of header and LUT and 12800 per track, and it
   * always gets that far for a complete 500000-byte image.
   */
  lemma ConvertImageShape(rdi: seq<byte>)
    ensures ConvertImage(rdi).Some? ==> |ConvertImage(rdi).value.0| == 2 * BlockBytes + Tracks * HfeTrackBytes
    ensures |rdi| >= RdiBytes ==> ConvertImage(rdi).Some?
  {
    if |rdi| >= RdiBytes {
      TracksComplete(rdi);
      AssembleComplete(TrackFiles(rdi), HeaderBlock() + LutBlock(), true, 0);
    }
  }

  /** The first two blocks of the output are the header and LUT blocks. */
  lemma ConvertedPrefix(rdi: seq<byte>, prefix: seq<byte>)
    requires prefix == HeaderBlock() + LutBlock() && ConvertImage(rdi).Some?
    ensures |ConvertImage(rdi).value.0| >= 2 * BlockBytes
    ensures ConvertImage(rdi).value.0[..2 * BlockBytes] == prefix
  {
    var hfe := ConvertImage(rdi).value.0;
    assert |prefix| == 2 * BlockBytes;
    forall i | 0 <= i < 2 * BlockBytes
      ensures hfe[i] == prefix[i]
    {
      AssembleKeeps(TrackFiles(rdi), prefix, true, 0, i);
    }
  }

  /**
   * hfe2rdi accepts what rdi2hfe writes: the header says 125 kbit/s (two flux
   * bytes per logical bit) with the LUT at byte 512, and every LUT entry
   * points at block `2 + 25 t` with a length that passes the check.
   */
  lemma ConvertedFileAccepted(rdi: seq<byte>, t: nat)
    requires ConvertImage(rdi).Some? && t < Tracks
    ensures ParseHeader(ConvertImage(rdi).value.0) == Success(HfeParams(2, 512))
    ensures TrackEntry(ConvertImage(rdi).value.0, HfeParams(2, 512), t) == Success(((2 + 25 * t) * BlockBytes, 12504))
  {
    var hfe := ConvertImage(rdi).value.0;
    var header, lut := HeaderBlock(), LutBlock();
    ConvertedPrefix(rdi, header + lut);
    assert hfe[..BlockBytes] == header by {
      assert hfe[..BlockBytes] == hfe[..2 * BlockBytes][..BlockBytes];
    }
    assert hfe[BlockBytes..2 * BlockBytes] == lut by {
      assert hfe[BlockBytes..2 * BlockBytes] == hfe[..2 * BlockBytes][BlockBytes..];
    }
    HeaderAccepted(hfe);
    LutBlockLayout();
    LutAccepted(hfe, t);
  }

  /** Track `t` of a converted image lies at block `2 + 25 t` of the file,
    * where its LUT entry points. */
  lemma ConvertedTrackAt(rdi: seq<byte>, t: nat, i: nat)
    requires ConvertImage(rdi).Some? && t < Tracks && i < HfeTrackBytes
    ensures TrackFiles(rdi)[t].Some?
    ensures ConvertImage(rdi).value.0[(2 + 25 * t) * BlockBytes + i] == TrackFiles(rdi)[t].value.0[i]
  {
    AssembledTrackAt(TrackFiles(rdi), HeaderBlock() + LutBlock(), t, i);
  }

  /** After the two blocks of header and LUT, track `t` starts at block
    * `2 + 25 t`. */
  lemma AssembledTrackAt(files: seq<Option<(seq<byte>, bool)>>, prefix: seq<byte>, t: nat, i: nat)
    requires Assemble(files, prefix, true, 0).Some? && TrackSized(files) && |prefix| == 2 * BlockBytes
    requires t < |files| && i < HfeTrackBytes
    ensures files[t].Some?
    ensures Assemble(files, prefix, true, 0).value.0[(2 + 25 * t) * BlockBytes + i] == files[t].value.0[i]
  {
    AssembleTrack(files, prefix, true, 0, t, i);
    assert (2 + 25 * t) * BlockBytes + i == |prefix| + 12800 * (t - 0) + i;
  }

  /**
   * The FM word of byte `b` of side `side` lies, low byte first, at the
   * offset where hfe2rdi reads logical position `b` of that side at
   * 125 kbit/s (`RawOffsetWords` with `trackOffs` 0): the two
   * sides of one track land in different halves, so conversion back reads
   * each byte from its own word.
   */
  lemma TrackWordAt(side0: seq<byte>, side1: seq<byte>, sync0: seq<bool>, sync1: seq<bool>, side: nat, b: nat)
    requires |side0| == TrackSideBytes && |side1| == TrackSideBytes
    requires |sync0| == TrackSideBytes && |sync1| == TrackSideBytes
    requires side <= 1 && b < TrackSideBytes
    ensures var blocks := TrackBlocks(side0, side1, sync0, sync1);
      var offs := b / 128 * 512 + (1 - side) * 256 + 2 * (b % 128);
      var w := if side == 0 then FmWord(side0[b], sync0[b]) else FmWord(side1[b], sync1[b]);
      offs + 1 < |blocks| && blocks[offs] == Lo(w) && blocks[offs + 1] == Hi(w)
  {
    var j, k := b / 128, b % 128;
    if side == 0 {
      BlocksWordAt(side0, side1, sync0, sync1, side, j, k, side0, sync0);
    } else {
      BlocksWordAt(side0, side1, sync0, sync1, side, j, k, side1, sync1);
    }
  }

  /** Word `k` of chunk `j` of side `side` (bytes `s`, mask `mask`) in the
    * 25 blocks of a track. */
  lemma BlocksWordAt(side0: seq<byte>, side1: seq<byte>, sync0: seq<bool>, sync1: seq<bool>, side: nat, j: nat, k: nat,
                     s: seq<byte>, mask: seq<bool>)
    requires WordSource(side0, side1, sync0, sync1, side, j, k, s, mask)
    ensures var blocks := TrackBlocks(side0, side1, sync0, sync1);
      var i := 512 * j + (1 - side) * 256 + 2 * k;
      var w := FmWord(s[128 * j + k], mask[128 * j + k]);
      blocks[i] == Lo(w) && blocks[i + 1] == Hi(w)
  {
    var blocks := TrackBlocks(side0, side1, sync0, sync1);
    var lo, hi := 2 * k, 2 * k + 1;
    TrackBlockAt(side0, side1, sync0, sync1, j, lo);
    TrackBlockAt(side0, side1, sync0, sync1, j, hi);
    if side == 0 {
      ChunkWordAt(side0, sync0, j, k);
      assert blocks[512 * j + 256 + lo] == Lo(FmWord(side0[128 * j + k], sync0[128 * j + k]));
      assert blocks[512 * j + 256 + hi] == Hi(FmWord(side0[128 * j + k], sync0[128 * j + k]));
    } else {
      ChunkWordAt(side1, sync1, j, k);
      assert blocks[512 * j + lo] == Lo(FmWord(side1[128 * j + k], sync1[128 * j + k]));
      assert blocks[512 * j + hi] == Hi(FmWord(side1[128 * j + k], sync1[128 * j + k]));
    }
  }

  /** Side `side` of a track, with its mask, and word `k` of chunk `j` in it. */
  predicate WordSource(side0: seq<byte>, side1: seq<byte>, sync0: seq<bool>, sync1: seq<bool>, side: nat, j: nat, k: nat,
                       s: seq<byte>, mask: seq<bool>)
  {
    |side0| == TrackSideBytes && |side1| == TrackSideBytes &&
    |sync0| == TrackSideBytes && |sync1| == TrackSideBytes &&
    side <= 1 && k < 128 && 128 * j + k < TrackSideBytes &&
    s == (if side == 0 then side0 else side1) && mask == (if side == 0 then sync0 else sync1)
  }

  /** Word `k` of encoded chunk `j` is the FM word of byte `128 j + k`. */
  lemma ChunkWordAt(side: seq<byte>, sync: seq<bool>, j: nat, k: nat)
    requires |side| == TrackSideBytes && |sync| == TrackSideBytes
    requires j < ChunksPerTrack && k < 128 && 128 * j + k < TrackSideBytes
    ensures var w := FmWord(side[128 * j + k], sync[128 * j + k]);
      EncodedChunk(side, sync, j)[2 * k] == Lo(w) && EncodedChunk(side, sync, j)[2 * k + 1] == Hi(w)
  {
    var src, mask := Chunk(side, j), Chunk(sync, j);
    assert |src| == ChunkLen(j) && |mask| == ChunkLen(j);
    FmBlockContents(src, mask);
    assert src[k] == side[128 * j + k] && mask[k] == sync[128 * j + k];
  }
}
