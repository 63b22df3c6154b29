/**
 * rdi2hfe followed by hfe2rdi. Every logical position of a side read back
 * at 125 kbit/s is the FM word of the byte rdi2hfe wrote there, and a decoder
 * between words turns such a word into exactly that byte, so a side, a
 * track and a whole complete RDI image come back unchanged, whatever sync
 * masks the scans chose.
 */
module ImageRoundTrip {
  import opened Bytes
  import opened Wrappers
  import opened HfeLayout
  import opened FmDecoding
  import opened FmEncoding
  import opened FmRoundTrip
  import opened FmWordRoundTrip
  import opened HfeToRdiConvert
  import opened RdiToHfeConvert
  import opened SyncLocator
  import opened HfeReadBack

  /** The raw offsets hfe2rdi computes for the first `n` positions of side
    * `side` hold the FM words of `data` under `mask`, low byte first. */
  predicate WordsAt(hfe: seq<byte>, trackOffs: nat, side: nat, data: seq<byte>, mask: seq<bool>, n: nat)
    requires side <= 1 && n <= |data| && n <= |mask|
  {
    forall b :: 0 <= b < n ==>
      RawOffset(trackOffs, b, 2, side) + 1 < |hfe| &&
      hfe[RawOffset(trackOffs, b, 2, side)] == Lo(FmWord(data[b], mask[b])) &&
      hfe[RawOffset(trackOffs, b, 2, side) + 1] == Hi(FmWord(data[b], mask[b]))
  }

  /** The two flux bytes of a position holding the FM word of `x` sample to
    * that word's stream. */
  lemma PositionSamples(hfe: seq<byte>, o: nat, x: byte, sync: bool)
    requires o + 1 < |hfe| && hfe[o] == Lo(FmWord(x, sync)) && hfe[o + 1] == Hi(FmWord(x, sync))
    ensures CodeSamples(Slice(hfe, o, o + 2), 1) == WordStream(x, sync)
  {
    assert Slice(hfe, o, o + 2) == [Lo(FmWord(x, sync)), Hi(FmWord(x, sync))];
  }

  /** What holds for `n` positions holds for the first `n - 1`. */
  lemma WordsAtPrefix(hfe: seq<byte>, trackOffs: nat, side: nat, data: seq<byte>, mask: seq<bool>, n: nat)
    requires side <= 1 && 1 <= n <= |data| && n <= |mask|
    requires WordsAt(hfe, trackOffs, side, data, mask, n)
    ensures WordsAt(hfe, trackOffs, side, data, mask, n - 1)
  {
  }

  /** A prefix one longer is the prefix and the next element. */
  lemma TakeOneMore<T>(t: seq<T>, s: seq<T>, n: nat)
    requires 1 <= n <= |s|
    ensures t + s[..n] == (t + s[..n - 1]) + [s[n - 1]]
  {
    assert s[..n] == s[..n - 1] + [s[n - 1]];
  }

  /** One more position holding the FM word of its byte appends that byte
    * and leaves the decoder between words. */
  lemma PositionDecode(st: DecoderState, hfe: seq<byte>, trackOffs: nat, side: nat,
                       data: seq<byte>, mask: seq<bool>, n: nat)
    requires side <= 1 && 1 <= n <= |data| && n <= |mask|
    requires WordsAt(hfe, trackOffs, side, data, mask, n)
    requires Aligned(PositionsRun(st, hfe, trackOffs, 2, side, n - 1, 1))
    requires PositionsRun(st, hfe, trackOffs, 2, side, n - 1, 1).track == st.track + data[..n - 1]
    ensures Aligned(PositionsRun(st, hfe, trackOffs, 2, side, n, 1))
    ensures PositionsRun(st, hfe, trackOffs, 2, side, n, 1).track == st.track + data[..n]
  {
    var prev := PositionsRun(st, hfe, trackOffs, 2, side, n - 1, 1);
    var o := RawOffset(trackOffs, n - 1, 2, side);
    var x, sync := data[n - 1], mask[n - 1];
    assert PositionsRun(st, hfe, trackOffs, 2, side, n, 1) == Run(prev, WordStream(x, sync)) by {
      PositionSamples(hfe, o, x, sync);
    }
    WordRun(prev, x, sync);
    TakeOneMore(st.track, data, n);
  }

  /** Positions holding FM words append their bytes, one per position, and
    * leave the decoder between words. */
  lemma {:induction false} PositionsDecode(st: DecoderState, hfe: seq<byte>, trackOffs: nat, side: nat,
                                           data: seq<byte>, mask: seq<bool>, n: nat)
    requires Aligned(st) && side <= 1 && n <= |data| && n <= |mask|
    requires WordsAt(hfe, trackOffs, side, data, mask, n)
    ensures Aligned(PositionsRun(st, hfe, trackOffs, 2, side, n, 1))
    ensures PositionsRun(st, hfe, trackOffs, 2, side, n, 1).track == st.track + data[..n]
    decreases n
  {
    if n == 0 {
      assert data[..0] == [];
    } else {
      WordsAtPrefix(hfe, trackOffs, side, data, mask, n);
      PositionsDecode(st, hfe, trackOffs, side, data, mask, n - 1);
      PositionDecode(st, hfe, trackOffs, side, data, mask, n);
    }
  }

  /** A side whose 3125 positions hold the FM words of `data` decodes to
    * `data`, from any decoder left in the clock phase. */
  lemma SideDecode(st: DecoderState, hfe: seq<byte>, trackOffs: nat, side: nat, data: seq<byte>, mask: seq<bool>)
    requires !st.isData && side <= 1 && |data| == TrackSideBytes && |mask| == TrackSideBytes
    requires WordsAt(hfe, trackOffs, side, data, mask, TrackSideBytes)
    ensures FitTrack(SideRun(st, hfe, trackOffs, 2, side, 1).track) == data
    ensures !SideRun(st, hfe, trackOffs, 2, side, 1).isData
  {
    var st0 := st.(data := 0, sync := 0, bitNum := 0, track := []);
    PositionsDecode(st0, hfe, trackOffs, side, data, mask, TrackSideBytes);
    assert data[..TrackSideBytes] == data;
  }

  /** The 25 blocks rdi2hfe writes for a track, at `trackOffs`, hold for
    * each side the FM words of its bytes where hfe2rdi looks for them. */
  lemma BlocksWords(hfe: seq<byte>, trackOffs: nat, side0: seq<byte>, side1: seq<byte>, sync0: seq<bool>, sync1: seq<bool>)
    requires |side0| == TrackSideBytes && |side1| == TrackSideBytes
    requires |sync0| == TrackSideBytes && |sync1| == TrackSideBytes
    requires trackOffs + HfeTrackBytes <= |hfe|
    requires forall i :: 0 <= i < HfeTrackBytes ==> hfe[trackOffs + i] == TrackBlocks(side0, side1, sync0, sync1)[i]
    ensures WordsAt(hfe, trackOffs, 0, side0, sync0, TrackSideBytes)
    ensures WordsAt(hfe, trackOffs, 1, side1, sync1, TrackSideBytes)
  {
    var blocks := TrackBlocks(side0, side1, sync0, sync1);
    forall side: nat, b | side <= 1 && 0 <= b < TrackSideBytes
      ensures var w := if side == 0 then FmWord(side0[b], sync0[b]) else FmWord(side1[b], sync1[b]);
        RawOffset(trackOffs, b, 2, side) + 1 < |hfe| &&
        hfe[RawOffset(trackOffs, b, 2, side)] == Lo(w) && hfe[RawOffset(trackOffs, b, 2, side) + 1] == Hi(w)
    {
      TrackWordAt(side0, side1, sync0, sync1, side, b);
      RawOffsetWords(trackOffs, b, side);
      var offs := b / 128 * 512 + (1 - side) * 256 + 2 * (b % 128);
      assert hfe[trackOffs + offs] == blocks[offs] && hfe[trackOffs + offs + 1] == blocks[offs + 1];
    }
  }

  /** Both sides of a track written by rdi2hfe come back as they were. */
  lemma TrackDecode(st: DecoderState, hfe: seq<byte>, trackOffs: nat,
                    side0: seq<byte>, side1: seq<byte>, sync0: seq<bool>, sync1: seq<bool>)
    requires !st.isData
    requires |side0| == TrackSideBytes && |side1| == TrackSideBytes
    requires |sync0| == TrackSideBytes && |sync1| == TrackSideBytes
    requires trackOffs + HfeTrackBytes <= |hfe|
    requires forall i :: 0 <= i < HfeTrackBytes ==> hfe[trackOffs + i] == TrackBlocks(side0, side1, sync0, sync1)[i]
    ensures SidesRun(st, hfe, trackOffs, 2, 2).0 == side0 + side1
    ensures !SidesRun(st, hfe, trackOffs, 2, 2).1.isData
  {
    BlocksWords(hfe, trackOffs, side0, side1, sync0, sync1);
    var r0 := SidesRun(st, hfe, trackOffs, 2, 0);
    assert r0 == ([], st);
    SideDecode(st, hfe, trackOffs, 0, side0, sync0);
    var r1 := SidesRun(st, hfe, trackOffs, 2, 1);
    assert r1.0 == side0 && !r1.1.isData;
    SideDecode(r1.1, hfe, trackOffs, 1, side1, sync1);
  }

  /** Track `t` of a converted complete image: the blocks at `2 + 25 t` are
    * those of its two sides under the masks the scans chose. */
  lemma ConvertedTrackBlocks(rdi: seq<byte>, t: nat)
    requires |rdi| >= RdiBytes && t < Tracks
    ensures ConvertImage(rdi).Some?
    ensures |Side(rdi, t, 0)| == TrackSideBytes && |Side(rdi, t, 1)| == TrackSideBytes
    ensures var m := SyncMasks(Side(rdi, t, 0), Side(rdi, t, 1));
      m.Some? && |m.value.sync0| == TrackSideBytes && |m.value.sync1| == TrackSideBytes &&
      (2 + 25 * t) * BlockBytes + HfeTrackBytes <= |ConvertImage(rdi).value.0| &&
      forall i :: 0 <= i < HfeTrackBytes ==>
        ConvertImage(rdi).value.0[(2 + 25 * t) * BlockBytes + i] ==
        TrackBlocks(Side(rdi, t, 0), Side(rdi, t, 1), m.value.sync0, m.value.sync1)[i]
  {
    ConvertImageShape(rdi);
    SidesComplete(rdi, t);
    var side0, side1 := Side(rdi, t, 0), Side(rdi, t, 1);
    SyncMasksSound(side0, side1);
    var m := SyncMasks(side0, side1).value;
    assert TrackFiles(rdi)[t] == TrackFile(rdi, t);
    assert TrackFile(rdi, t).value.0 == TrackBlocks(side0, side1, m.sync0, m.sync1);
    forall i | 0 <= i < HfeTrackBytes
      ensures ConvertImage(rdi).value.0[(2 + 25 * t) * BlockBytes + i] == TrackBlocks(side0, side1, m.sync0, m.sync1)[i]
    {
      ConvertedTrackAt(rdi, t, i);
    }
  }

  /** The two sides of track `t` are the track's 6250 bytes of the image. */
  lemma SidesOfTrack(rdi: seq<byte>, t: nat)
    requires |rdi| >= RdiBytes && t < Tracks
    ensures Side(rdi, t, 0) + Side(rdi, t, 1) == rdi[6250 * t..6250 * (t + 1)]
  {
  }

  /** Track `k` of the loop of hfe2rdi over the file rdi2hfe wrote for a
    * complete image: its LUT entry passes, and both of its sides come back
    * as the track's 6250 bytes, leaving the decoder in the clock phase. */
  predicate TrackReadsBack(rdi: seq<byte>, hfe: seq<byte>, k: nat, st: DecoderState)
    requires |rdi| >= RdiBytes && k < Tracks
  {
    var run := SidesRun(st, hfe, (2 + 25 * k) * BlockBytes, 2, 2);
    TrackEntry(hfe, HfeParams(2, 512), k) == Success(((2 + 25 * k) * BlockBytes, 12504)) &&
    run.0 == rdi[6250 * k..6250 * (k + 1)] && !run.1.isData
  }

  /** Every track of a converted complete image reads back, from any decoder
    * in the clock phase. */
  lemma ConvertedTrackStep(rdi: seq<byte>, k: nat, st: DecoderState)
    requires |rdi| >= RdiBytes && k < Tracks && !st.isData
    ensures ConvertImage(rdi).Some? && TrackReadsBack(rdi, ConvertImage(rdi).value.0, k, st)
  {
    ConvertedTrackRun(rdi, k, st);
    ConvertedFileAccepted(rdi, k);
  }

  /** The two sides of track `k` of a converted complete image decode back
    * to the track's bytes of the image, from any decoder in the clock phase. */
  lemma ConvertedTrackRun(rdi: seq<byte>, k: nat, st: DecoderState)
    requires |rdi| >= RdiBytes && k < Tracks && !st.isData
    ensures ConvertImage(rdi).Some?
    ensures var run := SidesRun(st, ConvertImage(rdi).value.0, (2 + 25 * k) * BlockBytes, 2, 2);
      run.0 == rdi[6250 * k..6250 * (k + 1)] && !run.1.isData
  {
    SidesOfTrack(rdi, k);
    ConvertImageShape(rdi);
    ConvertedTrackBlocks(rdi, k);
    var m := SyncMasks(Side(rdi, k, 0), Side(rdi, k, 1)).value;
    TrackDecode(st, ConvertImage(rdi).value.0, (2 + 25 * k) * BlockBytes, Side(rdi, k, 0), Side(rdi, k, 1), m.sync0, m.sync1);
  }

  /** Cutting a slice in two, after a prefix. */
  lemma SliceSplit<T>(out: seq<T>, s: seq<T>, a: nat, b: nat, c: nat)
    requires a <= b <= c <= |s|
    ensures out + s[a..c] == (out + s[a..b]) + s[b..c]
  {
    assert s[a..c] == s[a..b] + s[b..c];
  }

  /** One turn of the track loop over a track that reads back. */
  lemma DecodeStep(rdi: seq<byte>, hfe: seq<byte>, st: DecoderState, out: seq<byte>, k: nat)
    requires |rdi| >= RdiBytes && k < Tracks && TrackReadsBack(rdi, hfe, k, st)
    requires var run := SidesRun(st, hfe, (2 + 25 * k) * BlockBytes, 2, 2);
      DecodeFrom(run.1, out + run.0, hfe, HfeParams(2, 512), k + 1) == Success((out + run.0) + rdi[6250 * (k + 1)..RdiBytes])
    ensures DecodeFrom(st, out, hfe, HfeParams(2, 512), k) == Success(out + rdi[6250 * k..RdiBytes])
  {
    SliceSplit(out, rdi, 6250 * k, 6250 * (k + 1), RdiBytes);
  }

  /** The track loop of hfe2rdi, over a file whose tracks from `k` on all
    * read back, writes the image's tracks from `k` on after `out`. */
  lemma {:induction false} DecodeTracks(rdi: seq<byte>, hfe: seq<byte>, st: DecoderState, out: seq<byte>, k: nat)
    requires |rdi| >= RdiBytes && k <= Tracks && !st.isData
    requires forall j: nat, st': DecoderState {:trigger TrackReadsBack(rdi, hfe, j, st')} ::
      k <= j < Tracks && !st'.isData ==> TrackReadsBack(rdi, hfe, j, st')
    ensures DecodeFrom(st, out, hfe, HfeParams(2, 512), k) == Success(out + rdi[6250 * k..RdiBytes])
    decreases Tracks - k
  {
    if k == Tracks {
      assert out + rdi[6250 * k..RdiBytes] == out;
    } else {
      assert TrackReadsBack(rdi, hfe, k, st);
      var run := SidesRun(st, hfe, (2 + 25 * k) * BlockBytes, 2, 2);
      DecodeTracks(rdi, hfe, run.1, out + run.0, k + 1);
      DecodeStep(rdi, hfe, st, out, k);
    }
  }

  /**
   * The round trip of the two converters: hfe2rdi reads back, from the file
   * rdi2hfe writes for a complete image, exactly the image's 500000 bytes.
   */
  lemma ImageRoundTrip(rdi: seq<byte>)
    requires |rdi| >= RdiBytes
    ensures ConvertImage(rdi).Some?
    ensures DecodeImage(ConvertImage(rdi).value.0) == Success(rdi[..RdiBytes])
  {
    ConvertImageShape(rdi);
    ConvertedFileAccepted(rdi, 0);
    var hfe := ConvertImage(rdi).value.0;
    forall j: nat, st': DecoderState | 0 <= j < Tracks && !st'.isData
      ensures TrackReadsBack(rdi, hfe, j, st')
    {
      ConvertedTrackStep(rdi, j, st');
    }
    DecodeTracks(rdi, hfe, InitialDecoder(), [], 0);
    assert [] + rdi[0..RdiBytes] == rdi[..RdiBytes];
  }
}
