/**
 * The encoder and the decoder fit together. Read back at one flux byte per
 * cell pair (bit_len 2), the sixteen samples of an FM word alternate clock
 * and data cells, bit 7 first; shifted into the decoder's two accumulators
 * they leave the encoded byte in the data one and the word's clock pattern
 * in the clock one, and on the way the clock accumulator never shows a mark
 * before the word is complete.
 */
module FmRoundTrip {
  import opened Bytes
  import opened FmDecoding
  import opened FmEncoding

  /** Two samples, the clock then the data cell of one bit. */
  function Pair(st: DecoderState, c: bool, d: bool): DecoderState
  {
    Sample(Sample(st, c), d)
  }

  /** Shifting by `a` and then by `b` is shifting by `a + b`. */
  lemma {:induction false} ShrAdd(v: byte, a: nat, b: nat)
    ensures Shr(Shr(v, a), b) == Shr(v, a + b)
    decreases b
  {
    if b > 0 {
      ShrAdd(v, a, b - 1);
    }
  }

  /** Sample `k` of `count` samples of `v` is bit `k * step` of `v`. */
  lemma {:induction false} SampleBitsIndex(v: byte, step: nat, count: nat, k: nat)
    requires k < count
    ensures SampleBits(v, step, count)[k] == (Shr(v, k * step) & 1 == 1)
    decreases k
  {
    if k > 0 {
      SampleBitsIndex(Shr(v, step), step, count - 1, k - 1);
      ShrAdd(v, step, (k - 1) * step);
      assert step + (k - 1) * step == k * step;
    }
  }

  /** Sample `k` of a raw byte is bit `step - 1 + k * step` of it. */
  lemma ByteSamplesIndex(b: byte, step: nat, k: nat)
    requires step >= 1 && k < 8 / step
    ensures ByteSamples(b, step)[k] == (Shr(b, step - 1 + k * step) & 1 == 1)
  {
    SampleBitsIndex(Shr(b, step - 1), step, 8 / step, k);
    ShrAdd(b, step - 1, k * step);
  }

  /** The samples of two raw bytes are those of the first, then those of the
    * second. */
  lemma CodeSamplesTwo(x: byte, y: byte, step: nat)
    requires step >= 1
    ensures CodeSamples([x, y], step) == ByteSamples(x, step) + ByteSamples(y, step)
  {
    assert [x, y][1..] == [y] && [y][1..] == [];
  }

  /** Shifting one place at a time is the shift by a constant. */
  lemma ShrConst(v: byte)
    ensures Shr(v, 1) == v >> 1 && Shr(v, 2) == v >> 2 && Shr(v, 3) == v >> 3
    ensures Shr(v, 4) == v >> 4 && Shr(v, 5) == v >> 5 && Shr(v, 6) == v >> 6 && Shr(v, 7) == v >> 7
  {
    assert Shr(v, 1) == v >> 1;
    assert Shr(v, 2) == Shr(v, 1) >> 1;
    assert Shr(v, 3) == Shr(v, 2) >> 1;
    assert Shr(v, 4) == Shr(v, 3) >> 1;
    assert Shr(v, 5) == Shr(v, 4) >> 1;
    assert Shr(v, 6) == Shr(v, 5) >> 1;
    assert Shr(v, 7) == Shr(v, 6) >> 1;
  }

  /** The sixteen samples of an FM word read at step 1: clock then data for
    * bit 7 down to bit 0 of the encoded byte, every clock 1 except the
    * clock of bit 1 under a sync flag. */
  lemma {:induction false} WordSamples(b: byte, sync: bool)
    ensures var ws := CodeSamples([Lo(FmWord(b, sync)), Hi(FmWord(b, sync))], 1);
      |ws| == 16 &&
      ws[0] && ws[1] == (b & 0x80 != 0) && ws[2] && ws[3] == (b & 0x40 != 0) &&
      ws[4] && ws[5] == (b & 0x20 != 0) && ws[6] && ws[7] == (b & 0x10 != 0) &&
      ws[8] && ws[9] == (b & 0x08 != 0) && ws[10] && ws[11] == (b & 0x04 != 0) &&
      ws[12] == !sync && ws[13] == (b & 0x02 != 0) && ws[14] && ws[15] == (b & 0x01 != 0)
  {
    var w := FmWord(b, sync);
    CodeSamplesTwo(Lo(w), Hi(w), 1);
    PairSamples(b, sync, Lo(w), Hi(w));
  }

  /** `WordSamples` for the samples of the word's two bytes, `lo` then `hi`. */
  lemma PairSamples(b: byte, sync: bool, lo: byte, hi: byte)
    requires lo == Lo(FmWord(b, sync)) && hi == Hi(FmWord(b, sync))
    ensures var ws := ByteSamples(lo, 1) + ByteSamples(hi, 1);
      |ws| == 16 &&
      ws[0] && ws[1] == (b & 0x80 != 0) && ws[2] && ws[3] == (b & 0x40 != 0) &&
      ws[4] && ws[5] == (b & 0x20 != 0) && ws[6] && ws[7] == (b & 0x10 != 0) &&
      ws[8] && ws[9] == (b & 0x08 != 0) && ws[10] && ws[11] == (b & 0x04 != 0) &&
      ws[12] == !sync && ws[13] == (b & 0x02 != 0) && ws[14] && ws[15] == (b & 0x01 != 0)
  {
    var ws := ByteSamples(lo, 1) + ByteSamples(hi, 1);
    forall k | 0 <= k < 8
      ensures ws[k] == (Shr(lo, k) & 1 == 1) && ws[8 + k] == (Shr(hi, k) & 1 == 1)
    {
      ByteSamplesIndex(lo, 1, k);
      ByteSamplesIndex(hi, 1, k);
    }
    ShrConst(lo);
    ShrConst(hi);
    WordBits(b, sync);
  }

  /** The cells of an FM word as its two bytes hold them. */
  lemma WordBits(b: byte, sync: bool)
    ensures var lo, hi := Lo(FmWord(b, sync)), Hi(FmWord(b, sync));
      lo & 1 == 1 && ((lo >> 1) & 1 == 1) == (b & 0x80 != 0) &&
      (lo >> 2) & 1 == 1 && ((lo >> 3) & 1 == 1) == (b & 0x40 != 0) &&
      (lo >> 4) & 1 == 1 && ((lo >> 5) & 1 == 1) == (b & 0x20 != 0) &&
      (lo >> 6) & 1 == 1 && ((lo >> 7) & 1 == 1) == (b & 0x10 != 0) &&
      hi & 1 == 1 && ((hi >> 1) & 1 == 1) == (b & 0x08 != 0) &&
      (hi >> 2) & 1 == 1 && ((hi >> 3) & 1 == 1) == (b & 0x04 != 0) &&
      ((hi >> 4) & 1 == 1) == !sync && ((hi >> 5) & 1 == 1) == (b & 0x02 != 0) &&
      (hi >> 6) & 1 == 1 && ((hi >> 7) & 1 == 1) == (b & 0x01 != 0)
  {
  }

  /** A clock/data pair that raises no mark and completes no byte just
    * shifts both accumulators: `x` and `y` are their new values. */
  lemma QuietPair(st: DecoderState, c: bool, d: bool, x: byte, y: byte)
    requires !st.isData && st.bitNum < 7
    requires x == (st.data << 1) | Bit(d) && y == (st.sync << 1) | Bit(c)
    requires y != 0x06 && y != 0xFD
    ensures Pair(st, c, d) == DecoderState(false, x, y, st.bitNum + 1, st.track)
  {
  }

  /** The eighth pair of a word completes the byte, mark or no mark. */
  lemma LastPair(st: DecoderState, c: bool, d: bool, x: byte, y: byte)
    requires !st.isData && st.bitNum == 7
    requires x == (st.data << 1) | Bit(d) && y == (st.sync << 1) | Bit(c)
    requires y != 0x06
    ensures Pair(st, c, d) == DecoderState(false, x, y, 0, st.track + [x])
  {
    ClockSample(st, c);
  }

  /** A clock sample that raises no mark shifts the clock accumulator and
    * hands over to the data phase. */
  lemma ClockSample(st: DecoderState, c: bool)
    requires !st.isData && st.bitNum < 8
    requires (st.sync << 1) | Bit(c) != 0x06
    ensures Sample(st, c) == st.(sync := (st.sync << 1) | Bit(c), isData := true)
  {
  }

  /** An accumulator after the samples `bits` have been shifted into it, the
    * first sample first. */
  function Accumulate(x: byte, bits: seq<bool>): byte
    decreases |bits|
  {
    if bits == [] then x else (Accumulate(x, bits[..|bits| - 1]) << 1) | Bit(bits[|bits| - 1])
  }

  /** The samples a decoder in the clock phase sends to each accumulator:
    * even positions to the clock one, odd positions to the data one. */
  function Clocks(ws: seq<bool>): (r: seq<bool>)
    ensures |r| == |ws| / 2 && forall p :: 0 <= p < |r| ==> r[p] == ws[2 * p]
  {
    seq(|ws| / 2, p requires 0 <= p < |ws| / 2 => ws[2 * p])
  }

  function Datas(ws: seq<bool>): (r: seq<bool>)
    ensures |r| == |ws| / 2 && forall p :: 0 <= p < |r| ==> r[p] == ws[2 * p + 1]
  {
    seq(|ws| / 2, p requires 0 <= p < |ws| / 2 => ws[2 * p + 1])
  }

  /** One more sample shifts the accumulator left by one. */
  lemma AccumulateStep(x: byte, bits: seq<bool>, k: nat)
    requires k < |bits|
    ensures Accumulate(x, bits[..k + 1]) == (Accumulate(x, bits[..k]) << 1) | Bit(bits[k])
  {
    assert bits[..k + 1][..k] == bits[..k];
  }

  /** Eight shifts flush the old contents: the accumulator then holds the
    * eight samples, the first in bit 7. */
  lemma AccumulateEight(x: byte, bits: seq<bool>)
    requires |bits| == 8
    ensures Accumulate(x, bits) ==
      (Bit(bits[0]) << 7) | (Bit(bits[1]) << 6) | (Bit(bits[2]) << 5) | (Bit(bits[3]) << 4) |
      (Bit(bits[4]) << 3) | (Bit(bits[5]) << 2) | (Bit(bits[6]) << 1) | Bit(bits[7])
  {
    assert bits[..0] == [];
    AccumulateStep(x, bits, 0);
    AccumulateStep(x, bits, 1);
    AccumulateStep(x, bits, 2);
    AccumulateStep(x, bits, 3);
    AccumulateStep(x, bits, 4);
    AccumulateStep(x, bits, 5);
    AccumulateStep(x, bits, 6);
    AccumulateStep(x, bits, 7);
    assert bits[..8] == bits;
  }

  /** The samples of one FM word read back at step 1. */
  function WordStream(b: byte, sync: bool): seq<bool>
  {
    CodeSamples([Lo(FmWord(b, sync)), Hi(FmWord(b, sync))], 1)
  }

  /**
   * The register-level round trip: whatever the accumulators held before,
   * after the sixteen samples of an FM word the data accumulator holds the
   * encoded byte and the clock accumulator the word's clock pattern, 0xFD
   * under a sync flag and 0xFF otherwise.
   */
  lemma WordRegisters(b: byte, sync: bool, x: byte, y: byte)
    ensures Accumulate(x, Datas(WordStream(b, sync))) == b
    ensures Accumulate(y, Clocks(WordStream(b, sync))) == if sync then 0xFD else 0xFF
  {
    var ws := WordStream(b, sync);
    WordSamples(b, sync);
    AccumulateEight(x, Datas(ws));
    AccumulateEight(y, Clocks(ws));
  }

  /**
   * Within a word the clock accumulator never shows a mark too early: from a
   * clock history left by a previous word (0x00 at the start of a track,
   * 0xFD or 0xFF after a word) no prefix of the word's clocks yields 0x06,
   * and none but the full eight yields 0xFD. So no resynchronisation can
   * fire before the word's last pair.
   */
  lemma ClocksNeverMark(b: byte, sync: bool, y: byte)
    requires y == 0x00 || y == 0xFD || y == 0xFF
    ensures forall k :: 1 <= k <= 8 ==> Accumulate(y, Clocks(WordStream(b, sync))[..k]) != 0x06
    ensures forall k :: 1 <= k < 8 ==> Accumulate(y, Clocks(WordStream(b, sync))[..k]) != 0xFD
  {
    WordSamples(b, sync);
    ClockHistory(y, Clocks(WordStream(b, sync)));
  }

  /** Clock samples all 1 but possibly the seventh, shifted into the clock
    * history a previous word or a new track leaves. */
  lemma ClockHistory(y: byte, cs: seq<bool>)
    requires y == 0x00 || y == 0xFD || y == 0xFF
    requires |cs| == 8 && cs[0] && cs[1] && cs[2] && cs[3] && cs[4] && cs[5] && cs[7]
    ensures forall k :: 1 <= k <= 8 ==> Accumulate(y, cs[..k]) != 0x06
    ensures forall k :: 1 <= k < 8 ==> Accumulate(y, cs[..k]) != 0xFD
  {
    assert cs[..0] == [];
    AccumulateStep(y, cs, 0);
    AccumulateStep(y, cs, 1);
    AccumulateStep(y, cs, 2);
    AccumulateStep(y, cs, 3);
    AccumulateStep(y, cs, 4);
    AccumulateStep(y, cs, 5);
    AccumulateStep(y, cs, 6);
    AccumulateStep(y, cs, 7);
    assert Accumulate(y, cs[..1]) & 1 == 1;
    assert Accumulate(y, cs[..2]) & 3 == 3;
    assert Accumulate(y, cs[..3]) & 3 == 3;
    assert Accumulate(y, cs[..4]) & 3 == 3;
    assert Accumulate(y, cs[..5]) & 3 == 3;
    assert Accumulate(y, cs[..6]) & 3 == 3;
    assert Accumulate(y, cs[..7]) & 2 == 2;
    assert Accumulate(y, cs[..8]) & 1 == 1;
    forall k | 1 <= k <= 8
      ensures Accumulate(y, cs[..k]) != 0x06 && (k < 8 ==> Accumulate(y, cs[..k]) != 0xFD)
    {
      assert k == 1 || k == 2 || k == 3 || k == 4 || k == 5 || k == 6 || k == 7 || k == 8;
    }
  }

  /** The encoder/decoder handshake: a 0x06 byte written with its sync flag
    * leaves 0x06 in the data accumulator under 0xFD in the clock one, the
    * data-phase mark the decoder tests for. */
  lemma SyncByteIsMark(st: DecoderState)
    ensures var ws := WordStream(0x06, true);
      DataMark(st.(isData := true, data := Accumulate(st.data, Datas(ws)), sync := Accumulate(st.sync, Clocks(ws))))
  {
    WordRegisters(0x06, true, st.data, st.sync);
  }
}

/**
 * The round trip through the decoder itself: started between words, the
 * samples of the FM word of a byte make the decoder emit exactly that byte
 * and leave it between words again.
 */
module FmWordRoundTrip {
  import opened Bytes
  import opened FmDecoding
  import opened FmEncoding
  import opened FmRoundTrip

  /** A decoder between words: in the clock phase, no bit counted yet, and a
    * clock history a new track (0x00) or a previous word (0xFD, 0xFF)
    * leaves. */
  predicate Aligned(st: DecoderState)
  {
    !st.isData && st.bitNum == 0 && (st.sync == 0x00 || st.sync == 0xFD || st.sync == 0xFF)
  }

  /** Two more samples of a stream are one more clock/data pair. */
  lemma PairStep(st: DecoderState, ws: seq<bool>, k: nat)
    requires 2 * k + 2 <= |ws|
    ensures Run(st, ws[..2 * k + 2]) == Pair(Run(st, ws[..2 * k]), ws[2 * k], ws[2 * k + 1])
  {
    assert ws[..2 * k + 1] == ws[..2 * k] + [ws[2 * k]];
    assert ws[..2 * k + 2] == ws[..2 * k + 1] + [ws[2 * k + 1]];
    RunSnoc(st, ws[..2 * k], ws[2 * k]);
    RunSnoc(st, ws[..2 * k + 1], ws[2 * k + 1]);
  }

  /** The decoder state after `k` quiet pairs of a stream `ws`: the
    * accumulators hold what was shifted in, on top of `x` and `y`. */
  function Shifted(ws: seq<bool>, x: byte, y: byte, k: nat, track: seq<byte>): DecoderState
    requires 2 * k <= |ws|
  {
    DecoderState(false, Accumulate(x, Datas(ws)[..k]), Accumulate(y, Clocks(ws)[..k]), k, track)
  }

  /** The accumulators one pair later: the clock sample shifted into the
    * clock one, the data sample into the data one. */
  lemma ShiftedNext(prev: DecoderState, ws: seq<bool>, x: byte, y: byte, k: nat)
    requires 1 <= k <= 8 && |ws| == 16
    requires prev == Shifted(ws, x, y, k - 1, prev.track)
    ensures Accumulate(x, Datas(ws)[..k]) == (prev.data << 1) | Bit(ws[2 * (k - 1) + 1])
    ensures Accumulate(y, Clocks(ws)[..k]) == (prev.sync << 1) | Bit(ws[2 * (k - 1)])
  {
    assert Datas(ws)[k - 1] == ws[2 * (k - 1) + 1];
    AccumulateStep(x, Datas(ws), k - 1);
    assert Clocks(ws)[k - 1] == ws[2 * (k - 1)];
    AccumulateStep(y, Clocks(ws), k - 1);
  }

  /** One more pair whose clock raises no mark shifts both accumulators. */
  lemma ShiftedStep(prev: DecoderState, ws: seq<bool>, x: byte, y: byte, k: nat)
    requires 1 <= k <= 7 && |ws| == 16
    requires prev == Shifted(ws, x, y, k - 1, prev.track)
    requires Accumulate(y, Clocks(ws)[..k]) != 0x06 && Accumulate(y, Clocks(ws)[..k]) != 0xFD
    ensures Pair(prev, ws[2 * (k - 1)], ws[2 * (k - 1) + 1]) == Shifted(ws, x, y, k, prev.track)
  {
    var c, d := ws[2 * (k - 1)], ws[2 * (k - 1) + 1];
    var x', y' := Accumulate(x, Datas(ws)[..k]), Accumulate(y, Clocks(ws)[..k]);
    assert x' == (prev.data << 1) | Bit(d) && y' == (prev.sync << 1) | Bit(c) by {
      ShiftedNext(prev, ws, x, y, k);
    }
    assert Pair(prev, c, d) == DecoderState(false, x', y', k, prev.track) by {
      QuietPair(prev, c, d, x', y');
    }
  }

  /** The last pair of a word shifts its samples into both accumulators. */
  lemma LastShift(prev: DecoderState, ws: seq<bool>, x: byte, y: byte)
    requires |ws| == 16
    requires prev == Shifted(ws, x, y, 7, prev.track)
    ensures Accumulate(x, Datas(ws)) == (prev.data << 1) | Bit(ws[15])
    ensures Accumulate(y, Clocks(ws)) == (prev.sync << 1) | Bit(ws[14])
  {
    var ds, cs := Datas(ws), Clocks(ws);
    assert ds[..|ds| - 1] == ds[..7] && cs[..|cs| - 1] == cs[..7];
  }

  /** The last two samples of a word are its last pair. */
  lemma LastPairStep(st: DecoderState, ws: seq<bool>)
    requires |ws| == 16
    ensures Run(st, ws) == Pair(Run(st, ws[..14]), ws[14], ws[15])
  {
    var n := |ws|;
    assert ws[..n - 1][..n - 2] == ws[..n - 2];
    assert Run(st, ws) == Sample(Run(st, ws[..n - 1]), ws[n - 1]);
  }

  /** After the first `k < 8` pairs of a word, the decoder has only shifted
    * its accumulators: no mark fired and no byte was emitted. */
  lemma {:induction false} WordPrefix(st: DecoderState, b: byte, sync: bool, k: nat)
    requires Aligned(st) && k <= 7
    ensures |WordStream(b, sync)| == 16
    ensures Run(st, WordStream(b, sync)[..2 * k]) == Shifted(WordStream(b, sync), st.data, st.sync, k, st.track)
    decreases k
  {
    var ws := WordStream(b, sync);
    if k == 0 {
      assert ws[..0] == [] && Datas(ws)[..0] == [] && Clocks(ws)[..0] == [];
    } else {
      WordPrefix(st, b, sync, k - 1);
      ClocksNeverMark(b, sync, st.sync);
      PairStep(st, ws, k - 1);
      ShiftedStep(Run(st, ws[..2 * (k - 1)]), ws, st.data, st.sync, k);
    }
  }

  /**
   * The word-level round trip through the decoder itself: from a decoder
   * between words, the sixteen samples of the FM word of `b` append exactly
   * `b` to the output, whatever the sync flag, and leave the decoder between
   * words again, with the word's clock pattern as its clock history.
   */
  lemma WordRun(st: DecoderState, b: byte, sync: bool)
    requires Aligned(st)
    ensures Run(st, WordStream(b, sync)) == DecoderState(false, b, if sync then 0xFD else 0xFF, 0, st.track + [b])
    ensures Aligned(Run(st, WordStream(b, sync)))
  {
    var ws := WordStream(b, sync);
    var clock: byte := if sync then 0xFD else 0xFF;
    assert Accumulate(st.data, Datas(ws)) == b && Accumulate(st.sync, Clocks(ws)) == clock by {
      WordRegisters(b, sync, st.data, st.sync);
    }
    var prev := Run(st, ws[..14]);
    assert |ws| == 16 && prev == Shifted(ws, st.data, st.sync, 7, st.track) by {
      WordPrefix(st, b, sync, 7);
    }
    LastPairStep(st, ws);
    assert b == (prev.data << 1) | Bit(ws[15]) && clock == (prev.sync << 1) | Bit(ws[14]) by {
      LastShift(prev, ws, st.data, st.sync);
    }
    LastPair(prev, ws[14], ws[15], b, clock);
  }
}
