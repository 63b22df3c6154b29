/**
 * The FM bit decoder of hfe2rdi: a small state machine that turns oversampled
 * flux bytes into data bytes, re-aligning byte boundaries on the FM address
 * mark pattern (data 0x06 under clock 0xFD).
 *
 * `DecoderState` and `Sample` are the value-level meaning of one flux sample;
 * the class `FmDecoder` is the object the converter mutates, and each of its
 * methods is proved to move the object's state along `Sample`.
 */
module FmDecoding {
  import opened Bytes

  /** The decoder's fields: phase flag, the two sliding accumulators, the bit
    * counter and the output buffer. */
  datatype DecoderState = DecoderState(isData: bool, data: byte, sync: byte, bitNum: nat, track: seq<byte>)

  /** Resynchronisation in the data phase: data 0x06 under clock 0xFD. */
  predicate DataMark(st: DecoderState)
  {
    st.isData && st.data == 0x06 && st.sync == 0xFD
  }

  /** Resynchronisation in the clock phase: the roles of the accumulators are
    * found to be the wrong way round. */
  predicate ClockMark(st: DecoderState)
  {
    !st.isData && st.sync == 0x06 && st.data == 0xFD
  }

  /** Shifts one sample into the accumulator of the current phase; a data
    * sample also counts one bit. */
  function Shift(st: DecoderState, bit: bool): DecoderState
  {
    var b: byte := if bit then 1 else 0;
    if st.isData then st.(data := (st.data << 1) | b, bitNum := st.bitNum + 1)
    else st.(sync := (st.sync << 1) | b)
  }

  /** The two marker rules, tested after the shift. */
  function Resync(st: DecoderState): DecoderState
  {
    if st.isData && st.data == 0x06 && st.sync == 0xFD then st.(bitNum := 8)
    else if !st.isData && st.sync == 0x06 && st.data == 0xFD then st.(data := st.sync, sync := st.data, isData := true, bitNum := 8)
    else st
  }

  /** A complete byte is appended to the output and the counter restarts. */
  function Emit(st: DecoderState): DecoderState
  {
    if st.bitNum == 8 then st.(track := st.track + [st.data], bitNum := 0) else st
  }

  /** One flux sample: shift, resynchronise, emit, then toggle the phase. */
  function Sample(st: DecoderState, bit: bool): (r: DecoderState)
    ensures st.bitNum < 8 ==> r.bitNum < 8
    ensures |st.track| <= |r.track| <= |st.track| + 1 && r.track[..|st.track|] == st.track
    ensures |r.track| == |st.track| + 1 ==> r.track[|st.track|] == r.data
    ensures DataMark(Shift(st, bit)) || ClockMark(Shift(st, bit)) ==> r.track == st.track + [0x06]
    ensures ClockMark(Shift(st, bit)) ==> !r.isData && r.data == 0x06 && r.sync == 0xFD
  {
    var e := Emit(Resync(Shift(st, bit)));
    e.(isData := !e.isData)
  }

  /** The state after a whole stream of samples. */
  function Run(st: DecoderState, samples: seq<bool>): DecoderState
    decreases |samples|
  {
    if samples == [] then st else Sample(Run(st, samples[..|samples| - 1]), samples[|samples| - 1])
  }

  /** `count` samples taken from `v`, lowest bit first, `step` bits apart. */
  function SampleBits(v: byte, step: nat, count: nat): (r: seq<bool>)
    ensures |r| == count
    decreases count
  {
    if count == 0 then [] else [v & 1 == 1] + SampleBits(Shr(v, step), step, count - 1)
  }

  /** The first of `count` samples is the low bit of `v`; the rest are
    * sampled from `v` shifted by one step. */
  lemma SampleBitsHead(v: byte, step: nat, count: nat)
    requires count > 0
    ensures (v & 1 == 0 || v & 1 == 1) && SampleBits(v, step, count)[0] == (v & 1 == 1)
    ensures SampleBits(v, step, count)[1..] == SampleBits(Shr(v, step), step, count - 1)
  {
  }

  /** The samples of one raw flux byte: `8 / step` of them, starting at bit
    * `step - 1`. */
  function ByteSamples(b: byte, step: nat): (r: seq<bool>)
    requires step >= 1
    ensures |r| == 8 / step
  {
    SampleBits(Shr(b, step - 1), step, 8 / step)
  }

  /** The samples of a run of raw flux bytes, in order. */
  function CodeSamples(code: seq<byte>, step: nat): (r: seq<bool>)
    requires step >= 1
    ensures |r| == |code| * (8 / step)
  {
    if code == [] then []
    else
      var r := ByteSamples(code[0], step) + CodeSamples(code[1..], step);
      assert |r| == 8 / step + (|code| - 1) * (8 / step);
      r
  }

  /** The output buffer cut or zero-padded to exactly one track side. */
  function FitTrack(t: seq<byte>): (r: seq<byte>)
    ensures |r| == TrackSideBytes
  {
    if |t| >= TrackSideBytes then t[..TrackSideBytes] else t + Fill(0, TrackSideBytes - |t|)
  }

  /** The side written holds the decoded bytes in order, as far as there are
    * any, and zeros after them. */
  lemma FitTrackContents(t: seq<byte>)
    ensures forall i :: 0 <= i < TrackSideBytes ==> FitTrack(t)[i] == if i < |t| then t[i] else 0
  {
  }

  /** Running two streams one after the other is running their concatenation. */
  lemma {:induction false} RunAppend(st: DecoderState, a: seq<bool>, b: seq<bool>)
    ensures Run(st, a + b) == Run(Run(st, a), b)
    decreases |b|
  {
    if b == [] {
      assert a + b == a;
    } else {
      var b' := b[..|b| - 1];
      assert (a + b)[..|a + b| - 1] == a + b';
      RunAppend(st, a, b');
    }
  }

  /** Running one more sample is one more `Sample` step. */
  lemma RunSnoc(st: DecoderState, samples: seq<bool>, s: bool)
    ensures Run(st, samples + [s]) == Sample(Run(st, samples), s)
  {
    assert (samples + [s])[..|samples|] == samples;
  }

  /** One step of sampling a raw byte: the next sample is the low bit of the
    * shifted byte, and running it extends the run by one `Sample`. */
  lemma SampleStep(st: DecoderState, all: seq<bool>, i: nat, v: byte, step: nat)
    requires i < |all| && SampleBits(v, step, |all| - i) == all[i..]
    ensures v & 1 == 0 || v & 1 == 1
    ensures all[i] == (v & 1 == 1)
    ensures SampleBits(Shr(v, step), step, |all| - i - 1) == all[i + 1..]
    ensures Run(st, all[..i + 1]) == Sample(Run(st, all[..i]), all[i])
  {
    SampleBitsHead(v, step, |all| - i);
    assert all[i] == all[i..][0];
    assert all[i + 1..] == all[i..][1..];
    assert all[..i + 1] == all[..i] + [all[i]];
    RunSnoc(st, all[..i], all[i]);
  }

  /** Over any stream the counter stays below 8, the output only grows, by at
    * most one byte per sample. */
  lemma {:induction false} RunBounds(st: DecoderState, samples: seq<bool>)
    requires st.bitNum < 8
    ensures Run(st, samples).bitNum < 8
    ensures |st.track| <= |Run(st, samples).track| <= |st.track| + |samples|
    ensures Run(st, samples).track[..|st.track|] == st.track
    decreases |samples|
  {
    if samples != [] {
      var prev := samples[..|samples| - 1];
      RunBounds(st, prev);
      var mid := Run(st, prev);
      assert mid.track[..|st.track|] == st.track;
      var r := Run(st, samples);
      assert r.track[..|mid.track|] == mid.track;
      assert r.track[..|st.track|] == mid.track[..|mid.track|][..|st.track|];
    }
  }

  /** Concatenated flux bytes give concatenated samples. */
  lemma {:induction false} CodeSamplesAppend(a: seq<byte>, b: seq<byte>, step: nat)
    requires step >= 1
    ensures CodeSamples(a + b, step) == CodeSamples(a, step) + CodeSamples(b, step)
    decreases |a|
  {
    if a == [] {
      assert a + b == b;
    } else {
      assert (a + b)[0] == a[0] && (a + b)[1..] == a[1..] + b;
      CodeSamplesAppend(a[1..], b, step);
    }
  }

  /** The samples of one more raw byte follow those of the bytes before it. */
  lemma CodeSamplesSnoc(code: seq<byte>, j: nat, step: nat)
    requires step >= 1 && j < |code|
    ensures CodeSamples(code[..j + 1], step) == CodeSamples(code[..j], step) + ByteSamples(code[j], step)
  {
    assert code[..j + 1] == code[..j] + [code[j]];
    CodeSamplesAppend(code[..j], [code[j]], step);
    assert [code[j]][1..] == [];
  }

  /** One logical position is `bitLen` flux bytes, and it always yields 16
    * samples: 2 bytes of 8 samples at 125 kbit/s, 4 bytes of 4 at 250. */
  lemma PositionSampleCount(code: seq<byte>, bitLen: nat)
    requires bitLen == 2 || bitLen == 4
    requires |code| == bitLen
    ensures |CodeSamples(code, bitLen / 2)| == 16
  {
  }

  /**
   * The decoder object. Its fields are those of the Python class; `bitOfs`
   * is reset by `NewTrack` but never read.
   */
  class FmDecoder {
    const step: nat
    var isData: bool
    var track: seq<byte>
    var bitOfs: nat
    var data: byte
    var sync: byte
    var bitNum: nat

    ghost predicate Valid()
      reads this
    {
      step >= 1 && bitNum < 8
    }

    /** The decoder's fields as a value. */
    function State(): DecoderState
      reads this
    {
      DecoderState(isData, data, sync, bitNum, track)
    }

    /** Only the constructor sets the phase, to the clock phase. */
    constructor (bitLen: nat)
      requires bitLen >= 2
      ensures Valid() && step == bitLen / 2 && bitOfs == 0
      ensures State() == DecoderState(false, 0, 0, 0, [])
    {
      step := bitLen / 2;
      isData := false;
      new;
      NewTrack();
    }

    /** Starts a new track side: empties the output, clears the accumulators
      * and the counter, and leaves the phase flag as it was. */
    method NewTrack()
      modifies this
      ensures State() == old(State()).(data := 0, sync := 0, bitNum := 0, track := [])
      ensures bitOfs == 0
    {
      track := [];
      bitOfs := 0;
      data := 0;
      sync := 0;
      bitNum := 0;
    }

    /** Feeds raw flux bytes: the new state is the old one run over their
      * samples. */
    method Decode(code: seq<byte>)
      requires Valid()
      modifies this
      ensures Valid() && bitOfs == old(bitOfs)
      ensures State() == Run(old(State()), CodeSamples(code, step))
    {
      ghost var start := State();
      var j := 0;
      while j < |code|
        invariant 0 <= j <= |code|
        invariant Valid() && bitOfs == old(bitOfs)
        invariant State() == Run(start, CodeSamples(code[..j], step))
      {
        DecodeByte(code[j]);
        CodeSamplesSnoc(code, j, step);
        RunAppend(start, CodeSamples(code[..j], step), ByteSamples(code[j], step));
        j := j + 1;
      }
      assert code[..|code|] == code;
    }

    /** One iteration of the outer loop of `decode`: the samples of one raw
      * byte, lowest sampled bit first. */
    method DecodeByte(raw: byte)
      requires Valid()
      modifies this
      ensures Valid() && bitOfs == old(bitOfs)
      ensures State() == Run(old(State()), ByteSamples(raw, step))
    {
      ghost var start := State();
      ghost var all := ByteSamples(raw, step);
      var b := Shr(raw, step - 1);
      var count := 8 / step;
      var i := 0;
      while i < count
        invariant 0 <= i <= count == |all|
        invariant Valid() && bitOfs == old(bitOfs)
        invariant SampleBits(b, step, count - i) == all[i..]
        invariant State() == Run(start, all[..i])
      {
        SampleStep(start, all, i, b, step);
        var bit := b & 1;
        Consume(bit);
        b := Shr(b, step);
        i := i + 1;
      }
      assert all[..count] == all;
    }

    /** The body of the inner loop of `decode`: one sample `bit` (0 or 1) is
      * shifted in and the marker rules applied, a complete byte is dumped,
      * and the phase toggles. */
    method Consume(bit: byte)
      requires bit == 0 || bit == 1
      modifies this
      ensures State() == Sample(old(State()), bit == 1) && bitOfs == old(bitOfs)
    {
      ShiftIn(bit);
      if bitNum == 8 {
        Dump();
      }
      isData := !isData;
    }

    /** The first half of a sample: the shift into the accumulator of the
      * current phase, then the two marker rules. */
    method ShiftIn(bit: byte)
      requires bit == 0 || bit == 1
      modifies this
      ensures State() == Resync(Shift(old(State()), bit == 1)) && bitOfs == old(bitOfs)
    {
      if isData {
        data := (data << 1) | bit;
        bitNum := bitNum + 1;
      } else {
        sync := (sync << 1) | bit;
      }
      if isData && data == 0x06 && sync == 0xFD {
        bitNum := 8;
      } else if !isData && sync == 0x06 && data == 0xFD {
        data, sync := sync, data;
        isData := true;
        bitNum := 8;
      }
    }

    /** Returns the first 3125 decoded bytes, zero-padded, and keeps them as
      * the buffer. */
    method GetTrack() returns (t: seq<byte>)
      modifies this
      ensures t == FitTrack(old(track)) && track == t
      ensures isData == old(isData) && data == old(data) && sync == old(sync)
      ensures bitNum == old(bitNum) && bitOfs == old(bitOfs)
    {
      track := if |track| > TrackSideBytes then track[..TrackSideBytes] else track;
      if |track| < TrackSideBytes {
        track := track + Fill(0, TrackSideBytes - |track|);
      }
      t := track;
    }

    /** Appends the data accumulator and restarts the bit counter. */
    method Dump()
      modifies this
      ensures track == old(track) + [data] && bitNum == 0
      ensures isData == old(isData) && data == old(data) && sync == old(sync) && bitOfs == old(bitOfs)
    {
      track := track + [data];
      bitNum := 0;
    }
  }
}
