/**
 * The track loops of the two converters. hfe2rdi feeds, side by side, the
 * flux bytes of every logical position to one `FmDecoder` and writes what
 * `get_track` returns; rdi2hfe locates the sync bytes of both sides of a
 * track and writes them FM-encoded in interleaved 256-byte halves.
 */
module HfeToRdiConvert {
  import opened Bytes
  import opened Wrappers
  import opened HfeLayout
  import opened FmDecoding

  /** A decoder as `FmDecoder(bit_len)` leaves it. */
  function InitialDecoder(): DecoderState
  {
    DecoderState(false, 0, 0, 0, [])
  }

  /** One side of a track: `new_track` (which keeps the phase flag), then
    * the flux bytes of all 3125 positions of the side. */
  function SideRun(st: DecoderState, hfe: seq<byte>, trackOffs: nat, bitLen: nat, side: nat, step: nat): DecoderState
    requires side <= 1 && step >= 1
  {
    PositionsRun(st.(data := 0, sync := 0, bitNum := 0, track := []), hfe, trackOffs, bitLen, side, TrackPositions, step)
  }

  /** The decoder state after the flux bytes of the first `n` positions of
    * a side, each read as a clamped slice at its raw offset. */
  function PositionsRun(st: DecoderState, hfe: seq<byte>, trackOffs: nat, bitLen: nat, side: nat, n: nat, step: nat): DecoderState
    requires side <= 1 && step >= 1
  {
    if n == 0 then st
    else
      var offs := RawOffset(trackOffs, n - 1, bitLen, side);
      Run(PositionsRun(st, hfe, trackOffs, bitLen, side, n - 1, step), CodeSamples(Slice(hfe, offs, offs + bitLen), step))
  }

  /** The first `n` sides of the track whose data starts at `trackOffs`:
    * the bytes written and the decoder state after the last `get_track`. */
  function SidesRun(st: DecoderState, hfe: seq<byte>, trackOffs: nat, bitLen: nat, n: nat): (r: (seq<byte>, DecoderState))
    requires bitLen >= 2 && n <= 2
    ensures |r.0| == n * TrackSideBytes
  {
    if n == 0 then ([], st)
    else
      var prev := SidesRun(st, hfe, trackOffs, bitLen, n - 1);
      var s := SideRun(prev.1, hfe, trackOffs, bitLen, n - 1, bitLen / 2);
      var t := FitTrack(s.track);
      (prev.0 + t, s.(track := t))
  }

  /** The tracks from `k` on, with decoder state `st` and output `out` so far:
    * side 0 then side 1 of each, or the first failing LUT entry. */
  function DecodeFrom(st: DecoderState, out: seq<byte>, hfe: seq<byte>, p: HfeParams, k: nat): (r: Result<seq<byte>, HfeError>)
    requires p.bitLen >= 2
    ensures r.Success? && k <= Tracks ==> |r.value| == |out| + (Tracks - k) * 2 * TrackSideBytes
    decreases Tracks - k
  {
    if k >= Tracks then Success(out)
    else
      match TrackEntry(hfe, p, k)
      case Failure(e) => Failure(e)
      case Success(entry) =>
        var run := SidesRun(st, hfe, entry.0, p.bitLen, 2);
        DecodeFrom(run.1, out + run.0, hfe, p, k + 1)
  }

  /** The RDI image hfe2rdi writes for `hfe`, or why it stops. */
  function DecodeImage(hfe: seq<byte>): Result<seq<byte>, HfeError>
  {
    match ParseHeader(hfe)
    case Failure(e) => Failure(e)
    case Success(p) => DecodeFrom(InitialDecoder(), [], hfe, p, 0)
  }

  /** A converted image has 80 tracks of two 3125-byte sides: 500000 bytes.
    * Any header failure is reported as such. */
  lemma DecodeImageShape(hfe: seq<byte>)
    ensures DecodeImage(hfe).Success? ==> |DecodeImage(hfe).value| == Tracks * 2 * TrackSideBytes
    ensures ParseHeader(hfe).Failure? ==> DecodeImage(hfe) == Failure(ParseHeader(hfe).error)
  {
    if ParseHeader(hfe).Success? {
    }
  }

  /**
   * The inner loop of hfe2rdi's `main` for one side: `new_track`, the flux
   * bytes of each of the 3125 positions through `decode`, then
   * `get_track`.
   */
  method ConvertSide(dec: FmDecoder, hfe: seq<byte>, trackOffs: nat, bitLen: nat, side: nat) returns (t: seq<byte>)
    requires dec.Valid() && side <= 1
    modifies dec
    ensures dec.Valid()
    ensures t == FitTrack(SideRun(old(dec.State()), hfe, trackOffs, bitLen, side, dec.step).track)
    ensures dec.State() == SideRun(old(dec.State()), hfe, trackOffs, bitLen, side, dec.step).(track := t)
  {
    dec.NewTrack();
    FeedSide(dec, hfe, trackOffs, bitLen, side, TrackPositions);
    t := dec.GetTrack();
  }

  /** The flux bytes of the first `n` positions of a side through `decode`. */
  method FeedSide(dec: FmDecoder, hfe: seq<byte>, trackOffs: nat, bitLen: nat, side: nat, n: nat)
    requires dec.Valid() && side <= 1
    modifies dec
    ensures dec.Valid()
    ensures dec.State() == PositionsRun(old(dec.State()), hfe, trackOffs, bitLen, side, n, dec.step)
  {
    ghost var start := dec.State();
    var b := 0;
    while b < n
      invariant 0 <= b <= n && dec.Valid()
      invariant dec.State() == PositionsRun(start, hfe, trackOffs, bitLen, side, b, dec.step)
    {
      FeedPosition(dec, hfe, trackOffs, bitLen, side, b, start);
      b := b + 1;
    }
  }

  /** One iteration of the inner loop: the flux bytes of position `b`, at
    * their raw offset and clamped to the file, through `decode`. */
  method FeedPosition(dec: FmDecoder, hfe: seq<byte>, trackOffs: nat, bitLen: nat, side: nat, b: nat, ghost start: DecoderState)
    requires dec.Valid() && side <= 1
    requires dec.State() == PositionsRun(start, hfe, trackOffs, bitLen, side, b, dec.step)
    modifies dec
    ensures dec.Valid()
    ensures dec.State() == PositionsRun(start, hfe, trackOffs, bitLen, side, b + 1, dec.step)
  {
    var offs := RawOffset(trackOffs, b, bitLen, side);
    var code := Slice(hfe, offs, offs + bitLen);
    dec.Decode(code);
    PositionsRunStep(start, hfe, trackOffs, bitLen, side, b, dec.step, code);
  }

  lemma PositionsRunStep(st: DecoderState, hfe: seq<byte>, trackOffs: nat, bitLen: nat, side: nat, b: nat, step: nat, code: seq<byte>)
    requires side <= 1 && step >= 1
    requires code == Slice(hfe, RawOffset(trackOffs, b, bitLen, side), RawOffset(trackOffs, b, bitLen, side) + bitLen)
    ensures PositionsRun(st, hfe, trackOffs, bitLen, side, b + 1, step) ==
            Run(PositionsRun(st, hfe, trackOffs, bitLen, side, b, step), CodeSamples(code, step))
  {
  }

  /** Both sides of one track, side 0 first, each written after its
    * `get_track`. */
  method ConvertTrack(dec: FmDecoder, hfe: seq<byte>, trackOffs: nat, bitLen: nat) returns (bytes: seq<byte>)
    requires dec.Valid() && bitLen >= 2 && dec.step == bitLen / 2
    modifies dec
    ensures dec.Valid()
    ensures (bytes, dec.State()) == SidesRun(old(dec.State()), hfe, trackOffs, bitLen, 2)
  {
    ghost var st0 := dec.State();
    bytes := [];
    var side := 0;
    while side < 2
      invariant 0 <= side <= 2 && dec.Valid()
      invariant (bytes, dec.State()) == SidesRun(st0, hfe, trackOffs, bitLen, side)
    {
      var t := ConvertSide(dec, hfe, trackOffs, bitLen, side);
      bytes := bytes + t;
      side := side + 1;
    }
  }

  /** hfe2rdi's `main` after reading the file: the header checks, then both
    * sides of all 80 tracks through one decoder. */
  method HfeToRdi(hfe: seq<byte>) returns (r: Result<seq<byte>, HfeError>)
    ensures r == DecodeImage(hfe)
  {
    var header := ParseHeader(hfe);
    if header.Failure? {
      return Failure(header.error);
    }
    var p := header.value;
    var dec := new FmDecoder(p.bitLen);
    var out: seq<byte> := [];
    var track := 0;
    while track < Tracks
      invariant 0 <= track <= Tracks && dec.Valid() && dec.step == p.bitLen / 2
      invariant DecodeFrom(dec.State(), out, hfe, p, track) == DecodeImage(hfe)
      decreases Tracks - track
    {
      var entry := TrackEntry(hfe, p, track);
      if entry.Failure? {
        return Failure(entry.error);
      }
      var bytes := ConvertTrack(dec, hfe, entry.value.0, p.bitLen);
      out := out + bytes;
      track := track + 1;
    }
    r := Success(out);
  }
}
