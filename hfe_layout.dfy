/**
 * The HFE container as the two converters see it. hfe2rdi checks the
 * 512-byte header, reads the track look-up table (LUT) and locates each
 * logical bit position of a track side in the interleaved track data;
 * rdi2hfe writes that header, an 80-entry LUT and, per track, 25 blocks of
 * 512 bytes whose first half carries side 1 and whose second half side 0.
 */
module HfeLayout {
  import opened Bytes
  import opened Wrappers

  /** Why hfe2rdi gives up on a file. `Truncated` stands for the IndexError
    * Python raises when a header or LUT byte lies past the end of the file. */
  datatype HfeError = NotHfe | UnknownFormat | NotRdi | UnsupportedBitrate(bitrate: nat) |
                      InvalidTrackLength(track: nat) | Truncated

  /** What the header fixes: flux bytes per logical bit and the LUT offset. */
  datatype HfeParams = HfeParams(bitLen: nat, lutOffset: nat)

  const Signature: seq<byte> := [0x48, 0x58, 0x43, 0x50, 0x49, 0x43, 0x46, 0x45] // "HXCPICFE"
  const Tracks := 80
  const BlockBytes := 512
  /** Logical bit positions per track side and flux bytes a track needs per
    * flux byte of a logical bit. */
  const TrackPositions := 3125
  const MinTrackLenPerBitLen := 6250

  /** The header fields hfe2rdi accepts. */
  predicate AcceptedHeader(hfe: seq<byte>)
  {
    |hfe| >= 20 && hfe[..8] == Signature && hfe[8] == 0 && hfe[9] == 80 && hfe[10] == 2 &&
    (Le16(hfe[12], hfe[13]) == 125 || Le16(hfe[12], hfe[13]) == 250)
  }

  /**
   * The header checks of hfe2rdi, in its order: signature, revision, tracks
   * and sides, bit rate (125 kbit/s is two flux bytes per logical bit, 250
   * is four), then the LUT offset in 512-byte blocks.
   */
  function ParseHeader(hfe: seq<byte>): (r: Result<HfeParams, HfeError>)
    ensures r.Success? <==> AcceptedHeader(hfe)
    ensures r.Success? ==> r.value.lutOffset == Le16(hfe[18], hfe[19]) * BlockBytes
    ensures r.Success? ==> (r.value.bitLen == 2 <==> Le16(hfe[12], hfe[13]) == 125) &&
                           (r.value.bitLen == 4 <==> Le16(hfe[12], hfe[13]) == 250)
    ensures |hfe| < 8 || hfe[..8] != Signature ==> r == Failure(NotHfe)
  {
    if |hfe| < 8 || hfe[..8] != Signature then Failure(NotHfe)
    else if |hfe| <= 8 then Failure(Truncated)
    else if hfe[8] != 0 then Failure(UnknownFormat)
    else if |hfe| <= 10 then Failure(Truncated)
    else if hfe[9] != 80 || hfe[10] != 2 then Failure(NotRdi)
    else if |hfe| <= 13 then Failure(Truncated)
    else
      var bitrate := Le16(hfe[12], hfe[13]);
      if bitrate != 125 && bitrate != 250 then Failure(UnsupportedBitrate(bitrate))
      else if |hfe| <= 19 then Failure(Truncated)
      else Success(HfeParams(if bitrate == 125 then 2 else 4, Le16(hfe[18], hfe[19]) * BlockBytes))
  }

  /** The LUT entry of `track`: the byte offset of its data and its length,
    * which must cover 6250 flux bytes per byte of a logical bit. */
  function TrackEntry(hfe: seq<byte>, p: HfeParams, track: nat): (r: Result<(nat, nat), HfeError>)
    ensures r.Success? ==> r.value.1 >= MinTrackLenPerBitLen * p.bitLen
    ensures r.Failure? ==> r.error == Truncated || r.error == InvalidTrackLength(track)
  {
    var i := p.lutOffset + track * 4;
    if i + 3 >= |hfe| then Failure(Truncated)
    else
      var len := Word16At(hfe, i + 2);
      if len < MinTrackLenPerBitLen * p.bitLen then Failure(InvalidTrackLength(track))
      else Success((Word16At(hfe, i) * BlockBytes, len))
  }

  /** The little-endian 16-bit field at byte `k`. */
  function Word16At(s: seq<byte>, k: nat): nat
    requires k + 1 < |s|
  {
    Le16(s[k], s[k + 1])
  }

  /**
   * Where hfe2rdi reads logical position `b` of side `side`: the position's
   * flux bytes counted through the track, in 256-byte halves of 512-byte
   * blocks, side 1 in the first half and side 0 in the second.
   */
  function RawOffset(trackOffs: nat, b: nat, bitLen: nat, side: nat): nat
    requires side <= 1
  {
    trackOffs + b * bitLen / 256 * 512 + (1 - side) * 256 + b * bitLen % 256
  }

  /** The formula splits into block, half and offset in the half. */
  lemma RawOffsetParts(p: nat, side: nat)
    requires side <= 1
    ensures var r := p / 256 * 512 + (1 - side) * 256 + p % 256;
      r / 512 == p / 256 && r % 512 / 256 == 1 - side && r % 256 == p % 256
  {
    var q, m := p / 256, p % 256;
    var h := (1 - side) * 256 + m;
    var r := q * 512 + h;
    Div512(r, q, h);
    Div256(h, 1 - side, m);
    Div256(r, 2 * q + 1 - side, m);
  }

  /**
   * The offset formula can be inverted: from the offset one gets back the
   * flux byte count `b * bitLen` and the side. So distinct positions or
   * sides never share a flux byte, side 1 always lies in the first half of a
   * block and side 0 in the second, and a position's `bitLen` bytes never
   * straddle a half.
   */
  lemma RawOffsetInverse(b: nat, bitLen: nat, side: nat)
    requires side <= 1 && (bitLen == 2 || bitLen == 4)
    ensures var r := RawOffset(0, b, bitLen, side);
      r / 512 * 256 + r % 256 == b * bitLen && r % 512 / 256 == 1 - side && r % 256 + bitLen <= 256
  {
    var p := b * bitLen;
    RawOffsetParts(p, side);
    var n := 256 / bitLen;
    var q, m := b / n, b % n;
    assert b == n * q + m;
    assert p == 256 * q + bitLen * m by {
      if bitLen == 2 {
        assert p == 2 * b;
      } else {
        assert p == 4 * b;
      }
    }
    assert bitLen * m + bitLen <= 256 by {
      if bitLen == 2 {
        assert m < 128;
      } else {
        assert m < 64;
      }
    }
    Div256(p, q, bitLen * m);
  }

  /** At 125 kbit/s position `b` is word `b % 128` of half-block `b / 128`. */
  lemma RawOffsetWords(trackOffs: nat, b: nat, side: nat)
    requires side <= 1
    ensures RawOffset(trackOffs, b, 2, side) == trackOffs + b / 128 * 512 + (1 - side) * 256 + 2 * (b % 128)
  {
    var q, m := b / 128, b % 128;
    Div256(b * 2, q, 2 * m);
  }

  /** `int.to_bytes(x, 2, 'little')`. */
  function LeBytes(x: nat): (r: seq<byte>)
    requires x < 0x1_0000
    ensures |r| == 2 && Le16(r[0], r[1]) == x
  {
    var lo := x % 256;
    var hi := x / 256;
    ByteOfValue(lo);
    ByteOfValue(hi);
    [ByteOf(lo), ByteOf(hi)]
  }

  /** The 20 header bytes rdi2hfe writes: signature, revision 0, 80 tracks,
    * 2 sides, FM encoding, 125 kbit/s, 300 rpm, interface 7, a 1, and the
    * LUT at block 1. */
  function Rdi2HfeHeader(): (h: seq<byte>)
    ensures |h| == 20
  {
    Signature + [0, 80, 2, 2] + LeBytes(125) + LeBytes(300) + [7, 1] + LeBytes(1)
  }

  /** The first 512 bytes of rdi2hfe's output: the header padded with 0xFF. */
  function HeaderBlock(): (h: seq<byte>)
    ensures |h| == BlockBytes
  {
    Rdi2HfeHeader() + Fill(0xFF, 512 - 20)
  }

  /** The LUT block rdi2hfe writes: track `i` at block `2 + 25 i`, 12504
    * bytes long, then 0xFF up to 512 bytes. */
  predicate LutLayout(lut: seq<byte>)
  {
    |lut| == BlockBytes &&
    (forall i :: 0 <= i < Tracks ==> LutOffset(lut, i) == 2 + 25 * i && LutLength(lut, i) == 12504) &&
    (forall j :: 4 * Tracks <= j < BlockBytes ==> lut[j] == 0xFF)
  }

  /** The two 16-bit fields of LUT entry `i`: first block and length. */
  function LutOffset(lut: seq<byte>, i: nat): nat
    requires 4 * i + 1 < |lut|
  {
    Le16(lut[4 * i], lut[4 * i + 1])
  }

  function LutLength(lut: seq<byte>, i: nat): nat
    requires 4 * i + 3 < |lut|
  {
    Le16(lut[4 * i + 2], lut[4 * i + 3])
  }

  /** The header rdi2hfe writes passes every check of hfe2rdi: two flux
    * bytes per logical bit, LUT at byte 512. */
  lemma HeaderAccepted(hfe: seq<byte>)
    requires |hfe| >= BlockBytes && hfe[..BlockBytes] == HeaderBlock()
    ensures ParseHeader(hfe) == Success(HfeParams(2, 512))
  {
    var h := Rdi2HfeHeader();
    HeaderFields();
    assert hfe[..20] == h by {
      assert hfe[..20] == hfe[..BlockBytes][..20];
      assert HeaderBlock()[..20] == h;
    }
    assert hfe[..8] == h[..8];
    assert hfe[8] == h[8] && hfe[9] == h[9] && hfe[10] == h[10];
    assert hfe[12] == h[12] && hfe[13] == h[13] && hfe[18] == h[18] && hfe[19] == h[19];
  }

  /** The fields hfe2rdi checks, read back from the header bytes. */
  lemma HeaderFields()
    ensures var h := Rdi2HfeHeader();
      h[..8] == Signature && h[8] == 0 && h[9] == 80 && h[10] == 2 &&
      Le16(h[12], h[13]) == 125 && Le16(h[18], h[19]) == 1
  {
    var h := Rdi2HfeHeader();
    var rate, tail := LeBytes(125), LeBytes(1);
    var front := Signature + [0, 80, 2, 2];
    assert h == front + rate + (LeBytes(300) + [7, 1]) + tail;
    assert h[12] == rate[0] && h[13] == rate[1];
    assert h[18] == tail[0] && h[19] == tail[1];
  }

  /**
   * The LUT rdi2hfe writes passes hfe2rdi's length check for every track
   * (12504 >= 2 * 6250), and track `t` starts at block `2 + 25 t`: right
   * after the header and LUT blocks and the `t` preceding tracks of 25
   * blocks each.
   */
  lemma LutAccepted(hfe: seq<byte>, t: nat)
    requires |hfe| >= 2 * BlockBytes && LutLayout(hfe[BlockBytes..2 * BlockBytes])
    requires t < Tracks
    ensures TrackEntry(hfe, HfeParams(2, 512), t) == Success(((2 + 25 * t) * BlockBytes, 12504))
  {
    var lut := hfe[BlockBytes..2 * BlockBytes];
    assert LutOffset(lut, t) == 2 + 25 * t && LutLength(lut, t) == 12504;
    LutFieldsInFile(hfe, t);
  }

  /** LUT entry `t` read from the LUT block or from the whole file. */
  lemma LutFieldsInFile(hfe: seq<byte>, t: nat)
    requires |hfe| >= 2 * BlockBytes && t < 128
    ensures Word16At(hfe, 512 + t * 4) == LutOffset(hfe[BlockBytes..2 * BlockBytes], t)
    ensures Word16At(hfe, 512 + t * 4 + 2) == LutLength(hfe[BlockBytes..2 * BlockBytes], t)
  {
  }
}
