/**
 * The FM encoder of rdi2hfe: every data byte becomes one 16-bit cell word in
 * which each data bit, least significant first, is preceded in time by a
 * clock bit that is always 1, except that a sync flag suppresses the clock of
 * data bit 1. The words are emitted low byte first.
 */
module FmEncoding {
  import opened Bytes

  /** Every clock cell of a word: the even bit positions. */
  const ClockCells: word := 0x5555

  /** The clock cell that a sync flag clears: bit 12, the clock of data bit 1. */
  const SyncCell: word := 0x1000

  /** Each encoded block is padded with this byte up to `MinBlockBytes`. */
  const PadByte: byte := 0x55
  const MinBlockBytes := 256

  /** The data bits of `b` placed in the odd cells of a word: bit k of the
    * byte goes to bit 15 - 2k. */
  function Spread(b: byte): word
  {
    (if b & 0x01 != 0 then 0x8000 else 0) | (if b & 0x02 != 0 then 0x2000 else 0) |
    (if b & 0x04 != 0 then 0x0800 else 0) | (if b & 0x08 != 0 then 0x0200 else 0) |
    (if b & 0x10 != 0 then 0x0080 else 0) | (if b & 0x20 != 0 then 0x0020 else 0) |
    (if b & 0x40 != 0 then 0x0008 else 0) | (if b & 0x80 != 0 then 0x0002 else 0)
  }

  /** The FM word of a byte: the data cells carry the byte, every clock cell
    * is 1 except the one a sync flag clears. */
  function FmWord(b: byte, sync: bool): (w: word)
    ensures w & 0xAAAA == Spread(b)
    ensures w & ClockCells == if sync then ClockCells & !SyncCell else ClockCells
  {
    var w := Spread(b) | ClockCells;
    if sync then w & !SyncCell else w
  }

  /** The word after the inner loop has consumed `n` bits of `b`: each bit
    * shifts in a pair, 11 for a one and 01 for a zero. */
  function Interleave(b: byte, n: nat): word
  {
    if n == 0 then 0 else (Interleave(b, n - 1) << 2) | (if Shr(b, n - 1) & 1 == 1 then 3 else 1)
  }

  /** Eight steps of the inner loop give the unsynchronised FM word. */
  lemma InterleaveIsFmWord(b: byte)
    ensures Interleave(b, 8) == FmWord(b, false)
  {
    var w1 := Interleave(b, 1);
    var w2 := Interleave(b, 2);
    var w3 := Interleave(b, 3);
    var w4 := Interleave(b, 4);
    var w5 := Interleave(b, 5);
    var w6 := Interleave(b, 6);
    var w7 := Interleave(b, 7);
    assert Shr(b, 7) == b >> 1 >> 1 >> 1 >> 1 >> 1 >> 1 >> 1;
  }

  /** A zero byte without sync is the 0x55 0x55 padding pair. */
  lemma PaddingIsZero()
    ensures Lo(FmWord(0, false)) == PadByte && Hi(FmWord(0, false)) == PadByte
  {
  }

  /** A sync flag changes exactly one cell, the clock of data bit 1. */
  lemma SyncClearsOneClock(b: byte)
    ensures FmWord(b, true) == FmWord(b, false) & !SyncCell
    ensures FmWord(b, false) & SyncCell == SyncCell
  {
  }

  /** The inner loop of `fm_encode_block`: the byte's bits, least
    * significant first, each shift in a cell pair, then a sync flag clears
    * the clock of bit 1. */
  method EncodeWord(src: byte, sync: bool) returns (w: word)
    ensures w == FmWord(src, sync)
  {
    var b := src;
    w := 0;
    var i := 0;
    while i < 8
      invariant 0 <= i <= 8
      invariant w == Interleave(src, i) && b == Shr(src, i)
    {
      w := w << 2;
      if b & 1 == 1 {
        w := w | 3;
      } else {
        w := w | 1;
      }
      b := b >> 1;
      i := i + 1;
    }
    InterleaveIsFmWord(src);
    SyncClearsOneClock(src);
    if sync {
      w := w & 0xEFFF;
    }
  }

  /** The words of the first `n` pairs of `src` and `sync`, low byte first. */
  function FmPairs(src: seq<byte>, sync: seq<bool>, n: nat): (r: seq<byte>)
    requires n <= |src| && n <= |sync|
    ensures |r| == 2 * n
  {
    if n == 0 then []
    else
      var w := FmWord(src[n - 1], sync[n - 1]);
      FmPairs(src, sync, n - 1) + [Lo(w), Hi(w)]
  }

  /** The block `fm_encode_block` returns: the words of all pairs the two
    * sequences have in common, padded with 0x55 to at least 256 bytes. */
  function FmBlock(src: seq<byte>, sync: seq<bool>): seq<byte>
  {
    var n := if |src| < |sync| then |src| else |sync|;
    var words := FmPairs(src, sync, n);
    if |words| < MinBlockBytes then words + Fill(PadByte, MinBlockBytes - |words|) else words
  }

  /** Byte `2k` of the words is the low byte of the word of pair `k` and
    * byte `2k + 1` its high byte. */
  lemma {:induction false} FmPairsContents(src: seq<byte>, sync: seq<bool>, n: nat)
    requires n <= |src| && n <= |sync|
    ensures forall k :: 0 <= k < n ==>
      FmPairs(src, sync, n)[2 * k] == Lo(FmWord(src[k], sync[k])) &&
      FmPairs(src, sync, n)[2 * k + 1] == Hi(FmWord(src[k], sync[k]))
  {
    if n > 0 {
      FmPairsContents(src, sync, n - 1);
    }
  }

  /**
   * A block is 256 bytes for up to 128 pairs and two bytes per pair beyond:
   * pair `k` is encoded at bytes `2k` and `2k + 1`, and everything after the
   * last pair is padding.
   */
  lemma FmBlockContents(src: seq<byte>, sync: seq<bool>)
    ensures var n := if |src| < |sync| then |src| else |sync|;
      var fm := FmBlock(src, sync);
      |fm| == (if 2 * n < MinBlockBytes then MinBlockBytes else 2 * n) &&
      (forall k :: 0 <= k < n ==> fm[2 * k] == Lo(FmWord(src[k], sync[k])) && fm[2 * k + 1] == Hi(FmWord(src[k], sync[k]))) &&
      (forall i :: 2 * n <= i < |fm| ==> fm[i] == PadByte)
  {
    var n := if |src| < |sync| then |src| else |sync|;
    FmPairsContents(src, sync, n);
  }

  /** `fm_encode_block`: the pairs of `src` and `sync`, as far as the shorter
    * reaches, each through the word loop, then the 0x55 padding. */
  method FmEncodeBlock(src: seq<byte>, sync: seq<bool>) returns (fm: seq<byte>)
    ensures fm == FmBlock(src, sync)
  {
    var n := if |src| < |sync| then |src| else |sync|;
    fm := [];
    var j := 0;
    while j < n
      invariant 0 <= j <= n && fm == FmPairs(src, sync, j)
    {
      var w := EncodeWord(src[j], sync[j]);
      fm := fm + [(w & 0xFF) as byte, (w >> 8) as byte];
      j := j + 1;
    }
    if |fm| < MinBlockBytes {
      fm := fm + Fill(PadByte, MinBlockBytes - |fm|);
    }
  }
}
