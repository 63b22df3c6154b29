/**
 * bin2tape: the tape-file wrappers put around a binary body for the various
 * RK-family and related machines. A wrapper is a packed header, the body and
 * a packed footer; the footer of most formats carries one of three 16-bit
 * checksums (RK, RKM, RKU). Checksums are `uint16_t` in the source: here they
 * are integers reduced modulo 2^16 explicitly, except the RKM one, which is
 * a bit-wise XOR and kept as a 16-bit bit-vector.
 */
module Tape {
  import opened Bytes

  /** A value of the source's `uint16_t`. */
  type u16 = x: int | 0 <= x < 0x1_0000

  const Modulus := 0x1_0000

  /** `loadFile` refuses input files longer than this. */
  const MaxBodySize := 0x1_0000

  /** The CAS signature, written twice into a CAS header. */
  const CasSignature: seq<uint8> := [0x1F, 0xA6, 0xDE, 0xBA, 0xCC, 0x13, 0x7D, 0x74]

  /** The LVT signature: ASCII "LVOV/2.0/". */
  const LvtSignature: seq<uint8> := [0x4C, 0x56, 0x4F, 0x56, 0x2F, 0x32, 0x2E, 0x30, 0x2F]

  /** The sync byte that precedes a checksum on tape. */
  const TapeSync: uint8 := 0xE6

  datatype TapeFileFormat = Rk | Rkp | Rkm | Rku | Rk4 | Rks | Rko | Bru | Cas | Lvt

  /** A little-endian 16-bit value. */
  function LeWord(lo: uint8, hi: uint8): (v: nat)
    ensures v < 0x1_0000
  {
    lo + hi * 256
  }

  /** A big-endian 16-bit value, as RK-style headers and footers store it. */
  function Be16(hi: uint8, lo: uint8): (v: nat)
    ensures v < 0x1_0000
  {
    hi * 256 + lo
  }

  // ---------------------------------------------------------------------
  // Checksums

  /** One iteration of `addToRkCs`: the byte is added to the checksum and,
    * shifted by 8, once more; the `uint16_t` drops the carry out. */
  function RkStep(cs: u16, b: uint8): u16
  {
    (cs + b as int * 257) % Modulus
  }

  /** The loop of `addToRkCs` over all of `data`. */
  function RkRun(cs: u16, data: seq<uint8>): u16
  {
    if data == [] then cs else RkStep(RkRun(cs, data[..|data| - 1]), data[|data| - 1])
  }

  /** The final byte of a last chunk: added into the low byte only, the high
    * byte kept as it was. */
  function RkLast(cs: u16, b: uint8): u16
  {
    cs / 256 * 256 + (cs + b as int) % 256
  }

  /** What `addToRkCs(baseCs, data, len, lastChunk)` returns. */
  function RkChecksum(base: u16, data: seq<uint8>, lastChunk: bool): u16
    requires lastChunk ==> |data| > 0
  {
    if lastChunk then RkLast(RkRun(base, data[..|data| - 1]), data[|data| - 1]) else RkRun(base, data)
  }

  /** Reducing early changes nothing modulo 2^16. */
  lemma ModAdd(x: int, y: int)
    ensures (x % Modulus + y) % Modulus == (x + y) % Modulus
  {
  }

  /**
   * The RK checksum is every byte added into both halves: the checksum
   * grows by 257 times each byte, modulo 2^16.
   */
  lemma {:induction false} RkRunIsWeightedSum(cs: u16, data: seq<uint8>)
    ensures RkRun(cs, data) == (cs + 257 * Sum(data)) % Modulus
  {
    if data != [] {
      var p, b := data[..|data| - 1], data[|data| - 1];
      RkRunIsWeightedSum(cs, p);
      ModAdd(cs + 257 * Sum(p), 257 * b as int);
    }
  }

  /** The last byte of a final chunk reaches only the low byte: the high byte
    * is unchanged and the low byte wraps without carry. */
  lemma RkLastLowOnly(cs: u16, b: uint8)
    ensures RkLast(cs, b) / 256 == cs / 256
    ensures RkLast(cs, b) % 256 == (cs % 256 + b as int) % 256
  {
  }

  /** Checksumming two chunks one after the other is checksumming their
    * concatenation. */
  lemma {:induction false} RkRunAppend(cs: u16, a: seq<uint8>, b: seq<uint8>)
    ensures RkRun(cs, a + b) == RkRun(RkRun(cs, a), b)
    decreases |b|
  {
    if b == [] {
      assert a + b == a;
    } else {
      assert (a + b)[..|a + b| - 1] == a + b[..|b| - 1];
      RkRunAppend(cs, a, b[..|b| - 1]);
    }
  }

  /** The two additions of one iteration of `addToRkCs`, each wrapped. */
  lemma TwoAdds(cs: u16, b: uint8)
    ensures ((cs + b as int) % Modulus + b as int * 256) % Modulus == RkStep(cs, b)
  {
    ModAdd(cs + b as int, b as int * 256);
  }

  /** `addToRkCs`. */
  method AddToRkCs(baseCs: u16, data: seq<uint8>, lastChunk: bool) returns (cs: u16)
    requires lastChunk ==> |data| > 0
    ensures cs == RkChecksum(baseCs, data, lastChunk)
  {
    var len := |data|;
    if lastChunk {
      len := len - 1;
    }
    cs := baseCs;
    var i := 0;
    while i < len
      invariant 0 <= i <= len
      invariant cs == RkRun(baseCs, data[..i])
    {
      TwoAdds(cs, data[i]);
      cs := (cs + data[i] as int) % Modulus;
      cs := (cs + data[i] as int * 256) % Modulus;
      assert data[..i + 1][..i] == data[..i];
      i := i + 1;
    }
    if lastChunk {
      assert data[..len] == data[..|data| - 1];
      cs := cs / 256 * 256 + (cs + data[len] as int) % 256;
    } else {
      assert data[..len] == data;
    }
  }

  /**
   * `calcRkCs`: the whole body as one last chunk. The source decrements the
   * length and reads `data[len]`, so an empty body would read before it.
   * The result is the weighted sum of all but the last byte, with the last
   * byte added into the low half only.
   */
  method CalcRkCs(data: seq<uint8>) returns (cs: u16)
    requires |data| > 0
    ensures cs == RkChecksum(0, data, true)
    ensures var w := 257 * Sum(data[..|data| - 1]) % Modulus;
      cs / 256 == w / 256 && cs % 256 == (w + data[|data| - 1]) % 256
  {
    cs := AddToRkCs(0, data, true);
    RkRunIsWeightedSum(0, data[..|data| - 1]);
    RkLastLowOnly(RkRun(0, data[..|data| - 1]), data[|data| - 1]);
  }

  /** The bytes at even positions of `s`. */
  function Evens(s: seq<uint8>): (r: seq<uint8>)
    ensures |r| == (|s| + 1) / 2 && forall k :: 0 <= k < |r| ==> r[k] == s[2 * k]
  {
    seq((|s| + 1) / 2, k requires 0 <= k < (|s| + 1) / 2 => s[2 * k])
  }

  /** The bytes at odd positions of `s`. */
  function Odds(s: seq<uint8>): (r: seq<uint8>)
    ensures |r| == |s| / 2 && forall k :: 0 <= k < |r| ==> r[k] == s[2 * k + 1]
  {
    seq(|s| / 2, k requires 0 <= k < |s| / 2 => s[2 * k + 1])
  }

  /** A byte as the 8-bit vector the XOR checksum works on. */
  function Bits(x: uint8): bv8
  {
    x as bv8
  }

  /** All bytes of `s` XOR-ed together. */
  function XorAll(s: seq<uint8>): bv8
  {
    if s == [] then 0 else XorAll(s[..|s| - 1]) ^ Bits(s[|s| - 1])
  }

  /** The loop of `calcRkmCs`: byte `i` is XOR-ed into the low half when `i`
    * is even and into the high half when it is odd. */
  function RkmRun(data: seq<uint8>): bv16
  {
    if data == [] then 0
    else
      var i := |data| - 1;
      RkmRun(data[..i]) ^ (if i % 2 == 1 then (Bits(data[i]) as bv16) << 8 else Bits(data[i]) as bv16)
  }

  /** Two 8-bit halves side by side in a 16-bit word. */
  function Halves(hi: bv8, lo: bv8): bv16
  {
    ((hi as bv16) << 8) | (lo as bv16)
  }

  /** XOR-ing a shifted byte touches only the high half, an unshifted one
    * only the low half. */
  lemma XorIntoHalves(hi: bv8, lo: bv8, x: bv8)
    ensures Halves(hi, lo) ^ ((x as bv16) << 8) == Halves(hi ^ x, lo)
    ensures Halves(hi, lo) ^ (x as bv16) == Halves(hi, lo ^ x)
  {
  }

  /** A 16-bit word is its high byte times 256 plus its low byte. */
  lemma SplitWord(w: bv16)
    ensures w as int == (w >> 8) as int * 256 + (w & 0xFF) as int
  {
  }

  /** Widening a byte keeps its value. */
  lemma Widen(b: bv8)
    ensures (b as bv16) as int == b as int
  {
  }

  /** The two halves can be read back from the word. */
  lemma HalvesParts(hi: bv8, lo: bv8)
    ensures Halves(hi, lo) >> 8 == hi as bv16 && Halves(hi, lo) & 0xFF == lo as bv16
  {
  }

  /** The value of two halves side by side. */
  lemma HalvesValue(hi: bv8, lo: bv8)
    ensures Halves(hi, lo) as int == hi as int * 256 + lo as int
  {
    SplitWord(Halves(hi, lo));
    HalvesParts(hi, lo);
    Widen(hi);
    Widen(lo);
  }

  /** One more byte extends the even or the odd positions by one. */
  lemma EvensOddsSnoc(s: seq<uint8>)
    requires |s| > 0
    ensures var i := |s| - 1;
      if i % 2 == 0 then Evens(s) == Evens(s[..i]) + [s[i]] && Odds(s) == Odds(s[..i])
      else Odds(s) == Odds(s[..i]) + [s[i]] && Evens(s) == Evens(s[..i])
  {
  }

  /** The RKM checksum is two independent XORs: the even-position bytes in
    * the low half and the odd-position bytes in the high half. */
  lemma {:induction false} RkmHalves(data: seq<uint8>)
    ensures RkmRun(data) == Halves(XorAll(Odds(data)), XorAll(Evens(data)))
  {
    if data == [] {
      assert Odds(data) == [] && Evens(data) == [];
    } else {
      RkmHalves(data[..|data| - 1]);
      RkmHalvesStep(data);
    }
  }

  /** The step of `RkmHalves`: one byte more goes into its half. */
  lemma RkmHalvesStep(data: seq<uint8>)
    requires |data| > 0
    requires var p := data[..|data| - 1]; RkmRun(p) == Halves(XorAll(Odds(p)), XorAll(Evens(p)))
    ensures RkmRun(data) == Halves(XorAll(Odds(data)), XorAll(Evens(data)))
  {
    EvensOddsSnoc(data);
    if (|data| - 1) % 2 == 0 {
      RkmEvenStep(data);
    } else {
      RkmOddStep(data);
    }
  }

  lemma RkmEvenStep(data: seq<uint8>)
    requires |data| > 0 && (|data| - 1) % 2 == 0
    requires var p := data[..|data| - 1]; RkmRun(p) == Halves(XorAll(Odds(p)), XorAll(Evens(p)))
    requires var p := data[..|data| - 1]; Evens(data) == Evens(p) + [data[|data| - 1]] && Odds(data) == Odds(p)
    ensures RkmRun(data) == Halves(XorAll(Odds(data)), XorAll(Evens(data)))
  {
    var i := |data| - 1;
    var p := data[..i];
    XorAllSnoc(Evens(p), data[i]);
    RkmLowStep(RkmRun(p), XorAll(Odds(p)), XorAll(Evens(p)), Bits(data[i]));
  }

  lemma RkmOddStep(data: seq<uint8>)
    requires |data| > 0 && (|data| - 1) % 2 == 1
    requires var p := data[..|data| - 1]; RkmRun(p) == Halves(XorAll(Odds(p)), XorAll(Evens(p)))
    requires var p := data[..|data| - 1]; Odds(data) == Odds(p) + [data[|data| - 1]] && Evens(data) == Evens(p)
    ensures RkmRun(data) == Halves(XorAll(Odds(data)), XorAll(Evens(data)))
  {
    var i := |data| - 1;
    var p := data[..i];
    XorAllSnoc(Odds(p), data[i]);
    RkmHighStep(RkmRun(p), XorAll(Odds(p)), XorAll(Evens(p)), Bits(data[i]));
  }

  lemma RkmLowStep(w: bv16, o: bv8, e: bv8, x: bv8)
    requires w == Halves(o, e)
    ensures w ^ (x as bv16) == Halves(o, e ^ x)
  {
    XorIntoHalves(o, e, x);
  }

  lemma RkmHighStep(w: bv16, o: bv8, e: bv8, x: bv8)
    requires w == Halves(o, e)
    ensures w ^ ((x as bv16) << 8) == Halves(o ^ x, e)
  {
    XorIntoHalves(o, e, x);
  }

  /** XOR-ing one more byte. */
  lemma XorAllSnoc(s: seq<uint8>, x: uint8)
    ensures XorAll(s + [x]) == XorAll(s) ^ Bits(x)
  {
    assert (s + [x])[..|s|] == s;
  }

  /**
   * `calcRkmCs`. Its counter is a `uint16_t`, so a body of 65536 bytes (which
   * `loadFile` admits) would never end the loop.
   */
  method CalcRkmCs(data: seq<uint8>) returns (cs: bv16)
    requires |data| < 0x1_0000
    ensures cs == Halves(XorAll(Odds(data)), XorAll(Evens(data)))
  {
    cs := 0;
    var i := 0;
    while i < |data|
      invariant 0 <= i <= |data|
      invariant cs == RkmRun(data[..i])
    {
      assert data[..i + 1][..i] == data[..i];
      cs := cs ^ (if i % 2 == 1 then (Bits(data[i]) as bv16) << 8 else Bits(data[i]) as bv16);
      i := i + 1;
    }
    assert data[..|data|] == data;
    RkmHalves(data);
  }

  /** `calcRkuCs`: the plain sum of the bytes modulo 2^16; the same 65536-byte
    * limit as `calcRkmCs` applies. */
  method CalcRkuCs(data: seq<uint8>) returns (cs: u16)
    requires |data| < 0x1_0000
    ensures cs == Sum(data) % Modulus
  {
    cs := 0;
    var i := 0;
    while i < |data|
      invariant 0 <= i <= |data|
      invariant cs == Sum(data[..i]) % Modulus
    {
      assert data[..i + 1][..i] == data[..i];
      ModAdd(Sum(data[..i]), data[i] as int);
      cs := (cs + data[i] as int) % Modulus;
      i := i + 1;
    }
    assert data[..|data|] == data;
  }

  // ---------------------------------------------------------------------
  // Internal file names

  /** The bytes an internal file name may hold: digits, capitals, space and
    * '-'. */
  predicate IsIntNameChar(c: uint8)
  {
    IsDigit(c) || IsUpper(c) || c == 0x20 || c == 0x2D
  }

  /** One character of an internal name: digits, capitals and space kept,
    * small letters capitalised, anything else '-'. */
  function IntNameChar(c: uint8): (r: uint8)
    ensures IsIntNameChar(r)
    ensures IsLower(c) ==> r == c - 0x20
    ensures IsIntNameChar(c) ==> r == c
  {
    if IsDigit(c) || IsUpper(c) || IsLower(c) || c == 0x20 then
      (if IsLower(c) then c - 0x20 else c)
    else 0x2D
  }

  /** The part of a name `makeIntName` reads: up to the first '.', and, as a
    * C string, up to the first NUL. */
  function IntNameStem(baseName: seq<uint8>): (r: seq<uint8>)
    ensures forall j :: 0 <= j < |r| ==> r[j] != 0x2E && r[j] != 0
  {
    var cut := baseName[..FirstIndex(baseName, 0x2E)];
    cut[..FirstIndex(cut, 0)]
  }

  /**
   * `makeIntName`: the first `len` characters of the stem, each mapped by
   * `IntNameChar`, space-padded to `len`. The source fills a static 8-byte
   * buffer, so `len` is at most 8.
   */
  method MakeIntName(baseName: seq<uint8>, len: nat) returns (name: seq<uint8>)
    requires len <= 8
    ensures |name| == len
    ensures var stem := IntNameStem(baseName);
      forall i :: 0 <= i < len ==> name[i] == if i < |stem| then IntNameChar(stem[i]) else 0x20
    ensures forall i :: 0 <= i < len ==> IsIntNameChar(name[i])
  {
    var cut := baseName[..FirstIndex(baseName, 0x2E)];
    ghost var stem := IntNameStem(baseName);
    name := [];
    var i := 0;
    while i < len
      invariant 0 <= i <= len && |name| == i && i <= |stem|
      invariant forall j :: 0 <= j < i ==> name[j] == IntNameChar(stem[j])
    {
      var ch: uint8 := if i < |cut| then cut[i] else 0;
      if ch == 0 {
        break;
      }
      assert i < |stem|;
      if IsDigit(ch) || IsUpper(ch) || IsLower(ch) || ch == 0x20 {
        ch := if IsLower(ch) then ch - 0x20 else ch;
      } else {
        ch := 0x2D;
      }
      name := name + [ch];
      i := i + 1;
    }
    while i < len
      invariant |name| == i <= len
      invariant forall j :: 0 <= j < i ==> name[j] == if j < |stem| then IntNameChar(stem[j]) else 0x20
    {
      name := name + [0x20];
      i := i + 1;
    }
  }

  // ---------------------------------------------------------------------
  // Packed header and footer layouts

  datatype RkHeader = RkHeader(loadAddrHi: uint8, loadAddrLo: uint8, endAddrHi: uint8, endAddrLo: uint8)
  {
    function Pack(): (r: seq<uint8>)
      ensures |r| == 4
    {
      [loadAddrHi, loadAddrLo, endAddrHi, endAddrLo]
    }
  }

  datatype RkFooter = RkFooter(nullByte1: uint8, nullByte2: uint8, syncByte: uint8, csHi: uint8, csLo: uint8)
  {
    function Pack(): (r: seq<uint8>)
      ensures |r| == 5
    {
      [nullByte1, nullByte2, syncByte, csHi, csLo]
    }
  }

  datatype RkpFooter = RkpFooter(nullByte: uint8, syncByte: uint8, csHi: uint8, csLo: uint8)
  {
    function Pack(): (r: seq<uint8>)
      ensures |r| == 4
    {
      [nullByte, syncByte, csHi, csLo]
    }
  }

  datatype Rk4Footer = Rk4Footer(nullBytes: seq<uint8>, syncByte: uint8, csHi1: uint8, csLo1: uint8, csHi2: uint8, csLo2: uint8)
  {
    predicate Valid() { |nullBytes| == 16 }

    function Pack(): (r: seq<uint8>)
      requires Valid()
      ensures |r| == 21
    {
      nullBytes + [syncByte, csHi1, csLo1, csHi2, csLo2]
    }
  }

  datatype RkmFooter = RkmFooter(csHi: uint8, csLo: uint8)
  {
    function Pack(): (r: seq<uint8>)
      ensures |r| == 2
    {
      [csHi, csLo]
    }
  }

  datatype RksHeader = RksHeader(loadAddrLo: uint8, loadAddrHi: uint8, endAddrLo: uint8, endAddrHi: uint8)
  {
    function Pack(): (r: seq<uint8>)
      ensures |r| == 4
    {
      [loadAddrLo, loadAddrHi, endAddrLo, endAddrHi]
    }
  }

  datatype RksFooter = RksFooter(csLo: uint8, csHi: uint8)
  {
    function Pack(): (r: seq<uint8>)
      ensures |r| == 2
    {
      [csLo, csHi]
    }
  }

  datatype BruHeader = BruHeader(name: seq<uint8>, loadAddrLo: uint8, loadAddrHi: uint8, lenLo: uint8, lenHi: uint8,
                                 attr: uint8, ff: seq<uint8>)
  {
    predicate Valid() { |name| == 8 && |ff| == 3 }

    function Pack(): (r: seq<uint8>)
      requires Valid()
      ensures |r| == 16
    {
      name + [loadAddrLo, loadAddrHi, lenLo, lenHi, attr] + ff
    }
  }

  datatype RkoHeader = RkoHeader(name: seq<uint8>, nullBytes: seq<uint8>, syncByte: uint8, loadAddrLo: uint8,
                                 loadAddrHi: uint8, lenHi: uint8, lenLo: uint8, bruHeader: BruHeader)
  {
    predicate Valid() { |name| == 8 && |nullBytes| == 64 && bruHeader.Valid() }

    function Pack(): (r: seq<uint8>)
      requires Valid()
      ensures |r| == RkoHeaderSize
    {
      name + nullBytes + [syncByte, loadAddrLo, loadAddrHi, lenHi, lenLo] + bruHeader.Pack()
    }
  }

  /** `sizeof(RkoHeader)`. */
  const RkoHeaderSize := 93

  datatype RkoFooter = RkoFooter(padding: seq<uint8>, syncByte: uint8, csHi: uint8, csLo: uint8)
  {
    predicate Valid() { |padding| == 15 }

    function Pack(): (r: seq<uint8>)
      requires Valid()
      ensures |r| == 18
    {
      padding + [syncByte, csHi, csLo]
    }
  }

  datatype CasHeader = CasHeader(casSignature1: seq<uint8>, d0: seq<uint8>, name: seq<uint8>, padding: seq<uint8>,
                                 casSignature2: seq<uint8>, loadAddrLo: uint8, loadAddrHi: uint8, endAddrLo: uint8,
                                 endAddrHi: uint8, runAddrLo: uint8, runAddrHi: uint8)
  {
    predicate Valid()
    {
      |casSignature1| == 8 && |d0| == 10 && |name| == 6 && |padding| == 8 && |casSignature2| == 8
    }

    function Pack(): (r: seq<uint8>)
      requires Valid()
      ensures |r| == 46
    {
      casSignature1 + d0 + name + padding + casSignature2 +
      [loadAddrLo, loadAddrHi, endAddrLo, endAddrHi, runAddrLo, runAddrHi]
    }
  }

  datatype LvtHeader = LvtHeader(lvtSignature: seq<uint8>, d0: uint8, name: seq<uint8>, loadAddrLo: uint8,
                                 loadAddrHi: uint8, endAddrLo: uint8, endAddrHi: uint8, runAddrLo: uint8, runAddrHi: uint8)
  {
    predicate Valid() { |lvtSignature| == 9 && |name| == 6 }

    function Pack(): (r: seq<uint8>)
      requires Valid()
      ensures |r| == 22
    {
      lvtSignature + [d0] + name + [loadAddrLo, loadAddrHi, endAddrLo, endAddrHi, runAddrLo, runAddrHi]
    }
  }

  // ---------------------------------------------------------------------
  // The header and footer of each format

  /** What `convert` demands of its arguments: the bodies `loadFile` admits,
    * a non-empty body where `calcRkCs` runs, a body the 16-bit counters of
    * `calcRkmCs`/`calcRkuCs` can pass, and an internal name of the length
    * `main` asks `makeIntName` for. */
  predicate ConvertArgs(body: seq<uint8>, format: TapeFileFormat, intFileName: seq<uint8>)
  {
    |body| <= MaxBodySize &&
    (format in {Rk, Rkp, Rk4, Rks} ==> |body| > 0) &&
    (format in {Rkm, Rku} ==> |body| < 0x1_0000) &&
    (format in {Bru, Rko} ==> |intFileName| == 8) &&
    (format in {Cas, Lvt} ==> |intFileName| == 6)
  }

  /** The end address: `loadAddr + size - 1` (which is -1 for an empty body
    * loaded at 0). */
  function EndAddr(loadAddr: u16, body: seq<uint8>): int
  {
    loadAddr + |body| - 1
  }

  /** The BRU header, on its own or embedded in an RKO header. */
  function BruHeaderFor(loadAddr: u16, size: int, intFileName: seq<uint8>): (h: BruHeader)
    requires |intFileName| == 8
    ensures h.Valid()
  {
    BruHeader(intFileName, Low(loadAddr), High(loadAddr), Low(size), High(size), 0, Fill(0xFF, 3))
  }

  /** The RKM checksum as a number: the XOR of the odd-position bytes as the
    * high byte, that of the even-position bytes as the low byte. */
  function RkmChecksum(body: seq<uint8>): u16
  {
    XorAll(Odds(body)) as int * 256 + XorAll(Evens(body)) as int
  }

  /** The RKO checksum: the embedded BRU header and the body as plain chunks,
    * then the first three padding bytes as the last chunk. */
  function RkoChecksum(bru: seq<uint8>, body: seq<uint8>): u16
  {
    RkChecksum(RkChecksum(RkChecksum(0, bru, false), body, false), Fill(0, 3), true)
  }

  /** The checksum the footer of `format` carries. */
  function FormatChecksum(format: TapeFileFormat, body: seq<uint8>, loadAddr: u16, intFileName: seq<uint8>): u16
    requires ConvertArgs(body, format, intFileName)
  {
    match format
    case Rkm => RkmChecksum(body)
    case Rku => Sum(body) % Modulus
    case Rko => RkoChecksum(BruHeaderFor(loadAddr, |body|, intFileName).Pack(), body)
    case Bru => 0
    case Cas => 0
    case Lvt => 0
    case _ => RkChecksum(0, body, true)
  }

  /** The RK-family header: load and end address, high byte first. */
  function RkHeaderFor(loadAddr: u16, endAddr: int): RkHeader
  {
    RkHeader(High(loadAddr), Low(loadAddr), High(endAddr), Low(endAddr))
  }

  /** The RKS header: load and end address, low byte first. */
  function RksHeaderFor(loadAddr: u16, endAddr: int): RksHeader
  {
    RksHeader(Low(loadAddr), High(loadAddr), Low(endAddr), High(endAddr))
  }

  /** The RKO header, with the BRU header embedded. */
  function RkoHeaderFor(loadAddr: u16, size: int, intFileName: seq<uint8>): (h: RkoHeader)
    requires |intFileName| == 8
    ensures h.Valid()
  {
    RkoHeader(intFileName, Fill(0, 64), TapeSync, Low(loadAddr), High(loadAddr),
              High(size + 16), Low(size + 16), BruHeaderFor(loadAddr, size, intFileName))
  }

  /** The CAS header. */
  function CasHeaderFor(loadAddr: u16, startAddr: u16, endAddr: int, intFileName: seq<uint8>): (h: CasHeader)
    requires |intFileName| == 6
    ensures h.Valid()
  {
    CasHeader(CasSignature, Fill(0xD0, 10), intFileName, Fill(0, 8), CasSignature, Low(loadAddr),
              High(loadAddr), Low(endAddr), High(endAddr), Low(startAddr), High(startAddr))
  }

  /** The LVT header. */
  function LvtHeaderFor(loadAddr: u16, startAddr: u16, endAddr: int, intFileName: seq<uint8>): (h: LvtHeader)
    requires |intFileName| == 6
    ensures h.Valid()
  {
    LvtHeader(LvtSignature, 0xD0, intFileName, Low(loadAddr), High(loadAddr), Low(endAddr),
              High(endAddr), Low(startAddr), High(startAddr))
  }

  /** The header `convert` writes for `format`. */
  function Header(format: TapeFileFormat, body: seq<uint8>, loadAddr: u16, startAddr: u16, intFileName: seq<uint8>): seq<uint8>
    requires ConvertArgs(body, format, intFileName)
  {
    var endAddr := EndAddr(loadAddr, body);
    match format
    case Rks => RksHeaderFor(loadAddr, endAddr).Pack()
    case Bru => BruHeaderFor(loadAddr, |body|, intFileName).Pack()
    case Rko => RkoHeaderFor(loadAddr, |body|, intFileName).Pack()
    case Cas => CasHeaderFor(loadAddr, startAddr, endAddr, intFileName).Pack()
    case Lvt => LvtHeaderFor(loadAddr, startAddr, endAddr, intFileName).Pack()
    case _ => RkHeaderFor(loadAddr, endAddr).Pack()
  }

  /** The RKO padding: enough zero bytes to bring header and body to a
    * multiple of 16. */
  function RkoPadding(body: seq<uint8>): nat
  {
    (-RkoHeaderSize - |body|) % 16
  }

  /** The footer of `format` around checksum `cs`. For RKO it is the tail of
    * the 18-byte footer: the last `pad` padding bytes, sync and checksum. */
  function FooterFor(format: TapeFileFormat, cs: u16, pad: nat): seq<uint8>
    requires pad < 16
  {
    match format
    case Rk => RkFooter(0, 0, TapeSync, High(cs), Low(cs)).Pack()
    case Rku => RkFooter(0, 0, TapeSync, High(cs), Low(cs)).Pack()
    case Rkp => RkpFooter(0, TapeSync, High(cs), Low(cs)).Pack()
    case Rk4 => Rk4Footer(Fill(0, 16), TapeSync, High(cs), Low(cs), High(cs), Low(cs)).Pack()
    case Rkm => RkmFooter(High(cs), Low(cs)).Pack()
    case Rks => RksFooter(Low(cs), High(cs)).Pack()
    case Rko => RkoFooter(Fill(0, 15), TapeSync, High(cs), Low(cs)).Pack()[15 - pad..]
    case _ => []
  }

  /** The footer `convert` writes for `format`. */
  function Footer(format: TapeFileFormat, body: seq<uint8>, loadAddr: u16, intFileName: seq<uint8>): seq<uint8>
    requires ConvertArgs(body, format, intFileName)
  {
    FooterFor(format, FormatChecksum(format, body, loadAddr, intFileName), RkoPadding(body))
  }
}

module TapeConvert {
  import opened Bytes
  import opened Tape

  /**
   * The header/footer part of `convert`: the fields of the format's packed
   * structures filled one by one, the checksum computed by the format's
   * routine. The file written is the header, the body and the footer.
   */
  method Convert(body: seq<uint8>, format: TapeFileFormat, loadAddr: u16, startAddr: u16, intFileName: seq<uint8>)
    returns (header: seq<uint8>, footer: seq<uint8>)
    requires ConvertArgs(body, format, intFileName)
    ensures header == Header(format, body, loadAddr, startAddr, intFileName)
    ensures footer == Footer(format, body, loadAddr, intFileName)
  {
    var endAddr := EndAddr(loadAddr, body);
    footer := [];
    match format {
      case Rks =>
        var cs := CalcRkCs(body);
        header := RksHeader(Low(loadAddr), High(loadAddr), Low(endAddr), High(endAddr)).Pack();
        footer := RksFooter(Low(cs), High(cs)).Pack();
      case Bru =>
        header := BruHeader(intFileName, Low(loadAddr), High(loadAddr), Low(|body|), High(|body|),
                            0, Fill(0xFF, 3)).Pack();
      case Rko =>
        header, footer := ConvertRko(body, loadAddr, intFileName);
      case Cas =>
        header := CasHeader(CasSignature, Fill(0xD0, 10), intFileName, Fill(0, 8), CasSignature,
                            Low(loadAddr), High(loadAddr), Low(endAddr), High(endAddr),
                            Low(startAddr), High(startAddr)).Pack();
      case Lvt =>
        header := LvtHeader(LvtSignature, 0xD0, intFileName, Low(loadAddr), High(loadAddr),
                            Low(endAddr), High(endAddr), Low(startAddr), High(startAddr)).Pack();
      case _ =>
        header := RkHeader(High(loadAddr), Low(loadAddr), High(endAddr), Low(endAddr)).Pack();
        footer := ConvertRkFooter(body, format);
    }
  }

  /** The checksum and footer of the RK, RKP, RK4, RKM and RKU formats. */
  method ConvertRkFooter(body: seq<uint8>, format: TapeFileFormat) returns (footer: seq<uint8>)
    requires format in {Rk, Rkp, Rk4, Rkm, Rku} && ConvertArgs(body, format, [])
    ensures footer == FooterFor(format, FormatChecksum(format, body, 0, []), 0)
  {
    var cs := RkFamilyChecksum(body, format);
    if format == Rk || format == Rku {
      footer := RkFooter(0, 0, TapeSync, High(cs), Low(cs)).Pack();
    } else if format == Rkp {
      footer := RkpFooter(0, TapeSync, High(cs), Low(cs)).Pack();
    } else if format == Rk4 {
      footer := Rk4Footer(Fill(0, 16), TapeSync, High(cs), Low(cs), High(cs), Low(cs)).Pack();
    } else {
      footer := RkmFooter(High(cs), Low(cs)).Pack();
    }
  }

  /** The checksum routine the RK-family format calls. */
  method RkFamilyChecksum(body: seq<uint8>, format: TapeFileFormat) returns (cs: u16)
    requires format in {Rk, Rkp, Rk4, Rkm, Rku} && ConvertArgs(body, format, [])
    ensures cs == FormatChecksum(format, body, 0, [])
  {
    if format == Rkm {
      var x := CalcRkmCs(body);
      cs := x as int;
      HalvesValue(XorAll(Odds(body)), XorAll(Evens(body)));
    } else if format == Rku {
      cs := CalcRkuCs(body);
    } else {
      cs := CalcRkCs(body);
    }
  }

  /** The RKO branch of `convert`. */
  method ConvertRko(body: seq<uint8>, loadAddr: u16, intFileName: seq<uint8>)
    returns (header: seq<uint8>, footer: seq<uint8>)
    requires ConvertArgs(body, Rko, intFileName)
    ensures header == RkoHeaderFor(loadAddr, |body|, intFileName).Pack()
    ensures footer == Footer(Rko, body, loadAddr, intFileName)
  {
    var bru := BruHeader(intFileName, Low(loadAddr), High(loadAddr), Low(|body|), High(|body|), 0, Fill(0xFF, 3));
    var rko := RkoHeader(intFileName, Fill(0, 64), TapeSync, Low(loadAddr), High(loadAddr),
                         High(|body| + 16), Low(|body| + 16), bru);
    header := rko.Pack();
    footer := ConvertRkoFooter(body, bru.Pack(), |header|);
    RkoFooterIs(body, loadAddr, intFileName);
  }

  /** The RKO footer of `convert`: padding up to a multiple of 16 bytes over
    * header, body and footer sync/checksum bytes, then sync and checksum. */
  method ConvertRkoFooter(body: seq<uint8>, bru: seq<uint8>, headerSize: int) returns (footer: seq<uint8>)
    requires headerSize == RkoHeaderSize
    ensures footer == FooterFor(Rko, RkoChecksum(bru, body), RkoPadding(body))
  {
    var padding := Fill(0, 15);
    var cs := RkoSum(bru, body, padding);
    var paddingSize := (-headerSize - |body|) % 16;
    assert paddingSize == RkoPadding(body);
    footer := RkoFooter(padding, TapeSync, High(cs), Low(cs)).Pack()[15 - paddingSize..];
    RkoFooterTail(cs, paddingSize);
  }

  lemma RkoFooterTail(cs: u16, pad: nat)
    requires pad < 16
    ensures FooterFor(Rko, cs, pad) == RkoFooter(Fill(0, 15), TapeSync, High(cs), Low(cs)).Pack()[15 - pad..]
  {
  }

  /** The RKO footer is the checksum footer over the embedded BRU header and
    * the body. */
  lemma RkoFooterIs(body: seq<uint8>, loadAddr: u16, intFileName: seq<uint8>)
    requires ConvertArgs(body, Rko, intFileName)
    ensures Footer(Rko, body, loadAddr, intFileName) ==
            FooterFor(Rko, RkoChecksum(BruHeaderFor(loadAddr, |body|, intFileName).Pack(), body), RkoPadding(body))
  {
  }

  /** The RKO checksum of `convert`: the embedded BRU header, then the body,
    * then the first three padding bytes as the last chunk. */
  method RkoSum(bru: seq<uint8>, body: seq<uint8>, padding: seq<uint8>) returns (cs: u16)
    requires padding == Fill(0, 15)
    ensures cs == RkoChecksum(bru, body)
  {
    cs := AddToRkCs(0, bru, false);
    cs := AddToRkCs(cs, body, false);
    assert padding[..3] == Fill(0 as uint8, 3);
    cs := AddToRkCs(cs, padding[..3], true);
  }

  /** Splitting a value into `>> 8` and `& 0xFF` bytes and joining them again
    * gives it back modulo 2^16. */
  lemma SplitJoin(x: int)
    ensures Be16(High(x), Low(x)) == x % Modulus
  {
  }

  /** The same, low byte first. */
  lemma SplitJoinLe(x: int)
    ensures LeWord(Low(x), High(x)) == x % Modulus
  {
    SplitJoin(x);
  }

  /** A 16-bit value split and joined again, high byte first. */
  lemma JoinBe16(x: u16)
    ensures Be16(High(x), Low(x)) == x
  {
    SplitJoin(x);
  }

  /** A 16-bit value split and joined again, low byte first. */
  lemma JoinLe16(x: u16)
    ensures LeWord(Low(x), High(x)) == x
  {
    SplitJoinLe(x);
  }

  /** A byte pair put together and split again. */
  lemma ByteSplit(hi: uint8, lo: uint8)
    ensures High(hi * 256 + lo) == hi && Low(hi * 256 + lo) == lo
  {
  }

  /** The same for two 8-bit vectors. */
  lemma ByteSplitBv(hi: bv8, lo: bv8)
    ensures High(hi as int * 256 + lo as int) == hi as int && Low(hi as int * 256 + lo as int) == lo as int
  {
    ByteSplit(hi as int, lo as int);
  }

  /** RK-family headers hold the load and end addresses high byte first. */
  lemma RkHeaderAddresses(loadAddr: u16, endAddr: int)
    ensures var h := RkHeaderFor(loadAddr, endAddr);
      Be16(h.loadAddrHi, h.loadAddrLo) == loadAddr && Be16(h.endAddrHi, h.endAddrLo) == endAddr % Modulus
  {
    JoinBe16(loadAddr);
    SplitJoin(endAddr);
  }

  /** The RKS header holds the load and end addresses low byte first. */
  lemma RksHeaderAddresses(loadAddr: u16, endAddr: int)
    ensures var h := RksHeaderFor(loadAddr, endAddr);
      LeWord(h.loadAddrLo, h.loadAddrHi) == loadAddr && LeWord(h.endAddrLo, h.endAddrHi) == endAddr % Modulus
  {
    JoinLe16(loadAddr);
    SplitJoinLe(endAddr);
  }

  /** The BRU header: the internal name, the load address and the body
    * length low byte first, a zero attribute and three 0xFF bytes. */
  lemma BruHeaderFields(loadAddr: u16, size: int, name: seq<uint8>)
    requires |name| == 8
    ensures var h := BruHeaderFor(loadAddr, size, name);
      h.name == name && LeWord(h.loadAddrLo, h.loadAddrHi) == loadAddr &&
      LeWord(h.lenLo, h.lenHi) == size % Modulus && h.attr == 0 && h.ff == [0xFF, 0xFF, 0xFF]
  {
    JoinLe16(loadAddr);
    SplitJoinLe(size);
  }

  /** The CAS header holds the load, end and run addresses low byte first. */
  lemma CasHeaderAddresses(loadAddr: u16, startAddr: u16, endAddr: int, name: seq<uint8>)
    requires |name| == 6
    ensures var h := CasHeaderFor(loadAddr, startAddr, endAddr, name);
      h.name == name && LeWord(h.loadAddrLo, h.loadAddrHi) == loadAddr &&
      LeWord(h.endAddrLo, h.endAddrHi) == endAddr % Modulus && LeWord(h.runAddrLo, h.runAddrHi) == startAddr
  {
    JoinLe16(loadAddr);
    JoinLe16(startAddr);
    SplitJoinLe(endAddr);
  }

  /** The LVT header holds the load, end and run addresses low byte first. */
  lemma LvtHeaderAddresses(loadAddr: u16, startAddr: u16, endAddr: int, name: seq<uint8>)
    requires |name| == 6
    ensures var h := LvtHeaderFor(loadAddr, startAddr, endAddr, name);
      h.name == name && LeWord(h.loadAddrLo, h.loadAddrHi) == loadAddr &&
      LeWord(h.endAddrLo, h.endAddrHi) == endAddr % Modulus && LeWord(h.runAddrLo, h.runAddrHi) == startAddr
  {
    JoinLe16(loadAddr);
    JoinLe16(startAddr);
    SplitJoinLe(endAddr);
  }

  /** CAS headers carry the 8-byte signature twice around ten 0xD0 bytes and
    * the name; LVT headers start with "LVOV/2.0/" and one 0xD0. */
  lemma SignedHeaders(format: TapeFileFormat, body: seq<uint8>, loadAddr: u16, startAddr: u16, name: seq<uint8>)
    requires format in {Cas, Lvt} && ConvertArgs(body, format, name)
    ensures var h := Header(format, body, loadAddr, startAddr, name);
      (format == Cas ==> (h[..8] == CasSignature && h[32..40] == CasSignature &&
         (forall i :: 8 <= i < 18 ==> h[i] == 0xD0) && (forall i :: 24 <= i < 32 ==> h[i] == 0))) &&
      (format == Lvt ==> h[..9] == LvtSignature && h[9] == 0xD0)
  {
  }

  /** The RK and RKU footer: two nulls, the sync byte, then the checksum high
    * byte first; RKP drops one null, RK4 has sixteen and repeats the
    * checksum, RKM is the checksum alone, RKS has it low byte first. */
  lemma RkFooters(format: TapeFileFormat, cs: u16)
    requires format in {Rk, Rkp, Rkm, Rku, Rk4, Rks}
    ensures var f := FooterFor(format, cs, 0);
      (format in {Rk, Rku} ==> |f| == 5 && f[..3] == [0, 0, TapeSync] && Be16(f[3], f[4]) == cs) &&
      (format == Rkp ==> |f| == 4 && f[..2] == [0, TapeSync] && Be16(f[2], f[3]) == cs) &&
      (format == Rk4 ==> (|f| == 21 && f[..16] == Fill(0, 16) && f[16] == TapeSync &&
         Be16(f[17], f[18]) == cs && f[19..] == f[17..19])) &&
      (format == Rkm ==> |f| == 2 && Be16(f[0], f[1]) == cs) &&
      (format == Rks ==> |f| == 2 && LeWord(f[0], f[1]) == cs)
  {
    JoinBe16(cs);
    JoinLe16(cs);
    var f := FooterFor(format, cs, 0);
    if format in {Rk, Rku} {
      assert f == [0, 0, TapeSync, High(cs), Low(cs)];
    } else if format == Rkp {
      assert f == [0, TapeSync, High(cs), Low(cs)];
    } else if format == Rk4 {
      assert f == Fill(0, 16) + [TapeSync, High(cs), Low(cs), High(cs), Low(cs)];
    } else if format == Rkm {
      assert f == [High(cs), Low(cs)];
    } else {
      assert f == [Low(cs), High(cs)];
    }
  }

  /** The RKM checksum in the footer: even-position bytes XOR-ed into the low
    * byte, odd-position bytes into the high byte. */
  lemma RkmFooterXor(body: seq<uint8>, loadAddr: u16, name: seq<uint8>)
    requires ConvertArgs(body, Rkm, name)
    ensures var f := Footer(Rkm, body, loadAddr, name);
      f == [XorAll(Odds(body)) as int, XorAll(Evens(body)) as int]
  {
    RkmFooterBytes(body, loadAddr, name);
    RkmChecksumBytes(body);
  }

  lemma RkmChecksumBytes(body: seq<uint8>)
    ensures High(RkmChecksum(body)) == XorAll(Odds(body)) as int
    ensures Low(RkmChecksum(body)) == XorAll(Evens(body)) as int
  {
    ByteSplitBv(XorAll(Odds(body)), XorAll(Evens(body)));
  }

  lemma RkmFooterBytes(body: seq<uint8>, loadAddr: u16, name: seq<uint8>)
    requires ConvertArgs(body, Rkm, name)
    ensures Footer(Rkm, body, loadAddr, name) == [High(RkmChecksum(body)), Low(RkmChecksum(body))]
  {
    assert FormatChecksum(Rkm, body, loadAddr, name) == RkmChecksum(body);
  }

  /**
   * The RKO header: the internal name, 64 zero bytes, the sync byte, the
   * load address low byte first, the body length plus 16 high byte first,
   * then the embedded BRU header.
   */
  lemma RkoHeaderFields(loadAddr: u16, size: int, name: seq<uint8>)
    requires |name| == 8
    ensures var h := RkoHeaderFor(loadAddr, size, name);
      h.name == name && h.nullBytes == Fill(0, 64) && h.syncByte == TapeSync &&
      LeWord(h.loadAddrLo, h.loadAddrHi) == loadAddr && Be16(h.lenHi, h.lenLo) == (size + 16) % Modulus &&
      h.bruHeader == BruHeaderFor(loadAddr, size, name)
  {
    JoinLe16(loadAddr);
    SplitJoin(size + 16);
  }

  /** Header, body and padding fill a whole number of 16-byte blocks. */
  lemma RkoPaddingAligns(body: seq<uint8>)
    ensures RkoPadding(body) < 16 && (RkoHeaderSize + |body| + RkoPadding(body)) % 16 == 0
  {
  }

  /** The RKO footer: the zero padding, the sync byte and the checksum high
    * byte first. */
  lemma RkoFooterLayout(cs: u16, pad: nat)
    requires pad < 16
    ensures var f := FooterFor(Rko, cs, pad);
      |f| == pad + 3 && (forall i :: 0 <= i < pad ==> f[i] == 0) && f[pad] == TapeSync &&
      Be16(f[pad + 1], f[pad + 2]) == cs
  {
    assert FooterFor(Rko, cs, pad) == (Fill(0, 15) + [TapeSync, High(cs), Low(cs)])[15 - pad..];
    JoinBe16(cs);
  }

  /** Three zero bytes as a last chunk leave a checksum as it was. */
  lemma ZeroTail(cs: u16)
    ensures RkChecksum(cs, Fill(0, 3), true) == cs
  {
    var z: seq<uint8> := Fill(0, 3);
    assert z[..2] == [0, 0] && z[2] == 0;
    assert [0 as uint8, 0][..1] == [0] && [0 as uint8][..0] == [];
    assert RkRun(cs, [0]) == cs;
    assert RkRun(cs, [0, 0]) == cs;
  }

  /** The RKO checksum covers the embedded BRU header and the body; the
    * three zero padding bytes added as the last chunk contribute nothing. */
  lemma RkoChecksumCovers(bru: seq<uint8>, body: seq<uint8>)
    ensures RkoChecksum(bru, body) == RkRun(0, bru + body)
  {
    RkRunAppend(0, bru, body);
    ZeroTail(RkRun(RkRun(0, bru), body));
  }
}
