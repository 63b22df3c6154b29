/**
 * Byte-level vocabulary shared by the three tool families: bytes are 8-bit
 * bit-vectors, 16-bit quantities are 16-bit bit-vectors, so the wrap-around of
 * the source's `uint8_t`/`uint16_t` arithmetic and Python's `& 0xFF` masks is
 * the bit-vector arithmetic itself.
 */
module Bytes {

  type byte = bv8
  type word = bv16

  /** One track side of an RDI image: 3125 bytes. */
  const TrackSideBytes := 3125

  /** Python's `b >> k` on a value that fits in a byte, one place at a time
    * (so any `k` of 8 or more gives 0). */
  function Shr(b: byte, k: nat): byte
  {
    if k == 0 then b else Shr(b, k - 1) >> 1
  }

  /** A sampled bit as a byte, 1 or 0. */
  function Bit(x: bool): byte { if x then 1 else 0 }

  function Lo(w: word): byte { (w & 0xFF) as byte }

  function Hi(w: word): byte { (w >> 8) as byte }

  /** Little-endian 16-bit value read from two bytes. */
  function Le16(lo: byte, hi: byte): (v: nat)
    ensures v < 0x1_0000
  {
    lo as nat + 256 * hi as nat
  }

  /** `x` as a byte, built one bit at a time from the most significant. */
  function ByteOf(x: nat): byte
    requires x < 256
  {
    if x == 0 then 0 else (ByteOf(x / 2) << 1) | (if x % 2 == 1 then 1 else 0)
  }

  lemma {:induction false} ByteOfValue(x: nat)
    requires x < 256
    ensures ByteOf(x) as nat == x
  {
    if x > 0 {
      ByteOfValue(x / 2);
      PushBitValue(ByteOf(x / 2), x % 2 == 1);
    }
  }

  /** Shifting a bit in at the bottom of a byte below 128 doubles it and adds the bit. */
  lemma PushBitValue(b: byte, c: bool)
    requires b < 128
    ensures ((b << 1) | (if c then 1 else 0)) as nat == 2 * (b as nat) + (if c then 1 else 0)
  {
  }

  /** Quotient and remainder by 256 and 512, from a decomposition. */
  lemma Div256(n: int, q: int, r: int)
    requires 0 <= r < 256 && n == 256 * q + r
    ensures n / 256 == q && n % 256 == r
  {
  }

  lemma Div512(n: int, q: int, r: int)
    requires 0 <= r < 512 && n == 512 * q + r
    ensures n / 512 == q && n % 512 == r
  {
  }

  /** A byte of the C++ tools, whose arithmetic promotes it to `int`. */
  type uint8 = x: int | 0 <= x < 0x100

  /** `x & 0xFF`, the byte a C cast to `uint8_t` keeps. */
  function Low(x: int): uint8 { x % 256 }

  /** `x >> 8` cast to `uint8_t`: an arithmetic shift, so floor division. */
  function High(x: int): uint8 { x / 256 % 256 }

  /** The bytes of `s` added up, without wrap-around. */
  function Sum(s: seq<uint8>): nat
  {
    if s == [] then 0 else Sum(s[..|s| - 1]) + s[|s| - 1]
  }

  /** ASCII character classes of a C `char` read as a byte. */
  predicate IsDigit(c: uint8) { 0x30 <= c <= 0x39 }
  predicate IsUpper(c: uint8) { 0x41 <= c <= 0x5A }
  predicate IsLower(c: uint8) { 0x61 <= c <= 0x7A }

  /** Index of the first `c` in `s`, or `|s|` when there is none. */
  function FirstIndex(s: seq<uint8>, c: uint8): (i: nat)
    ensures i <= |s| && (i < |s| ==> s[i] == c)
    ensures forall j :: 0 <= j < i ==> s[j] != c
  {
    if s == [] then 0 else if s[0] == c then 0 else 1 + FirstIndex(s[1..], c)
  }

  /** `n` copies of `b`: the padding both tool families append, of Python
    * bytes and of C++ `uint8_t` alike. */
  function Fill<T>(b: T, n: nat): (r: seq<T>)
    ensures |r| == n && forall i :: 0 <= i < n ==> r[i] == b
  {
    seq(n, _ => b)
  }

  /** Python slice `s[i:j]` for 0 <= i: indices past the end are clamped. */
  function Slice<T>(s: seq<T>, i: nat, j: int): (r: seq<T>)
    ensures |r| == if i >= |s| || j <= i then 0 else (if j < |s| then j else |s|) - i
    ensures forall k :: 0 <= k < |r| ==> r[k] == s[i + k]
  {
    if i >= |s| || j <= i then [] else s[i..if j < |s| then j else |s|]
  }
}
