/**
 * The helpers of the `rkdisk` command line that shape what reaches an RK DOS
 * volume: the 10.3 file name made from a host file name, the attribute byte
 * made from the `-r`/`-h` options and shown in a listing, and the bound on
 * the `-s` directory size given to `format`. Strings are the bytes of a C++
 * `std::string`.
 */
module RkNames {
  import opened Bytes
  import opened Wrappers

  const Period: uint8 := 0x2E
  const Underscore: uint8 := 0x5F
  const Space: uint8 := 0x20

  // ---------------------------------------------------------------------
  // makeRkDosFileName

  /** `find_last_of(c)` stored in an `int`: the index of the last `c`, or -1
    * (the converted `npos`) when there is none. */
  function LastIndex(s: seq<uint8>, c: uint8): (i: int)
    ensures -1 <= i < |s|
    ensures i >= 0 ==> s[i] == c
    ensures forall j :: i < j < |s| ==> s[j] != c
  {
    if s == [] then -1 else if s[|s| - 1] == c then |s| - 1 else LastIndex(s[..|s| - 1], c)
  }

  /** `s.substr(pos, n)` for `pos <= |s|`: at most `n` characters from `pos`. */
  function Substr(s: seq<uint8>, pos: nat, n: nat): (r: seq<uint8>)
    requires pos <= |s|
    ensures |r| == if pos + n <= |s| then n else |s| - pos
    ensures forall k :: 0 <= k < |r| ==> r[k] == s[pos + k]
  {
    s[pos..if pos + n <= |s| then pos + n else |s|]
  }

  /** The characters a DOS name keeps: ASCII digits and letters, space and
    * the period. */
  predicate IsDosNameChar(c: uint8)
  {
    IsDigit(c) || IsUpper(c) || IsLower(c) || c == Space || c == Period
  }

  /** One character of the name after the rewriting loop. */
  function DosNameChar(c: uint8): (r: uint8)
    ensures IsDosNameChar(r) || r == Underscore
    ensures IsDosNameChar(c) ==> r == c
    ensures !IsDosNameChar(c) ==> r == Underscore
  {
    if IsDosNameChar(c) then c else Underscore
  }

  /**
   * The name before the rewriting loop: the base, cut at `min(periodPos, 10)`
   * characters, then '.' and up to three characters after the period when
   * there are any. With no period `periodPos` is -1, `min` stays -1 and the
   * cut becomes `npos`: the whole name is kept, and the "extension" is the
   * first three characters of the name.
   */
  function RawDosName(name: seq<uint8>): seq<uint8>
  {
    var periodPos := LastIndex(name, Period);
    var base := if periodPos < 0 then name else Substr(name, 0, if periodPos < 10 then periodPos else 10);
    var ext := Substr(name, periodPos + 1, 3);
    if ext == [] then base else base + [Period] + ext
  }

  /** `makeRkDosFileName`: cut the name, then replace every character that
    * is not a digit, a letter, a space or a period by '_'. */
  method MakeRkDosFileName(name: seq<uint8>) returns (r: seq<uint8>)
    ensures |r| == |RawDosName(name)|
    ensures forall i :: 0 <= i < |r| ==> r[i] == DosNameChar(RawDosName(name)[i])
  {
    var periodPos := LastIndex(name, Period);
    r := if periodPos < 0 then name else Substr(name, 0, if periodPos < 10 then periodPos else 10);
    var ext := Substr(name, periodPos + 1, 3);
    if ext != [] {
      r := r + [Period] + ext;
    }
    ghost var raw := r;
    var i := 0;
    while i < |r|
      invariant 0 <= i <= |r| == |raw|
      invariant forall j :: 0 <= j < i ==> r[j] == DosNameChar(raw[j])
      invariant forall j :: i <= j < |r| ==> r[j] == raw[j]
    {
      var ch := r[i];
      if !(IsDigit(ch) || IsUpper(ch) || IsLower(ch) || ch == Space || ch == Period) {
        r := r[i := Underscore];
      }
      i := i + 1;
    }
  }

  /** The result holds only digits, letters, spaces, periods and '_'. */
  lemma DosNameChars(name: seq<uint8>, r: seq<uint8>)
    requires |r| == |RawDosName(name)|
    requires forall i :: 0 <= i < |r| ==> r[i] == DosNameChar(RawDosName(name)[i])
    ensures forall i :: 0 <= i < |r| ==> IsDosNameChar(r[i]) || r[i] == Underscore
  {
    forall i | 0 <= i < |r|
      ensures IsDosNameChar(r[i]) || r[i] == Underscore
    {
      assert r[i] == DosNameChar(RawDosName(name)[i]);
    }
  }

  /**
   * A name with a period: the part before the last period, cut to ten
   * characters, then '.' and at most three characters after that period,
   * the '.' only when something follows it. The result is at most 14
   * characters.
   */
  lemma RawDosNameWithPeriod(base: seq<uint8>, ext: seq<uint8>)
    requires Period !in ext
    ensures var r := RawDosName(base + [Period] + ext);
      var b := if |base| <= 10 then base else base[..10];
      var e := if |ext| <= 3 then ext else ext[..3];
      r == (if ext == [] then b else b + [Period] + e) && |r| <= 14
  {
    var name := base + [Period] + ext;
    LastPeriodAt(base, ext);
    var b := if |base| <= 10 then base else base[..10];
    var e := if |ext| <= 3 then ext else ext[..3];
    assert Substr(name, 0, if |base| < 10 then |base| else 10) == b;
    assert Substr(name, |base| + 1, 3) == e;
  }

  /** The period placed after `base` is the last one when `ext` has none. */
  lemma LastPeriodAt(base: seq<uint8>, ext: seq<uint8>)
    requires Period !in ext
    ensures LastIndex(base + [Period] + ext, Period) == |base|
  {
    var name := base + [Period] + ext;
    var p := LastIndex(name, Period);
    assert name[|base|] == Period;
    if p > |base| {
      assert false;
    }
  }

  /** A name without a period is kept whole, and its first three characters
    * are appended as an extension. */
  lemma RawDosNameWithoutPeriod(name: seq<uint8>)
    requires Period !in name
    ensures RawDosName(name) == if name == [] then [] else name + [Period] + (if |name| <= 3 then name else name[..3])
  {
    assert LastIndex(name, Period) == -1;
  }

  // ---------------------------------------------------------------------
  // The attribute byte

  const ReadOnlyFlag: bv8 := 0x80
  const HiddenFlag: bv8 := 0x40

  /** `(readOnly ? 0x80 : 0) | (hidden ? 0x40 : 0)`. */
  function AttrByte(readOnly: bool, hidden: bool): (a: uint8)
    ensures (a as bv8) & ReadOnlyFlag != 0 <==> readOnly
    ensures (a as bv8) & HiddenFlag != 0 <==> hidden
    ensures (a as bv8) & 0x3F == 0
  {
    (((if readOnly then ReadOnlyFlag else 0) | (if hidden then HiddenFlag else 0)) as int)
  }

  /** The attribute column of a listing: "R" for 0x80, then "H" for 0x40. */
  function AttrText(attr: uint8): seq<char>
  {
    (if (attr as bv8) & ReadOnlyFlag != 0 then "R" else "") + (if (attr as bv8) & HiddenFlag != 0 then "H" else "")
  }

  /** A listing shows exactly the attributes `add` and `attr` were given. */
  lemma AttrTextRoundTrip(readOnly: bool, hidden: bool)
    ensures AttrText(AttrByte(readOnly, hidden)) == (if readOnly then "R" else "") + (if hidden then "H" else "")
  {
  }

  /** Only the two flag bits show in a listing. */
  lemma AttrTextFlagsOnly(attr: uint8)
    ensures var a := attr as bv8;
      AttrText(attr) == AttrText(AttrByte(a & ReadOnlyFlag != 0, a & HiddenFlag != 0))
  {
  }

  // ---------------------------------------------------------------------
  // The -s option: strtoul(value, &numEnd, 10) stored in an int

  const ULongMax := 0x1_0000_0000_0000_0000 - 1

  /** The bytes `isspace` accepts in the C locale. */
  predicate IsSpace(c: uint8) { c == 0x20 || 0x09 <= c <= 0x0D }

  /** Leading white space `strtoul` skips. */
  function SkipSpace(s: seq<uint8>, i: nat): (j: nat)
    requires i <= |s|
    ensures i <= j <= |s| && (j < |s| ==> !IsSpace(s[j]))
    ensures forall k :: i <= k < j ==> IsSpace(s[k])
    decreases |s| - i
  {
    if i < |s| && IsSpace(s[i]) then SkipSpace(s, i + 1) else i
  }

  /** The end of the run of decimal digits from `i`. */
  function DigitsEnd(s: seq<uint8>, i: nat): (j: nat)
    requires i <= |s|
    ensures i <= j <= |s| && (j < |s| ==> !IsDigit(s[j]))
    ensures forall k :: i <= k < j ==> IsDigit(s[k])
    decreases |s| - i
  {
    if i < |s| && IsDigit(s[i]) then DigitsEnd(s, i + 1) else i
  }

  /** The decimal value of a run of digits. */
  function DecimalValue(ds: seq<uint8>): nat
    requires forall k :: 0 <= k < |ds| ==> IsDigit(ds[k])
  {
    if ds == [] then 0
    else
      assert IsDigit(ds[|ds| - 1]);
      10 * DecimalValue(ds[..|ds| - 1]) + (ds[|ds| - 1] as int - 0x30)
  }

  /**
   * `strtoul(s, &end, 10)`: white space, an optional sign, then digits. The
   * value saturates at `ULONG_MAX`; a '-' negates it modulo 2^64; with no
   * digit nothing is converted and `end` is the start of the string.
   */
  function StrToUL(s: seq<uint8>): (r: (nat, nat))
    ensures r.0 <= ULongMax && r.1 <= |s|
  {
    var i := SkipSpace(s, 0);
    var neg := i < |s| && s[i] == 0x2D;
    var j := if i < |s| && (s[i] == 0x2B || s[i] == 0x2D) then i + 1 else i;
    var k := DigitsEnd(s, j);
    if k == j then (0, 0)
    else
      var v := DecimalValue(s[j..k]);
      if v > ULongMax then (ULongMax, k)
      else if neg && v > 0 then (ULongMax + 1 - v, k)
      else (v, k)
  }

  /** An `unsigned long` stored in a 32-bit `int`: the low 32 bits, read as
    * two's complement. */
  function ToInt32(v: nat): (r: int)
    ensures -0x8000_0000 <= r < 0x8000_0000
    ensures r % 0x1_0000_0000 == v % 0x1_0000_0000
  {
    var low := v % 0x1_0000_0000;
    if low < 0x8000_0000 then low else low - 0x1_0000_0000
  }

  /**
   * The directory size `format` gets from `-s value`, or `None` when the
   * option is refused: something other than the end of the string follows
   * the number, or the `int` it was stored in lies outside 1..99.
   */
  function DirectorySize(value: seq<uint8>): (r: Option<int>)
    ensures r.Some? ==> 1 <= r.value <= 99
  {
    var (v, end) := StrToUL(value);
    var n := ToInt32(v);
    if (end < |value| && value[end] != 0) || n < 1 || n > 99 then None else Some(n)
  }

  /** A plain number is converted whole (saturated at `ULONG_MAX`) and then
    * cut to an `int`; what reaches the range check is that `int`. */
  lemma DirectorySizeDecimal(value: seq<uint8>)
    requires |value| > 0 && forall k :: 0 <= k < |value| ==> IsDigit(value[k])
    ensures var v := DecimalValue(value);
      var n := ToInt32(if v <= ULongMax then v else ULongMax);
      DirectorySize(value) == if 1 <= n <= 99 then Some(n) else None
  {
    assert SkipSpace(value, 0) == 0;
    assert DigitsEnd(value, 0) == |value|;
    assert value[0..|value|] == value;
  }

  /** So a number from 1 to 99 is accepted as itself, and one above 99 that
    * fits an `int` is refused. */
  lemma DirectorySizeInRange(value: seq<uint8>)
    requires |value| > 0 && forall k :: 0 <= k < |value| ==> IsDigit(value[k])
    ensures 1 <= DecimalValue(value) <= 99 ==> DirectorySize(value) == Some(DecimalValue(value))
    ensures 99 < DecimalValue(value) < 0x8000_0000 ==> DirectorySize(value) == None
  {
    DirectorySizeDecimal(value);
    SmallKept(DecimalValue(value));
  }

  /** A value that fits an `int` is neither saturated nor cut. */
  lemma SmallKept(v: nat)
    ensures v < 0x8000_0000 ==> v <= ULongMax && ToInt32(v) == v
  {
  }

  /** But 4294967297 (2^32 + 1), written in any number of digits, is
    * accepted as a directory of one sector: only the low 32 bits of the
    * converted value reach the range check. */
  lemma DirectorySizeWraps(value: seq<uint8>)
    requires |value| > 0 && forall k :: 0 <= k < |value| ==> IsDigit(value[k])
    requires DecimalValue(value) == 0x1_0000_0001
    ensures DirectorySize(value) == Some(1)
  {
    DirectorySizeDecimal(value);
  }

  /** A string with no digit after the optional space and sign is refused. */
  lemma DirectorySizeNoDigits(value: seq<uint8>)
    requires forall k :: 0 <= k < |value| ==> !IsDigit(value[k])
    ensures DirectorySize(value) == None
  {
    var i := SkipSpace(value, 0);
    var j := if i < |value| && (value[i] == 0x2B || value[i] == 0x2D) then i + 1 else i;
    assert DigitsEnd(value, j) == j;
  }
}
