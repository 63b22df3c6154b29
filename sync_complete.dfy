/**
 * The other direction of `find_syncrobytes`: on a side laid out as the
 * formatter lays out its sectors, the scanner finds all five of them and
 * marks exactly the bytes of their sync runs.
 */
module SyncComplete {
  import opened Bytes
  import opened Wrappers
  import opened SyncLocator

  /**
   * The shape of one sector, from the cursor on: `gap` bytes other than
   * 0x06; a run of `run1` bytes 0x06; `markGap1` bytes that are neither 0x06
   * nor 0xEA; the address mark EA D3 and five bytes of address field; `gap2`
   * bytes other than 0x06; a run of `run2` bytes 0x06; `markGap2` bytes that
   * are neither 0x06 nor 0xDD; the data mark DD F3 and 530 bytes of data
   * field.
   */
  datatype SectorShape = SectorShape(gap: nat, run1: nat, markGap1: nat, gap2: nat, run2: nat, markGap2: nat)

  /** Where the first sync run of a sector starting at `c` ends. */
  function FirstRunEnd(c: nat, sh: SectorShape): nat
  {
    c + sh.gap + sh.run1
  }

  /** Where its address mark lies. */
  function AddressAt(c: nat, sh: SectorShape): nat
  {
    FirstRunEnd(c, sh) + sh.markGap1
  }

  /** Where its second sync run starts. */
  function SecondRunAt(c: nat, sh: SectorShape): nat
  {
    AddressAt(c, sh) + 7 + sh.gap2
  }

  /** Where its second sync run ends. */
  function SecondRunEnd(c: nat, sh: SectorShape): nat
  {
    SecondRunAt(c, sh) + sh.run2
  }

  /** Where its data mark lies. */
  function DataMarkAt(c: nat, sh: SectorShape): nat
  {
    SecondRunEnd(c, sh) + sh.markGap2
  }

  /** Where the next sector starts: past the mark and the 530-byte field. */
  function SectorEnd(c: nat, sh: SectorShape): nat
  {
    DataMarkAt(c, sh) + 2 + 530
  }

  /**
   * `track` holds a sector of shape `sh` at `c`. Each run is at least the
   * three bytes the scanner looks for and lies in the window it searches:
   * the first within 100 bytes of the cursor, the second within 20 bytes of
   * the point 7 bytes past the address mark. The address mark lies within
   * 10 bytes of the end of the first run, the data mark within 20 bytes of
   * the end of the second, and inside the side.
   */
  predicate WellFormedSector(track: seq<byte>, c: nat, sh: SectorShape)
  {
    sh.gap <= 97 && sh.run1 >= 3 && sh.markGap1 <= 8 && sh.gap2 <= 17 && sh.run2 >= 3 && sh.markGap2 <= 18 &&
    DataMarkAt(c, sh) + 2 <= |track| &&
    (forall i {:trigger TrackAt(track, i)} :: c <= i < c + sh.gap ==> TrackAt(track, i) != 0x06) &&
    (forall i {:trigger TrackAt(track, i)} :: c + sh.gap <= i < FirstRunEnd(c, sh) ==> TrackAt(track, i) == 0x06) &&
    (forall i {:trigger TrackAt(track, i)} :: FirstRunEnd(c, sh) <= i < AddressAt(c, sh) ==>
      TrackAt(track, i) != 0x06 && TrackAt(track, i) != 0xEA) &&
    track[AddressAt(c, sh)] == 0xEA && track[AddressAt(c, sh) + 1] == 0xD3 &&
    (forall i {:trigger TrackAt(track, i)} :: AddressAt(c, sh) + 7 <= i < SecondRunAt(c, sh) ==> TrackAt(track, i) != 0x06) &&
    (forall i {:trigger TrackAt(track, i)} :: SecondRunAt(c, sh) <= i < SecondRunEnd(c, sh) ==> TrackAt(track, i) == 0x06) &&
    (forall i {:trigger TrackAt(track, i)} :: SecondRunEnd(c, sh) <= i < DataMarkAt(c, sh) ==>
      TrackAt(track, i) != 0x06 && TrackAt(track, i) != 0xDD) &&
    track[DataMarkAt(c, sh)] == 0xDD && track[DataMarkAt(c, sh) + 1] == 0xF3
  }

  /** Byte `i` of the track; the sector's byte ranges are stated through
    * it, so that they are used only where a proof names a position. */
  function TrackAt(track: seq<byte>, i: int): byte
    requires 0 <= i < |track|
  {
    track[i]
  }

  /** What a well-formed sector says about its byte at `i`. */
  lemma SectorByte(track: seq<byte>, c: nat, sh: SectorShape, i: int)
    requires WellFormedSector(track, c, sh) && c <= i < DataMarkAt(c, sh)
    ensures i < c + sh.gap ==> track[i] != 0x06
    ensures c + sh.gap <= i < FirstRunEnd(c, sh) ==> track[i] == 0x06
    ensures FirstRunEnd(c, sh) <= i < AddressAt(c, sh) ==> track[i] != 0x06 && track[i] != 0xEA
    ensures AddressAt(c, sh) + 7 <= i < SecondRunAt(c, sh) ==> track[i] != 0x06
    ensures SecondRunAt(c, sh) <= i < SecondRunEnd(c, sh) ==> track[i] == 0x06
    ensures SecondRunEnd(c, sh) <= i ==> track[i] != 0x06 && track[i] != 0xDD
  {
    assert TrackAt(track, i) == track[i];
  }

  /** `m` with the positions from `a` up to `b` set. */
  function MarkRange(m: seq<bool>, a: nat, b: nat): (r: seq<bool>)
    ensures |r| == |m|
  {
    seq(|m|, i requires 0 <= i < |m| => m[i] || (a <= i < b))
  }

  /** Position `i` of `MarkRange(m, a, b)`. */
  lemma MarkRangeAt(m: seq<bool>, a: nat, b: nat, i: nat)
    requires i < |m|
    ensures MarkRange(m, a, b)[i] == (m[i] || (a <= i < b))
  {
  }

  /** Where sector `k` of a side laid out as `layout` starts. */
  function SectorStart(layout: seq<SectorShape>, k: nat): nat
    requires k <= |layout|
  {
    if k == 0 then 0 else SectorEnd(SectorStart(layout, k - 1), layout[k - 1])
  }

  /** Five well-formed sectors, one after the other from the start of a full
    * side. */
  predicate WellFormedSide(track: seq<byte>, layout: seq<SectorShape>)
  {
    |track| == TrackSideBytes && |layout| == MaxSectors &&
    forall k :: 0 <= k < MaxSectors ==> WellFormedSector(track, SectorStart(layout, k), layout[k])
  }

  /** `i` is in one of the two sync runs of the sector of shape `sh` at `c`. */
  predicate InSectorRuns(c: nat, sh: SectorShape, i: nat)
  {
    (c + sh.gap <= i < FirstRunEnd(c, sh)) || (SecondRunAt(c, sh) <= i < SecondRunEnd(c, sh))
  }

  /** `i` is in a sync run of one of the first `k` sectors. */
  predicate InRuns(layout: seq<SectorShape>, k: nat, i: nat)
    requires k <= |layout|
  {
    k > 0 && (InRuns(layout, k - 1, i) || InSectorRuns(SectorStart(layout, k - 1), layout[k - 1], i))
  }

  /** The mask after the first `k` sectors: their runs marked. */
  function MaskAfter(layout: seq<SectorShape>, k: nat): (m: seq<bool>)
    requires k <= |layout|
    ensures |m| == TrackSideBytes
  {
    if k == 0 then InitialScan().mask
    else
      var c, sh := SectorStart(layout, k - 1), layout[k - 1];
      MarkRange(MarkRange(MaskAfter(layout, k - 1), c + sh.gap, FirstRunEnd(c, sh)), SecondRunAt(c, sh), SecondRunEnd(c, sh))
  }

  /** `Find` stops at the first position of the window where `sub` occurs. */
  lemma {:induction false} FindAt(s: seq<byte>, sub: seq<byte>, start: nat, end: int, p: nat)
    requires start <= p && p + |sub| <= end && MatchAt(s, sub, p)
    requires forall i :: start <= i < p ==> !MatchAt(s, sub, i)
    ensures Find(s, sub, start, end) == p
    decreases p - start
  {
    if start < p {
      assert !MatchAt(s, sub, start);
      FindAt(s, sub, start + 1, end, p);
    }
  }

  /** A sync run starts with a 0x06. */
  lemma RunStart(s: seq<byte>, i: nat)
    ensures MatchAt(s, SyncRun, i) ==> s[i] == 0x06
  {
    if MatchAt(s, SyncRun, i) {
      assert s[i + 0] == SyncRun[0];
    }
  }

  /** A run of at least three 0x06 is a match of the sync pattern. */
  lemma RunAt(s: seq<byte>, p: nat, e: nat)
    requires p + 3 <= e <= |s| && forall i :: p <= i < e ==> s[i] == 0x06
    ensures MatchAt(s, SyncRun, p)
  {
  }

  /** A two-byte mark present at `p`. */
  lemma MarkAt(s: seq<byte>, mark: seq<byte>, p: nat)
    requires |mark| == 2 && p + 2 <= |s| && s[p] == mark[0] && s[p + 1] == mark[1]
    ensures MatchAt(s, mark, p)
  {
  }

  /** The first run of a sector is found where it starts. */
  lemma FirstRunFound(track: seq<byte>, c: nat, sh: SectorShape)
    requires WellFormedSector(track, c, sh)
    ensures Find(track, SyncRun, c, c + 100) == c + sh.gap
  {
    var p := c + sh.gap;
    forall i | p <= i < FirstRunEnd(c, sh)
      ensures track[i] == 0x06
    {
      SectorByte(track, c, sh, i);
    }
    RunAt(track, p, FirstRunEnd(c, sh));
    forall i | c <= i < p
      ensures !MatchAt(track, SyncRun, i)
    {
      RunStart(track, i);
      SectorByte(track, c, sh, i);
    }
    FindAt(track, SyncRun, c, c + 100, p);
  }

  /** A mark starts with its first byte. */
  lemma MarkStart(s: seq<byte>, mark: seq<byte>, i: nat)
    requires |mark| == 2
    ensures MatchAt(s, mark, i) ==> s[i] == mark[0]
  {
    if MatchAt(s, mark, i) {
      assert s[i + 0] == mark[0];
    }
  }

  /** Past the first run, the address mark and then the second run are
    * found where they are. */
  lemma SecondRunFound(track: seq<byte>, c: nat, sh: SectorShape)
    requires WellFormedSector(track, c, sh)
    ensures var e, a := FirstRunEnd(c, sh), AddressAt(c, sh);
      Find(track, AddressMark, e, e + 10) == a &&
      Find(track, SyncRun, a + 7, a + 7 + 20) == SecondRunAt(c, sh)
  {
    var e, a, p := FirstRunEnd(c, sh), AddressAt(c, sh), SecondRunAt(c, sh);
    MarkAt(track, AddressMark, a);
    forall i | e <= i < a
      ensures !MatchAt(track, AddressMark, i)
    {
      MarkStart(track, AddressMark, i);
      SectorByte(track, c, sh, i);
    }
    FindAt(track, AddressMark, e, e + 10, a);
    forall i | p <= i < SecondRunEnd(c, sh)
      ensures track[i] == 0x06
    {
      SectorByte(track, c, sh, i);
    }
    RunAt(track, p, SecondRunEnd(c, sh));
    forall i | a + 7 <= i < p
      ensures !MatchAt(track, SyncRun, i)
    {
      RunStart(track, i);
      SectorByte(track, c, sh, i);
    }
    FindAt(track, SyncRun, a + 7, a + 7 + 20, p);
  }

  /** Past the second run, the data mark is found where it is. */
  lemma DataMarkFound(track: seq<byte>, c: nat, sh: SectorShape)
    requires WellFormedSector(track, c, sh)
    ensures Find(track, DataMark, SecondRunEnd(c, sh), SecondRunEnd(c, sh) + 20) == DataMarkAt(c, sh)
  {
    var e, d := SecondRunEnd(c, sh), DataMarkAt(c, sh);
    MarkAt(track, DataMark, d);
    forall i | e <= i < d
      ensures !MatchAt(track, DataMark, i)
    {
      MarkStart(track, DataMark, i);
      SectorByte(track, c, sh, i);
    }
    FindAt(track, DataMark, e, e + 20, d);
  }

  /** Extending a run found at `p` marks it up to the first byte that is not
    * 0x06. */
  lemma {:induction false} MarkRunTo(track: seq<byte>, s: Scan, m: seq<bool>, p: nat, e: nat)
    requires |s.mask| == TrackSideBytes && |m| == TrackSideBytes
    requires p < s.cur <= e < |track| == TrackSideBytes
    requires s.mask == MarkRange(m, p, s.cur)
    requires (forall i :: s.cur <= i < e ==> track[i] == 0x06) && track[e] != 0x06
    ensures MarkRun(track, s) == Some(Scan(MarkRange(m, p, e), s.nSect, e))
    decreases e - s.cur
  {
    if s.cur < e {
      var next := s.(mask := s.mask[s.cur := true], cur := s.cur + 1);
      assert next.mask == MarkRange(m, p, s.cur + 1);
      MarkRunTo(track, next, m, p, e);
    } else {
      assert s.mask == MarkRange(m, p, e);
    }
  }

  /** The first half of a pass over a well-formed sector: its first run is
    * marked and the cursor stops where the run ends. */
  lemma FirstHalf(track: seq<byte>, s: Scan, sh: SectorShape)
    requires |track| == TrackSideBytes && |s.mask| == TrackSideBytes && WellFormedSector(track, s.cur, sh)
    ensures var p, e := s.cur + sh.gap, FirstRunEnd(s.cur, sh);
      MarkRun(track, s.(mask := s.mask[p := true], cur := p + 1)) == Some(Scan(MarkRange(s.mask, p, e), s.nSect, e))
  {
    var p, e := s.cur + sh.gap, FirstRunEnd(s.cur, sh);
    var s0 := s.(mask := s.mask[p := true], cur := p + 1);
    assert s0.mask == MarkRange(s.mask, p, p + 1);
    assert track[e] != 0x06 by {
      if sh.markGap1 == 0 {
        assert track[AddressAt(s.cur, sh)] == 0xEA;
      } else {
        SectorByte(track, s.cur, sh, e);
      }
    }
    forall i | p + 1 <= i < e
      ensures track[i] == 0x06
    {
      SectorByte(track, s.cur, sh, i);
    }
    MarkRunTo(track, s0, s.mask, p, e);
  }

  /** What the second half of a pass finds in a well-formed sector, from
    * the end of its first run. */
  lemma SecondHalfFinds(track: seq<byte>, s1: Scan, c: nat, sh: SectorShape)
    requires |track| == TrackSideBytes && |s1.mask| == TrackSideBytes && WellFormedSector(track, c, sh)
    requires s1.cur == FirstRunEnd(c, sh)
    ensures var a, p3, e := AddressAt(c, sh), SecondRunAt(c, sh), SecondRunEnd(c, sh);
      Find(track, AddressMark, s1.cur, s1.cur + 10) == a &&
      Find(track, SyncRun, a + 7, a + 7 + 20) == p3 &&
      MarkRun(track, s1.(mask := s1.mask[p3 := true], cur := p3 + 1)) == Some(Scan(MarkRange(s1.mask, p3, e), s1.nSect, e)) &&
      Find(track, DataMark, e, e + 20) == DataMarkAt(c, sh)
  {
    SecondRunMarked(track, s1, c, sh);
    SecondRunFound(track, c, sh);
    DataMarkFound(track, c, sh);
  }

  /** A pass that finds the first run at `p1`, the address mark at `a`, the
    * second run at `p3` and the data mark at `d` counts the sector and moves
    * the cursor 530 bytes past the data mark. */
  lemma PassIs(track: seq<byte>, s: Scan, p1: nat, s1: Scan, a: nat, p3: nat, s2: Scan, d: nat, t: Scan)
    requires |track| == TrackSideBytes && |s.mask| == TrackSideBytes && |s1.mask| == TrackSideBytes
    requires Find(track, SyncRun, s.cur, s.cur + 100) == p1
    requires MarkRun(track, s.(mask := s.mask[p1 := true], cur := p1 + 1)) == Some(s1)
    requires Find(track, AddressMark, s1.cur, s1.cur + 10) == a
    requires Find(track, SyncRun, a + 7, a + 7 + 20) == p3
    requires MarkRun(track, s1.(mask := s1.mask[p3 := true], cur := p3 + 1)) == Some(s2)
    requires Find(track, DataMark, s2.cur, s2.cur + 20) == d
    requires t == Scan(s2.mask, s2.nSect + 1, d + 2 + 530)
    ensures SectorStep(track, false, s) == Next(t)
  {
    SectorStepIs(track, s, p1, s.(mask := s.mask[p1 := true], cur := p1 + 1), s1);
    AfterFirstRunIs(track, s1, a, p3, s2);
    AfterSecondRunIs(track, s2, d);
  }

  /** The three steps of a pass that finds its first run at `p1`. */
  lemma SectorStepIs(track: seq<byte>, s: Scan, p1: nat, s0: Scan, s1: Scan)
    requires |track| == TrackSideBytes && |s.mask| == TrackSideBytes
    requires Find(track, SyncRun, s.cur, s.cur + 100) == p1
    requires s0 == s.(mask := s.mask[p1 := true], cur := p1 + 1)
    requires MarkRun(track, s0) == Some(s1)
    ensures SectorStep(track, false, s) == AfterFirstRun(track, false, s1)
  {
    assert p1 != -1 && p1 < |track|;
    assert SectorStep(track, false, s) == match MarkRun(track, s0) case None => Raise case Some(x) => AfterFirstRun(track, false, x);
  }

  /** The middle of a pass that finds the address mark at `a` and the second
    * run at `p3`. */
  lemma AfterFirstRunIs(track: seq<byte>, s1: Scan, a: nat, p3: nat, s2: Scan)
    requires |track| == TrackSideBytes && |s1.mask| == TrackSideBytes
    requires Find(track, AddressMark, s1.cur, s1.cur + 10) == a
    requires Find(track, SyncRun, a + 7, a + 7 + 20) == p3
    requires MarkRun(track, s1.(mask := s1.mask[p3 := true], cur := p3 + 1)) == Some(s2)
    ensures AfterFirstRun(track, false, s1) == AfterSecondRun(track, false, s2)
  {
  }

  /** The end of a pass that finds the data mark at `d`. */
  lemma AfterSecondRunIs(track: seq<byte>, s2: Scan, d: nat)
    requires |s2.mask| == TrackSideBytes
    requires Find(track, DataMark, s2.cur, s2.cur + 20) == d
    ensures AfterSecondRun(track, false, s2) == Next(Scan(s2.mask, s2.nSect + 1, d + 2 + 530))
  {
  }

  /** The second run, once found, is marked up to its end. */
  lemma SecondRunMarked(track: seq<byte>, s1: Scan, c: nat, sh: SectorShape)
    requires |track| == TrackSideBytes && |s1.mask| == TrackSideBytes && WellFormedSector(track, c, sh)
    ensures var p3, e := SecondRunAt(c, sh), SecondRunEnd(c, sh);
      MarkRun(track, s1.(mask := s1.mask[p3 := true], cur := p3 + 1)) == Some(Scan(MarkRange(s1.mask, p3, e), s1.nSect, e))
  {
    var p3, e := SecondRunAt(c, sh), SecondRunEnd(c, sh);
    var s0 := s1.(mask := s1.mask[p3 := true], cur := p3 + 1);
    assert s0.mask == MarkRange(s1.mask, p3, p3 + 1);
    assert track[e] != 0x06 by {
      if sh.markGap2 == 0 {
        assert track[DataMarkAt(c, sh)] == 0xDD;
      } else {
        SectorByte(track, c, sh, e);
      }
    }
    forall i | p3 + 1 <= i < e
      ensures track[i] == 0x06
    {
      SectorByte(track, c, sh, i);
    }
    MarkRunTo(track, s0, s1.mask, p3, e);
  }

  /** One pass over a well-formed sector counts it, marks its two runs and
    * leaves the cursor at the start of the next sector. */
  lemma SectorFound(track: seq<byte>, s: Scan, sh: SectorShape, t: Scan)
    requires |track| == TrackSideBytes && |s.mask| == TrackSideBytes && WellFormedSector(track, s.cur, sh)
    requires t.nSect == s.nSect + 1 && t.cur == SectorEnd(s.cur, sh)
    requires t.mask == MarkRange(MarkRange(s.mask, s.cur + sh.gap, FirstRunEnd(s.cur, sh)), SecondRunAt(s.cur, sh), SecondRunEnd(s.cur, sh))
    ensures SectorStep(track, false, s) == Next(t)
  {
    var s1 := Scan(MarkRange(s.mask, s.cur + sh.gap, FirstRunEnd(s.cur, sh)), s.nSect, FirstRunEnd(s.cur, sh));
    HalvesFound(track, s, sh, s1);
    PassOver(track, s, sh, s1, t);
  }

  /** Both halves of a pass over a well-formed sector: each run, mark and
    * marked stretch where the sector's shape puts it. */
  lemma HalvesFound(track: seq<byte>, s: Scan, sh: SectorShape, s1: Scan)
    requires |track| == TrackSideBytes && |s.mask| == TrackSideBytes && WellFormedSector(track, s.cur, sh)
    requires s1 == Scan(MarkRange(s.mask, s.cur + sh.gap, FirstRunEnd(s.cur, sh)), s.nSect, FirstRunEnd(s.cur, sh))
    ensures PassFacts(track, s, sh, s1)
  {
    FirstRunFound(track, s.cur, sh);
    FirstHalf(track, s, sh);
    SecondHalfFinds(track, s1, s.cur, sh);
  }

  /** The runs and marks of one pass, found at the places shape `sh` puts
    * them when the pass starts at `s` and its first run leaves `s1`. */
  predicate PassFacts(track: seq<byte>, s: Scan, sh: SectorShape, s1: Scan)
    requires |track| == TrackSideBytes && |s.mask| == TrackSideBytes && |s1.mask| == TrackSideBytes
  {
    var c := s.cur;
    var a, p3, e := AddressAt(c, sh), SecondRunAt(c, sh), SecondRunEnd(c, sh);
    Find(track, SyncRun, c, c + 100) == c + sh.gap &&
    MarkRun(track, s.(mask := s.mask[c + sh.gap := true], cur := c + sh.gap + 1)) == Some(s1) &&
    Find(track, AddressMark, s1.cur, s1.cur + 10) == a &&
    Find(track, SyncRun, a + 7, a + 7 + 20) == p3 &&
    MarkRun(track, s1.(mask := s1.mask[p3 := true], cur := p3 + 1)) == Some(Scan(MarkRange(s1.mask, p3, e), s1.nSect, e)) &&
    Find(track, DataMark, e, e + 20) == DataMarkAt(c, sh)
  }

  /** A pass whose runs and marks lie where shape `sh` puts them counts the
    * sector, marks both runs and stops at the sector's end. */
  lemma PassOver(track: seq<byte>, s: Scan, sh: SectorShape, s1: Scan, t: Scan)
    requires |track| == TrackSideBytes && |s.mask| == TrackSideBytes && |s1.mask| == TrackSideBytes
    requires PassFacts(track, s, sh, s1)
    requires t.nSect == s.nSect + 1 && t.cur == SectorEnd(s.cur, sh)
    requires t.mask == MarkRange(s1.mask, SecondRunAt(s.cur, sh), SecondRunEnd(s.cur, sh))
    ensures SectorStep(track, false, s) == Next(t)
  {
    var c := s.cur;
    var p3, e := SecondRunAt(c, sh), SecondRunEnd(c, sh);
    PassIs(track, s, c + sh.gap, s1, AddressAt(c, sh), p3, Scan(MarkRange(s1.mask, p3, e), s1.nSect, e), DataMarkAt(c, sh), t);
  }

  /** The scan state after the first `k` sectors of `layout`. */
  function StateAfter(layout: seq<SectorShape>, k: nat): (s: Scan)
    requires k <= |layout|
    ensures |s.mask| == TrackSideBytes && s.nSect == k
  {
    Scan(MaskAfter(layout, k), k, SectorStart(layout, k))
  }

  /** The pass over sector `k` starts inside the side and moves the scan
    * from the state after `k` sectors to the state after `k + 1`. */
  predicate PassFinds(track: seq<byte>, layout: seq<SectorShape>, k: nat)
    requires k < |layout|
  {
    |track| == TrackSideBytes && SectorStart(layout, k) < TrackSideBytes &&
    SectorStep(track, false, StateAfter(layout, k)) == Next(StateAfter(layout, k + 1))
  }

  /** A well-formed sector `k` is found by the pass over it. */
  lemma SideStep(track: seq<byte>, layout: seq<SectorShape>, k: nat)
    requires |track| == TrackSideBytes && k < |layout|
    requires WellFormedSector(track, SectorStart(layout, k), layout[k])
    ensures PassFinds(track, layout, k)
  {
    SectorFound(track, StateAfter(layout, k), layout[k], StateAfter(layout, k + 1));
  }

  /** From sector `k` on, the scan finds the rest of the sectors. */
  lemma {:induction false} ScanFinds(track: seq<byte>, layout: seq<SectorShape>, k: nat)
    requires |track| == TrackSideBytes && k <= |layout| == MaxSectors
    requires forall j :: k <= j < |layout| ==> PassFinds(track, layout, j)
    ensures ScanFrom(track, false, StateAfter(layout, k)) == Some(StateAfter(layout, |layout|))
    decreases |layout| - k
  {
    if k < |layout| {
      assert PassFinds(track, layout, k);
      ScanFinds(track, layout, k + 1);
    }
  }

  /** A byte of a run of sector `k` is in the runs of the first `n > k`
    * sectors. */
  lemma {:induction false} InRunsSome(layout: seq<SectorShape>, n: nat, i: nat, k: nat)
    requires k < n <= |layout| && InSectorRuns(SectorStart(layout, k), layout[k], i)
    ensures InRuns(layout, n, i)
  {
    if k < n - 1 {
      InRunsSome(layout, n - 1, i, k);
    }
  }

  /** A byte in the runs of the first `n` sectors is in the runs of one of
    * them. */
  lemma {:induction false} InRunsWhich(layout: seq<SectorShape>, n: nat, i: nat) returns (k: nat)
    requires n <= |layout| && InRuns(layout, n, i)
    ensures k < n && InSectorRuns(SectorStart(layout, k), layout[k], i)
  {
    if InSectorRuns(SectorStart(layout, n - 1), layout[n - 1], i) {
      k := n - 1;
    } else {
      k := InRunsWhich(layout, n - 1, i);
    }
  }

  /** The mask after `k` sectors marks exactly the bytes of their runs. */
  lemma {:induction false} MaskAfterRuns(layout: seq<SectorShape>, k: nat, i: nat)
    requires k <= |layout| && i < TrackSideBytes
    ensures MaskAfter(layout, k)[i] <==> InRuns(layout, k, i)
  {
    if k > 0 {
      MaskAfterRuns(layout, k - 1, i);
    }
  }

  /**
   * Completeness of `find_syncrobytes` with the fixed 530-byte data field: a
   * side holding five well-formed sectors gives a count of five, and the
   * mask marks exactly the bytes of their ten sync runs.
   */
  lemma SyncrobytesComplete(track: seq<byte>, layout: seq<SectorShape>)
    requires WellFormedSide(track, layout)
    ensures Syncrobytes(track, false).Some? && Syncrobytes(track, false).value.nSect == MaxSectors
    ensures forall i :: 0 <= i < TrackSideBytes ==>
      (Syncrobytes(track, false).value.mask[i] <==> InRuns(layout, |layout|, i))
  {
    forall j | 0 <= j < |layout|
      ensures PassFinds(track, layout, j)
    {
      SideStep(track, layout, j);
    }
    ScanFinds(track, layout, 0);
    assert StateAfter(layout, 0) == InitialScan();
    forall i | 0 <= i < TrackSideBytes
      ensures MaskAfter(layout, |layout|)[i] <==> InRuns(layout, |layout|, i)
    {
      MaskAfterRuns(layout, |layout|, i);
    }
  }
}

/**
 * A track freshly laid out by the RK DOS formatter, read as one side of an
 * RDI image, is one of the sides `find_syncrobytes` recognises in full: its
 * five 586-byte slots are five well-formed sectors, and the scan marks
 * exactly their ten runs of five sync bytes.
 */
module FormattedSync {
  import opened Bytes
  import opened SyncLocator
  import opened SyncComplete
  import RkDisk
  import RkFormat

  /** Track `tr` of the formatter's layout, as bytes. */
  function FormattedSide(tr: int): (side: seq<byte>)
    requires 0 <= tr < RkDisk.Tracks
    ensures |side| == TrackSideBytes
  {
    seq(TrackSideBytes, i requires 0 <= i < TrackSideBytes => RkFormat.Layout()[RkDisk.TrackBytes * tr + i] as byte)
  }

  /** The shape of the slots: the first starts with its sync run, the others
    * after the 24 zero bytes that end the slot before. */
  function FormatLayout(): (layout: seq<SectorShape>)
    ensures |layout| == MaxSectors
  {
    var first := SectorShape(0, 5, 5, 3, 5, 5);
    var other := SectorShape(24, 5, 5, 3, 5, 5);
    [first, other, other, other, other]
  }

  /** Sector `k` of the layout has its first sync byte at the start of slot
    * `k`. */
  lemma {:induction false} FormatStart(k: nat)
    requires k < MaxSectors
    ensures SectorStart(FormatLayout(), k) + FormatLayout()[k].gap == RkFormat.SlotBytes * k
  {
    if k > 0 {
      FormatStart(k - 1);
    }
  }

  /** Byte `o` of slot `k` of the side is the formatter's slot byte. */
  lemma SideByte(tr: int, k: int, o: int)
    requires 0 <= tr < RkDisk.Tracks && 0 <= k < RkDisk.SectorsPerTrack && 0 <= o < RkFormat.SlotBytes
    ensures FormattedSide(tr)[RkFormat.SlotBytes * k + o] == RkFormat.SlotByte(tr, k, o) as byte
  {
    RkFormat.LayoutAt(tr, k, o);
  }

  /** The bytes of slot `k` from offset `lo` up to `hi` are `b`. */
  lemma SlotRange(tr: int, k: int, lo: int, hi: int, b: byte)
    requires 0 <= tr < RkDisk.Tracks && 0 <= k < RkDisk.SectorsPerTrack && 0 <= lo <= hi <= RkFormat.SlotBytes
    requires forall o :: lo <= o < hi ==> RkFormat.SlotByte(tr, k, o) as byte == b
    ensures forall i :: RkFormat.SlotBytes * k + lo <= i < RkFormat.SlotBytes * k + hi ==> FormattedSide(tr)[i] == b
  {
    forall i | RkFormat.SlotBytes * k + lo <= i < RkFormat.SlotBytes * k + hi
      ensures FormattedSide(tr)[i] == b
    {
      SideByte(tr, k, i - RkFormat.SlotBytes * k);
    }
  }

  /** Every sector of the layout has runs of five, five bytes before each
    * mark and three between the address field and the second run. */
  lemma FormatShape(k: nat)
    requires k < MaxSectors
    ensures var sh := FormatLayout()[k];
      sh.run1 == 5 && sh.markGap1 == 5 && sh.gap2 == 3 && sh.run2 == 5 && sh.markGap2 == 5 &&
      sh.gap == (if k == 0 then 0 else 24)
  {
  }

  /** Slot `k` of a formatted track is a well-formed sector. */
  lemma FormattedSector(tr: int, k: nat)
    requires 0 <= tr < RkDisk.Tracks && k < MaxSectors
    ensures WellFormedSector(FormattedSide(tr), SectorStart(FormatLayout(), k), FormatLayout()[k])
  {
    FormatStart(k);
    FormatShape(k);
    SlotSector(tr, k, SectorStart(FormatLayout(), k), FormatLayout()[k]);
  }

  /** A sector of the layout's shape whose first sync byte is the first
    * byte of slot `k` is well formed. */
  lemma SlotSector(tr: int, k: nat, c: nat, sh: SectorShape)
    requires 0 <= tr < RkDisk.Tracks && k < MaxSectors
    requires sh.run1 == 5 && sh.markGap1 == 5 && sh.gap2 == 3 && sh.run2 == 5 && sh.markGap2 == 5
    requires sh.gap == (if k == 0 then 0 else 24) && c + sh.gap == RkFormat.SlotBytes * k
    ensures WellFormedSector(FormattedSide(tr), c, sh)
  {
    SlotAddressPart(tr, k, c, sh);
    SlotDataPart(tr, k, c, sh);
  }

  /** The gap, the first run and the address mark of such a sector. */
  lemma SlotAddressPart(tr: int, k: nat, c: nat, sh: SectorShape)
    requires 0 <= tr < RkDisk.Tracks && k < MaxSectors
    requires sh.run1 == 5 && sh.markGap1 == 5
    requires sh.gap == (if k == 0 then 0 else 24) && c + sh.gap == RkFormat.SlotBytes * k
    ensures var side := FormattedSide(tr);
      (forall i :: c <= i < c + sh.gap ==> side[i] != 0x06) &&
      (forall i :: c + sh.gap <= i < FirstRunEnd(c, sh) ==> side[i] == 0x06) &&
      (forall i :: FirstRunEnd(c, sh) <= i < AddressAt(c, sh) ==> side[i] != 0x06 && side[i] != 0xEA) &&
      side[AddressAt(c, sh)] == 0xEA && side[AddressAt(c, sh) + 1] == 0xD3
  {
    if k > 0 {
      SlotRange(tr, k - 1, 562, 586, 0);
    }
    SlotRange(tr, k, 0, 5, 0x06);
    SlotRange(tr, k, 5, 10, 0);
    SlotRange(tr, k, 10, 11, 0xEA);
    SlotRange(tr, k, 11, 12, 0xD3);
  }

  /** The second run and the data mark of such a sector. */
  lemma SlotDataPart(tr: int, k: nat, c: nat, sh: SectorShape)
    requires 0 <= tr < RkDisk.Tracks && k < MaxSectors
    requires sh.run1 == 5 && sh.markGap1 == 5 && sh.gap2 == 3 && sh.run2 == 5 && sh.markGap2 == 5
    requires c + sh.gap == RkFormat.SlotBytes * k
    ensures var side := FormattedSide(tr);
      DataMarkAt(c, sh) + 2 <= |side| &&
      (forall i :: AddressAt(c, sh) + 7 <= i < SecondRunAt(c, sh) ==> side[i] != 0x06) &&
      (forall i :: SecondRunAt(c, sh) <= i < SecondRunEnd(c, sh) ==> side[i] == 0x06) &&
      (forall i :: SecondRunEnd(c, sh) <= i < DataMarkAt(c, sh) ==> side[i] != 0x06 && side[i] != 0xDD) &&
      side[DataMarkAt(c, sh)] == 0xDD && side[DataMarkAt(c, sh) + 1] == 0xF3
  {
    SlotRange(tr, k, 17, 20, 0);
    SlotRange(tr, k, 20, 25, 0x06);
    SlotRange(tr, k, 25, 30, 0);
    SlotRange(tr, k, 30, 31, 0xDD);
    SlotRange(tr, k, 31, 32, 0xF3);
  }

  /**
   * `find_syncrobytes` with the fixed data field finds all five sectors of
   * every track the formatter lays out, and marks exactly the five sync
   * bytes before each address mark and before each data mark.
   */
  lemma FormattedSideFound(tr: int)
    requires 0 <= tr < RkDisk.Tracks
    ensures Syncrobytes(FormattedSide(tr), false).Some?
    ensures Syncrobytes(FormattedSide(tr), false).value.nSect == MaxSectors
    ensures forall i :: 0 <= i < TrackSideBytes ==>
      (Syncrobytes(FormattedSide(tr), false).value.mask[i] <==>
        i < RkFormat.SlotsEnd && (i % RkFormat.SlotBytes < 5 || 20 <= i % RkFormat.SlotBytes < 25))
  {
    var side, layout := FormattedSide(tr), FormatLayout();
    forall k | 0 <= k < MaxSectors
      ensures WellFormedSector(side, SectorStart(layout, k), layout[k])
    {
      FormattedSector(tr, k);
    }
    SyncrobytesComplete(side, layout);
    forall i | 0 <= i < TrackSideBytes
      ensures InRuns(layout, |layout|, i) <==>
        i < RkFormat.SlotsEnd && (i % RkFormat.SlotBytes < 5 || 20 <= i % RkFormat.SlotBytes < 25)
    {
      FormatRuns(i);
    }
  }

  /** The runs of the layout are the first five and the 21st to 25th bytes
    * of each slot. */
  lemma FormatRuns(i: nat)
    requires i < TrackSideBytes
    ensures InRuns(FormatLayout(), MaxSectors, i) <==>
      i < RkFormat.SlotsEnd && (i % RkFormat.SlotBytes < 5 || 20 <= i % RkFormat.SlotBytes < 25)
  {
    var layout := FormatLayout();
    if InRuns(layout, MaxSectors, i) {
      var k := InRunsWhich(layout, MaxSectors, i);
      FormatStart(k);
      FormatShape(k);
      SlotOffset(i, k, i - RkFormat.SlotBytes * k);
    } else if i < RkFormat.SlotsEnd && (i % RkFormat.SlotBytes < 5 || 20 <= i % RkFormat.SlotBytes < 25) {
      var k := i / RkFormat.SlotBytes;
      SlotOffset(i, k, i % RkFormat.SlotBytes);
      FormatStart(k);
      FormatShape(k);
      InRunsSome(layout, MaxSectors, i, k);
      assert false;
    }
  }

  /** Offset `o` of slot `k`. */
  lemma SlotOffset(i: int, k: int, o: int)
    requires 0 <= o < RkFormat.SlotBytes && 0 <= k && i == RkFormat.SlotBytes * k + o
    ensures i / RkFormat.SlotBytes == k && i % RkFormat.SlotBytes == o
  {
  }
}
