/**
 * `find_syncrobytes` of rdi2hfe: scans one decoded track side for up to five
 * sectors, each announced by a run of 0x06 sync bytes, the address mark
 * EA D3, a second run of 0x06 and the data mark DD F3, and records in a
 * 3125-entry mask which bytes belong to the sync runs (those bytes are later
 * encoded with their clock suppressed).
 */
module SyncLocator {
  import opened Bytes
  import opened Wrappers

  /** The most sectors a track side holds. */
  const MaxSectors := 5

  /** The byte patterns the scanner looks for. */
  const SyncRun: seq<byte> := [0x06, 0x06, 0x06]
  const AddressMark: seq<byte> := [0xEA, 0xD3]
  const DataMark: seq<byte> := [0xDD, 0xF3]

  /** `sub` occurs in `s` at `i`: Python's `s[i:i + len(sub)] == sub`,
    * stated byte by byte. */
  predicate MatchAt(s: seq<byte>, sub: seq<byte>, i: nat)
  {
    i + |sub| <= |s| && forall j :: 0 <= j < |sub| ==> s[i + j] == sub[j]
  }

  /**
   * Python's `s.find(sub, start, end)`: the first index `i >= start` at which
   * `sub` occurs entirely before `end` (clamped to the length of `s`), or -1.
   */
  function Find(s: seq<byte>, sub: seq<byte>, start: nat, end: int): (r: int)
    ensures r == -1 || (start <= r && r + |sub| <= end && MatchAt(s, sub, r))
    decreases |s| - start
  {
    if start + |sub| > end || start + |sub| > |s| then -1
    else if MatchAt(s, sub, start) then start
    else Find(s, sub, start + 1, end)
  }

  /** `Find` returns the first occurrence in the window, and -1 only when
    * there is none. */
  lemma {:induction false} FindIsFirst(s: seq<byte>, sub: seq<byte>, start: nat, end: int)
    ensures var r := Find(s, sub, start, end);
      (r == -1 ==> forall i :: start <= i && i + |sub| <= end ==> !MatchAt(s, sub, i)) &&
      (r != -1 ==> forall i :: start <= i < r ==> !MatchAt(s, sub, i))
    decreases |s| - start
  {
    if start + |sub| > end || start + |sub| > |s| {
    } else if !MatchAt(s, sub, start) {
      FindIsFirst(s, sub, start + 1, end);
    }
  }

  /** The scanner's variables: the mask `s_bytes`, the sector count and the
    * cursor. */
  datatype Scan = Scan(mask: seq<bool>, nSect: nat, cur: nat)

  /** The scan before the first sector: nothing marked, cursor at 0. */
  function InitialScan(): (s: Scan)
    ensures |s.mask| == TrackSideBytes && s.nSect == 0 && s.cur == 0
    ensures forall i :: 0 <= i < TrackSideBytes ==> !s.mask[i]
  {
    Scan(seq(TrackSideBytes, _ => false), 0, 0)
  }

  /** Every marked position of the mask holds a 0x06 of the track. */
  predicate MarksSyncBytes(track: seq<byte>, mask: seq<bool>)
  {
    forall i :: 0 <= i < |mask| && mask[i] ==> i < |track| && track[i] == 0x06
  }

  /** Marking the start of a found sync run keeps the mask sound. */
  lemma MarkRunStart(track: seq<byte>, mask: seq<bool>, p: nat)
    requires MatchAt(track, SyncRun, p) && p < |mask| && MarksSyncBytes(track, mask)
    ensures MarksSyncBytes(track, mask[p := true])
  {
    assert track[p + 0] == SyncRun[0];
  }

  /**
   * The loop that extends a sync run: while the cursor is below 3125 and at a
   * 0x06, mark it and advance. `None` when the cursor runs off the end of a
   * side shorter than 3125 bytes, where Python raises `IndexError`.
   */
  function MarkRun(track: seq<byte>, s: Scan): (r: Option<Scan>)
    requires |s.mask| == TrackSideBytes
    ensures r.Some? ==> |r.value.mask| == TrackSideBytes && r.value.nSect == s.nSect && r.value.cur >= s.cur
    ensures |track| >= TrackSideBytes ==> r.Some?
    decreases TrackSideBytes - s.cur
  {
    if s.cur >= TrackSideBytes then Some(s)
    else if s.cur >= |track| then None
    else if track[s.cur] != 0x06 then Some(s)
    else MarkRun(track, s.(mask := s.mask[s.cur := true], cur := s.cur + 1))
  }

  /** Python's `int.from_bytes(track[c:c + 2], 'little')`: fewer than two
    * bytes past the end of the side give a shorter number. */
  function LengthAt(track: seq<byte>, c: nat): (n: nat)
    ensures n < 0x1_0000
    ensures c + 2 <= |track| ==> n == Le16(track[c], track[c + 1])
  {
    if c + 2 <= |track| then Le16(track[c], track[c + 1])
    else if c < |track| then track[c] as nat
    else 0
  }

  /** What one pass of the outer loop does: finds the next sector and moves
    * past it, stops at the first missing marker, or raises. */
  datatype Step = Next(after: Scan) | Stop(at: Scan) | Raise

  /**
   * One pass of the outer loop. The first sync run must start within 100
   * bytes of the cursor; it is marked up to its last 0x06.
   */
  function SectorStep(track: seq<byte>, lenFix: bool, s: Scan): (r: Step)
    requires |track| <= TrackSideBytes && |s.mask| == TrackSideBytes
    ensures r.Next? ==> |r.after.mask| == TrackSideBytes && r.after.nSect == s.nSect + 1
    ensures r.Next? ==> r.after.cur >= s.cur + (if lenFix then 32 else 532)
    ensures r.Stop? ==> |r.at.mask| == TrackSideBytes && r.at.nSect == s.nSect
    ensures |track| == TrackSideBytes ==> !r.Raise?
  {
    var p1 := Find(track, SyncRun, s.cur, s.cur + 100);
    if p1 == -1 then Stop(s)
    else
      assert p1 < |track|;
      match MarkRun(track, s.(mask := s.mask[p1 := true], cur := p1 + 1))
      case None => Raise
      case Some(s1) => AfterFirstRun(track, lenFix, s1)
  }

  /**
   * The rest of a pass after the first run: the address mark within 10 bytes
   * of the end of the run; the second run within 20 bytes of the point 7
   * bytes past the address mark, marked like the first.
   */
  function AfterFirstRun(track: seq<byte>, lenFix: bool, s1: Scan): (r: Step)
    requires |track| <= TrackSideBytes && |s1.mask| == TrackSideBytes
    ensures r.Next? ==> |r.after.mask| == TrackSideBytes && r.after.nSect == s1.nSect + 1
    ensures r.Next? ==> r.after.cur >= s1.cur + (if lenFix then 32 else 532)
    ensures r.Stop? ==> |r.at.mask| == TrackSideBytes && r.at.nSect == s1.nSect
    ensures |track| == TrackSideBytes ==> !r.Raise?
  {
    var p2 := Find(track, AddressMark, s1.cur, s1.cur + 10);
    if p2 == -1 then Stop(s1)
    else
      var p3 := Find(track, SyncRun, p2 + 7, p2 + 7 + 20);
      if p3 == -1 then Stop(s1.(cur := p2 + 7))
      else
        assert p3 < |track|;
        match MarkRun(track, s1.(mask := s1.mask[p3 := true], cur := p3 + 1))
        case None => Raise
        case Some(s2) => AfterSecondRun(track, lenFix, s2)
  }

  /**
   * The end of a pass: the data mark within 20 bytes of the end of the second
   * run. The sector counts, and the cursor jumps 530 bytes past the mark, or,
   * in length mode, past the data field whose little-endian length follows
   * the mark, plus 30.
   */
  function AfterSecondRun(track: seq<byte>, lenFix: bool, s2: Scan): (r: Step)
    requires |s2.mask| == TrackSideBytes
    ensures r.Next? ==> r.after.mask == s2.mask && r.after.nSect == s2.nSect + 1
    ensures r.Next? ==> r.after.cur >= s2.cur + (if lenFix then 32 else 532)
    ensures r.Stop? ==> r.at == s2
    ensures !r.Raise?
  {
    var p4 := Find(track, DataMark, s2.cur, s2.cur + 20);
    if p4 == -1 then Stop(s2)
    else
      var c := p4 + 2;
      Next(Scan(s2.mask, s2.nSect + 1, if lenFix then c + LengthAt(track, c) + 30 else c + 530))
  }

  /** The outer loop, from scan state `s` on, while the cursor is below 3125
    * and fewer than five sectors have been found. */
  function ScanFrom(track: seq<byte>, lenFix: bool, s: Scan): (r: Option<Scan>)
    requires |track| <= TrackSideBytes && |s.mask| == TrackSideBytes
    ensures r.Some? ==> |r.value.mask| == TrackSideBytes && s.nSect <= r.value.nSect
    ensures r.Some? && s.nSect <= MaxSectors ==> r.value.nSect <= MaxSectors
    ensures |track| == TrackSideBytes ==> r.Some?
    decreases TrackSideBytes - s.cur
  {
    if s.cur >= TrackSideBytes || s.nSect >= MaxSectors then Some(s)
    else
      match SectorStep(track, lenFix, s)
      case Raise => None
      case Stop(t) => Some(t)
      case Next(t) => ScanFrom(track, lenFix, t)
  }

  /** The whole result of `find_syncrobytes` on one side. */
  function Syncrobytes(track: seq<byte>, lenFix: bool): Option<Scan>
    requires |track| <= TrackSideBytes
  {
    ScanFrom(track, lenFix, InitialScan())
  }

  /** The marks a pass leaves, whichever way it ends. */
  predicate StepMarksSyncBytes(track: seq<byte>, r: Step)
  {
    match r
    case Next(t) => MarksSyncBytes(track, t.mask)
    case Stop(t) => MarksSyncBytes(track, t.mask)
    case Raise => true
  }

  /** Extending a run marks only 0x06 bytes. */
  lemma {:induction false} MarkRunSound(track: seq<byte>, s: Scan)
    requires |s.mask| == TrackSideBytes && MarksSyncBytes(track, s.mask)
    ensures MarkRun(track, s).Some? ==> MarksSyncBytes(track, MarkRun(track, s).value.mask)
    decreases TrackSideBytes - s.cur
  {
    if s.cur < TrackSideBytes && s.cur < |track| && track[s.cur] == 0x06 {
      var next := s.(mask := s.mask[s.cur := true], cur := s.cur + 1);
      assert MarksSyncBytes(track, next.mask);
      MarkRunSound(track, next);
    }
  }

  /** A pass marks only 0x06 bytes: the first byte of each run it finds and
    * the bytes it extends the run over. */
  lemma SectorStepSound(track: seq<byte>, lenFix: bool, s: Scan)
    requires |track| <= TrackSideBytes && |s.mask| == TrackSideBytes && MarksSyncBytes(track, s.mask)
    ensures StepMarksSyncBytes(track, SectorStep(track, lenFix, s))
  {
    var p1 := Find(track, SyncRun, s.cur, s.cur + 100);
    if p1 != -1 {
      MarkRunStart(track, s.mask, p1);
      var s0 := s.(mask := s.mask[p1 := true], cur := p1 + 1);
      MarkRunSound(track, s0);
      if MarkRun(track, s0).Some? {
        AfterFirstRunSound(track, lenFix, MarkRun(track, s0).value);
      }
    }
  }

  lemma AfterFirstRunSound(track: seq<byte>, lenFix: bool, s1: Scan)
    requires |track| <= TrackSideBytes && |s1.mask| == TrackSideBytes && MarksSyncBytes(track, s1.mask)
    ensures StepMarksSyncBytes(track, AfterFirstRun(track, lenFix, s1))
  {
    var p2 := Find(track, AddressMark, s1.cur, s1.cur + 10);
    if p2 != -1 {
      var p3 := Find(track, SyncRun, p2 + 7, p2 + 7 + 20);
      if p3 != -1 {
        SecondRunSound(track, s1, p3);
      }
    }
  }

  /** The second sync run of a pass, found at `p3`, marks only 0x06 bytes. */
  lemma SecondRunSound(track: seq<byte>, s1: Scan, p3: int)
    requires |s1.mask| == TrackSideBytes && MarksSyncBytes(track, s1.mask)
    requires 0 <= p3 < TrackSideBytes && MatchAt(track, SyncRun, p3) && p3 < |track|
    ensures var s0 := s1.(mask := s1.mask[p3 := true], cur := p3 + 1);
      MarkRun(track, s0).Some? ==> MarksSyncBytes(track, MarkRun(track, s0).value.mask)
  {
    MarkRunStart(track, s1.mask, p3);
    MarkRunSound(track, s1.(mask := s1.mask[p3 := true], cur := p3 + 1));
  }

  /** The whole scan marks only 0x06 bytes. */
  lemma {:induction false} ScanFromSound(track: seq<byte>, lenFix: bool, s: Scan)
    requires |track| <= TrackSideBytes && |s.mask| == TrackSideBytes && MarksSyncBytes(track, s.mask)
    ensures ScanFrom(track, lenFix, s).Some? ==> MarksSyncBytes(track, ScanFrom(track, lenFix, s).value.mask)
    decreases TrackSideBytes - s.cur
  {
    if s.cur < TrackSideBytes && s.nSect < MaxSectors {
      SectorStepSound(track, lenFix, s);
      var step := SectorStep(track, lenFix, s);
      if step.Next? {
        ScanFromSound(track, lenFix, step.after);
      }
    }
  }

  /**
   * What the caller relies on: a full 3125-byte side never raises, the mask
   * has one entry per byte of a side, at most five sectors are counted, and
   * every marked byte is a 0x06 of the side.
   */
  lemma SyncrobytesSound(track: seq<byte>, lenFix: bool)
    requires |track| <= TrackSideBytes
    ensures |track| == TrackSideBytes ==> Syncrobytes(track, lenFix).Some?
    ensures var r := Syncrobytes(track, lenFix);
      r.Some? ==>
        |r.value.mask| == TrackSideBytes && r.value.nSect <= MaxSectors && MarksSyncBytes(track, r.value.mask)
  {
    ScanFromSound(track, lenFix, InitialScan());
  }

  /**
   * `find_syncrobytes`: the loops of the source, computing `Syncrobytes`.
   * The caller always passes a slice of at most 3125 bytes.
   */
  method FindSyncBytes(track: seq<byte>, lenFix: bool) returns (r: Option<Scan>)
    requires |track| <= TrackSideBytes
    ensures r == Syncrobytes(track, lenFix)
  {
    var mask := seq(TrackSideBytes, _ => false);
    var nSect: nat := 0;
    var cur: nat := 0;
    while cur < TrackSideBytes && nSect < MaxSectors
      invariant |mask| == TrackSideBytes
      invariant ScanFrom(track, lenFix, Scan(mask, nSect, cur)) == Syncrobytes(track, lenFix)
      decreases TrackSideBytes - cur
    {
      var step := NextSector(track, lenFix, Scan(mask, nSect, cur));
      match step
      case Raise =>
        return None;
      case Stop(t) =>
        mask, nSect, cur := t.mask, t.nSect, t.cur;
        break;
      case Next(t) =>
        mask, nSect, cur := t.mask, t.nSect, t.cur;
    }
    r := Some(Scan(mask, nSect, cur));
  }

  /**
   * The body of the outer loop of `find_syncrobytes`, computing
   * `SectorStep`: each `break` of the source is a `Stop` here, and a cursor
   * that runs off a short side a `Raise`.
   */
  method NextSector(track: seq<byte>, lenFix: bool, s: Scan) returns (r: Step)
    requires |track| <= TrackSideBytes && |s.mask| == TrackSideBytes
    ensures r == SectorStep(track, lenFix, s)
  {
    var mask, nSect, cur := s.mask, s.nSect, s.cur;
    var pos := Find(track, SyncRun, cur, cur + 100);
    if pos == -1 {
      return Stop(s);
    }
    mask := mask[pos := true];
    cur := pos + 1;
    var run := ExtendRun(track, Scan(mask, nSect, cur));
    if run.None? {
      return Raise;
    }
    var s1 := run.value;
    assert SectorStep(track, lenFix, s) == AfterFirstRun(track, lenFix, s1);
    r := FinishSector(track, lenFix, s1);
  }

  /** The second half of the outer loop's body, computing `AfterFirstRun`:
    * from the end of the first sync run on. */
  method FinishSector(track: seq<byte>, lenFix: bool, s1: Scan) returns (r: Step)
    requires |track| <= TrackSideBytes && |s1.mask| == TrackSideBytes
    ensures r == AfterFirstRun(track, lenFix, s1)
  {
    var mask, nSect, cur := s1.mask, s1.nSect, s1.cur;
    var pos := Find(track, AddressMark, cur, cur + 10);
    if pos == -1 {
      return Stop(s1);
    }
    cur := pos + 7;

    pos := Find(track, SyncRun, cur, cur + 20);
    if pos == -1 {
      return Stop(Scan(mask, nSect, cur));
    }
    mask := mask[pos := true];
    cur := pos + 1;
    var run := ExtendRun(track, Scan(mask, nSect, cur));
    if run.None? {
      return Raise;
    }
    var s2 := run.value;
    assert AfterFirstRun(track, lenFix, s1) == AfterSecondRun(track, lenFix, s2);
    r := FinishData(track, lenFix, s2);
  }

  /** The last part of the outer loop's body, computing `AfterSecondRun`:
    * the data mark and the jump over the data field. */
  method FinishData(track: seq<byte>, lenFix: bool, s2: Scan) returns (r: Step)
    requires |s2.mask| == TrackSideBytes
    ensures r == AfterSecondRun(track, lenFix, s2)
  {
    var mask, nSect, cur := s2.mask, s2.nSect, s2.cur;
    var pos := Find(track, DataMark, cur, cur + 20);
    if pos == -1 {
      return Stop(s2);
    }
    cur := pos + 2;
    nSect := nSect + 1;
    if !lenFix {
      cur := cur + 530;
    } else {
      var size := LengthAt(track, cur);
      cur := cur + size + 30;
    }
    r := Next(Scan(mask, nSect, cur));
  }

  /** The inner `while` of `find_syncrobytes`, computing `MarkRun`. */
  method ExtendRun(track: seq<byte>, s: Scan) returns (r: Option<Scan>)
    requires |s.mask| == TrackSideBytes
    ensures r == MarkRun(track, s)
  {
    var mask, cur := s.mask, s.cur;
    while cur < TrackSideBytes
      invariant |mask| == TrackSideBytes
      invariant MarkRun(track, Scan(mask, s.nSect, cur)) == MarkRun(track, s)
      decreases TrackSideBytes - cur
    {
      if cur >= |track| {
        return None;
      }
      if track[cur] != 0x06 {
        break;
      }
      mask := mask[cur := true];
      cur := cur + 1;
    }
    r := Some(Scan(mask, s.nSect, cur));
  }
}
