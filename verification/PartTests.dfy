/** The memory tests as a CPU runs them: each on its own part of every segment. */
module PartTests {
  import opened Chunks
  import opened MovInv
  import opened Parts
  import opened Patterns
  import opened Words
  import BlockMove
  import ModTst
  import MovInv1
  import MovInv32

  /** What compute_segments leaves in v->map: segments of one window that do not overlap. */
  predicate SegmentsOk(segs: seq<Segment>, size: nat) {
    && size <= SPACE
    && (forall i | 0 <= i < |segs| :: WindowSegment(segs[i]) && segs[i].end / 4 < size)
    && (forall i, j | 0 <= i < j < |segs| :: segs[i].end < segs[j].start || segs[j].end < segs[i].start)
  }

  function PartRanges(segs: seq<Segment>, me: nat, runCpus: nat, multiple: nat): (r: seq<Range>)
    requires forall s | s in segs :: WindowSegment(s)
    requires me < runCpus && multiple > 0 && multiple % 4 == 0
    ensures |r| == |segs| && forall i | 0 <= i < |segs| :: r[i] == PartRange(segs[i], me, runCpus, multiple)
  {
    seq(|segs|, i requires 0 <= i < |segs| => PartRange(segs[i], me, runCpus, multiple))
  }

  /** The bounds of all parts, as calculate_chunk hands them out. */
  method GiveParts(segs: seq<Segment>, me: nat, runCpus: nat, makeMultipleOf: nat) returns (ranges: seq<Range>)
    requires forall s | s in segs :: WindowSegment(s)
    requires me < runCpus <= MOST_CPUS && makeMultipleOf in {4, 64, 256}
    ensures ranges == PartRanges(segs, me, runCpus, makeMultipleOf)
  {
    hide WindowSegment, Part, PartRange;
    ranges := [];
    var j := 0;
    while j < |segs|
      invariant 0 <= j <= |segs| && |ranges| == j
      invariant forall i | 0 <= i < j :: ranges[i] == PartRange(segs[i], me, runCpus, makeMultipleOf)
    {
      assert WindowSegment(segs[j]);
      PartWord(segs[j], me, runCpus, makeMultipleOf);
      var start, end := CalculateChunk(segs[j], me, runCpus, runCpus - 1, makeMultipleOf);
      ranges := ranges + [Range(start / 4, end / 4)];
      j := j + 1;
    }
  }

  lemma PartWord(s: Segment, me: nat, runCpus: nat, multiple: nat)
    requires WindowSegment(s) && me < runCpus && multiple > 0 && multiple % 4 == 0
    ensures SegmentOk(s)
    ensures var (a, z) := Part(s, me, runCpus, runCpus - 1, multiple);
            0 <= z < TWO32 && PartRange(s, me, runCpus, multiple) == Range(a / 4, z / 4)
  {
    hide Part;
    PartOnDwords(s, me, runCpus, multiple);
  }

  /** Parts of different segments do not overlap. */
  lemma PartsApart(segs: seq<Segment>, me: nat, runCpus: nat, multiple: nat, size: nat)
    requires SegmentsOk(segs, size) && me < runCpus && multiple > 0 && multiple % 4 == 0
    ensures Disjoint(PartRanges(segs, me, runCpus, multiple))
  {
    hide WindowSegment, Part, PartRange;
    var ranges := PartRanges(segs, me, runCpus, multiple);
    forall i, j | 0 <= i < j < |ranges| ensures ranges[i].hi < ranges[j].lo || ranges[j].hi < ranges[i].lo {
      PartInsideSegment(segs[i], me, runCpus, multiple);
      PartInsideSegment(segs[j], me, runCpus, multiple);
    }
  }

  lemma PartInsideSegment(s: Segment, me: nat, runCpus: nat, multiple: nat)
    requires WindowSegment(s) && me < runCpus && multiple > 0 && multiple % 4 == 0
    ensures var r := PartRange(s, me, runCpus, multiple); s.start <= r.lo * 4 && r.hi * 4 <= s.end
  {
    hide Part;
    PartOnDwords(s, me, runCpus, multiple);
  }

  /** p1 has been written to one CPU's parts, and nothing else has changed. */
  ghost predicate HasRun(f: Cells, m: seq<bv32>, m': seq<bv32>, segs: seq<Segment>, me: nat, runCpus: nat, p1: bv32)
    requires (forall s | s in segs :: WindowSegment(s)) && me < runCpus
  {
    && SameElsewhere(m, m', PartRanges(segs, me, runCpus, 4))
    && forall r | r in PartRanges(segs, me, runCpus, 4) :: MovInv1.Hold(f, m', r.lo, r.hi + 1, p1)
  }

  /** movinv1 reports an error exactly when some dword of the CPU's parts does not take one of the patterns (and
      an iteration is made), leaves the first pattern in all of them, and touches nothing else. */
  method MovInv1OnParts(f: Cells, mem: array<bv32>, segs: seq<Segment>, me: nat, runCpus: nat, iter: nat,
                        p1: bv32, p2: bv32) returns (errors: nat)
    requires SegmentsOk(segs, mem.Length) && me < runCpus <= MOST_CPUS
    modifies mem
    ensures errors == 0 <==> iter == 0 || MovInv1.NoFault(f, PartRanges(segs, me, runCpus, 4), p1, p2)
    ensures HasRun(f, old(mem[..]), mem[..], segs, me, runCpus, p1)
    ensures Sound(f) ==>
              && errors == 0
              && forall r | r in PartRanges(segs, me, runCpus, 4) :: MovInv1.AllAre(mem[..], r.lo, r.hi + 1, p1)
  {
    hide WindowSegment, Part, PartRange, MovInv1.Tiled, MovInv1.AllAre, SameElsewhere, MovInv1.NoOverrun;
    hide MovInv1.NoFault, MovInv1.Hold, Sound;
    var ranges := GiveParts(segs, me, runCpus, 4);
    PartsApart(segs, me, runCpus, 4, mem.Length);
    forall i | 0 <= i < |ranges| ensures ranges[i].lo <= ranges[i].hi < mem.Length && MovInv1.Tiled(ranges[i]) {
      PartTiled(segs[i], me, runCpus);
      PartInsideSegment(segs[i], me, runCpus, 4);
    }
    var inside;
    inside, errors := MovInv1.MovInv1(f, mem, ranges, iter, p1, p2);
  }

  // ---------- all CPUs ----------

  /** CPUs have run one after another, in some order: order[i] turned ms[i] into ms[i + 1]. */
  ghost predicate Runs(f: Cells, ms: seq<seq<bv32>>, order: seq<nat>, segs: seq<Segment>, runCpus: nat, p1: bv32)
    requires forall s | s in segs :: WindowSegment(s)
  {
    && |ms| == |order| + 1
    && forall i | 0 <= i < |order| :: order[i] < runCpus && HasRun(f, ms[i], ms[i + 1], segs, order[i], runCpus, p1)
  }

  /** The parts of different CPUs do not overlap. */
  lemma CpusApart(segs: seq<Segment>, me: nat, you: nat, runCpus: nat, size: nat, i: nat, n: int)
    requires SegmentsOk(segs, size) && me < runCpus && you < runCpus && me != you && i < |segs|
    requires var r := PartRange(segs[i], me, runCpus, 4); r.lo <= n <= r.hi
    ensures !InRanges(PartRanges(segs, you, runCpus, 4), n)
  {
    hide WindowSegment, Part, PartRange;
    SegmentIsOk(segs[i]);
    PartInsideSegment(segs[i], me, runCpus, 4);
    var ranges := PartRanges(segs, you, runCpus, 4);
    forall j | 0 <= j < |ranges| ensures !(ranges[j].lo <= n <= ranges[j].hi) {
      PartInsideSegment(segs[j], you, runCpus, 4);
      if i == j {
        PartsDisjoint(segs[i], if me < you then me else you, if me < you then you else me, runCpus, 4, 4 * n);
      }
    }
  }

  /** After k runs, the part of a CPU that is among them holds the first pattern. */
  lemma {:induction false} RunsKeep(f: Cells, ms: seq<seq<bv32>>, order: seq<nat>, segs: seq<Segment>,
                                    runCpus: nat, p1: bv32, k: nat, me: nat, i: nat, n: int)
    requires ms != [] && SegmentsOk(segs, |ms[0]|) && Runs(f, ms, order, segs, runCpus, p1) && k <= |order|
    requires me in order[..k] && i < |segs|
    requires me < runCpus && var r := PartRange(segs[i], me, runCpus, 4); r.lo <= n <= r.hi
    ensures 0 <= n < |ms[k]| && ms[k][n] == f(n, p1)
    decreases k
  {
    hide WindowSegment, Part, PartRange;
    var you := order[k - 1];
    assert HasRun(f, ms[k - 1], ms[k - 1 + 1], segs, you, runCpus, p1);
    if you == me {
      assert PartRanges(segs, me, runCpus, 4)[i] in PartRanges(segs, me, runCpus, 4);
    } else {
      assert order[..k] == order[..k - 1] + [you];
      RunsKeep(f, ms, order, segs, runCpus, p1, k - 1, me, i, n);
      CpusApart(segs, me, you, runCpus, |ms[0]|, i, n);
    }
  }

  /** Once every CPU has run movinv1, in whatever order, the first pattern has been written to every dword of
      every segment; on fault-free memory they all hold it. */
  lemma AllCpusCover(f: Cells, ms: seq<seq<bv32>>, order: seq<nat>, segs: seq<Segment>, runCpus: nat, p1: bv32,
                     i: nat, n: int)
    requires ms != [] && SegmentsOk(segs, |ms[0]|) && Runs(f, ms, order, segs, runCpus, p1) && runCpus > 0
    requires forall me: nat | me < runCpus :: me in order
    requires i < |segs| && segs[i].start <= 4 * n <= segs[i].end
    ensures 0 <= n < |ms[|order|]| && ms[|order|][n] == f(n, p1)
    ensures Sound(f) ==> ms[|order|][n] == p1
  {
    hide WindowSegment, Part, PartRange;
    SegmentIsOk(segs[i]);
    var me := Owner(segs[i], runCpus, 4, 4 * n);
    assert order[..|order|] == order;
    RunsKeep(f, ms, order, segs, runCpus, p1, |order|, me, i, n);
  }

  /** All the CPUs together find every fault: none of them reports an error exactly when every dword of every
      segment takes both patterns. */
  lemma AllCpusDetectIff(f: Cells, segs: seq<Segment>, runCpus: nat, p1: bv32, p2: bv32, size: nat)
    requires SegmentsOk(segs, size) && runCpus > 0
    ensures (forall me: nat | me < runCpus :: MovInv1.NoFault(f, PartRanges(segs, me, runCpus, 4), p1, p2))
       <==> forall i, n: nat | 0 <= i < |segs| && segs[i].start <= 4 * n <= segs[i].end ::
              f(n, p1) == p1 && f(n, p2) == p2
  {
    hide WindowSegment, Part, PartRange;
    if forall me: nat | me < runCpus :: MovInv1.NoFault(f, PartRanges(segs, me, runCpus, 4), p1, p2) {
      forall i, n: nat | 0 <= i < |segs| && segs[i].start <= 4 * n <= segs[i].end
        ensures f(n, p1) == p1 && f(n, p2) == p2
      {
        SegmentIsOk(segs[i]);
        var me := Owner(segs[i], runCpus, 4, 4 * n);
        assert MovInv1.NoFault(f, PartRanges(segs, me, runCpus, 4), p1, p2);
        assert PartRanges(segs, me, runCpus, 4)[i] == PartRange(segs[i], me, runCpus, 4);
      }
    } else {
      var me: nat :| me < runCpus && !MovInv1.NoFault(f, PartRanges(segs, me, runCpus, 4), p1, p2);
      FaultInside(f, segs, me, runCpus, p1, p2, size);
    }
  }

  lemma FaultInside(f: Cells, segs: seq<Segment>, me: nat, runCpus: nat, p1: bv32, p2: bv32, size: nat)
    requires SegmentsOk(segs, size) && me < runCpus
    requires !MovInv1.NoFault(f, PartRanges(segs, me, runCpus, 4), p1, p2)
    ensures exists i, n: nat :: 0 <= i < |segs| && segs[i].start <= 4 * n <= segs[i].end &&
              !(f(n, p1) == p1 && f(n, p2) == p2)
  {
    hide WindowSegment, Part, PartRange;
    var ranges := PartRanges(segs, me, runCpus, 4);
    var i, n: nat :| 0 <= i < |ranges| && ranges[i].lo <= n <= ranges[i].hi && !(f(n, p1) == p1 && f(n, p2) == p2);
    PartInsideSegment(segs[i], me, runCpus, 4);
  }

  // ---------- the other tests ----------

  /** modtst reports an error exactly when some dword of the strides does not take the first pattern; on every
      part every 20th dword is left with it and, after an iteration, every dword between them with the second. */
  method ModTstOnParts(f: Cells, mem: array<bv32>, segs: seq<Segment>, me: nat, runCpus: nat, offset: nat, iter: nat,
                       p1: bv32, p2: bv32) returns (errors: nat)
    requires SegmentsOk(segs, mem.Length) && me < runCpus <= MOST_CPUS && offset < ModTst.MOD_SZ
    modifies mem
    ensures forall r | r in PartRanges(segs, me, runCpus, 4) ::
              ModTst.StrideOk(r, offset, mem.Length)
              && ModTst.EveryTwentieth(f, old(mem[..]), mem[..], r, offset, p1, p2, iter > 0, r.hi + 1)
    ensures errors == 0 <==>
              forall r | r in PartRanges(segs, me, runCpus, 4) :: ModTst.GridTakes(f, r, offset, p1)
    ensures Sound(f) ==> errors == 0
    ensures SameElsewhere(old(mem[..]), mem[..], PartRanges(segs, me, runCpus, 4))
  {
    hide WindowSegment, Part, PartRange, MovInv1.Tiled, MovInv1.UpEnd, SameElsewhere, Sound;
    hide ModTst.Strided, ModTst.Twentieth, ModTst.GridEnd, ModTst.EveryTwentieth, ModTst.RangeIs, ModTst.GridTakes;
    var ranges := GiveParts(segs, me, runCpus, 4);
    PartsApart(segs, me, runCpus, 4, mem.Length);
    forall i | 0 <= i < |ranges|
      ensures ModTst.StrideOk(ranges[i], offset, mem.Length) && MovInv1.UpEnd(ranges[i]) == ranges[i].hi + 1
    {
      PartStrides(segs[i], me, runCpus, offset, mem.Length);
      PartTiled(segs[i], me, runCpus);
      MovInv1.TiledIff(ranges[i]);
    }
    ModTst.AllTaken(f, ranges, offset, p1, mem.Length);
    ModTst.TakenByRange(f, ranges, offset, p1, mem.Length);
    errors := ModTst.ModTst(f, mem, ranges, offset, iter, p1, p2);
  }

  /** block_move reports an error exactly when two dwords of a pair differ in the end, and touches nothing outside
      the CPU's parts. On fault-free memory that never happens, and every part has been filled block by block and
      then moved round by round. */
  method BlockMoveOnParts(f: Cells, mem: array<bv32>, segs: seq<Segment>, me: nat, runCpus: nat, iter: nat)
      returns (errors: nat)
    requires SegmentsOk(segs, mem.Length) && me < runCpus <= MOST_CPUS
    modifies mem
    ensures errors == 0 <==>
              forall r, q | r in PartRanges(segs, me, runCpus, 64) && r.lo <= q <= r.hi && q % 2 == 0 ::
                BlockMove.Twin(mem[..], q)
    ensures Sound(f) ==>
              errors == 0 && forall r | r in PartRanges(segs, me, runCpus, 64) :: BlockMove.RangeMoved(mem[..], r, iter)
    ensures SameElsewhere(old(mem[..]), mem[..], PartRanges(segs, me, runCpus, 64))
  {
    hide WindowSegment, Part, PartRange, SameElsewhere, BlockMove.OnBlock, BlockMove.RangeMoved, Sound;
    hide BlockMove.RangesWritten, BlockMove.Twin;
    var ranges := GiveParts(segs, me, runCpus, 64);
    PartsApart(segs, me, runCpus, 64, mem.Length);
    forall i | 0 <= i < |ranges| ensures BlockMove.BlocksOk(ranges[i], mem.Length) {
      PartBlocks(segs[i], me, runCpus, mem.Length);
    }
    errors := BlockMove.BlockMoveTest(f, mem, ranges, iter);
  }

  /** Every CPU has 256 bytes of the segment, or this one is the master. */
  predicate HasPeriods(s: Segment, me: nat, runCpus: nat) {
    Bytes(s) >= 256 * runCpus || me == runCpus - 1
  }

  /** What a test touches on account of a part stays away from the parts of other segments, also when parts
      are empty. */
  lemma PartsTouchApart(segs: seq<Segment>, me: nat, runCpus: nat, size: nat)
    requires SegmentsOk(segs, size) && me < runCpus <= MOST_CPUS
    ensures MovInv32.RangesOk(PartRanges(segs, me, runCpus, 256), size)
  {
    hide WindowSegment, Part, PartRange;
    var ranges := PartRanges(segs, me, runCpus, 256);
    var t := MovInv32.TouchedRanges(ranges);
    forall i | 0 <= i < |ranges| ensures RangeOk(ranges[i], size) || EmptyRange(ranges[i], size) {
      SegmentIsOk(segs[i]);
      PartPeriodsIff(segs[i], me, runCpus, size);
      PartInsideSegment(segs[i], me, runCpus, 256);
    }
    forall i, j | 0 <= i < j < |t| ensures t[i].hi < t[j].lo || t[j].hi < t[i].lo {
      TouchedInSegment(segs[i], me, runCpus, size);
      TouchedInSegment(segs[j], me, runCpus, size);
      SegmentIsOk(segs[i]);
      SegmentIsOk(segs[j]);
    }
  }

  /** Only the master's part reaches the end of the segment, and only another CPU's can be empty. */
  lemma TouchedInSegment(s: Segment, me: nat, runCpus: nat, size: nat)
    requires WindowSegment(s) && me < runCpus <= MOST_CPUS && s.end / 4 < size <= SPACE
    ensures var t := MovInv32.Touched(PartRange(s, me, runCpus, 256));
            && s.start - 4 <= t.lo * 4 && t.hi * 4 <= s.end
            && (me == runCpus - 1 ==> s.start <= t.lo * 4) && (me < runCpus - 1 ==> t.hi * 4 < s.end - 4)
  {
    SegmentIsOk(s);
    SegmentBytes(s);
    PartPeriodsIff(s, me, runCpus, size);
    PartInsideSegment(s, me, runCpus, 256);
    hide ChunkBytes, Skip, WindowSegment, PartRange;
    if me < runCpus - 1 && RangeOk(PartRange(s, me, runCpus, 256), size) {
      ChunkFits(s, me + 1, runCpus, 256);
      SkipApart(s, me, me + 1, runCpus, 256);
      ChunkNonEmptyIff(s, runCpus, 256);
      SkipAligned(s, me, runCpus, 256, 256);
    }
  }

  /** movinv32, for any number of CPUs and whatever faults the memory has. When every segment has 256 bytes for
      each of them, or this CPU is the master, it reports an error exactly when some dword of its parts does not
      take the pattern of its phase or its complement (and an iteration is made), leaves that pattern in every
      dword of the parts and touches nothing else; otherwise it reports errors even on fault-free memory, from
      the second iteration on. */
  method MovInv32OnParts(f: Cells, mem: array<bv32>, segs: seq<Segment>, me: nat, runCpus: nat, iter: nat,
                         p1: bv32, p: Pattern, off: nat) returns (errors: nat)
    requires SegmentsOk(segs, mem.Length) && me < runCpus <= MOST_CPUS
    requires Reversible(p) && off < 32 && p1 == At(p, off)
    modifies mem
    ensures Sound(f) && iter >= 2 ==> (errors == 0 <==> forall s | s in segs :: HasPeriods(s, me, runCpus))
    ensures (forall s | s in segs :: HasPeriods(s, me, runCpus)) ==>
              && (errors == 0 <==> iter == 0 || MovInv32.NoFault(f, PartRanges(segs, me, runCpus, 256), p, off))
              && (forall r | r in PartRanges(segs, me, runCpus, 256) :: MovInv32.PeriodicWritten(f, mem[..], r, p, off))
              && SameElsewhere(old(mem[..]), mem[..], PartRanges(segs, me, runCpus, 256))
    ensures Sound(f) && (forall s | s in segs :: HasPeriods(s, me, runCpus)) ==>
              && errors == 0
              && forall r | r in PartRanges(segs, me, runCpus, 256) :: MovInv32.Periodic(mem[..], r, p, off)
    ensures SameElsewhere(old(mem[..]), mem[..], MovInv32.TouchedRanges(PartRanges(segs, me, runCpus, 256)))
  {
    hide WindowSegment, Part, PartRange, At, Reversible, HasPeriods, MovInv32.Periodic, SameElsewhere;
    hide MovInv32.RangesOk, MovInv32.NoneEmpty, MovInv32.NoFault, MovInv32.PeriodicWritten, Sound;
    var ranges := GiveParts(segs, me, runCpus, 256);
    PartsTouchApart(segs, me, runCpus, mem.Length);
    NoneEmptyIff(segs, me, runCpus, mem.Length);
    if MovInv32.NoneEmpty(ranges) {
      MovInv32.NoneEmptyTouched(ranges);
    }
    errors := MovInv32.MovInv32(f, mem, ranges, iter, p1, p, off);
  }

  lemma NoneEmptyIff(segs: seq<Segment>, me: nat, runCpus: nat, size: nat)
    requires SegmentsOk(segs, size) && me < runCpus
    ensures MovInv32.NoneEmpty(PartRanges(segs, me, runCpus, 256))
       <==> forall s | s in segs :: HasPeriods(s, me, runCpus)
  {
    hide WindowSegment, Part, PartRange;
    var ranges := PartRanges(segs, me, runCpus, 256);
    forall i | 0 <= i < |segs| ensures ranges[i].lo <= ranges[i].hi <==> HasPeriods(segs[i], me, runCpus) {
      PartPeriodsIff(segs[i], me, runCpus, size);
    }
    forall s | s in segs ensures exists i :: 0 <= i < |segs| && segs[i] == s {
    }
  }
}
