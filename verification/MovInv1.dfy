/** movinv1: moving inversions with one pattern and its complement. Its spans do not
    tile every range; exactly which ranges they tile is part of what is proved, and module Parts shows that
    the CPUs' parts of a segment always are such. */
module MovInv1 {
  import opened Arith
  import opened MovInv

  /** What a sweep does at every dword: compare with wanted if it checks, and write. */
  datatype Job = Job(check: bool, wanted: bv32, write: bv32)

  ghost predicate AllAre(m: seq<bv32>, lo: int, hi: int, v: bv32) {
    0 <= lo && hi <= |m| && forall n | lo <= n < hi :: m[n] == v
  }

  /** Dwords lo..hi-1 hold what a write of v leaves in them. */
  ghost predicate Hold(f: Cells, m: seq<bv32>, lo: int, hi: int, v: bv32) {
    0 <= lo && hi <= |m| && forall n | lo <= n < hi :: m[n] == f(n, v)
  }

  /** From m0, dwords lo..hi-1 have been handled and nothing else. */
  ghost predicate Applied(job: Job, f: Cells, m0: seq<bv32>, m: seq<bv32>, lo: int, hi: int, bad: nat) {
    && SameOutside(m0, m, lo, hi)
    && Hold(f, m, lo, hi, job.write)
    && (bad == 0 <==> !job.check || AllAre(m0, lo, hi, job.wanted))
  }

  lemma AppliedNothing(job: Job, f: Cells, m: seq<bv32>, n: nat)
    requires n <= |m|
    ensures Applied(job, f, m, m, n, n, 0)
  {
  }

  lemma AppliedJoin(job: Job, f: Cells, m0: seq<bv32>, m1: seq<bv32>, m2: seq<bv32>, lo: int, mid: int, hi: int,
                    bad1: nat, bad2: nat)
    requires lo <= mid <= hi
    requires (Applied(job, f, m0, m1, lo, mid, bad1) && Applied(job, f, m1, m2, mid, hi, bad2))
          || (Applied(job, f, m0, m1, mid, hi, bad1) && Applied(job, f, m1, m2, lo, mid, bad2))
    ensures Applied(job, f, m0, m2, lo, hi, bad1 + bad2)
  {
  }

  // ---------- which ranges the spans tile ----------

  /** Steps of SPINSZ from either end meet the other end in the middle of a span. */
  predicate Tiled(r: Range)
    requires r.lo <= r.hi
  {
    r.hi - r.lo == 1 || (r.hi - r.lo) % SPINSZ > 1
  }

  /** The last upward span would be the single dword hi, where p == pe ends the loop. */
  predicate SkipsLast(r: Range)
    requires r.lo <= r.hi
  {
    r.lo != 0 && r.hi - r.lo > 1 && (r.hi - r.lo) % SPINSZ == 1
  }

  /** Where an upward sweep ends. */
  function UpEnd(r: Range): nat
    requires r.lo <= r.hi
  {
    if r.lo == r.hi then r.lo else if SkipsLast(r) then r.hi else r.hi + 1
  }

  /** A downward sweep reaches lo at the end of a full span, and then starts another one below it. */
  predicate Overruns(r: Range)
    requires r.lo <= r.hi
  {
    r.lo < r.hi && (r.hi - r.lo) % SPINSZ == 0
  }

  /** Where a downward sweep that stays inside ends. */
  function DownEnd(r: Range): nat
    requires r.lo <= r.hi
  {
    if r.lo == r.hi then r.hi + 1
    else if r.hi - r.lo > 1 && (r.hi - r.lo) % SPINSZ == 1 then r.lo + 1
    else r.lo
  }

  /** Both sweeps handle exactly the dwords of the range, precisely when it is tiled. */
  lemma TiledIff(r: Range)
    requires r.lo <= r.hi
    ensures Tiled(r) <==> UpEnd(r) == r.hi + 1 && !Overruns(r) && DownEnd(r) == r.lo
  {
    if r.hi - r.lo == 1 {
      DivMod(1, SPINSZ, 0, 1);
    } else if r.hi == r.lo {
      DivMod(0, SPINSZ, 0, 0);
    }
  }

  /** From d, a multiple of SPINSZ, to e, at most a span further. */
  lemma SpanMod(d: nat, e: nat)
    requires d % SPINSZ == 0 && d < e <= d + SPINSZ
    ensures e % SPINSZ == if e == d + SPINSZ then 0 else e - d
  {
    var q := d / SPINSZ;
    assert d == q * SPINSZ;
    if e == d + SPINSZ {
      assert (q + 1) * SPINSZ == q * SPINSZ + SPINSZ;
      DivMod(e, SPINSZ, q + 1, 0);
    } else {
      DivMod(e, SPINSZ, q, e - d);
    }
  }

  // ---------- sweeps ----------

  /** One dword. */
  method Handle(job: Job, f: Cells, mem: array<bv32>, n: nat) returns (bad: nat)
    requires n < mem.Length
    modifies mem
    ensures Applied(job, f, old(mem[..]), mem[..], n, n + 1, bad)
  {
    ghost var m0 := mem[..];
    bad := if job.check && mem[n] != job.wanted then 1 else 0;
    mem[n] := f(n, job.write);
    assert mem[..] == m0[n := f(n, job.write)];
  }

  /** From dword p up to dword pe; the fill is a rep stosl of pe - p + 1 dwords. */
  method UpSpan(job: Job, f: Cells, mem: array<bv32>, p: nat, pe: nat) returns (bad: nat)
    requires p <= pe < mem.Length
    modifies mem
    ensures Applied(job, f, old(mem[..]), mem[..], p, pe + 1, bad)
  {
    hide Applied;
    ghost var m0 := mem[..];
    bad := Handle(job, f, mem, p);
    var n := p;
    while n < pe
      invariant p <= n <= pe
      invariant Applied(job, f, m0, mem[..], p, n + 1, bad)
    {
      n := n + 1;
      ghost var m1 := mem[..];
      var e := Handle(job, f, mem, n);
      AppliedJoin(job, f, m0, m1, mem[..], p, n, n + 1, bad, e);
      bad := bad + e;
    }
  }

  /** From dword p down to dword pe. */
  method DownSpan(job: Job, f: Cells, mem: array<bv32>, p: nat, pe: nat) returns (bad: nat)
    requires pe <= p < mem.Length
    modifies mem
    ensures Applied(job, f, old(mem[..]), mem[..], pe, p + 1, bad)
  {
    hide Applied;
    ghost var m0 := mem[..];
    bad := Handle(job, f, mem, p);
    var n := p;
    while n != pe
      invariant pe <= n <= p
      invariant Applied(job, f, m0, mem[..], n, p + 1, bad)
      decreases n
    {
      n := n - 1;
      ghost var m1 := mem[..];
      var e := Handle(job, f, mem, n);
      AppliedJoin(job, f, m0, m1, mem[..], n, n + 1, p + 1, bad, e);
      bad := bad + e;
    }
  }

  /** Where an upward sweep stands: nothing done, or whole spans up to pe. */
  predicate UpAt(r: Range, p: int, pe: int) {
    r.lo <= pe && if pe == r.lo then p == r.lo else r.lo != 0 && pe < r.hi && p == pe + 1 && (pe - r.lo) % SPINSZ == 0
  }

  lemma UpStep(r: Range, p: int, pe: nat)
    requires r.lo <= r.hi < SPACE && UpAt(r, p, pe) && pe <= r.hi
    ensures var pe' := NextUp(pe, r.hi);
            && pe' <= r.hi
            && (p == pe' ==> p == UpEnd(r))
            && (p != pe' ==> p < pe' && if pe' == r.hi then UpEnd(r) == r.hi + 1 else UpAt(r, pe' + 1, pe'))
  {
    NextUpIs(pe, r.hi);
    var pe' := NextUp(pe, r.hi);
    if pe == r.lo {
      DivMod(0, SPINSZ, 0, 0);
    }
    if pe' == r.hi && pe != r.hi && r.lo != 0 {
      SpanMod(pe - r.lo, r.hi - r.lo);
    } else if pe' < r.hi {
      SpanMod(pe - r.lo, pe' - r.lo);
    }
  }

  method UpSweep(job: Job, f: Cells, mem: array<bv32>, r: Range) returns (bad: nat)
    requires r.lo <= r.hi < mem.Length <= SPACE
    modifies mem
    ensures Applied(job, f, old(mem[..]), mem[..], r.lo, UpEnd(r), bad)
  {
    hide Applied, NextUp, UpAt, UpEnd;
    ghost var m0 := mem[..];
    var pe: nat, done := r.lo, false;
    var p: nat := r.lo;
    bad := 0;
    AppliedNothing(job, f, m0, r.lo);
    UpStart(r);
    while !done
      invariant r.lo <= p
      invariant if done then p == UpEnd(r) else pe <= r.hi && UpAt(r, p, pe)
      invariant Applied(job, f, m0, mem[..], r.lo, p, bad)
      decreases !done, r.hi - p
    {
      UpStep(r, p, pe);
      pe := NextUp(pe, r.hi);
      if pe >= r.hi {
        done := true;
      }
      if p == pe {
        break;
      }
      ghost var m1 := mem[..];
      var e := UpSpan(job, f, mem, p, pe);
      AppliedJoin(job, f, m0, m1, mem[..], r.lo, p, pe + 1, bad, e);
      bad := bad + e;
      p := pe + 1;
    }
  }

  lemma UpStart(r: Range)
    requires r.lo <= r.hi
    ensures UpAt(r, r.lo, r.lo)
  {
  }

  /** Where a downward sweep stands. */
  predicate DownAt(r: Range, p: int, pe: int) {
    r.lo <= pe <= r.hi && if pe == r.hi then p == r.hi else p == pe - 1 && (r.hi - pe) % SPINSZ == 0
  }

  lemma DownStep(r: Range, p: int, pe: nat)
    requires r.lo <= r.hi < SPACE && DownAt(r, p, pe)
    ensures var (pe', done) := NextDown(pe, r);
            && r.lo <= pe'
            && (p == pe' ==> done && !Overruns(r) && DownEnd(r) == p + 1)
            && (p != pe' && p < pe' ==> Overruns(r))
            && (p > pe' && done ==> pe' == r.lo && !Overruns(r) && DownEnd(r) == r.lo)
            && (p > pe' && !done ==> DownAt(r, pe' - 1, pe') && pe' < pe)
  {
    var (pe', done) := NextDown(pe, r);
    if pe == r.hi {
      DivMod(0, SPINSZ, 0, 0);
    }
    if r.lo < pe && pe' > r.lo {
      SpanMod(r.hi - pe, r.hi - pe');
    } else if r.lo < pe && pe' == r.lo {
      SpanMod(r.hi - pe, r.hi - r.lo);
    }
  }

  /** A downward sweep; false when it runs past its range. */
  method DownSweep(job: Job, f: Cells, mem: array<bv32>, r: Range) returns (inside: bool, bad: nat)
    requires r.lo <= r.hi < mem.Length <= SPACE
    modifies mem
    ensures inside == !Overruns(r)
    ensures inside ==> Applied(job, f, old(mem[..]), mem[..], DownEnd(r), r.hi + 1, bad)
  {
    hide Applied, NextDown, DownAt, DownEnd, Overruns;
    ghost var m0 := mem[..];
    var pe: nat, done := r.hi, false;
    var p: int := r.hi;
    bad := 0;
    AppliedNothing(job, f, m0, r.hi + 1);
    DownStart(r);
    while !done
      invariant p <= r.hi
      invariant if done then p + 1 == DownEnd(r) && !Overruns(r) else DownAt(r, p, pe)
      invariant Applied(job, f, m0, mem[..], p + 1, r.hi + 1, bad)
      decreases !done, pe
    {
      DownStep(r, p, pe);
      var (pe', last) := NextDown(pe, r);
      pe, done := pe', last;
      if p == pe {
        break;
      }
      if p < pe {
        return false, bad;
      }
      ghost var m1 := mem[..];
      var e := DownSpan(job, f, mem, p, pe);
      AppliedJoin(job, f, m0, m1, mem[..], pe, p + 1, r.hi + 1, bad, e);
      bad := bad + e;
      p := pe - 1;
    }
    return true, bad;
  }

  lemma DownStart(r: Range)
    requires r.lo <= r.hi
    ensures DownAt(r, r.hi, r.hi)
  {
  }

  // ---------- the test ----------

  predicate RangesOk(ranges: seq<Range>, size: nat) {
    && size <= SPACE
    && (forall i | 0 <= i < |ranges| :: ranges[i].lo <= ranges[i].hi < size)
    && Disjoint(ranges)
  }

  /** Every dword of the range takes v. */
  ghost predicate Keeps(f: Cells, r: Range, v: bv32) {
    forall n: nat | r.lo <= n <= r.hi :: f(n, v) == v
  }

  /** The same for ranges a..b-1. */
  ghost predicate AllKeep(f: Cells, ranges: seq<Range>, v: bv32, a: int, b: int)
    requires 0 <= a && b <= |ranges|
  {
    forall i | a <= i < b :: Keeps(f, ranges[i], v)
  }

  /** What a range holds: v throughout if it is tiled; otherwise its first dword holds w, or what it held
      at the start if it is the only one. */
  ghost predicate StateOk(f: Cells, m0: seq<bv32>, m: seq<bv32>, r: Range, v: bv32, w: bv32)
    requires r.lo <= r.hi < |m0|
  {
    && r.hi < |m|
    && (Tiled(r) ==> Hold(f, m, r.lo, r.hi + 1, v))
    && (!Tiled(r) ==> m[r.lo] == if r.lo == r.hi then m0[r.lo] else f(r.lo, w))
  }

  /** Ranges a..b-1 are in the state given. */
  ghost predicate StatesOk(f: Cells, m0: seq<bv32>, m: seq<bv32>, ranges: seq<Range>, v: bv32, w: bv32, a: int, b: int)
    requires RangesOk(ranges, |m0|) && 0 <= a && b <= |ranges|
  {
    forall i | a <= i < b :: StateOk(f, m0, m, ranges[i], v, w)
  }

  ghost predicate AllTiled(ranges: seq<Range>, size: nat)
    requires RangesOk(ranges, size)
  {
    forall i | 0 <= i < |ranges| :: Tiled(ranges[i])
  }

  /** What an upward sweep makes of its own range. */
  lemma UpResult(job: Job, f: Cells, m0: seq<bv32>, m: seq<bv32>, m': seq<bv32>, r: Range, bad: nat)
    requires r.lo <= r.hi < |m| == |m0| && Applied(job, f, m, m', r.lo, UpEnd(r), bad)
    requires r.lo == r.hi ==> m[r.lo] == m0[r.lo]
    ensures SameOutside(m, m', r.lo, r.hi + 1)
    ensures StateOk(f, m0, m', r, job.write, job.write)
    ensures Tiled(r) && (job.check ==> Hold(f, m, r.lo, r.hi + 1, job.wanted)) ==>
              (bad == 0 <==> !job.check || Keeps(f, r, job.wanted))
  {
    TiledIff(r);
    hide Tiled, SkipsLast;
  }

  lemma DownResult(job: Job, f: Cells, m0: seq<bv32>, m: seq<bv32>, m': seq<bv32>, r: Range, w: bv32, bad: nat)
    requires r.lo <= r.hi < |m| == |m0| && !Overruns(r) && Applied(job, f, m, m', DownEnd(r), r.hi + 1, bad)
    requires StateOk(f, m0, m, r, job.wanted, w)
    ensures SameOutside(m, m', r.lo, r.hi + 1)
    ensures StateOk(f, m0, m', r, job.write, w)
    ensures Tiled(r) ==> (bad == 0 <==> !job.check || Keeps(f, r, job.wanted))
  {
    hide Tiled, SkipsLast, DownEnd, UpEnd, Overruns;
    TiledIff(r);
    if !Tiled(r) {
      NotTiledEnds(r);
    }
  }

  lemma NotTiledEnds(r: Range)
    requires r.lo <= r.hi && !Tiled(r) && !Overruns(r)
    ensures DownEnd(r) > r.lo
  {
  }

  /** What an upward sweep of a range starts from. */
  ghost predicate Ready(f: Cells, m0: seq<bv32>, m: seq<bv32>, r: Range, job: Job)
    requires r.lo <= r.hi < |m0|
  {
    && r.hi < |m|
    && (r.lo == r.hi ==> m[r.lo] == m0[r.lo])
    && (job.check && Tiled(r) ==> Hold(f, m, r.lo, r.hi + 1, job.wanted))
  }

  /** Sweeping one range leaves the others as they are. */
  lemma OthersKept(f: Cells, m0: seq<bv32>, m: seq<bv32>, m': seq<bv32>, ranges: seq<Range>, j: nat, i: nat,
                   v: bv32, w: bv32, job: Job)
    requires RangesOk(ranges, |m0|) && |m| == |m0| && j < |ranges| && i < |ranges| && i != j
    requires SameOutside(m, m', ranges[j].lo, ranges[j].hi + 1)
    ensures StateOk(f, m0, m, ranges[i], v, w) ==> StateOk(f, m0, m', ranges[i], v, w)
    ensures Ready(f, m0, m, ranges[i], job) ==> Ready(f, m0, m', ranges[i], job)
  {
    hide Tiled;
  }

  /** An upward sweep over all segments. */
  method UpPass(job: Job, f: Cells, mem: array<bv32>, ranges: seq<Range>, ghost m0: seq<bv32>) returns (bad: nat)
    requires |m0| == mem.Length && RangesOk(ranges, mem.Length)
    requires forall i | 0 <= i < |ranges| :: Ready(f, m0, mem[..], ranges[i], job)
    modifies mem
    ensures StatesOk(f, m0, mem[..], ranges, job.write, job.write, 0, |ranges|)
    ensures SameElsewhere(old(mem[..]), mem[..], ranges)
    ensures AllTiled(ranges, mem.Length) ==>
              (bad == 0 <==> !job.check || AllKeep(f, ranges, job.wanted, 0, |ranges|))
  {
    hide Applied, Keeps, StateOk, SameOutside, SameElsewhere, UpEnd, Tiled;
    ghost var m1 := mem[..];
    NothingElsewhere(m1, ranges);
    bad := 0;
    var j := 0;
    while j < |ranges|
      invariant 0 <= j <= |ranges|
      invariant forall i | j <= i < |ranges| :: Ready(f, m0, mem[..], ranges[i], job)
      invariant StatesOk(f, m0, mem[..], ranges, job.write, job.write, 0, j)
      invariant SameElsewhere(m1, mem[..], ranges)
      invariant AllTiled(ranges, mem.Length) ==> (bad == 0 <==> !job.check || AllKeep(f, ranges, job.wanted, 0, j))
    {
      ghost var m := mem[..];
      var e := UpSweep(job, f, mem, ranges[j]);
      UpResult(job, f, m0, m, mem[..], ranges[j], e);
      ElsewhereKept(m1, m, mem[..], ranges, j);
      forall i | 0 <= i < |ranges| && i != j
        ensures i < j ==> StateOk(f, m0, mem[..], ranges[i], job.write, job.write)
        ensures j < i ==> Ready(f, m0, mem[..], ranges[i], job)
      {
        OthersKept(f, m0, m, mem[..], ranges, j, i, job.write, job.write, job);
      }
      bad := bad + e;
      j := j + 1;
    }
  }

  /** No sweep leaves its range. */
  ghost predicate NoOverrun(ranges: seq<Range>, size: nat, a: int)
    requires RangesOk(ranges, size) && 0 <= a
  {
    forall i | a <= i < |ranges| :: !Overruns(ranges[i])
  }

  /** A downward sweep over all segments, last to first; false when it leaves a range. */
  method DownPass(job: Job, f: Cells, mem: array<bv32>, ranges: seq<Range>, ghost m0: seq<bv32>, ghost w: bv32)
      returns (inside: bool, bad: nat)
    requires |m0| == mem.Length && RangesOk(ranges, mem.Length)
    requires StatesOk(f, m0, mem[..], ranges, job.wanted, w, 0, |ranges|)
    modifies mem
    ensures inside == NoOverrun(ranges, mem.Length, 0)
    ensures inside ==> StatesOk(f, m0, mem[..], ranges, job.write, w, 0, |ranges|)
    ensures inside ==> SameElsewhere(old(mem[..]), mem[..], ranges)
    ensures inside && AllTiled(ranges, mem.Length) ==>
              (bad == 0 <==> !job.check || AllKeep(f, ranges, job.wanted, 0, |ranges|))
  {
    hide Applied, Keeps, StateOk, SameOutside, SameElsewhere, DownEnd, Tiled, Overruns;
    ghost var m1 := mem[..];
    NothingElsewhere(m1, ranges);
    bad := 0;
    var j := |ranges| - 1;
    while j >= 0
      invariant -1 <= j < |ranges|
      invariant NoOverrun(ranges, mem.Length, j + 1)
      invariant StatesOk(f, m0, mem[..], ranges, job.wanted, w, 0, j + 1)
      invariant StatesOk(f, m0, mem[..], ranges, job.write, w, j + 1, |ranges|)
      invariant SameElsewhere(m1, mem[..], ranges)
      invariant AllTiled(ranges, mem.Length) ==>
                  (bad == 0 <==> !job.check || AllKeep(f, ranges, job.wanted, j + 1, |ranges|))
    {
      ghost var m := mem[..];
      var ok, e := DownSweep(job, f, mem, ranges[j]);
      if !ok {
        return false, bad;
      }
      DownResult(job, f, m0, m, mem[..], ranges[j], w, e);
      ElsewhereKept(m1, m, mem[..], ranges, j);
      forall i | 0 <= i < |ranges| && i != j
        ensures i < j ==> StateOk(f, m0, mem[..], ranges[i], job.wanted, w)
        ensures j < i ==> StateOk(f, m0, mem[..], ranges[i], job.write, w)
      {
        OthersKept(f, m0, m, mem[..], ranges, j, i, if i < j then job.wanted else job.write, w, job);
      }
      bad := bad + e;
      j := j - 1;
    }
    return true, bad;
  }

  lemma StateReady(f: Cells, m0: seq<bv32>, m: seq<bv32>, ranges: seq<Range>, v: bv32, w: bv32, job: Job)
    requires RangesOk(ranges, |m0|) && StatesOk(f, m0, m, ranges, v, w, 0, |ranges|) && job.wanted == v
    ensures forall i | 0 <= i < |ranges| :: Ready(f, m0, m, ranges[i], job)
  {
    hide Tiled;
    forall i | 0 <= i < |ranges| ensures Ready(f, m0, m, ranges[i], job) {
      assert StateOk(f, m0, m, ranges[i], v, w);
      SingleNotTiled(ranges[i]);
    }
  }

  lemma SingleNotTiled(r: Range)
    requires r.lo <= r.hi
    ensures r.lo == r.hi ==> !Tiled(r)
  {
    DivMod(0, SPINSZ, 0, 0);
  }

  /** Every dword of the ranges takes both patterns. */
  ghost predicate NoFault(f: Cells, ranges: seq<Range>, p1: bv32, p2: bv32) {
    forall i, n: nat | 0 <= i < |ranges| && ranges[i].lo <= n <= ranges[i].hi :: f(n, p1) == p1 && f(n, p2) == p2
  }

  /** The test, whatever faults the memory has. When every range is tiled it stays inside, reports an error
      exactly when some dword does not take one of the patterns (and an iteration is made), writes the first
      pattern to every dword tested and touches nothing else. Otherwise some sweep runs out of its range, or
      the first dword of the range is left with the wrong pattern (or untested, when it is alone). */
  method MovInv1(f: Cells, mem: array<bv32>, ranges: seq<Range>, iter: nat, p1: bv32, p2: bv32)
      returns (inside: bool, errors: nat)
    requires RangesOk(ranges, mem.Length)
    modifies mem
    ensures inside <==> iter == 0 || NoOverrun(ranges, mem.Length, 0)
    ensures AllTiled(ranges, mem.Length) ==>
              && inside && (errors == 0 <==> iter == 0 || NoFault(f, ranges, p1, p2))
              && (forall i | 0 <= i < |ranges| :: Hold(f, mem[..], ranges[i].lo, ranges[i].hi + 1, p1))
    ensures AllTiled(ranges, mem.Length) && Sound(f) ==>
              && errors == 0
              && (forall i | 0 <= i < |ranges| :: AllAre(mem[..], ranges[i].lo, ranges[i].hi + 1, p1))
    ensures inside ==> SameElsewhere(old(mem[..]), mem[..], ranges)
    ensures inside && iter > 0 ==>
              forall i | 0 <= i < |ranges| && !Tiled(ranges[i]) ::
                mem[ranges[i].lo]
                == if ranges[i].lo == ranges[i].hi then old(mem[ranges[i].lo]) else f(ranges[i].lo, p2)
  {
    hide StateOk, SameElsewhere, Tiled, Overruns, AllKeep, NoFault, Hold;
    ghost var m0 := mem[..];
    var fill, up, down := Job(false, 0, p1), Job(true, p1, p2), Job(true, p2, p1);
    FreshReady(f, m0, ranges, fill);
    errors := UpPass(fill, f, mem, ranges, m0);
    TiledInside(ranges, mem.Length);
    var i := 0;
    while i < iter
      invariant 0 <= i <= iter
      invariant i > 0 ==> NoOverrun(ranges, mem.Length, 0)
      invariant StatesOk(f, m0, mem[..], ranges, p1, if i == 0 then p1 else p2, 0, |ranges|)
      invariant SameElsewhere(m0, mem[..], ranges)
      invariant AllTiled(ranges, mem.Length) ==>
                  (errors == 0 <==>
                   i == 0 || (AllKeep(f, ranges, p1, 0, |ranges|) && AllKeep(f, ranges, p2, 0, |ranges|)))
    {
      ghost var m1 := mem[..];
      StateReady(f, m0, m1, ranges, p1, if i == 0 then p1 else p2, up);
      var bad := UpPass(up, f, mem, ranges, m0);
      ghost var m2 := mem[..];
      ElsewhereJoin(m0, m1, m2, ranges);
      errors := errors + bad;
      inside, bad := DownPass(down, f, mem, ranges, m0, p2);
      if !inside {
        return false, errors;
      }
      ElsewhereJoin(m0, m2, mem[..], ranges);
      errors := errors + bad;
      i := i + 1;
    }
    inside := true;
    BothKept(f, ranges, p1, p2);
    FinalState(f, m0, mem[..], ranges, p1, if iter == 0 then p1 else p2);
  }

  lemma BothKept(f: Cells, ranges: seq<Range>, p1: bv32, p2: bv32)
    ensures NoFault(f, ranges, p1, p2)
       <==> AllKeep(f, ranges, p1, 0, |ranges|) && AllKeep(f, ranges, p2, 0, |ranges|)
    ensures Sound(f) ==> NoFault(f, ranges, p1, p2)
  {
    if AllKeep(f, ranges, p1, 0, |ranges|) && AllKeep(f, ranges, p2, 0, |ranges|) {
      forall i, n: nat | 0 <= i < |ranges| && ranges[i].lo <= n <= ranges[i].hi
        ensures f(n, p1) == p1 && f(n, p2) == p2
      {
        assert Keeps(f, ranges[i], p1) && Keeps(f, ranges[i], p2);
      }
    }
  }

  lemma FreshReady(f: Cells, m0: seq<bv32>, ranges: seq<Range>, job: Job)
    requires RangesOk(ranges, |m0|) && !job.check
    ensures forall i | 0 <= i < |ranges| :: Ready(f, m0, m0, ranges[i], job)
  {
  }

  lemma TiledInside(ranges: seq<Range>, size: nat)
    requires RangesOk(ranges, size)
    ensures AllTiled(ranges, size) ==> NoOverrun(ranges, size, 0)
  {
    hide UpEnd, DownEnd;
    forall i | 0 <= i < |ranges| ensures Tiled(ranges[i]) ==> !Overruns(ranges[i]) {
      TiledIff(ranges[i]);
    }
  }

  lemma ElsewhereJoin(m0: seq<bv32>, m1: seq<bv32>, m2: seq<bv32>, ranges: seq<Range>)
    requires SameElsewhere(m0, m1, ranges) && SameElsewhere(m1, m2, ranges)
    ensures SameElsewhere(m0, m2, ranges)
  {
  }

  lemma FinalState(f: Cells, m0: seq<bv32>, m: seq<bv32>, ranges: seq<Range>, v: bv32, w: bv32)
    requires RangesOk(ranges, |m0|) && |m| == |m0| && StatesOk(f, m0, m, ranges, v, w, 0, |ranges|)
    ensures AllTiled(ranges, |m0|) ==> forall i | 0 <= i < |ranges| :: Hold(f, m, ranges[i].lo, ranges[i].hi + 1, v)
    ensures AllTiled(ranges, |m0|) && Sound(f) ==>
              forall i | 0 <= i < |ranges| :: AllAre(m, ranges[i].lo, ranges[i].hi + 1, v)
    ensures forall i | 0 <= i < |ranges| && !Tiled(ranges[i]) ::
              m[ranges[i].lo] == if ranges[i].lo == ranges[i].hi then m0[ranges[i].lo] else f(ranges[i].lo, w)
  {
    hide Tiled;
    forall i | 0 <= i < |ranges|
      ensures Tiled(ranges[i]) ==> Hold(f, m, ranges[i].lo, ranges[i].hi + 1, v)
      ensures Tiled(ranges[i]) && Sound(f) ==> AllAre(m, ranges[i].lo, ranges[i].hi + 1, v)
      ensures !Tiled(ranges[i]) ==>
                m[ranges[i].lo] == if ranges[i].lo == ranges[i].hi then m0[ranges[i].lo] else f(ranges[i].lo, w)
    {
      assert StateOk(f, m0, m, ranges[i], v, w);
    }
  }
}
