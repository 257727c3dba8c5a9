/** modtst: every 20th dword is written with a pattern, everything else with another any number of
    times, and then every 20th dword is checked. */
module ModTst {
  import opened Arith
  import opened MovInv
  import MovInv1

  const MOD_SZ := 20

  /** Dword n is a whole number of strides past p, and below q. */
  predicate OnGrid(p: int, q: int, n: int) {
    p <= n < q && (n - p) % MOD_SZ == 0
  }

  /** The first and last sweep: store a value on the grid, or verify it there. */
  datatype Job = Store(v: bv32) | Verify(v: bv32)

  /** From m0, the grid from p up to q has been handled and nothing else. */
  ghost predicate Gridded(job: Job, f: Cells, m0: seq<bv32>, m: seq<bv32>, p: int, q: int, bad: nat) {
    && |m| == |m0|
    && (forall n | 0 <= n < |m0| :: m[n] == if job.Store? && OnGrid(p, q, n) then f(n, job.v) else m0[n])
    && (bad == 0 <==> job.Store? || forall n | 0 <= n < |m0| && OnGrid(p, q, n) :: m0[n] == job.v)
  }

  lemma GridOne(p: int, n: int)
    ensures OnGrid(p, p + MOD_SZ, n) <==> n == p
    ensures !OnGrid(p, p, n)
  {
    if p <= n < p + MOD_SZ {
      DivMod(n - p, MOD_SZ, 0, n - p);
    }
  }

  lemma GridJoin(p: int, mid: int, q: int, n: int)
    requires p <= mid <= q && (mid - p) % MOD_SZ == 0
    ensures OnGrid(p, q, n) <==> OnGrid(p, mid, n) || OnGrid(mid, q, n)
  {
    var d, x := (mid - p) / MOD_SZ, (n - mid) / MOD_SZ;
    var m := (n - mid) % MOD_SZ;
    assert mid - p == d * MOD_SZ && n - mid == x * MOD_SZ + m;
    assert (d + x) * MOD_SZ == d * MOD_SZ + x * MOD_SZ;
    DivMod(n - p, MOD_SZ, d + x, m);
  }

  lemma GriddedNothing(job: Job, f: Cells, m: seq<bv32>, p: int)
    ensures Gridded(job, f, m, m, p, p, 0)
  {
  }

  lemma GriddedJoin(job: Job, f: Cells, m0: seq<bv32>, m1: seq<bv32>, m2: seq<bv32>, p: int, mid: int, q: int,
                    bad1: nat, bad2: nat)
    requires p <= mid <= q && (mid - p) % MOD_SZ == 0
    requires Gridded(job, f, m0, m1, p, mid, bad1) && Gridded(job, f, m1, m2, mid, q, bad2)
    ensures Gridded(job, f, m0, m2, p, q, bad1 + bad2)
  {
    hide OnGrid;
    forall n | 0 <= n < |m0| ensures OnGrid(p, q, n) <==> OnGrid(p, mid, n) || OnGrid(mid, q, n) {
      GridJoin(p, mid, q, n);
    }
  }

  /** One dword, and the stride to the next. */
  method Handle(job: Job, f: Cells, mem: array<bv32>, p: nat) returns (bad: nat)
    requires p < mem.Length
    modifies mem
    ensures Gridded(job, f, old(mem[..]), mem[..], p, p + MOD_SZ, bad)
  {
    hide OnGrid;
    ghost var q := p + MOD_SZ;
    forall n | 0 <= n < mem.Length ensures OnGrid(p, q, n) <==> n == p {
      GridOne(p, n);
    }
    bad := 0;
    match job
    case Store(v) => mem[p] := f(p, v);
    case Verify(v) => if mem[p] != v { bad := 1; }
  }

  // ---------- the strides of one range ----------

  /** Where the inner loop leaves p: it handles p before it looks at the bound. */
  function SpanStop(p: nat, pe: int): (q: nat)
    ensures p < q && (q - p) % MOD_SZ == 0
    ensures pe <= q && (q < pe + MOD_SZ || q == p + MOD_SZ)
    decreases pe - p
  {
    if p + MOD_SZ < pe then
      var q := SpanStop(p + MOD_SZ, pe);
      StridesAdd(p + MOD_SZ - p, q - (p + MOD_SZ));
      q
    else
      StridesAdd(0, 0);
      DivMod(MOD_SZ, MOD_SZ, 1, 0);
      p + MOD_SZ
  }

  lemma StridesAdd(a: int, b: int)
    ensures 0 % MOD_SZ == 0 && MOD_SZ % MOD_SZ == 0
    ensures a % MOD_SZ == 0 && b % MOD_SZ == 0 ==> (a + b) % MOD_SZ == 0
  {
    if a % MOD_SZ == 0 && b % MOD_SZ == 0 {
      assert a == a / MOD_SZ * MOD_SZ && b == b / MOD_SZ * MOD_SZ;
      assert (a / MOD_SZ + b / MOD_SZ) * MOD_SZ == a / MOD_SZ * MOD_SZ + b / MOD_SZ * MOD_SZ;
      DivMod(a + b, MOD_SZ, a / MOD_SZ + b / MOD_SZ, 0);
    }
    DivMod(0, MOD_SZ, 0, 0);
    DivMod(MOD_SZ, MOD_SZ, 1, 0);
  }

  /** Where a sweep that stands at p with bound pe stops, for a range whose adjusted end is end. */
  function Stop(p: nat, pe: nat, end: nat): (q: nat)
    requires pe < SPACE && end < SPACE
    ensures p <= q && (q - p) % MOD_SZ == 0
    decreases if pe < end then end - pe else 0
  {
    NextUpIs(pe, end);
    StridesAdd(0, 0);
    var pe' := NextUp(pe, end);
    if p == pe' then
      p
    else if pe' >= end then
      SpanStop(p, pe')
    else
      var mid := SpanStop(p, pe');
      var q := Stop(mid, pe', end);
      StridesAdd(mid - p, q - mid);
      q
  }

  /** The part of a range the strides are used on. */
  predicate StrideOk(r: Range, offset: nat, size: nat) {
    r.lo + offset <= r.hi < size <= SPACE && MOD_SZ <= r.hi && offset < MOD_SZ
  }

  function GridEnd(r: Range, offset: nat): nat
    requires r.lo <= r.hi < SPACE && MOD_SZ <= r.hi
  {
    Stop(r.lo + offset, r.lo, r.hi - MOD_SZ)
  }

  /** The strides handle dword n. */
  predicate Strided(r: Range, offset: nat, n: int)
    requires r.lo <= r.hi < SPACE && MOD_SZ <= r.hi
  {
    OnGrid(r.lo + offset, GridEnd(r, offset), n)
  }

  /** No stride handles a dword past the range. */
  lemma {:induction false} StopInside(p: nat, pe: nat, end: nat)
    requires pe < SPACE && end + MOD_SZ < SPACE
    requires p <= end + MOD_SZ && p < pe + MOD_SZ
    ensures Stop(p, pe, end) <= end + 2 * MOD_SZ
    decreases if pe < end then end - pe else 0
  {
    hide SpanStop;
    NextUpIs(pe, end);
    var pe' := NextUp(pe, end);
    if p != pe' && pe' < end {
      StopInside(SpanStop(p, pe'), pe', end);
    }
  }

  /** The strides get as far as the adjusted end. */
  lemma {:induction false} StopReaches(p: nat, pe: nat, end: nat)
    requires pe < SPACE && end < SPACE && p < pe + MOD_SZ
    ensures end <= Stop(p, pe, end)
    decreases if pe < end then end - pe else 0
  {
    hide SpanStop;
    NextUpIs(pe, end);
    var pe' := NextUp(pe, end);
    if p != pe' && pe' < end {
      StopReaches(SpanStop(p, pe'), pe', end);
    }
  }

  /** Every dword of the class of the offset, up to the adjusted end, is on the strides. */
  lemma ClassStrided(r: Range, offset: nat, size: nat, n: int)
    requires StrideOk(r, offset, size) && r.lo <= n < r.hi - MOD_SZ && (n - r.lo) % MOD_SZ == offset
    ensures Strided(r, offset, n)
  {
    hide Stop;
    StopReaches(r.lo + offset, r.lo, r.hi - MOD_SZ);
    var x := (n - r.lo) / MOD_SZ;
    assert n - r.lo == x * MOD_SZ + offset;
    DivMod(n - (r.lo + offset), MOD_SZ, x, 0);
  }

  /** The last bound below end, for bounds a span apart from pe on. */
  function LastBound(pe: nat, end: nat): nat {
    if pe == 0 || end <= pe then pe else pe + (end - 1 - pe) / SPINSZ * SPINSZ
  }

  lemma BoundMoves(pe: nat, end: nat)
    ensures 0 < pe < end <= pe + SPINSZ ==> LastBound(pe, end) == pe
    ensures 0 < pe && pe + SPINSZ < end ==> LastBound(pe, end) == LastBound(pe + SPINSZ, end)
  {
    if 0 < pe < end {
      var k := (end - 1 - pe) / SPINSZ;
      if end <= pe + SPINSZ {
        DivMod(end - 1 - pe, SPINSZ, 0, end - 1 - pe);
      } else {
        DivMod(end - 1 - (pe + SPINSZ), SPINSZ, k - 1, (end - 1 - pe) % SPINSZ);
        assert k * SPINSZ == (k - 1) * SPINSZ + SPINSZ;
      }
    }
  }

  lemma SameClass(a: int, b: int)
    requires (a - b) % MOD_SZ == 0 && b - MOD_SZ < a < b + MOD_SZ
    ensures a == b
  {
  }

  lemma ClassDifference(n: int, p: int, q: int)
    requires (n - p) % MOD_SZ == 0 && (q - p) % MOD_SZ == 0
    ensures (n - q) % MOD_SZ == 0 && (n != q ==> n <= q - MOD_SZ || n >= q + MOD_SZ)
  {
    var x, y := (n - p) / MOD_SZ, (q - p) / MOD_SZ;
    assert (x - y) * MOD_SZ == x * MOD_SZ - y * MOD_SZ;
    DivMod(n - q, MOD_SZ, x - y, 0);
    if n != q && q - MOD_SZ < n < q + MOD_SZ {
      SameClass(n, q);
    }
  }

  /** Where the strides stop: at n, the first dword of the class from end on, or one stride further when the
      stride to n came from below the last bound. */
  lemma {:induction false} StopIs(p: nat, pe: nat, end: nat, n: int)
    requires pe <= p < pe + MOD_SZ && pe < SPACE && end < SPACE
    requires p <= n && end <= n && (n - p) % MOD_SZ == 0 && (n == p || n - MOD_SZ < end)
    ensures Stop(p, pe, end) == if end < n && n - MOD_SZ < LastBound(pe, end) then n + MOD_SZ else n
    decreases if pe < end then end - pe else 0
  {
    hide SpanStop, LastBound;
    NextUpIs(pe, end);
    BoundMoves(pe, end);
    LastBoundBelow(pe, end);
    var pe' := NextUp(pe, end);
    var q := SpanStop(p, pe');
    ClassDifference(n, p, p);
    ClassDifference(n, p, q);
    ClassDifference(q, p, p);
    if p != pe' && pe' < end {
      StopIs(q, pe', end, n);
    }
  }

  lemma LastBoundBelow(pe: nat, end: nat)
    ensures pe == 0 || end <= pe ==> LastBound(pe, end) == pe
  {
  }

  /** From the adjusted end on, the one dword of the class that a stride from below the last bound reaches. */
  lemma TailStrided(r: Range, offset: nat, size: nat, n: int)
    requires StrideOk(r, offset, size) && r.hi - MOD_SZ <= n <= r.hi && (n - r.lo) % MOD_SZ == offset && r.lo <= n
    ensures Strided(r, offset, n)
       <==> r.hi - MOD_SZ < n && n - MOD_SZ < LastBound(r.lo, r.hi - MOD_SZ)
  {
    hide Stop, LastBound;
    var p, end := r.lo + offset, r.hi - MOD_SZ;
    var x := (n - r.lo) / MOD_SZ;
    assert n - r.lo == x * MOD_SZ + offset;
    DivMod(n - p, MOD_SZ, x, 0);
    assert p <= n;
    var n' := if n == r.hi && p <= end then n - MOD_SZ else n;
    DivMod(n' - p, MOD_SZ, if n' == n then x else x - 1, 0);
    StopIs(p, r.lo, end, n');
    BoundBelow(r.lo, end);
  }

  lemma BoundBelow(pe: nat, end: nat)
    ensures LastBound(pe, end) <= pe || LastBound(pe, end) < end
  {
    if 0 < pe < end {
      assert end - 1 - pe == (end - 1 - pe) / SPINSZ * SPINSZ + (end - 1 - pe) % SPINSZ;
    }
  }

  lemma GridInside(r: Range, offset: nat, size: nat, n: int)
    requires StrideOk(r, offset, size) && Strided(r, offset, n)
    ensures r.lo <= n <= r.hi
    ensures (n - r.lo) % MOD_SZ == offset
  {
    hide Stop;
    StopInside(r.lo + offset, r.lo, r.hi - MOD_SZ);
    var a, b := r.lo + offset, GridEnd(r, offset);
    var x, y := (n - a) / MOD_SZ, (b - a) / MOD_SZ;
    assert n - a == x * MOD_SZ && b - a == y * MOD_SZ;
    BelowStride(x, y);
    DivMod(n - r.lo, MOD_SZ, x, offset);
  }

  lemma BelowStride(x: int, y: int)
    requires x * MOD_SZ < y * MOD_SZ
    ensures x * MOD_SZ + MOD_SZ <= y * MOD_SZ
  {
  }

  /** The strides stay inside a range exactly when it reaches as far as the offset. */
  lemma GridInsideIff(r: Range, offset: nat)
    requires r.lo <= r.hi < SPACE && MOD_SZ <= r.hi && offset < MOD_SZ
    ensures (forall n | Strided(r, offset, n) :: n <= r.hi) <==> r.lo + offset <= r.hi
  {
    var p, end := r.lo + offset, r.hi - MOD_SZ;
    var q := GridEnd(r, offset);
    if p <= r.hi {
      forall n | Strided(r, offset, n) ensures n <= r.hi {
        GridInside(r, offset, r.hi + 1, n);
      }
    } else {
      NextUpIs(r.lo, end);
      GridOne(p, p);
      assert q == SpanStop(p, end) > p;
      assert Strided(r, offset, p);
    }
  }

  // ---------- sweeps on the grid ----------

  method GridSpan(job: Job, f: Cells, mem: array<bv32>, p: nat, pe: int) returns (q: nat, bad: nat)
    requires p < mem.Length && pe <= mem.Length
    modifies mem
    ensures q == SpanStop(p, pe)
    ensures Gridded(job, f, old(mem[..]), mem[..], p, q, bad)
  {
    hide Gridded;
    ghost var m0 := mem[..];
    bad := Handle(job, f, mem, p);
    q := p + MOD_SZ;
    StridesAdd(0, 0);
    while q < pe
      invariant p < q && (q - p) % MOD_SZ == 0
      invariant if q < pe then SpanStop(p, pe) == SpanStop(q, pe) else q == SpanStop(p, pe)
      invariant Gridded(job, f, m0, mem[..], p, q, bad)
    {
      ghost var m1 := mem[..];
      var e := Handle(job, f, mem, q);
      GriddedJoin(job, f, m0, m1, mem[..], p, q, q + MOD_SZ, bad, e);
      StridesAdd(q - p, MOD_SZ);
      bad := bad + e;
      q := q + MOD_SZ;
    }
  }

  /** One turn of the sweep's loop, with where p and the bound then stand. */
  lemma SweepTurn(r: Range, offset: nat, p: nat, pe: nat)
    requires r.lo <= r.hi < SPACE && MOD_SZ <= r.hi && pe < SPACE && p <= r.hi && p < pe + MOD_SZ
    ensures var end := r.hi - MOD_SZ; var pe' := NextUp(pe, end); var q := SpanStop(p, pe');
            && pe' <= end && (p == pe' ==> Stop(p, pe, end) == p)
            && (p != pe' && pe' >= end ==> Stop(p, pe, end) == q)
            && (p != pe' && pe' < end ==>
                 pe < pe' && Stop(p, pe, end) == Stop(q, pe', end) && q <= r.hi && q < pe' + MOD_SZ)
  {
    hide SpanStop;
    NextUpIs(pe, r.hi - MOD_SZ);
  }

  method GridSweep(job: Job, f: Cells, mem: array<bv32>, r: Range, offset: nat) returns (bad: nat)
    requires StrideOk(r, offset, mem.Length)
    modifies mem
    ensures Gridded(job, f, old(mem[..]), mem[..], r.lo + offset, GridEnd(r, offset), bad)
  {
    hide Gridded, NextUp, SpanStop, Stop;
    ghost var m0 := mem[..];
    var end := r.hi - MOD_SZ;
    var pe: nat, done := r.lo, false;
    var p: nat := r.lo + offset;
    bad := 0;
    GriddedNothing(job, f, m0, p);
    StridesAdd(0, 0);
    while !done
      invariant r.lo + offset <= p && (p - (r.lo + offset)) % MOD_SZ == 0
      invariant if done then p == GridEnd(r, offset)
                else pe < SPACE && p <= r.hi && p < pe + MOD_SZ && Stop(p, pe, end) == GridEnd(r, offset)
      invariant Gridded(job, f, m0, mem[..], r.lo + offset, p, bad)
      decreases !done, if pe < end then end - pe else 0
    {
      SweepTurn(r, offset, p, pe);
      pe := NextUp(pe, end);
      if pe >= end {
        pe := end;
        done := true;
      }
      if p == pe {
        break;
      }
      ghost var m1 := mem[..];
      var q, e := GridSpan(job, f, mem, p, pe);
      GriddedJoin(job, f, m0, m1, mem[..], r.lo + offset, p, q, bad, e);
      StridesAdd(p - (r.lo + offset), q - p);
      bad := bad + e;
      p := q;
    }
  }

  // ---------- the sweep between the strides ----------

  /** Dword n of the range is not in the class of the grid. */
  predicate OffGrid(r: Range, offset: nat, n: int) {
    (n - r.lo) % MOD_SZ != offset
  }

  /** From m0, dwords lo..hi-1 of the range that are off the grid hold v; nothing else changed. */
  ghost predicate Rested(f: Cells, m0: seq<bv32>, m: seq<bv32>, r: Range, offset: nat, lo: int, hi: int, v: bv32) {
    && |m| == |m0|
    && forall n | 0 <= n < |m0| :: m[n] == if lo <= n < hi && OffGrid(r, offset, n) then f(n, v) else m0[n]
  }

  lemma RestedNothing(f: Cells, m: seq<bv32>, r: Range, offset: nat, n: int, v: bv32)
    ensures Rested(f, m, m, r, offset, n, n, v)
  {
  }

  lemma RestedJoin(f: Cells, m0: seq<bv32>, m1: seq<bv32>, m2: seq<bv32>, r: Range, offset: nat,
                   lo: int, mid: int, hi: int, v: bv32)
    requires lo <= mid <= hi && Rested(f, m0, m1, r, offset, lo, mid, v) && Rested(f, m1, m2, r, offset, mid, hi, v)
    ensures Rested(f, m0, m2, r, offset, lo, hi, v)
  {
    hide OffGrid;
  }

  lemma PhaseStep(r: Range, n: int)
    ensures (n + 1 - r.lo) % MOD_SZ == if (n - r.lo) % MOD_SZ == MOD_SZ - 1 then 0 else (n - r.lo) % MOD_SZ + 1
  {
    var q, m := (n - r.lo) / MOD_SZ, (n - r.lo) % MOD_SZ;
    assert n - r.lo == q * MOD_SZ + m;
    if m == MOD_SZ - 1 {
      assert (q + 1) * MOD_SZ == q * MOD_SZ + MOD_SZ;
      DivMod(n + 1 - r.lo, MOD_SZ, q + 1, 0);
    } else {
      DivMod(n + 1 - r.lo, MOD_SZ, q, m + 1);
    }
  }

  /** One dword: written unless the phase k is the offset; then the phase moves on. */
  method RestOne(f: Cells, mem: array<bv32>, ghost r: Range, offset: nat, n: nat, k: int, v: bv32) returns (k': int)
    requires n < mem.Length && k == (n - r.lo) % MOD_SZ
    modifies mem
    ensures Rested(f, old(mem[..]), mem[..], r, offset, n, n + 1, v)
    ensures k' == (n + 1 - r.lo) % MOD_SZ
  {
    PhaseStep(r, n);
    if k != offset {
      mem[n] := f(n, v);
    }
    k' := k + 1;
    if k' > MOD_SZ - 1 {
      k' := 0;
    }
  }

  /** From dword p up to dword pe. */
  method RestSpan(f: Cells, mem: array<bv32>, ghost r: Range, offset: nat, p: nat, pe: nat, k: int, v: bv32)
      returns (k': int)
    requires p <= pe < mem.Length && k == (p - r.lo) % MOD_SZ
    modifies mem
    ensures Rested(f, old(mem[..]), mem[..], r, offset, p, pe + 1, v)
    ensures k' == (pe + 1 - r.lo) % MOD_SZ
  {
    hide Rested;
    ghost var m0 := mem[..];
    k' := RestOne(f, mem, r, offset, p, k, v);
    var n := p;
    while n < pe
      invariant p <= n <= pe
      invariant k' == (n + 1 - r.lo) % MOD_SZ
      invariant Rested(f, m0, mem[..], r, offset, p, n + 1, v)
    {
      n := n + 1;
      ghost var m1 := mem[..];
      k' := RestOne(f, mem, r, offset, n, k', v);
      RestedJoin(f, m0, m1, mem[..], r, offset, p, n, n + 1, v);
    }
  }

  /** The spans are those of movinv1, with the same last dword left out. */
  method RestSweep(f: Cells, mem: array<bv32>, r: Range, offset: nat, v: bv32)
    requires r.lo <= r.hi < mem.Length <= SPACE
    modifies mem
    ensures Rested(f, old(mem[..]), mem[..], r, offset, r.lo, MovInv1.UpEnd(r), v)
  {
    hide Rested, NextUp, MovInv1.UpAt, MovInv1.UpEnd;
    ghost var m0 := mem[..];
    var pe: nat, done := r.lo, false;
    var p: nat := r.lo;
    var k := 0;
    RestedNothing(f, m0, r, offset, r.lo, v);
    MovInv1.UpStart(r);
    DivMod(0, MOD_SZ, 0, 0);
    while !done
      invariant r.lo <= p && k == (p - r.lo) % MOD_SZ
      invariant if done then p == MovInv1.UpEnd(r) else pe <= r.hi && MovInv1.UpAt(r, p, pe)
      invariant Rested(f, m0, mem[..], r, offset, r.lo, p, v)
      decreases !done, r.hi - p
    {
      MovInv1.UpStep(r, p, pe);
      pe := NextUp(pe, r.hi);
      if pe >= r.hi {
        done := true;
      }
      if p == pe {
        break;
      }
      ghost var m1 := mem[..];
      k := RestSpan(f, mem, r, offset, p, pe, k, v);
      RestedJoin(f, m0, m1, mem[..], r, offset, r.lo, p, pe + 1, v);
      p := pe + 1;
    }
  }

  // ---------- the test ----------

  predicate RangesOk(ranges: seq<Range>, offset: nat, size: nat) {
    (forall i | 0 <= i < |ranges| :: StrideOk(ranges[i], offset, size)) && Disjoint(ranges)
  }

  /** What dword n of a range holds, if it held w before: the first pattern on the grid, and off the grid
      the second, once written. */
  function FinalWord(f: Cells, r: Range, offset: nat, n: nat, p1: bv32, p2: bv32, rested: bool,
                     w: bv32): bv32
    requires r.lo <= r.hi < SPACE && MOD_SZ <= r.hi
  {
    if Strided(r, offset, n) then f(n, p1)
    else if rested && n < MovInv1.UpEnd(r) && OffGrid(r, offset, n) then f(n, p2)
    else w
  }

  ghost predicate RangeIs(f: Cells, m0: seq<bv32>, m: seq<bv32>, r: Range, offset: nat, p1: bv32, p2: bv32,
                          rested: bool)
    requires StrideOk(r, offset, |m0|)
  {
    |m| == |m0| && forall n | r.lo <= n <= r.hi :: m[n] == FinalWord(f, r, offset, n, p1, p2, rested, m0[n])
  }

  /** Every 20th dword from the offset on; of the last 20 dwords, the one that a stride from below the last
      bound reaches, if there is one. */
  predicate Twentieth(r: Range, offset: nat, n: int)
    requires MOD_SZ <= r.hi
  {
    && (n - r.lo) % 20 == offset
    && (n < r.hi - 20 || (r.hi - 20 < n && n - 20 < LastBound(r.lo, r.hi - 20)))
  }

  /** Which dwords of a range the strides handle. */
  lemma StridedIff(r: Range, offset: nat, size: nat, n: int)
    requires StrideOk(r, offset, size) && r.lo <= n <= r.hi
    ensures Strided(r, offset, n) <==> Twentieth(r, offset, n)
  {
    hide Strided, LastBound;
    if Strided(r, offset, n) {
      GridInside(r, offset, size, n);
    }
    if (n - r.lo) % 20 == offset {
      if n < r.hi - 20 {
        ClassStrided(r, offset, size, n);
      } else {
        TailStrided(r, offset, size, n);
      }
    }
  }

  /** Every 20th dword has been written with p1, and the dwords between them, below top, with p2 if they have
      been written at all. */
  ghost predicate EveryTwentieth(f: Cells, m0: seq<bv32>, m: seq<bv32>, r: Range, offset: nat, p1: bv32, p2: bv32,
                                 rested: bool, top: int) {
    && r.hi < |m0| == |m| && MOD_SZ <= r.hi
    && forall n: nat | r.lo <= n <= r.hi ::
         m[n] == if Twentieth(r, offset, n) then f(n, p1)
                 else if rested && n < top && (n - r.lo) % 20 != offset then f(n, p2)
                 else m0[n]
  }

  lemma FinalEveryTwentieth(f: Cells, m0: seq<bv32>, m: seq<bv32>, r: Range, offset: nat, p1: bv32, p2: bv32,
                            rested: bool)
    requires StrideOk(r, offset, |m0|) && RangeIs(f, m0, m, r, offset, p1, p2, rested)
    ensures EveryTwentieth(f, m0, m, r, offset, p1, p2, rested, MovInv1.UpEnd(r))
  {
    hide Strided, Twentieth, MovInv1.UpEnd;
    forall n: nat | r.lo <= n <= r.hi ensures Strided(r, offset, n) <==> Twentieth(r, offset, n) {
      StridedIff(r, offset, |m0|, n);
    }
  }

  /** Every 20th dword of the range takes v. */
  ghost predicate GridTakes(f: Cells, r: Range, offset: nat, v: bv32)
    requires MOD_SZ <= r.hi
  {
    forall n: nat | r.lo <= n <= r.hi && Twentieth(r, offset, n) :: f(n, v) == v
  }

  ghost predicate GridsTake(f: Cells, ranges: seq<Range>, offset: nat, v: bv32, size: nat, b: int)
    requires RangesOk(ranges, offset, size) && b <= |ranges|
  {
    forall i | 0 <= i < b :: GridTakes(f, ranges[i], offset, v)
  }

  ghost predicate Untouched(m0: seq<bv32>, m: seq<bv32>, r: Range) {
    r.hi < |m0| == |m| && forall n | r.lo <= n <= r.hi :: m[n] == m0[n]
  }

  lemma Stored(f: Cells, m0: seq<bv32>, m: seq<bv32>, m': seq<bv32>, r: Range, offset: nat, p1: bv32, p2: bv32,
               bad: nat)
    requires StrideOk(r, offset, |m0|) && Untouched(m0, m, r)
    requires Gridded(Store(p1), f, m, m', r.lo + offset, GridEnd(r, offset), bad)
    ensures RangeIs(f, m0, m', r, offset, p1, p2, false)
    ensures SameOutside(m, m', r.lo, r.hi + 1) && bad == 0
  {
    hide Stop, OnGrid, GridEnd;
    var a, b := r.lo + offset, GridEnd(r, offset);
    forall n | 0 <= n < |m| && OnGrid(a, b, n) ensures r.lo <= n <= r.hi {
      GridInside(r, offset, |m0|, n);
    }
  }

  lemma RestedOver(f: Cells, m0: seq<bv32>, m: seq<bv32>, m': seq<bv32>, r: Range, offset: nat, p1: bv32, p2: bv32,
                   rested: bool)
    requires StrideOk(r, offset, |m0|) && RangeIs(f, m0, m, r, offset, p1, p2, rested)
    requires Rested(f, m, m', r, offset, r.lo, MovInv1.UpEnd(r), p2)
    ensures RangeIs(f, m0, m', r, offset, p1, p2, true)
    ensures SameOutside(m, m', r.lo, r.hi + 1)
  {
    EndInside(r);
    hide OnGrid, GridEnd, OffGrid, MovInv1.UpEnd;
    var a, b := r.lo + offset, GridEnd(r, offset);
    forall n | r.lo <= n <= r.hi && OnGrid(a, b, n) ensures !OffGrid(r, offset, n) {
      GridNotOff(r, offset, |m0|, n);
    }
  }

  lemma EndInside(r: Range)
    requires r.lo <= r.hi
    ensures MovInv1.UpEnd(r) <= r.hi + 1
  {
  }

  lemma GridNotOff(r: Range, offset: nat, size: nat, n: int)
    requires StrideOk(r, offset, size) && Strided(r, offset, n)
    ensures !OffGrid(r, offset, n)
  {
    GridInside(r, offset, size, n);
  }

  lemma Verified(f: Cells, m0: seq<bv32>, m: seq<bv32>, m': seq<bv32>, r: Range, offset: nat, p1: bv32, p2: bv32,
                 rested: bool, bad: nat)
    requires StrideOk(r, offset, |m0|) && RangeIs(f, m0, m, r, offset, p1, p2, rested)
    requires Gridded(Verify(p1), f, m, m', r.lo + offset, GridEnd(r, offset), bad)
    ensures m' == m && (bad == 0 <==> GridTakes(f, r, offset, p1))
  {
    hide Stop, OnGrid, GridEnd, Twentieth;
    var a, b := r.lo + offset, GridEnd(r, offset);
    forall n: nat | n < |m| && OnGrid(a, b, n) ensures r.lo <= n <= r.hi && m[n] == f(n, p1) {
      GridInside(r, offset, |m0|, n);
      assert FinalWord(f, r, offset, n, p1, p2, rested, m0[n]) == f(n, p1);
    }
    forall n: nat | r.lo <= n <= r.hi ensures OnGrid(a, b, n) <==> Twentieth(r, offset, n) {
      StridedIff(r, offset, |m0|, n);
    }
  }

  lemma OthersKept(f: Cells, m0: seq<bv32>, m: seq<bv32>, m': seq<bv32>, ranges: seq<Range>, offset: nat, j: nat,
                   i: nat, p1: bv32, p2: bv32, rested: bool)
    requires RangesOk(ranges, offset, |m0|) && j < |ranges| && i < |ranges| && i != j
    requires SameOutside(m, m', ranges[j].lo, ranges[j].hi + 1)
    ensures RangeIs(f, m0, m, ranges[i], offset, p1, p2, rested) ==>
              RangeIs(f, m0, m', ranges[i], offset, p1, p2, rested)
    ensures Untouched(m0, m, ranges[i]) ==> Untouched(m0, m', ranges[i])
  {
    hide FinalWord;
    assert ranges[i].hi < ranges[j].lo || ranges[j].hi < ranges[i].lo;
  }

  /** The test, whatever faults the memory has, for any number of iterations, any two patterns and any offset
      below the stride: it reports an error exactly when some dword of the strides does not take the first
      pattern, and changes nothing outside its ranges. */
  method ModTst(f: Cells, mem: array<bv32>, ranges: seq<Range>, offset: nat, iter: nat, p1: bv32, p2: bv32)
      returns (errors: nat)
    requires RangesOk(ranges, offset, mem.Length)
    modifies mem
    ensures errors == 0 <==>
              forall i, n: nat |
                0 <= i < |ranges| && ranges[i].lo <= n <= ranges[i].hi && Twentieth(ranges[i], offset, n) ::
                f(n, p1) == p1
    ensures Sound(f) ==> errors == 0
    ensures SameElsewhere(old(mem[..]), mem[..], ranges)
    ensures forall i | 0 <= i < |ranges| :: RangeIs(f, old(mem[..]), mem[..], ranges[i], offset, p1, p2, iter > 0)
    ensures forall i | 0 <= i < |ranges| ::
              EveryTwentieth(f, old(mem[..]), mem[..], ranges[i], offset, p1, p2, iter > 0, MovInv1.UpEnd(ranges[i]))
  {
    hide Gridded, Rested, SameElsewhere, SameOutside, RangeIs, Untouched, GridEnd, MovInv1.UpEnd, EveryTwentieth;
    hide GridTakes, Twentieth;
    ghost var m0 := mem[..];
    NothingElsewhere(m0, ranges);
    NothingTouched(m0, ranges, offset);
    errors := 0;
    var j := 0;
    while j < |ranges|
      invariant 0 <= j <= |ranges| && errors == 0
      invariant forall i | j <= i < |ranges| :: Untouched(m0, mem[..], ranges[i])
      invariant forall i | 0 <= i < j :: RangeIs(f, m0, mem[..], ranges[i], offset, p1, p2, false)
      invariant SameElsewhere(m0, mem[..], ranges)
    {
      ghost var m := mem[..];
      var bad := GridSweep(Store(p1), f, mem, ranges[j], offset);
      Stored(f, m0, m, mem[..], ranges[j], offset, p1, p2, bad);
      ElsewhereKept(m0, m, mem[..], ranges, j);
      forall i | 0 <= i < |ranges| && i != j
        ensures j < i ==> Untouched(m0, mem[..], ranges[i])
        ensures i < j ==> RangeIs(f, m0, mem[..], ranges[i], offset, p1, p2, false)
      {
        OthersKept(f, m0, m, mem[..], ranges, offset, j, i, p1, p2, false);
      }
      j := j + 1;
    }
    var l := 0;
    while l < iter
      invariant 0 <= l <= iter
      invariant forall i | 0 <= i < |ranges| :: RangeIs(f, m0, mem[..], ranges[i], offset, p1, p2, l > 0)
      invariant SameElsewhere(m0, mem[..], ranges)
    {
      RestPass(f, mem, ranges, offset, p1, p2, m0, l > 0);
      l := l + 1;
    }
    j := 0;
    while j < |ranges|
      invariant 0 <= j <= |ranges|
      invariant errors == 0 <==> GridsTake(f, ranges, offset, p1, mem.Length, j)
      invariant forall i | 0 <= i < |ranges| :: RangeIs(f, m0, mem[..], ranges[i], offset, p1, p2, iter > 0)
      invariant SameElsewhere(m0, mem[..], ranges)
    {
      ghost var m := mem[..];
      var bad := GridSweep(Verify(p1), f, mem, ranges[j], offset);
      Verified(f, m0, m, mem[..], ranges[j], offset, p1, p2, iter > 0, bad);
      errors := errors + bad;
      j := j + 1;
    }
    forall i | 0 <= i < |ranges|
      ensures EveryTwentieth(f, m0, mem[..], ranges[i], offset, p1, p2, iter > 0, MovInv1.UpEnd(ranges[i]))
    {
      FinalEveryTwentieth(f, m0, mem[..], ranges[i], offset, p1, p2, iter > 0);
    }
    AllTaken(f, ranges, offset, p1, mem.Length);
  }

  lemma TakenByRange(f: Cells, ranges: seq<Range>, offset: nat, v: bv32, size: nat)
    requires RangesOk(ranges, offset, size)
    ensures GridsTake(f, ranges, offset, v, size, |ranges|) <==>
              forall r | r in ranges :: r.hi >= MOD_SZ && GridTakes(f, r, offset, v)
  {
    hide GridTakes;
    if GridsTake(f, ranges, offset, v, size, |ranges|) {
      forall r | r in ranges ensures r.hi >= MOD_SZ && GridTakes(f, r, offset, v) {
        var i :| 0 <= i < |ranges| && ranges[i] == r;
      }
    }
  }

  lemma AllTaken(f: Cells, ranges: seq<Range>, offset: nat, v: bv32, size: nat)
    requires RangesOk(ranges, offset, size)
    ensures GridsTake(f, ranges, offset, v, size, |ranges|) <==>
              forall i, n: nat |
                0 <= i < |ranges| && ranges[i].lo <= n <= ranges[i].hi && Twentieth(ranges[i], offset, n) ::
                f(n, v) == v
    ensures Sound(f) ==> GridsTake(f, ranges, offset, v, size, |ranges|)
  {
    hide Twentieth;
    if GridsTake(f, ranges, offset, v, size, |ranges|) {
      forall i, n: nat | 0 <= i < |ranges| && ranges[i].lo <= n <= ranges[i].hi && Twentieth(ranges[i], offset, n)
        ensures f(n, v) == v
      {
        assert GridTakes(f, ranges[i], offset, v);
      }
    }
  }

  lemma NothingTouched(m: seq<bv32>, ranges: seq<Range>, offset: nat)
    requires RangesOk(ranges, offset, |m|)
    ensures forall i | 0 <= i < |ranges| :: Untouched(m, m, ranges[i])
  {
  }

  /** The second pattern, once over all segments. */
  method RestPass(f: Cells, mem: array<bv32>, ranges: seq<Range>, offset: nat, ghost p1: bv32, p2: bv32,
                  ghost m0: seq<bv32>, ghost rested: bool)
    requires |m0| == mem.Length && RangesOk(ranges, offset, mem.Length) && SameElsewhere(m0, mem[..], ranges)
    requires forall i | 0 <= i < |ranges| :: RangeIs(f, m0, mem[..], ranges[i], offset, p1, p2, rested)
    modifies mem
    ensures SameElsewhere(m0, mem[..], ranges)
    ensures forall i | 0 <= i < |ranges| :: RangeIs(f, m0, mem[..], ranges[i], offset, p1, p2, true)
  {
    hide Rested, SameElsewhere, SameOutside, RangeIs, GridEnd, MovInv1.UpEnd;
    var j := 0;
    while j < |ranges|
      invariant 0 <= j <= |ranges|
      invariant forall i | 0 <= i < |ranges| :: RangeIs(f, m0, mem[..], ranges[i], offset, p1, p2, i < j || rested)
      invariant SameElsewhere(m0, mem[..], ranges)
    {
      ghost var m := mem[..];
      RestSweep(f, mem, ranges[j], offset, p2);
      RestedOver(f, m0, m, mem[..], ranges[j], offset, p1, p2, rested);
      ElsewhereKept(m0, m, mem[..], ranges, j);
      forall i | 0 <= i < |ranges| && i != j
        ensures RangeIs(f, m0, mem[..], ranges[i], offset, p1, p2, i < j || rested)
      {
        OthersKept(f, m0, m, mem[..], ranges, offset, j, i, p1, p2, i < j || rested);
      }
      j := j + 1;
    }
  }
}
