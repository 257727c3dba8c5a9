/** movinv32: the moving inversions test with a 32-bit shifting pattern. Memory is an array of dwords,
    addressed by dword index; a range is the part of one segment that a CPU tests, with both bounds inclusive. */
module MovInv {
  import opened Arith
  import opened Patterns

  /** Dwords per span, and dwords in the 32-bit address space (where span arithmetic wraps). */
  const SPINSZ := 0x4000000
  const SPACE := 0x40000000

  datatype Range = Range(lo: nat, hi: nat)

  /** How memory takes a write: what dword n holds after v has been written to it. A dword with a fault holds
      something else than v for some v. */
  type Cells = (nat, bv32) -> bv32

  const FAULT_FREE: Cells := (n: nat, v: bv32) => v

  /** Fault-free memory. */
  ghost predicate Sound(f: Cells) {
    forall n, v :: f(n, v) == v
  }

  /** The phase of dword n of a range when the test starts at phase off. */
  function Phase(r: Range, off: nat, n: int): nat
    requires r.lo <= n
  {
    (off + n - r.lo) % 32
  }

  function Signed(x: bv32, inverted: bool): bv32 {
    if inverted then !x else x
  }

  /** What dword n of the range holds: the pattern, or its complement. */
  function Word(p: Pattern, r: Range, off: nat, inverted: bool, n: int): bv32
    requires r.lo <= n
  {
    Signed(At(p, Phase(r, off, n)), inverted)
  }

  /** Dwords lo..hi-1 of the range hold the pattern (inverted or not). */
  ghost predicate Holds(m: seq<bv32>, p: Pattern, r: Range, off: nat, inverted: bool, lo: int, hi: int)
    requires r.lo <= lo && hi <= |m|
  {
    forall n | lo <= n < hi :: m[n] == Word(p, r, off, inverted, n)
  }

  /** Dwords lo..hi-1 of the range hold what a write of the pattern (inverted or not) leaves in them. */
  ghost predicate Written(f: Cells, m: seq<bv32>, p: Pattern, r: Range, off: nat, inverted: bool, lo: int, hi: int)
    requires r.lo <= lo && hi <= |m|
  {
    forall n | lo <= n < hi :: m[n] == f(n, Word(p, r, off, inverted, n))
  }

  /** Only dwords lo..hi-1 differ. */
  ghost predicate SameOutside(m: seq<bv32>, m': seq<bv32>, lo: int, hi: int) {
    |m| == |m'| && forall n | 0 <= n < |m| && !(lo <= n < hi) :: m'[n] == m[n]
  }

  /** No two ranges share a dword. */
  predicate Disjoint(ranges: seq<Range>) {
    forall i, j | 0 <= i < j < |ranges| :: ranges[i].hi < ranges[j].lo || ranges[j].hi < ranges[i].lo
  }

  predicate InRanges(ranges: seq<Range>, n: int) {
    exists i :: 0 <= i < |ranges| && ranges[i].lo <= n <= ranges[i].hi
  }

  /** Memory outside the ranges is as it was. */
  ghost predicate SameElsewhere(m: seq<bv32>, m': seq<bv32>, ranges: seq<Range>) {
    |m| == |m'| && forall n | 0 <= n < |m| && !InRanges(ranges, n) :: m'[n] == m[n]
  }

  lemma NothingElsewhere(m: seq<bv32>, ranges: seq<Range>)
    ensures SameElsewhere(m, m, ranges)
  {
  }

  lemma ElsewhereKept(m0: seq<bv32>, m: seq<bv32>, m': seq<bv32>, ranges: seq<Range>, j: nat)
    requires j < |ranges| && SameElsewhere(m0, m, ranges) && SameOutside(m, m', ranges[j].lo, ranges[j].hi + 1)
    ensures SameElsewhere(m0, m', ranges)
  {
  }

  /** The ranges the test is used on: inside memory, a non-zero multiple of 32 dwords long. */
  predicate RangeOk(r: Range, size: nat) {
    r.lo <= r.hi < size <= SPACE && (r.hi - r.lo + 1) % 32 == 0
  }

  /** What a CPU gets when there are not 32 dwords for each: the last dword precedes the first. */
  predicate EmptyRange(r: Range, size: nat) {
    r.hi + 1 == r.lo < size <= SPACE
  }

  /** The dwords that an upward sweep of a range handles: the first one in any case. */
  function Above(r: Range): Range {
    if r.hi < r.lo then Range(r.lo, r.lo) else r
  }

  /** The dwords that a downward sweep of a range handles: the last one in any case. */
  function Below(r: Range): Range {
    if r.hi < r.lo then Range(r.hi, r.hi) else r
  }

  /** The running phase and pattern of an upward pass, about to handle dword n. */
  predicate UpState(p: Pattern, r: Range, off: nat, n: int, k: nat, pat: bv32)
    requires r.lo <= n
  {
    k == Phase(r, off, n) && pat == At(p, k)
  }

  /** The running phase and pattern of a downward pass, about to handle dword n. */
  predicate DownState(p: Pattern, r: Range, off: nat, n: int, k: nat, pat: bv32)
    requires r.lo <= n + 32
  {
    k == (off + n + 32 - r.lo) % 32 + 1 && pat == At(p, k - 1)
  }

  lemma AtNext(p: Pattern, k: nat)
    ensures At(p, 0) == p.lb
    ensures At(p, k + 1) == (At(p, k) << 1) | p.sval
  {
  }

  /** Phase and pattern, one dword up. */
  method StepUp(p: Pattern, k: nat, pat: bv32) returns (k': nat, pat': bv32)
    requires k < 32 && pat == At(p, k)
    ensures k' == (k + 1) % 32 && pat' == At(p, k')
  {
    AtNext(p, k);
    hide At;
    k' := k + 1;
    if k' != 32 {
      pat' := (pat << 1) | p.sval;
    } else {
      pat' := p.lb;
      k' := 0;
    }
  }

  lemma ReversibleAt(p: Pattern, k: nat)
    requires Reversible(p) && k < 32
    ensures k > 0 ==> (At(p, k) >> 1) | P3(p) == At(p, k - 1)
    ensures At(p, 31) == p.hb
  {
  }

  /** Phase and pattern, one dword down. */
  method StepDown(p: Pattern, k: nat, pat: bv32) returns (k': nat, pat': bv32)
    requires Reversible(p) && 1 <= k <= 32 && pat == At(p, k - 1)
    ensures k' == (if k == 1 then 32 else k - 1) && pat' == At(p, k' - 1)
  {
    ReversibleAt(p, k - 1);
    hide Reversible, At;
    k' := k - 1;
    if k' > 0 {
      pat' := (pat >> 1) | P3(p);
    } else {
      pat' := p.hb;
      k' := 32;
    }
  }

  lemma PhaseNext(r: Range, off: nat, n: int)
    requires r.lo <= n
    ensures Phase(r, off, n + 1) == (Phase(r, off, n) + 1) % 32
  {
  }

  // ---------- progress of a sweep ----------

  /** The fill writes the pattern; the upward pass checks for the pattern and writes its complement; the
      downward pass checks for the complement and writes the pattern. */
  datatype Kind = Fill | Up | Down

  /** From memory m0, dwords lo..hi-1 of the range have been handled and nothing else; bad, the number of
      calls of error(), is 0 exactly when what was checked was there. */
  ghost predicate Swept(kind: Kind, f: Cells, m0: seq<bv32>, m: seq<bv32>, p: Pattern, r: Range, off: nat,
                        lo: int, hi: int, bad: nat)
    requires r.lo <= lo
  {
    && 0 <= lo && hi <= |m0| && SameOutside(m0, m, lo, hi)
    && Written(f, m, p, r, off, kind.Up?, lo, hi)
    && (bad == 0 <==> kind.Fill? || Holds(m0, p, r, off, kind.Down?, lo, hi))
  }

  lemma SweptNothing(kind: Kind, f: Cells, m: seq<bv32>, p: Pattern, r: Range, off: nat, n: nat)
    requires r.lo <= n <= |m|
    ensures Swept(kind, f, m, m, p, r, off, n, n, 0)
  {
  }

  /** Two adjacent stretches, one after the other, in either direction. */
  lemma SweptJoin(kind: Kind, f: Cells, m0: seq<bv32>, m1: seq<bv32>, m2: seq<bv32>, p: Pattern, r: Range, off: nat,
                  lo: int, mid: int, hi: int, bad1: nat, bad2: nat)
    requires r.lo <= lo <= mid <= hi
    requires (Swept(kind, f, m0, m1, p, r, off, lo, mid, bad1) && Swept(kind, f, m1, m2, p, r, off, mid, hi, bad2))
          || (Swept(kind, f, m0, m1, p, r, off, mid, hi, bad1) && Swept(kind, f, m1, m2, p, r, off, lo, mid, bad2))
    ensures Swept(kind, f, m0, m2, p, r, off, lo, hi, bad1 + bad2)
  {
    hide Word;
  }

  lemma SweptOne(kind: Kind, f: Cells, m0: seq<bv32>, p: Pattern, r: Range, off: nat, n: nat, bad: nat)
    requires r.lo <= n < |m0|
    requires bad == 0 <==> kind.Fill? || m0[n] == Word(p, r, off, kind.Down?, n)
    ensures Swept(kind, f, m0, m0[n := f(n, Word(p, r, off, kind.Up?, n))], p, r, off, n, n + 1, bad)
  {
    hide Word;
  }

  /** Checks and writes one dword. */
  method Dword(kind: Kind, f: Cells, mem: array<bv32>, p: Pattern, ghost r: Range, ghost off: nat, n: nat, pat: bv32)
      returns (bad: nat)
    requires r.lo <= n < mem.Length && pat == At(p, Phase(r, off, n))
    modifies mem
    ensures Swept(kind, f, old(mem[..]), mem[..], p, r, off, n, n + 1, bad)
  {
    hide At, Phase, Swept, Signed;
    ghost var m0 := mem[..];
    var expected := Signed(pat, kind.Down?);
    bad := if !kind.Fill? && mem[n] != expected then 1 else 0;
    SweptOne(kind, f, mem[..], p, r, off, n, bad);
    mem[n] := f(n, Signed(pat, kind.Up?));
    assert mem[..] == m0[n := mem[n]];
  }

  // ---------- upward ----------

  /** The inner loop of the fill and of the upward pass, from dword first to dword last; like every inner
      loop here it handles the first dword before it looks at the bound. */
  method UpSpan(kind: Kind, f: Cells, mem: array<bv32>, p: Pattern, ghost r: Range, ghost off: nat, first: nat,
                last: nat, k: nat, pat: bv32) returns (k': nat, pat': bv32, bad: nat)
    requires r.lo <= first <= last + 1 && first < mem.Length && last < mem.Length
    requires UpState(p, r, off, first, k, pat)
    modifies mem
    ensures var top := Above(Range(first, last)).hi;
            && Swept(kind, f, old(mem[..]), mem[..], p, r, off, first, top + 1, bad)
            && UpState(p, r, off, top + 1, k', pat')
  {
    hide At, Word, Holds, Written, SameOutside, Swept;
    ghost var m0 := mem[..];
    bad := Dword(kind, f, mem, p, r, off, first, pat);
    PhaseNext(r, off, first);
    k', pat' := StepUp(p, k, pat);
    var n := first;
    while n < last
      invariant first <= n <= Above(Range(first, last)).hi
      invariant UpState(p, r, off, n + 1, k', pat')
      invariant Swept(kind, f, m0, mem[..], p, r, off, first, n + 1, bad)
    {
      n := n + 1;
      ghost var m1 := mem[..];
      var e := Dword(kind, f, mem, p, r, off, n, pat');
      SweptJoin(kind, f, m0, m1, mem[..], p, r, off, first, n, n + 1, bad, e);
      bad := bad + e;
      PhaseNext(r, off, n);
      k', pat' := StepUp(p, k', pat');
    }
  }

  /** How far the next upward span reaches: one SPINSZ further, or to the end when the address would wrap
      (or the range starts at address 0). */
  function NextUp(pe: nat, hi: nat): nat {
    var moved := if (pe + SPINSZ) % SPACE > pe && pe != 0 then pe + SPINSZ else hi;
    if moved >= hi then hi else moved
  }

  lemma NextUpIs(pe: nat, hi: nat)
    requires hi < SPACE && pe < SPACE
    ensures NextUp(pe, hi) == if pe == 0 || pe + SPINSZ >= hi then hi else pe + SPINSZ
  {
    if pe + SPINSZ < SPACE {
      DivMod(pe + SPINSZ, SPACE, 0, pe + SPINSZ);
    } else {
      DivMod(pe + SPINSZ, SPACE, 1, pe + SPINSZ - SPACE);
    }
  }

  lemma NextUpMoves(r: Range, pe: nat, size: nat)
    requires RangeOk(r, size) && r.lo <= pe < r.hi && (pe - r.lo) % 32 == 0
    ensures pe < NextUp(pe, r.hi) <= r.hi
    ensures NextUp(pe, r.hi) < r.hi ==> (NextUp(pe, r.hi) - r.lo) % 32 == 0
    ensures NextUp(pe, r.hi) != pe + 1
  {
    assert (pe + SPINSZ - r.lo) % 32 == (pe - r.lo) % 32;
  }

  lemma NextUpEmpty(r: Range)
    requires r.hi < r.lo
    ensures NextUp(r.lo, r.hi) == r.hi
  {
  }

  /** One upward sweep over a range, span by span, from phase off. An empty range loses to the inner loop,
      which handles its first dword before it looks at the bound. */
  method UpRange(kind: Kind, f: Cells, mem: array<bv32>, p: Pattern, r: Range, off: nat, p1: bv32)
      returns (k: nat, pat: bv32, bad: nat)
    requires RangeOk(r, mem.Length) || EmptyRange(r, mem.Length)
    requires off < 32 && p1 == At(p, off)
    modifies mem
    ensures Swept(kind, f, old(mem[..]), mem[..], p, r, off, r.lo, Above(r).hi + 1, bad)
    ensures UpState(p, r, off, Above(r).hi + 1, k, pat)
    ensures r.lo <= r.hi ==> k == off && pat == p1
  {
    hide At, Word, Holds, Written, SameOutside, Swept, NextUp;
    ghost var m0 := mem[..];
    var pe, start, done := r.lo, r.lo, false;
    ghost var next: nat := r.lo;
    k, pat, bad := off, p1, 0;
    SweptNothing(kind, f, m0, p, r, off, r.lo);
    while !done
      invariant r.lo <= start <= r.hi + 1
      invariant done ==> start == r.hi + 1
      invariant !done ==> r.lo <= pe && (pe - r.lo) % 32 == 0 && start == if pe == r.lo then r.lo else pe + 1
      invariant !done ==> pe < r.hi || (EmptyRange(r, mem.Length) && pe == r.lo)
      invariant next == if done then Above(r).hi + 1 else start
      invariant UpState(p, r, off, next, k, pat)
      invariant Swept(kind, f, m0, mem[..], p, r, off, r.lo, next, bad)
      decreases !done, r.hi - pe
    {
      if r.lo <= r.hi {
        NextUpMoves(r, pe, mem.Length);
      } else {
        NextUpEmpty(r);
      }
      pe := NextUp(pe, r.hi);
      if pe >= r.hi {
        done := true;
      }
      if start == pe {
        break;
      }
      ghost var m1 := mem[..];
      var e;
      k, pat, e := UpSpan(kind, f, mem, p, r, off, start, pe, k, pat);
      next := Above(Range(start, pe)).hi + 1;
      SweptJoin(kind, f, m0, m1, mem[..], p, r, off, r.lo, start, next, bad, e);
      bad := bad + e;
      start := pe + 1;
    }
  }

  // ---------- downward ----------

  lemma PhasePrevious(r: Range, off: nat, n: int, k: nat, pat: bv32, p: Pattern, k': nat)
    requires r.lo <= n && DownState(p, r, off, n, k, pat) && k' == (if k == 1 then 32 else k - 1)
    ensures k' == (off + n - 1 + 32 - r.lo) % 32 + 1
    ensures k - 1 == Phase(r, off, n)
  {
    hide At;
  }

  /** The inner loop of the downward pass, from dword first down to dword last. */
  method DownSpan(f: Cells, mem: array<bv32>, p: Pattern, ghost r: Range, ghost off: nat, first: nat, last: nat,
                  k: nat, pat: bv32) returns (k': nat, pat': bv32, bad: nat)
    requires Reversible(p) && r.lo <= Below(Range(last, first)).lo && last <= first + 1 && first < mem.Length
    requires DownState(p, r, off, first, k, pat)
    modifies mem
    ensures var bottom := Below(Range(last, first)).lo;
            && Swept(Down, f, old(mem[..]), mem[..], p, r, off, bottom, first + 1, bad)
            && DownState(p, r, off, bottom - 1, k', pat')
  {
    hide At, Word, Holds, Written, SameOutside, Swept, Reversible;
    ghost var m0 := mem[..];
    PhasePrevious(r, off, first, k, pat, p, if k == 1 then 32 else k - 1);
    bad := Dword(Down, f, mem, p, r, off, first, pat);
    k', pat' := StepDown(p, k, pat);
    var n := first;
    while n > last
      invariant Below(Range(last, first)).lo <= n <= first
      invariant DownState(p, r, off, n - 1, k', pat')
      invariant Swept(Down, f, m0, mem[..], p, r, off, n, first + 1, bad)
    {
      n := n - 1;
      ghost var m1 := mem[..];
      PhasePrevious(r, off, n, k', pat', p, if k' == 1 then 32 else k' - 1);
      var e := Dword(Down, f, mem, p, r, off, n, pat');
      SweptJoin(Down, f, m0, m1, mem[..], p, r, off, n, n + 1, first + 1, bad, e);
      bad := bad + e;
      k', pat' := StepDown(p, k', pat');
    }
  }

  /** How far the next downward span reaches: one SPINSZ further, or to the start when the address would
      wrap; done when it is set to the start that way, or would fall outside the range. */
  function NextDown(pe: nat, r: Range): (nat, bool) {
    var (moved, done) := if pe >= SPINSZ && pe != 0 then (pe - SPINSZ, false) else (r.lo, true);
    if moved < r.lo || moved > r.hi then (r.lo, true) else (moved, done)
  }

  lemma NextDownMoves(r: Range, pe: nat, size: nat)
    requires RangeOk(r, size) && r.lo < pe <= r.hi && (r.hi - pe) % 32 == 0
    ensures var (pe', done) := NextDown(pe, r);
            && r.lo <= pe' < pe && (done <==> pe' == r.lo)
            && (!done ==> (r.hi - pe') % 32 == 0)
            && pe' != pe - 1
  {
    assert (r.hi - (pe - SPINSZ)) % 32 == (r.hi - pe) % 32;
    assert (r.hi - r.lo) % 32 == 31;
  }

  /** A downward sweep has come to dword start, and its bound to pe. */
  predicate Descending(r: Range, pe: nat, start: int, size: nat) {
    || (RangeOk(r, size) && r.lo < pe <= r.hi && (r.hi - pe) % 32 == 0 && start == if pe == r.hi then pe else pe - 1)
    || (EmptyRange(r, size) && pe == start == r.hi)
  }

  lemma DescendingStarts(r: Range, size: nat)
    requires RangeOk(r, size) || EmptyRange(r, size)
    ensures Descending(r, r.hi, r.hi, size)
  {
    if r.lo == r.hi {
      assert (r.hi - r.lo + 1) % 32 == 1;
    }
  }

  lemma DescendingMoves(r: Range, pe: nat, start: int, size: nat)
    requires Descending(r, pe, start, size)
    ensures var (pe', done) := NextDown(pe, r);
            && start != pe' && pe' <= start + 1 && 0 <= start <= r.hi
            && Below(r).lo <= Below(Range(pe', start)).lo <= start
            && (done ==> pe' == r.lo && Below(Range(pe', start)).lo == Below(r).lo)
            && (!done ==> Descending(r, pe', pe' - 1, size) && Below(Range(pe', start)).lo == pe' < pe)
  {
    if r.lo <= r.hi {
      NextDownMoves(r, pe, size);
    }
  }

  /** One downward sweep over a range, continuing with whatever phase and pattern it is given. With an empty
      range it handles the dword below its start. */
  method DownRange(f: Cells, mem: array<bv32>, p: Pattern, r: Range, ghost off: nat, k0: nat, pat0: bv32)
      returns (k: nat, pat: bv32, bad: nat)
    requires RangeOk(r, mem.Length) || EmptyRange(r, mem.Length)
    requires Reversible(p) && DownState(p, Below(r), off, r.hi, k0, pat0)
    modifies mem
    ensures Swept(Down, f, old(mem[..]), mem[..], p, Below(r), off, Below(r).lo, r.hi + 1, bad)
    ensures DownState(p, Below(r), off, Below(r).lo - 1, k, pat)
    ensures r.lo <= r.hi ==> k == k0 && pat == pat0
  {
    hide At, Word, Holds, Written, SameOutside, Swept, NextDown, Reversible, Descending;
    ghost var m0 := mem[..];
    var pe, start, done := r.hi, r.hi as int, false;
    ghost var b, next := Below(r), r.hi as int;
    k, pat, bad := k0, pat0, 0;
    DescendingStarts(r, mem.Length);
    SweptNothing(Down, f, m0, p, b, off, r.hi + 1);
    while !done
      invariant r.lo - 1 <= start <= r.hi
      invariant done ==> start == r.lo - 1
      invariant !done ==> Descending(r, pe, start, mem.Length)
      invariant next == if done then b.lo - 1 else start
      invariant DownState(p, b, off, next, k, pat)
      invariant Swept(Down, f, m0, mem[..], p, b, off, next + 1, r.hi + 1, bad)
      decreases !done, pe
    {
      DescendingMoves(r, pe, start, mem.Length);
      var (pe', last) := NextDown(pe, r);
      pe, done := pe', last;
      if start == pe {
        break;
      }
      ghost var m1 := mem[..];
      var e;
      k, pat, e := DownSpan(f, mem, p, b, off, start, pe, k, pat);
      next := Below(Range(pe, start)).lo - 1;
      SweptJoin(Down, f, m0, m1, mem[..], p, b, off, next + 1, start + 1, r.hi + 1, bad, e);
      bad := bad + e;
      start := pe as int - 1;
    }
  }
}
