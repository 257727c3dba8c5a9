/** The whole of movinv32: a fill, and then a number of upward and downward passes over all segments. A CPU's
    part of a segment may be empty; then the inner loops, which handle a dword before they look at the bound,
    still handle the first dword on the way up and the one below it on the way down. */
module MovInv32 {
  import opened Arith
  import opened Patterns
  import opened MovInv

  /** The dwords that the test handles on account of a range. */
  function Touched(r: Range): Range {
    if r.hi < r.lo then Range(r.hi, r.lo) else r
  }

  function TouchedRanges(ranges: seq<Range>): (t: seq<Range>)
    ensures |t| == |ranges| && forall i | 0 <= i < |ranges| :: t[i] == Touched(ranges[i])
  {
    seq(|ranges|, i requires 0 <= i < |ranges| => Touched(ranges[i]))
  }

  predicate RangesOk(ranges: seq<Range>, size: nat) {
    && (forall i | 0 <= i < |ranges| :: RangeOk(ranges[i], size) || EmptyRange(ranges[i], size))
    && Disjoint(TouchedRanges(ranges))
  }

  predicate NoneEmpty(ranges: seq<Range>) {
    forall i | 0 <= i < |ranges| :: ranges[i].lo <= ranges[i].hi
  }

  lemma NoneEmptyTouched(ranges: seq<Range>)
    requires NoneEmpty(ranges)
    ensures TouchedRanges(ranges) == ranges
  {
  }

  /** What an upward sweep of a range handles holds the pattern (inverted or not). */
  ghost predicate HoldsAbove(m: seq<bv32>, p: Pattern, r: Range, off: nat, inverted: bool) {
    Above(r).hi < |m| && Holds(m, p, r, off, inverted, r.lo, Above(r).hi + 1)
  }

  ghost predicate AllHold(m: seq<bv32>, p: Pattern, ranges: seq<Range>, off: nat, inverted: bool, a: int, b: int)
    requires 0 <= a && b <= |ranges|
  {
    forall i | a <= i < b :: HoldsAbove(m, p, ranges[i], off, inverted)
  }

  /** The same for what a write of the pattern leaves. */
  ghost predicate WrittenAbove(f: Cells, m: seq<bv32>, p: Pattern, r: Range, off: nat, inverted: bool) {
    Above(r).hi < |m| && Written(f, m, p, r, off, inverted, r.lo, Above(r).hi + 1)
  }

  ghost predicate AllWritten(f: Cells, m: seq<bv32>, p: Pattern, ranges: seq<Range>, off: nat, inverted: bool,
                             a: int, b: int)
    requires 0 <= a && b <= |ranges|
  {
    forall i | a <= i < b :: WrittenAbove(f, m, p, ranges[i], off, inverted)
  }

  /** Every dword that an upward sweep of a range handles takes the word of its phase (inverted or not). */
  ghost predicate Takes(f: Cells, p: Pattern, r: Range, off: nat, inverted: bool) {
    forall n: nat | r.lo <= n <= Above(r).hi :: f(n, Word(p, r, off, inverted, n)) == Word(p, r, off, inverted, n)
  }

  ghost predicate AllTake(f: Cells, p: Pattern, ranges: seq<Range>, off: nat, inverted: bool) {
    forall i | 0 <= i < |ranges| :: Takes(f, p, ranges[i], off, inverted)
  }

  lemma WrittenHolds(f: Cells, m: seq<bv32>, p: Pattern, ranges: seq<Range>, off: nat, inverted: bool)
    requires AllWritten(f, m, p, ranges, off, inverted, 0, |ranges|)
    ensures AllHold(m, p, ranges, off, inverted, 0, |ranges|) <==> AllTake(f, p, ranges, off, inverted)
  {
    hide Word;
    forall i | 0 <= i < |ranges|
      ensures HoldsAbove(m, p, ranges[i], off, inverted) <==> Takes(f, p, ranges[i], off, inverted)
    {
      assert WrittenAbove(f, m, p, ranges[i], off, inverted);
    }
  }

  /** Only what range j touches differs. */
  ghost predicate SameBut(m: seq<bv32>, m': seq<bv32>, r: Range) {
    SameOutside(m, m', Touched(r).lo, Touched(r).hi + 1)
  }

  lemma SweptUpBut(kind: Kind, f: Cells, m: seq<bv32>, m': seq<bv32>, p: Pattern, r: Range, off: nat, bad: nat)
    requires Above(r).hi < |m| && Swept(kind, f, m, m', p, r, off, r.lo, Above(r).hi + 1, bad)
    ensures SameBut(m, m', r) && WrittenAbove(f, m', p, r, off, kind.Up?)
    ensures !kind.Down? ==> (bad == 0 <==> kind.Fill? || HoldsAbove(m, p, r, off, false))
  {
    hide Word;
  }

  lemma SweptDownBut(f: Cells, m: seq<bv32>, m': seq<bv32>, p: Pattern, r: Range, off: nat, bad: nat, size: nat)
    requires RangeOk(r, size) || EmptyRange(r, size)
    requires |m| == size && Swept(Down, f, m, m', p, Below(r), off, Below(r).lo, r.hi + 1, bad)
    ensures SameBut(m, m', r)
    ensures r.hi < r.lo ==> m'[r.lo] == m[r.lo]
    ensures r.lo <= r.hi ==> WrittenAbove(f, m', p, r, off, false) && (bad == 0 <==> HoldsAbove(m, p, r, off, true))
  {
    hide Word;
  }

  /** Working on range j leaves the others alone. */
  lemma OtherKept(f: Cells, m: seq<bv32>, m': seq<bv32>, ranges: seq<Range>, j: nat, i: nat, size: nat, p: Pattern,
                  off: nat, inverted: bool)
    requires RangesOk(ranges, size) && |m| == size && i < |ranges| && j < |ranges| && i != j
    requires SameBut(m, m', ranges[j])
    ensures HoldsAbove(m', p, ranges[i], off, inverted) <==> HoldsAbove(m, p, ranges[i], off, inverted)
    ensures WrittenAbove(f, m, p, ranges[i], off, inverted) ==> WrittenAbove(f, m', p, ranges[i], off, inverted)
    ensures ranges[i].lo < size && m'[ranges[i].lo] == m[ranges[i].lo]
  {
    hide Word;
    var t := TouchedRanges(ranges);
    assert t[i].hi < t[j].lo || t[j].hi < t[i].lo;
    assert forall n | t[i].lo <= n <= t[i].hi :: m'[n] == m[n];
  }

  lemma ElsewhereBut(m0: seq<bv32>, m: seq<bv32>, m': seq<bv32>, ranges: seq<Range>, j: nat)
    requires j < |ranges| && SameElsewhere(m0, m, TouchedRanges(ranges)) && SameBut(m, m', ranges[j])
    ensures SameElsewhere(m0, m', TouchedRanges(ranges))
  {
    ElsewhereKept(m0, m, m', TouchedRanges(ranges), j);
  }

  /** An upward pass over all segments; phase and pattern are set anew for each. */
  method UpPass(kind: Kind, f: Cells, mem: array<bv32>, p: Pattern, ranges: seq<Range>, off: nat, p1: bv32)
      returns (k: nat, pat: bv32, bad: nat)
    requires RangesOk(ranges, mem.Length) && off < 32 && p1 == At(p, off) && !kind.Down?
    modifies mem
    ensures AllWritten(f, mem[..], p, ranges, off, kind.Up?, 0, |ranges|)
    ensures SameElsewhere(old(mem[..]), mem[..], TouchedRanges(ranges))
    ensures bad == 0 <==> kind.Fill? || AllHold(old(mem[..]), p, ranges, off, false, 0, |ranges|)
    ensures k < 32 && (ranges != [] && NoneEmpty(ranges) ==> k == off)
  {
    hide At, Word, Holds, HoldsAbove, Written, WrittenAbove, SameBut, Swept, SameElsewhere;
    ghost var m0 := mem[..];
    NothingElsewhere(m0, TouchedRanges(ranges));
    k, pat, bad := 0, 0, 0;
    var j := 0;
    while j < |ranges|
      invariant 0 <= j <= |ranges|
      invariant forall i | j <= i < |ranges| ::
                  HoldsAbove(mem[..], p, ranges[i], off, false) <==> HoldsAbove(m0, p, ranges[i], off, false)
      invariant AllWritten(f, mem[..], p, ranges, off, kind.Up?, 0, j)
      invariant SameElsewhere(m0, mem[..], TouchedRanges(ranges))
      invariant bad == 0 <==> kind.Fill? || AllHold(m0, p, ranges, off, false, 0, j)
      invariant k < 32 && (j > 0 && NoneEmpty(ranges) ==> k == off)
    {
      ghost var m1 := mem[..];
      var e;
      k, pat, e := UpRange(kind, f, mem, p, ranges[j], off, p1);
      SweptUpBut(kind, f, m1, mem[..], p, ranges[j], off, e);
      ElsewhereBut(m0, m1, mem[..], ranges, j);
      forall i | 0 <= i < |ranges| && i != j
        ensures WrittenAbove(f, m1, p, ranges[i], off, kind.Up?) ==>
                  WrittenAbove(f, mem[..], p, ranges[i], off, kind.Up?)
        ensures HoldsAbove(mem[..], p, ranges[i], off, false) <==> HoldsAbove(m1, p, ranges[i], off, false)
      {
        OtherKept(f, m1, mem[..], ranges, j, i, mem.Length, p, off, kind.Up?);
        OtherKept(f, m1, mem[..], ranges, j, i, mem.Length, p, off, false);
      }
      bad := bad + e;
      j := j + 1;
    }
  }

  /** Where a downward pass with the right phase stands: the ranges after j are done, with bad errors, and those
      up to j are as they were. */
  ghost predicate DownDone(f: Cells, m0: seq<bv32>, m: seq<bv32>, p: Pattern, ranges: seq<Range>, off: nat,
                           j: int, bad: nat)
    requires -1 <= j < |ranges|
  {
    && AllWritten(f, m, p, ranges, off, false, j + 1, |ranges|)
    && (bad == 0 <==> AllHold(m0, p, ranges, off, true, j + 1, |ranges|))
    && forall i | 0 <= i <= j :: HoldsAbove(m, p, ranges[i], off, true) <==> HoldsAbove(m0, p, ranges[i], off, true)
  }

  lemma DownDoneMore(f: Cells, m0: seq<bv32>, m1: seq<bv32>, m2: seq<bv32>, p: Pattern, ranges: seq<Range>, off: nat,
                     j: nat, bad: nat, e: nat, size: nat)
    requires RangesOk(ranges, size) && |m1| == size && j < |ranges| && SameBut(m1, m2, ranges[j])
    requires DownDone(f, m0, m1, p, ranges, off, j, bad)
    requires WrittenAbove(f, m2, p, ranges[j], off, false) && (e == 0 <==> HoldsAbove(m1, p, ranges[j], off, true))
    ensures DownDone(f, m0, m2, p, ranges, off, j - 1, bad + e)
  {
    hide HoldsAbove, WrittenAbove, SameBut, RangesOk;
    forall i | 0 <= i < |ranges| && i != j
      ensures HoldsAbove(m2, p, ranges[i], off, true) <==> HoldsAbove(m1, p, ranges[i], off, true)
      ensures WrittenAbove(f, m1, p, ranges[i], off, false) ==> WrittenAbove(f, m2, p, ranges[i], off, false)
    {
      OtherKept(f, m1, m2, ranges, j, i, size, p, off, true);
      OtherKept(f, m1, m2, ranges, j, i, size, p, off, false);
    }
  }

  /** The first dwords of empty ranges are as they were. */
  ghost predicate FirstsKept(m0: seq<bv32>, m: seq<bv32>, ranges: seq<Range>) {
    && |m| == |m0|
    && forall i | 0 <= i < |ranges| && ranges[i].hi < ranges[i].lo < |m| :: m[ranges[i].lo] == m0[ranges[i].lo]
  }

  lemma FirstsKeptMore(f: Cells, m0: seq<bv32>, m1: seq<bv32>, m2: seq<bv32>, p: Pattern, ranges: seq<Range>, j: nat,
                       size: nat)
    requires RangesOk(ranges, size) && |m1| == size == |m2| && j < |ranges| && SameBut(m1, m2, ranges[j])
    requires FirstsKept(m0, m1, ranges) && (ranges[j].hi < ranges[j].lo < size ==> m2[ranges[j].lo] == m1[ranges[j].lo])
    ensures FirstsKept(m0, m2, ranges)
  {
    hide SameBut, RangesOk;
    forall i | 0 <= i < |ranges| && i != j ensures ranges[i].lo < size && m2[ranges[i].lo] == m1[ranges[i].lo] {
      OtherKept(f, m1, m2, ranges, j, i, size, p, 0, true);
    }
  }

  /** A downward pass over all segments, last to first; phase and pattern carry over. */
  method DownPass(f: Cells, mem: array<bv32>, p: Pattern, ranges: seq<Range>, ghost off: nat, k0: nat, pat0: bv32)
      returns (bad: nat)
    requires Reversible(p) && RangesOk(ranges, mem.Length) && off < 32
    requires 1 <= k0 <= 32 && pat0 == At(p, k0 - 1)
    modifies mem
    ensures SameElsewhere(old(mem[..]), mem[..], TouchedRanges(ranges))
    ensures FirstsKept(old(mem[..]), mem[..], ranges)
    ensures NoneEmpty(ranges) && (ranges == [] || k0 % 32 == off) ==>
              && AllWritten(f, mem[..], p, ranges, off, false, 0, |ranges|)
              && (bad == 0 <==> AllHold(old(mem[..]), p, ranges, off, true, 0, |ranges|))
  {
    hide At, Word, Holds, Written, RangesOk, SameBut, Swept, SameElsewhere, Reversible, DownDone, FirstsKept;
    hide HoldsAbove, WrittenAbove;
    ghost var m0 := mem[..];
    NothingElsewhere(m0, TouchedRanges(ranges));
    NothingDown(f, m0, p, ranges, off);
    var k, pat := k0, pat0;
    bad := 0;
    var j := |ranges| - 1;
    while j >= 0
      invariant -1 <= j < |ranges|
      invariant 1 <= k <= 32 && pat == At(p, k - 1) && (NoneEmpty(ranges) ==> k == k0)
      invariant FirstsKept(m0, mem[..], ranges)
      invariant SameElsewhere(m0, mem[..], TouchedRanges(ranges))
      invariant NoneEmpty(ranges) && (ranges == [] || k0 % 32 == off) ==>
                  DownDone(f, m0, mem[..], p, ranges, off, j, bad)
    {
      ghost var m1 := mem[..];
      ghost var o := if ranges[j].lo <= ranges[j].hi then k % 32 else k - 1;
      RangeIsOk(ranges, j, mem.Length);
      EndPhase(p, ranges[j], o, k, pat, mem.Length);
      var e;
      k, pat, e := DownRange(f, mem, p, ranges[j], o, k, pat);
      SweptDownBut(f, m1, mem[..], p, ranges[j], o, e, mem.Length);
      ElsewhereBut(m0, m1, mem[..], ranges, j);
      FirstsKeptMore(f, m0, m1, mem[..], p, ranges, j, mem.Length);
      if NoneEmpty(ranges) && k0 % 32 == off {
        DownDoneMore(f, m0, m1, mem[..], p, ranges, off, j, bad, e, mem.Length);
      }
      bad := bad + e;
      j := j - 1;
    }
    if NoneEmpty(ranges) && (ranges == [] || k0 % 32 == off) {
      AllDown(f, m0, mem[..], p, ranges, off, bad);
    }
  }

  lemma RangeIsOk(ranges: seq<Range>, j: nat, size: nat)
    requires RangesOk(ranges, size) && j < |ranges|
    ensures RangeOk(ranges[j], size) || EmptyRange(ranges[j], size)
  {
  }

  lemma NothingDown(f: Cells, m: seq<bv32>, p: Pattern, ranges: seq<Range>, off: nat)
    ensures DownDone(f, m, m, p, ranges, off, |ranges| - 1, 0) && FirstsKept(m, m, ranges)
  {
  }

  lemma AllDown(f: Cells, m0: seq<bv32>, m: seq<bv32>, p: Pattern, ranges: seq<Range>, off: nat, bad: nat)
    requires DownDone(f, m0, m, p, ranges, off, -1, bad)
    ensures AllWritten(f, m, p, ranges, off, false, 0, |ranges|)
    ensures bad == 0 <==> AllHold(m0, p, ranges, off, true, 0, |ranges|)
  {
  }

  /** Any phase is the phase of the last dword for some offset; the offset of the test, when it is that of the
      upward passes and no range is empty. */
  lemma EndPhase(p: Pattern, r: Range, o: nat, k: nat, pat: bv32, size: nat)
    requires RangeOk(r, size) || EmptyRange(r, size)
    requires 1 <= k <= 32 && pat == At(p, k - 1) && o == if r.lo <= r.hi then k % 32 else k - 1
    ensures DownState(p, Below(r), o, r.hi, k, pat)
  {
    hide At;
    if r.lo <= r.hi {
      assert (r.hi - r.lo) % 32 == 31;
    }
  }

  /** Phase and pattern of the last dword, from those after it. */
  method TurnAround(p: Pattern, k: nat) returns (k': nat, pat: bv32)
    requires k < 32
    ensures k' == (k + 31) % 32 + 1 && pat == At(p, k' - 1)
  {
    var last := if k == 0 then 31 else k - 1;
    pat := p.lb;
    var n := 0;
    while n < last
      invariant 0 <= n <= last && pat == At(p, n)
    {
      pat := pat << 1;
      pat := pat | p.sval;
      n := n + 1;
    }
    k' := last + 1;
  }

  /** Every dword of r holds the pattern of its phase. */
  ghost predicate Periodic(m: seq<bv32>, r: Range, p: Pattern, off: nat) {
    r.hi < |m| && forall n | r.lo <= n <= r.hi :: m[n] == At(p, (off + n - r.lo) % 32)
  }

  /** Dword n of the range takes the word of its phase, and its complement. */
  predicate TakesBoth(f: Cells, p: Pattern, r: Range, off: nat, n: nat)
    requires r.lo <= n
  {
    var w := At(p, (off + n - r.lo) % 32);
    f(n, w) == w && f(n, !w) == !w
  }

  ghost predicate NoFault(f: Cells, ranges: seq<Range>, p: Pattern, off: nat) {
    forall i, n: nat | 0 <= i < |ranges| && ranges[i].lo <= n <= ranges[i].hi :: TakesBoth(f, p, ranges[i], off, n)
  }

  /** What was last written to every dword of r is the pattern of its phase. */
  ghost predicate PeriodicWritten(f: Cells, m: seq<bv32>, r: Range, p: Pattern, off: nat) {
    r.hi < |m| && forall n | r.lo <= n <= r.hi :: m[n] == f(n, At(p, (off + n - r.lo) % 32))
  }

  /** The test, whatever faults the memory has, for any number of iterations and any segments. When no range is
      empty it reports an error exactly when some dword does not take the pattern of its phase or its complement
      (and an iteration is made), writes every dword of the ranges, and touches nothing else. On fault-free
      memory it then leaves every dword with the pattern of its phase; with an empty range it reports errors
      from the second iteration on even there, and touches the dword below the range as well. */
  method MovInv32(f: Cells, mem: array<bv32>, ranges: seq<Range>, iter: nat, p1: bv32, p: Pattern, off: nat)
      returns (errors: nat)
    requires Reversible(p) && off < 32 && p1 == At(p, off)
    requires RangesOk(ranges, mem.Length)
    modifies mem
    ensures NoneEmpty(ranges) ==> (errors == 0 <==> iter == 0 || NoFault(f, ranges, p, off))
    ensures NoneEmpty(ranges) ==> forall i | 0 <= i < |ranges| :: PeriodicWritten(f, mem[..], ranges[i], p, off)
    ensures Sound(f) && NoneEmpty(ranges) ==>
              errors == 0 && forall i | 0 <= i < |ranges| :: Periodic(mem[..], ranges[i], p, off)
    ensures Sound(f) && iter >= 2 ==> (errors == 0 <==> NoneEmpty(ranges))
    ensures SameElsewhere(old(mem[..]), mem[..], TouchedRanges(ranges))
  {
    hide At, Word, AllHold, AllWritten, AllTake, SameElsewhere, Reversible, RangesOk, NoFault;
    hide Periodic, PeriodicWritten, SomeFlipped, FirstsKept;
    ghost var m0 := mem[..];
    ghost var flipped := !p1;
    var k, pat, bad := UpPass(Fill, f, mem, p, ranges, off, p1);
    errors := bad;
    var i := 0;
    while i < iter
      invariant 0 <= i <= iter
      invariant NoneEmpty(ranges) ==> AllWritten(f, mem[..], p, ranges, off, false, 0, |ranges|)
      invariant NoneEmpty(ranges) ==>
                  (errors == 0 <==> i == 0 || (AllTake(f, p, ranges, off, false) && AllTake(f, p, ranges, off, true)))
      invariant Sound(f) && !NoneEmpty(ranges) && i >= 1 ==> SomeFlipped(mem[..], ranges, flipped)
      invariant Sound(f) && !NoneEmpty(ranges) && i >= 2 ==> errors > 0
      invariant SameElsewhere(m0, mem[..], TouchedRanges(ranges))
    {
      ghost var m1 := mem[..];
      if NoneEmpty(ranges) {
        WrittenHolds(f, m1, p, ranges, off, false);
      }
      k, pat, bad := UpPass(Up, f, mem, p, ranges, off, p1);
      ghost var m2 := mem[..];
      ElsewhereJoin(m0, m1, m2, TouchedRanges(ranges));
      if SomeFlipped(m1, ranges, flipped) {
        FlippedFails(m1, p, ranges, off, p1, mem.Length);
      }
      WrittenHolds(f, m2, p, ranges, off, true);
      UpFlips(f, m2, p, ranges, off, p1, mem.Length);
      errors := errors + bad;
      TurnedPhase(k);
      k, pat := TurnAround(p, k);
      bad := DownPass(f, mem, p, ranges, off, k, pat);
      FlippedKept(m2, mem[..], ranges, flipped);
      ElsewhereJoin(m0, m2, mem[..], TouchedRanges(ranges));
      errors := errors + bad;
      i := i + 1;
    }
    if NoneEmpty(ranges) {
      FinalWords(f, mem[..], p, ranges, off);
      BothTaken(f, p, ranges, off);
    }
  }

  lemma FlippedKept(m: seq<bv32>, m': seq<bv32>, ranges: seq<Range>, v: bv32)
    requires FirstsKept(m, m', ranges)
    ensures SomeFlipped(m, ranges, v) ==> SomeFlipped(m', ranges, v)
  {
  }

  lemma DwordTakes(f: Cells, p: Pattern, r: Range, off: nat, n: nat)
    requires r.lo <= n
    ensures TakesBoth(f, p, r, off, n)
       <==> (f(n, Word(p, r, off, false, n)) == Word(p, r, off, false, n) &&
             f(n, Word(p, r, off, true, n)) == Word(p, r, off, true, n))
  {
    hide At;
  }

  lemma RangeTakes(f: Cells, p: Pattern, r: Range, off: nat)
    requires r.lo <= r.hi
    ensures (forall n: nat | r.lo <= n <= r.hi :: TakesBoth(f, p, r, off, n))
       <==> Takes(f, p, r, off, false) && Takes(f, p, r, off, true)
  {
    hide TakesBoth, Word;
    forall n: nat | r.lo <= n <= r.hi
      ensures TakesBoth(f, p, r, off, n)
         <==> (f(n, Word(p, r, off, false, n)) == Word(p, r, off, false, n) &&
               f(n, Word(p, r, off, true, n)) == Word(p, r, off, true, n))
    {
      DwordTakes(f, p, r, off, n);
    }
  }

  lemma BothTaken(f: Cells, p: Pattern, ranges: seq<Range>, off: nat)
    requires NoneEmpty(ranges)
    ensures NoFault(f, ranges, p, off) <==> AllTake(f, p, ranges, off, false) && AllTake(f, p, ranges, off, true)
    ensures Sound(f) ==> NoFault(f, ranges, p, off)
  {
    if Sound(f) {
      assert NoFault(f, ranges, p, off);
    }
    hide TakesBoth, Takes;
    forall i | 0 <= i < |ranges|
      ensures (forall n: nat | ranges[i].lo <= n <= ranges[i].hi :: TakesBoth(f, p, ranges[i], off, n))
         <==> Takes(f, p, ranges[i], off, false) && Takes(f, p, ranges[i], off, true)
    {
      RangeTakes(f, p, ranges[i], off);
    }
  }

  lemma TurnedPhase(k: nat)
    requires k < 32
    ensures ((k + 31) % 32 + 1) % 32 == k
  {
  }

  /** The first dword of some empty range holds v. */
  ghost predicate SomeFlipped(m: seq<bv32>, ranges: seq<Range>, v: bv32) {
    exists i :: 0 <= i < |ranges| && ranges[i].hi < ranges[i].lo < |m| && m[ranges[i].lo] == v
  }

  lemma FirstWord(p: Pattern, r: Range, off: nat)
    requires off < 32
    ensures Word(p, r, off, true, r.lo) == !At(p, off) && Word(p, r, off, false, r.lo) == At(p, off)
    ensures At(p, off) != !At(p, off)
  {
    PhaseFirst(r, off);
    hide At, Phase;
  }

  lemma PhaseFirst(r: Range, off: nat)
    requires off < 32
    ensures Phase(r, off, r.lo) == off
  {
    DivMod(off, 32, 0, off);
  }

  /** An upward pass leaves the complement in the first dword of every range. */
  lemma UpFlips(f: Cells, m: seq<bv32>, p: Pattern, ranges: seq<Range>, off: nat, p1: bv32, size: nat)
    requires RangesOk(ranges, size) && |m| == size && off < 32 && p1 == At(p, off)
    requires AllWritten(f, m, p, ranges, off, true, 0, |ranges|)
    ensures Sound(f) && !NoneEmpty(ranges) ==> SomeFlipped(m, ranges, !p1)
    ensures forall i | 0 <= i < |ranges| && ranges[i].hi < ranges[i].lo < size ::
              m[ranges[i].lo] == f(ranges[i].lo, !p1)
  {
    hide At, Word;
    forall i | 0 <= i < |ranges| && ranges[i].hi < ranges[i].lo
      ensures ranges[i].lo < size && m[ranges[i].lo] == f(ranges[i].lo, !p1)
    {
      FirstWord(p, ranges[i], off);
      assert WrittenAbove(f, m, p, ranges[i], off, true);
    }
  }

  lemma FlippedFails(m: seq<bv32>, p: Pattern, ranges: seq<Range>, off: nat, p1: bv32, size: nat)
    requires |m| == size && off < 32 && p1 == At(p, off) && SomeFlipped(m, ranges, !p1)
    ensures !AllHold(m, p, ranges, off, false, 0, |ranges|)
  {
    hide At, Word;
    var i :| 0 <= i < |ranges| && ranges[i].hi < ranges[i].lo < |m| && m[ranges[i].lo] == !p1;
    FirstWord(p, ranges[i], off);
  }

  lemma ElsewhereJoin(m0: seq<bv32>, m1: seq<bv32>, m2: seq<bv32>, ranges: seq<Range>)
    requires SameElsewhere(m0, m1, ranges) && SameElsewhere(m1, m2, ranges)
    ensures SameElsewhere(m0, m2, ranges)
  {
  }

  lemma FinalWords(f: Cells, m: seq<bv32>, p: Pattern, ranges: seq<Range>, off: nat)
    requires NoneEmpty(ranges) && AllWritten(f, m, p, ranges, off, false, 0, |ranges|)
    ensures forall i | 0 <= i < |ranges| :: PeriodicWritten(f, m, ranges[i], p, off)
    ensures Sound(f) ==> forall i | 0 <= i < |ranges| :: Periodic(m, ranges[i], p, off)
  {
    hide At;
    forall i | 0 <= i < |ranges|
      ensures PeriodicWritten(f, m, ranges[i], p, off) && (Sound(f) ==> Periodic(m, ranges[i], p, off))
    {
      assert WrittenAbove(f, m, p, ranges[i], off, false);
    }
  }
}
