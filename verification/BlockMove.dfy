/** block_move: a fill with equal pairs of dwords, rounds of block moves that rotate each span, and a check
    that every pair is still equal. What the moves make of a span is stated for fault-free memory, what they
    leave alone and what the check finds for any. */
module BlockMove {
  import opened Arith
  import opened MovInv
  import opened Patterns

  // ---------- rotation ----------

  /** f rotated right by k places. */
  function Rotated<T>(f: seq<T>, k: nat): (r: seq<T>)
    ensures |r| == |f|
  {
    seq(|f|, i requires 0 <= i < |f| => f[(i - k) % |f|])
  }

  lemma RotatedAt<T>(f: seq<T>, k: nat, i: nat)
    requires i < |f|
    ensures 0 <= (i - k) % |f| < |f|
    ensures Rotated(f, k)[i] == f[(i - k) % |f|]
  {
  }

  /** One more rotation by 8, made of two block copies. */
  lemma RotateMore<T>(f: seq<T>, k: nat)
    requires |f| >= 8
    ensures Rotated(f, k)[|f| - 8..] + Rotated(f, k)[..|f| - 8] == Rotated(f, k + 8)
  {
    hide Rotated;
    var r := Rotated(f, k);
    var n := |f|;
    var moved := r[n - 8..] + r[..n - 8];
    forall i | 0 <= i < n ensures moved[i] == Rotated(f, k + 8)[i] {
      RotatedAt(f, k + 8, i);
      assert i - 8 - k == i - (k + 8);
      if i < 8 {
        RotatedAt(f, k, n - 8 + i);
        ModPlus(i - 8 - k, n);
        assert n - 8 + i - k == i - 8 - k + n;
      } else {
        RotatedAt(f, k, i - 8);
      }
    }
  }

  lemma RotatedZero<T>(f: seq<T>)
    ensures Rotated(f, 0) == f
  {
    hide Rotated;
    var r := Rotated(f, 0);
    forall i | 0 <= i < |f| ensures r[i] == f[i] {
      RotatedAt(f, 0, i);
      DivMod(i, |f|, 0, i);
    }
  }

  // ---------- pairs ----------

  /** A pair, and a block of 16 dwords, may start here. */
  predicate OnPair(x: int) {
    x % 2 == 0
  }

  predicate OnBlock(x: int) {
    x % 16 == 0
  }

  lemma BlockIsPair(x: int)
    requires OnBlock(x)
    ensures OnPair(x)
  {
    DivMod(x, 2, 8 * (x / 16), 0);
  }

  lemma BlockSum(x: int, y: int)
    requires OnBlock(x) && OnBlock(y)
    ensures OnBlock(x + y) && OnBlock(x - y)
  {
    DivMod(x + y, 16, x / 16 + y / 16, 0);
    DivMod(x - y, 16, x / 16 - y / 16, 0);
  }

  lemma PairSum(x: int, y: int)
    requires OnPair(x) && OnPair(y)
    ensures OnPair(x + y) && OnPair(x - y)
  {
    DivMod(x + y, 2, x / 2 + y / 2, 0);
    DivMod(x - y, 2, x / 2 - y / 2, 0);
  }

  /** A length in whole blocks, in dwords of each half and in blocks. */
  lemma BlockLength(d: int)
    requires OnBlock(d) && d > 0
    ensures d / 2 * 2 == d && OnPair(d / 2) && d / 2 >= 8
    ensures d / 16 * 16 == d && d / 16 > 0
  {
    var n := d / 16;
    assert d == 16 * n;
    DivMod(d, 2, 8 * n, 0);
    DivMod(8 * n, 2, 4 * n, 0);
  }

  predicate Twin(m: seq<bv32>, q: int) {
    0 <= q && q + 1 < |m| && m[q] == m[q + 1]
  }

  /** The pairs of dwords at even positions from lo up to hi are equal. */
  ghost predicate Pairs(m: seq<bv32>, lo: int, hi: int) {
    forall q | lo <= q < hi && OnPair(q) :: Twin(m, q)
  }

  /** Rotation by an even number of places keeps pairs together. */
  lemma RotatedPairs(f: seq<bv32>, k: nat)
    requires OnPair(|f|) && OnPair(k) && Pairs(f, 0, |f|)
    ensures Pairs(Rotated(f, k), 0, |f|)
  {
    hide Rotated, OnPair, Twin;
    forall q | 0 <= q < |f| && OnPair(q) ensures Twin(Rotated(f, k), q) {
      RotatedPair(f, k, q);
    }
  }

  lemma RotatedPair(f: seq<bv32>, k: nat, q: nat)
    requires OnPair(|f|) && OnPair(k) && OnPair(q) && q < |f| && Pairs(f, 0, |f|)
    ensures Twin(Rotated(f, k), q)
  {
    hide Rotated, Pairs;
    PairSum(q, k);
    EvenMod(q - k, |f|);
    var i := (q - k) % |f|;
    PairAt(f, i);
    NextInside(q, |f|);
    RotatedAt(f, k, q);
    RotatedAt(f, k, q + 1);
    assert q + 1 - k == q - k + 1;
  }

  lemma PairAt(f: seq<bv32>, i: nat)
    requires Pairs(f, 0, |f|) && i < |f| && OnPair(i)
    ensures Twin(f, i)
  {
  }

  lemma NextInside(q: int, n: int)
    requires OnPair(q) && OnPair(n) && q < n
    ensures q + 1 < n
  {
  }

  // ---------- the moves ----------

  /** m with the region at p replaced. */
  function Replace(m: seq<bv32>, p: nat, s: seq<bv32>): (r: seq<bv32>)
    requires p + |s| <= |m|
    ensures |r| == |m|
  {
    m[..p] + s + m[p + |s|..]
  }

  lemma ReplaceAt(m: seq<bv32>, p: nat, s: seq<bv32>, n: nat)
    requires p + |s| <= |m| && n < |m|
    ensures Replace(m, p, s)[n] == if p <= n < p + |s| then s[n - p] else m[n]
  {
  }

  lemma ReplaceMore(m: seq<bv32>, p: nat, s: seq<bv32>, c: bv32)
    requires p + |s| <= |m|
    ensures Replace(m, p, []) == m
    ensures p + |s| < |m| ==> Replace(m, p, s)[p + |s| := c] == Replace(m, p, s + [c])
  {
  }

  /** Dword n may hold x after a write. */
  ghost predicate CanHold(f: Cells, n: nat, x: bv32) {
    exists v :: x == f(n, v)
  }

  /** Every dword that has changed holds what a write left in it. */
  ghost predicate ByWrites(f: Cells, m: seq<bv32>, m': seq<bv32>) {
    |m'| == |m| && forall n: nat | n < |m| :: m'[n] == m[n] || CanHold(f, n, m'[n])
  }

  /** Dwords lo..hi-1 hold what a write left in them. */
  ghost predicate AllWritten(f: Cells, m: seq<bv32>, lo: int, hi: int) {
    hi <= |m| && forall n: nat | lo <= n < hi :: CanHold(f, n, m[n])
  }

  lemma ByWritesJoin(f: Cells, m0: seq<bv32>, m1: seq<bv32>, m2: seq<bv32>)
    requires ByWrites(f, m0, m1) && ByWrites(f, m1, m2)
    ensures ByWrites(f, m0, m2)
  {
    hide CanHold;
  }

  lemma ByWritesNothing(f: Cells, m: seq<bv32>)
    ensures ByWrites(f, m, m)
  {
  }

  lemma WrittenKept(f: Cells, m: seq<bv32>, m': seq<bv32>, lo: int, hi: int)
    requires AllWritten(f, m, lo, hi) && ByWrites(f, m, m')
    ensures AllWritten(f, m', lo, hi)
  {
    hide CanHold;
  }

  lemma WrittenJoin(f: Cells, m1: seq<bv32>, m2: seq<bv32>, a: int, b: int, c: int)
    requires a <= b <= c && AllWritten(f, m1, a, b) && SameOutside(m1, m2, b, c) && AllWritten(f, m2, b, c)
    ensures AllWritten(f, m2, a, c)
  {
    hide CanHold;
  }

  /** rep movsl between regions that do not overlap. */
  method RepMovs(f: Cells, mem: array<bv32>, dst: nat, src: nat, count: nat)
    requires src + count <= mem.Length && dst + count <= mem.Length
    requires src + count <= dst || dst + count <= src
    modifies mem
    ensures SameOutside(old(mem[..]), mem[..], dst, dst + count) && ByWrites(f, old(mem[..]), mem[..])
    ensures Sound(f) ==> mem[..] == Replace(old(mem[..]), dst, old(mem[src..src + count]))
  {
    hide Replace, SameOutside, ByWrites;
    var i := 0;
    ghost var m0 := mem[..];
    NothingMoved(m0, dst, src);
    ByWritesNothing(f, m0);
    while i < count
      invariant 0 <= i <= count
      invariant SameOutside(m0, mem[..], dst, dst + i) && ByWrites(f, m0, mem[..])
      invariant Sound(f) ==> mem[..] == Replace(m0, dst, m0[src..src + i])
    {
      ghost var m := mem[..];
      mem[dst + i] := f(dst + i, mem[src + i]);
      DwordMoved(f, m0, m, mem[..], dst, src, i);
      DwordWritten(f, m, mem[..], dst + i, m[src + i]);
      ByWritesJoin(f, m0, m, mem[..]);
      i := i + 1;
    }
  }

  lemma NothingMoved(m: seq<bv32>, dst: nat, src: nat)
    requires dst <= |m| && src <= |m|
    ensures SameOutside(m, m, dst, dst + 0) && m == Replace(m, dst, m[src..src + 0])
  {
    ReplaceMore(m, dst, [], 0);
    assert m[src..src + 0] == [];
  }

  lemma DwordWritten(f: Cells, m: seq<bv32>, m': seq<bv32>, n: nat, v: bv32)
    requires n < |m| && m' == m[n := f(n, v)]
    ensures ByWrites(f, m, m')
  {
    assert CanHold(f, n, m'[n]);
  }

  lemma DwordMoved(f: Cells, m0: seq<bv32>, m: seq<bv32>, m': seq<bv32>, dst: nat, src: nat, i: nat)
    requires src + i < |m0| == |m| && dst + i < |m0| && (src + i < dst || dst + i < src)
    requires m' == m[dst + i := f(dst + i, m[src + i])]
    ensures SameOutside(m0, m, dst, dst + i) ==> SameOutside(m0, m', dst, dst + i + 1)
    ensures Sound(f) && m == Replace(m0, dst, m0[src..src + i]) ==> m' == Replace(m0, dst, m0[src..src + i + 1])
  {
    if Sound(f) && m == Replace(m0, dst, m0[src..src + i]) {
      var s := m0[src..src + i];
      hide Replace, SameOutside;
      ReplaceAt(m0, dst, s, src + i);
      ReplaceMore(m0, dst, s, m0[src + i]);
      assert m0[src..src + i + 1] == s + [m0[src + i]];
    }
  }

  /** A span: two halves of half dwords each, from dword p. */
  function Halves(m: seq<bv32>, p: nat, half: nat): (seq<bv32>, seq<bv32>)
    requires p + 2 * half <= |m|
  {
    (m[p..p + half], m[p + half..p + 2 * half])
  }

  /** One round: the first half is copied over the second, and back 8 dwords further on, the last 8
      going to the front. */
  method MoveRound(f: Cells, mem: array<bv32>, p: nat, half: nat)
    requires p + 2 * half <= mem.Length && half >= 8
    modifies mem
    ensures SameOutside(old(mem[..]), mem[..], p, p + 2 * half) && ByWrites(f, old(mem[..]), mem[..])
    ensures Sound(f) ==> var s := old(mem[p..p + half]);
              Halves(mem[..], p, half) == (s[half - 8..] + s[..half - 8], s)
  {
    hide Replace, SameOutside, Sound, ByWrites;
    ghost var m0 := mem[..];
    RepMovs(f, mem, p + half, p, half);
    ghost var m1 := mem[..];
    RepMovs(f, mem, p + 8, p + half, half - 8);
    ghost var m2 := mem[..];
    RepMovs(f, mem, p, p + 2 * half - 8, 8);
    OutsideWiden(m0, m1, p + half, p + half + half, p, p + 2 * half);
    OutsideMore(m0, m1, m2, p, p + 2 * half, p + 8, p + 8 + (half - 8));
    OutsideMore(m0, m2, mem[..], p, p + 2 * half, p, p + 8);
    ByWritesJoin(f, m0, m1, m2);
    ByWritesJoin(f, m0, m2, mem[..]);
    if Sound(f) {
      RoundResult(m0, m1, m2, mem[..], p, half);
    }
  }

  lemma OutsideWiden(m: seq<bv32>, m': seq<bv32>, lo: int, hi: int, a: int, b: int)
    requires a <= lo && hi <= b && SameOutside(m, m', lo, hi)
    ensures SameOutside(m, m', a, b)
  {
  }

  lemma OutsideMore(m0: seq<bv32>, m1: seq<bv32>, m2: seq<bv32>, a: int, b: int, lo: int, hi: int)
    requires a <= lo && hi <= b && SameOutside(m0, m1, a, b) && SameOutside(m1, m2, lo, hi)
    ensures SameOutside(m0, m2, a, b)
  {
  }

  /** Where the dword at n comes from in one round. */
  function RoundSource(p: nat, half: nat, n: nat): int {
    if n < p || n >= p + 2 * half then n
    else if n >= p + half then n - half
    else if n >= p + 8 then n - 8
    else n + half - 8
  }

  lemma RoundAt(m0: seq<bv32>, m1: seq<bv32>, m2: seq<bv32>, m3: seq<bv32>, p: nat, half: nat, n: nat)
    requires p + 2 * half <= |m0| && half >= 8 && n < |m0|
    requires m1 == Replace(m0, p + half, m0[p..p + half])
    requires m2 == Replace(m1, p + 8, m1[p + half..p + 2 * half - 8])
    requires m3 == Replace(m2, p, m2[p + 2 * half - 8..p + 2 * half])
    ensures 0 <= RoundSource(p, half, n) < |m0| && m3[n] == m0[RoundSource(p, half, n)]
  {
    hide Replace;
    var s1, s2, s3 := m0[p..p + half], m1[p + half..p + 2 * half - 8], m2[p + 2 * half - 8..p + 2 * half];
    assert |s1| == half && |s2| == half - 8 && |s3| == 8;
    ReplaceAt(m0, p + half, s1, n);
    ReplaceAt(m1, p + 8, s2, n);
    ReplaceAt(m2, p, s3, n);
    if p + 8 <= n < p + half {
      ReplaceAt(m0, p + half, s1, n + half - 8);
    } else if p <= n < p + 8 {
      ReplaceAt(m1, p + 8, s2, n + 2 * half - 8);
      ReplaceAt(m0, p + half, s1, n + 2 * half - 8);
    }
  }

  lemma RoundResult(m0: seq<bv32>, m1: seq<bv32>, m2: seq<bv32>, m3: seq<bv32>, p: nat, half: nat)
    requires p + 2 * half <= |m0| && half >= 8
    requires m1 == Replace(m0, p + half, m0[p..p + half])
    requires m2 == Replace(m1, p + 8, m1[p + half..p + 2 * half - 8])
    requires m3 == Replace(m2, p, m2[p + 2 * half - 8..p + 2 * half])
    ensures SameOutside(m0, m3, p, p + 2 * half)
    ensures var f := m0[p..p + half];
            Halves(m3, p, half) == (f[half - 8..] + f[..half - 8], f)
  {
    hide Replace, RoundSource;
    forall n | 0 <= n < |m0|
      ensures 0 <= RoundSource(p, half, n) < |m0| && m3[n] == m0[RoundSource(p, half, n)]
    {
      RoundAt(m0, m1, m2, m3, p, half, n);
    }
    RoundHalves(m0, m3, p, half);
  }

  lemma RoundHalves(m0: seq<bv32>, m3: seq<bv32>, p: nat, half: nat)
    requires p + 2 * half <= |m0| == |m3| && half >= 8
    requires forall n | 0 <= n < |m0| ::
               0 <= RoundSource(p, half, n) < |m0| && m3[n] == m0[RoundSource(p, half, n)]
    ensures SameOutside(m0, m3, p, p + 2 * half)
    ensures var f := m0[p..p + half];
            Halves(m3, p, half) == (f[half - 8..] + f[..half - 8], f)
  {
    var f := m0[p..p + half];
    var a, b := m3[p..p + half], m3[p + half..p + 2 * half];
    var rotated := f[half - 8..] + f[..half - 8];
    forall i | 0 <= i < half ensures a[i] == rotated[i] && b[i] == f[i] {
      assert a[i] == m3[p + i] && b[i] == m3[p + half + i];
      assert RoundSource(p, half, p + half + i) == p + i;
    }
    assert a == rotated && b == f;
  }

  /** What a number of rounds does to a span, in closed form. */
  ghost predicate SpanMoved(m0: seq<bv32>, m: seq<bv32>, p: nat, half: nat, rounds: nat)
    requires p + 2 * half <= |m0| == |m|
  {
    var f := m0[p..p + half];
    Halves(m, p, half)
    == if rounds == 0 then Halves(m0, p, half) else (Rotated(f, 8 * rounds), Rotated(f, 8 * (rounds - 1)))
  }

  lemma OneMoreRound(m0: seq<bv32>, m1: seq<bv32>, m2: seq<bv32>, p: nat, half: nat, rounds: nat)
    requires p + 2 * half <= |m0| == |m1| == |m2| && half >= 8
    requires SpanMoved(m0, m1, p, half, rounds)
    requires var f := m1[p..p + half]; Halves(m2, p, half) == (f[half - 8..] + f[..half - 8], f)
    ensures SpanMoved(m0, m2, p, half, rounds + 1)
  {
    var f := m0[p..p + half];
    RotatedZero(f);
    RotateMore(f, 8 * rounds);
  }

  /** All the rounds on one span. */
  method MoveSpan(f: Cells, mem: array<bv32>, p: nat, half: nat, iter: nat)
    requires p + 2 * half <= mem.Length && half >= 8
    modifies mem
    ensures SameOutside(old(mem[..]), mem[..], p, p + 2 * half) && ByWrites(f, old(mem[..]), mem[..])
    ensures Sound(f) ==> SpanMoved(old(mem[..]), mem[..], p, half, iter)
  {
    hide SameOutside, Sound, ByWrites;
    ghost var m0 := mem[..];
    NothingDone(m0, p);
    ByWritesNothing(f, m0);
    OutsideWiden(m0, m0, p, p, p, p + 2 * half);
    var i := 0;
    while i < iter
      invariant 0 <= i <= iter
      invariant SameOutside(m0, mem[..], p, p + 2 * half) && ByWrites(f, m0, mem[..])
      invariant Sound(f) ==> SpanMoved(m0, mem[..], p, half, i)
    {
      ghost var m1 := mem[..];
      MoveRound(f, mem, p, half);
      OutsideMore(m0, m1, mem[..], p, p + 2 * half, p, p + 2 * half);
      ByWritesJoin(f, m0, m1, mem[..]);
      if Sound(f) {
        OneMoreRound(m0, m1, mem[..], p, half, i);
      }
      i := i + 1;
    }
  }

  lemma PairsOfSlice(m: seq<bv32>, a: nat, b: nat)
    requires a <= b <= |m| && OnPair(a) && OnPair(b)
    ensures Pairs(m, a, b) <==> Pairs(m[a..b], 0, b - a)
  {
    hide OnPair;
    PairSum(b, a);
    var s := m[a..b];
    if Pairs(m, a, b) {
      forall q | 0 <= q < b - a && OnPair(q) ensures Twin(s, q) {
        PairSum(a, q);
        PairSum(a + q, a);
        NextInside(a + q, b);
        assert Twin(m, a + q);
      }
    }
    if Pairs(s, 0, b - a) {
      forall q | a <= q < b && OnPair(q) ensures Twin(m, q) {
        PairSum(q, a);
        NextInside(q, b);
        assert Twin(s, q - a);
      }
    }
  }

  lemma PairsJoin(m: seq<bv32>, a: int, b: int, c: int)
    requires a <= b <= c && Pairs(m, a, b) && Pairs(m, b, c)
    ensures Pairs(m, a, c)
  {
  }

  lemma PairsSame(m: seq<bv32>, m': seq<bv32>, a: nat, b: nat, lo: int, hi: int)
    requires SameOutside(m, m', lo, hi) && (b <= lo || hi <= a) && OnPair(b) && OnPair(lo) && OnPair(hi)
    requires Pairs(m, a, b)
    ensures Pairs(m', a, b)
  {
    hide OnPair;
    forall q | a <= q < b && OnPair(q) ensures Twin(m', q) {
      assert Twin(m, q);
      NextInside(q, b);
      if q < lo {
        NextInside(q, lo);
      }
    }
  }

  lemma PairsOfHalves(m: seq<bv32>, p: nat, half: nat)
    requires p + 2 * half <= |m| && OnPair(p) && OnPair(half)
    ensures var (a, b) := Halves(m, p, half);
            Pairs(m, p, p + 2 * half) <==> Pairs(a, 0, half) && Pairs(b, 0, half)
  {
    hide OnPair, Pairs;
    PairSum(p, half);
    PairSum(p + half, half);
    PairsOfSlice(m, p, p + half);
    PairsOfSlice(m, p + half, p + 2 * half);
    PairsSplit(m, p, p + half, p + 2 * half);
  }

  lemma PairsSplit(m: seq<bv32>, a: int, b: int, c: int)
    requires a <= b <= c
    ensures Pairs(m, a, c) <==> Pairs(m, a, b) && Pairs(m, b, c)
  {
  }

  /** Moving a span keeps its pairs equal. */
  lemma MovedPairs(m0: seq<bv32>, m: seq<bv32>, p: nat, half: nat, rounds: nat)
    requires p + 2 * half <= |m0| == |m| && OnPair(p) && OnPair(half)
    requires SpanMoved(m0, m, p, half, rounds) && Pairs(m0, p, p + 2 * half)
    ensures Pairs(m, p, p + 2 * half)
  {
    hide Rotated, Pairs, OnPair;
    PairsOfHalves(m0, p, half);
    PairsOfHalves(m, p, half);
    if rounds > 0 {
      EightsArePairs(rounds);
      EightsArePairs(rounds - 1);
      RotatedPairs(m0[p..p + half], 8 * rounds);
      RotatedPairs(m0[p..p + half], 8 * (rounds - 1));
    }
  }

  lemma EightsArePairs(n: nat)
    ensures OnPair(8 * n)
  {
    DivMod(8 * n, 2, 4 * n, 0);
  }

  // ---------- ranges ----------

  /** Ranges of whole 64-byte blocks. */
  predicate BlocksOk(r: Range, size: nat) {
    r.lo <= r.hi < size <= SPACE && OnBlock(r.lo) && OnBlock(r.hi + 1)
  }

  /** The dword after the span that starts at p: the new pe, or the one after it at the end. */
  function SpanEnd(p: nat, r: Range): nat {
    var pe := NextUp(p, r.hi);
    if OnBlock(pe) then pe else pe + 1
  }

  /** Where the next span starts: one SPINSZ further, or past the range when that is the last one (or starts
      at address 0). */
  function NextCut(p: nat, r: Range): nat {
    if p == 0 || p + SPINSZ >= r.hi then r.hi + 1 else p + SPINSZ
  }

  /** The spans of a range, as the dwords where they start, with the end of the range last. */
  ghost predicate AreCuts(cuts: seq<nat>, r: Range) {
    && |cuts| > 0 && cuts[0] == r.lo
    && forall k | 0 < k < |cuts| :: cuts[k - 1] < cuts[k] <= r.hi + 1 && cuts[k] == NextCut(cuts[k - 1], r)
  }

  lemma {:induction false} CutsUnique(c: seq<nat>, d: seq<nat>, r: Range, k: nat)
    requires AreCuts(c, r) && AreCuts(d, r) && k < |c| && k < |d|
    ensures c[..k + 1] == d[..k + 1]
  {
    if k > 0 {
      CutsUnique(c, d, r, k - 1);
      assert c[k - 1] == c[..k][k - 1] == d[k - 1];
    }
  }

  /** The spans of a range are determined. */
  lemma CutsAre(c: seq<nat>, d: seq<nat>, r: Range)
    requires AreCuts(c, r) && AreCuts(d, r) && c[|c| - 1] == d[|d| - 1] == r.hi + 1
    ensures c == d
  {
    var k := if |c| < |d| then |c| - 1 else |d| - 1;
    CutsUnique(c, d, r, k);
    assert c[k] == c[..k + 1][k] == d[k];
    if |c| < |d| {
      CutBefore(d, r, k);
    } else if |d| < |c| {
      CutBefore(c, r, k);
    } else {
      assert c[..k + 1] == c && d[..k + 1] == d;
    }
  }

  lemma CutBefore(c: seq<nat>, r: Range, k: nat)
    requires AreCuts(c, r) && k + 1 < |c|
    ensures c[k] <= r.hi
  {
    assert c[k + 1 - 1] < c[k + 1];
  }

  lemma SpanEndMoves(p: nat, r: Range, size: nat)
    requires BlocksOk(r, size) && r.lo <= p <= r.hi && OnBlock(p)
    ensures var pe := NextUp(p, r.hi);
            && p < SpanEnd(p, r) <= r.hi + 1 && OnBlock(SpanEnd(p, r)) && OnBlock(SpanEnd(p, r) - p)
            && p != pe && SpanEnd(p, r) == (if OnBlock(pe) then pe else pe + 1)
            && (pe >= r.hi ==> SpanEnd(p, r) == r.hi + 1)
            && (pe < r.hi ==> SpanEnd(p, r) == pe)
            && SpanEnd(p, r) == NextCut(p, r)
  {
    hide OnBlock;
    LastNotBlock(r.hi);
    SpinIsBlocks();
    BlockSum(p, SPINSZ);
    BlockSum(r.hi + 1, p);
    NextUpIs(p, r.hi);
  }

  lemma SpinIsBlocks()
    ensures OnBlock(SPINSZ)
  {
  }

  lemma LastNotBlock(x: int)
    requires OnBlock(x + 1)
    ensures !OnBlock(x) && !OnPair(x)
  {
    BlockIsPair(x + 1);
  }

  /** The 16 dwords of a block: eax and its complement, in pairs. */
  function BlockPattern(e: bv32): seq<bv32> {
    [e, e, e, e, !e, !e, e, e, e, e, !e, !e, e, e, !e, !e]
  }

  lemma BlockPatternPairs(e: bv32)
    ensures Pairs(BlockPattern(e), 0, 16)
  {
  }

  /** rcll $1: rotate left through the carry. */
  function RotateCarry(e: bv32, carry: bool): (bv32, bool) {
    ((e << 1) | (if carry then 1 else 0), e & 0x80000000 != 0)
  }

  /** Fills one block. */
  method FillBlock(f: Cells, mem: array<bv32>, p: nat, e: bv32)
    requires p + 16 <= mem.Length && OnPair(p)
    modifies mem
    ensures SameOutside(old(mem[..]), mem[..], p, p + 16) && AllWritten(f, mem[..], p, p + 16)
    ensures Sound(f) ==> mem[p..p + 16] == BlockPattern(e)
    ensures Sound(f) ==> Pairs(mem[..], p, p + 16)
  {
    var pattern := BlockPattern(e);
    forall i | 0 <= i < 16 {
      mem[p + i] := f(p + i, pattern[i]);
    }
    forall n: nat | p <= n < p + 16 ensures CanHold(f, n, mem[..][n]) {
      assert mem[p + (n - p)] == f(n, pattern[n - p]);
    }
    if Sound(f) {
      BlockPatternPairs(e);
      assert mem[..][p..p + 16] == pattern;
      PairsOfSlice(mem[..], p, p + 16);
    }
  }

  /** eax and the carry flag after k blocks. */
  function Rolled(carry: bool, k: nat): (bv32, bool) {
    if k == 0 then (1, carry) else var (e, c) := Rolled(carry, k - 1); RotateCarry(e, c)
  }

  /** The first n blocks from dword p have been filled. */
  ghost predicate BlocksFilled(m: seq<bv32>, p: nat, n: nat, carry: bool) {
    p + 16 * n <= |m| && forall k: nat :: k < n ==> BlockFilled(m, p, k, carry)
  }

  ghost predicate BlockFilled(m: seq<bv32>, p: nat, k: nat, carry: bool) {
    p + 16 * k + 16 <= |m| && m[p + 16 * k..p + 16 * k + 16] == BlockPattern(Rolled(carry, k).0)
  }

  lemma BlockKept(m: seq<bv32>, m': seq<bv32>, p: nat, k: nat, n: nat, carry: bool)
    requires k < n && BlockFilled(m, p, k, carry) && SameOutside(m, m', p + 16 * n, p + 16 * n + 16)
    ensures BlockFilled(m', p, k, carry)
  {
    hide BlockPattern, Rolled;
    assert m'[p + 16 * k..p + 16 * k + 16] == m[p + 16 * k..p + 16 * k + 16];
  }

  lemma BlocksFrom(p: nat, k: nat)
    requires OnPair(p)
    ensures OnPair(p + 16 * k)
  {
    DivMod(p + 16 * k, 2, p / 2 + 8 * k, 0);
  }

  lemma FilledNow(m: seq<bv32>, p: nat, k: nat, carry: bool, e: bv32)
    requires p + 16 * k + 16 <= |m| && m[p + 16 * k..p + 16 * k + 16] == BlockPattern(e) && e == Rolled(carry, k).0
    ensures BlockFilled(m, p, k, carry)
  {
  }

  /** Fills len blocks from dword p; eax rotates through the carry from block to block. */
  method FillBlocks(f: Cells, mem: array<bv32>, p: nat, len: nat, carry0: bool)
    requires len > 0 && p + 16 * len <= mem.Length && OnPair(p)
    modifies mem
    ensures SameOutside(old(mem[..]), mem[..], p, p + 16 * len) && AllWritten(f, mem[..], p, p + 16 * len)
    ensures Sound(f) ==> BlocksFilled(mem[..], p, len, carry0) && Pairs(mem[..], p, p + 16 * len)
  {
    hide Pairs, SameOutside, OnPair, BlockPattern, RotateCarry, BlockFilled, Sound;
    hide AllWritten;
    ghost var m0 := mem[..];
    NothingDone(m0, p);
    NothingWritten(f, m0, p);
    var e: bv32, carry, k := 1, carry0, 0;
    while k < len
      invariant 0 <= k <= len
      invariant SameOutside(m0, mem[..], p, p + 16 * k) && AllWritten(f, mem[..], p, p + 16 * k)
      invariant (e, carry) == Rolled(carry0, k)
      invariant Sound(f) ==> BlocksFilled(mem[..], p, k, carry0) && Pairs(mem[..], p, p + 16 * k)
    {
      ghost var m1 := mem[..];
      BlocksFrom(p, k);
      FillBlock(f, mem, p + 16 * k, e);
      OutsideJoin(m0, m1, mem[..], p, p + 16 * k, p + 16 * k + 16);
      WrittenJoin(f, m1, mem[..], p, p + 16 * k, p + 16 * k + 16);
      if Sound(f) {
        OneMoreBlock(m1, mem[..], p, k, carry0, e);
      }
      var rotated := RotateCarry(e, carry);
      e, carry := rotated.0, rotated.1;
      k := k + 1;
    }
  }

  lemma NothingWritten(f: Cells, m: seq<bv32>, p: nat)
    requires p <= |m|
    ensures AllWritten(f, m, p, p)
  {
  }

  lemma OneMoreBlock(m1: seq<bv32>, m2: seq<bv32>, p: nat, k: nat, carry: bool, e: bv32)
    requires OnPair(p) && BlocksFilled(m1, p, k, carry) && Pairs(m1, p, p + 16 * k) && e == Rolled(carry, k).0
    requires p + 16 * k + 16 <= |m2| && SameOutside(m1, m2, p + 16 * k, p + 16 * k + 16)
    requires m2[p + 16 * k..p + 16 * k + 16] == BlockPattern(e) && Pairs(m2, p + 16 * k, p + 16 * k + 16)
    ensures BlocksFilled(m2, p, k + 1, carry) && Pairs(m2, p, p + 16 * (k + 1))
  {
    hide Pairs, SameOutside, OnPair, BlockPattern, RotateCarry, BlockFilled;
    BlocksFrom(p, k);
    BlocksFrom(p, k + 1);
    PairsSame(m1, m2, p, p + 16 * k, p + 16 * k, p + 16 * k + 16);
    PairsJoin(m2, p, p + 16 * k, p + 16 * k + 16);
    forall i: nat | i < k ensures BlockFilled(m2, p, i, carry) {
      BlockKept(m1, m2, p, i, k, carry);
    }
    FilledNow(m2, p, k, carry, e);
  }

  lemma OutsideJoin(m0: seq<bv32>, m1: seq<bv32>, m2: seq<bv32>, a: int, b: int, c: int)
    requires a <= b <= c && SameOutside(m0, m1, a, b) && SameOutside(m1, m2, b, c)
    ensures SameOutside(m0, m2, a, c)
  {
  }

  /** The block at dword p, in dwords: eax and edx, its complement. */
  ghost predicate BlockHolds(m: seq<bv32>, p: int, eax: bv32, edx: bv32) {
    && 0 <= p && p + 16 <= |m|
    && m[p] == eax && m[p + 1] == eax && m[p + 2] == eax && m[p + 3] == eax
    && m[p + 4] == edx && m[p + 5] == edx && m[p + 6] == eax && m[p + 7] == eax
    && m[p + 8] == eax && m[p + 9] == eax && m[p + 10] == edx && m[p + 11] == edx
    && m[p + 12] == eax && m[p + 13] == eax && m[p + 14] == edx && m[p + 15] == edx
  }

  /** The blocks of a span from a to b have been filled: the word of the first is 1, and of block k the single
      bit k of a ring of 33, with the carry bit the span started with, if it was set, one place behind. */
  ghost predicate SpanFilled(m: seq<bv32>, a: nat, b: nat, carry: bool) {
    forall k: nat :: a + 16 * k < b ==> var e := Ring(k, carry); BlockHolds(m, a + 16 * k, e, !e)
  }

  ghost predicate CutFilled(m: seq<bv32>, a: nat, b: nat) {
    exists carry :: SpanFilled(m, a, b, carry)
  }

  ghost predicate CutsFilled(m: seq<bv32>, cuts: seq<nat>) {
    forall k | 0 < k < |cuts| :: CutFilled(m, cuts[k - 1], cuts[k])
  }

  /** Position k of the ring is the carry flag. */
  predicate OnFlag(k: nat) {
    k % 33 == 32
  }

  /** Bit k of the ring, as far as it is in the word. */
  function RingBit(k: nat): bv32 {
    if OnFlag(k) then 0 else Bit(k % 33)
  }

  function Both(a: bv32, b: bv32): bv32 {
    a | b
  }

  function Ring(k: nat, carry: bool): bv32 {
    if carry then Both(RingBit(k), RingBit(k + 32)) else RingBit(k)
  }

  predicate RingFlag(k: nat, carry: bool) {
    OnFlag(k) || (carry && OnFlag(k + 32))
  }

  /** Rotating through the carry is a step around the ring. */
  lemma {:induction false} RolledIsRing(carry: bool, k: nat)
    ensures Rolled(carry, k) == (Ring(k, carry), RingFlag(k, carry))
  {
    hide Ring, RingFlag, RotateCarry;
    if k == 0 {
      RingStart(carry);
    } else {
      RolledIsRing(carry, k - 1);
      RingRotates(k - 1, carry);
    }
  }

  lemma RingStart(carry: bool)
    ensures Ring(0, carry) == 1 && RingFlag(0, carry) == carry
  {
    assert Bit(0) == 1;
  }

  lemma RingRotates(k: nat, carry: bool)
    ensures RotateCarry(Ring(k, carry), RingFlag(k, carry)) == (Ring(k + 1, carry), RingFlag(k + 1, carry))
  {
    RingStep(k);
    RingStep(k + 32);
    hide RotateCarry, RingBit, OnFlag, Both;
    assert k + 32 + 1 == k + 1 + 32;
    if carry {
      Combine(RingBit(k), OnFlag(k), RingBit(k + 1), OnFlag(k + 1),
              RingBit(k + 32), OnFlag(k + 32), RingBit(k + 1 + 32), OnFlag(k + 1 + 32));
    }
  }

  lemma Combine(a: bv32, c: bool, a': bv32, c': bool, b: bv32, d: bool, b': bv32, d': bool)
    requires RotateCarry(a, c) == (a', c') && RotateCarry(b, d) == (b', d')
    ensures RotateCarry(Both(a, b), c || d) == (Both(a', b'), c' || d')
  {
    hide RotateCarry, Both;
    RotateOr(a, b, c, d);
  }

  lemma RingStep(k: nat)
    ensures RotateCarry(RingBit(k), OnFlag(k)) == (RingBit(k + 1), OnFlag(k + 1))
  {
    var i := k % 33;
    RingNext(k);
    hide Bit, RotateCarry;
    if i < 31 {
      RotateBit(i);
    } else if i == 31 {
      RotateTop();
    } else {
      RotateIn();
    }
  }

  lemma RingNext(k: nat)
    ensures (k + 1) % 33 == if k % 33 == 32 then 0 else k % 33 + 1
  {
  }

  lemma RotateBit(i: nat)
    requires i < 31
    ensures RotateCarry(Bit(i), false) == (Bit(i + 1), false)
  {
    BitDoubles(i + 1);
    hide Bit;
    OrZero(Bit(i) << 1);
  }

  lemma OrZero(x: bv32)
    ensures x | 0 == x
  {
  }

  lemma RotateTop()
    ensures RotateCarry(Bit(31), false) == (0, true)
  {
    assert Bit(31) == 0x80000000;
    assert (0x80000000 as bv32 << 1) == 0;
  }

  lemma RotateIn()
    ensures RotateCarry(0, true) == (Bit(0), false)
  {
    assert Bit(0) == 1;
  }

  lemma OrShift(a: bv32, b: bv32)
    ensures (a | b) << 1 == (a << 1) | (b << 1)
  {
  }

  lemma OrTop(a: bv32, b: bv32)
    ensures (a | b) & 0x80000000 != 0 <==> a & 0x80000000 != 0 || b & 0x80000000 != 0
  {
  }

  lemma OrBits(x: bv32, y: bv32, c: bv32, d: bv32)
    ensures (x | y) | (c | d) == (x | c) | (y | d)
  {
  }

  lemma RotateOrBits(a: bv32, b: bv32, c: bool, d: bool)
    ensures RotateCarry(a | b, c || d).0 == RotateCarry(a, c).0 | RotateCarry(b, d).0
    ensures RotateCarry(a | b, c || d).1 == (RotateCarry(a, c).1 || RotateCarry(b, d).1)
  {
    OrShift(a, b);
    OrTop(a, b);
    var x: bv32, y: bv32 := if c then 1 else 0, if d then 1 else 0;
    assert x | y == if c || d then 1 else 0;
    OrBits(a << 1, b << 1, x, y);
  }

  lemma BothIs(a: bv32, b: bv32)
    ensures Both(a, b) == a | b
  {
  }

  lemma RotateOr(a: bv32, b: bv32, c: bool, d: bool)
    ensures RotateCarry(Both(a, b), c || d).0 == Both(RotateCarry(a, c).0, RotateCarry(b, d).0)
    ensures RotateCarry(Both(a, b), c || d).1 == (RotateCarry(a, c).1 || RotateCarry(b, d).1)
  {
    hide *;
    RotateOrBits(a, b, c, d);
    BothIs(a, b);
    BothIs(RotateCarry(a, c).0, RotateCarry(b, d).0);
  }

  /** A filled block, dword by dword. */
  lemma PatternHolds(m: seq<bv32>, p: nat, e: bv32)
    requires p + 16 <= |m| && m[p..p + 16] == BlockPattern(e)
    ensures BlockHolds(m, p, e, !e)
  {
    var s := m[p..p + 16];
    assert forall i | 0 <= i < 16 :: m[p + i] == s[i];
  }

  lemma BlocksAreSpan(m: seq<bv32>, p: nat, len: nat, carry: bool)
    requires BlocksFilled(m, p, len, carry)
    ensures SpanFilled(m, p, p + 16 * len, carry)
  {
    hide BlockPattern, Rolled, Ring, BlockHolds;
    forall k: nat | p + 16 * k < p + 16 * len ensures var e := Ring(k, carry); BlockHolds(m, p + 16 * k, e, !e) {
      assert BlockFilled(m, p, k, carry);
      RolledIsRing(carry, k);
      PatternHolds(m, p + 16 * k, Ring(k, carry));
    }
  }

  /** A filled span is not changed by what happens elsewhere. */
  lemma FilledKept(m: seq<bv32>, m': seq<bv32>, a: nat, b: nat, lo: int, hi: int)
    requires CutFilled(m, a, b) && OnBlock(b - a) && (b <= lo || hi <= a) && SameOutside(m, m', lo, hi)
    ensures CutFilled(m', a, b)
  {
    hide Ring;
    var carry :| SpanFilled(m, a, b, carry);
    forall k: nat | a + 16 * k < b ensures var e := Ring(k, carry); BlockHolds(m', a + 16 * k, e, !e) {
      BlockInside(a, b, k);
      var e := Ring(k, carry);
      assert BlockHolds(m, a + 16 * k, e, !e);
    }
    assert SpanFilled(m', a, b, carry);
  }

  lemma BlockInside(a: nat, b: nat, k: nat)
    requires OnBlock(b - a) && a + 16 * k < b
    ensures a + 16 * k + 16 <= b
  {
    var n := (b - a) / 16;
    assert b - a == 16 * n;
  }

  ghost predicate CutsOnBlocks(cuts: seq<nat>) {
    forall k | 0 < k < |cuts| :: cuts[k - 1] < cuts[k] && OnBlock(cuts[k] - cuts[k - 1])
  }

  /** The fill of one range, span by span. The carry flag a span starts with is whatever the compiled
      code left there. */
  method FillRange(f: Cells, mem: array<bv32>, r: Range) returns (ghost cuts: seq<nat>)
    requires BlocksOk(r, mem.Length)
    modifies mem
    ensures SameOutside(old(mem[..]), mem[..], r.lo, r.hi + 1) && AllWritten(f, mem[..], r.lo, r.hi + 1)
    ensures Sound(f) ==> Pairs(mem[..], r.lo, r.hi + 1)
    ensures Sound(f) ==>
              AreCuts(cuts, r) && cuts[|cuts| - 1] == r.hi + 1 && CutsOnBlocks(cuts) && CutsFilled(mem[..], cuts)
  {
    hide Pairs, SameOutside, NextUp, SpanEnd, NextCut, OnBlock, OnPair, FilledTo, BlocksFilled, Sound;
    hide AllWritten;
    ghost var m0 := mem[..];
    var p, pe, done := r.lo, r.lo, false;
    cuts := [r.lo];
    NothingDone(m0, r.lo);
    NothingFilled(m0, r);
    NothingWritten(f, m0, r.lo);
    while !done
      invariant r.lo <= p <= r.hi + 1 && OnBlock(p)
      invariant if done then p == r.hi + 1 else p == pe <= r.hi
      invariant SameOutside(m0, mem[..], r.lo, p) && AllWritten(f, mem[..], r.lo, p)
      invariant Sound(f) ==> Pairs(mem[..], r.lo, p) && FilledTo(mem[..], cuts, r, p)
      decreases r.hi + 1 - p
    {
      SpanEndMoves(p, r, mem.Length);
      BlockLength(SpanEnd(p, r) - p);
      BlockIsPair(p);
      BlockIsPair(SpanEnd(p, r));
      pe := NextUp(pe, r.hi);
      if pe >= r.hi {
        done := true;
      }
      if p == pe {
        break;
      }
      var len := if OnBlock(pe) then (pe - p) / 16 else (pe + 1 - p) / 16;
      ghost var m1 := mem[..];
      var carry: bool := *;
      FillBlocks(f, mem, p, len, carry);
      assert p + 16 * len == SpanEnd(p, r);
      OutsideJoin(m0, m1, mem[..], r.lo, p, p + 16 * len);
      WrittenJoin(f, m1, mem[..], r.lo, p, p + 16 * len);
      if Sound(f) {
        PairsSame(m1, mem[..], r.lo, p, p, p + 16 * len);
        PairsJoin(mem[..], r.lo, p, p + 16 * len);
        FilledFurther(m1, mem[..], cuts, r, p, p + 16 * len, carry, len);
      }
      cuts := cuts + [p + 16 * len];
      p := p + 16 * len;
    }
    if Sound(f) {
      FilledWhole(mem[..], cuts, r);
    }
  }

  /** The spans up to the cut at p have been filled. */
  ghost predicate FilledTo(m: seq<bv32>, cuts: seq<nat>, r: Range, p: nat) {
    AreCuts(cuts, r) && cuts[|cuts| - 1] == p && CutsOnBlocks(cuts) && CutsFilled(m, cuts)
  }

  lemma NothingFilled(m: seq<bv32>, r: Range)
    ensures FilledTo(m, [r.lo], r, r.lo)
  {
  }

  lemma FilledFurther(m1: seq<bv32>, m2: seq<bv32>, cuts: seq<nat>, r: Range, p: nat, q: nat, carry: bool, len: nat)
    requires FilledTo(m1, cuts, r, p) && p < q <= r.hi + 1 && q == p + 16 * len && q == NextCut(p, r) && OnBlock(q - p)
    requires SameOutside(m1, m2, p, q) && BlocksFilled(m2, p, len, carry)
    ensures FilledTo(m2, cuts + [q], r, q)
  {
    hide SameOutside, OnBlock, BlocksFilled, CutFilled, NextCut;
    FilledSnoc(m1, m2, cuts, p, q, carry, len);
  }

  lemma FilledWhole(m: seq<bv32>, cuts: seq<nat>, r: Range)
    requires FilledTo(m, cuts, r, r.hi + 1)
    ensures AreCuts(cuts, r) && cuts[|cuts| - 1] == r.hi + 1 && CutsOnBlocks(cuts) && CutsFilled(m, cuts)
  {
  }

  lemma FilledSnoc(m1: seq<bv32>, m2: seq<bv32>, cuts: seq<nat>, p: nat, q: nat, carry: bool, len: nat)
    requires cuts != [] && cuts[|cuts| - 1] == p < q && q == p + 16 * len && CutsOnBlocks(cuts) && OnBlock(q - p)
    requires CutsFilled(m1, cuts) && SameOutside(m1, m2, p, q) && BlocksFilled(m2, p, len, carry)
    ensures CutsFilled(m2, cuts + [q]) && CutsOnBlocks(cuts + [q])
  {
    hide CutFilled, SameOutside, OnBlock, BlocksFilled;
    var cuts' := cuts + [q];
    assert CutFilled(m2, p, q) by { SpanIsCut(m2, p, q, carry, len); }
    forall k | 0 < k < |cuts'| ensures CutFilled(m2, cuts'[k - 1], cuts'[k]) {
      if k < |cuts| {
        CutsRise(cuts, k);
        FilledKept(m1, m2, cuts[k - 1], cuts[k], p, q);
      }
    }
  }

  lemma SpanIsCut(m: seq<bv32>, p: nat, q: nat, carry: bool, len: nat)
    requires q == p + 16 * len && BlocksFilled(m, p, len, carry)
    ensures CutFilled(m, p, q)
  {
    hide SpanFilled, BlocksFilled;
    BlocksAreSpan(m, p, len, carry);
  }

  lemma {:induction false} CutsRise(cuts: seq<nat>, k: nat)
    requires CutsOnBlocks(cuts) && k < |cuts|
    ensures cuts[k] <= cuts[|cuts| - 1]
    ensures cuts[0] <= cuts[k]
    decreases |cuts| - k
  {
    if k < |cuts| - 1 {
      assert cuts[k + 1 - 1] < cuts[k + 1];
      CutsRise(cuts, k + 1);
    }
    CutsStart(cuts, k);
  }

  lemma {:induction false} CutsStart(cuts: seq<nat>, k: nat)
    requires CutsOnBlocks(cuts) && k < |cuts|
    ensures cuts[0] <= cuts[k]
  {
    if k > 0 {
      CutsStart(cuts, k - 1);
      assert cuts[k - 1] < cuts[k];
    }
  }

  lemma NothingDone(m: seq<bv32>, lo: nat)
    ensures SameOutside(m, m, lo, lo) && Pairs(m, lo, lo)
  {
  }

  /** Every span up to the last cut has been through all its rounds. */
  ghost predicate CutsMoved(m0: seq<bv32>, m: seq<bv32>, cuts: seq<nat>, rounds: nat) {
    && |m| == |m0|
    && forall k | 0 < k < |cuts| :: CutMoved(m0, m, cuts[k - 1], cuts[k], rounds)
  }

  /** A whole number of blocks from a to b has been moved. */
  ghost predicate CutMoved(m0: seq<bv32>, m: seq<bv32>, a: nat, b: nat, rounds: nat) {
    && |m| == |m0| && a < b <= |m0| && OnBlock(b - a)
    && SpanMoved(m0, m, a, (b - a) / 2, rounds)
  }

  lemma CutUndisturbed(m0: seq<bv32>, m1: seq<bv32>, m2: seq<bv32>, a: nat, b: nat, rounds: nat, lo: int, hi: int)
    requires b <= lo || hi <= a
    requires CutMoved(m0, m1, a, b, rounds) && SameOutside(m1, m2, lo, hi)
    ensures CutMoved(m0, m2, a, b, rounds)
  {
    hide SpanMoved, SameOutside, OnBlock;
    BlockLength(b - a);
    SameLength(m1, m2, lo, hi);
    SpanUndisturbed(m0, m1, m2, a, (b - a) / 2, rounds, lo, hi);
  }

  lemma CutFresh(m0: seq<bv32>, m1: seq<bv32>, m2: seq<bv32>, a: nat, b: nat, rounds: nat, lo: int)
    requires a < b <= |m0| && OnBlock(b - a) && |m1| == |m2|
    requires SameOutside(m0, m1, lo, a) && SpanMoved(m1, m2, a, (b - a) / 2, rounds)
    ensures CutMoved(m0, m2, a, b, rounds)
  {
    hide SpanMoved, SameOutside, OnBlock;
    BlockLength(b - a);
    SameLength(m0, m1, lo, a);
    SpanUndisturbed(m0, m1, m2, a, (b - a) / 2, rounds, lo, a);
  }

  /** What happened to a span is not changed by what happens elsewhere, before or after. */
  lemma SpanUndisturbed(m0: seq<bv32>, m1: seq<bv32>, m2: seq<bv32>, a: nat, half: nat, rounds: nat, lo: int, hi: int)
    requires a + 2 * half <= |m0| == |m1| == |m2| && (a + 2 * half <= lo || hi <= a)
    ensures SpanMoved(m0, m1, a, half, rounds) && SameOutside(m1, m2, lo, hi) ==> SpanMoved(m0, m2, a, half, rounds)
    ensures SameOutside(m0, m1, lo, hi) && SpanMoved(m1, m2, a, half, rounds) ==> SpanMoved(m0, m2, a, half, rounds)
  {
    hide Rotated;
    if SameOutside(m1, m2, lo, hi) {
      HalvesSame(m1, m2, a, half, lo, hi);
    }
    if SameOutside(m0, m1, lo, hi) {
      HalvesSame(m0, m1, a, half, lo, hi);
    }
  }

  lemma HalvesSame(m: seq<bv32>, m': seq<bv32>, a: nat, half: nat, lo: int, hi: int)
    requires a + 2 * half <= |m| && (a + 2 * half <= lo || hi <= a) && SameOutside(m, m', lo, hi)
    ensures Halves(m, a, half) == Halves(m', a, half)
    ensures m[a..a + half] == m'[a..a + half]
  {
    assert m[a..a + half] == m'[a..a + half];
    assert m[a + half..a + 2 * half] == m'[a + half..a + 2 * half];
  }

  lemma CutsSnoc(m0: seq<bv32>, m1: seq<bv32>, m2: seq<bv32>, cuts: seq<nat>, p: nat, q: nat, r: Range, rounds: nat)
    requires AreCuts(cuts, r) && CutsMoved(m0, m1, cuts, rounds) && cuts[|cuts| - 1] == p < q <= r.hi + 1 <= |m0|
    requires SameOutside(m0, m1, r.lo, p) && SameOutside(m1, m2, p, q)
    requires q == NextCut(p, r) && OnBlock(q - p) && |m1| == |m2|
    requires SpanMoved(m1, m2, p, (q - p) / 2, rounds)
    ensures AreCuts(cuts + [q], r) && CutsMoved(m0, m2, cuts + [q], rounds)
  {
    hide SpanMoved, SameOutside, OnBlock, CutMoved, NextCut;
    var cuts' := cuts + [q];
    CutFresh(m0, m1, m2, p, q, rounds, r.lo);
    forall k | 0 < k < |cuts'| ensures CutMoved(m0, m2, cuts'[k - 1], cuts'[k], rounds) {
      if k < |cuts| {
        CutsBelow(m0, m1, cuts, rounds, k);
        CutUndisturbed(m0, m1, m2, cuts[k - 1], cuts[k], rounds, p, q);
      } else {
        assert cuts'[k - 1] == p && cuts'[k] == q;
      }
    }
  }

  lemma {:induction false} CutsBelow(m0: seq<bv32>, m: seq<bv32>, cuts: seq<nat>, rounds: nat, k: nat)
    requires CutsMoved(m0, m, cuts, rounds) && k < |cuts|
    ensures cuts[k] <= cuts[|cuts| - 1]
    decreases |cuts| - k
  {
    if k < |cuts| - 1 {
      assert CutMoved(m0, m, cuts[k + 1 - 1], cuts[k + 1], rounds);
      CutsBelow(m0, m, cuts, rounds, k + 1);
    }
  }

  lemma NoCuts(m: seq<bv32>, r: Range, rounds: nat)
    ensures CutsMoved(m, m, [r.lo], rounds) && AreCuts([r.lo], r)
  {
  }

  /** The moves on one range, span by span. */
  method MoveRange(f: Cells, mem: array<bv32>, r: Range, iter: nat) returns (ghost cuts: seq<nat>)
    requires BlocksOk(r, mem.Length)
    modifies mem
    ensures SameOutside(old(mem[..]), mem[..], r.lo, r.hi + 1) && ByWrites(f, old(mem[..]), mem[..])
    ensures Sound(f) && Pairs(old(mem[..]), r.lo, r.hi + 1) ==> Pairs(mem[..], r.lo, r.hi + 1)
    ensures AreCuts(cuts, r) && cuts[|cuts| - 1] == r.hi + 1
    ensures Sound(f) ==> CutsMoved(old(mem[..]), mem[..], cuts, iter)
  {
    hide Pairs, SameOutside, NextUp, SpanEnd, SpanMoved, OnBlock, OnPair, CutsMoved, Sound, AreCuts;
    hide ByWrites;
    ghost var m0 := mem[..];
    var p, pe, done := r.lo, r.lo, false;
    cuts := [r.lo];
    ghost var next := r.lo;
    NothingDone(m0, r.lo);
    NoCuts(m0, r, iter);
    ByWritesNothing(f, m0);
    while !done
      invariant r.lo <= next <= r.hi + 1 && OnBlock(next)
      invariant if done then next == r.hi + 1 else p == pe == next <= r.hi
      invariant SameOutside(m0, mem[..], r.lo, next) && ByWrites(f, m0, mem[..])
      invariant AreCuts(cuts, r) && |cuts| > 0 && cuts[|cuts| - 1] == next
      invariant Sound(f) ==> CutsMoved(m0, mem[..], cuts, iter)
      invariant Sound(f) && Pairs(m0, r.lo, r.hi + 1) ==>
                  Pairs(mem[..], r.lo, next) && Pairs(mem[..], next, r.hi + 1)
      decreases r.hi + 1 - next
    {
      SpanEndMoves(p, r, mem.Length);
      BlockLength(SpanEnd(p, r) - p);
      pe := NextUp(pe, r.hi);
      if pe >= r.hi {
        done := true;
      }
      if p == pe {
        break;
      }
      next := SpanEnd(p, r);
      var half := if OnBlock(pe) then (pe - p) / 2 else (pe + 1 - p) / 2;
      ghost var m1 := mem[..];
      MoveSpan(f, mem, p, half, iter);
      OutsideJoin(m0, m1, mem[..], r.lo, p, next);
      ByWritesJoin(f, m0, m1, mem[..]);
      CutsRising(cuts, p, next, r);
      if Sound(f) {
        CutsSnoc(m0, m1, mem[..], cuts, p, next, r, iter);
        if Pairs(m0, r.lo, r.hi + 1) {
          AfterSpan(m0, m1, mem[..], r, p, next, half, iter);
        }
      }
      cuts := cuts + [next];
      p := pe;
    }
  }

  lemma CutsRising(cuts: seq<nat>, p: nat, q: nat, r: Range)
    requires AreCuts(cuts, r) && cuts[|cuts| - 1] == p < q <= r.hi + 1 && q == NextCut(p, r)
    ensures AreCuts(cuts + [q], r)
  {
    hide NextCut;
  }

  lemma AfterSpan(m0: seq<bv32>, m1: seq<bv32>, m2: seq<bv32>, r: Range, p: nat, q: nat, half: nat, iter: nat)
    requires r.lo <= p < q <= r.hi + 1 <= |m0| && q == p + 2 * half
    requires OnPair(half) && OnBlock(p) && OnBlock(q) && OnBlock(r.hi + 1)
    requires SameOutside(m0, m1, r.lo, p) && SameOutside(m1, m2, p, q)
    requires |m1| == |m0| == |m2| && SpanMoved(m1, m2, p, half, iter)
    requires Pairs(m1, r.lo, p) && Pairs(m1, p, r.hi + 1)
    ensures SameOutside(m0, m2, r.lo, q)
    ensures Pairs(m2, r.lo, q) && Pairs(m2, q, r.hi + 1)
  {
    hide Pairs, SpanMoved, SameOutside, OnPair, OnBlock;
    BlockIsPair(p);
    BlockIsPair(q);
    BlockIsPair(r.hi + 1);
    OutsideJoin(m0, m1, m2, r.lo, p, q);
    PairsSplit(m1, p, q, r.hi + 1);
    MovedPairs(m1, m2, p, half, iter);
    PairsSame(m1, m2, r.lo, p, p, q);
    PairsSame(m1, m2, q, r.hi + 1, p, q);
    PairsJoin(m2, r.lo, p, q);
  }

  lemma SameLength(m: seq<bv32>, m': seq<bv32>, lo: int, hi: int)
    requires SameOutside(m, m', lo, hi)
    ensures |m| == |m'|
  {
  }

  // ---------- the check ----------

  /** The inner loop of the check: from the pair at p, every pair up to the first one at or past pe. The
      position of the last pair is where the next span starts. */
  method CheckSpan(mem: array<bv32>, p: nat, pe: nat) returns (p': nat, bad: nat)
    requires OnPair(p) && p + 1 < mem.Length && pe + 2 < mem.Length
    ensures OnPair(p') && p <= p' && pe <= p' && (p' <= p || p' <= pe + 1)
    ensures bad == 0 <==> Pairs(mem[..], p, p' + 1)
  {
    p' := p;
    bad := if mem[p'] != mem[p' + 1] then 1 else 0;
    assert Twin(mem[..], p') <==> mem[p'] == mem[p' + 1];
    while p' < pe
      invariant OnPair(p') && p <= p' && (p' <= p || p' <= pe + 1)
      invariant bad == 0 <==> Pairs(mem[..], p, p' + 1)
    {
      p' := p' + 2;
      if mem[p'] != mem[p' + 1] {
        bad := bad + 1;
      }
      assert Twin(mem[..], p') <==> mem[p'] == mem[p' + 1];
      PairsSplit(mem[..], p, p' - 1, p' + 1);
    }
  }

  lemma NextUpJumps(r: Range, pe: nat, size: nat)
    requires BlocksOk(r, size) && r.lo <= pe < r.hi
    ensures pe < NextUp(pe, r.hi) <= r.hi
    ensures NextUp(pe, r.hi) < r.hi ==> NextUp(pe, r.hi) == pe + SPINSZ
    ensures OnPair(r.lo) && !OnPair(r.hi) && !OnBlock(r.hi)
  {
    hide OnPair, OnBlock, NextUp;
    BlockIsPair(r.lo);
    LastNotBlock(r.hi);
    NextUpIs(pe, r.hi);
  }

  /** Pairs checked up to mid, and again from an earlier p on. */
  lemma PairsCover(m: seq<bv32>, lo: int, p: int, mid: int, hi: int)
    requires lo <= p <= mid <= hi
    ensures Pairs(m, lo, mid) && Pairs(m, p, hi) <==> Pairs(m, lo, hi)
  {
  }

  lemma PairsOddEnd(m: seq<bv32>, lo: int, hi: int)
    requires !OnPair(hi)
    ensures Pairs(m, lo, hi) <==> Pairs(m, lo, hi + 1)
  {
  }

  /** Where the bound of the next check span lies, before and after the adjustment. */
  function CheckBound(pe: nat): int {
    if OnBlock(pe) then pe - 1 else pe - 2
  }

  lemma CheckBounds(r: Range, pe: nat, p: nat, size: nat)
    requires BlocksOk(r, size) && r.lo <= pe < r.hi && OnPair(p)
    requires if pe == r.lo then p == r.lo else p == pe + 1
    ensures var next := NextUp(pe, r.hi); var bound := CheckBound(next);
            && pe < next && next <= r.hi && p != next && p < r.hi
            && 0 <= bound && bound + 2 < size && !OnPair(bound) && bound > r.lo && bound >= pe
            && (next == r.hi ==> bound == r.hi - 2)
            && (next < r.hi ==> pe < bound && p <= bound + 1 < r.hi)
  {
    hide OnPair, OnBlock, NextUp;
    NextUpJumps(r, pe, size);
    RangeLong(r, size);
    NextIsOdd(r.hi);
    if pe == r.lo {
      SpinIsBlocks();
      BlockSum(pe, SPINSZ);
      BlockIsPair(pe + SPINSZ);
      NextIsOdd(pe + SPINSZ);
    } else {
      NextIsOdd(pe);
      SpinIsBlocks();
      OddPlusBlocks(pe, SPINSZ);
      NextIsOdd(pe + SPINSZ);
    }
  }

  lemma RangeLong(r: Range, size: nat)
    requires BlocksOk(r, size)
    ensures r.hi >= r.lo + 15
  {
    hide OnBlock;
    BlockSum(r.hi + 1, r.lo);
    BlockLength(r.hi + 1 - r.lo);
  }

  lemma NextIsOdd(x: int)
    ensures OnPair(x) <==> !OnPair(x + 1)
    ensures OnPair(x) <==> !OnPair(x - 1)
    ensures OnPair(x) <==> OnPair(x - 2)
  {
  }

  lemma OddPlusBlocks(x: int, y: int)
    requires !OnPair(x) && OnBlock(y)
    ensures !OnPair(x + y) && !OnBlock(x + y)
  {
    hide OnPair, OnBlock;
    BlockIsPair(y);
    if OnPair(x + y) {
      PairSum(x + y, y);
    }
    if OnBlock(x + y) {
      BlockIsPair(x + y);
    }
  }

  /** The check of one range. After the first span pe drifts down by two dwords a span, but each span
      takes up at the pair the last one ended with, so every pair is compared and none outside. */
  method CheckRange(mem: array<bv32>, r: Range) returns (errors: nat)
    requires BlocksOk(r, mem.Length)
    ensures errors == 0 <==> Pairs(mem[..], r.lo, r.hi + 1)
  {
    hide Pairs, NextUp, SameOutside;
    var pe, p, done := r.lo, r.lo, false;
    errors := 0;
    NextUpJumps(r, pe, mem.Length);
    NothingDone(mem[..], r.lo);
    while !done
      invariant r.lo <= p < r.hi && OnPair(p) && r.lo <= pe <= r.hi
      invariant !done ==> pe < r.hi && (if pe == r.lo then p == r.lo else p == pe + 1)
      invariant done ==> p == r.hi - 1 && pe > r.lo
      invariant errors == 0 <==> Pairs(mem[..], r.lo, if pe == r.lo then p else p + 1)
      decreases !done, r.hi - pe
    {
      CheckBounds(r, pe, p, mem.Length);
      ghost var checked := if pe == r.lo then p else p + 1;
      pe := NextUp(pe, r.hi);
      if pe >= r.hi {
        pe := r.hi;
        done := true;
      }
      if p == pe {
        break;
      }
      if OnBlock(pe) {
        pe := pe - 1;
      } else {
        pe := pe - 2;
      }
      var bad;
      ghost var from := p;
      p, bad := CheckSpan(mem, p, pe);
      PairsCover(mem[..], r.lo, from, checked, p + 1);
      errors := errors + bad;
    }
    PairsOddEnd(mem[..], r.lo, r.hi);
  }

  // ---------- the whole test ----------

  predicate AllBlocksOk(ranges: seq<Range>, size: nat) {
    && (forall i | 0 <= i < |ranges| :: BlocksOk(ranges[i], size))
    && Disjoint(ranges)
  }

  ghost predicate AllPairs(m: seq<bv32>, ranges: seq<Range>, n: int)
    requires n <= |ranges|
  {
    forall i | 0 <= i < n :: Pairs(m, ranges[i].lo, ranges[i].hi + 1)
  }

  /** The range has been filled, span by span. */
  ghost predicate RangeFilled(m: seq<bv32>, r: Range) {
    exists cuts :: AreCuts(cuts, r) && cuts[|cuts| - 1] == r.hi + 1 && CutsOnBlocks(cuts) && CutsFilled(m, cuts)
  }

  /** The range has been filled, and then every span of it has been through all its rounds. */
  ghost predicate RangeMoved(m: seq<bv32>, r: Range, iter: nat) {
    exists m1, cuts ::
      AreCuts(cuts, r) && cuts[|cuts| - 1] == r.hi + 1 && CutsFilled(m1, cuts) && CutsMoved(m1, m, cuts, iter)
  }

  lemma FillIsRange(m: seq<bv32>, r: Range, cuts: seq<nat>)
    requires AreCuts(cuts, r) && cuts[|cuts| - 1] == r.hi + 1 && CutsOnBlocks(cuts) && CutsFilled(m, cuts)
    ensures RangeFilled(m, r)
  {
  }

  lemma MoveIsRange(m1: seq<bv32>, m: seq<bv32>, r: Range, cuts: seq<nat>, iter: nat)
    requires AreCuts(cuts, r) && cuts[|cuts| - 1] == r.hi + 1 && RangeFilled(m1, r) && CutsMoved(m1, m, cuts, iter)
    ensures RangeMoved(m, r, iter)
  {
    hide CutsFilled, CutsMoved, NextCut;
    var c :| AreCuts(c, r) && c[|c| - 1] == r.hi + 1 && CutsOnBlocks(c) && CutsFilled(m1, c);
    CutsAre(c, cuts, r);
  }

  /** Working on another range leaves it as it is. */
  lemma OtherFilled(m: seq<bv32>, m': seq<bv32>, r: Range, lo: int, hi: int)
    requires RangeFilled(m, r) && SameOutside(m, m', lo, hi) && (r.hi < lo || hi <= r.lo)
    ensures RangeFilled(m', r)
  {
    hide SameOutside, CutFilled, OnBlock;
    var cuts :| AreCuts(cuts, r) && cuts[|cuts| - 1] == r.hi + 1 && CutsOnBlocks(cuts) && CutsFilled(m, cuts);
    forall k | 0 < k < |cuts| ensures CutFilled(m', cuts[k - 1], cuts[k]) {
      CutsRise(cuts, k);
      CutsRise(cuts, k - 1);
      FilledKept(m, m', cuts[k - 1], cuts[k], lo, hi);
    }
    FillIsRange(m', r, cuts);
  }

  lemma OtherMoved(m: seq<bv32>, m': seq<bv32>, r: Range, iter: nat, lo: int, hi: int)
    requires RangeMoved(m, r, iter) && SameOutside(m, m', lo, hi) && (r.hi < lo || hi <= r.lo)
    ensures RangeMoved(m', r, iter)
  {
    hide SameOutside, CutMoved, CutsFilled, NextCut;
    SameLength(m, m', lo, hi);
    var m1, cuts :|
      AreCuts(cuts, r) && cuts[|cuts| - 1] == r.hi + 1 && CutsFilled(m1, cuts) && CutsMoved(m1, m, cuts, iter);
    forall k | 0 < k < |cuts| ensures CutMoved(m1, m', cuts[k - 1], cuts[k], iter) {
      AreCutsFrom(cuts, r, k - 1);
      CutUndisturbed(m1, m, m', cuts[k - 1], cuts[k], iter, lo, hi);
    }
  }

  lemma {:induction false} AreCutsFrom(cuts: seq<nat>, r: Range, k: nat)
    requires AreCuts(cuts, r) && k < |cuts|
    ensures r.lo <= cuts[k]
  {
    if k > 0 {
      AreCutsFrom(cuts, r, k - 1);
      assert cuts[k - 1] < cuts[k];
    }
  }

  /** Working on range j leaves the pairs of the others. */
  lemma OtherPairs(m: seq<bv32>, m': seq<bv32>, ranges: seq<Range>, j: nat, i: nat, size: nat)
    requires AllBlocksOk(ranges, size) && i < |ranges| && j < |ranges| && i != j
    requires SameOutside(m, m', ranges[j].lo, ranges[j].hi + 1) && Pairs(m, ranges[i].lo, ranges[i].hi + 1)
    ensures Pairs(m', ranges[i].lo, ranges[i].hi + 1)
  {
    hide Pairs, SameOutside;
    BlockIsPair(ranges[i].hi + 1);
    BlockIsPair(ranges[j].lo);
    BlockIsPair(ranges[j].hi + 1);
    PairsSame(m, m', ranges[i].lo, ranges[i].hi + 1, ranges[j].lo, ranges[j].hi + 1);
  }

  /** Every range holds equal pairs, and has been filled; or filled and then moved, if it is one of the first j. */
  ghost predicate Intact(m: seq<bv32>, ranges: seq<Range>, filled: int, moved: int, iter: nat)
    requires filled <= |ranges|
  {
    && (forall i | 0 <= i < filled :: Pairs(m, ranges[i].lo, ranges[i].hi + 1))
    && (forall i | 0 <= i < filled :: if i < moved then RangeMoved(m, ranges[i], iter) else RangeFilled(m, ranges[i]))
  }

  lemma FillKeeps(m: seq<bv32>, m': seq<bv32>, ranges: seq<Range>, j: nat, iter: nat, cuts: seq<nat>, size: nat)
    requires AllBlocksOk(ranges, size) && j < |ranges| && Intact(m, ranges, j, 0, iter)
    requires SameOutside(m, m', ranges[j].lo, ranges[j].hi + 1) && Pairs(m', ranges[j].lo, ranges[j].hi + 1)
    requires AreCuts(cuts, ranges[j]) && cuts[|cuts| - 1] == ranges[j].hi + 1
    requires CutsOnBlocks(cuts) && CutsFilled(m', cuts)
    ensures Intact(m', ranges, j + 1, 0, iter)
  {
    hide Pairs, SameOutside, AreCuts, RangeFilled, CutsFilled, CutsOnBlocks;
    FillIsRange(m', ranges[j], cuts);
    forall i | 0 <= i < j ensures Pairs(m', ranges[i].lo, ranges[i].hi + 1) && RangeFilled(m', ranges[i]) {
      OtherPairs(m, m', ranges, j, i, size);
      OtherFilled(m, m', ranges[i], ranges[j].lo, ranges[j].hi + 1);
    }
  }

  lemma MoveKeeps(m: seq<bv32>, m': seq<bv32>, ranges: seq<Range>, j: nat, iter: nat, cuts: seq<nat>, size: nat)
    requires AllBlocksOk(ranges, size) && j < |ranges| && Intact(m, ranges, |ranges|, j, iter)
    requires SameOutside(m, m', ranges[j].lo, ranges[j].hi + 1)
    requires Pairs(m, ranges[j].lo, ranges[j].hi + 1) ==> Pairs(m', ranges[j].lo, ranges[j].hi + 1)
    requires AreCuts(cuts, ranges[j]) && cuts[|cuts| - 1] == ranges[j].hi + 1 && CutsMoved(m, m', cuts, iter)
    ensures Intact(m', ranges, |ranges|, j + 1, iter)
  {
    hide Pairs, SameOutside, CutsMoved, AreCuts, RangeFilled, RangeMoved;
    MoveIsRange(m, m', ranges[j], cuts, iter);
    forall i | 0 <= i < |ranges| && i != j
      ensures Pairs(m', ranges[i].lo, ranges[i].hi + 1)
      ensures j < i ==> RangeFilled(m', ranges[i])
      ensures i < j ==> RangeMoved(m', ranges[i], iter)
    {
      OtherPairs(m, m', ranges, j, i, size);
      if j < i {
        OtherFilled(m, m', ranges[i], ranges[j].lo, ranges[j].hi + 1);
      } else {
        OtherMoved(m, m', ranges[i], iter, ranges[j].lo, ranges[j].hi + 1);
      }
    }
  }

  /** What the first n ranges hold has been written there. */
  ghost predicate RangesWritten(f: Cells, m: seq<bv32>, ranges: seq<Range>, n: int)
    requires n <= |ranges|
  {
    forall i | 0 <= i < n :: AllWritten(f, m, ranges[i].lo, ranges[i].hi + 1)
  }

  lemma FillWrites(f: Cells, m: seq<bv32>, m': seq<bv32>, ranges: seq<Range>, j: nat, size: nat)
    requires AllBlocksOk(ranges, size) && |m| == size && j < |ranges| && RangesWritten(f, m, ranges, j)
    requires SameOutside(m, m', ranges[j].lo, ranges[j].hi + 1) && AllWritten(f, m', ranges[j].lo, ranges[j].hi + 1)
    ensures RangesWritten(f, m', ranges, j + 1)
  {
    hide CanHold, OnBlock;
    forall i | 0 <= i < j ensures AllWritten(f, m', ranges[i].lo, ranges[i].hi + 1) {
      assert AllWritten(f, m, ranges[i].lo, ranges[i].hi + 1);
      assert ranges[i].hi < ranges[j].lo || ranges[j].hi < ranges[i].lo;
    }
  }

  lemma MoveWrites(f: Cells, m: seq<bv32>, m': seq<bv32>, ranges: seq<Range>)
    requires RangesWritten(f, m, ranges, |ranges|) && ByWrites(f, m, m')
    ensures RangesWritten(f, m', ranges, |ranges|)
  {
    hide AllWritten, ByWrites;
    forall i | 0 <= i < |ranges| ensures AllWritten(f, m', ranges[i].lo, ranges[i].hi + 1) {
      WrittenKept(f, m, m', ranges[i].lo, ranges[i].hi + 1);
    }
  }

  /** A pair of dwords that cannot hold the same word is reported, whatever the moves did with it. */
  lemma UnequalPairFound(f: Cells, m: seq<bv32>, ranges: seq<Range>, i: nat, q: nat)
    requires RangesWritten(f, m, ranges, |ranges|) && i < |ranges|
    requires ranges[i].lo <= q < ranges[i].hi && q % 2 == 0
    requires forall x :: CanHold(f, q, x) ==> !CanHold(f, q + 1, x)
    ensures !Twin(m, q)
    ensures !AllPairs(m, ranges, |ranges|)
  {
    hide CanHold;
    assert AllWritten(f, m, ranges[i].lo, ranges[i].hi + 1);
    assert CanHold(f, q, m[q]) && CanHold(f, q + 1, m[q + 1]);
    if AllPairs(m, ranges, |ranges|) {
      assert Pairs(m, ranges[i].lo, ranges[i].hi + 1);
      assert OnPair(q);
    }
  }

  /** The test, for any segments and any number of iterations. Whatever faults the memory has, it reports an
      error exactly when two dwords of a pair differ in the end, and changes nothing outside its ranges. On
      fault-free memory that never happens, and every range has been filled and then moved. */
  method BlockMoveTest(f: Cells, mem: array<bv32>, ranges: seq<Range>, iter: nat) returns (errors: nat)
    requires AllBlocksOk(ranges, mem.Length)
    modifies mem
    ensures errors == 0 <==>
              forall i, q | 0 <= i < |ranges| && ranges[i].lo <= q <= ranges[i].hi && q % 2 == 0 :: Twin(mem[..], q)
    ensures RangesWritten(f, mem[..], ranges, |ranges|)
    ensures Sound(f) ==> errors == 0 && forall i | 0 <= i < |ranges| :: RangeMoved(mem[..], ranges[i], iter)
    ensures SameElsewhere(old(mem[..]), mem[..], ranges)
  {
    hide Pairs, SameOutside, CutsMoved, AreCuts, SameElsewhere, RangeFilled, RangeMoved, CutsFilled, CutsOnBlocks;
    hide Sound, Intact, AllPairs, AllWritten, RangesWritten, ByWrites;
    ghost var m0 := mem[..];
    NothingElsewhere(m0, ranges);
    NothingIntact(f, m0, ranges, iter);
    var j := 0;
    while j < |ranges|
      invariant 0 <= j <= |ranges|
      invariant RangesWritten(f, mem[..], ranges, j)
      invariant Sound(f) ==> Intact(mem[..], ranges, j, 0, iter)
      invariant SameElsewhere(m0, mem[..], ranges)
    {
      ghost var m := mem[..];
      ghost var cuts := FillRange(f, mem, ranges[j]);
      ElsewhereKept(m0, m, mem[..], ranges, j);
      FillWrites(f, m, mem[..], ranges, j, mem.Length);
      if Sound(f) {
        FillKeeps(m, mem[..], ranges, j, iter, cuts, mem.Length);
      }
      j := j + 1;
    }
    j := 0;
    while j < |ranges|
      invariant 0 <= j <= |ranges|
      invariant RangesWritten(f, mem[..], ranges, |ranges|)
      invariant Sound(f) ==> Intact(mem[..], ranges, |ranges|, j, iter)
      invariant SameElsewhere(m0, mem[..], ranges)
    {
      ghost var m := mem[..];
      ghost var cuts := MoveRange(f, mem, ranges[j], iter);
      ElsewhereKept(m0, m, mem[..], ranges, j);
      MoveWrites(f, m, mem[..], ranges);
      if Sound(f) {
        MoveKeeps(m, mem[..], ranges, j, iter, cuts, mem.Length);
      }
      j := j + 1;
    }
    if Sound(f) {
      IntactPairs(mem[..], ranges, iter);
    }
    errors := CheckPass(mem, ranges);
  }

  /** The check of all segments. */
  method CheckPass(mem: array<bv32>, ranges: seq<Range>) returns (errors: nat)
    requires AllBlocksOk(ranges, mem.Length)
    ensures errors == 0 <==> AllPairs(mem[..], ranges, |ranges|)
    ensures errors == 0 <==>
              forall i, q | 0 <= i < |ranges| && ranges[i].lo <= q <= ranges[i].hi && q % 2 == 0 :: Twin(mem[..], q)
  {
    hide Pairs, AllPairs;
    errors := 0;
    var j := 0;
    NoPairs(mem[..], ranges);
    while j < |ranges|
      invariant 0 <= j <= |ranges|
      invariant errors == 0 <==> AllPairs(mem[..], ranges, j)
    {
      var bad := CheckRange(mem, ranges[j]);
      MorePairs(mem[..], ranges, j);
      errors := errors + bad;
      j := j + 1;
    }
    PairByPair(mem[..], ranges);
  }

  lemma NothingIntact(f: Cells, m: seq<bv32>, ranges: seq<Range>, iter: nat)
    ensures Intact(m, ranges, 0, 0, iter) && RangesWritten(f, m, ranges, 0)
  {
  }

  lemma NoPairs(m: seq<bv32>, ranges: seq<Range>)
    ensures AllPairs(m, ranges, 0)
  {
  }

  lemma MorePairs(m: seq<bv32>, ranges: seq<Range>, j: nat)
    requires j < |ranges|
    ensures AllPairs(m, ranges, j + 1) <==> AllPairs(m, ranges, j) && Pairs(m, ranges[j].lo, ranges[j].hi + 1)
  {
  }

  lemma PairByPair(m: seq<bv32>, ranges: seq<Range>)
    ensures AllPairs(m, ranges, |ranges|) <==>
              forall i, q | 0 <= i < |ranges| && ranges[i].lo <= q <= ranges[i].hi && q % 2 == 0 :: Twin(m, q)
  {
    hide Twin;
    if AllPairs(m, ranges, |ranges|) {
      forall i, q | 0 <= i < |ranges| && ranges[i].lo <= q <= ranges[i].hi && q % 2 == 0 ensures Twin(m, q) {
        assert Pairs(m, ranges[i].lo, ranges[i].hi + 1);
        assert OnPair(q);
      }
    }
  }

  lemma IntactPairs(m: seq<bv32>, ranges: seq<Range>, iter: nat)
    requires Intact(m, ranges, |ranges|, |ranges|, iter)
    ensures AllPairs(m, ranges, |ranges|) && forall i | 0 <= i < |ranges| :: RangeMoved(m, ranges[i], iter)
  {
    hide Pairs, RangeMoved;
  }
}
