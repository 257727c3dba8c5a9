/** The ranges that the tests are really given: the CPUs' parts of segments of whole pages. */
module Parts {
  import opened Arith
  import opened Chunks
  import opened MovInv
  import opened PageMap
  import opened Words
  import MovInv1
  import ModTst
  import BlockMove
  import Windows

  /** A window holds 0x80000 pages. */
  const WINDOW_BYTES := 0x80000000

  /** A segment as compute_segments maps it: whole pages inside one window, except that the first one starts
      at 0x500. */
  predicate WindowSegment(s: Segment) {
    && SegmentOk(s) && s.start >= 0x500 && s.start % 256 == 0 && Bytes(s) <= WINDOW_BYTES
    && (Bytes(s) % PAGE == 0 || Bytes(s) % PAGE == PAGE - 0x500)
  }

  /** The mapping of a range of pages whose page 0 would be at address base; the BIOS area below 0x500 is
      left out. */
  function MapSegment(r: PMap, base: int): (int, int) {
    var first := base + PAGE * r.start;
    (if r.start < 1 && first < 0x500 then 0x500 else first, base + PAGE * r.end - 4)
  }

  /** Mapped ranges of pages are such segments. */
  lemma MappedSegment(r: PMap, base: int)
    requires r.start < r.end && PAGE * (r.end - r.start) <= WINDOW_BYTES && base % PAGE == 0
    requires 0 <= base + PAGE * r.start && base + PAGE * r.end <= TWO32
    requires base + PAGE * r.start == 0 ==> r.start == 0
    ensures var (start, end) := MapSegment(r, base);
            0 <= start < TWO32 && 0 <= end < TWO32 && WindowSegment(Segment(start, end))
  {
    var b := base / PAGE;
    assert base == PAGE * b;
    var p, q := b + r.start, b + r.end;
    var (start, end) := MapSegment(r, base);
    assert end == PAGE * q - 4;
    if start == PAGE * p {
      DivMod(start, 256, 16 * p, 0);
      DivMod(end - start + 4, PAGE, q - p, 0);
    } else {
      assert start == 0x500 && p == 0;
      DivMod(end - start + 4, PAGE, q - 1, PAGE - 0x500);
    }
    DivMod(start, 4, start / 256 * 64, 0);
    DivMod(end, 4, 1024 * q - 1, 0);
  }

  /** Every segment of every window that is tested is mapped to such a segment, wherever the window's mapping
      puts it in the address space. The low window ends at one of two pages. */
  lemma TestedSegment(v: Vars, tests: seq<Windows.Tested>, win1End: nat, t: Windows.Tested, r: PMap, base: int)
    requires v.Valid() && Windows.EachInOneWindow(v, tests, win1End) && (win1End == 0x300 || win1End == 0x2000)
    requires t in tests && r in t.segs && base % PAGE == 0
    requires 0 <= base + PAGE * r.start && base + PAGE * r.end <= TWO32
    requires base + PAGE * r.start == 0 ==> r.start == 0
    ensures var (start, end) := MapSegment(r, base);
            0 <= start < TWO32 && 0 <= end < TWO32 && WindowSegment(Segment(start, end))
  {
    hide Windows.InOneWindow;
    Windows.OneWindow(v, t, win1End, r, r.start, r.start);
    MappedSegment(r, base);
  }

  const SPAN_BYTES := 4 * SPINSZ

  /** A share of a whole number of spans and one or two dwords would leave a segment that is not of whole
      pages: each of n CPUs has q bytes before rounding, and r bytes are over. */
  lemma NoOddShare(bytes: int, n: int, q: int, r: int, k: int, e: int)
    requires 1 <= n <= 8 && bytes == n * q + r && 0 <= r < n
    requires bytes % PAGE == 0 || bytes % PAGE == PAGE - 0x500
    requires e == 4 || e == 8
    ensures q - q % 4 != k * SPAN_BYTES + e
    ensures bytes - (q - q % 4) * (n - 1) != k * SPAN_BYTES + e
  {
    var whole := k * SPAN_BYTES;
    var d, v := q - whole, q % 4;
    OverSpans(bytes, n, q, r, k, d);
    if q - v == whole + e {
      SmallProduct(n, d);
      PositiveOffset(n * d + r);
    }
    if bytes - (q - v) * (n - 1) == whole + e {
      MasterShare(bytes, n, q, v, r);
      LastOffset(n, d, v, r, e);
    }
  }

  /** A share, counted from a whole number of spans. */
  lemma OverSpans(bytes: int, n: int, q: int, r: int, k: int, d: int)
    requires bytes == n * q + r && q == k * SPAN_BYTES + d
    ensures bytes % PAGE == (n * d + r) % PAGE && q % 4 == d % 4
  {
    var whole := k * SPAN_BYTES;
    SpansArePages(n, k, whole);
    assert n * q == n * whole + n * d;
    SamePageOffset(bytes, n * whole, n * d + r);
    SameQuarter(q, whole, d, k);
  }

  /** What the last CPU gets: its share and all that was rounded away. */
  lemma MasterShare(bytes: int, n: int, q: int, v: int, r: int)
    requires bytes == n * q + r
    ensures bytes - (q - v) * (n - 1) == q + r + v * (n - 1)
  {
    assert (q - v) * (n - 1) == n * q - q - v * (n - 1);
  }

  lemma LastOffset(n: int, d: int, v: int, r: int, e: int)
    requires 1 <= n <= 8 && 0 <= r < n && 0 <= v < 4 && v == d % 4 && (e == 4 || e == 8)
    requires d + r + v * (n - 1) == e
    ensures (n * d + r) % PAGE != 0 && (n * d + r) % PAGE != PAGE - 0x500
  {
    SmallTimes(v, n - 1);
    SmallProduct(n, d);
    PositiveOffset(n * d + r);
  }

  lemma SpansArePages(n: int, k: int, whole: int)
    requires whole == k * SPAN_BYTES
    ensures (n * whole) % PAGE == 0 && whole % 4 == 0
  {
    var units := k * 0x10000;
    assert whole == units * PAGE;
    assert n * whole == (n * units) * PAGE;
    DivMod(n * whole, PAGE, n * units, 0);
    DivMod(whole, 4, units * 1024, 0);
  }

  lemma SamePageOffset(a: int, b: int, x: int)
    requires a == b + x && b % PAGE == 0
    ensures a % PAGE == x % PAGE
  {
    var p, t := x / PAGE, x % PAGE;
    assert a == (b / PAGE + p) * PAGE + t;
    DivMod(a, PAGE, b / PAGE + p, t);
  }

  lemma SameQuarter(q: int, whole: int, d: int, k: int)
    requires d == q - whole && whole == k * SPAN_BYTES
    ensures q % 4 == d % 4
  {
    var u, v := d / 4, d % 4;
    assert q == (u + k * SPINSZ) * 4 + v;
    DivMod(q, 4, u + k * SPINSZ, v);
  }

  lemma SmallTimes(v: int, n: int)
    requires 0 <= v < 4 && 0 <= n <= 7
    ensures 0 <= v * n <= 21 && (v == 0 ==> v * n == 0)
  {
    if v == 1 {
    } else if v == 2 {
    } else if v == 3 {
    }
  }

  lemma SmallProduct(n: int, d: int)
    requires 1 <= n <= 8 && -24 <= d <= 11
    ensures -192 <= n * d <= 88
    ensures d == 0 ==> n * d == 0
    ensures d >= 1 ==> n * d >= n
    ensures d <= -1 ==> n * d <= -n
  {
    MulAtLeast(d, n);
    MulAtLeast(11 - d, n);
    MulAtLeast(d + 24, n);
    assert (11 - d) * n == 11 * n - d * n && (d + 24) * n == d * n + 24 * n;
  }

  lemma PositiveOffset(x: int)
    requires -200 <= x <= 100 && x != 0
    ensures x % PAGE != 0 && x % PAGE != PAGE - 0x500
  {
    DivMod(x, PAGE, if x > 0 then 0 else -1, if x > 0 then x else x + PAGE);
  }

  // ---------- the parts ----------

  /** No test is run by more CPUs than this. */
  const MOST_CPUS := 32

  /** The sizes of the parts: q bytes for each of n CPUs before rounding, and r bytes over. */
  lemma PartSizes(bytes: int, n: int, q: int, r: int)
    requires 1 <= n <= MOST_CPUS && bytes == n * q + r && 0 <= r < n && bytes >= PAGE - 0x500
    ensures 88 <= q - q % 4 <= bytes - (q - q % 4) * (n - 1)
    ensures 9 <= n && bytes <= WINDOW_BYTES ==> bytes - (q - q % 4) * (n - 1) < SPAN_BYTES
  {
    var v := q % 4;
    if q <= 87 {
      MulAtMost(q, 87, n);
    }
    var u := q / 4;
    assert q - v == 4 * u;
    MasterShare(bytes, n, q, v, r);
    MulAtMost(v, 3, n - 1);
    MulAtMost(0, v, n - 1);
    if 9 <= n {
      MulAtMost(9, n, q);
      assert n * q == q * n;
    }
  }

  lemma MulAtMost(a: int, b: int, n: int)
    requires a <= b && n >= 0
    ensures a * n <= b * n && n * a <= n * b
  {
    assert b * n == a * n + (b - a) * n;
    NonNegative(b - a, n);
  }

  /** The bytes of a part that is given out in dwords. */
  function PartBytes(s: Segment, me: nat, runCpus: nat): int
    requires s.start <= s.end && runCpus > 0
  {
    var (a, z) := Part(s, me, runCpus, runCpus - 1, 4);
    z - a + 4
  }

  lemma PartBytesAre(s: Segment, me: nat, runCpus: nat)
    requires SegmentOk(s) && me < runCpus
    ensures var q := Bytes(s) / runCpus;
            PartBytes(s, me, runCpus) ==
              if me == runCpus - 1 then Bytes(s) - (q - q % 4) * (runCpus - 1) else q - q % 4
  {
  }

  lemma SegmentBytes(s: Segment)
    requires WindowSegment(s)
    ensures PAGE - 0x500 <= Bytes(s) <= WINDOW_BYTES
    ensures Bytes(s) % PAGE == 0 || Bytes(s) % PAGE == PAGE - 0x500
  {
  }

  /** Every part has at least 22 dwords, and none has one or two more than whole spans. */
  lemma PartBytesOdd(s: Segment, me: nat, runCpus: nat, k: nat, e: int)
    requires WindowSegment(s) && me < runCpus <= MOST_CPUS && (e == 4 || e == 8)
    ensures 88 <= PartBytes(s, me, runCpus) != k * SPAN_BYTES + e
  {
    hide WindowSegment, PartBytes;
    SegmentBytes(s);
    assert SegmentOk(s) by { SegmentIsOk(s); }
    var bytes, q, r := Bytes(s), Bytes(s) / runCpus, Bytes(s) % runCpus;
    assert bytes == runCpus * q + r;
    hide Bytes;
    PartSizes(bytes, runCpus, q, r);
    PartBytesAre(s, me, runCpus);
    if runCpus <= 8 {
      NoOddShare(bytes, runCpus, q, r, k, e);
    } else if k >= 1 {
      ShareBelowSpan(bytes, runCpus, q, r);
      MulAtMost(1, k, SPAN_BYTES);
    }
  }

  lemma ShareBelowSpan(bytes: int, n: int, q: int, r: int)
    requires 9 <= n <= MOST_CPUS && bytes == n * q + r && 0 <= r < n && PAGE - 0x500 <= bytes <= WINDOW_BYTES
    ensures q - q % 4 < SPAN_BYTES
    ensures bytes - (q - q % 4) * (n - 1) < SPAN_BYTES
  {
    PartSizes(bytes, n, q, r);
  }

  lemma SegmentIsOk(s: Segment)
    requires WindowSegment(s)
    ensures SegmentOk(s) && s.start % 256 == 0
  {
  }

  /** A part lies in the segment, on dwords. */
  lemma PartOnDwords(s: Segment, me: nat, runCpus: nat, multiple: nat)
    requires SegmentOk(s) && me < runCpus && multiple > 0 && multiple % 4 == 0
    ensures var (a, z) := Part(s, me, runCpus, runCpus - 1, multiple);
            s.start <= a && z <= s.end && a % 4 == 0 && z % 4 == 0 && a <= z + 4
  {
    hide ChunkBytes, Skip;
    ChunkFits(s, me, runCpus, multiple);
    SkipAligned(s, me, runCpus, multiple, 4);
  }

  /** The part of a CPU as dword indexes. */
  function PartRange(s: Segment, me: nat, runCpus: nat, multiple: nat): (r: Range)
    requires WindowSegment(s) && me < runCpus && multiple > 0 && multiple % 4 == 0
    ensures (r.lo * 4, r.hi * 4) == Part(s, me, runCpus, runCpus - 1, multiple)
  {
    PartOnDwords(s, me, runCpus, multiple);
    var (a, z) := Part(s, me, runCpus, runCpus - 1, multiple);
    Range(a / 4, z / 4)
  }

  /** movinv1's spans tile every part of every segment that compute_segments can give it. */
  lemma PartTiled(s: Segment, me: nat, runCpus: nat)
    requires WindowSegment(s) && me < runCpus <= MOST_CPUS
    ensures var r := PartRange(s, me, runCpus, 4); r.lo + 21 <= r.hi && MovInv1.Tiled(r)
  {
    SegmentIsOk(s);
    PartRangeBytes(s, me, runCpus);
    hide WindowSegment, PartRange, PartBytes;
    var r := PartRange(s, me, runCpus, 4);
    PartBytesOdd(s, me, runCpus, 0, 4);
    var d := r.hi - r.lo;
    var k, e := d / SPINSZ, d % SPINSZ;
    WholeSpans(d, k, e);
    if e <= 1 {
      PartBytesOdd(s, me, runCpus, k, 4 * e + 4);
    }
  }

  lemma WholeSpans(d: int, k: int, e: int)
    requires k == d / SPINSZ && e == d % SPINSZ
    ensures (d + 1) * 4 == k * SPAN_BYTES + 4 * e + 4
  {
    assert d == k * SPINSZ + e;
  }

  lemma PartRangeBytes(s: Segment, me: nat, runCpus: nat)
    requires WindowSegment(s) && me < runCpus
    ensures var r := PartRange(s, me, runCpus, 4); (r.hi - r.lo + 1) * 4 == PartBytes(s, me, runCpus)
  {
    hide Part;
    PartOnDwords(s, me, runCpus, 4);
  }

  /** modtst's strides fit every part. */
  lemma PartStrides(s: Segment, me: nat, runCpus: nat, offset: nat, size: nat)
    requires WindowSegment(s) && me < runCpus <= MOST_CPUS && offset < ModTst.MOD_SZ && s.end / 4 < size <= SPACE
    ensures ModTst.StrideOk(PartRange(s, me, runCpus, 4), offset, size)
  {
    hide Part, PartRange;
    PartTiled(s, me, runCpus);
    PartOnDwords(s, me, runCpus, 4);
  }

  /** block_move gets whole blocks, and at least one. */
  lemma PartBlocks(s: Segment, me: nat, runCpus: nat, size: nat)
    requires WindowSegment(s) && me < runCpus <= MOST_CPUS && s.end / 4 < size <= SPACE
    ensures BlockMove.BlocksOk(PartRange(s, me, runCpus, 64), size)
  {
    SegmentIsOk(s);
    SegmentBytes(s);
    hide ChunkBytes, Skip, PartRange, WindowSegment;
    ChunkNonEmptyIff(s, runCpus, 64);
    ChunkFits(s, me, runCpus, 64);
    SkipAligned(s, me, runCpus, 64, 64);
    var r := PartRange(s, me, runCpus, 64);
    OnBlocks(s.start, Skip(s, me, runCpus, 64), ChunkBytes(s, runCpus, 64), Bytes(s), r.lo, r.hi);
  }

  lemma OnBlocks(start: nat, skip: nat, chunk: nat, bytes: nat, lo: nat, hi: nat)
    requires start % 256 == 0 && skip % 64 == 0 && chunk % 64 == 0 && lo * 4 == start + skip
    requires bytes % PAGE == 0 || bytes % PAGE == PAGE - 0x500
    requires hi * 4 == start + skip + chunk - 4 || hi * 4 == start + bytes - 4
    ensures BlockMove.OnBlock(lo) && BlockMove.OnBlock(hi + 1)
  {
    var i, j, k, l, m := start / 256, skip / 64, chunk / 64, bytes / PAGE, bytes % PAGE / 64;
    assert bytes == 64 * (64 * l + m);
    DivMod(lo, 16, 4 * i + j, 0);
    DivMod(hi + 1, 16, if hi * 4 == start + bytes - 4 then 4 * i + 64 * l + m else 4 * i + j + k, 0);
  }

  /** movinv32 gets whole pattern periods, except that the CPUs other than the master have an empty part
      at the start of the segment when there are not 256 bytes for each. */
  lemma PartPeriodsIff(s: Segment, me: nat, runCpus: nat, size: nat)
    requires WindowSegment(s) && me < runCpus && s.end / 4 < size <= SPACE
    ensures var r := PartRange(s, me, runCpus, 256);
            && (RangeOk(r, size) <==> Bytes(s) >= 256 * runCpus || me == runCpus - 1)
            && (!RangeOk(r, size) ==> r.lo * 4 == s.start && r.hi == r.lo - 1)
  {
    SegmentIsOk(s);
    SegmentBytes(s);
    WholePeriods(Bytes(s));
    hide ChunkBytes, Skip, PartRange, WindowSegment, Bytes;
    ChunkNonEmptyIff(s, runCpus, 256);
    if ChunkBytes(s, runCpus, 256) > 0 {
      PartAligned(s, me, runCpus);
    } else {
      SkipIs(s, me, runCpus, 256);
    }
    var r := PartRange(s, me, runCpus, 256);
    PartOnDwords(s, me, runCpus, 256);
    Periods(r.lo, r.hi);
  }

  lemma WholePeriods(bytes: nat)
    requires bytes % PAGE == 0 || bytes % PAGE == PAGE - 0x500
    ensures bytes % 256 == 0
  {
    var l, m := bytes / PAGE, bytes % PAGE / 256;
    DivMod(bytes, 256, 16 * l + m, 0);
  }

  lemma Periods(lo: int, hi: int)
    requires (hi * 4 - lo * 4 + 4) % 256 == 0
    ensures (hi - lo + 1) % 32 == 0
  {
    var q := (hi * 4 - lo * 4 + 4) / 256;
    assert hi - lo + 1 == 64 * q;
  }
}
