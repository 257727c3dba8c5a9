/** calculate_chunk: how the CPUs share one segment. */
module Chunks {
  import opened Arith
  import opened MovInv
  import opened Words

  /** A mapped segment, as the byte addresses of its first and last dword. */
  datatype Segment = Segment(start: u32, end: u32)

  predicate SegmentOk(s: Segment) {
    s.start % 4 == 0 && s.end % 4 == 0 && s.start <= s.end && Bytes(s) < TWO32
  }

  function Bytes(s: Segment): int {
    s.end - s.start + 4
  }

  /** Clears the low bits of x, for a power of two. */
  function RoundDown(x: nat, multiple: nat): (r: nat)
    requires multiple > 0
    ensures r <= x
  {
    x - x % multiple
  }

  function PerCpu(s: Segment, runCpus: nat): nat
    requires s.start <= s.end && runCpus > 0
  {
    Bytes(s) / runCpus
  }

  /** Bytes per CPU, rounded down to a multiple. */
  function ChunkBytes(s: Segment, runCpus: nat, multiple: nat): nat
    requires s.start <= s.end && runCpus > 0 && multiple > 0
  {
    RoundDown(PerCpu(s, runCpus), multiple)
  }

  /** Bytes that belong to the CPUs before me. */
  function Skip(s: Segment, me: nat, runCpus: nat, multiple: nat): nat
    requires s.start <= s.end && runCpus > 0 && multiple > 0
  {
    ChunkBytes(s, runCpus, multiple) * me
  }

  /** First and last dword of CPU me's part; it is empty when the last precedes the first. */
  function Part(s: Segment, me: nat, runCpus: nat, mstrCpu: nat, multiple: nat): (int, int)
    requires s.start <= s.end && runCpus > 0 && multiple > 0
  {
    if runCpus == 1 then
      (s.start, s.end)
    else
      var start := s.start + Skip(s, me, runCpus, multiple);
      (start, if me == mstrCpu then s.end else start + ChunkBytes(s, runCpus, multiple) - 4)
  }

  lemma PerCpuFits(s: Segment, runCpus: nat)
    requires s.start <= s.end && runCpus > 0
    ensures PerCpu(s, runCpus) * runCpus <= Bytes(s) < PerCpu(s, runCpus) * runCpus + runCpus
    ensures PerCpu(s, runCpus) <= Bytes(s)
  {
    DivTimes(Bytes(s), runCpus);
    MulBoth(PerCpu(s, runCpus), PerCpu(s, runCpus), 1, runCpus);
  }

  lemma PerCpuSmall(s: Segment, runCpus: nat)
    requires s.start <= s.end && runCpus > 0
    ensures PerCpu(s, runCpus) <= Bytes(s)
  {
    PerCpuFits(s, runCpus);
  }

  /** The parts of the CPUs fit the segment. */
  lemma ChunkFits(s: Segment, me: nat, runCpus: nat, multiple: nat)
    requires s.start <= s.end && me < runCpus && multiple > 0
    ensures Skip(s, me, runCpus, multiple) + ChunkBytes(s, runCpus, multiple) <= Bytes(s)
  {
    hide PerCpu, RoundDown;
    var c := ChunkBytes(s, runCpus, multiple);
    PerCpuFits(s, runCpus);
    MulBoth(c, PerCpu(s, runCpus), me + 1, runCpus);
    assert c * (me + 1) == c * me + c;
  }

  lemma RoundDownMultiple(x: nat, multiple: nat) returns (q: nat)
    requires multiple > 0
    ensures RoundDown(x, multiple) == q * multiple && x < q * multiple + multiple
  {
    q := x / multiple;
    DivTimes(x, multiple);
    assert x == q * multiple + x % multiple;
  }

  lemma MultipleMod(q: nat, m: nat)
    requires m > 0
    ensures (q * m) % m == 0
  {
    DivMod(q * m, m, q, 0);
  }

  lemma DivTimes(a: nat, b: nat)
    requires b > 0
    ensures a / b * b <= a < a / b * b + b
  {
    assert a == a / b * b + a % b;
  }

  lemma MulBoth(a: nat, b: nat, c: nat, d: nat)
    requires a <= b && c <= d
    ensures a * c <= b * d
  {
    assert a * c <= b * c;
    assert b * c <= b * d;
  }

  /** The two bounds, computed in 32-bit words and returned through out-parameters. */
  method CalculateChunk(s: Segment, me: nat, runCpus: nat, mstrCpu: nat, makeMultipleOf: nat)
      returns (start: u32, end: u32)
    requires SegmentOk(s) && 0 < runCpus && (me < runCpus || runCpus == 1) && makeMultipleOf in {4, 64, 256}
    ensures start == Part(s, me, runCpus, mstrCpu, makeMultipleOf).0
    ensures end == Part(s, me, runCpus, mstrCpu, makeMultipleOf).1 % TWO32
  {
    hide ChunkBytes, Skip;
    if runCpus == 1 {
      SmallWord(s.end);
      start, end := s.start, s.end;
    } else {
      ChunkFits(s, me, runCpus, makeMultipleOf);
      SkipIs(s, me, runCpus, makeMultipleOf);
      var chunk := ChunkSize(s, runCpus, makeMultipleOf);
      var skip := chunk * me;
      SmallWord(s.start + skip);
      start := (s.start + skip) % TWO32;
      SmallWord(s.end);
      if me == mstrCpu {
        end := s.end;
      } else {
        end := (start + chunk - 4) % TWO32;
      }
    }
  }

  lemma SmallWord(x: int)
    ensures 0 <= x < TWO32 ==> x % TWO32 == x
  {
  }

  /** The size of a chunk; the segment's length wraps in the first word and is put right by the second. */
  method ChunkSize(s: Segment, runCpus: nat, makeMultipleOf: nat) returns (chunk: u32)
    requires SegmentOk(s) && runCpus > 0 && makeMultipleOf > 0
    ensures chunk == ChunkBytes(s, runCpus, makeMultipleOf)
  {
    hide RoundDown;
    chunk := (s.end - s.start) % TWO32;
    chunk := (chunk + 4) % TWO32;
    PerCpuSmall(s, runCpus);
    chunk := chunk / runCpus;
    chunk := RoundDown(chunk, makeMultipleOf);
  }

  lemma SkipIs(s: Segment, me: nat, runCpus: nat, multiple: nat)
    requires s.start <= s.end && runCpus > 0 && multiple > 0
    ensures Skip(s, me, runCpus, multiple) == ChunkBytes(s, runCpus, multiple) * me
  {
  }

  /** The parts of two CPUs are at least a chunk apart. */
  lemma SkipApart(s: Segment, me: nat, you: nat, runCpus: nat, multiple: nat)
    requires s.start <= s.end && runCpus > 0 && multiple > 0 && me < you
    ensures Skip(s, me, runCpus, multiple) + ChunkBytes(s, runCpus, multiple) <= Skip(s, you, runCpus, multiple)
  {
    hide ChunkBytes;
    var c := ChunkBytes(s, runCpus, multiple);
    MulBoth(c, c, me + 1, you);
    assert c * (me + 1) == c * me + c;
  }

  /** Chunks and what precedes them are whole multiples. */
  lemma SkipAligned(s: Segment, me: nat, runCpus: nat, multiple: nat, unit: nat)
    requires s.start <= s.end && runCpus > 0 && unit > 0 && multiple > 0 && multiple % unit == 0
    ensures ChunkBytes(s, runCpus, multiple) % unit == 0
    ensures Skip(s, me, runCpus, multiple) % unit == 0
  {
    var q := RoundDownMultiple(PerCpu(s, runCpus), multiple);
    hide PerCpu, RoundDown;
    var f := multiple / unit;
    assert multiple == f * unit;
    ProductMod(q, f, unit, me);
  }

  lemma ProductMod(q: nat, f: nat, unit: nat, me: nat)
    requires unit > 0
    ensures q * (f * unit) % unit == 0
    ensures q * (f * unit) * me % unit == 0
  {
    var x := q * f;
    assert q * (f * unit) == x * unit;
    MultipleMod(x, unit);
    var y := x * me;
    assert x * unit * me == y * unit;
    MultipleMod(y, unit);
  }

  /** Some chunk is non-empty exactly when the segment has a multiple to give to every CPU. */
  lemma ChunkNonEmptyIff(s: Segment, runCpus: nat, multiple: nat)
    requires SegmentOk(s) && runCpus > 0 && multiple > 0
    ensures ChunkBytes(s, runCpus, multiple) > 0 <==> Bytes(s) >= runCpus * multiple
  {
    var x := PerCpu(s, runCpus);
    var q := RoundDownMultiple(x, multiple);
    PerCpuFits(s, runCpus);
    hide PerCpu, RoundDown;
    if q >= 1 {
      MulBoth(1, q, multiple, multiple);
      MulBoth(multiple, q * multiple, 1, 1);
      ChunkAtMost(s, runCpus, multiple);
      MulBoth(multiple, x, runCpus, runCpus);
    } else {
      MulBoth(x + 1, multiple, runCpus, runCpus);
      assert (x + 1) * runCpus == x * runCpus + runCpus;
    }
  }

  lemma ChunkAtMost(s: Segment, runCpus: nat, multiple: nat)
    requires s.start <= s.end && runCpus > 0 && multiple > 0
    ensures ChunkBytes(s, runCpus, multiple) <= PerCpu(s, runCpus)
  {
  }

  predicate InPart(s: Segment, me: nat, runCpus: nat, multiple: nat, a: int)
    requires s.start <= s.end && runCpus > 0 && multiple > 0
  {
    Part(s, me, runCpus, runCpus - 1, multiple).0 <= a <= Part(s, me, runCpus, runCpus - 1, multiple).1
  }

  /** Every dword of the segment belongs to the part of exactly one CPU, and the parts hold nothing else,
      when the last CPU is the master. */
  lemma PartsPartition(s: Segment, runCpus: nat, multiple: nat, a: int)
    requires SegmentOk(s) && runCpus > 0 && multiple > 0 && a % 4 == 0 && multiple % 4 == 0
    ensures s.start <= a <= s.end ==> exists me: nat :: me < runCpus && InPart(s, me, runCpus, multiple, a)
    ensures forall me: nat | me < runCpus && InPart(s, me, runCpus, multiple, a) :: s.start <= a <= s.end
    ensures forall me: nat, you: nat | me < you < runCpus ::
              !(InPart(s, me, runCpus, multiple, a) && InPart(s, you, runCpus, multiple, a))
  {
    hide ChunkBytes, InPart;
    if s.start <= a <= s.end {
      var me := Owner(s, runCpus, multiple, a);
    }
    forall me: nat | me < runCpus && InPart(s, me, runCpus, multiple, a) ensures s.start <= a <= s.end {
      PartInside(s, me, runCpus, multiple, a);
    }
    forall me: nat, you: nat | me < you < runCpus
      ensures !(InPart(s, me, runCpus, multiple, a) && InPart(s, you, runCpus, multiple, a))
    {
      PartsDisjoint(s, me, you, runCpus, multiple, a);
    }
  }

  lemma PartInside(s: Segment, me: nat, runCpus: nat, multiple: nat, a: int)
    requires SegmentOk(s) && me < runCpus && multiple > 0 && InPart(s, me, runCpus, multiple, a)
    ensures s.start <= a <= s.end
  {
    hide ChunkBytes, Skip;
    ChunkFits(s, me, runCpus, multiple);
  }

  lemma PartsDisjoint(s: Segment, me: nat, you: nat, runCpus: nat, multiple: nat, a: int)
    requires SegmentOk(s) && me < you < runCpus && multiple > 0
    ensures !(InPart(s, me, runCpus, multiple, a) && InPart(s, you, runCpus, multiple, a))
  {
    hide ChunkBytes, Skip;
    SkipApart(s, me, you, runCpus, multiple);
  }

  lemma Owner(s: Segment, runCpus: nat, multiple: nat, a: int) returns (me: nat)
    requires SegmentOk(s) && runCpus > 0 && multiple > 0 && a % 4 == 0 && s.start <= a <= s.end && multiple % 4 == 0
    ensures me < runCpus && InPart(s, me, runCpus, multiple, a)
  {
    hide ChunkBytes, Skip;
    var d: nat := a - s.start;
    if d >= Skip(s, runCpus - 1, runCpus, multiple) {
      me := runCpus - 1;
    } else {
      me := OwnIndex(s, d, runCpus, multiple);
      SkipAligned(s, me, runCpus, multiple, 4);
      BelowMultiple(d, Skip(s, me, runCpus, multiple) + ChunkBytes(s, runCpus, multiple));
    }
  }

  lemma OwnIndex(s: Segment, d: nat, runCpus: nat, multiple: nat) returns (me: nat)
    requires s.start <= s.end && runCpus > 0 && multiple > 0 && d < Skip(s, runCpus - 1, runCpus, multiple)
    ensures me < runCpus - 1
    ensures Skip(s, me, runCpus, multiple) <= d < Skip(s, me, runCpus, multiple) + ChunkBytes(s, runCpus, multiple)
  {
    hide ChunkBytes;
    var c := ChunkBytes(s, runCpus, multiple);
    me := d / c;
    DivTimes(d, c);
    if me >= runCpus - 1 {
      MulBoth(runCpus - 1, me, c, c);
    }
  }

  lemma BelowMultiple(d: int, e: int)
    requires d < e && d % 4 == 0 && e % 4 == 0
    ensures d <= e - 4
  {
  }

  // ---------- the ranges of movinv32 ----------

  /** A part as dword indexes. */
  function RangeOf(s: Segment, me: nat, runCpus: nat): Range
    requires SegmentOk(s) && me < runCpus && ChunkBytes(s, runCpus, 256) > 0 && Bytes(s) % 256 == 0
  {
    PartAligned(s, me, runCpus);
    var (a, z) := Part(s, me, runCpus, runCpus - 1, 256);
    Range(a / 4, z / 4)
  }

  /** For a segment of whole 256-byte units, large enough for all CPUs, every CPU's part is a non-empty
      multiple of 32 dwords, as the shifting pattern needs. */
  lemma PartIsRange(s: Segment, me: nat, runCpus: nat, size: nat)
    requires SegmentOk(s) && me < runCpus && ChunkBytes(s, runCpus, 256) > 0 && Bytes(s) % 256 == 0
    requires s.end / 4 < size <= SPACE
    ensures RangeOk(RangeOf(s, me, runCpus), size)
    ensures RangeOf(s, me, runCpus).lo * 4 == Part(s, me, runCpus, runCpus - 1, 256).0
    ensures RangeOf(s, me, runCpus).hi * 4 == Part(s, me, runCpus, runCpus - 1, 256).1
  {
    hide ChunkBytes, Skip, Part;
    PartAligned(s, me, runCpus);
    var (a, z) := Part(s, me, runCpus, runCpus - 1, 256);
    QuarterRange(a, z);
  }

  lemma PartAligned(s: Segment, me: nat, runCpus: nat)
    requires SegmentOk(s) && me < runCpus && ChunkBytes(s, runCpus, 256) > 0 && Bytes(s) % 256 == 0
    ensures var (a, z) := Part(s, me, runCpus, runCpus - 1, 256);
            s.start <= a <= z <= s.end && (z - a + 4) % 256 == 0 && a % 4 == 0 && z % 4 == 0
  {
    hide ChunkBytes, Skip;
    ChunkFits(s, me, runCpus, 256);
    SkipAligned(s, me, runCpus, 256, 256);
    PastSkip(s.start, Skip(s, me, runCpus, 256), Bytes(s), ChunkBytes(s, runCpus, 256));
  }

  lemma PastSkip(start: int, skip: int, bytes: int, chunk: int)
    requires start % 4 == 0 && skip % 256 == 0 && bytes % 256 == 0 && chunk % 256 == 0
    ensures (start + skip) % 4 == 0 && (start + skip + chunk - 4) % 4 == 0 && (bytes - skip) % 256 == 0
    ensures chunk > 0 ==> chunk >= 256
    ensures bytes - skip > 0 ==> bytes - skip >= 256
  {
    var i, j, k, l := start / 4, skip / 256, bytes / 256, chunk / 256;
    assert start == 4 * i && skip == 256 * j && bytes == 256 * k && chunk == 256 * l;
    DivMod(start + skip, 4, i + 64 * j, 0);
    DivMod(start + skip + chunk - 4, 4, i + 64 * j + 64 * l - 1, 0);
    DivMod(bytes - skip, 256, k - j, 0);
  }

  lemma QuarterRange(a: nat, z: nat)
    requires a % 4 == 0 && z % 4 == 0 && a <= z && (z - a + 4) % 256 == 0
    ensures (z / 4 - a / 4 + 1) % 32 == 0 && a / 4 * 4 == a && z / 4 * 4 == z
  {
    var q := (z - a + 4) / 256;
    assert z / 4 - a / 4 + 1 == q * 64;
  }
}
