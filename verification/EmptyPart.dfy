/** movinv32 on a part that is empty: the inner loops handle a dword before they look at the bound, so the
    first dword of the segment is written although it belongs to the master's part, and so is the dword
    below the segment. */
module EmptyPart {
  import opened Chunks
  import opened MovInv
  import opened Patterns
  import MovInv32
  import Parts

  /** Only the dwords on both sides of the start of r differ, and they hold below and first. */
  ghost predicate EdgeIs(m0: seq<bv32>, m: seq<bv32>, r: Range, below: bv32, first: bv32) {
    && r.hi + 1 == r.lo < |m| && SameOutside(m0, m, r.hi, r.lo + 1)
    && m[r.hi] == below && m[r.lo] == first
  }

  /** From the phase after the first dword to the one the downward pass starts from. */
  lemma Turned(p: Pattern, r: Range, off: nat, k: nat, pat: bv32)
    requires off < 32 && UpState(p, r, off, r.lo + 1, k, pat) && r.hi < r.lo
    ensures k < 32
    ensures DownState(p, Below(r), off, r.hi, (k + 31) % 32 + 1, At(p, (k + 31) % 32))
  {
    hide At;
    assert k == (off + 1) % 32;
  }

  /** Sweeping the single dword at the start of a range. */
  lemma SweptFirst(kind: Kind, m: seq<bv32>, m': seq<bv32>, p: Pattern, r: Range, off: nat, bad: nat)
    requires off < 32 && r.lo < |m| && Swept(kind, FAULT_FREE, m, m', p, r, off, r.lo, r.lo + 1, bad)
    ensures |m'| == |m| && m'[r.lo] == (if kind.Up? then !At(p, off) else At(p, off))
    ensures bad == 0 <==> kind.Fill? || m[r.lo] == if kind.Down? then !At(p, off) else At(p, off)
    ensures SameOutside(m, m', r.lo, r.lo + 1)
  {
    hide At, Word;
    MovInv32.FirstWord(p, r, off);
  }

  lemma UpEdge(kind: Kind, m0: seq<bv32>, m: seq<bv32>, m': seq<bv32>, p: Pattern, r: Range, off: nat, bad: nat,
               below: bv32, first: bv32)
    requires off < 32 && !kind.Down? && EdgeIs(m0, m, r, below, first)
    requires Swept(kind, FAULT_FREE, m, m', p, r, off, r.lo, r.lo + 1, bad)
    ensures EdgeIs(m0, m', r, below, if kind.Up? then !At(p, off) else At(p, off))
    ensures bad == 0 <==> kind.Fill? || first == At(p, off)
  {
    hide At, Swept;
    SweptFirst(kind, m, m', p, r, off, bad);
  }

  lemma DownEdge(m0: seq<bv32>, m: seq<bv32>, m': seq<bv32>, p: Pattern, r: Range, off: nat, bad: nat,
                 below: bv32, first: bv32)
    requires off < 32 && EdgeIs(m0, m, r, below, first)
    requires Swept(Down, FAULT_FREE, m, m', p, Below(r), off, r.hi, r.hi + 1, bad)
    ensures EdgeIs(m0, m', r, At(p, off), first)
    ensures bad == 0 <==> below == !At(p, off)
  {
    hide At, Swept;
    SweptFirst(Down, m, m', p, Below(r), off, bad);
  }

  /** One upward and one downward pass. */
  method Iteration(mem: array<bv32>, r: Range, p1: bv32, p: Pattern, off: nat, ghost m0: seq<bv32>,
                   ghost below: bv32, ghost first: bv32) returns (errors: nat)
    requires EmptyRange(r, mem.Length) && Reversible(p) && off < 32 && p1 == At(p, off)
    requires EdgeIs(m0, mem[..], r, below, first)
    modifies mem
    ensures EdgeIs(m0, mem[..], r, p1, !p1)
    ensures errors == 0 <==> first == p1 && below == !p1
  {
    hide Swept, EdgeIs, At, Reversible, UpState, DownState;
    ghost var m1 := mem[..];
    var k, pat, up := UpRange(Up, FAULT_FREE, mem, p, r, off, p1);
    ghost var m2 := mem[..];
    UpEdge(Up, m0, m1, m2, p, r, off, up, below, first);
    Turned(p, r, off, k, pat);
    k, pat := MovInv32.TurnAround(p, k);
    var down;
    k, pat, down := DownRange(FAULT_FREE, mem, p, r, off, k, pat);
    DownEdge(m0, m2, mem[..], p, r, off, down, below, !p1);
    errors := up + down;
  }

  /** The test, on fault-free memory, for a CPU whose part of the only segment is empty. It overwrites the
      dword below the segment, and reports errors: always when there is more than one iteration, and
      otherwise unless that dword holds the complement of the pattern by chance. */
  method MovInv32EmptyPart(mem: array<bv32>, r: Range, iter: nat, p1: bv32, p: Pattern, off: nat)
      returns (errors: nat)
    requires EmptyRange(r, mem.Length) && Reversible(p) && off < 32 && p1 == At(p, off)
    modifies mem
    ensures EdgeIs(old(mem[..]), mem[..], r, if iter > 0 then p1 else old(mem[r.hi]), if iter > 0 then !p1 else p1)
    ensures errors == 0 <==> iter == 0 || (iter == 1 && old(mem[r.hi]) == !p1)
  {
    hide Swept, EdgeIs, At, Reversible, UpState;
    ghost var m0 := mem[..];
    ghost var below, flipped := mem[r.hi], !p1;
    NotSelf(p1);
    EdgeStart(m0, r);
    var k, pat, bad := UpRange(Fill, FAULT_FREE, mem, p, r, off, p1);
    errors := bad;
    UpEdge(Fill, m0, m0, mem[..], p, r, off, bad, below, m0[r.lo]);
    var i := 0;
    while i < iter
      invariant 0 <= i <= iter
      invariant EdgeIs(m0, mem[..], r, if i > 0 then p1 else below, if i > 0 then flipped else p1)
      invariant errors == 0 <==> i == 0 || (i == 1 && below == flipped)
    {
      bad := Iteration(mem, r, p1, p, off, m0, if i > 0 then p1 else below, if i > 0 then flipped else p1);
      errors := errors + bad;
      i := i + 1;
    }
  }

  lemma EdgeStart(m: seq<bv32>, r: Range)
    requires r.hi + 1 == r.lo < |m|
    ensures EdgeIs(m, m, r, m[r.hi], m[r.lo])
  {
  }

  lemma NotSelf(x: bv32)
    ensures x != !x
  {
  }

  /** One page at 1 MB and 17 CPUs: the part of the first of them is empty, and the dword below it is
      the last of the page before. */
  lemma EmptyPartExample()
    ensures var s := Segment(0x100000, 0x100ffc);
            && Parts.WindowSegment(s)
            && Parts.PartRange(s, 0, 17, 256) == Range(0x40000, 0x3ffff)
            && EmptyRange(Parts.PartRange(s, 0, 17, 256), 0x100000)
  {
    var s := Segment(0x100000, 0x100ffc);
    Parts.PartPeriodsIff(s, 0, 17, 0x100000);
  }
}
