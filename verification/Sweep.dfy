/** The sweep line behind sanitize_e820_map: sorted change points, the set of open entries after a
    prefix of them, and the invariant that ties the output under construction to the input map. */
module Sweep {
  import opened E820
  import opened Words

  datatype ChangePoint = ChangePoint(addr: nat, start: bool, pbios: nat)

  function PointOf(b: seq<Entry>, i: nat, start: bool): ChangePoint
    requires i < |b|
  {
    ChangePoint(if start then b[i].addr else b[i].End(), start, i)
  }

  /** The sort order: by address, and at one address starts before ends. */
  predicate Leq(p: ChangePoint, q: ChangePoint) {
    p.addr < q.addr || (p.addr == q.addr && (p.start || !q.start))
  }

  ghost predicate Sorted(cps: seq<ChangePoint>) {
    forall i, j | 0 <= i < j < |cps| :: Leq(cps[i], cps[j])
  }

  /** cps lists the two change points of every entry, each exactly once. */
  ghost predicate AllPoints(b: seq<Entry>, cps: seq<ChangePoint>) {
    && |cps| == 2 * |b|
    && (forall j | 0 <= j < |cps| :: cps[j].pbios < |b| && cps[j] == PointOf(b, cps[j].pbios, cps[j].start))
    && (forall j, k | 0 <= j < k < |cps| :: cps[j] != cps[k])
    && (forall i, start | 0 <= i < |b| :: PointOf(b, i, start) in cps)
  }

  /** Entry i has started and not yet ended among the first n change points. */
  ghost predicate Open(b: seq<Entry>, cps: seq<ChangePoint>, n: nat, i: nat)
    requires n <= |cps| && i < |b|
  {
    PointOf(b, i, true) in cps[..n] && PointOf(b, i, false) !in cps[..n]
  }

  /** t is the largest type among the open entries, 0 when there is none. */
  ghost predicate IsOpenMax(b: seq<Entry>, cps: seq<ChangePoint>, n: nat, t: nat)
    requires n <= |cps|
  {
    && (forall i | 0 <= i < |b| && Open(b, cps, n, i) :: b[i].typ <= t)
    && (t != 0 ==> exists i :: 0 <= i < |b| && Open(b, cps, n, i) && b[i].typ == t)
  }

  /** The first n change points lie at or before address a, the others at or after it. */
  ghost predicate Frontier(cps: seq<ChangePoint>, n: nat, a: int)
    requires n <= |cps|
  {
    && (forall j | 0 <= j < n :: cps[j].addr <= a)
    && (forall j | n <= j < |cps| :: cps[j].addr >= a)
  }

  /** The change points before n at address a include the start of an entry of type above t. */
  ghost predicate RoseAbove(b: seq<Entry>, cps: seq<ChangePoint>, n: nat, a: int, t: nat)
    requires n <= |cps|
  {
    exists j :: 0 <= j < n && cps[j].start && cps[j].addr == a && cps[j].pbios < |b| && b[cps[j].pbios].typ > t
  }

  /** The output under construction: finished entries, and the run that is still open. */
  datatype Build = Build(out: seq<Entry>, lastType: u32, lastAddr: u64)

  ghost predicate BuildShape(a: int, s: Build) {
    && |s.out| < E820MAX
    && Ascending(s.out)
    && (s.lastType != 0 ==> s.lastAddr <= a)
    && (s.out != [] ==> s.out[|s.out| - 1].End() <= if s.lastType != 0 then s.lastAddr else a)
  }

  ghost predicate BuildMeaning(b: seq<Entry>, a: int, s: Build) {
    && (forall x | 0 <= x < a ::
          TypeAt(b, x) == if s.lastType != 0 && x >= s.lastAddr then s.lastType else TypeAt(s.out, x))
    && (forall x | 0 <= x < a ::
          Boundary(b, x) <==> StartsAt(s.out, x) || (s.lastType != 0 && x == s.lastAddr))
  }

  /** What is known about the change points at the frontier address itself; changed says whether one
      of them has changed the type yet. */
  ghost predicate AtFrontier(b: seq<Entry>, cps: seq<ChangePoint>, n: nat, a: int, s: Build, changed: bool)
    requires n <= |cps|
  {
    var before := TypeAt(b, a - 1);
    && (!changed ==>
          s.lastType == before && !RoseAbove(b, cps, n, a, before) && (s.lastType != 0 ==> s.lastAddr < a))
    && (changed ==>
          (RoseAbove(b, cps, n, a, before) || s.lastType < before) && (s.lastType != 0 ==> s.lastAddr == a))
    && (s.lastType < before ==> n > 0 && cps[n - 1].addr == a && !cps[n - 1].start)
  }

  ghost predicate SweepInv(b: seq<Entry>, cps: seq<ChangePoint>, n: nat, a: int, s: Build, changed: bool) {
    && n <= |cps|
    && Frontier(cps, n, a)
    && BuildShape(a, s)
    && IsOpenMax(b, cps, n, s.lastType)
    && BuildMeaning(b, a, s)
    && AtFrontier(b, cps, n, a, s, changed)
  }

  // ---------- open entries ----------

  lemma InPrefix(cps: seq<ChangePoint>, n: nat, j: nat)
    requires j < |cps| && n <= |cps|
    requires forall j, k | 0 <= j < k < |cps| :: cps[j] != cps[k]
    ensures cps[j] in cps[..n] <==> j < n
  {
    if j < n { assert cps[..n][j] == cps[j]; }
  }

  /** An entry's start point comes before its end point. */
  lemma StartBeforeEnd(b: seq<Entry>, cps: seq<ChangePoint>, i: nat) returns (s: nat, e: nat)
    requires AllPoints(b, cps) && Sorted(cps) && i < |b|
    ensures s < e < |cps| && cps[s] == PointOf(b, i, true) && cps[e] == PointOf(b, i, false)
  {
    s :| 0 <= s < |cps| && cps[s] == PointOf(b, i, true);
    e :| 0 <= e < |cps| && cps[e] == PointOf(b, i, false);
    assert !Leq(cps[e], cps[s]);
  }

  /** Strictly between the processed and the unprocessed change points, the open entries are those
      covering the address. */
  lemma OpenCovers(b: seq<Entry>, cps: seq<ChangePoint>, n: nat, x: int, i: nat)
    requires AllPoints(b, cps) && Sorted(cps) && n <= |cps| && i < |b|
    requires forall j | 0 <= j < n :: cps[j].addr <= x
    requires forall j | n <= j < |cps| :: cps[j].addr > x
    ensures Open(b, cps, n, i) <==> b[i].Covers(x)
  {
    var s, e := StartBeforeEnd(b, cps, i);
    InPrefix(cps, n, s);
    InPrefix(cps, n, e);
  }

  lemma OpenMaxIsType(b: seq<Entry>, cps: seq<ChangePoint>, n: nat, x: int, t: nat)
    requires AllPoints(b, cps) && Sorted(cps) && n <= |cps|
    requires forall j | 0 <= j < n :: cps[j].addr <= x
    requires forall j | n <= j < |cps| :: cps[j].addr > x
    requires IsOpenMax(b, cps, n, t)
    ensures TypeAt(b, x) == t
  {
    forall i | 0 <= i < |b| ensures Open(b, cps, n, i) <==> b[i].Covers(x) {
      OpenCovers(b, cps, n, x, i);
    }
    TypeAtUnique(b, x, t);
  }

  /** One more change point adds its entry to the open ones, or takes it away. */
  lemma OpenStep(b: seq<Entry>, cps: seq<ChangePoint>, n: nat, i: nat)
    requires AllPoints(b, cps) && Sorted(cps) && n < |cps| && i < |b|
    ensures cps[n].start ==> (Open(b, cps, n + 1, i) <==> Open(b, cps, n, i) || i == cps[n].pbios)
    ensures cps[n].start && i == cps[n].pbios ==> !Open(b, cps, n, i)
    ensures !cps[n].start ==> (Open(b, cps, n + 1, i) <==> Open(b, cps, n, i) && i != cps[n].pbios)
    ensures !cps[n].start && i == cps[n].pbios ==> Open(b, cps, n, i)
  {
    var s, e := StartBeforeEnd(b, cps, i);
    InPrefix(cps, n, s);
    InPrefix(cps, n, e);
    InPrefix(cps, n + 1, s);
    InPrefix(cps, n + 1, e);
  }

  lemma OpenMaxStep(b: seq<Entry>, cps: seq<ChangePoint>, n: nat, t: nat, t': nat)
    requires AllPoints(b, cps) && Sorted(cps) && n < |cps|
    requires IsOpenMax(b, cps, n, t) && IsOpenMax(b, cps, n + 1, t')
    ensures cps[n].start ==> t' == Max(t, b[cps[n].pbios].typ)
    ensures !cps[n].start ==> t' <= t
  {
    forall i | 0 <= i < |b|
      ensures cps[n].start ==> (Open(b, cps, n + 1, i) <==> Open(b, cps, n, i) || i == cps[n].pbios)
      ensures !cps[n].start && Open(b, cps, n + 1, i) ==> Open(b, cps, n, i)
    {
      OpenStep(b, cps, n, i);
    }
  }

  // ---------- moving the frontier between change points ----------

  lemma BeyondOutput(a: int, s: Build, x: int)
    requires BuildShape(a, s)
    requires x >= if s.lastType != 0 then s.lastAddr else a
    ensures TypeAt(s.out, x) == 0
    ensures !StartsAt(s.out, x)
  {
    forall i | 0 <= i < |s.out| ensures s.out[i].End() <= x {
      assert i < |s.out| - 1 ==> s.out[i].End() <= s.out[|s.out| - 1].addr;
    }
    TypeAtNone(s.out, x);
  }

  /** Once every change point at the frontier is done, the frontier is a boundary exactly when some
      change happened there (and the type is not 0). */
  lemma FrontierBoundary(b: seq<Entry>, cps: seq<ChangePoint>, n: nat, a: int, s: Build, changed: bool)
    requires AllPoints(b, cps) && Sorted(cps)
    requires SweepInv(b, cps, n, a, s, changed)
    requires forall j | n <= j < |cps| :: cps[j].addr > a
    ensures Boundary(b, a) <==> changed && s.lastType != 0
  {
    OpenMaxIsType(b, cps, n, a, s.lastType);
    var before := TypeAt(b, a - 1);
    if changed && s.lastType == before {
      var j :| 0 <= j < n && cps[j].start && cps[j].addr == a && b[cps[j].pbios].typ > before;
      assert cps[j] == PointOf(b, cps[j].pbios, true);
      assert b[cps[j].pbios].size == 0;
    }
    if !changed {
      forall i | 0 <= i < |b| && b[i].addr == a && b[i].size == 0 ensures b[i].typ <= before {
        var st, _ := StartBeforeEnd(b, cps, i);
      }
    }
  }

  /** With no change points strictly between them, the frontier may move from a to a'. */
  lemma Advance(b: seq<Entry>, cps: seq<ChangePoint>, n: nat, a: int, a': int, s: Build, changed: bool)
    requires AllPoints(b, cps) && Sorted(cps)
    requires SweepInv(b, cps, n, a, s, changed)
    requires a < a' && forall j | n <= j < |cps| :: cps[j].addr >= a'
    ensures SweepInv(b, cps, n, a', s, false)
  {
    forall x | a <= x < a'
      ensures TypeAt(b, x) == s.lastType
      ensures TypeAt(b, x) == if s.lastType != 0 && x >= s.lastAddr then s.lastType else TypeAt(s.out, x)
    {
      OpenMaxIsType(b, cps, n, x, s.lastType);
      BeyondOutput(a, s, x);
    }
    forall x | a <= x < a'
      ensures Boundary(b, x) <==> StartsAt(s.out, x) || (s.lastType != 0 && x == s.lastAddr)
    {
      BeyondOutput(a, s, x);
      if x == a {
        FrontierBoundary(b, cps, n, a, s, changed);
      } else {
        assert TypeAt(b, x - 1) == TypeAt(b, x);
        forall i | 0 <= i < |b| ensures b[i].addr != x {
          var st, _ := StartBeforeEnd(b, cps, i);
        }
      }
    }
    assert AtFrontier(b, cps, n, a', s, false);
  }

  // ---------- one change point ----------

  /** The body of the sweep loop, after the new type has been found: close the open run when the type
      changes (dropping it when it is empty), and open a new one. */
  function Emit(s: Build, a: u64, newType: u32): Build
    requires s.lastType != 0 ==> s.lastAddr <= a
  {
    if newType == s.lastType then
      s
    else
      Build(if s.lastType != 0 && a - s.lastAddr != 0 then s.out + [Entry(s.lastAddr, a - s.lastAddr, s.lastType)]
            else s.out,
            newType,
            if newType != 0 then a else s.lastAddr)
  }

  lemma AscendingSnoc(a: int, s: Build, e: Entry)
    requires BuildShape(a, s) && s.lastType != 0
    requires e.addr == s.lastAddr && e.size > 0 && e.typ != 0 && e.End() < TWO64
    ensures Ascending(s.out + [e])
  {
    forall i | 0 <= i < |s.out| ensures s.out[i].End() <= e.addr {
      assert i < |s.out| - 1 ==> s.out[i].End() <= s.out[|s.out| - 1].addr;
    }
  }

  lemma StartsAtSnoc(out: seq<Entry>, e: Entry, x: int)
    ensures StartsAt(out + [e], x) <==> StartsAt(out, x) || x == e.addr
  {
    var out' := out + [e];
    assert out'[|out|] == e;
    assert forall i | 0 <= i < |out| :: out'[i] == out[i];
  }

  lemma CloseRunAt(b: seq<Entry>, a: int, s: Build, e: Entry, x: int)
    requires BuildShape(a, s) && BuildMeaning(b, a, s) && s.lastType != 0
    requires e.addr == s.lastAddr && e.End() == a && e.typ == s.lastType
    requires 0 <= x < a
    ensures TypeAt(b, x) == TypeAt(s.out + [e], x)
    ensures Boundary(b, x) <==> StartsAt(s.out + [e], x)
  {
    hide Boundary, StartsAt;
    TypeAtSnoc(s.out, e, x);
    StartsAtSnoc(s.out, e, x);
    if x >= s.lastAddr { BeyondOutput(a, s, x); }
  }

  /** Closing a non-empty run keeps the meaning below the frontier. */
  lemma CloseRun(b: seq<Entry>, a: u64, s: Build, e: Entry)
    requires BuildShape(a, s) && BuildMeaning(b, a, s) && s.lastType != 0 && s.lastAddr < a
    requires e == Entry(s.lastAddr, a - s.lastAddr, s.lastType)
    ensures Ascending(s.out + [e])
    ensures BuildMeaning(b, a, Build(s.out + [e], 0, 0))
  {
    AscendingSnoc(a, s, e);
    forall x | 0 <= x < a
      ensures TypeAt(b, x) == TypeAt(s.out + [e], x)
      ensures Boundary(b, x) <==> StartsAt(s.out + [e], x)
    {
      CloseRunAt(b, a, s, e, x);
    }
  }

  /** Emitting at the frontier keeps shape and meaning; a table that fills up is the sanitised map. */
  lemma EmitMeaning(b: seq<Entry>, a: u64, s: Build, newType: u32)
    requires BuildShape(a, s) && BuildMeaning(b, a, s)
    requires newType != s.lastType && s.lastType != 0 && s.lastAddr < a ==> RunStops(b, a)
    ensures var s' := Emit(s, a, newType);
            if |s'.out| < E820MAX then BuildShape(a, s') && BuildMeaning(b, a, s') else IsSanitized(b, s'.out)
  {
    hide BuildMeaning, Ascending, IsSanitized, RunStops;
    var s' := Emit(s, a, newType);
    if newType != s.lastType {
      if s.lastType != 0 && s.lastAddr < a {
        var e := Entry(s.lastAddr, a - s.lastAddr, s.lastType);
        CloseRun(b, a, s, e);
        assert s'.out == s.out + [e];
        assert s'.out[|s'.out| - 1] == e;
        if |s'.out| == E820MAX {
          FullTable(b, a, s'.out);
        }
        Reopen(b, a, Build(s'.out, 0, 0), s');
      } else {
        Reopen(b, a, s, s');
      }
    }
  }

  lemma FullTable(b: seq<Entry>, a: u64, out: seq<Entry>)
    requires |out| == E820MAX && Ascending(out) && out[|out| - 1].End() == a
    requires BuildMeaning(b, a, Build(out, 0, 0)) && RunStops(b, a)
    ensures IsSanitized(b, out)
  {
    hide Boundary, StartsAt;
  }

  /** An entry covering the address of an end point is still open after it. */
  lemma CoveringStillOpen(b: seq<Entry>, cps: seq<ChangePoint>, n: nat, i: nat)
    requires AllPoints(b, cps) && Sorted(cps) && n < |cps| && !cps[n].start && i < |b|
    requires b[i].Covers(cps[n].addr)
    ensures Open(b, cps, n + 1, i)
  {
    var s, e := StartBeforeEnd(b, cps, i);
    assert !Leq(cps[n], cps[s]) && !Leq(cps[e], cps[n]);
    InPrefix(cps, n + 1, s);
    InPrefix(cps, n + 1, e);
  }

  /** The first change point that changes the type at an address really ends the run there, whatever
      other change points at that address are still to come. */
  lemma FirstChangeStopsRun(b: seq<Entry>, cps: seq<ChangePoint>, n: nat, a: int, newType: nat)
    requires AllPoints(b, cps) && Sorted(cps) && n < |cps| && cps[n].addr == a
    requires IsOpenMax(b, cps, n + 1, newType) && newType != TypeAt(b, a - 1)
    requires cps[n].start ==> newType == Max(TypeAt(b, a - 1), b[cps[n].pbios].typ)
    requires !cps[n].start ==> newType < TypeAt(b, a - 1)
    ensures RunStops(b, a)
  {
    hide Sorted;
    var p := cps[n].pbios;
    assert cps[n] == PointOf(b, p, cps[n].start);
    if cps[n].start {
      assert b[p].Covers(a) || b[p].size == 0;
    } else {
      forall i | 0 <= i < |b| && b[i].Covers(a) ensures b[i].typ <= newType {
        CoveringStillOpen(b, cps, n, i);
      }
      assert TypeAt(b, a) <= newType;
    }
  }

  /** A run opened at the frontier says nothing about addresses below it. */
  lemma Reopen(b: seq<Entry>, a: u64, s: Build, s': Build)
    requires BuildMeaning(b, a, s) && s.out == s'.out
    requires s.lastType != 0 ==> s.lastAddr == a
    requires s'.lastType != 0 ==> s'.lastAddr == a
    ensures BuildMeaning(b, a, s')
  {
    hide Boundary, StartsAt;
  }

  lemma RoseStep(b: seq<Entry>, cps: seq<ChangePoint>, n: nat, a: int, t: nat)
    requires n < |cps| && cps[n].addr == a && cps[n].pbios < |b|
    ensures RoseAbove(b, cps, n + 1, a, t)
      <==> RoseAbove(b, cps, n, a, t) || (cps[n].start && b[cps[n].pbios].typ > t)
  {
  }

  /** The bookkeeping at the frontier itself, through one change point. */
  lemma AtFrontierStep(b: seq<Entry>, cps: seq<ChangePoint>, n: nat, a: u64, s: Build, changed: bool, newType: u32)
    requires n < |cps| && cps[n].addr == a && cps[n].pbios < |b|
    requires s.lastType != 0 ==> s.lastAddr <= a
    requires n > 0 ==> Leq(cps[n - 1], cps[n])
    requires AtFrontier(b, cps, n, a, s, changed)
    requires cps[n].start ==> newType == Max(s.lastType, b[cps[n].pbios].typ)
    requires !cps[n].start ==> newType <= s.lastType
    ensures AtFrontier(b, cps, n + 1, a, Emit(s, a, newType), changed || newType != s.lastType)
  {
    RoseStep(b, cps, n, a, TypeAt(b, a - 1));
  }

  /** Processing one change point at the frontier keeps the invariant, or fills the output table. */
  lemma Step(b: seq<Entry>, cps: seq<ChangePoint>, n: nat, a: u64, s: Build, changed: bool, newType: u32)
    requires AllPoints(b, cps) && Sorted(cps)
    requires SweepInv(b, cps, n, a, s, changed)
    requires n < |cps| && cps[n].addr == a
    requires IsOpenMax(b, cps, n + 1, newType)
    ensures var s' := Emit(s, a, newType);
            if |s'.out| < E820MAX then SweepInv(b, cps, n + 1, a, s', changed || newType != s.lastType)
            else IsSanitized(b, s'.out)
  {
    OpenMaxStep(b, cps, n, s.lastType, newType);
    AtFrontierStep(b, cps, n, a, s, changed, newType);
    if newType != s.lastType && !changed {
      FirstChangeStopsRun(b, cps, n, a, newType);
    }
    EmitMeaning(b, a, s, newType);
  }

  /** Before the first change point. */
  lemma Start(b: seq<Entry>, cps: seq<ChangePoint>)
    ensures SweepInv(b, cps, 0, 0, Build([], 0, 0), false)
  {
    TypeAtNone(b, -1);
  }

  /** After the last change point. */
  lemma Finish(b: seq<Entry>, cps: seq<ChangePoint>, a: int, s: Build, changed: bool)
    requires AllPoints(b, cps) && Sorted(cps) && NoneWraps(b)
    requires SweepInv(b, cps, |cps|, a, s, changed) && a <= TWO64
    ensures IsSanitized(b, s.out)
  {
    assert cps[..|cps|] == cps;
    forall i | 0 <= i < |b| ensures !Open(b, cps, |cps|, i) {
      assert PointOf(b, i, false) in cps;
    }
    if a < TWO64 {
      Advance(b, cps, |cps|, a, TWO64, s, changed);
    }
  }
}
