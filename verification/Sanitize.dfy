/** sanitize_e820_map itself: the bubble sort of the change points and the sweep over them. */
module Sanitize {
  import opened E820
  import opened Sweep
  import opened Words

  /** The sort loop's swap test. */
  predicate OutOfOrder(last: ChangePoint, current: ChangePoint)
    ensures OutOfOrder(last, current) <==> !Leq(last, current)
  {
    current.addr < last.addr || (current.addr == last.addr && current.start && !last.start)
  }

  /** From index lo on, every element is at least as large as everything before it. */
  ghost predicate Settled(cps: seq<ChangePoint>, lo: int) {
    forall i, j | 0 <= i < j < |cps| && lo <= j :: Leq(cps[i], cps[j])
  }

  ghost predicate PairsSorted(cps: seq<ChangePoint>, n: nat) {
    forall i | 0 < i < n && i < |cps| :: Leq(cps[i - 1], cps[i])
  }

  lemma PairsAreSorted(cps: seq<ChangePoint>, i: nat, j: nat)
    requires PairsSorted(cps, |cps|) && i < j < |cps|
    ensures Leq(cps[i], cps[j])
    decreases j
  {
    if i < j - 1 {
      PairsAreSorted(cps, i, j - 1);
    }
    assert Leq(cps[j - 1], cps[j]);
  }

  lemma SwapKeepsPoints(b: seq<Entry>, cps: seq<ChangePoint>, i: nat, j: nat)
    requires AllPoints(b, cps) && i < j < |cps|
    ensures AllPoints(b, cps[i := cps[j]][j := cps[i]])
  {
    var cps' := cps[i := cps[j]][j := cps[i]];
    forall k, start | 0 <= k < |b| ensures PointOf(b, k, start) in cps' {
      var p :| 0 <= p < |cps| && cps[p] == PointOf(b, k, start);
      assert cps'[if p == i then j else if p == j then i else p] == PointOf(b, k, start);
    }
  }

  /** Inside a pass, before position i is compared with its predecessor: the predecessor is a maximum
      of what precedes position i, and past the settled tail's edge one more element has settled. */
  ghost predicate PassInv(cps: seq<ChangePoint>, settled: nat, i: nat) {
    && Settled(cps, |cps| - settled)
    && (0 < i <= |cps| ==> forall k | 0 <= k < i :: Leq(cps[k], cps[i - 1]))
    && (settled < |cps| <= i + settled ==> Settled(cps, |cps| - settled - 1))
  }

  function Exchange(cps: seq<ChangePoint>, i: nat): seq<ChangePoint>
    requires 0 < i < |cps|
  {
    if OutOfOrder(cps[i - 1], cps[i]) then cps[i - 1 := cps[i]][i := cps[i - 1]] else cps
  }

  lemma PassStep(cps: seq<ChangePoint>, settled: nat, i: nat)
    requires 0 < i < |cps| && settled <= |cps| && PassInv(cps, settled, i)
    ensures OutOfOrder(cps[i - 1], cps[i]) ==> i < |cps| - settled
    ensures PassInv(Exchange(cps, i), settled, i + 1)
  {
  }

  lemma ExchangeKeepsPoints(b: seq<Entry>, cps: seq<ChangePoint>, i: nat)
    requires 0 < i < |cps| && AllPoints(b, cps)
    ensures AllPoints(b, Exchange(cps, i))
  {
    SwapKeepsPoints(b, cps, i - 1, i);
  }

  /** Swaps two neighbours when they are out of order. */
  method CompareExchange(cp: array<ChangePoint>, n: nat, i: nat) returns (swapped: bool)
    requires 0 < i < n <= cp.Length
    modifies cp
    ensures cp[..n] == Exchange(old(cp[..n]), i)
    ensures swapped <==> OutOfOrder(old(cp[i - 1]), old(cp[i]))
  {
    swapped := OutOfOrder(cp[i - 1], cp[i]);
    if swapped {
      cp[i], cp[i - 1] := cp[i - 1], cp[i];
    }
  }

  /** One pass of the bubble sort; the tail from index n - settled on is already in place. */
  method SortPass(cp: array<ChangePoint>, n: nat, ghost b: seq<Entry>, ghost settled: nat) returns (changing: bool)
    requires n <= cp.Length && settled <= n
    requires AllPoints(b, cp[..n]) && Settled(cp[..n], n - settled)
    modifies cp
    ensures AllPoints(b, cp[..n]) && Settled(cp[..n], n - settled - 1)
    ensures settled == n ==> !changing
    ensures !changing ==> cp[..n] == old(cp[..n]) && PairsSorted(cp[..n], n)
  {
    changing := false;
    var i := 1;
    while i < n
      invariant 1 <= i <= Max(1, n)
      invariant AllPoints(b, cp[..n])
      invariant PassInv(cp[..n], settled, i)
      invariant settled == n ==> !changing
      invariant !changing ==> cp[..n] == old(cp[..n]) && PairsSorted(cp[..n], i)
    {
      PassStep(cp[..n], settled, i);
      ExchangeKeepsPoints(b, cp[..n], i);
      var swapped := CompareExchange(cp, n, i);
      changing := changing || swapped;
      i := i + 1;
    }
  }

  /** Sorts the first n change points. Every pass settles one more element, so it terminates. */
  method SortChangePoints(cp: array<ChangePoint>, n: nat, ghost b: seq<Entry>)
    requires n <= cp.Length && AllPoints(b, cp[..n])
    modifies cp
    ensures AllPoints(b, cp[..n]) && Sorted(cp[..n])
  {
    var stillChanging := true;
    ghost var settled := 0;
    while stillChanging
      invariant settled <= n
      invariant AllPoints(b, cp[..n]) && Settled(cp[..n], n - settled)
      invariant !stillChanging ==> PairsSorted(cp[..n], n)
      decreases n - settled, stillChanging
    {
      stillChanging := SortPass(cp, n, b, settled);
      if settled < n {
        settled := settled + 1;
      }
    }
    forall i, j | 0 <= i < j < n ensures Leq(cp[..n][i], cp[..n][j]) {
      PairsAreSorted(cp[..n], i, j);
    }
  }

  // ---------- the overlap list ----------

  ghost predicate Distinct(s: seq<nat>) {
    forall i, j | 0 <= i < j < |s| :: s[i] != s[j]
  }

  /** The overlap list names exactly the open entries, each once. */
  ghost predicate ListsOpen(b: seq<Entry>, cps: seq<ChangePoint>, n: nat, overlap: seq<nat>)
    requires n <= |cps|
  {
    && Distinct(overlap)
    && (forall j | 0 <= j < |overlap| :: overlap[j] < |b|)
    && (forall i | 0 <= i < |b| :: i in overlap <==> Open(b, cps, n, i))
  }

  lemma {:induction false} DistinctBounded(s: seq<nat>, k: nat)
    requires Distinct(s) && forall j | 0 <= j < |s| :: s[j] < k
    ensures |s| <= k
  {
    if k > 0 {
      if k - 1 in s {
        var j :| 0 <= j < |s| && s[j] == k - 1;
        DistinctBounded(s[..j] + s[j + 1..], k - 1);
      } else {
        DistinctBounded(s, k - 1);
      }
    }
  }

  /** Removes p by overwriting it with the last element and shortening the list. */
  method RemoveOverlap(overlap: array<nat>, n: nat, p: nat)
    requires 0 < n <= overlap.Length
    requires Distinct(overlap[..n]) && p in overlap[..n]
    modifies overlap
    ensures Distinct(overlap[..n - 1])
    ensures forall q :: q in overlap[..n - 1] <==> q in old(overlap[..n]) && q != p
  {
    ghost var was := overlap[..n];
    ghost var at :| 0 <= at < n && was[at] == p;
    var i := 0;
    while i < n
      invariant 0 <= i <= n
      invariant overlap[..n] == if i <= at then was else was[at := was[n - 1]]
    {
      if overlap[i] == p {
        overlap[i] := overlap[n - 1];
      }
      i := i + 1;
    }
    forall q
      ensures q in overlap[..n - 1] <==> q in was && q != p
    {
      if q in was && q != p {
        var j :| 0 <= j < n && was[j] == q;
        assert overlap[..n - 1][if j == n - 1 then at else j] == q;
      }
    }
  }

  lemma ListedMax(b: seq<Entry>, cps: seq<ChangePoint>, n: nat, overlap: seq<nat>, t: nat)
    requires n <= |cps| && ListsOpen(b, cps, n, overlap)
    requires forall j | 0 <= j < |overlap| :: b[overlap[j]].typ <= t
    requires t != 0 ==> exists j :: 0 <= j < |overlap| && b[overlap[j]].typ == t
    ensures IsOpenMax(b, cps, n, t)
  {
    forall i | 0 <= i < |b| && Open(b, cps, n, i) ensures b[i].typ <= t {
      var j :| 0 <= j < |overlap| && overlap[j] == i;
    }
    if t != 0 {
      var j :| 0 <= j < |overlap| && b[overlap[j]].typ == t;
      assert overlap[j] in overlap;
    }
  }

  /** The largest type among the entries on the overlap list. */
  method LargestType(biosmap: array<Entry>, overlap: array<nat>, n: nat,
                     ghost b: seq<Entry>, ghost cps: seq<ChangePoint>, ghost m: nat) returns (t: u32)
    requires n <= overlap.Length && |b| <= biosmap.Length && b == biosmap[..|b|]
    requires m <= |cps| && ListsOpen(b, cps, m, overlap[..n])
    ensures IsOpenMax(b, cps, m, t)
  {
    t := 0;
    var i := 0;
    ghost var listed := overlap[..n];
    while i < n
      invariant 0 <= i <= n
      invariant forall j | 0 <= j < i :: b[listed[j]].typ <= t
      invariant t != 0 ==> exists j :: 0 <= j < i && b[listed[j]].typ == t
    {
      assert overlap[i] == listed[i];
      if biosmap[overlap[i]].typ > t {
        t := biosmap[overlap[i]].typ;
      }
      i := i + 1;
    }
    ListedMax(b, cps, m, listed, t);
  }

  lemma PushOpen(b: seq<Entry>, cps: seq<ChangePoint>, m: nat, overlap: seq<nat>)
    requires AllPoints(b, cps) && Sorted(cps) && m < |cps| && cps[m].start
    requires ListsOpen(b, cps, m, overlap)
    ensures |overlap| < |b|
    ensures ListsOpen(b, cps, m + 1, overlap + [cps[m].pbios])
  {
    var p := cps[m].pbios;
    var pushed := overlap + [p];
    OpenStep(b, cps, m, p);
    forall i | 0 <= i < |b| ensures i in pushed <==> Open(b, cps, m + 1, i) {
      OpenStep(b, cps, m, i);
      assert i in pushed <==> i in overlap || i == p;
    }
    DistinctBounded(pushed, |b|);
  }

  lemma PopOpen(b: seq<Entry>, cps: seq<ChangePoint>, m: nat, overlap: seq<nat>, popped: seq<nat>)
    requires AllPoints(b, cps) && Sorted(cps) && m < |cps| && !cps[m].start
    requires ListsOpen(b, cps, m, overlap)
    requires Distinct(popped) && forall q :: q in popped <==> q in overlap && q != cps[m].pbios
    ensures ListsOpen(b, cps, m + 1, popped)
  {
    forall i | 0 <= i < |b| ensures i in popped <==> Open(b, cps, m + 1, i) {
      OpenStep(b, cps, m, i);
    }
    forall j | 0 <= j < |popped| ensures popped[j] < |b| {
      assert popped[j] in popped;
    }
  }

  /** Keeps the overlap list through one change point: a start is appended, an end removed. */
  method UpdateOverlap(overlap: array<nat>, n: nat, point: ChangePoint,
                       ghost b: seq<Entry>, ghost cps: seq<ChangePoint>, ghost m: nat)
      returns (n': nat)
    requires AllPoints(b, cps) && Sorted(cps) && m < |cps| && point == cps[m]
    requires |b| <= overlap.Length && n <= overlap.Length
    requires ListsOpen(b, cps, m, overlap[..n])
    modifies overlap
    ensures n' <= overlap.Length && ListsOpen(b, cps, m + 1, overlap[..n'])
  {
    ghost var was := overlap[..n];
    if point.start {
      PushOpen(b, cps, m, was);
      overlap[n] := point.pbios;
      n' := n + 1;
      assert overlap[..n'] == was + [point.pbios];
    } else {
      OpenStep(b, cps, m, point.pbios);
      RemoveOverlap(overlap, n, point.pbios);
      n' := n - 1;
      PopOpen(b, cps, m, was, overlap[..n']);
    }
  }

  // ---------- the whole function ----------

  /** Lists both change points of every entry, in map order. */
  method RecordChangePoints(biosmap: array<Entry>, n: nat, cp: array<ChangePoint>)
    requires n <= biosmap.Length && 2 * n <= cp.Length
    modifies cp
    ensures AllPoints(biosmap[..n], cp[..2 * n])
  {
    var chgidx := 0;
    var i := 0;
    ghost var b := biosmap[..n];
    while i < n
      invariant 0 <= i <= n && chgidx == 2 * i
      invariant forall j | 0 <= j < chgidx :: cp[j] == PointOf(b, j / 2, j % 2 == 0)
    {
      cp[chgidx] := ChangePoint(biosmap[i].addr, true, i);
      chgidx := chgidx + 1;
      cp[chgidx] := ChangePoint(biosmap[i].addr + biosmap[i].size, false, i);
      chgidx := chgidx + 1;
      i := i + 1;
    }
    ghost var cps := cp[..2 * n];
    forall k, start | 0 <= k < n ensures PointOf(b, k, start) in cps {
      assert cps[if start then 2 * k else 2 * k + 1] == PointOf(b, k, start);
    }
  }

  /** Sanitises the first oldNr entries of origMap into newBios and returns how many entries it made.
      A map with a wrapping entry is refused by returning 0. */
  method SanitizeE820Map(origMap: array<Entry>, newBios: array<Entry>, oldNr: nat) returns (newNr: nat)
    requires oldNr <= origMap.Length && oldNr <= E820MAX && newBios.Length == E820MAX && newBios != origMap
    modifies newBios
    ensures newNr <= E820MAX
    ensures NoneWraps(origMap[..oldNr]) ==> IsSanitized(origMap[..oldNr], newBios[..newNr])
    ensures !NoneWraps(origMap[..oldNr]) ==> newNr == 0 && newBios[..] == old(newBios[..])
  {
    var biosmap := new Entry[E820MAX];
    var i := 0;
    while i < oldNr
      invariant 0 <= i <= oldNr
      invariant biosmap[..i] == origMap[..i]
      modifies biosmap
    {
      biosmap[i] := origMap[i];
      i := i + 1;
    }
    ghost var b := origMap[..oldNr];
    assert biosmap[..oldNr] == b;

    i := 0;
    while i < oldNr
      invariant 0 <= i <= oldNr
      invariant forall k | 0 <= k < i :: !b[k].Wraps()
    {
      if (biosmap[i].addr + biosmap[i].size) % TWO64 < biosmap[i].addr {
        assert b[i].Wraps();
        return 0;
      }
      i := i + 1;
    }

    var changePoint := new ChangePoint[2 * E820MAX];
    RecordChangePoints(biosmap, oldNr, changePoint);
    SortChangePoints(changePoint, 2 * oldNr, b);
    newNr := SweepChangePoints(biosmap, oldNr, changePoint, newBios);
  }

  /** The tail of the sweep loop's body: finish the open run and open the next one, in the output
      table itself. The entry at index n is the open run, not yet counted. */
  method EmitEntry(newBios: array<Entry>, n: nat, lastType: u32, lastAddr: u64, addr: u64, currentType: u32)
      returns (n': nat, lastType': u32, lastAddr': u64)
    requires newBios.Length == E820MAX && n < E820MAX
    requires lastType != 0 ==> lastAddr <= addr && newBios[n].addr == lastAddr && newBios[n].typ == lastType
    modifies newBios
    ensures n' <= E820MAX
    ensures newBios[..n'] == Emit(Build(old(newBios[..n]), lastType, lastAddr), addr, currentType).out
    ensures n' < E820MAX ==>
              Build(newBios[..n'], lastType', lastAddr')
              == Emit(Build(old(newBios[..n]), lastType, lastAddr), addr, currentType)
    ensures n' < E820MAX && lastType' != 0 ==> newBios[n'].addr == lastAddr' && newBios[n'].typ == lastType'
  {
    n', lastType', lastAddr' := n, lastType, lastAddr;
    if currentType != lastType {
      if lastType != 0 {
        newBios[n] := newBios[n].(size := addr - lastAddr);
        if newBios[n].size != 0 {
          n' := n + 1;
          if n' >= E820MAX {
            return;
          }
        }
      }
      if currentType != 0 {
        newBios[n'] := newBios[n'].(addr := addr, typ := currentType);
        lastAddr' := addr;
      }
      lastType' := currentType;
    }
  }

  /** The sweep: one output entry per maximal run between boundaries, until the table is full. */
  method SweepChangePoints(biosmap: array<Entry>, oldNr: nat, changePoint: array<ChangePoint>,
                           newBios: array<Entry>)
      returns (newBiosEntry: nat)
    requires oldNr <= biosmap.Length && oldNr <= E820MAX && newBios.Length == E820MAX && newBios != biosmap
    requires 2 * oldNr <= changePoint.Length
    requires NoneWraps(biosmap[..oldNr])
    requires AllPoints(biosmap[..oldNr], changePoint[..2 * oldNr]) && Sorted(changePoint[..2 * oldNr])
    modifies newBios
    ensures newBiosEntry <= E820MAX
    ensures IsSanitized(old(biosmap[..oldNr]), newBios[..newBiosEntry])
  {
    hide *;
    ghost var b := biosmap[..oldNr];
    ghost var cps := changePoint[..2 * oldNr];
    var overlapList := new nat[E820MAX];
    var overlapEntries := 0;
    newBiosEntry := 0;
    var lastType: u32 := 0;
    var lastAddr: u64 := 0;
    var chgidx := 0;
    StartSwept(b, cps);
    assert newBios[..0] == [] && overlapList[..0] == [];
    while chgidx < 2 * oldNr
      invariant 0 <= chgidx <= 2 * oldNr
      invariant 0 <= overlapEntries <= E820MAX && ListsOpen(b, cps, chgidx, overlapList[..overlapEntries])
      invariant newBiosEntry < E820MAX
      invariant Swept(b, cps, chgidx, Build(newBios[..newBiosEntry], lastType, lastAddr))
      invariant lastType != 0 ==> newBios[newBiosEntry].addr == lastAddr && newBios[newBiosEntry].typ == lastType
      modifies newBios, overlapList
    {
      var point := changePoint[chgidx];
      overlapEntries := UpdateOverlap(overlapList, overlapEntries, point, b, cps, chgidx);
      var currentType := LargestType(biosmap, overlapList, overlapEntries, b, cps, chgidx + 1);
      SweepPoint(b, cps, chgidx, Build(newBios[..newBiosEntry], lastType, lastAddr), currentType);
      newBiosEntry, lastType, lastAddr :=
        EmitEntry(newBios, newBiosEntry, lastType, lastAddr, point.addr, currentType);
      if newBiosEntry >= E820MAX {
        return;
      }
      chgidx := chgidx + 1;
    }
    FinishSwept(b, cps, Build(newBios[..newBiosEntry], lastType, lastAddr));
  }

  lemma WrapsPastEnd(e: Entry)
    ensures e.Wraps() <==> e.End() >= TWO64
  {
    if e.End() >= TWO64 {
      assert (e.addr + e.size) % TWO64 == e.addr + e.size - TWO64;
    }
  }

  lemma PointBelow64(b: seq<Entry>, cps: seq<ChangePoint>, n: nat)
    requires AllPoints(b, cps) && NoneWraps(b) && n < |cps|
    ensures cps[n].addr < TWO64
  {
    WrapsPastEnd(b[cps[n].pbios]);
  }

  /** The sweep invariant, for some frontier. */
  ghost predicate Swept(b: seq<Entry>, cps: seq<ChangePoint>, n: nat, s: Build) {
    exists a: u64, changed: bool :: SweepInv(b, cps, n, a, s, changed)
  }

  /** Moves the frontier up to the next change point. */
  lemma Reach(b: seq<Entry>, cps: seq<ChangePoint>, n: nat, a: u64, s: Build, changed: bool)
      returns (changed': bool)
    requires AllPoints(b, cps) && Sorted(cps)
    requires SweepInv(b, cps, n, a, s, changed) && n < |cps|
    ensures SweepInv(b, cps, n, cps[n].addr, s, changed')
  {
    changed' := changed;
    if a < cps[n].addr {
      assert forall j | n < j < |cps| :: Leq(cps[n], cps[j]);
      Advance(b, cps, n, a, cps[n].addr, s, changed);
      changed' := false;
    }
  }

  /** One round of the sweep loop: emitting the largest open type at the change point keeps the
      invariant or fills the table. */
  lemma SweepPoint(b: seq<Entry>, cps: seq<ChangePoint>, n: nat, s: Build, t: u32)
    requires AllPoints(b, cps) && Sorted(cps) && NoneWraps(b)
    requires n < |cps| && Swept(b, cps, n, s) && IsOpenMax(b, cps, n + 1, t)
    ensures cps[n].addr < TWO64 && (s.lastType != 0 ==> s.lastAddr <= cps[n].addr)
    ensures var s' := Emit(s, cps[n].addr, t);
            if |s'.out| < E820MAX then Swept(b, cps, n + 1, s') else IsSanitized(b, s'.out)
  {
    PointBelow64(b, cps, n);
    var a: u64, changed :| SweepInv(b, cps, n, a, s, changed);
    var changed' := Reach(b, cps, n, a, s, changed);
    Step(b, cps, n, cps[n].addr, s, changed', t);
  }

  lemma StartSwept(b: seq<Entry>, cps: seq<ChangePoint>)
    ensures 0 < E820MAX && ListsOpen(b, cps, 0, []) && Swept(b, cps, 0, Build([], 0, 0))
  {
    Start(b, cps);
  }

  lemma FinishSwept(b: seq<Entry>, cps: seq<ChangePoint>, s: Build)
    requires AllPoints(b, cps) && Sorted(cps) && NoneWraps(b)
    requires Swept(b, cps, |cps|, s)
    ensures IsSanitized(b, s.out)
  {
    var a: u64, changed :| SweepInv(b, cps, |cps|, a, s, changed);
    Finish(b, cps, a, s, changed);
  }
}
