/** The window schedule of a test: which pages of the page map are tested, and how often. */
module Windows {
  import opened Canonical
  import opened E820
  import opened PageMap
  import opened PageTheorems
  import opened Words

  const MAX_MEM := 0x7FF00000
  const WIN_SZ := 0x80000
  const WIN0_START := 0x100

  /** A tested window: its number and the page ranges of its segments. */
  datatype Tested = Tested(window: nat, segs: seq<PMap>)

  function Higher(a: int, b: int): int {
    if a < b then b else a
  }

  function Lower(a: int, b: int): int {
    if a < b then a else b
  }

  lemma InPagesSnoc(pm: seq<PMap>, r: PMap, p: int)
    ensures InPages(pm + [r], p) <==> InPages(pm, p) || r.start <= p < r.end
  {
    var pm' := pm + [r];
    if InPages(pm, p) {
      var k :| 0 <= k < |pm| && pm[k].start <= p < pm[k].end;
      assert pm'[k] == pm[k];
    }
    assert pm'[|pm|] == r;
  }

  /** Segments that lie between two pages, inside the limits, and in order when the map's ranges are. */
  ghost predicate SegmentsIn(v: Vars, segs: seq<PMap>, start: nat, end: nat)
    requires v.Valid()
    reads v, v.pmap
  {
    && (forall i | 0 <= i < |segs| ::
          Higher(start, v.plimLower) <= segs[i].start < segs[i].end <= Lower(end, v.plimUpper))
    && (RangesAscending(v.Pages()) ==> RangesAscending(segs))
  }

  /** A segment that ends in one of the first n ranges of the map. */
  ghost predicate EndsAmong(pm: seq<PMap>, n: nat, r: PMap) {
    exists j :: 0 <= j < n && j < |pm| && r.end <= pm[j].end
  }

  lemma AscendingSnoc(pm: seq<PMap>, i: nat, segs: seq<PMap>, r: PMap)
    requires RangesAscending(pm) && i < |pm|
    requires RangesAscending(segs) && forall k | 0 <= k < |segs| :: EndsAmong(pm, i, segs[k])
    requires r.start < r.end && pm[i].start <= r.start && r.end <= pm[i].end
    ensures RangesAscending(segs + [r]) && forall k | 0 <= k < |segs + [r]| :: EndsAmong(pm, i + 1, (segs + [r])[k])
  {
    var segs' := segs + [r];
    forall k | 0 <= k < |segs'| ensures EndsAmong(pm, i + 1, segs'[k]) {
      if k < |segs| {
        assert EndsAmong(pm, i, segs[k]);
      }
    }
    forall j, k | 0 <= j < k < |segs'| ensures segs'[j].end <= segs'[k].start {
      if k == |segs| {
        assert EndsAmong(pm, i, segs[j]);
      }
    }
  }

  lemma EndsAmongMore(pm: seq<PMap>, i: nat, segs: seq<PMap>)
    requires forall k | 0 <= k < |segs| :: EndsAmong(pm, i, segs[k])
    ensures forall k | 0 <= k < |segs| :: EndsAmong(pm, i + 1, segs[k])
  {
    forall k | 0 <= k < |segs| ensures EndsAmong(pm, i + 1, segs[k]) {
      assert EndsAmong(pm, i, segs[k]);
    }
  }

  /** The segments that the first i ranges of the map leave between pages lo and hi. */
  ghost predicate Clipped(pm: seq<PMap>, i: nat, segs: seq<PMap>, lo: int, hi: int)
    requires i <= |pm|
  {
    && |segs| <= i
    && (forall p :: InPages(segs, p) <==> InPages(pm[..i], p) && lo <= p < hi)
    && (forall j | 0 <= j < |segs| :: lo <= segs[j].start < segs[j].end <= hi)
    && (RangesAscending(pm) ==> RangesAscending(segs) && forall j | 0 <= j < |segs| :: EndsAmong(pm, i, segs[j]))
  }

  lemma ClippedMore(pm: seq<PMap>, i: nat, segs: seq<PMap>, lo: int, hi: int)
    requires i < |pm| && Clipped(pm, i, segs, lo, hi)
    ensures var s, e := Higher(pm[i].start, lo), Lower(pm[i].end, hi);
            Clipped(pm, i + 1, if s < e then segs + [PMap(s, e)] else segs, lo, hi)
  {
    hide RangesAscending, EndsAmong, InPages;
    var s, e := Higher(pm[i].start, lo), Lower(pm[i].end, hi);
    var segs' := if s < e then segs + [PMap(s, e)] else segs;
    assert pm[..i + 1] == pm[..i] + [pm[i]];
    forall p ensures InPages(segs', p) <==> InPages(pm[..i + 1], p) && lo <= p < hi {
      InPagesSnoc(pm[..i], pm[i], p);
      if s < e {
        InPagesSnoc(segs, PMap(s, e), p);
      }
    }
    if RangesAscending(pm) {
      if s < e {
        AscendingSnoc(pm, i, segs, PMap(s, e));
      } else {
        EndsAmongMore(pm, i, segs);
      }
    }
  }

  lemma NoSegments(v: Vars, start: nat, end: nat)
    requires v.Valid()
    ensures SegmentsIn(v, [], start, end)
    ensures forall p :: !InPages([], p)
    ensures forall lo, hi :: Clipped(v.Pages(), 0, [], lo, hi)
  {
  }

  /** The segments of a window: the pages of the map that lie in the window and inside the limits. */
  method ComputeSegments(v: Vars, start: nat, end: nat) returns (segs: seq<PMap>)
    requires v.Valid()
    ensures forall p :: InPages(segs, p) <==>
              InPages(v.Pages(), p) && Higher(start, v.plimLower) <= p < Lower(end, v.plimUpper)
    ensures |segs| <= v.msegs
    ensures SegmentsIn(v, segs, start, end)
  {
    hide RangesAscending, EndsAmong, InPages, Clipped, SegmentsIn;
    NoSegments(v, start, end);
    var wstart, wend := start, end;
    if wstart < v.plimLower {
      wstart := v.plimLower;
    }
    if wend > v.plimUpper {
      wend := v.plimUpper;
    }
    segs := [];
    if wstart >= wend {
      return;
    }
    var i := 0;
    while i < v.msegs
      invariant 0 <= i <= v.msegs
      invariant Clipped(v.Pages(), i, segs, wstart, wend)
    {
      var s, e := v.pmap[i].start, v.pmap[i].end;
      if s <= wstart {
        s := wstart;
      }
      if e >= wend {
        e := wend;
      }
      ClippedMore(v.Pages(), i, segs, wstart, wend);
      if s < e && s < wend && e > wstart {
        segs := segs + [PMap(s, e)];
      }
      i := i + 1;
    }
    ClippedAll(v, segs, start, end);
  }

  lemma ClippedAll(v: Vars, segs: seq<PMap>, start: nat, end: nat)
    requires v.Valid() && Clipped(v.Pages(), v.msegs, segs, Higher(start, v.plimLower), Lower(end, v.plimUpper))
    ensures forall p :: InPages(segs, p) <==>
              InPages(v.Pages(), p) && Higher(start, v.plimLower) <= p < Lower(end, v.plimUpper)
    ensures |segs| <= v.msegs && SegmentsIn(v, segs, start, end)
  {
    hide InPages, RangesAscending, EndsAmong;
    assert v.Pages()[..v.msegs] == v.Pages();
  }

  // ---------- the schedule ----------

  /** Page p is tested in some window from number 1 on. */
  ghost predicate TestedIn(tests: seq<Tested>, p: int) {
    exists t :: 0 <= t < |tests| && tests[t].window >= 1 && InPages(tests[t].segs, p)
  }

  /** Page p is tested in the low window, number 0. */
  ghost predicate TestedLow(tests: seq<Tested>, p: int) {
    exists t :: 0 <= t < |tests| && tests[t].window == 0 && InPages(tests[t].segs, p)
  }

  /** No page is tested in two windows from number 1 on. */
  ghost predicate NoneTwice(tests: seq<Tested>) {
    forall t, u, p |
      0 <= t < u < |tests| && tests[t].window >= 1 && tests[u].window >= 1 && InPages(tests[t].segs, p) ::
      !InPages(tests[u].segs, p)
  }

  /** Pages of windows from number 1 on, counted window by window. */
  ghost function PagesTested(tests: seq<Tested>): nat {
    if tests == [] then
      0
    else
      var t := tests[|tests| - 1];
      PagesTested(tests[..|tests| - 1]) + if t.window >= 1 then |PageSet(t.segs, 0, TWO32)| else 0
  }

  lemma TestedSnoc(tests: seq<Tested>, t: Tested, p: int)
    ensures TestedIn(tests + [t], p) <==> TestedIn(tests, p) || (t.window >= 1 && InPages(t.segs, p))
    ensures TestedLow(tests + [t], p) <==> TestedLow(tests, p) || (t.window == 0 && InPages(t.segs, p))
  {
    var tests' := tests + [t];
    assert tests'[|tests|] == t;
    assert forall k | 0 <= k < |tests| :: tests'[k] == tests[k];
  }

  /** The pages of the map inside the limits, from page a up to page b. */
  ghost predicate Within(v: Vars, a: int, b: int, p: int)
    requires v.Valid()
    reads v, v.pmap
  {
    InPages(v.Pages(), p) && Higher(a, v.plimLower) <= p < Lower(b, v.plimUpper)
  }

  /** What has been tested once the windows have reached page `reached`. */
  ghost predicate Covered(v: Vars, tests: seq<Tested>, reached: nat)
    requires v.Valid()
    reads v, v.pmap
  {
    && (forall p :: TestedIn(tests, p) <==> Within(v, WIN0_START, reached, p))
    && NoneTwice(tests)
    && PagesTested(tests) == |PageSet(v.Pages(), Higher(WIN0_START, v.plimLower), Lower(reached, v.plimUpper))|
  }

  lemma NoneTwiceSnoc(v: Vars, tests: seq<Tested>, t: Tested, a: nat)
    requires v.Valid() && NoneTwice(tests)
    requires forall p :: TestedIn(tests, p) <==> Within(v, WIN0_START, a, p)
    requires t.window >= 1 ==> forall p | InPages(t.segs, p) :: p >= a
    ensures NoneTwice(tests + [t])
  {
    var tests' := tests + [t];
    forall x, u, p |
      0 <= x < u < |tests'| && tests'[x].window >= 1 && tests'[u].window >= 1 && InPages(tests'[x].segs, p)
      ensures !InPages(tests'[u].segs, p)
    {
      if u == |tests| {
        assert TestedIn(tests, p);
      }
    }
  }

  lemma PageSetSplit(pm: seq<PMap>, a: int, b: int, c: int)
    requires a <= b <= c
    ensures |PageSet(pm, a, c)| == |PageSet(pm, a, b)| + |PageSet(pm, b, c)|
  {
    assert PageSet(pm, a, c) == PageSet(pm, a, b) + PageSet(pm, b, c);
    assert PageSet(pm, a, b) !! PageSet(pm, b, c);
  }

  lemma SegsCount(v: Vars, segs: seq<PMap>, lo: int, a: int, b: int)
    requires v.Valid() && 0 <= lo <= a <= b && lo == WIN0_START
    requires forall p :: InPages(segs, p) <==> Within(v, a, b, p)
    ensures |PageSet(v.Pages(), Higher(lo, v.plimLower), Lower(a, v.plimUpper))| + |PageSet(segs, 0, TWO32)|
         == |PageSet(v.Pages(), Higher(lo, v.plimLower), Lower(b, v.plimUpper))|
  {
    var pm, l := v.Pages(), Higher(lo, v.plimLower);
    var x, y := Lower(a, v.plimUpper), Lower(b, v.plimUpper);
    assert PageSet(segs, 0, TWO32) == PageSet(pm, Higher(a, v.plimLower), y);
    if l <= x {
      PageSetSplit(pm, l, x, y);
      assert PageSet(pm, Higher(a, v.plimLower), y) == PageSet(pm, x, y);
    } else {
      assert PageSet(pm, l, x) == {};
      assert PageSet(pm, Higher(a, v.plimLower), y) == PageSet(pm, l, y);
    }
  }

  /** One more window, from page a to page b. */
  lemma CoverMore(v: Vars, tests: seq<Tested>, t: Tested, a: nat, b: nat)
    requires v.Valid() && Covered(v, tests, a) && WIN0_START <= a <= b && t.window >= 1
    requires forall p :: InPages(t.segs, p) <==> Within(v, a, b, p)
    ensures Covered(v, tests + [t], b)
  {
    forall p ensures TestedIn(tests + [t], p) <==> Within(v, WIN0_START, b, p) {
      TestedSnoc(tests, t, p);
    }
    NoneTwiceSnoc(v, tests, t, a);
    SegsCount(v, t.segs, WIN0_START, a, b);
    assert (tests + [t])[..|tests|] == tests;
  }

  lemma CoverSkip(v: Vars, tests: seq<Tested>, a: nat, b: nat)
    requires v.Valid() && Covered(v, tests, a) && WIN0_START <= a <= b
    requires forall p :: !Within(v, a, b, p)
    ensures Covered(v, tests, b)
  {
    forall p ensures Within(v, WIN0_START, a, p) <==> Within(v, WIN0_START, b, p) {
      assert !Within(v, a, b, p);
    }
    assert forall p :: !InPages([], p);
    SegsCount(v, [], WIN0_START, a, b);
    assert PageSet([], 0, TWO32) == {};
  }

  lemma CoverLow(v: Vars, tests: seq<Tested>, t: Tested, a: nat)
    requires v.Valid() && Covered(v, tests, a) && t.window == 0
    ensures Covered(v, tests + [t], a)
  {
    forall p ensures TestedIn(tests + [t], p) <==> TestedIn(tests, p) {
      TestedSnoc(tests, t, p);
    }
    NoneTwiceSnoc(v, tests, t, a);
    assert (tests + [t])[..|tests|] == tests;
  }

  /** Whether the low window is used: not for the bit fade test, and not when the limits exclude it. */
  predicate UsesLow(v: Vars, bitFade: bool)
    reads v
  {
    !bitFade && v.plimLower < WIN0_START
  }

  /** The low window has tested its pages, if it is used at all. */
  ghost predicate LowTested(v: Vars, tests: seq<Tested>, used: bool, win1End: nat)
    requires v.Valid()
    reads v, v.pmap
  {
    forall p :: TestedLow(tests, p) <==> used && Within(v, 0, win1End, p)
  }

  /** The list of tested windows after one more window, which is skipped when it has no segments. */
  function Append(tests: seq<Tested>, number: nat, segs: seq<PMap>): seq<Tested> {
    if |segs| == 0 then tests else tests + [Tested(number, segs)]
  }

  lemma AppendHigh(v: Vars, tests: seq<Tested>, number: nat, segs: seq<PMap>, a: nat, b: nat, used: bool, win1End: nat)
    requires v.Valid() && Covered(v, tests, a) && LowTested(v, tests, used, win1End)
    requires number >= 1 && WIN0_START <= a <= b
    requires forall p :: InPages(segs, p) <==> Within(v, a, b, p)
    ensures Covered(v, Append(tests, number, segs), b)
    ensures LowTested(v, Append(tests, number, segs), used, win1End)
  {
    var t := Tested(number, segs);
    if |segs| == 0 {
      assert forall p :: !InPages(segs, p);
      CoverSkip(v, tests, a, b);
    } else {
      CoverMore(v, tests, t, a, b);
      forall p ensures TestedLow(tests + [t], p) <==> TestedLow(tests, p) {
        TestedSnoc(tests, t, p);
      }
    }
  }

  lemma AppendLow(v: Vars, tests: seq<Tested>, segs: seq<PMap>, a: nat, win1End: nat)
    requires v.Valid() && Covered(v, tests, a) && LowTested(v, tests, false, win1End)
    requires forall p :: InPages(segs, p) <==> Within(v, 0, win1End, p)
    ensures Covered(v, Append(tests, 0, segs), a)
    ensures LowTested(v, Append(tests, 0, segs), true, win1End)
  {
    var t := Tested(0, segs);
    if |segs| == 0 {
      assert forall p :: !InPages(segs, p);
    } else {
      CoverLow(v, tests, t, a);
      forall p ensures TestedLow(tests + [t], p) <==> InPages(segs, p) {
        TestedSnoc(tests, t, p);
        assert !TestedLow(tests, p);
      }
    }
  }

  /** Segments in the stretch of 2 GB with number w. */
  ghost predicate InStretch(v: Vars, segs: seq<PMap>, w: nat)
    requires v.Valid()
    reads v, v.pmap
  {
    SegmentsIn(v, segs, w * 0x80000, (w + 1) * 0x80000)
  }

  /** The segments of one tested window lie inside it: below the end of the low window, in the first 2 GB from
      page 0x100 on, or in one of the following stretches of 2 GB; inside the limits, and in order. */
  ghost predicate InOneWindow(v: Vars, t: Tested, win1End: nat)
    requires v.Valid()
    reads v, v.pmap
  {
    if t.window == 0 then SegmentsIn(v, t.segs, 0, win1End)
    else if t.window == 1 then SegmentsIn(v, t.segs, 0x100, 0x80000)
    else exists w: nat :: w >= 1 && InStretch(v, t.segs, w)
  }

  /** No segment of a window leaves it. */
  ghost predicate EachInOneWindow(v: Vars, tests: seq<Tested>, win1End: nat)
    requires v.Valid()
    reads v, v.pmap
  {
    forall k | 0 <= k < |tests| :: InOneWindow(v, tests[k], win1End)
  }

  lemma AppendInWindow(v: Vars, tests: seq<Tested>, number: nat, segs: seq<PMap>, start: nat, end: nat, win1End: nat)
    requires v.Valid() && EachInOneWindow(v, tests, win1End) && SegmentsIn(v, segs, start, end)
    requires if number == 0 then start == 0 && end == win1End
             else if number == 1 then start == WIN0_START && end == WIN_SZ
             else start >= WIN_SZ && start % WIN_SZ == 0 && end == start + WIN_SZ
    ensures EachInOneWindow(v, Append(tests, number, segs), win1End)
  {
    hide SegmentsIn;
    if number > 1 {
      var w := start / WIN_SZ;
      assert InStretch(v, segs, w);
    }
  }

  lemma StretchOf(v: Vars, t: Tested, win1End: nat) returns (w: nat)
    requires v.Valid() && InOneWindow(v, t, win1End) && t.window >= 1
    ensures forall i | 0 <= i < |t.segs| ::
              w * 0x80000 <= t.segs[i].start < t.segs[i].end <= (w + 1) * 0x80000
  {
    if t.window == 1 {
      w := 0;
    } else {
      w :| w >= 1 && InStretch(v, t.segs, w);
    }
  }

  /** The pages of one segment, and of one window from number 1 on, are of one and the same stretch of 2 GB. */
  lemma OneWindow(v: Vars, t: Tested, win1End: nat, r: PMap, p: int, q: int)
    requires v.Valid() && InOneWindow(v, t, win1End) && r in t.segs
    ensures t.window == 0 ==> 0 <= r.start < r.end <= win1End
    ensures t.window >= 1 ==> r.start < r.end && r.start / 0x80000 == (r.end - 1) / 0x80000
    ensures t.window >= 1 && InPages(t.segs, p) && InPages(t.segs, q) ==> p / 0x80000 == q / 0x80000
    ensures t.window == 0 && InPages(t.segs, p) ==> p < win1End
  {
    if t.window >= 1 {
      var w := StretchOf(v, t, win1End);
      hide InOneWindow;
      StretchNumber(w, p);
      StretchNumber(w, q);
      StretchNumber(w, r.start);
      StretchNumber(w, r.end - 1);
    }
  }

  lemma StretchNumber(w: nat, p: int)
    ensures w * 0x80000 <= p < (w + 1) * 0x80000 ==> p / 0x80000 == w
  {
  }

  /** The word that the loop compares win_next with, one window past the end of the map, overflows. */
  predicate LimitWraps(v: Vars)
    requires 0 < v.msegs <= v.pmap.Length
    reads v, v.pmap
  {
    v.pmap[v.msegs - 1].end + WIN_SZ >= TWO32
  }

  /** How far the windows get. */
  function Reach(v: Vars): nat
    requires 0 < v.msegs <= v.pmap.Length
    reads v, v.pmap
  {
    if LimitWraps(v) then WIN_SZ else MAX_MEM + WIN_SZ
  }

  /** The loop's limit is below one window exactly when it has wrapped. */
  lemma LimitIs(v: Vars)
    requires 0 < v.msegs <= v.pmap.Length
    ensures var end := v.pmap[v.msegs - 1].end;
            (end + WIN_SZ) % TWO32 == if LimitWraps(v) then end + WIN_SZ - TWO32 else end + WIN_SZ
  {
  }

  /** The window loop of one test, run to completion. win1End is the end of the low window. Windows reach
      all of the map that MAX_MEM allows, unless the loop's limit wraps: then only the first 2 GB. */
  method RunWindows(v: Vars, bitFade: bool, win1End: nat) returns (tests: seq<Tested>)
    requires v.Valid() && v.msegs > 0 && RangesAscending(v.Pages()) && WIN0_START <= win1End
    ensures Covered(v, tests, Reach(v))
    ensures LowTested(v, tests, UsesLow(v, bitFade), win1End)
    ensures EachInOneWindow(v, tests, win1End) && InOrder(tests)
    ensures forall t, p, q | t in tests && t.window >= 1 && InPages(t.segs, p) && InPages(t.segs, q) ::
              p / 0x80000 == q / 0x80000
    ensures forall t, p | t in tests && t.window == 0 && InPages(t.segs, p) :: p < win1End
  {
    hide Covered, LowTested, Within, InPages, TestedIn, TestedLow, RangesAscending, EachInOneWindow, SegmentsIn;
    hide InOneWindow, InOrder;
    var window, winNext := 0, 0;
    tests := [];
    ghost var reached := WIN0_START;
    StartCovered(v, win1End);
    LimitIs(v);
    while winNext <= (v.pmap[v.msegs - 1].end + WIN_SZ) % TWO32
      invariant 0 <= window <= 2 && winNext % WIN_SZ == 0
      invariant if window < 2 then winNext == 0 && reached == WIN0_START else winNext == reached >= WIN_SZ
      invariant winNext <= Reach(v)
      invariant Covered(v, tests, reached)
      invariant LowTested(v, tests, window > 0 && UsesLow(v, bitFade), win1End)
      invariant EachInOneWindow(v, tests, win1End)
      invariant InOrder(tests) && (window == 0 ==> tests == [])
      decreases MAX_MEM + WIN_SZ - winNext, 2 - window
    {
      if winNext > MAX_MEM {
        break;
      }
      if bitFade && window == 0 {
        window := 1;
      }
      if window == 0 && v.plimLower >= WIN0_START {
        window := window + 1;
      }
      var number, start, end := window, 0, 0;
      match window {
        case 0 =>
          start, end := 0, win1End;
          window := window + 1;
        case 1 =>
          start, end := WIN0_START, WIN_SZ;
          winNext := WIN_SZ;
          window := window + 1;
        case _ =>
          start := winNext;
          winNext := winNext + WIN_SZ;
          end := winNext;
      }
      var segs := ComputeSegments(v, start, end);
      SegsWithin(v, segs, start, end);
      AppendInWindow(v, tests, number, segs, start, end, win1End);
      AppendInOrder(v, tests, number, segs, if number == 0 then reached else start, end);
      if number == 0 {
        AppendLow(v, tests, segs, reached, win1End);
      } else {
        AppendHigh(v, tests, number, segs, start, end, UsesLow(v, bitFade), win1End);
        reached := end;
      }
      if |segs| == 0 {
        continue;
      }
      tests := tests + [Tested(number, segs)];
    }
    FinishCovered(v, tests, reached);
    AllInOneWindow(v, tests, win1End);
  }

  /** The windows are tested from the lowest pages up, after the low window if that is tested at all. */
  ghost predicate InOrder(tests: seq<Tested>) {
    && (forall k | 0 <= k < |tests| && tests[k].window == 0 :: k == 0)
    && forall x, u, p, q |
         0 <= x < u < |tests| && tests[x].window >= 1 && InPages(tests[x].segs, p) && InPages(tests[u].segs, q) ::
         p < q
  }

  lemma AppendInOrder(v: Vars, tests: seq<Tested>, number: nat, segs: seq<PMap>, a: nat, b: nat)
    requires v.Valid() && Covered(v, tests, a) && InOrder(tests)
    requires number == 0 ==> tests == []
    requires number >= 1 ==> forall q | InPages(segs, q) :: Within(v, a, b, q)
    ensures InOrder(Append(tests, number, segs))
  {
    hide InPages;
    var tests' := Append(tests, number, segs);
    forall x, u, p, q |
      0 <= x < u < |tests'| && tests'[x].window >= 1 && InPages(tests'[x].segs, p) && InPages(tests'[u].segs, q)
      ensures p < q
    {
      if u == |tests| {
        assert TestedIn(tests, p);
      }
    }
  }

  lemma AllInOneWindow(v: Vars, tests: seq<Tested>, win1End: nat)
    requires v.Valid() && EachInOneWindow(v, tests, win1End)
    ensures forall t, p, q | t in tests && t.window >= 1 && InPages(t.segs, p) && InPages(t.segs, q) ::
              p / 0x80000 == q / 0x80000
    ensures forall t, p | t in tests && t.window == 0 && InPages(t.segs, p) :: p < win1End
  {
    hide InOneWindow;
    forall t, p, q | t in tests && InPages(t.segs, p) && InPages(t.segs, q)
      ensures t.window >= 1 ==> p / 0x80000 == q / 0x80000
      ensures t.window == 0 ==> p < win1End
    {
      var i :| 0 <= i < |t.segs| && t.segs[i].start <= p < t.segs[i].end;
      OneWindow(v, t, win1End, t.segs[i], p, q);
    }
  }

  lemma SegsWithin(v: Vars, segs: seq<PMap>, start: nat, end: nat)
    requires v.Valid()
    requires forall p :: InPages(segs, p) <==>
               InPages(v.Pages(), p) && Higher(start, v.plimLower) <= p < Lower(end, v.plimUpper)
    ensures forall p :: InPages(segs, p) <==> Within(v, start, end, p)
  {
  }

  lemma StartCovered(v: Vars, win1End: nat)
    requires v.Valid()
    ensures Covered(v, [], WIN0_START) && LowTested(v, [], false, win1End)
    ensures EachInOneWindow(v, [], win1End) && InOrder([])
  {
    assert PageSet(v.Pages(), Higher(WIN0_START, v.plimLower), Lower(WIN0_START, v.plimUpper)) == {};
  }

  /** Past the end of the map, or at the limit of what the windows can reach, nothing is left. */
  lemma FinishCovered(v: Vars, tests: seq<Tested>, reached: nat)
    requires v.Valid() && v.msegs > 0 && RangesAscending(v.Pages()) && Covered(v, tests, reached)
    requires WIN0_START <= reached <= Reach(v)
    requires reached == Reach(v) || reached > v.pmap[v.msegs - 1].end + WIN_SZ
    ensures Covered(v, tests, Reach(v))
  {
    if reached < Reach(v) {
      forall p | InPages(v.Pages(), p) ensures p < reached {
        PagesBelowLast(v.Pages(), p);
      }
      CoverSkip(v, tests, reached, Reach(v));
    }
  }

  lemma PagesBelowLast(pm: seq<PMap>, p: int)
    requires RangesAscending(pm) && pm != [] && InPages(pm, p)
    ensures p <= pm[|pm| - 1].end
  {
    var k :| 0 <= k < |pm| && pm[k].start <= p < pm[k].end;
    assert k < |pm| - 1 ==> pm[k].end <= pm[|pm| - 1].start;
  }

  /** A selected page from page a on, as far as MAX_MEM lets the windows go. */
  ghost predicate SelectedFrom(v: Vars, a: int, p: int)
    requires v.Valid()
    reads v, v.pmap
  {
    Within(v, a, MAX_MEM + WIN_SZ, p)
  }

  /** Every selected page from 0x100 on is tested, exactly when the loop's limit does not wrap or nothing is
      selected past the first 2 GB. */
  lemma AllTestedIff(v: Vars, tests: seq<Tested>)
    requires v.Valid() && v.msegs > 0 && Covered(v, tests, Reach(v))
    ensures (forall p | SelectedFrom(v, WIN0_START, p) :: TestedIn(tests, p))
       <==> !LimitWraps(v) || forall p :: !SelectedFrom(v, WIN_SZ, p)
  {
    hide TestedIn;
    if LimitWraps(v) {
      forall p | SelectedFrom(v, WIN_SZ, p) ensures SelectedFrom(v, WIN0_START, p) && !TestedIn(tests, p) {
      }
      forall p | SelectedFrom(v, WIN0_START, p) && !SelectedFrom(v, WIN_SZ, p) ensures TestedIn(tests, p) {
        assert Within(v, WIN0_START, WIN_SZ, p);
      }
    }
  }

  /** RAM from 4 GB to 6 GB, and one page that ends where the last page below 16 TiB starts. */
  function HighMap(): seq<Entry> {
    [Entry(TWO32, 0x8000_0000, RAM), Entry((TWO32 - 2) * PAGE, PAGE, RAM)]
  }

  lemma HighMapListed()
    ensures IsSanitized(HighMap(), HighMap())
    ensures PageWordsOf(HighMap()) == [PMap(0x100000, 0x180000), PMap(TWO32 - 2, TWO32 - 1)]
  {
    HighMapWords();
    hide PageWordsOf, IsSanitized;
    SelfSanitizedIffCanonical(HighMap());
  }

  lemma HighMapWords()
    ensures PageWordsOf(HighMap()) == [PMap(0x100000, 0x180000), PMap(TWO32 - 2, TWO32 - 1)]
  {
    var m := HighMap();
    assert m[..1] == [m[0]] && m[..1][..0] == [];
    assert PageWordsOf(m[..1]) == [PageWords(m[0])];
  }

  /** From that map, with the limits set to all of it, no window from number 1 on tests the page at 4 GB. */
  lemma HighPageUntested(v: Vars, tests: seq<Tested>, total: u32, total': u32)
    requires v.Valid() && v.msegs > 0 && BuiltFrom(HighMap(), v.Pages(), total, total')
    requires v.plimLower == 0 && v.plimUpper == v.pmap[v.msegs - 1].end && Covered(v, tests, Reach(v))
    ensures LimitWraps(v) && SelectedFrom(v, WIN0_START, 0x100000) && !TestedIn(tests, 0x100000)
  {
    var m, pm := HighMap(), v.Pages();
    var nm :| IsSanitized(m, nm) && nm != [] && pm == PageWordsOf(nm) && total' == (total + PageSum(pm)) % TWO32;
    HighMapListed();
    Unique(m, m, nm, m);
    hide *;
    assert v.pmap[v.msegs - 1] == pm[1];
    HighPages(v, tests);
  }

  lemma HighPages(v: Vars, tests: seq<Tested>)
    requires v.Valid() && v.Pages() == [PMap(0x100000, 0x180000), PMap(TWO32 - 2, TWO32 - 1)]
    requires v.plimLower == 0 && v.plimUpper == TWO32 - 1 && v.msegs == 2 && v.pmap[1].end == TWO32 - 1
    requires Covered(v, tests, Reach(v))
    ensures LimitWraps(v) && SelectedFrom(v, WIN0_START, 0x100000) && !TestedIn(tests, 0x100000)
  {
    assert v.Pages()[0].start <= 0x100000 < v.Pages()[0].end;
    assert InPages(v.Pages(), 0x100000);
  }

  // ---------- the number of pages tested ----------

  /** Window by window, a test counts the selected pages once each, those below page 0x100 left out: the sum
      is what adj_mem stores exactly when no range inside the limits is inverted by rounding. */
  lemma TestedAreSelected(v: Vars, tests: seq<Tested>)
    requires v.Valid() && RangesAscending(v.Pages()) && Covered(v, tests, MAX_MEM + WIN_SZ)
    requires v.plimLower <= v.plimUpper <= MAX_MEM + WIN_SZ
    requires v.selectedPages == ClipSum(v.Pages(), v.plimLower, v.plimUpper) % TWO32
    ensures PagesTested(tests) + |PageSet(v.Pages(), v.plimLower, Lower(WIN0_START, v.plimUpper))|
            == v.selectedPages
       <==> Inverted(v.Pages(), v.plimLower, v.plimUpper) == 0
  {
    hide RangesAscending, ClipSum, Inverted, PageSet, InPages;
    var pm, lo, hi := v.Pages(), v.plimLower, v.plimUpper;
    SelectedPagesCount(pm, lo, hi, v.selectedPages);
    var a, z := Higher(WIN0_START, lo), Lower(WIN0_START, hi);
    if lo <= WIN0_START <= hi {
      PageSetSplit(pm, lo, WIN0_START, hi);
    } else if hi < WIN0_START {
      NoPages(pm, a, hi);
    } else {
      NoPages(pm, lo, z);
    }
  }

  lemma NoPages(pm: seq<PMap>, lo: int, hi: int)
    requires lo >= hi
    ensures PageSet(pm, lo, hi) == {}
  {
  }
}
