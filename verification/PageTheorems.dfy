/** What the page map lists, page by page, and what the page totals count. */
module PageTheorems {
  import opened E820
  import opened Canonical
  import opened PageMap
  import opened Words

  // ---------- one entry ----------

  /** Page p lies wholly inside the entry. */
  predicate PageInside(e: Entry, p: int) {
    e.addr <= 4096 * p && 4096 * (p + 1) <= e.End()
  }

  predicate InHole(p: int) {
    0xa0000 <= 4096 * p < 0x100000
  }

  predicate CoversHole(e: Entry) {
    e.addr <= 0xa0000 && 0x100000 <= e.End()
  }

  /** The stored words are the rounded bounds exactly when both bounds fit 32 bits. */
  lemma PageWordsExact(e: Entry)
    ensures PageWords(e).start == FirstPage(e) && PageWords(e).end == LastPage(e) <==> Fits(e)
  {
    if Fits(e) {
      assert TrimStart(e) + 4095 < TWO64;
    }
  }

  /** Beyond 16 TiB the stored words do not describe the entry. */
  lemma PageWordsWrapExample()
    ensures var e := Entry(0x1000_0000_0000, 2 * PAGE, RAM);
            Kept(e) && !Fits(e) && PageWords(e) == PMap(0, 2)
  {
  }

  /** An entry contributes page p exactly when p is wholly inside it, and pages of the hole at
      0xa0000..0xfffff only when the entry spans the whole hole. */
  lemma EntryListsPage(e: Entry, p: int)
    ensures Kept(e) && FirstPage(e) <= p < LastPage(e)
      <==> Usable(e) && PageInside(e, p) && (InHole(p) ==> CoversHole(e))
  {
  }

  /** After trimming, an entry that contains no page boundary rounds to start == end + 1. */
  lemma RoundedBounds(e: Entry)
    requires Kept(e) && e.size > 0
    ensures TrimStart(e) <= TrimEnd(e)
    ensures FirstPage(e) <= LastPage(e) + 1
  {
  }

  // ---------- the whole list ----------

  ghost predicate AllFit(nm: seq<Entry>) {
    forall i | 0 <= i < |nm| && Kept(nm[i]) :: Fits(nm[i])
  }

  /** Each listed range comes from one kept entry. */
  lemma {:induction false} SourceOf(nm: seq<Entry>, k: nat) returns (i: nat)
    requires k < |PageWordsOf(nm)|
    ensures i < |nm| && Kept(nm[i]) && PageWordsOf(nm)[k] == PageWords(nm[i])
  {
    var front := nm[..|nm| - 1];
    if k < |PageWordsOf(front)| {
      i := SourceOf(front, k);
    } else {
      i := |nm| - 1;
    }
  }

  lemma {:induction false} ListedAt(nm: seq<Entry>, i: nat) returns (k: nat)
    requires i < |nm| && Kept(nm[i])
    ensures k < |PageWordsOf(nm)| && PageWordsOf(nm)[k] == PageWords(nm[i])
  {
    var front := nm[..|nm| - 1];
    if i < |nm| - 1 {
      k := ListedAt(front, i);
    } else {
      k := |PageWordsOf(front)|;
    }
  }

  /** Page p is listed exactly when some usable entry of the sanitised map contains it whole, and, for
      a page of the hole, spans the hole. */
  lemma PageListedIff(nm: seq<Entry>, p: int)
    requires AllFit(nm)
    ensures InPages(PageWordsOf(nm), p)
      <==> exists i :: 0 <= i < |nm| && Usable(nm[i]) && PageInside(nm[i], p) && (InHole(p) ==> CoversHole(nm[i]))
  {
    var pm := PageWordsOf(nm);
    if InPages(pm, p) {
      var k :| 0 <= k < |pm| && pm[k].start <= p < pm[k].end;
      var i := SourceOf(nm, k);
      PageWordsExact(nm[i]);
      EntryListsPage(nm[i], p);
    }
    forall i | 0 <= i < |nm| && Usable(nm[i]) && PageInside(nm[i], p) && (InHole(p) ==> CoversHole(nm[i]))
      ensures InPages(pm, p)
    {
      EntryListsPage(nm[i], p);
      PageWordsExact(nm[i]);
      var k := ListedAt(nm, i);
    }
  }

  ghost predicate RangesAscending(pm: seq<PMap>) {
    && (forall i | 0 <= i < |pm| :: pm[i].start <= pm[i].end + 1)
    && (forall i, j | 0 <= i < j < |pm| :: pm[i].end <= pm[j].start)
  }

  lemma {:induction false} ListedAscending(nm: seq<Entry>)
    requires Ascending(nm) && AllFit(nm)
    ensures RangesAscending(PageWordsOf(nm))
  {
    if nm != [] {
      var front := nm[..|nm| - 1];
      var e := nm[|nm| - 1];
      ListedAscending(front);
      if Kept(e) {
        PageWordsExact(e);
        RoundedBounds(e);
        forall k | 0 <= k < |PageWordsOf(front)| ensures PageWordsOf(front)[k].end <= PageWords(e).start {
          var i := SourceOf(front, k);
          assert front[i] == nm[i];
          PageWordsExact(nm[i]);
        }
      }
    }
  }

  // ---------- the page totals ----------

  ghost function PageSet(pm: seq<PMap>, lo: int, hi: int): set<int> {
    set p: int | lo <= p < hi && InPages(pm, p)
  }

  /** How many ranges are inverted by rounding and lie inside the limits. */
  function Inverted(pm: seq<PMap>, lo: int, hi: int): nat {
    if pm == [] then
      0
    else
      var r := pm[|pm| - 1];
      Inverted(pm[..|pm| - 1], lo, hi) + if r.start > r.end && lo <= r.start && r.end <= hi then 1 else 0
  }

  ghost function Interval(lo: int, hi: int): (r: set<int>)
    ensures forall p :: p in r <==> lo <= p < hi
    ensures |r| == if lo <= hi then hi - lo else 0
    decreases hi - lo
  {
    if lo >= hi then {} else Interval(lo, hi - 1) + {hi - 1}
  }

  lemma PageSetSnoc(pm: seq<PMap>, r: PMap, lo: int, hi: int)
    ensures PageSet(pm + [r], lo, hi) == PageSet(pm, lo, hi) + PageSet([r], lo, hi)
  {
    var pm' := pm + [r];
    forall p ensures InPages(pm', p) <==> InPages(pm, p) || InPages([r], p) {
      if InPages(pm, p) {
        var k :| 0 <= k < |pm| && pm[k].start <= p < pm[k].end;
        assert pm'[k] == pm[k];
      }
      assert pm'[|pm|] == r == [r][0];
    }
  }

  lemma ClipSize(r: PMap, lo: int, hi: int)
    requires lo <= hi
    ensures |PageSet([r], lo, hi)|
         == Clip(r, lo, hi) + if r.start > r.end && lo <= r.start && r.end <= hi then 1 else 0
  {
    var a := if r.start < lo then lo else r.start;
    var z := if r.end > hi then hi else r.end;
    assert forall p :: InPages([r], p) <==> r.start <= p < r.end by {
      assert [r][0] == r;
    }
    assert PageSet([r], lo, hi) == Interval(a, z);
  }

  lemma PagesDisjoint(pm: seq<PMap>, r: PMap, lo: int, hi: int)
    requires RangesAscending(pm + [r])
    ensures PageSet(pm, lo, hi) !! PageSet([r], lo, hi)
  {
    var pm' := pm + [r];
    forall p | InPages(pm, p) ensures !InPages([r], p) {
      var k :| 0 <= k < |pm| && pm[k].start <= p < pm[k].end;
      assert pm'[k] == pm[k] && pm'[|pm|] == r;
    }
  }

  /** The clipped sum counts the distinct listed pages inside the limits, less one for every inverted
      range there. */
  lemma {:induction false} ClipSumCounts(pm: seq<PMap>, lo: int, hi: int)
    requires RangesAscending(pm) && lo <= hi
    ensures ClipSum(pm, lo, hi) == |PageSet(pm, lo, hi)| - Inverted(pm, lo, hi)
  {
    if pm == [] {
      assert PageSet(pm, lo, hi) == {};
    } else {
      var front, r := pm[..|pm| - 1], pm[|pm| - 1];
      assert pm == front + [r];
      ClipSumCounts(front, lo, hi);
      PageSetSnoc(front, r, lo, hi);
      PagesDisjoint(front, r, lo, hi);
      ClipSize(r, lo, hi);
    }
  }

  lemma {:induction false} SumIsClip(pm: seq<PMap>)
    requires forall i | 0 <= i < |pm| :: pm[i].start <= pm[i].end + 1
    ensures PageSum(pm) == ClipSum(pm, 0, TWO32)
  {
    if pm != [] {
      SumIsClip(pm[..|pm| - 1]);
    }
  }

  lemma PageSetBounded(pm: seq<PMap>, lo: nat, hi: nat)
    requires hi <= TWO32
    ensures |PageSet(pm, lo, hi)| < TWO32
  {
    SubsetSize(PageSet(pm, lo, hi), Interval(0, TWO32 - 1));
  }

  lemma {:induction false} SubsetSize<T>(a: set<T>, b: set<T>)
    requires a <= b
    ensures |a| <= |b|
  {
    if a != {} {
      var x :| x in a;
      SubsetSize(a - {x}, b - {x});
    }
  }

  lemma InvertedBounded(pm: seq<PMap>, lo: int, hi: int)
    ensures Inverted(pm, lo, hi) <= |pm|
  {
  }

  lemma {:induction false} ListedLength(nm: seq<Entry>)
    ensures |PageWordsOf(nm)| <= |nm|
  {
    if nm != [] {
      ListedLength(nm[..|nm| - 1]);
    }
  }

  lemma SanitizedShort(m: seq<Entry>, nm: seq<Entry>)
    requires IsSanitized(m, nm)
    ensures |nm| <= E820MAX && Ascending(nm)
  {
    hide Ascending;
  }

  /** Starting from 0, test_pages is the number of distinct pages listed exactly when no listed entry
      was inverted by rounding. */
  lemma TestPagesCount(m: seq<Entry>, nm: seq<Entry>, pm: seq<PMap>, total: u32)
    requires IsSanitized(m, nm) && AllFit(nm) && pm == PageWordsOf(nm)
    requires total == PageSum(pm) % TWO32
    ensures total == |PageSet(pm, 0, TWO32)| <==> Inverted(pm, 0, TWO32) == 0
  {
    hide *;
    SanitizedShort(m, nm);
    ListedAscending(nm);
    SumIsClip(pm);
    ClipSumCounts(pm, 0, TWO32);
    PageSetBounded(pm, 0, TWO32);
    InvertedBounded(pm, 0, TWO32);
    ListedLength(nm);
    WrapsUnlessZero(|PageSet(pm, 0, TWO32)|, Inverted(pm, 0, TWO32));
  }

  /** What adj_mem stores is the number of distinct listed pages inside the limits exactly when no range
      inside them was inverted by rounding. */
  lemma SelectedPagesCount(pm: seq<PMap>, lo: u32, hi: u32, selected: u32)
    requires RangesAscending(pm) && |pm| <= E820MAX && lo <= hi
    requires selected == ClipSum(pm, lo, hi) % TWO32
    ensures selected == |PageSet(pm, lo, hi)| <==> Inverted(pm, lo, hi) == 0
  {
    ClipSumCounts(pm, lo, hi);
    PageSetBounded(pm, lo, hi);
    InvertedBounded(pm, lo, hi);
    WrapsUnlessZero(|PageSet(pm, lo, hi)|, Inverted(pm, lo, hi));
  }

  lemma WrapsUnlessZero(n: nat, k: nat)
    requires n < TWO32 && k <= E820MAX
    ensures (n - k) % TWO32 == n <==> k == 0
  {
    if n - k < 0 {
      assert (n - k) % TWO32 == n - k + TWO32;
    }
  }

  // ---------- end to end ----------

  /** Addresses lo..hi-1 form part of one run of the map: one non-zero type and no boundary inside. */
  ghost predicate OneRun(m: seq<Entry>, lo: int, hi: int) {
    TypeAt(m, lo) != 0
    && forall x | lo < x < hi :: TypeAt(m, x) == TypeAt(m, lo) && !Boundary(m, x)
  }

  lemma EntryIsRun(m: seq<Entry>, nm: seq<Entry>, i: nat, lo: int, hi: int)
    requires IsSanitized(m, nm) && i < |nm| && nm[i].addr <= lo < hi <= nm[i].End()
    ensures OneRun(m, lo, hi) && TypeAt(m, lo) == nm[i].typ
  {
    hide IsSanitized, Ascending, TypeAt, StartsAt, Boundary, Horizon;
    SanitizedAt(m, nm, lo);
    EndBelowHorizon(nm, i);
    EntryTyped(nm, i);
    forall x | lo <= x < hi ensures TypeAt(m, x) == nm[i].typ && (x > lo ==> !Boundary(m, x)) {
      SanitizedAt(m, nm, x);
      TypeAtEntry(nm, i, x);
      if x > lo {
        InsideEntry(nm, i, x);
      }
    }
  }

  lemma RunIsEntry(m: seq<Entry>, nm: seq<Entry>, lo: int, hi: int) returns (i: nat)
    requires IsSanitized(m, nm) && 0 <= lo < hi <= Horizon(nm) && OneRun(m, lo, hi)
    ensures i < |nm| && nm[i].addr <= lo && hi <= nm[i].End() && nm[i].typ == TypeAt(m, lo)
  {
    i := CoveringEntry(nm, lo);
    if nm[i].End() < hi {
      NextStarts(m, nm, i, lo, hi);
    }
  }

  /** An entry that ends inside a run would have to be followed by a boundary. */
  lemma NextStarts(m: seq<Entry>, nm: seq<Entry>, i: nat, lo: int, hi: int)
    requires IsSanitized(m, nm) && i < |nm| && nm[i].Covers(lo) && 0 <= lo && nm[i].End() < hi <= Horizon(nm)
    ensures !OneRun(m, lo, hi)
  {
    var x := nm[i].End();
    if TypeAt(m, x) != 0 {
      var j := CoveringEntry(nm, x);
      NextCovers(nm, i, j);
      assert StartsAt(nm, x);
    }
  }

  lemma NextCovers(o: seq<Entry>, i: nat, j: nat)
    requires Ascending(o) && i < |o| && j < |o| && o[j].Covers(o[i].End())
    ensures o[j].addr == o[i].End()
  {
  }

  /** No entry of the map reaches the last page below 16 TiB. */
  ghost predicate Below16TiB(m: seq<Entry>) {
    forall i | 0 <= i < |m| :: m[i].End() <= (TWO32 - 1) * PAGE
  }

  lemma BelowFits(m: seq<Entry>, nm: seq<Entry>)
    requires IsSanitized(m, nm) && Below16TiB(m)
    ensures AllFit(nm)
  {
    forall i | 0 <= i < |nm| ensures Fits(nm[i]) {
      var x := nm[i].End() - 1;
      EndBelowHorizon(nm, i);
      TypeAtEntry(nm, i, x);
      var j := CoveringEntry(m, x);
      FitsBelow(nm[i]);
    }
  }

  lemma FitsBelow(e: Entry)
    requires e.size > 0 && e.End() <= (TWO32 - 1) * PAGE
    ensures Fits(e)
  {
  }

  /** Page p of the BIOS map m is testable: the whole page is one run of RAM or ACPI memory, and a page
      of the hole needs the whole hole to be one such run. */
  ghost predicate Testable(m: seq<Entry>, p: int) {
    && TypeAt(m, 4096 * p) in {1, 3}
    && OneRun(m, 4096 * p, 4096 * (p + 1))
    && (InHole(p) ==> OneRun(m, 0xa0000, 0x100000))
  }

  lemma TestableFromEntry(m: seq<Entry>, nm: seq<Entry>, i: nat, p: int)
    requires IsSanitized(m, nm) && i < |nm|
    requires Usable(nm[i]) && PageInside(nm[i], p) && (InHole(p) ==> CoversHole(nm[i]))
    ensures Testable(m, p) && PAGE * (p + 1) <= Horizon(nm)
  {
    EndBelowHorizon(nm, i);
    EntryIsRun(m, nm, i, PAGE * p, PAGE * (p + 1));
    if InHole(p) {
      EntryIsRun(m, nm, i, RES_START, RES_END);
    }
  }

  lemma EntryFromTestable(m: seq<Entry>, nm: seq<Entry>, p: int) returns (i: nat)
    requires IsSanitized(m, nm) && Testable(m, p) && p >= 0 && PAGE * (p + 1) <= Horizon(nm)
    requires InHole(p) ==> RES_END <= Horizon(nm)
    ensures i < |nm| && Usable(nm[i]) && PageInside(nm[i], p) && (InHole(p) ==> CoversHole(nm[i]))
  {
    i := RunIsEntry(m, nm, PAGE * p, PAGE * (p + 1));
    if InHole(p) {
      var k := RunIsEntry(m, nm, RES_START, RES_END);
      SameEntry(nm, i, k, PAGE * p);
    }
  }

  lemma SameEntry(o: seq<Entry>, i: nat, k: nat, x: int)
    requires Ascending(o) && i < |o| && k < |o| && o[i].Covers(x) && o[k].Covers(x)
    ensures i == k
  {
  }

  /** The page map, from the BIOS map itself: a page is listed exactly when it is testable (and the
      sanitised map was not cut off before it). */
  lemma ListedIffTestable(m: seq<Entry>, nm: seq<Entry>, p: int)
    requires IsSanitized(m, nm) && Below16TiB(m)
    requires 0 <= p && PAGE * (p + 1) <= Horizon(nm) && (InHole(p) ==> RES_END <= Horizon(nm))
    ensures InPages(PageWordsOf(nm), p) <==> Testable(m, p)
  {
    BelowFits(m, nm);
    PageListedIff(nm, p);
    if InPages(PageWordsOf(nm), p) {
      var i :| 0 <= i < |nm| && Usable(nm[i]) && PageInside(nm[i], p) && (InHole(p) ==> CoversHole(nm[i]));
      TestableFromEntry(m, nm, i, p);
    }
    if Testable(m, p) {
      var i := EntryFromTestable(m, nm, p);
    }
  }

  /** Whatever memsize_820 lists, even from a map cut off at the table size, is testable; ranges are in
      order and disjoint. */
  lemma ListedPagesTestable(m: seq<Entry>, pm: seq<PMap>, total: u32, total': u32)
    requires BuiltFrom(m, pm, total, total') && Below16TiB(m)
    ensures RangesAscending(pm)
    ensures forall p | InPages(pm, p) :: Testable(m, p)
  {
    var nm :| IsSanitized(m, nm) && nm != [] && pm == PageWordsOf(nm) && total' == (total + PageSum(pm)) % TWO32;
    BelowFits(m, nm);
    ListedAscending(nm);
    forall p | InPages(pm, p) ensures Testable(m, p) {
      PageListedIff(nm, p);
      var i :| 0 <= i < |nm| && Usable(nm[i]) && PageInside(nm[i], p) && (InHole(p) ==> CoversHole(nm[i]));
      TestableFromEntry(m, nm, i, p);
    }
  }
}
