/** When the page totals count: stated on the maximal runs of the BIOS map. */
module PageRuns {
  import opened Canonical
  import opened E820
  import opened PageMap
  import opened PageTheorems
  import opened Words

  /** e is a maximal run of the map: one type, no boundary inside, a boundary at its start, and a stop at its
      end. */
  ghost predicate IsRun(m: seq<Entry>, e: Entry) {
    && e.size > 0 && OneRun(m, e.addr, e.End()) && e.typ == TypeAt(m, e.addr)
    && Boundary(m, e.addr) && RunStops(m, e.End())
  }

  lemma EntryIsMaximal(m: seq<Entry>, nm: seq<Entry>, i: nat)
    requires IsSanitized(m, nm) && i < |nm|
    ensures IsRun(m, nm[i]) && nm[i].End() <= Horizon(nm)
  {
    hide TypeAt, Boundary, OneRun, RunStops, Horizon, StartsAt, Ascending, IsSanitized;
    var e := nm[i];
    SanitizedAt(m, nm, e.addr);
    EndBelowHorizon(nm, i);
    EntryIsRun(m, nm, i, e.addr, e.End());
    assert StartsAt(nm, e.addr) by { EntryStarts(nm, i); }
    SanitizedAt(m, nm, e.End());
    if e.End() < Horizon(nm) {
      if !StartsAt(nm, e.End()) {
        PastEntry(nm, i);
        StopsAtGap(m, e.End());
      } else {
        StopsAtBoundary(m, e.End());
      }
    } else {
      FullTable(nm, i);
    }
  }

  lemma EntryStarts(nm: seq<Entry>, i: nat)
    requires i < |nm|
    ensures StartsAt(nm, nm[i].addr)
  {
  }

  lemma StopsAtGap(m: seq<Entry>, a: int)
    requires TypeAt(m, a) == 0
    ensures RunStops(m, a)
  {
  }

  lemma StopsAtBoundary(m: seq<Entry>, a: int)
    requires Boundary(m, a)
    ensures RunStops(m, a)
  {
  }

  lemma FullTable(nm: seq<Entry>, i: nat)
    requires i < |nm| && nm[i].End() == Horizon(nm) < TWO64
    ensures |nm| >= E820MAX
  {
  }

  lemma RunIsListed(m: seq<Entry>, nm: seq<Entry>, e: Entry) returns (i: nat)
    requires IsSanitized(m, nm) && IsRun(m, e) && e.End() <= Horizon(nm)
    ensures i < |nm| && nm[i] == e
  {
    hide TypeAt, OneRun, Horizon, Ascending, IsSanitized, Boundary;
    SanitizedAt(m, nm, e.addr);
    i := RunIsEntry(m, nm, e.addr, e.End());
    EndBelowHorizon(nm, i);
    if nm[i].addr < e.addr {
      InsideEntry(nm, i, e.addr);
    }
    if e.End() < nm[i].End() {
      SanitizedAt(m, nm, e.End());
      InsideEntry(nm, i, e.End());
    }
  }

  /** The sanitised map lists the maximal runs of the BIOS map, and only them. */
  lemma EntryIffRun(m: seq<Entry>, nm: seq<Entry>, e: Entry)
    requires IsSanitized(m, nm)
    ensures e in nm <==> IsRun(m, e) && e.End() <= Horizon(nm)
  {
    hide *;
    if e in nm {
      var i :| 0 <= i < |nm| && nm[i] == e;
      EntryIsMaximal(m, nm, i);
    }
    if IsRun(m, e) && e.End() <= Horizon(nm) {
      var i := RunIsListed(m, nm, e);
    }
  }

  // ---------- inverted entries ----------

  /** No page boundary lies in what is left of the entry after trimming, and its page bounds, swapped, lie
      inside the limits. */
  predicate LosesPage(e: Entry, lo: int, hi: int) {
    Kept(e) && FirstPage(e) > LastPage(e) && lo <= FirstPage(e) && LastPage(e) <= hi
  }

  lemma {:induction false} InvertedIff(nm: seq<Entry>, lo: int, hi: int)
    requires AllFit(nm)
    ensures Inverted(PageWordsOf(nm), lo, hi) == 0 <==> forall e | e in nm :: !LosesPage(e, lo, hi)
  {
    if nm != [] {
      var front, e := nm[..|nm| - 1], nm[|nm| - 1];
      assert nm == front + [e];
      assert forall x :: x in nm <==> x in front || x == e;
      InvertedIff(front, lo, hi);
      if Kept(e) {
        PageWordsExact(e);
        var pm := PageWordsOf(front);
        assert (pm + [PageWords(e)])[..|pm|] == pm;
        assert LosesPage(e, lo, hi) <==> Inverted(pm + [PageWords(e)], lo, hi) != Inverted(pm, lo, hi);
      } else {
        assert PageWordsOf(nm) == PageWordsOf(front);
      }
    }
  }

  /** Starting from 0, test_pages is the number of distinct pages listed exactly when every run of usable
      memory contains a page boundary after trimming. */
  lemma TestPagesRuns(m: seq<Entry>, nm: seq<Entry>, pm: seq<PMap>, total: u32)
    requires IsSanitized(m, nm) && AllFit(nm) && pm == PageWordsOf(nm) && total == PageSum(pm) % TWO32
    ensures total == |PageSet(pm, 0, TWO32)|
       <==> forall e | IsRun(m, e) && e.End() <= Horizon(nm) && Kept(e) :: FirstPage(e) <= LastPage(e)
  {
    hide IsSanitized, IsRun, Kept, PageWordsOf, Inverted, PageSum, PageSet, Horizon;
    TestPagesCount(m, nm, pm, total);
    InvertedIff(nm, 0, TWO32);
    forall e ensures e in nm <==> IsRun(m, e) && e.End() <= Horizon(nm) {
      EntryIffRun(m, nm, e);
    }
    forall e | e in nm ensures LosesPage(e, 0, TWO32) <==> Kept(e) && FirstPage(e) > LastPage(e) {
      var i :| 0 <= i < |nm| && nm[i] == e;
      assert Kept(e) ==> Fits(e);
    }
  }

  /** What adj_mem stores is the number of distinct listed pages inside the limits exactly when no run of
      usable memory inside them loses a page. */
  lemma SelectedPagesRuns(m: seq<Entry>, nm: seq<Entry>, pm: seq<PMap>, lo: u32, hi: u32, selected: u32)
    requires IsSanitized(m, nm) && AllFit(nm) && pm == PageWordsOf(nm) && lo <= hi
    requires selected == ClipSum(pm, lo, hi) % TWO32
    ensures selected == |PageSet(pm, lo, hi)|
       <==> forall e | IsRun(m, e) && e.End() <= Horizon(nm) :: !LosesPage(e, lo, hi)
  {
    hide *;
    SanitizedShort(m, nm);
    ListedAscending(nm);
    ListedLength(nm);
    SelectedPagesCount(pm, lo, hi, selected);
    InvertedIff(nm, lo, hi);
    forall e ensures e in nm <==> IsRun(m, e) && e.End() <= Horizon(nm) {
      EntryIffRun(m, nm, e);
    }
  }

  // ---------- a table that does not fill ----------

  /** The addresses at which an entry starts or ends. */
  function Edges(m: seq<Entry>): set<int> {
    if m == [] then {} else Edges(m[1..]) + {m[0].addr, m[0].End()}
  }

  lemma {:induction false} EdgesAre(m: seq<Entry>)
    ensures forall e | e in m :: e.addr in Edges(m) && e.End() in Edges(m)
    ensures |Edges(m)| <= 2 * |m|
  {
    if m != [] {
      EdgesAre(m[1..]);
      forall e | e in m ensures e == m[0] || e in m[1..] {
      }
    }
  }

  /** Where no entry starts or ends, the type does not change. */
  lemma SameTypeInside(m: seq<Entry>, a: int)
    requires a !in Edges(m)
    ensures TypeAt(m, a - 1) == TypeAt(m, a)
  {
    EdgesAre(m);
    hide Edges, TypeAt;
    forall i | 0 <= i < |m| ensures m[i].Covers(a - 1) <==> m[i].Covers(a) {
      assert m[i] in m;
    }
    TypeAtUnique(m, a - 1, TypeAt(m, a));
  }

  lemma BoundaryIsEdge(m: seq<Entry>, a: int)
    requires Boundary(m, a)
    ensures a in Edges(m)
  {
    EdgesAre(m);
    if Dominated(m, a) {
      var i :| 0 <= i < |m| && m[i].addr == a;
      assert m[i] in m;
    } else if a !in Edges(m) {
      SameTypeInside(m, a);
    }
  }

  function Starts(nm: seq<Entry>): set<int> {
    set i | 0 <= i < |nm| :: nm[i].addr
  }

  lemma {:induction false} StartsCount(nm: seq<Entry>)
    requires Ascending(nm)
    ensures |Starts(nm)| == |nm|
  {
    if nm != [] {
      var n := |nm| - 1;
      var front := nm[..n];
      StartsCount(front);
      StartsSnoc(nm);
    }
  }

  lemma StartsSnoc(nm: seq<Entry>)
    requires Ascending(nm) && nm != []
    ensures var n := |nm| - 1;
            Starts(nm) == Starts(nm[..n]) + {nm[n].addr} && nm[n].addr !in Starts(nm[..n])
  {
    var n := |nm| - 1;
    var front := nm[..n];
    forall i | 0 <= i < n ensures front[i].addr < nm[n].addr {
      assert front[i] == nm[i];
    }
    assert forall i | 0 <= i < |nm| :: nm[i].addr == if i == n then nm[n].addr else front[i].addr;
  }

  /** A map of at most 15 entries does not fill the table. */
  lemma ShortMap(m: seq<Entry>, nm: seq<Entry>)
    requires IsSanitized(m, nm) && 2 * |m| < E820MAX
    ensures |nm| < E820MAX && Horizon(nm) == TWO64
  {
    hide TypeAt, Boundary, RunStops;
    EdgesAre(m);
    StartsCount(nm);
    forall a | a in Starts(nm) ensures a in Edges(m) {
      var i :| 0 <= i < |nm| && nm[i].addr == a;
      EndBelowHorizon(nm, i);
      BoundaryIsEdge(m, a);
    }
    SubsetSize(Starts(nm), Edges(m));
  }

  /** On the BIOS map alone, for at most 15 entries below the last page of 16 TiB: test_pages is the number of
      distinct pages listed exactly when every run of usable memory rounds to start <= end. */
  lemma TestPagesOfMap(m: seq<Entry>, nm: seq<Entry>, pm: seq<PMap>, total: u32)
    requires IsSanitized(m, nm) && pm == PageWordsOf(nm) && total == PageSum(pm) % TWO32
    requires 2 * |m| < E820MAX && Below16TiB(m)
    ensures total == |PageSet(pm, 0, TWO32)| <==> forall e | IsRun(m, e) && Kept(e) :: FirstPage(e) <= LastPage(e)
  {
    ShortMap(m, nm);
    BelowFits(m, nm);
    hide IsSanitized, PageWordsOf, PageSum, PageSet, Horizon, FirstPage, LastPage, Kept, AllFit;
    TestPagesRuns(m, nm, pm, total);
    forall e | IsRun(m, e) ensures e.End() <= TWO64 {
      RunEnds(m, e);
    }
  }

  /** A run ends where an entry of the map ends at the latest. */
  lemma RunEnds(m: seq<Entry>, e: Entry)
    requires IsRun(m, e) && Below16TiB(m)
    ensures e.End() <= TWO64
  {
    hide Boundary, RunStops;
    var x := e.End() - 1;
    assert TypeAt(m, x) != 0;
    var i := CoveringEntry(m, x);
  }

  /** Sixteen bytes of RAM inside one page: they are listed as the range from page 2 to page 1, which holds
      no page, and the total wraps. */
  lemma LostPageExample()
    ensures var e := Entry(0x1001, 0x10, RAM);
            && IsSanitized([e], [e]) && AllFit([e]) && LosesPage(e, 0, TWO32)
            && PageWordsOf([e]) == [PMap(2, 1)]
            && PageSum([PMap(2, 1)]) % TWO32 == TWO32 - 1
            && PageSet([PMap(2, 1)], 0, TWO32) == {}
  {
    var e := Entry(0x1001, 0x10, RAM);
    assert [e][..0] == [];
    assert PageWordsOf([]) == [];
    assert [PMap(2, 1)][..0] == [] && PageSum([]) == 0;
    SelfSanitizedIffCanonical([e]);
  }
}
