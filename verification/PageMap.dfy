/** The page map that memsize_820 builds from the sanitised map, and the page counts kept with it. */
module PageMap {
  import opened E820
  import opened Sanitize
  import opened Words

  const RES_START := 0xa0000
  const RES_END := 0x100000
  const PAGE := 4096

  /** A range of pages, end exclusive; both words are 32 bits wide. */
  datatype PMap = PMap(start: u32, end: u32)

  predicate Usable(e: Entry) {
    e.typ == RAM || e.typ == ACPI
  }

  /** First byte used of an entry: one that starts inside the reserved hole starts after it. */
  function TrimStart(e: Entry): nat {
    if RES_START < e.addr < RES_END then RES_END else e.addr
  }

  /** One past the last byte used: an entry that ends inside the hole ends before it. */
  function TrimEnd(e: Entry): nat {
    if RES_START < e.End() < RES_END then RES_START else e.End()
  }

  /** Entries that lie inside the hole, touching neither edge from outside, are skipped. */
  predicate Kept(e: Entry) {
    Usable(e) && !(RES_START < e.addr < RES_END && e.End() < RES_END)
  }

  /** Start rounded up and end rounded down to pages, as mathematical integers. */
  function FirstPage(e: Entry): nat {
    (TrimStart(e) + 4095) / PAGE
  }

  function LastPage(e: Entry): nat {
    TrimEnd(e) / PAGE
  }

  /** Both bounds fit the 32-bit words of the page map. */
  predicate Fits(e: Entry) {
    FirstPage(e) < TWO32 && LastPage(e) < TWO32
  }

  /** The words that are stored: 64-bit addition, shift, then truncation to 32 bits. */
  function PageWords(e: Entry): PMap {
    PMap((TrimStart(e) + 4095) % TWO64 / PAGE % TWO32, TrimEnd(e) / PAGE % TWO32)
  }

  function PageWordsOf(nm: seq<Entry>): seq<PMap> {
    if nm == [] then
      []
    else
      var e := nm[|nm| - 1];
      PageWordsOf(nm[..|nm| - 1]) + if Kept(e) then [PageWords(e)] else []
  }

  /** Sum of end - start. */
  function PageSum(pm: seq<PMap>): int {
    if pm == [] then 0 else PageSum(pm[..|pm| - 1]) + pm[|pm| - 1].end - pm[|pm| - 1].start
  }

  predicate InPages(pm: seq<PMap>, p: int) {
    exists k :: 0 <= k < |pm| && pm[k].start <= p < pm[k].end
  }

  /** The contribution of one range to adj_mem's count: the length of its part inside the limits, and
      minus one for a range inverted by rounding. */
  function Clip(r: PMap, lo: int, hi: int): int {
    if r.start > r.end then
      if lo <= r.start && r.end <= hi then -1 else 0
    else
      var a := if r.start < lo then lo else r.start;
      var z := if r.end > hi then hi else r.end;
      if a < z then z - a else 0
  }

  function ClipSum(pm: seq<PMap>, lo: int, hi: int): int {
    if pm == [] then 0 else ClipSum(pm[..|pm| - 1], lo, hi) + Clip(pm[|pm| - 1], lo, hi)
  }

  /** Rounding never inverts a range by more than one page. */
  ghost predicate WellRounded(pm: seq<PMap>) {
    forall i | 0 <= i < |pm| :: pm[i].start <= pm[i].end + 1
  }

  class Vars {
    var pmap: array<PMap>
    var msegs: nat
    var testPages: u32
    var plimLower: u32
    var plimUpper: u32
    var selectedPages: u32

    ghost predicate Valid()
      reads this
    {
      pmap.Length == E820MAX && msegs <= E820MAX
    }

    /** The page map as listed. */
    ghost function Pages(): seq<PMap>
      requires Valid()
      reads this, pmap
    {
      pmap[..msegs]
    }

    /** The loop body of memsize_820: trims one sanitised entry and appends its pages. */
    method ListEntry(entry: Entry, n: nat, ghost before: seq<Entry>, ghost base: int) returns (n': nat)
      requires pmap.Length == E820MAX && n < E820MAX
      requires entry.End() < TWO64
      requires pmap[..n] == PageWordsOf(before) && testPages == (base + PageSum(pmap[..n])) % TWO32
      modifies this`testPages, pmap
      ensures n <= n' <= n + 1
      ensures pmap[..n'] == PageWordsOf(before + [entry]) && testPages == (base + PageSum(pmap[..n'])) % TWO32
    {
      n' := n;
      assert (before + [entry])[..|before|] == before;
      if entry.typ == RAM || entry.typ == ACPI {
        var start: u64 := entry.addr;
        var end: u64 := entry.addr + entry.size;
        if start > RES_START && start < RES_END {
          if end < RES_END {
            return;
          }
          start := RES_END;
        }
        if end > RES_START && end < RES_END {
          end := RES_START;
        }
        assert TrimStart(entry) == start && TrimEnd(entry) == end;
        AddPages(base, pmap[..n], PageWords(entry));
        pmap[n] := PMap((start + 4095) % TWO64 / PAGE % TWO32, end / PAGE % TWO32);
        testPages := (testPages + (pmap[n].end - pmap[n].start) % TWO32) % TWO32;
        n' := n + 1;
      }
    }

    /** The loop of memsize_820 over the sanitised entries. */
    method ListEntries(newMap: array<Entry>, nr: nat)
      requires Valid() && nr <= newMap.Length && nr <= E820MAX
      requires forall k | 0 <= k < nr :: newMap[k].End() < TWO64
      modifies this`testPages, this`msegs, pmap
      ensures Valid() && Pages() == PageWordsOf(newMap[..nr])
      ensures testPages == (old(testPages) + PageSum(Pages())) % TWO32
    {
      var n := 0;
      var i := 0;
      assert newMap[..0] == [] && pmap[..0] == [];
      hide PageWordsOf, PageSum;
      while i < nr
        invariant 0 <= n <= i <= nr
        invariant pmap[..n] == PageWordsOf(newMap[..i])
        invariant testPages == (old(testPages) + PageSum(pmap[..n])) % TWO32
        modifies this`testPages, pmap
      {
        n := ListEntry(newMap[i], n, newMap[..i], old(testPages));
        assert newMap[..i + 1] == newMap[..i] + [newMap[i]];
        i := i + 1;
      }
      msegs := n;
    }

    /** Builds the page map from the BIOS map; false when there is no good map to build it from, in
        which case nothing here changes. */
    method MemSize820(e820: array<Entry>, e820Nr: nat) returns (good: bool)
      requires Valid() && e820Nr <= e820.Length && e820Nr <= E820MAX
      modifies this`testPages, this`msegs, pmap
      ensures Valid()
      ensures good ==> NoneWraps(e820[..e820Nr]) && BuiltFrom(e820[..e820Nr], Pages(), old(testPages), testPages)
      ensures !good && NoneWraps(e820[..e820Nr]) ==> IsSanitized(e820[..e820Nr], [])
      ensures !good ==> testPages == old(testPages) && msegs == old(msegs) && pmap[..] == old(pmap[..])
    {
      var newMap := new Entry[E820MAX];
      var nr := SanitizeE820Map(e820, newMap, e820Nr);
      if nr < 1 || nr > E820MAX {
        assert newMap[..0] == [];
        return false;
      }
      assert forall k | 0 <= k < nr :: newMap[..nr][k].End() < TWO64;
      ListEntries(newMap, nr);
      good := true;
    }

    /** Counts the selected pages: the pages of the map inside the limits. */
    method AdjMem()
      requires Valid()
      modifies this`selectedPages
      ensures plimLower <= plimUpper && WellRounded(Pages()) ==>
                selectedPages == ClipSum(Pages(), plimLower, plimUpper) % TWO32
    {
      selectedPages := 0;
      var i := 0;
      assert pmap[..0] == [];
      while i < msegs
        invariant 0 <= i <= msegs
        invariant plimLower <= plimUpper && WellRounded(Pages()) ==>
                    selectedPages == ClipSum(pmap[..i], plimLower, plimUpper) % TWO32
        modifies this`selectedPages
      {
        assert Pages()[i] == pmap[i];
        assert pmap[..i + 1] == pmap[..i] + [pmap[i]];
        AddClip(pmap[..i], pmap[i], plimLower, plimUpper);
        AddSelected(pmap[i]);
        i := i + 1;
      }
    }

    /** The loop body of adj_mem. */
    method AddSelected(r: PMap)
      modifies this`selectedPages
      ensures plimLower <= plimUpper && r.start <= r.end + 1 ==>
                selectedPages == (old(selectedPages) + Clip(r, plimLower, plimUpper) % TWO32) % TWO32
    {
      if r.start >= plimLower && r.end <= plimUpper {
        selectedPages := (selectedPages + (r.end - r.start) % TWO32) % TWO32;
        return;
      }
      if r.start < plimLower {
        if r.end < plimLower {
          return;
        }
        if r.end > plimUpper {
          selectedPages := (selectedPages + (plimUpper - plimLower) % TWO32) % TWO32;
        } else {
          selectedPages := (selectedPages + (r.end - plimLower) % TWO32) % TWO32;
        }
        return;
      }
      if r.end > plimUpper {
        if r.start > plimUpper {
          return;
        }
        selectedPages := (selectedPages + (plimUpper - r.start) % TWO32) % TWO32;
      }
    }
  }

  /** The page map listed for a BIOS map, and the 32-bit page total updated by it. */
  ghost predicate BuiltFrom(m: seq<Entry>, pm: seq<PMap>, total: u32, total': u32) {
    exists nm ::
      IsSanitized(m, nm) && nm != [] && pm == PageWordsOf(nm) && total' == (total + PageSum(pm)) % TWO32
  }

  lemma AddPages(base: int, pm: seq<PMap>, x: PMap)
    ensures PageSum(pm + [x]) == PageSum(pm) + x.end - x.start
    ensures (base + PageSum(pm + [x])) % TWO32
         == ((base + PageSum(pm)) % TWO32 + (x.end - x.start) % TWO32) % TWO32
  {
    assert (pm + [x])[..|pm|] == pm;
    ModAdd(base + PageSum(pm), x.end - x.start);
  }

  lemma AddClip(pm: seq<PMap>, r: PMap, lo: int, hi: int)
    ensures ClipSum(pm + [r], lo, hi) % TWO32 == (ClipSum(pm, lo, hi) % TWO32 + Clip(r, lo, hi) % TWO32) % TWO32
  {
    assert (pm + [r])[..|pm|] == pm;
    ModAdd(ClipSum(pm, lo, hi), Clip(r, lo, hi));
  }

  lemma ModAdd(a: int, b: int)
    ensures (a + b) % TWO32 == (a % TWO32 + b % TWO32) % TWO32
  {
    var k := a / TWO32 + b / TWO32;
    assert a + b == a % TWO32 + b % TWO32 + TWO32 * k;
  }
}
