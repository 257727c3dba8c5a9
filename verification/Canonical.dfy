/** What IsSanitized pins down: the sanitised map is unique, so it does not depend on the order or
    multiplicity of the input entries, and sanitising twice changes nothing exactly when no
    dominated zero-size entry splits a run. */
module Canonical {
  import opened E820
  import opened Words

  /** Both maps give every address the same type and have the same boundaries. */
  ghost predicate SameMeaning(m1: seq<Entry>, m2: seq<Entry>) {
    forall a :: 0 <= a <= TWO64 ==> TypeAt(m1, a) == TypeAt(m2, a) && (Boundary(m1, a) <==> Boundary(m2, a))
  }

  /** What IsSanitized says about one address. */
  lemma SanitizedAt(m: seq<Entry>, o: seq<Entry>, x: int)
    requires IsSanitized(m, o) && 0 <= x
    ensures Ascending(o) && |o| <= E820MAX
    ensures x < Horizon(o) ==> TypeAt(o, x) == TypeAt(m, x) && (StartsAt(o, x) <==> Boundary(m, x))
    ensures x == Horizon(o) && |o| == E820MAX ==> RunStops(m, x)
  {
    hide TypeAt, StartsAt, Boundary, Horizon, Ascending, RunStops;
  }

  lemma SameMeaningAt(m1: seq<Entry>, m2: seq<Entry>, x: int)
    requires SameMeaning(m1, m2) && 0 <= x <= TWO64
    ensures TypeAt(m1, x) == TypeAt(m2, x) && (Boundary(m1, x) <==> Boundary(m2, x))
  {
    hide TypeAt, Boundary;
  }

  /** Where one of the two outputs starts an entry, so does the other. */
  lemma StartsInBoth(m1: seq<Entry>, m2: seq<Entry>, o1: seq<Entry>, o2: seq<Entry>, k: nat)
    requires IsSanitized(m1, o1) && IsSanitized(m2, o2) && SameMeaning(m1, m2)
    requires k < |o1| && o1[k].addr < Horizon(o1) && o1[k].addr < Horizon(o2)
    ensures StartsAt(o2, o1[k].addr)
  {
    hide IsSanitized, SameMeaning, TypeAt, Boundary, Horizon;
    assert StartsAt(o1, o1[k].addr);
    SanitizedAt(m1, o1, o1[k].addr);
    SanitizedAt(m2, o2, o1[k].addr);
    SameMeaningAt(m1, m2, o1[k].addr);
  }

  lemma SameStart(m1: seq<Entry>, m2: seq<Entry>, o1: seq<Entry>, o2: seq<Entry>, i: nat)
    requires IsSanitized(m1, o1) && IsSanitized(m2, o2) && SameMeaning(m1, m2)
    requires i < |o1| && i < |o2| && o1[..i] == o2[..i]
    ensures o1[i].addr >= o2[i].addr
  {
    hide IsSanitized, SameMeaning, Ascending, StartsAt, Horizon;
    var a := o1[i].addr;
    SanitizedAt(m1, o1, 0);
    SanitizedAt(m2, o2, 0);
    if a < o2[i].addr {
      EndBelowHorizon(o1, i);
      EndBelowHorizon(o2, i);
      StartsInBoth(m1, m2, o1, o2, i);
      NotStartedYet(o1, o2, i);
    }
  }

  lemma NotStartedYet(o1: seq<Entry>, o2: seq<Entry>, i: nat)
    requires Ascending(o1) && Ascending(o2) && i < |o1| && i < |o2| && o1[..i] == o2[..i]
    requires o1[i].addr < o2[i].addr
    ensures !StartsAt(o2, o1[i].addr)
  {
    forall j | 0 <= j < |o2| ensures o2[j].addr != o1[i].addr {
      if j < i {
        assert o2[j] == o2[..i][j] == o1[j];
      }
    }
  }

  /** Inside an entry of an ascending map no entry starts. */
  lemma InsideEntry(o: seq<Entry>, i: nat, x: int)
    requires Ascending(o) && i < |o| && o[i].addr < x < o[i].End()
    ensures !StartsAt(o, x) && TypeAt(o, x) == o[i].typ != 0
  {
    hide TypeAt;
    TypeAtEntry(o, i, x);
    forall j | 0 <= j < |o| ensures o[j].addr != x {
    }
  }

  /** Where an entry ends, another starts or nothing is covered. */
  lemma PastEntry(o: seq<Entry>, i: nat)
    requires Ascending(o) && i < |o| && !StartsAt(o, o[i].End())
    ensures TypeAt(o, o[i].End()) == 0
  {
    hide TypeAt;
    forall j | 0 <= j < |o| ensures !o[j].Covers(o[i].End()) {
      assert o[j].addr != o[i].End();
    }
    TypeAtNone(o, o[i].End());
  }

  lemma SameEnd(m1: seq<Entry>, m2: seq<Entry>, o1: seq<Entry>, o2: seq<Entry>, i: nat)
    requires IsSanitized(m1, o1) && IsSanitized(m2, o2) && SameMeaning(m1, m2)
    requires i < |o1| && i < |o2| && o1[i].addr == o2[i].addr && o1[i].typ == o2[i].typ
    ensures o1[i].End() >= o2[i].End()
  {
    hide IsSanitized, SameMeaning, Ascending, StartsAt, TypeAt, Boundary;
    var x := o1[i].End();
    SanitizedAt(m1, o1, x);
    SanitizedAt(m2, o2, x);
    EndBelowHorizon(o1, i);
    EndBelowHorizon(o2, i);
    if x < o2[i].End() {
      InsideEntry(o2, i, x);
      SameMeaningAt(m1, m2, x);
      if x < Horizon(o1) {
        PastEntry(o1, i);
      }
    }
  }

  /** The sanitised map is determined by what the input means. */
  lemma {:induction false} PrefixUnique(m1: seq<Entry>, m2: seq<Entry>, o1: seq<Entry>, o2: seq<Entry>, n: nat)
    requires IsSanitized(m1, o1) && IsSanitized(m2, o2) && SameMeaning(m1, m2)
    requires n <= |o1| && n <= |o2|
    ensures o1[..n] == o2[..n]
  {
    if n > 0 {
      var i := n - 1;
      PrefixUnique(m1, m2, o1, o2, i);
      SameStart(m1, m2, o1, o2, i);
      SameStart(m2, m1, o2, o1, i);
      SameType(m1, m2, o1, o2, i);
      SameEnd(m1, m2, o1, o2, i);
      SameEnd(m2, m1, o2, o1, i);
      assert o1[i] == o2[i];
      assert o1[..n] == o1[..i] + [o1[i]];
      assert o2[..n] == o2[..i] + [o2[i]];
    }
  }

  lemma EndBelowHorizon(o: seq<Entry>, i: nat)
    requires Ascending(o) && i < |o|
    ensures o[i].addr < o[i].End() <= Horizon(o) && o[i].End() < TWO64
  {
    assert i < |o| - 1 ==> o[i].End() <= o[|o| - 1].addr;
  }

  lemma SameType(m1: seq<Entry>, m2: seq<Entry>, o1: seq<Entry>, o2: seq<Entry>, i: nat)
    requires IsSanitized(m1, o1) && IsSanitized(m2, o2) && SameMeaning(m1, m2)
    requires i < |o1| && i < |o2| && o1[i].addr == o2[i].addr
    ensures o1[i].typ == o2[i].typ
  {
    hide IsSanitized, SameMeaning, Ascending, StartsAt, TypeAt, Boundary, Horizon;
    var a := o1[i].addr;
    SanitizedAt(m1, o1, a);
    SanitizedAt(m2, o2, a);
    EndBelowHorizon(o1, i);
    EndBelowHorizon(o2, i);
    SameMeaningAt(m1, m2, a);
    TypeAtEntry(o1, i, a);
    TypeAtEntry(o2, i, a);
  }

  lemma NotLonger(m1: seq<Entry>, m2: seq<Entry>, o1: seq<Entry>, o2: seq<Entry>)
    requires IsSanitized(m1, o1) && IsSanitized(m2, o2) && SameMeaning(m1, m2)
    requires |o1| <= |o2| && o1 == o2[..|o1|]
    ensures o1 == o2
  {
    if |o1| < |o2| {
      EndBelowHorizon(o2, |o1|);
      StartsInBoth(m2, m1, o2, o1, |o1|);
    }
  }

  lemma Unique(m1: seq<Entry>, m2: seq<Entry>, o1: seq<Entry>, o2: seq<Entry>)
    requires IsSanitized(m1, o1) && IsSanitized(m2, o2) && SameMeaning(m1, m2)
    ensures o1 == o2
  {
    if |o1| <= |o2| {
      PrefixUnique(m1, m2, o1, o2, |o1|);
      NotLonger(m1, m2, o1, o2);
    } else {
      PrefixUnique(m1, m2, o1, o2, |o2|);
      NotLonger(m2, m1, o2, o1);
    }
  }

  // ---------- order independence ----------

  lemma SameEntriesSameType(m1: seq<Entry>, m2: seq<Entry>, x: int)
    requires forall e :: e in m1 <==> e in m2
    ensures TypeAt(m1, x) == TypeAt(m2, x)
  {
    forall i | 0 <= i < |m1| && m1[i].Covers(x) ensures m1[i].typ <= TypeAt(m2, x) {
      assert m1[i] in m2;
    }
    forall i | 0 <= i < |m2| && m2[i].Covers(x) ensures m2[i].typ <= TypeAt(m1, x) {
      assert m2[i] in m1;
    }
  }

  lemma SameEntriesDominated(m1: seq<Entry>, m2: seq<Entry>, a: int)
    requires forall e :: e in m1 <==> e in m2
    requires Dominated(m1, a)
    ensures Dominated(m2, a)
  {
    SameEntriesSameType(m1, m2, a);
    var i :| 0 <= i < |m1| && m1[i].addr == a && m1[i].size == 0 && m1[i].typ > TypeAt(m1, a);
    assert m1[i] in m2;
  }

  /** Two maps with the same entries, in any order and any multiplicity, have one sanitised form. */
  lemma OrderIndependent(m1: seq<Entry>, m2: seq<Entry>, o1: seq<Entry>, o2: seq<Entry>)
    requires forall e :: e in m1 <==> e in m2
    requires IsSanitized(m1, o1) && IsSanitized(m2, o2)
    ensures o1 == o2
  {
    forall a | 0 <= a <= TWO64
      ensures TypeAt(m1, a) == TypeAt(m2, a) && (Boundary(m1, a) <==> Boundary(m2, a))
    {
      SameEntriesSameType(m1, m2, a);
      SameEntriesSameType(m1, m2, a - 1);
      if Dominated(m1, a) { SameEntriesDominated(m1, m2, a); }
      if Dominated(m2, a) { SameEntriesDominated(m2, m1, a); }
    }
    Unique(m1, m2, o1, o2);
  }

  // ---------- sanitising twice ----------

  /** A zero-size entry interrupts a run of one type below address h. */
  ghost predicate SplitsBelow(m: seq<Entry>, h: int) {
    exists a :: 0 <= a < h && Split(m, a)
  }

  ghost predicate Split(m: seq<Entry>, a: int) {
    TypeAt(m, a) != 0 && TypeAt(m, a - 1) == TypeAt(m, a) && Dominated(m, a)
  }

  /** Entries that touch have different types. */
  ghost predicate Canonical(o: seq<Entry>) {
    forall i, j | 0 <= i < |o| && 0 <= j < |o| && o[i].End() == o[j].addr :: o[i].typ != o[j].typ
  }

  lemma CoveringEntry(o: seq<Entry>, x: int) returns (i: nat)
    requires TypeAt(o, x) != 0
    ensures i < |o| && o[i].Covers(x) && o[i].typ == TypeAt(o, x)
  {
    i :| 0 <= i < |o| && o[i].Covers(x) && o[i].typ == TypeAt(o, x);
  }

  /** Some entry of the same type ends where entry j starts. */
  ghost predicate TouchedAlike(o: seq<Entry>, j: nat)
    requires j < |o|
  {
    exists i :: 0 <= i < |o| && o[i].End() == o[j].addr && o[i].typ == o[j].typ
  }

  lemma TouchedFromType(o: seq<Entry>, j: nat)
    requires Ascending(o) && j < |o| && TypeAt(o, o[j].addr - 1) == o[j].typ
    ensures TouchedAlike(o, j)
  {
    var i := CoveringEntry(o, o[j].addr - 1);
    EndsAtStart(o, i, j);
  }

  lemma TypeFromTouched(o: seq<Entry>, i: nat, j: nat)
    requires Ascending(o) && i < |o| && j < |o| && o[i].End() == o[j].addr
    ensures TypeAt(o, o[j].addr - 1) == o[i].typ
  {
    TypeAtEntry(o, i, o[j].addr - 1);
  }

  /** Where an entry of an ascending map starts, the type just below is the same exactly when an entry
      of that type touches it. */
  lemma TouchingType(o: seq<Entry>, j: nat)
    requires Ascending(o) && j < |o|
    ensures TypeAt(o, o[j].addr) == o[j].typ
    ensures TypeAt(o, o[j].addr - 1) == o[j].typ <==> TouchedAlike(o, j)
  {
    TypeAtEntry(o, j, o[j].addr);
    if TypeAt(o, o[j].addr - 1) == o[j].typ {
      TouchedFromType(o, j);
    }
    if TouchedAlike(o, j) {
      var i :| 0 <= i < |o| && o[i].End() == o[j].addr && o[i].typ == o[j].typ;
      TypeFromTouched(o, i, j);
    }
  }

  lemma EndsAtStart(o: seq<Entry>, i: nat, j: nat)
    requires Ascending(o) && i < |o| && j < |o| && o[i].Covers(o[j].addr - 1)
    ensures o[i].End() == o[j].addr
  {
  }

  lemma SplitTouches(m: seq<Entry>, o: seq<Entry>, a: int)
    requires IsSanitized(m, o) && 0 <= a < Horizon(o) && Split(m, a)
    ensures !Canonical(o)
  {
    assert StartsAt(o, a);
    var j :| 0 <= j < |o| && o[j].addr == a;
    TouchingType(o, j);
    SameBelow(m, o, a);
  }

  /** The type just below an address is the same too (there is nothing below address 0). */
  lemma SameBelow(m: seq<Entry>, o: seq<Entry>, a: int)
    requires IsSanitized(m, o) && 0 <= a < Horizon(o)
    ensures TypeAt(o, a) == TypeAt(m, a) && TypeAt(o, a - 1) == TypeAt(m, a - 1)
  {
    hide TypeAt, Ascending, Boundary, StartsAt, Horizon;
    if a == 0 {
      TypeAtNone(m, -1);
      TypeAtNone(o, -1);
    }
  }

  /** The output is canonical exactly when no zero-size entry splits a run of the input. */
  lemma CanonicalIffNoSplit(m: seq<Entry>, o: seq<Entry>)
    requires IsSanitized(m, o)
    ensures Canonical(o) <==> !SplitsBelow(m, Horizon(o))
  {
    if SplitsBelow(m, Horizon(o)) {
      var a :| 0 <= a < Horizon(o) && Split(m, a);
      SplitTouches(m, o, a);
    }
    forall i, j | 0 <= i < |o| && 0 <= j < |o| && o[i].End() == o[j].addr && o[i].typ == o[j].typ
      ensures SplitsBelow(m, Horizon(o))
    {
      TouchIsSplit(m, o, i, j);
    }
  }

  lemma TouchIsSplit(m: seq<Entry>, o: seq<Entry>, i: nat, j: nat)
    requires IsSanitized(m, o)
    requires i < |o| && j < |o| && o[i].End() == o[j].addr && o[i].typ == o[j].typ
    ensures SplitsBelow(m, Horizon(o))
  {
    hide IsSanitized, Ascending, TypeAt, Horizon, Dominated;
    var a := o[j].addr;
    SanitizedAt(m, o, a);
    EndBelowHorizon(o, j);
    TouchingType(o, j);
    assert TouchedAlike(o, j);
    SameBelow(m, o, a);
    EntryTyped(o, j);
    assert StartsAt(o, a);
    assert Split(m, a);
  }

  lemma EntryTyped(o: seq<Entry>, j: nat)
    requires Ascending(o) && j < |o|
    ensures o[j].typ != 0
  {
  }

  /** A map without zero-size entries always sanitises to a canonical map. */
  lemma NoEmptyEntriesCanonical(m: seq<Entry>, o: seq<Entry>)
    requires IsSanitized(m, o)
    requires forall i | 0 <= i < |m| :: m[i].size != 0
    ensures Canonical(o)
  {
    CanonicalIffNoSplit(m, o);
  }

  lemma CanonicalBoundary(o: seq<Entry>, a: int)
    requires Ascending(o) && Canonical(o)
    ensures StartsAt(o, a) <==> Boundary(o, a)
  {
    if StartsAt(o, a) {
      var j :| 0 <= j < |o| && o[j].addr == a;
      TouchingType(o, j);
    }
    if Boundary(o, a) {
      var i := CoveringEntry(o, a);
      if o[i].addr < a { TypeAtEntry(o, i, a - 1); }
      assert o[i].addr == a;
    }
  }

  /** A canonical map is its own sanitised form, and no other map is. */
  lemma SelfSanitizedIffCanonical(o: seq<Entry>)
    requires Ascending(o) && |o| <= E820MAX
    ensures IsSanitized(o, o) <==> Canonical(o)
  {
    if Canonical(o) {
      forall a ensures StartsAt(o, a) <==> Boundary(o, a) {
        CanonicalBoundary(o, a);
      }
      if |o| == E820MAX {
        var h := Horizon(o);
        forall i | 0 <= i < |o| ensures !o[i].Covers(h) { EndBelowHorizon(o, i); }
        TypeAtNone(o, h);
      }
    }
    if IsSanitized(o, o) {
      assert !SplitsBelow(o, Horizon(o));
      CanonicalIffNoSplit(o, o);
    }
  }

  /** Sanitising the result again changes nothing exactly when no zero-size entry of the original map
      splits a run below the horizon. */
  lemma SanitizedTwice(m: seq<Entry>, o: seq<Entry>, o2: seq<Entry>)
    requires IsSanitized(m, o) && IsSanitized(o, o2)
    ensures o2 == o <==> !SplitsBelow(m, Horizon(o))
  {
    CanonicalIffNoSplit(m, o);
    SelfSanitizedIffCanonical(o);
    if IsSanitized(o, o) {
      Unique(o, o, o, o2);
    }
  }

  /** A concrete split: a zero-size reserved entry in the middle of RAM. */
  lemma SplitExample()
    ensures var m := [Entry(0, 10, RAM), Entry(5, 0, 2)];
            Split(m, 5)
  {
    var m := [Entry(0, 10, RAM), Entry(5, 0, 2)];
    assert m[..1] == [Entry(0, 10, RAM)];
    assert TypeAt(m, 5) == 1 && TypeAt(m, 4) == 1;
    assert m[1].addr == 5;
  }
}
