/** The BIOS memory map: entries, what a map says about an address, and what it means for one map
    to be the sanitised form of another. */
module E820 {
  import opened Words

  const E820MAX := 32

  const RAM: u32 := 1
  const ACPI: u32 := 3

  datatype Entry = Entry(addr: u64, size: u64, typ: u32) {
    /** One past the last byte, without 64-bit wrap-around. */
    function End(): nat {
      addr + size
    }

    /** The 64-bit sum of address and size is below the address. */
    predicate Wraps() {
      (addr + size) % TWO64 < addr
    }

    predicate Covers(x: int) {
      addr <= x < End()
    }
  }

  function Max(a: nat, b: nat): nat {
    if a < b then b else a
  }

  predicate NoneWraps(m: seq<Entry>) {
    forall i | 0 <= i < |m| :: !m[i].Wraps()
  }

  /** What a map says about address x: the largest type among the entries covering x, or 0. */
  function TypeAt(m: seq<Entry>, x: int): (t: nat)
    ensures forall i | 0 <= i < |m| && m[i].Covers(x) :: m[i].typ <= t
    ensures t != 0 ==> exists i :: 0 <= i < |m| && m[i].Covers(x) && m[i].typ == t
  {
    if m == [] then
      0
    else
      var e := m[|m| - 1];
      var rest := TypeAt(m[..|m| - 1], x);
      assert forall i | 0 <= i < |m| - 1 :: m[..|m| - 1][i] == m[i];
      if e.Covers(x) then Max(rest, e.typ) else rest
  }

  /** A zero-size entry at address a whose type outranks every entry that does cover a. */
  ghost predicate Dominated(m: seq<Entry>, a: int) {
    exists i :: 0 <= i < |m| && m[i].addr == a && m[i].size == 0 && m[i].typ > TypeAt(m, a)
  }

  /** The addresses at which a sanitised map starts an entry: where the type changes to a non-zero
      value, and also where a dominating zero-size entry interrupts a run. */
  ghost predicate Boundary(m: seq<Entry>, a: int) {
    TypeAt(m, a) != 0 && (TypeAt(m, a - 1) != TypeAt(m, a) || Dominated(m, a))
  }

  ghost predicate StartsAt(out: seq<Entry>, a: int) {
    exists i :: 0 <= i < |out| && out[i].addr == a
  }

  /** Non-empty entries of non-zero type, in address order and pairwise disjoint. */
  ghost predicate Ascending(out: seq<Entry>) {
    && (forall i | 0 <= i < |out| :: out[i].size > 0 && out[i].typ != 0 && out[i].End() < TWO64)
    && (forall i, j | 0 <= i < j < |out| :: out[i].End() <= out[j].addr)
  }

  /** A full output table says nothing about addresses from the end of its last entry on. */
  ghost function Horizon(out: seq<Entry>): nat {
    if |out| < E820MAX then TWO64 else out[|out| - 1].End()
  }

  /** The denotational specification of sanitising: below the horizon both maps give every address
      the same type, and entries start exactly at the boundaries of the input. The last entry of a
      full table stops where the input's run stops. */
  ghost predicate IsSanitized(m: seq<Entry>, out: seq<Entry>) {
    && |out| <= E820MAX
    && Ascending(out)
    && (forall x | 0 <= x < Horizon(out) :: TypeAt(out, x) == TypeAt(m, x))
    && (forall a | 0 <= a < Horizon(out) :: StartsAt(out, a) <==> Boundary(m, a))
    && (|out| == E820MAX ==> RunStops(m, Horizon(out)))
  }

  /** No run of the map continues across address a. */
  ghost predicate RunStops(m: seq<Entry>, a: int) {
    TypeAt(m, a) == 0 || Boundary(m, a)
  }

  // ---------- facts about TypeAt ----------

  /** TypeAt is the only value that bounds the covering entries and is attained by one of them. */
  lemma TypeAtUnique(m: seq<Entry>, x: int, t: nat)
    requires forall i | 0 <= i < |m| && m[i].Covers(x) :: m[i].typ <= t
    requires t != 0 ==> exists i :: 0 <= i < |m| && m[i].Covers(x) && m[i].typ == t
    ensures TypeAt(m, x) == t
  {
  }

  lemma TypeAtSnoc(m: seq<Entry>, e: Entry, x: int)
    ensures TypeAt(m + [e], x) == if e.Covers(x) then Max(TypeAt(m, x), e.typ) else TypeAt(m, x)
  {
    assert (m + [e])[..|m|] == m;
  }

  lemma TypeAtNone(m: seq<Entry>, x: int)
    requires forall i | 0 <= i < |m| :: !m[i].Covers(x)
    ensures TypeAt(m, x) == 0
  {
  }

  /** In an ascending map, TypeAt is the type of the one entry covering the address. */
  lemma TypeAtEntry(out: seq<Entry>, i: nat, x: int)
    requires Ascending(out) && i < |out| && out[i].Covers(x)
    ensures TypeAt(out, x) == out[i].typ
  {
    assert forall j | 0 <= j < |out| && out[j].Covers(x) :: j == i;
    TypeAtUnique(out, x, out[i].typ);
  }
}
