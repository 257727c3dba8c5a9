/** The shifting patterns of the 32-bit moving inversions test. */
module Patterns {
  /** A pattern: its value at phase 0, its value at phase 31, and the bit shifted in (0 or 1). */
  datatype Pattern = Pattern(lb: bv32, hb: bv32, sval: bv32)

  /** The value at phase k: lb shifted left k times, with sval entering from the right. */
  function At(p: Pattern, k: nat): bv32 {
    if k == 0 then p.lb else (At(p, k - 1) << 1) | p.sval
  }

  /** What the downward pass ORs in from the left. */
  function P3(p: Pattern): bv32 {
    p.sval << 31
  }

  /** Shifting right undoes shifting left, all the way from phase 31 to phase 0. */
  ghost predicate Reversible(p: Pattern) {
    && At(p, 31) == p.hb
    && forall k | 0 < k < 32 :: (At(p, k) >> 1) | P3(p) == At(p, k - 1)
  }

  /** The two patterns the test is run with. */
  const WALKING_ONE := Pattern(1, 0x80000000, 0)
  const WALKING_ZERO := Pattern(0xfffffffe, 0x7fffffff, 1)

  lemma ShiftBack(x: bv32, s: bv32)
    requires (s == 0 && x & 0x80000000 == 0) || (s == 1 && x & 0x80000000 == 0x80000000)
    ensures (((x << 1) | s) >> 1) | (s << 31) == x
  {
  }

  /** The bit that is set at phase k, by nibble and by position in the nibble. */
  function Bit(k: nat): bv32
    requires k < 32
  {
    var low: bv32 := if k % 4 == 0 then 1 else if k % 4 == 1 then 2 else if k % 4 == 2 then 4 else 8;
    var nibble := k / 4;
    if nibble == 0 then low
    else if nibble == 1 then low << 4
    else if nibble == 2 then low << 8
    else if nibble == 3 then low << 12
    else if nibble == 4 then low << 16
    else if nibble == 5 then low << 20
    else if nibble == 6 then low << 24
    else low << 28
  }

  lemma BitDoubles(k: nat)
    requires 0 < k < 32
    ensures Bit(k) == Bit(k - 1) << 1
    ensures Bit(k - 1) & 0x80000000 == 0
  {
  }

  lemma {:induction false} WalkingOneIsBit(k: nat)
    requires k < 32
    ensures At(WALKING_ONE, k) == Bit(k)
  {
    if k == 0 {
      assert Bit(0) == 1;
    } else {
      hide Bit;
      WalkingOneIsBit(k - 1);
      BitDoubles(k);
    }
  }

  lemma ComplementShift(x: bv32)
    ensures ((!x) << 1) | 1 == !(x << 1)
    ensures x & 0x80000000 == 0 ==> !x & 0x80000000 == 0x80000000
  {
  }

  lemma {:induction false} WalkingZeroIsComplement(k: nat)
    requires k < 32
    ensures At(WALKING_ZERO, k) == !Bit(k)
  {
    if k > 0 {
      WalkingZeroIsComplement(k - 1);
      BitDoubles(k);
      ComplementShift(Bit(k - 1));
    }
  }

  lemma WalkingOneReversible()
    ensures Reversible(WALKING_ONE)
  {
    assert Bit(31) == 0x80000000;
    hide Bit;
    WalkingOneIsBit(31);
    forall k | 0 < k < 32 ensures (At(WALKING_ONE, k) >> 1) | P3(WALKING_ONE) == At(WALKING_ONE, k - 1) {
      WalkingOneIsBit(k - 1);
      BitDoubles(k);
      ShiftBack(At(WALKING_ONE, k - 1), 0);
    }
  }

  lemma WalkingZeroReversible()
    ensures Reversible(WALKING_ZERO)
  {
    assert Bit(31) == 0x80000000;
    hide Bit;
    WalkingZeroIsComplement(31);
    forall k | 0 < k < 32 ensures (At(WALKING_ZERO, k) >> 1) | P3(WALKING_ZERO) == At(WALKING_ZERO, k - 1) {
      WalkingZeroIsComplement(k - 1);
      BitDoubles(k);
      ComplementShift(Bit(k - 1));
      ShiftBack(At(WALKING_ZERO, k - 1), 1);
    }
  }
}
