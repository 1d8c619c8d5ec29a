/**
  Sizes in the buddy allocator: requests are rounded to allocation units of eight bytes and then
  to a power of two, in machine words whose widths matter.
 */
module BuddySize {
  import opened Powers

  const WORD32 := 0x1_0000_0000
  const WORD64 := 0x1_0000_0000_0000_0000
  const ALIGN_BYTES := 8
  const TWO_31 := 0x8000_0000
  const TWO_61 := 0x2000_0000_0000_0000

  // ---------------------------------------------------------------------------------------------
  // Bitwise operations on machine words

  function Or(x: nat, y: nat): nat {
    if x == 0 && y == 0 then 0
    else (if x % 2 == 1 || y % 2 == 1 then 1 else 0) + 2 * Or(x / 2, y / 2)
  }

  function And(x: nat, y: nat): nat {
    if x == 0 || y == 0 then 0
    else (if x % 2 == 1 && y % 2 == 1 then 1 else 0) + 2 * And(x / 2, y / 2)
  }

  predicate Bit(x: nat, i: nat) {
    if i == 0 then x % 2 == 1 else Bit(x / 2, i - 1)
  }

  lemma OrHalves(x: nat, y: nat)
    ensures Or(x, y) / 2 == Or(x / 2, y / 2)
    ensures Or(x, y) % 2 == 1 <==> x % 2 == 1 || y % 2 == 1
  {
  }

  lemma {:induction false} OrBit(x: nat, y: nat, i: nat)
    ensures Bit(Or(x, y), i) <==> Bit(x, i) || Bit(y, i)
  {
    hide Or;
    OrHalves(x, y);
    if i > 0 {
      OrBit(x / 2, y / 2, i - 1);
    }
  }

  lemma {:induction false} ZeroBit(i: nat)
    ensures !Bit(0, i)
  {
    if i > 0 {
      ZeroBit(i - 1);
    }
  }

  lemma {:induction false} ShiftBit(x: nat, k: nat, i: nat)
    ensures Bit(ShiftRight(x, k), i) <==> Bit(x, i + k)
  {
    if k > 0 {
      ShiftBit(x / 2, k - 1, i);
      assert Bit(x, i + k) == Bit(x / 2, i + k - 1);
    }
  }

  /** Exactly the bits below len that are at least lo are known to be set, none above. */
  ghost predicate TopOnes(x: nat, len: nat, lo: int) {
    && (forall i: nat | lo <= i < len :: Bit(x, i))
    && (forall i: nat | len <= i :: !Bit(x, i))
  }

  lemma SmearStep(x: nat, len: nat, lo: int, k: nat)
    requires TopOnes(x, len, lo) && lo <= len - k
    ensures TopOnes(Or(x, ShiftRight(x, k)), len, lo - k)
  {
    var y := Or(x, ShiftRight(x, k));
    forall i: nat | lo - k <= i < len ensures Bit(y, i) {
      OrBit(x, ShiftRight(x, k), i);
      ShiftBit(x, k, i);
      var j := i + k;
      assert i < lo ==> Bit(x, j);
    }
    forall i: nat | len <= i ensures !Bit(y, i) {
      OrBit(x, ShiftRight(x, k), i);
      ShiftBit(x, k, i);
      var j := i + k;
      assert !Bit(x, j);
    }
  }

  lemma {:induction false} AllOnes(x: nat, len: nat)
    requires TopOnes(x, len, 0)
    ensures x == Pow2(len) - 1
    decreases len
  {
    if len == 0 {
      NoBits(x);
    } else {
      assert Bit(x, 0);
      forall i: nat ensures Bit(x / 2, i) == Bit(x, i + 1) {
      }
      AllOnes(x / 2, len - 1);
    }
  }

  lemma {:induction false} NoBits(x: nat)
    requires forall i: nat :: !Bit(x, i)
    ensures x == 0
  {
    if x > 0 {
      assert !Bit(x, 0);
      forall i: nat ensures !Bit(x / 2, i) {
        assert Bit(x / 2, i) == Bit(x, i + 1);
      }
      NoBits(x / 2);
    }
  }

  /** The length of x in bits, and its leading one. */
  lemma {:induction false} Leading(x: nat) returns (len: nat)
    requires x > 0
    ensures len > 0 && Pow2(len - 1) <= x < Pow2(len) && TopOnes(x, len, len - 1)
  {
    if x == 1 {
      len := 1;
      forall i: nat | 1 <= i ensures !Bit(1, i) {
        ZeroBit(i - 1);
      }
    } else {
      var n := Leading(x / 2);
      len := n + 1;
      forall i: nat | n <= i < n + 1 ensures Bit(x, i) {
        assert Bit(x, i) == Bit(x / 2, i - 1);
      }
      forall i: nat | n + 1 <= i ensures !Bit(x, i) {
        assert Bit(x, i) == Bit(x / 2, i - 1);
      }
    }
  }

  // ---------------------------------------------------------------------------------------------
  // Rounding to a power of two

  ghost predicate IsPow2(x: nat) {
    exists k: nat :: x == Pow2(k)
  }

  /** is_pow_of_2 on a 32-bit word; zero passes. */
  predicate Pow2Test(x: nat) {
    And(x, (x + WORD32 - 1) % WORD32) == 0
  }

  lemma {:induction false} AndPredecessor(x: nat)
    requires x > 0
    ensures And(x, x - 1) == 0 <==> IsPow2(x)
  {
    if x % 2 == 1 {
      AndSelf(x / 2);
      if x == 1 {
        assert x == Pow2(0);
      } else {
        assert (x - 1) / 2 == x / 2;
        forall k: nat ensures x != Pow2(k) {
          assert k > 0 ==> Pow2(k) == 2 * Pow2(k - 1);
        }
      }
    } else {
      AndPredecessor(x / 2);
      assert (x - 1) / 2 == x / 2 - 1;
      if IsPow2(x) {
        var k: nat :| x == Pow2(k);
        assert x / 2 == Pow2(k - 1);
      }
      if IsPow2(x / 2) {
        var k: nat :| x / 2 == Pow2(k);
        assert x == Pow2(k + 1);
      }
    }
  }

  lemma {:induction false} AndSelf(x: nat)
    ensures And(x, x) == x
  {
    if x > 0 {
      AndSelf(x / 2);
    }
  }

  lemma Pow2TestExact(x: nat)
    requires x < WORD32
    ensures Pow2Test(x) <==> x == 0 || IsPow2(x)
  {
    if x > 0 {
      assert (x + WORD32 - 1) % WORD32 == x - 1;
      AndPredecessor(x);
    }
  }

  function Smear(x: nat): nat {
    var x1 := Or(x, ShiftRight(x, 1));
    var x2 := Or(x1, ShiftRight(x1, 2));
    var x4 := Or(x2, ShiftRight(x2, 4));
    var x8 := Or(x4, ShiftRight(x4, 8));
    var x16 := Or(x8, ShiftRight(x8, 16));
    var x32 := Or(x16, ShiftRight(x16, 32));
    Or(x32, ShiftRight(x32, 32))
  }

  /** next_pow_of_2 on a 64-bit word: its power-of-two test looks at the lower half only. */
  function NextPow2(x: nat): nat {
    if Pow2Test(x % WORD32) then x else (Smear(x) + 1) % WORD64
  }

  lemma SmallPowers()
    ensures Pow2(1) == 2 && Pow2(2) == 4 && Pow2(4) == 16 && Pow2(10) == 1024
  {
  }

  lemma Pow2Words()
    ensures Pow2(28) == 0x1000_0000 && Pow2(29) == 0x2000_0000
    ensures Pow2(30) == 0x4000_0000 && Pow2(31) == TWO_31 && Pow2(32) == WORD32
    ensures Pow2(61) == TWO_61 && Pow2(64) == WORD64
  {
    hide Pow2;
    SmallPowers();
    Pow2Split(20, 10);
    Pow2Split(30, 10);
    Pow2Split(29, 28);
    Pow2Split(30, 28);
    Pow2Split(31, 30);
    Pow2Split(32, 30);
    Pow2Split(60, 30);
    Pow2Split(61, 60);
    Pow2Split(64, 60);
  }

  lemma SmearExact(x: nat, len: nat)
    requires len > 0 && len <= 64 && TopOnes(x, len, len - 1)
    ensures Smear(x) == Pow2(len) - 1
  {
    var x1 := Or(x, ShiftRight(x, 1));
    SmearMore(x, len, len - 1, 1);
    var x2 := Or(x1, ShiftRight(x1, 2));
    SmearMore(x1, len, len - 2, 2);
    var x4 := Or(x2, ShiftRight(x2, 4));
    SmearMore(x2, len, len - 4, 4);
    var x8 := Or(x4, ShiftRight(x4, 8));
    SmearMore(x4, len, len - 8, 8);
    var x16 := Or(x8, ShiftRight(x8, 16));
    SmearMore(x8, len, len - 16, 16);
    var x32 := Or(x16, ShiftRight(x16, 32));
    SmearMore(x16, len, len - 32, 32);
    SmearMore(x32, len, len - 64, 32);
    AllOnes(Smear(x), len);
  }

  /** Once all bits are set, further shifts change nothing. */
  lemma SmearMore(x: nat, len: nat, lo: int, k: nat)
    requires TopOnes(x, len, lo) && len - k >= lo
    ensures TopOnes(Or(x, ShiftRight(x, k)), len, lo - k)
  {
    SmearStep(x, len, lo, k);
  }

  /** The least power of two that is not below x. */
  ghost predicate LeastPow2(p: nat, x: nat) {
    IsPow2(p) && x <= p && p < 2 * x
  }

  lemma SmearIsNextPow2(x: nat)
    requires 0 < x < TWO_61 && !IsPow2(x)
    ensures Smear(x) + 1 < WORD64 && LeastPow2(Smear(x) + 1, x)
  {
    Pow2Words();
    hide Smear;
    var len := Leading(x);
    if len > 61 {
      Pow2Monotone(61, len - 1);
    }
    Pow2Monotone(len, 61);
    SmearExact(x, len);
    assert x != Pow2(len - 1);
  }

  /** A power of two that is at least 2^32 has a zero lower word. */
  lemma LargePow2(p: nat)
    requires IsPow2(p) && p > TWO_31
    ensures p % WORD32 == 0
  {
    Pow2Words();
    var k: nat :| p == Pow2(k);
    if k < 32 {
      Pow2Monotone(k, 31);
    }
    Pow2Split(k, 32);
    assert (Pow2(k - 32) * WORD32) % WORD32 == 0;
  }

  lemma SmallPow2(p: nat)
    requires IsPow2(p) && p < TWO_31
    ensures p <= 0x4000_0000
  {
    Pow2Words();
    var k: nat :| p == Pow2(k);
    if k > 30 {
      Pow2Monotone(31, k);
    }
    Pow2Monotone(k, 30);
  }

  lemma NextPow2Exact(x: nat)
    requires 0 < x <= TWO_61
    ensures x <= TWO_31 ==> LeastPow2(NextPow2(x), x)
    ensures x > TWO_31 && Pow2Test(x % WORD32) ==> NextPow2(x) == x
    ensures x > TWO_31 && !Pow2Test(x % WORD32) ==> NextPow2(x) % WORD32 == 0
  {
    hide Smear, Pow2Test;
    Pow2TestExact(x % WORD32);
    assert TWO_61 % WORD32 == 0;
    if x <= TWO_31 {
      if !IsPow2(x) {
        SmearIsNextPow2(x);
      }
    } else if !Pow2Test(x % WORD32) {
      if IsPow2(x) {
        LargePow2(x);
      }
      SmearIsNextPow2(x);
      LargePow2(Smear(x) + 1);
    }
  }

  /** Conversion of a 64-bit word to int and back to size_t. */
  function ThroughInt(x: nat): nat {
    var low := x % WORD32;
    if low < 0x8000_0000 then low else WORD64 - (WORD32 - low)
  }

  /** The least number of allocation units that holds `bytes` bytes. */
  function Units(bytes: nat): (units: nat)
    ensures bytes <= units * 8 < bytes + 8
  {
    var size := bytes / ALIGN_BYTES;
    if size * ALIGN_BYTES < bytes then size + 1 else size
  }

  /** The size that dart_buddy_alloc looks for, as computed from the units requested. */
  function RoundedSize(units: nat): nat {
    ThroughInt(NextPow2(units))
  }

  /** The request is refused as too large, or the size looked for is the right one. */
  ghost predicate Honoured(units: nat, level: nat) {
    RoundedSize(units) > Pow2(level) || LeastPow2(RoundedSize(units), units)
  }

  /** Up to 2^31 units the size looked for is the rounded one, but 2^31 itself becomes huge. */
  lemma RoundedSizeExact(units: nat)
    requires 0 < units <= TWO_31
    ensures LeastPow2(NextPow2(units), units)
    ensures NextPow2(units) <= 0x4000_0000 ==> RoundedSize(units) == NextPow2(units)
    ensures NextPow2(units) > 0x4000_0000 ==> RoundedSize(units) == WORD64 - TWO_31 && units > 0x4000_0000
  {
    hide NextPow2, Pow2Test, IsPow2;
    NextPow2Exact(units);
    var p := NextPow2(units);
    if p < TWO_31 {
      SmallPow2(p);
    } else if p > TWO_31 {
      assert p < WORD32;
      LargePow2(p);
    }
  }

  lemma PoolSize(level: nat)
    requires level <= 30
    ensures Pow2(level) <= 0x4000_0000
  {
    Pow2Words();
    Pow2Monotone(level, 30);
  }

  /**
    Rounding is right from one unit up to 2^31 units. Above, it is right only by chance: the request is refused
    as it should be just when the lower word of its size is a power of two beyond the pool.
   */
  lemma HonouredExactly(units: nat, level: nat)
    requires units <= TWO_61 && level <= 30
    ensures Honoured(units, level) <==>
      || 0 < units <= TWO_31
      || (units > TWO_31 && IsPow2(units % WORD32) && units % WORD32 > Pow2(level))
  {
    PoolSize(level);
    if units == 0 {
      Pow2TestExact(0);
    } else if units <= TWO_31 {
      RoundedSizeExact(units);
    } else {
      NextPow2Exact(units);
      Pow2TestExact(units % WORD32);
    }
  }

  /** The size looked for is a power of two, or zero, or larger than any pool. */
  lemma RoundedSizeForms(units: nat)
    requires units <= TWO_61
    ensures RoundedSize(units) == 0 || IsPow2(RoundedSize(units)) || RoundedSize(units) > 0x4000_0000
  {
    hide Smear, And;
    if units == 0 {
      Pow2TestExact(0);
    } else if units <= TWO_31 {
      RoundedSizeExact(units);
    } else {
      NextPow2Exact(units);
      Pow2TestExact(units % WORD32);
    }
  }

  /**
    The size looked for is zero exactly for an empty request and for those above 2^31 units whose
    lower word is zero or not a power of two.
   */
  lemma RoundedSizeZero(units: nat)
    requires units <= TWO_61
    ensures RoundedSize(units) == 0 <==>
      units == 0 || (units > TWO_31 && (units % WORD32 == 0 || !IsPow2(units % WORD32)))
  {
    hide Smear, And;
    if units == 0 {
      Pow2TestExact(0);
    } else if units <= TWO_31 {
      RoundedSizeExact(units);
    } else {
      NextPow2Exact(units);
      Pow2TestExact(units % WORD32);
    }
  }

  lemma Pow2Order(p: nat, level: nat, units: nat)
    requires LeastPow2(p, units)
    ensures p > Pow2(level) <==> units > Pow2(level)
  {
    var k: nat :| p == Pow2(k);
    if k <= level {
      Pow2Monotone(k, level);
    } else {
      Pow2Monotone(level, k);
    }
  }

  /** Refusal means that the request exceeds the pool, wherever rounding is right. */
  lemma RefusedMeansTooLarge(units: nat, level: nat)
    requires 0 < units <= TWO_31 && level <= 30
    ensures RoundedSize(units) > Pow2(level) <==> units > Pow2(level)
  {
    PoolSize(level);
    RoundedSizeExact(units);
    Pow2Order(NextPow2(units), level, units);
  }

  /** A request of 2^32 + 1 units is taken for a request of one unit. */
  lemma LargeRequestIsTruncated()
    ensures RoundedSize(WORD32 + 1) == 1 && !Honoured(WORD32 + 1, 0)
  {
    hide Smear, Pow2Test;
    Pow2TestExact(1);
    assert Pow2(0) == 1;
  }

  // ---------------------------------------------------------------------------------------------
  // Offsets

  /** The value of an int computation that may wrap around. */
  function WrapInt(x: int): (w: int)
    ensures -0x8000_0000 <= w < 0x8000_0000 && (x - w) % WORD32 == 0
  {
    var w := x % WORD32;
    if w < 0x8000_0000 then w else w - WORD32
  }

  /** A signed result as the 64-bit word that it becomes when it is passed on as an offset. */
  function AsWord64(x: int): int {
    if x < 0 then x + WORD64 else x
  }

  /** The byte offset of a unit, computed in int. */
  function ByteOffset(unit: int): int {
    WrapInt(unit * ALIGN_BYTES)
  }

  /** _index_offset multiplies in int: the byte offset comes out right below 2^28 units only. */
  lemma ByteOffsetExactly(unit: nat)
    requires unit < 0x4000_0000
    ensures ByteOffset(unit) == unit * ALIGN_BYTES <==> unit < 0x1000_0000
    ensures ByteOffset(unit) != -1
  {
    if unit >= 0x1000_0000 {
      assert WrapInt(unit * ALIGN_BYTES) < 0x8000_0000;
    }
  }

  /** Passed on to dart_buddy_free, the byte offset names the unit again below 2^28 units only. */
  lemma OffsetReturnsExactly(unit: nat)
    requires unit < 0x4000_0000
    ensures 0 <= AsWord64(ByteOffset(unit))
    ensures AsWord64(ByteOffset(unit)) / ALIGN_BYTES == unit <==> unit < 0x1000_0000
  {
    var w := unit * ALIGN_BYTES;
    if unit >= 0x1000_0000 {
      assert w % WORD32 == if w < WORD32 then w else w - WORD32;
    }
  }
}
