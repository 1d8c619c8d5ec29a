/**
  The random stream of the RandomAccess benchmark: a 64-bit linear feedback shift register over
  GF(2)[X] modulo X^64 + X^2 + X + 1, and the jump-ahead that starts each unit in the middle of
  the stream.

  The n-th element of the stream is `Steps(n, 1)`. `Square` selects from a table of every second
  element by the bits of a word; `SquareDoubles` says that this doubles the position, because
  squaring commutes with stepping up to a factor of two (`SquareStep`).
 */
module Lfsr {

  import opened Powers

  /** Exclusive or and the pieces of one step, named so that proofs can hide what they do to bits. */
  function Xor(x: bv64, y: bv64): bv64 { x ^ y }

  function Left(x: bv64): bv64 { x << 1 }

  function Right(x: bv64): bv64 { x >> 1 }

  predicate Odd(x: bv64) { x & 1 == 1 }

  /** The sign of the word read as a signed integer. */
  predicate Negative(x: bv64) { x & 0x8000_0000_0000_0000 != 0 }

  const POLY: bv64 := 7
  const PERIOD: nat := 1317624576693539401

  function Select(p: bool, x: bv64): bv64 { if p then x else 0 }

  /** One step of the register. */
  function Step(x: bv64): bv64 { Xor(Left(x), Select(Negative(x), POLY)) }

  function Steps(n: nat, x: bv64): bv64 {
    if n == 0 then x else Step(Steps(n - 1, x))
  }

  // ---------- Exclusive or ----------

  lemma XorAssociates(a: bv64, b: bv64, c: bv64)
    ensures Xor(Xor(a, b), c) == Xor(a, Xor(b, c))
  {
  }

  lemma XorCommutes(a: bv64, b: bv64)
    ensures Xor(a, b) == Xor(b, a)
  {
  }

  lemma XorSwaps(a: bv64, b: bv64, c: bv64, d: bv64)
    ensures Xor(Xor(a, b), Xor(c, d)) == Xor(Xor(a, c), Xor(b, d))
  {
    hide Xor;
    XorAssociates(a, b, Xor(c, d));
    XorAssociates(b, c, d);
    XorCommutes(b, c);
    XorAssociates(c, b, d);
    XorAssociates(a, c, Xor(b, d));
  }

  lemma XorZero(x: bv64)
    ensures Xor(x, 0) == x && Xor(0, x) == x
  {
  }

  lemma XorSelf(x: bv64)
    ensures Xor(x, x) == 0
  {
  }

  lemma SelectXor(p: bool, q: bool, x: bv64)
    ensures Select(p != q, x) == Xor(Select(p, x), Select(q, x))
  {
    XorZero(x);
    XorZero(0);
    XorSelf(x);
    hide Xor;
  }

  lemma LeftXor(x: bv64, y: bv64)
    ensures Left(Xor(x, y)) == Xor(Left(x), Left(y))
  {
  }

  lemma RightXor(x: bv64, y: bv64)
    ensures Right(Xor(x, y)) == Xor(Right(x), Right(y))
  {
  }

  lemma NegativeXor(x: bv64, y: bv64)
    ensures Negative(Xor(x, y)) <==> (Negative(x) != Negative(y))
  {
  }

  lemma OddXor(x: bv64, y: bv64)
    ensures Odd(Xor(x, y)) <==> (Odd(x) != Odd(y))
  {
  }

  // ---------- Steps ----------

  /** Stepping is linear over GF(2). */
  lemma StepXor(x: bv64, y: bv64)
    ensures Step(Xor(x, y)) == Xor(Step(x), Step(y))
  {
    hide Xor, Left, Negative, Select;
    LeftXor(x, y);
    NegativeXor(x, y);
    SelectXor(Negative(x), Negative(y), POLY);
    XorSwaps(Left(x), Left(y), Select(Negative(x), POLY), Select(Negative(y), POLY));
  }

  lemma StepZero()
    ensures Step(0) == 0
  {
  }

  lemma {:induction false} StepsXor(n: nat, x: bv64, y: bv64)
    ensures Steps(n, Xor(x, y)) == Xor(Steps(n, x), Steps(n, y))
  {
    if n > 0 {
      StepsXor(n - 1, x, y);
      StepXor(Steps(n - 1, x), Steps(n - 1, y));
    }
  }

  lemma {:induction false} StepsAdd(m: nat, n: nat, x: bv64)
    ensures Steps(m + n, x) == Steps(m, Steps(n, x))
  {
    hide Step;
    if m > 0 {
      StepsAdd(m - 1, n, x);
    }
  }

  /** The n-th element of the stream. */
  function Power(n: nat): bv64 { Steps(n, 1) }

  lemma PowerStep(n: nat)
    ensures Power(n + 1) == Step(Power(n))
  {
    hide Step;
  }

  lemma EightSteps(n: nat)
    ensures Power(n + 8) == Step(Step(Step(Step(Step(Step(Step(Step(Power(n)))))))))
  {
    hide Step, Power;
    PowerStep(n);
    PowerStep(n + 1);
    PowerStep(n + 2);
    PowerStep(n + 3);
    PowerStep(n + 4);
    PowerStep(n + 5);
    PowerStep(n + 6);
    PowerStep(n + 7);
  }

  lemma EightStepsTo(n: nat, v: bv64, w: bv64)
    requires Power(n) == v
    requires w == Step(Step(Step(Step(Step(Step(Step(Step(v))))))))
    ensures Power(n + 8) == w
  {
    hide Step, Power;
    EightSteps(n);
  }

  lemma Power128()
    ensures Power(0) == 1 && Power(2) == 4 && Power(4) == 16 && Power(128) == 21
  {
    assert Power(0) == 1;
    assert Power(2) == 4 && Power(4) == 16 by {
      PowerStep(0);
      PowerStep(1);
      PowerStep(2);
      PowerStep(3);
    }
    hide Power;
    EightStepsTo(0, 0x1, 0x100);
    EightStepsTo(8, 0x100, 0x1_0000);
    EightStepsTo(16, 0x1_0000, 0x100_0000);
    EightStepsTo(24, 0x100_0000, 0x1_0000_0000);
    EightStepsTo(32, 0x1_0000_0000, 0x100_0000_0000);
    EightStepsTo(40, 0x100_0000_0000, 0x1_0000_0000_0000);
    EightStepsTo(48, 0x1_0000_0000_0000, 0x100_0000_0000_0000);
    EightStepsTo(56, 0x100_0000_0000_0000, 0x7);
    EightStepsTo(64, 0x7, 0x700);
    EightStepsTo(72, 0x700, 0x7_0000);
    EightStepsTo(80, 0x7_0000, 0x700_0000);
    EightStepsTo(88, 0x700_0000, 0x7_0000_0000);
    EightStepsTo(96, 0x7_0000_0000, 0x700_0000_0000);
    EightStepsTo(104, 0x700_0000_0000, 0x7_0000_0000_0000);
    EightStepsTo(112, 0x7_0000_0000_0000, 0x700_0000_0000_0000);
    EightStepsTo(120, 0x700_0000_0000_0000, 0x15);
  }

  // ---------- Bits ----------

  function Shifted(x: bv64, j: nat): bv64
    decreases j
  {
    if j == 0 then x else Shifted(Right(x), j - 1)
  }

  predicate Bit(x: bv64, j: nat) { Odd(Shifted(x, j)) }

  lemma {:induction false} BitXor(x: bv64, y: bv64, j: nat)
    ensures Bit(Xor(x, y), j) <==> (Bit(x, j) != Bit(y, j))
    decreases j
  {
    hide Xor, Right, Odd;
    if j == 0 {
      OddXor(x, y);
    } else {
      RightXor(x, y);
      BitXor(Right(x), Right(y), j - 1);
    }
  }

  lemma {:induction false} BitOfZero(j: nat)
    ensures !Bit(0, j)
  {
    if j > 0 {
      BitOfZero(j - 1);
    }
  }

  lemma BitsOfPoly(j: nat)
    ensures Bit(POLY, j) <==> j < 3
  {
    assert Right(POLY) == 3 && Right(3) == 1 && Right(1) == 0;
    assert Odd(POLY) && Odd(3) && Odd(1);
    hide Right, Odd;
    if j == 1 {
      assert Shifted(POLY, j) == Shifted(3, 0);
    } else if j >= 2 {
      assert Shifted(POLY, j) == Shifted(3, j - 1);
      assert Shifted(3, j - 1) == Shifted(1, j - 2);
      if j >= 3 {
        assert Shifted(1, j - 2) == Shifted(0, j - 3);
        BitOfZero(j - 3);
      }
    }
  }

  function Right8(x: bv64): bv64 { x >> 8 }

  lemma RightEightTimes(x: bv64)
    ensures Right8(x) == Right(Right(Right(Right(Right(Right(Right(Right(x))))))))
  {
  }

  lemma Shifted8(x: bv64, j: nat)
    ensures Shifted(x, j + 8) == Shifted(Right8(x), j)
  {
    RightEightTimes(x);
    hide Right8, Right;
    var x2 := Right(Right(x));
    var x4 := Right(Right(x2));
    var x6 := Right(Right(x4));
    assert Shifted(x, j + 8) == Shifted(x2, j + 6);
    assert Shifted(x2, j + 6) == Shifted(x4, j + 4);
    assert Shifted(x4, j + 4) == Shifted(x6, j + 2);
  }

  predicate LowByte(x: bv64) { x & 0xFF == 0xFF }

  lemma LowByteIsOdd(x: bv64)
    requires LowByte(x)
    ensures Odd(x) && Odd(Right(x)) && Odd(Right(Right(x))) && Odd(Right(Right(Right(x))))
    ensures Odd(Right(Right(Right(Right(x))))) && Odd(Right(Right(Right(Right(Right(x))))))
    ensures Odd(Right(Right(Right(Right(Right(Right(x)))))))
    ensures Odd(Right(Right(Right(Right(Right(Right(Right(x))))))))
  {
  }

  lemma TopOfByte(x: bv64, y: bv64)
    requires y == Right8(Right8(Right8(Right8(Right8(Right8(Right8(x)))))))
    ensures Odd(Right(Right(Right(Right(Right(Right(Right(y)))))))) <==> Negative(x)
  {
  }

  lemma ShiftedSeven(y: bv64)
    ensures Shifted(y, 7) == Right(Right(Right(Right(Right(Right(Right(y)))))))
  {
    hide Right;
    assert Shifted(y, 7) == Shifted(Right(Right(Right(y))), 4);
  }

  lemma TopBit(x: bv64)
    ensures Bit(x, 63) <==> Negative(x)
  {
    hide Right, Odd, Negative, Right8, Shifted;
    var x1 := Right8(x);
    var x2 := Right8(x1);
    var x3 := Right8(x2);
    var x4 := Right8(x3);
    var x5 := Right8(x4);
    var x6 := Right8(x5);
    var y := Right8(x6);
    TopOfByte(x, y);
    Shifted8(x, 55);
    Shifted8(x1, 47);
    Shifted8(x2, 39);
    Shifted8(x3, 31);
    Shifted8(x4, 23);
    Shifted8(x5, 15);
    Shifted8(x6, 7);
    ShiftedSeven(y);
  }

  /** The low n bits of the mask are set. */
  predicate Covers(mask: bv64, n: nat)
    decreases n
  {
    n == 0 || (Odd(mask) && Covers(Right(mask), n - 1))
  }

  function Masked(x: bv64, mask: bv64): bv64 { x & mask }

  lemma MaskedRight(x: bv64, mask: bv64)
    ensures Right(Masked(x, mask)) == Masked(Right(x), Right(mask))
    ensures Odd(mask) ==> (Odd(Masked(x, mask)) <==> Odd(x))
  {
  }

  lemma {:induction false} MaskedBit(x: bv64, mask: bv64, j: nat)
    requires Covers(mask, j + 1)
    ensures Bit(Masked(x, mask), j) <==> Bit(x, j)
    decreases j
  {
    hide Masked, Right, Odd;
    MaskedRight(x, mask);
    if j > 0 {
      MaskedBit(Right(x), Right(mask), j - 1);
    }
  }

  lemma {:induction false} CoversFewer(mask: bv64, m: nat, n: nat)
    requires m <= n && Covers(mask, n)
    ensures Covers(mask, m)
    decreases m
  {
    hide Right, Odd;
    if m > 0 {
      CoversFewer(Right(mask), m - 1, n - 1);
    }
  }

  lemma CoversEightMore(mask: bv64, rest: bv64, n: nat)
    requires Right8(mask) == rest && LowByte(mask) && Covers(rest, n)
    ensures Covers(mask, n + 8)
  {
    RightEightTimes(mask);
    LowByteIsOdd(mask);
    hide Right8, Right, Odd, LowByte;
    var m4 := Right(Right(Right(Right(mask))));
    assert Covers(Right(Right(m4)), n + 2);
    assert Covers(m4, n + 4);
    assert Covers(Right(Right(mask)), n + 6);
  }

  lemma SignMask()
    ensures Covers(0x7FFF_FFFF_FFFF_FFFF, 63)
  {
    assert Covers(0, 0);
    assert Covers(0x7, 3);
    assert Covers(0x7F, 7);
    hide Covers;
    CoversEightMore(0x7FFF, 0x7F, 7);
    CoversEightMore(0x7F_FFFF, 0x7FFF, 15);
    CoversEightMore(0x7FFF_FFFF, 0x7F_FFFF, 23);
    CoversEightMore(0x7F_FFFF_FFFF, 0x7FFF_FFFF, 31);
    CoversEightMore(0x7FFF_FFFF_FFFF, 0x7F_FFFF_FFFF, 39);
    CoversEightMore(0x7F_FFFF_FFFF_FFFF, 0x7FFF_FFFF_FFFF, 47);
    CoversEightMore(0x7FFF_FFFF_FFFF_FFFF, 0x7F_FFFF_FFFF_FFFF, 55);
  }

  lemma RightOfLeft(x: bv64)
    ensures Right(Left(x)) == Masked(x, 0x7FFF_FFFF_FFFF_FFFF)
    ensures !Odd(Left(x))
  {
  }

  lemma BitOfLeft(x: bv64, j: nat)
    requires j < 63
    ensures Bit(Left(x), j + 1) <==> Bit(x, j)
  {
    hide Masked, Right, Left, Odd, Covers;
    RightOfLeft(x);
    SignMask();
    CoversFewer(0x7FFF_FFFF_FFFF_FFFF, j + 1, 63);
    MaskedBit(x, 0x7FFF_FFFF_FFFF_FFFF, j);
  }

  // ---------- Squaring ----------

  /** The sum of the powers 2k for the bits k < j that are set in x. */
  function Square(x: bv64, j: nat): bv64 {
    if j == 0 then 0
    else Xor(Square(x, j - 1), Select(Bit(x, j - 1), Power(2 * (j - 1))))
  }

  lemma {:induction false} SquareXor(x: bv64, y: bv64, j: nat)
    ensures Square(Xor(x, y), j) == Xor(Square(x, j), Square(y, j))
    decreases j
  {
    hide Xor, Select, Bit, Power;
    if j == 0 {
      XorZero(0);
    } else {
      SquareXor(x, y, j - 1);
      BitXor(x, y, j - 1);
      var p := Power(2 * (j - 1));
      SelectXor(Bit(x, j - 1), Bit(y, j - 1), p);
      XorSwaps(Square(x, j - 1), Square(y, j - 1), Select(Bit(x, j - 1), p), Select(Bit(y, j - 1), p));
    }
  }

  lemma StepTwiceSelect(p: bool, e: nat)
    ensures Step(Step(Select(p, Power(e)))) == Select(p, Power(e + 2))
  {
    StepZero();
    hide Step, Power;
    PowerStep(e);
    PowerStep(e + 1);
  }

  /** Shifting left multiplies the square of what stays inside the word by X^2. */
  lemma {:induction false} SquareLeft(x: bv64, j: nat)
    requires j <= 63
    ensures Square(Left(x), j + 1) == Step(Step(Square(x, j)))
  {
    if j == 0 {
      RightOfLeft(x);
      assert Square(Left(x), 1) == Xor(0, Select(Bit(Left(x), 0), Power(0)));
      StepZero();
    } else {
      hide Xor, Select, Bit, Power, Step, Left;
      SquareLeft(x, j - 1);
      BitOfLeft(x, j - 1);
      var a, b := Square(x, j - 1), Select(Bit(x, j - 1), Power(2 * (j - 1)));
      StepXor(a, b);
      StepXor(Step(a), Step(b));
      StepTwiceSelect(Bit(x, j - 1), 2 * (j - 1));
    }
  }

  lemma {:induction false} SquareOfSmall(x: bv64, n: nat, j: nat)
    requires n <= j
    requires forall k :: n <= k < j ==> !Bit(x, k)
    ensures Square(x, j) == Square(x, n)
  {
    if n < j {
      hide Bit, Power;
      SquareOfSmall(x, n, j - 1);
      XorZero(Square(x, j - 1));
      hide Xor;
    }
  }

  lemma SquareOfPoly(n: nat)
    requires n >= 3
    ensures Square(POLY, n) == 21
    ensures Square(0, n) == 0
    ensures Square(1, n) == 1
  {
    Power128();
    hide Power;
    forall k: nat
      ensures Bit(POLY, k) <==> k < 3
      ensures !Bit(0, k)
    {
      BitsOfPoly(k);
      BitOfZero(k);
    }
    SquareOfSmall(POLY, 3, n);
    assert Square(POLY, 1) == 1;
    assert Square(POLY, 2) == 5;
    assert Square(POLY, 3) == 21;
    SquareOfSmall(0, 0, n);
    forall k: nat | 1 <= k < n
      ensures !Bit(1, k)
    {
      assert Right(1) == 0;
      BitOfZero(k - 1);
    }
    SquareOfSmall(1, 1, n);
    assert Square(1, 1) == 1;
  }

  lemma SquareOfFeedback(p: bool)
    ensures Square(Select(p, POLY), 64) == Step(Step(Select(p, Power(126))))
  {
    SquareOfPoly(64);
    StepTwiceSelect(p, 126);
    Power128();
    hide Square, Power, Step;
  }

  /** One step before squaring is two steps after it. */
  lemma SquareStep(x: bv64)
    ensures Square(Step(x), 64) == Step(Step(Square(x, 64)))
  {
    hide Xor, Select, Bit, Power, Left, Negative;
    var s, top := Square(x, 63), Select(Bit(x, 63), Power(126));
    assert Square(x, 64) == Xor(s, top);
    TopBit(x);
    SquareXor(Left(x), Select(Negative(x), POLY), 64);
    SquareLeft(x, 63);
    SquareOfFeedback(Negative(x));
    assert Step(x) == Xor(Left(x), Select(Negative(x), POLY));
    hide Step, Square;
    StepXor(s, top);
    StepXor(Step(s), Step(top));
  }

  lemma SquareOfOne()
    ensures Square(Power(0), 64) == Power(0)
  {
    hide Power, Square;
    SquareOfPoly(64);
    Power128();
  }

  /** Squaring the e-th element gives the element at twice the position. */
  lemma {:induction false} SquareDoubles(e: nat)
    ensures Square(Power(e), 64) == Power(2 * e)
  {
    hide Power, Square, Step;
    if e == 0 {
      SquareOfOne();
    } else {
      SquareDoubles(e - 1);
      PowerStep(e - 1);
      SquareStep(Power(e - 1));
      PowerStep(2 * e - 2);
      PowerStep(2 * e - 1);
    }
  }

  // ---------- The period ----------

  /** The low 32 bits of x moved to the even bit positions. */
  function Spread(x: bv64): bv64 {
    var a := (x ^ (x << 16)) & 0x0000_FFFF_0000_FFFF;
    var b := (a ^ (a << 8)) & 0x00FF_00FF_00FF_00FF;
    var c := (b ^ (b << 4)) & 0x0F0F_0F0F_0F0F_0F0F;
    var d := (c ^ (c << 2)) & 0x3333_3333_3333_3333;
    (d ^ (d << 1)) & 0x5555_5555_5555_5555
  }

  function Low(x: bv64): bv64 { x & 0xFFFF_FFFF }

  function High(x: bv64): bv64 { x >> 32 }

  /** Multiplication by X^64, that is, by 1 + X + X^2. */
  function Wrap(x: bv64): bv64 { Xor(Xor(x, Step(x)), Step(Step(x))) }

  /** The square of x, computed without a table. */
  function FastSquare(x: bv64): bv64 { Xor(Spread(Low(x)), Wrap(Spread(High(x)))) }

  lemma WrapXor(x: bv64, y: bv64)
    ensures Wrap(Xor(x, y)) == Xor(Wrap(x), Wrap(y))
  {
    hide Step, Xor;
    StepXor(x, y);
    StepXor(Step(x), Step(y));
    XorSwaps(x, y, Step(x), Step(y));
    XorSwaps(Xor(x, Step(x)), Xor(y, Step(y)), Step(Step(x)), Step(Step(y)));
  }

  lemma WrapStep(x: bv64)
    ensures Wrap(Step(x)) == Step(Wrap(x))
  {
    hide Step, Xor;
    StepXor(Xor(x, Step(x)), Step(Step(x)));
    StepXor(x, Step(x));
  }

  predicate Bit31(x: bv64) { x & 0x8000_0000 != 0 }

  /** The low 31 bits. */
  function Inside(x: bv64): bv64 { x & 0x7FFF_FFFF }

  /** The spread of the low 31 bits, which two steps do not move out of the word. */
  function Inner(x: bv64): bv64 { Spread(Inside(x)) }

  const X31: bv64 := 0x8000_0000
  const X62: bv64 := 0x4000_0000_0000_0000

  lemma SpreadBits(x: bv64, y: bv64)
    ensures Spread(x ^ y) == Spread(x) ^ Spread(y)
  {
  }

  lemma SpreadXor(x: bv64, y: bv64)
    ensures Spread(Xor(x, y)) == Xor(Spread(x), Spread(y))
  {
    SpreadBits(x, y);
    hide Spread;
  }

  lemma SpreadSelect(p: bool)
    ensures Spread(Select(p, X31)) == Select(p, X62)
    ensures Spread(Select(p, POLY)) == Select(p, 21)
    ensures Spread(Select(p, 1)) == Select(p, 1)
  {
  }

  lemma SpreadLeft(x: bv64)
    ensures Spread(Left(Inside(x))) == Step(Step(Inner(x)))
  {
  }

  lemma TopOfHalf(x: bv64)
    requires x & 0xFFFF_FFFF_0000_0000 == 0
    ensures x == Xor(Inside(x), Masked(x, X31))
  {
  }

  lemma OneBit(x: bv64)
    ensures Masked(x, X31) == Select(Bit31(x), X31)
  {
  }

  lemma SplitLow(x: bv64)
    requires x & 0xFFFF_FFFF_0000_0000 == 0
    ensures x == Xor(Inside(x), Select(Bit31(x), X31))
  {
    TopOfHalf(x);
    OneBit(x);
    hide Xor, Inside, Select, Bit31, Masked;
  }

  lemma HighHasNegative(x: bv64)
    ensures High(x) & 0xFFFF_FFFF_0000_0000 == 0 && Low(x) & 0xFFFF_FFFF_0000_0000 == 0
    ensures Bit31(High(x)) <==> Negative(x)
    ensures Bit31(Low(x)) <==> Bit31(x)
    ensures Inside(Low(x)) == Inside(x)
  {
  }

  lemma HalvesOf(x: bv64)
    ensures Low(x) == Xor(Inside(x), Select(Bit31(x), X31))
    ensures High(x) == Xor(Inside(High(x)), Select(Negative(x), X31))
  {
    hide Xor, Inside, Select, Bit31, Low, High, Negative;
    HighHasNegative(x);
    SplitLow(Low(x));
    SplitLow(High(x));
  }

  lemma LowXor(x: bv64, y: bv64)
    ensures Low(Xor(x, y)) == Xor(Low(x), Low(y))
    ensures High(Xor(x, y)) == Xor(High(x), High(y))
  {
  }

  lemma HalvesOfLeft(x: bv64)
    ensures Low(Left(x)) == Left(Inside(x))
    ensures High(Left(x)) == Xor(Left(Inside(High(x))), Select(Bit31(x), 1))
  {
    if Bit31(x) {
      assert (x << 1) >> 32 == (((x >> 32) & 0x7FFF_FFFF) << 1) ^ 1;
    } else {
      assert (x << 1) >> 32 == (((x >> 32) & 0x7FFF_FFFF) << 1) ^ 0;
    }
  }

  lemma SpreadHalves(x: bv64)
    ensures Spread(Low(x)) == Xor(Inner(x), Select(Bit31(x), X62))
    ensures Spread(High(x)) == Xor(Inner(High(x)), Select(Negative(x), X62))
  {
    hide Spread, Xor, Inside, Select, Low, High, Negative, Bit31;
    HalvesOf(x);
    SpreadXor(Inside(x), Select(Bit31(x), X31));
    SpreadXor(Inside(High(x)), Select(Negative(x), X31));
    SpreadSelect(Bit31(x));
    SpreadSelect(Negative(x));
  }

  lemma SpreadStep(x: bv64)
    ensures Spread(Low(Step(x))) == Xor(Step(Step(Inner(x))), Select(Negative(x), 21))
    ensures Spread(High(Step(x))) == Xor(Step(Step(Inner(High(x)))), Select(Bit31(x), 1))
  {
    var f := Select(Negative(x), POLY);
    assert Low(f) == f && High(f) == 0;
    assert Step(x) == Xor(Left(x), f);
    hide Spread, Xor, Inside, Inner, Select, Low, High, Negative, Bit31, Left, Step;
    LowXor(Left(x), f);
    HalvesOfLeft(x);
    XorZero(High(Left(x)));
    SpreadXor(Left(Inside(x)), Select(Negative(x), POLY));
    SpreadXor(Left(Inside(High(x))), Select(Bit31(x), 1));
    SpreadLeft(x);
    SpreadLeft(High(x));
    SpreadSelect(Bit31(x));
    SpreadSelect(Negative(x));
  }

  lemma FeedbackConstants(p: bool)
    ensures Step(Step(Select(p, X62))) == Select(p, POLY)
    ensures Wrap(Select(p, POLY)) == Select(p, 21)
    ensures Wrap(Select(p, 1)) == Select(p, POLY)
  {
  }

  lemma FastSquareStep(x: bv64)
    ensures FastSquare(Step(x)) == Step(Step(FastSquare(x)))
  {
    var l, h := Inner(x), Inner(High(x));
    var b, t := Bit31(x), Negative(x);
    var l2, h2 := Step(Step(l)), Step(Step(h));
    var r := Xor(Xor(l2, Select(b, POLY)), Xor(Wrap(h2), Select(t, 21)));
    assert FastSquare(Step(x)) == r by {
      hide Step, Xor, Inner, Spread, Wrap, Select, Bit31, Negative, Low, High;
      SpreadStep(x);
      WrapXor(h2, Select(b, 1));
      FeedbackConstants(b);
      XorSwaps(l2, Select(t, 21), Wrap(h2), Select(b, POLY));
      XorCommutes(Select(t, 21), Select(b, POLY));
      XorCommutes(Wrap(h2), Select(t, 21));
      XorSwaps(l2, Select(b, POLY), Select(t, 21), Wrap(h2));
      XorSwaps(l2, Select(t, 21), Select(b, POLY), Wrap(h2));
      XorCommutes(Wrap(h2), Select(b, POLY));
    }
    assert Step(Step(FastSquare(x))) == r by {
      hide Step, Xor, Inner, Spread, Wrap, Select, Bit31, Negative, Low, High;
      SpreadHalves(x);
      var lo, hi := Spread(Low(x)), Spread(High(x));
      StepXor(lo, Wrap(hi));
      StepXor(Step(lo), Step(Wrap(hi)));
      StepXor(l, Select(b, X62));
      StepXor(Step(l), Step(Select(b, X62)));
      WrapStep(hi);
      WrapStep(Step(hi));
      StepXor(h, Select(t, X62));
      StepXor(Step(h), Step(Select(t, X62)));
      FeedbackConstants(b);
      FeedbackConstants(t);
      WrapXor(h2, Select(t, POLY));
    }
  }

  lemma {:induction false} FastSquareDoubles(e: nat)
    ensures FastSquare(Power(e)) == Power(2 * e)
  {
    if e == 0 {
      assert Power(0) == 1;
      assert FastSquare(1) == 1;
    } else {
      hide Power, FastSquare, Step;
      FastSquareDoubles(e - 1);
      PowerStep(e - 1);
      FastSquareStep(Power(e - 1));
      PowerStep(2 * e - 2);
      PowerStep(2 * e - 1);
    }
  }

  lemma Link(n: nat, v: bv64, w: bv64)
    requires n > 0 && Power(n / 2) == v
    requires w == if n % 2 == 1 then Step(FastSquare(v)) else FastSquare(v)
    ensures Power(n) == w
  {
    hide Power, FastSquare, Step;
    FastSquareDoubles(n / 2);
    PowerStep(2 * (n / 2));
  }

  lemma Period0(n: nat)
    requires n == 37449
    ensures Power(n) == 0xf2f2f2f20000f200
  {
    assert Power(0) == 1;
    hide Power;
    Link(1, 0x1, 0x2);
    Link(2, 0x2, 0x4);
    Link(4, 0x4, 0x10);
    Link(9, 0x10, 0x200);
    Link(18, 0x200, 0x40000);
    Link(36, 0x40000, 0x1000000000);
    Link(73, 0x1000000000, 0xe00);
    Link(146, 0xe00, 0x540000);
    Link(292, 0x540000, 0x111000000000);
    Link(585, 0x111000000000, 0xe0e0e00);
    Link(1170, 0xe0e0e00, 0x54005400540000);
    Link(2340, 0x54005400540000, 0x666000007770);
    Link(4681, 0x666000007770, 0xf2f2f200);
    Link(9362, 0xf2f2f200, 0x5504550455040000);
    Link(18724, 0x5504550455040000, 0x6666006077770070);
    Link(37449, 0x6666006077770070, 0xf2f2f2f20000f200);
  }

  lemma Period1(n: nat)
    requires n == 2454267026
    ensures Power(n) == 0xfe67ab32fe32ab65
  {
    hide Power;
    Period0(37449);
    Link(74898, 0xf2f2f2f20000f200, 0xab1dab1dfe19ab1b);
    Link(149796, 0xab1dab1dfe19ab1b, 0x888f07f7999e07f5);
    Link(299593, 0x888f07f7999e07f5, 0x10101fe00fffcfd);
    Link(599186, 0x10101fe00fffcfd, 0x755525556fffd);
    Link(1198372, 0x755525556fffd, 0x1111117f2222224d);
    Link(2396745, 0x1111117f2222224d, 0x60606060606f5f4);
    Link(4793490, 0x60606060606f5f4, 0x780078557d557c);
    Link(9586980, 0x780078557d557c, 0x11117f9111117f90);
    Link(19173961, 0x11117f9111117f90, 0xc0c0c0cffff0c0e);
    Link(38347922, 0xc0c0c0cffff0c0e, 0x54e554e501e001e4);
    Link(76695844, 0x54e554e501e001e4, 0x7770f8777770f867);
    Link(153391689, 0x7770f8777770f867, 0xfcfcfc03ff00fefc);
    Link(306783378, 0xfcfcfc03ff00fefc, 0xffe4aab1ffe4554c);
    Link(613566756, 0xffe4aab1ffe4554c, 0xfffff861cccccb50);
    Link(1227133513, 0xfffff861cccccb50, 0xf5f5f5f5f50afa07);
    Link(2454267026, 0xf5f5f5f5f50afa07, 0xfe67ab32fe32ab65);
  }

  lemma Period2(n: nat)
    requires n == 160842843834660
    ensures Power(n) == 0x999e0079888f006a
  {
    hide Power;
    Period1(2454267026);
    Link(4908534052, 0xfe67ab32fe32ab65, 0xfff8696e999e0f0a);
    Link(9817068105, 0xfff8696e999e0f0a, 0xd7d7d728db24dbd9);
    Link(19634136210, 0xd7d7d728db24dbd9, 0xe62fb37ae62e4c86);
    Link(39268272420, 0xe62fb37ae62e4c86, 0xf87819fecb4b2acf);
    Link(78536544841, 0xf87819fecb4b2acf, 0xf50af50a0505f5fb);
    Link(157073089682, 0xf50af50a0505f5fb, 0xab6601ccfe66549e);
    Link(314146179364, 0xab6601ccfe66549e, 0x888f78781116f0e3);
    Link(628292358729, 0x888f78781116f0e3, 0x8181817e7f807d83);
    Link(1256584717458, 0x8181817e7f807d83, 0xd5538006d5562aae);
    Link(2513169434916, 0xd5538006d5562aae, 0xe666660ec444443f);
    Link(5026338869833, 0xe666660ec444443f, 0xf8f8f8f8f8f809fb);
    Link(10052677739666, 0xf8f8f8f8f8f809fb, 0xff81ff81aa80ff82);
    Link(20105355479332, 0xff81ff81aa80ff82, 0xeeee8006ffff8004);
    Link(40210710958665, 0xeeee8006ffff8004, 0xf1f1f1f1000000f1);
    Link(80421421917330, 0xf1f1f1f1000000f1, 0xab06ab06ab06fe01);
    Link(160842843834660, 0xab06ab06ab06fe01, 0x999e0079888f006a);
  }

  lemma Period3(n: nat)
    requires n == 1317624576693539401
    ensures Power(n) == 0x1
  {
    hide Power;
    Period2(160842843834660);
    Link(321685687669321, 0x999e0079888f006a, 0xd0d0df20000fd0f);
    Link(643371375338642, 0xd0d0df20000fd0f, 0x1b701b754e7ab49);
    Link(1286742750677284, 0x1b701b754e7ab49, 0x11168f7e4443cb2a);
    Link(2573485501354569, 0x11168f7e4443cb2a, 0x2e2e2ed123dcddd0);
    Link(5146971002709138, 0x2e2e2ed123dcddd0, 0x19a94cfc4cfce607);
    Link(10293942005418276, 0x19a94cfc4cfce607, 0x1696889725a5aaa5);
    Link(20587884010836553, 0x1696889725a5aaa5, 0x6f906f90b0b06f4);
    Link(41175768021673106, 0x6f906f90b0b06f4, 0x28aa820079ffd7);
    Link(82351536043346212, 0x28aa820079ffd7, 0x88088889109);
    Link(164703072086692425, 0x88088889109, 0x8080808081818082);
    Link(329406144173384850, 0x8080808081818082, 0x8000800080018003);
    Link(658812288346769700, 0x8000800080018003, 0x8000000080000002);
    Link(1317624576693539401, 0x8000000080000002, 0x1);
  }

  lemma {:induction false} PowerPeriods(k: nat)
    ensures Power(k * PERIOD) == 1
  {
    hide Step;
    if k > 0 {
      PowerPeriods(k - 1);
      Period3(PERIOD);
      StepsAdd((k - 1) * PERIOD, PERIOD, 1);
    }
  }

  // ---------- The jump-ahead ----------

  /** What the start word of a unit promises: n steps from 1, backwards where n is negative. */
  ghost predicate StartsAt(n: int, r: bv64) {
    if n >= 0 then r == Power(n) else Steps(-n, r) == 1
  }

  lemma FoldedUp(n: int, m: nat, k: nat)
    requires m == n + k * PERIOD
    ensures StartsAt(n, Power(m))
  {
    hide Step;
    PowerPeriods(k);
    if n >= 0 {
      StepsAdd(n, k * PERIOD, 1);
    } else {
      StepsAdd(-n, m, 1);
    }
  }

  lemma FoldedDown(n: nat, m: nat, k: nat)
    requires n == m + k * PERIOD
    ensures StartsAt(n, Power(m))
  {
    hide Step;
    PowerPeriods(k);
    StepsAdd(m, k * PERIOD, 1);
  }

  /** Reduction of the position to [0, PERIOD], as the two loops at the top do it. */
  method Fold(n: int) returns (m: nat)
    ensures m <= PERIOD
    ensures 0 <= n <= PERIOD ==> m == n
    ensures StartsAt(n, Power(m))
  {
    assert PERIOD > 0;
    hide Power, StartsAt;
    var f := n;
    ghost var k := 0;
    while f < 0
      invariant f == n + k * PERIOD
      invariant if n < 0 then f < PERIOD else k == 0
    {
      f := f + PERIOD;
      k := k + 1;
    }
    FoldedUp(n, f, k);
    k := 0;
    while f > PERIOD
      invariant f >= 0 && StartsAt(n, Power(f))
      invariant if n < 0 then f < PERIOD else n == f + k * PERIOD
      invariant 0 <= n <= PERIOD ==> f == n
    {
      f := f - PERIOD;
      k := k + 1;
      FoldedDown(n, f, k);
    }
    m := f;
  }

  /** The table of every second element of the stream. */
  method Table() returns (m2: array<bv64>)
    ensures fresh(m2) && m2.Length == 64
    ensures forall k :: 0 <= k < 64 ==> m2[k] == Power(2 * k)
  {
    m2 := new bv64[64];
    var temp: bv64 := 1;
    assert Power(0) == 1;
    hide Power, Step;
    for i := 0 to 64
      invariant temp == Power(2 * i)
      invariant forall k :: 0 <= k < i ==> m2[k] == Power(2 * k)
    {
      m2[i] := temp;
      PowerStep(2 * i);
      PowerStep(2 * i + 1);
      temp := Step(temp);
      temp := Step(temp);
    }
  }

  /** The inner loop: exclusive or of the entries selected by the bits of ran. */
  method Squared(m2: array<bv64>, ran: bv64, ghost e: nat) returns (temp: bv64)
    requires m2.Length == 64
    requires forall k :: 0 <= k < 64 ==> m2[k] == Power(2 * k)
    requires ran == Power(e)
    ensures temp == Power(2 * e)
  {
    temp := 0;
    hide Power, Xor, Bit;
    XorZero(0);
    for j := 0 to 64
      invariant temp == Square(ran, j)
    {
      XorZero(temp);
      if Bit(ran, j) {
        temp := Xor(temp, m2[j]);
      }
    }
    SquareDoubles(e);
  }

  lemma TooShort(n: nat)
    requires n <= PERIOD
    ensures ShiftRight(n, 63) == 0
  {
    assert Pow2(10) == 1024;
    assert Pow2(21) == 0x20_0000 by { Pow2Split(21, 10); }
    hide Pow2, ShiftRight;
    Pow2Split(42, 21);
    assert Pow2(42) == 0x400_0000_0000;
    Pow2Split(63, 21);
    ShiftedOut(n, 63);
  }

  /** The highest bit of n that is set, searched from the top. */
  method TopBitOf(n: nat) returns (i: nat)
    requires 0 < n <= PERIOD
    ensures ShiftRight(n, i) == 1
  {
    i := 62;
    TooShort(n);
    while ShiftRight(n, i) % 2 == 0
      invariant ShiftRight(n, i + 1) == 0
      decreases i
    {
      ShiftRightOnce(n, i);
      i := i - 1;
    }
    ShiftRightOnce(n, i);
  }

  /**
    The start of a unit's part of the stream. The position is any 64-bit signed number; a
    negative one counts backwards from the element 1.
   */
  method Starts(n0: int) returns (ran: bv64)
    requires -0x8000_0000_0000_0000 <= n0 < 0x8000_0000_0000_0000
    ensures StartsAt(n0, ran)
  {
    assert Power(0) == 1 && Power(1) == 2 by { PowerStep(0); }
    hide Power, Step, StartsAt;
    var n := Fold(n0);
    if n == 0 {
      return 1;
    }
    var m2 := Table();
    var i := TopBitOf(n);
    ran := 2;
    while i > 0
      invariant m2.Length == 64 && forall k :: 0 <= k < 64 ==> m2[k] == Power(2 * k)
      invariant ran == Power(ShiftRight(n, i))
    {
      ran := Squared(m2, ran, ShiftRight(n, i));
      i := i - 1;
      ShiftRightOnce(n, i);
      if ShiftRight(n, i) % 2 == 1 {
        PowerStep(ShiftRight(n, i) - 1);
        ran := Step(ran);
      }
    }
    assert ShiftRight(n, 0) == n;
  }
}
