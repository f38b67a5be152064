/** 32-bit words: the shifts and comparisons of the source on bit vectors, and
    what they mean on integers. */
module RspWords {

  type ShiftCount = n: bv32 | n < 32

  function SignMask(x: bv32): bv32 { if x & 0x8000_0000 == 0 then 0 else 0xFFFF_FFFF }

  function ShiftLeft(x: bv32, n: ShiftCount): bv32 { x << n }

  function ShiftRight(x: bv32, n: ShiftCount): bv32 { x >> n }

  function Either(x: bv32, y: bv32): bv32 { x | y }

  function HighBits(m: bv32, n: ShiftCount): bv32 { m << (32 - n) }

  /** (int32_t) x >> n. */
  function Asr(x: bv32, n: ShiftCount): bv32 { Either(ShiftRight(x, n), HighBits(SignMask(x), n)) }

  predicate Negative(x: bv32) { x & 0x8000_0000 != 0 }

  function Less(x: bv32, y: bv32): bv32 { if x < y then 1 else 0 }

  function Flip(x: bv32): bv32 { x ^ 0x8000_0000 }

  /** (int32_t) x < (int32_t) y. */
  function SignedLess(x: bv32, y: bv32): bv32 { if Flip(x) < Flip(y) then 1 else 0 }

  /** x & 0x1F, as a shift count. */
  function Count5(x: bv32): ShiftCount { x & 0x1F }

  /** (a & 0x1F) + b, of which the host takes five bits. */
  function CountSum(a: ShiftCount, b: ShiftCount): ShiftCount { Count5(a + b) }

  function Add(x: bv32, y: bv32): bv32 { x + y }

  function Subtract(x: bv32, y: bv32): bv32 { x - y }

  // ------------------------------------------------------------------ values

  const WORD_SPAN: nat := 0x1_0000_0000

  function Pow2(n: nat): (p: nat)
    ensures p > 0
  {
    if n == 0 then 1 else 2 * Pow2(n - 1)
  }

  function LowBit(x: bv32): (b: nat)
    ensures b < 2
  {
    if x & 1 == 1 then 1 else 0
  }

  function Halved(x: bv32): bv32 { x >> 1 }

  function Doubled(x: bv32): bv32 { x << 1 }

  /** The value of the low n bits. */
  function Bits(x: bv32, n: nat): (v: nat)
    ensures v < Pow2(n)
  {
    if n == 0 then 0 else 2 * Bits(Halved(x), n - 1) + LowBit(x)
  }

  /** The number that a word stands for, unsigned and signed. */
  function Value(x: bv32): nat { Bits(x, 32) }

  function SignedValue(x: bv32): int {
    if Value(x) >= 0x8000_0000 then Value(x) - WORD_SPAN else Value(x)
  }

  function Join(x: bv32, low: nat): bv32 { Doubled(x) | (if low == 1 then 1 else 0) }

  /** The word of n bits with a value. */
  function FromBits(v: nat, n: nat): bv32 {
    if n == 0 then 0 else Join(FromBits(v / 2, n - 1), v % 2)
  }

  /** The word of an integer, modulo 2^32. */
  function WordOfInt(v: int): bv32 { FromBits(v % WORD_SPAN, 32) }

  // ------------------------------------------------------- words and values

  /** n ones. */
  function Ones(n: nat): bv32 {
    if n == 0 then 0 else Join(Ones(n - 1), 1)
  }

  /** The bits from n on are clear. */
  predicate Below(x: bv32, n: nat) { Masked(x, Ones(n)) }

  predicate Masked(x: bv32, m: bv32) { x & !m == 0 }

  lemma MaskedHalf(x: bv32, m: bv32)
    requires Masked(x, Join(m, 1))
    ensures Masked(Halved(x), m)
  {
  }

  lemma Rejoin(x: bv32)
    ensures Join(Halved(x), LowBit(x)) == x
  {
  }

  lemma Halving(v: int, b: nat)
    requires b < 2
    ensures (2 * v + b) / 2 == v && (2 * v + b) % 2 == b
  {
  }

  lemma NothingMasked(x: bv32)
    requires Masked(x, 0)
    ensures x == 0
  {
  }

  lemma {:induction false} FromBitsOf(x: bv32, n: nat)
    requires Below(x, n)
    ensures FromBits(Bits(x, n), n) == x
    decreases n
  {
    hide Halved, Doubled, Join, LowBit, Masked;
    if n > 0 {
      MaskedHalf(x, Ones(n - 1));
      FromBitsOf(Halved(x), n - 1);
      Rejoin(x);
      Halving(Bits(Halved(x), n - 1), LowBit(x));
    } else {
      NothingMasked(x);
    }
  }

  lemma OnesAll()
    ensures Ones(32) == 0xFFFF_FFFF
  {
    assert Ones(4) == 0xF;
    assert Ones(8) == 0xFF;
    assert Ones(12) == 0xFFF;
    assert Ones(16) == 0xFFFF;
    assert Ones(20) == 0xF_FFFF;
    assert Ones(24) == 0xFF_FFFF;
    assert Ones(28) == 0xFFF_FFFF;
  }

  lemma AllMasked(x: bv32)
    ensures Masked(x, 0xFFFF_FFFF)
  {
  }

  lemma SpanIsPower()
    ensures Pow2(32) == WORD_SPAN && Pow2(31) == 0x8000_0000
  {
    assert Pow2(8) == 0x100;
    assert Pow2(16) == 0x1_0000;
    assert Pow2(24) == 0x100_0000;
  }

  /** A word is determined by its value. */
  lemma WordOfValue(x: bv32)
    ensures Value(x) < WORD_SPAN && WordOfInt(Value(x)) == x
  {
    hide Bits, FromBits, Ones, Masked, Pow2;
    SpanIsPower();
    OnesAll();
    AllMasked(x);
    FromBitsOf(x, 32);
  }

  /** A word whose value is an integer modulo 2^32 is the word of that integer. */
  lemma WordIs(x: bv32, v: int)
    requires Value(x) == v % WORD_SPAN
    ensures x == WordOfInt(v)
  {
    hide Value, FromBits;
    WordOfValue(x);
  }

  // -------------------------------------------------------------------- bits

  /** Bit n. */
  function Nth(x: bv32, n: nat): (b: nat)
    ensures b < 2
    decreases n
  {
    if n == 0 then LowBit(x) else Nth(Halved(x), n - 1)
  }

  lemma {:induction false} BitsTop(x: bv32, n: nat)
    ensures Bits(x, n + 1) == Bits(x, n) + (if Nth(x, n) == 1 then Pow2(n) else 0)
    decreases n
  {
    hide Halved, LowBit;
    if n > 0 {
      BitsTop(Halved(x), n - 1);
    } else {
      assert Bits(x, 1) == 2 * Bits(Halved(x), 0) + LowBit(x);
    }
  }

  /** The word 1 << n. */
  function Unit(n: nat): bv32 { if n == 0 then 1 else Doubled(Unit(n - 1)) }

  predicate Touches(x: bv32, y: bv32) { x & y != 0 }

  lemma MeetsHalf(x: bv32, u: bv32)
    ensures Touches(x, Doubled(u)) <==> Touches(Halved(x), u)
  {
  }

  lemma MeetsOne(x: bv32)
    ensures Touches(x, 1) <==> LowBit(x) == 1
  {
  }

  lemma {:induction false} NthMeets(x: bv32, n: nat)
    ensures Nth(x, n) == 1 <==> Touches(x, Unit(n))
    decreases n
  {
    hide Halved, Doubled, LowBit, Touches;
    if n == 0 {
      MeetsOne(x);
    } else {
      MeetsHalf(x, Unit(n - 1));
      NthMeets(Halved(x), n - 1);
    }
  }

  lemma TopUnit()
    ensures Unit(31) == 0x8000_0000
  {
    assert Unit(8) == 0x100;
    assert Unit(16) == 0x1_0000;
    assert Unit(24) == 0x100_0000;
  }

  lemma NegativeMeets(x: bv32)
    ensures Negative(x) <==> Touches(x, 0x8000_0000)
  {
  }

  lemma ValueTop(x: bv32)
    ensures Value(x) == Bits(x, 31) + (if Negative(x) then 0x8000_0000 else 0) && Bits(x, 31) < 0x8000_0000
  {
    hide Bits, Nth, Negative, Touches, Pow2, Unit;
    SpanIsPower();
    BitsTop(x, 31);
    NthMeets(x, 31);
    TopUnit();
    NegativeMeets(x);
  }

  /** The sign bit is the sign. */
  lemma NegativeValue(x: bv32)
    ensures Negative(x) <==> SignedValue(x) < 0
  {
    hide Bits, Negative, Value;
    ValueTop(x);
  }

  /** Two words agree on the bits of a mask. */
  predicate Agree(x: bv32, y: bv32, m: bv32) { x & m == y & m }

  lemma AgreeHalf(x: bv32, y: bv32, m: bv32)
    requires Agree(x, y, Join(m, 1))
    ensures Agree(Halved(x), Halved(y), m) && LowBit(x) == LowBit(y)
  {
  }

  lemma {:induction false} AgreeBits(x: bv32, y: bv32, n: nat)
    requires Agree(x, y, Ones(n))
    ensures Bits(x, n) == Bits(y, n)
    decreases n
  {
    hide Halved, Join, LowBit, Agree;
    if n > 0 {
      AgreeHalf(x, y, Ones(n - 1));
      AgreeBits(Halved(x), Halved(y), n - 1);
    }
  }

  lemma OnesMost()
    ensures Ones(31) == 0x7FFF_FFFF
  {
    assert Ones(4) == 0xF;
    assert Ones(8) == 0xFF;
    assert Ones(12) == 0xFFF;
    assert Ones(16) == 0xFFFF;
    assert Ones(20) == 0xF_FFFF;
    assert Ones(24) == 0xFF_FFFF;
    assert Ones(28) == 0xFFF_FFFF;
  }

  lemma AgreeMost(x: bv32, y: bv32)
    requires Agree(x, y, 0x7FFF_FFFF)
    ensures Bits(x, 31) == Bits(y, 31)
  {
    hide Bits, Agree, Ones;
    OnesMost();
    AgreeBits(x, y, 31);
  }

  // ------------------------------------------------------------- one bit's shift

  lemma DoubleFacts(x: bv32)
    ensures LowBit(Doubled(x)) == 0 && Agree(Halved(Doubled(x)), x, 0x7FFF_FFFF)
  {
  }

  lemma DoubleValue(x: bv32)
    ensures Value(Doubled(x)) == 2 * Value(x) % WORD_SPAN
  {
    DoubleFacts(x);
    hide Halved, Doubled, LowBit, Agree, Negative;
    assert Value(Doubled(x)) == 2 * Bits(Halved(Doubled(x)), 31) + LowBit(Doubled(x));
    hide Bits;
    AgreeMost(Halved(Doubled(x)), x);
    ValueTop(x);
  }

  lemma HalfFacts(x: bv32)
    ensures !Negative(Halved(x))
  {
  }

  lemma HalfValue(x: bv32)
    ensures Value(Halved(x)) == Value(x) / 2
  {
    HalfFacts(x);
    hide Halved, LowBit, Negative;
    assert Value(x) == 2 * Bits(Halved(x), 31) + LowBit(x);
    hide Bits;
    ValueTop(Halved(x));
    Halving(Bits(Halved(x), 31), LowBit(x));
  }

  /** One bit to the right, the sign kept. */
  function HalvedSigned(x: bv32): bv32 { Halved(x) | (x & 0x8000_0000) }

  lemma HalfSignedFacts(x: bv32)
    ensures Negative(HalvedSigned(x)) <==> Negative(x)
    ensures Agree(HalvedSigned(x), Halved(x), 0x7FFF_FFFF)
  {
  }

  lemma HalfSignedValue(x: bv32)
    ensures SignedValue(HalvedSigned(x)) == SignedValue(x) / 2
  {
    HalfSignedFacts(x);
    HalfFacts(x);
    HalfValue(x);
    hide Halved, HalvedSigned, Negative, Agree, Bits, Value;
    AgreeMost(HalvedSigned(x), Halved(x));
    ValueTop(HalvedSigned(x));
    ValueTop(Halved(x));
    ValueTop(x);
  }

  // ------------------------------------------------------------------ counting

  lemma PredecessorHalves(y: bv32)
    requires y != 0
    ensures LowBit(y) == 1 ==> Halved(y - 1) == Halved(y) && LowBit(y - 1) == 0
    ensures LowBit(y) == 0 ==> Halved(y) != 0 && Halved(y - 1) == Halved(y) - 1 && LowBit(y - 1) == 1
  {
  }

  lemma {:induction false} BitsPredecessor(y: bv32, n: nat)
    requires y != 0 && Below(y, n)
    ensures Bits(y, n) == Bits(y - 1, n) + 1
    decreases n
  {
    PredecessorHalves(y);
    hide Halved, LowBit, Masked, Join;
    if n == 0 {
      NothingMasked(y);
    } else {
      MaskedHalf(y, Ones(n - 1));
      if LowBit(y) == 0 {
        BitsPredecessor(Halved(y), n - 1);
      }
    }
  }

  lemma Predecessor(y: bv32)
    requires y != 0
    ensures Value(y) == Value(y - 1) + 1
  {
    hide Bits, Ones, Masked;
    OnesAll();
    AllMasked(y);
    BitsPredecessor(y, 32);
  }

  lemma ZeroValue()
    ensures Value(0) == 0
  {
    hide Bits, FromBits;
    WordOfValue(0);
    assert Halved(0) == 0 && LowBit(0) == 0;
    ZeroBits(32);
  }

  lemma {:induction false} ZeroBits(n: nat)
    ensures Bits(0, n) == 0
  {
    if n > 0 {
      ZeroBits(n - 1);
      assert Halved(0) == 0 && LowBit(0) == 0;
    }
  }

  // --------------------------------------------------------- shifts by a count

  lemma LeftByOne(x: bv32, n: ShiftCount)
    requires n != 0
    ensures n - 1 < 32 && ShiftLeft(x, n) == Doubled(ShiftLeft(x, n - 1))
  {
  }

  lemma RightByOne(x: bv32, n: ShiftCount)
    requires n != 0
    ensures n - 1 < 32 && ShiftRight(x, n) == Halved(ShiftRight(x, n - 1))
  {
  }

  /** The n highest bits. */
  function High(n: ShiftCount): bv32 { HighBits(0xFFFF_FFFF, n) }

  lemma SignMaskIs(x: bv32)
    ensures SignMask(x) == if Negative(x) then 0xFFFF_FFFF else 0
  {
  }

  lemma NoHighBits(x: bv32, n: ShiftCount)
    ensures Either(x, HighBits(0, n)) == x
  {
  }

  lemma AsrParts(x: bv32, n: ShiftCount)
    ensures Asr(x, n) == if Negative(x) then Either(ShiftRight(x, n), High(n)) else ShiftRight(x, n)
  {
    hide ShiftRight, HighBits, Either, Negative, SignMask;
    SignMaskIs(x);
    NoHighBits(ShiftRight(x, n), n);
  }

  lemma SignStays(x: bv32, n: ShiftCount)
    requires !Negative(x)
    ensures !Negative(ShiftRight(x, n))
  {
  }

  lemma HalfOfPositive(x: bv32)
    requires !Negative(x)
    ensures HalvedSigned(x) == Halved(x)
  {
  }

  lemma RightSignedByOne(x: bv32, n: ShiftCount)
    requires n != 0
    ensures n - 1 < 32 && Asr(x, n) == HalvedSigned(Asr(x, n - 1))
  {
    RightByOne(x, n);
    AsrParts(x, n);
    AsrParts(x, n - 1);
    if Negative(x) {
      NegativeByOne(x, n);
    } else {
      SignStays(x, n - 1);
      HalfOfPositive(ShiftRight(x, n - 1));
    }
  }

  lemma NegativeByOne(x: bv32, n: ShiftCount)
    requires n != 0 && Negative(x)
    ensures n - 1 < 32 && Either(ShiftRight(x, n), High(n)) == HalvedSigned(Either(ShiftRight(x, n - 1), High(n - 1)))
  {
  }

  lemma ByNothing(x: bv32)
    ensures ShiftLeft(x, 0) == x && ShiftRight(x, 0) == x && Asr(x, 0) == x
  {
  }

  function Scaled(v: int, p: nat): nat { v * p % WORD_SPAN }

  lemma ScaledTwice(v: int, p: nat)
    ensures 2 * Scaled(v, p) % WORD_SPAN == Scaled(v, 2 * p)
  {
    var w := v * p;
    assert v * (2 * p) == 2 * w;
    assert 2 * (w % WORD_SPAN) == 2 * w - WORD_SPAN * (2 * (w / WORD_SPAN));
    Wrapped(2 * w, 2 * (w / WORD_SPAN));
  }

  lemma Wrapped(a: int, q: int)
    ensures (a - WORD_SPAN * q) % WORD_SPAN == a % WORD_SPAN
  {
  }

  lemma ScaledByOne(v: nat)
    requires v < WORD_SPAN
    ensures Scaled(v, 1) == v
  {
  }

  /** A left shift multiplies modulo 2^32. */
  lemma {:induction false} ShiftLeftValue(x: bv32, n: ShiftCount)
    ensures Value(ShiftLeft(x, n)) == Scaled(Value(x), Pow2(Value(n)))
    decreases Value(n)
  {
    hide ShiftLeft, ShiftRight, Value, Scaled;
    WordOfValue(x);
    if n == 0 {
      ZeroValue();
      ByNothing(x);
      ScaledByOne(Value(x));
    } else {
      LeftByOne(x, n);
      Predecessor(n);
      ShiftLeftValue(x, n - 1);
      DoubleValue(ShiftLeft(x, n - 1));
      ScaledTwice(Value(x), Pow2(Value(n - 1)));
    }
  }

  lemma HalvedAgain(v: int, p: nat)
    requires p > 0
    ensures v / p / 2 == v / (2 * p)
  {
    var q, r := v / p, v % p;
    assert v == p * q + r;
    var h, b := q / 2, q % 2;
    assert q == 2 * h + b;
    assert p * q == 2 * p * h + p * b;
    assert v == (2 * p) * h + (p * b + r);
    assert 0 <= p * b + r < 2 * p;
    Quotient(v, 2 * p, h, p * b + r);
  }

  lemma Quotient(v: int, p: nat, h: int, r: nat)
    requires p > 0 && r < p && v == p * h + r
    ensures v / p == h
  {
    var q, s := v / p, v % p;
    assert v == p * q + s;
    if q < h {
      Ordered(p, q, h);
    } else if h < q {
      Ordered(p, h, q);
    }
  }

  lemma Ordered(p: nat, q: int, h: int)
    requires q < h
    ensures p * q + p <= p * h
  {
    assert p * h == p * q + p * (h - q);
    assert p * (h - q) == p + p * (h - q - 1);
  }

  /** A right shift divides. */
  lemma {:induction false} ShiftRightValue(x: bv32, n: ShiftCount)
    ensures Value(ShiftRight(x, n)) == Value(x) / Pow2(Value(n))
    decreases Value(n)
  {
    hide ShiftLeft, ShiftRight, Value;
    if n == 0 {
      ZeroValue();
      ByNothing(x);
    } else {
      RightByOne(x, n);
      Predecessor(n);
      ShiftRightValue(x, n - 1);
      HalfValue(ShiftRight(x, n - 1));
      HalvedAgain(Value(x), Pow2(Value(n - 1)));
    }
  }

  /** An arithmetic right shift is the floor division. */
  lemma {:induction false} AsrValue(x: bv32, n: ShiftCount)
    ensures SignedValue(Asr(x, n)) == SignedValue(x) / Pow2(Value(n))
    decreases Value(n)
  {
    hide Asr, Value, SignedValue;
    if n == 0 {
      ZeroValue();
      ByNothing(x);
    } else {
      RightSignedByOne(x, n);
      Predecessor(n);
      AsrValue(x, n - 1);
      HalfSignedValue(Asr(x, n - 1));
      HalvedAgain(SignedValue(x), Pow2(Value(n - 1)));
    }
  }

  // --------------------------------------------------------------- comparisons

  predicate LessThan(x: bv32, y: bv32) { x < y }

  lemma LessByHalf(x: bv32, y: bv32)
    requires LessThan(Halved(x), Halved(y))
    ensures LessThan(x, y) && !LessThan(y, x)
  {
  }

  lemma LessByBit(x: bv32, y: bv32)
    requires Halved(x) == Halved(y) && LowBit(x) < LowBit(y)
    ensures LessThan(x, y)
  {
  }

  lemma NotBoth(x: bv32, y: bv32)
    requires LessThan(x, y)
    ensures !LessThan(y, x)
  {
  }

  lemma SameWord(x: bv32, y: bv32)
    requires Halved(x) == Halved(y) && LowBit(x) == LowBit(y)
    ensures x == y && !LessThan(x, y)
  {
  }

  lemma SameHalves(x: bv32, y: bv32)
    requires Halved(x) == Halved(y)
    ensures LessThan(x, y) <==> LowBit(x) < LowBit(y)
  {
    hide LessThan, Halved, LowBit;
    if LowBit(x) < LowBit(y) {
      LessByBit(x, y);
    } else if LowBit(y) < LowBit(x) {
      LessByBit(y, x);
      NotBoth(y, x);
    } else {
      SameWord(x, y);
    }
  }

  lemma {:induction false} BitsOrder(x: bv32, y: bv32, n: nat)
    requires Below(x, n) && Below(y, n)
    ensures LessThan(x, y) <==> Bits(x, n) < Bits(y, n)
    decreases n
  {
    hide Halved, LowBit, Masked, Join, LessThan;
    if n == 0 {
      NothingMasked(x);
      NothingMasked(y);
      SameWord(x, y);
    } else {
      MaskedHalf(x, Ones(n - 1));
      MaskedHalf(y, Ones(n - 1));
      BitsOrder(Halved(x), Halved(y), n - 1);
      BitsOrder(Halved(y), Halved(x), n - 1);
      if LessThan(Halved(x), Halved(y)) {
        LessByHalf(x, y);
      } else if LessThan(Halved(y), Halved(x)) {
        LessByHalf(y, x);
      } else {
        FromBitsOf(Halved(x), n - 1);
        FromBitsOf(Halved(y), n - 1);
        SameHalves(x, y);
      }
    }
  }

  lemma LessValue(x: bv32, y: bv32)
    ensures LessThan(x, y) <==> Value(x) < Value(y)
  {
    hide Bits, Ones, Masked, LessThan;
    OnesAll();
    AllMasked(x);
    AllMasked(y);
    BitsOrder(x, y, 32);
  }

  lemma FlipFacts(x: bv32)
    ensures Agree(Flip(x), x, 0x7FFF_FFFF) && (Negative(Flip(x)) <==> !Negative(x))
  {
  }

  lemma FlipValue(x: bv32)
    ensures Value(Flip(x)) == SignedValue(x) + 0x8000_0000
  {
    FlipFacts(x);
    hide Flip, Negative, Agree, Bits, Value;
    AgreeMost(Flip(x), x);
    ValueTop(x);
    ValueTop(Flip(x));
  }

  /** The unsigned and signed comparisons compare the values. */
  lemma LessMeans(x: bv32, y: bv32)
    ensures Less(x, y) == (if Value(x) < Value(y) then 1 else 0)
    ensures SignedLess(x, y) == (if SignedValue(x) < SignedValue(y) then 1 else 0)
  {
    assert (Less(x, y) == if LessThan(x, y) then 1 else 0) && (SignedLess(x, y) == if LessThan(Flip(x), Flip(y)) then 1 else 0);
    hide Value, SignedValue, Less, SignedLess, Flip, LessThan;
    LessValue(x, y);
    LessValue(Flip(x), Flip(y));
    FlipValue(x);
    FlipValue(y);
  }

  // ---------------------------------------------------------------- arithmetic

  lemma AllOnesValue()
    ensures Value(0xFFFF_FFFF) == WORD_SPAN - 1
  {
    assert Bits(0xF, 4) == 0xF;
    assert Bits(0xFF, 8) == 0xFF;
    assert Bits(0xFFF, 12) == 0xFFF;
    assert Bits(0xFFFF, 16) == 0xFFFF;
    assert Bits(0xF_FFFF, 20) == 0xF_FFFF;
    assert Bits(0xFF_FFFF, 24) == 0xFF_FFFF;
    assert Bits(0xFFF_FFFF, 28) == 0xFFF_FFFF;
  }

  function Next(x: bv32): bv32 { x + 1 }

  lemma NextFacts(x: bv32)
    ensures if x == 0xFFFF_FFFF then Next(x) == 0 else Next(x) != 0 && Next(x) - 1 == x
  {
  }

  /** Counting wraps after the last word. */
  lemma NextValue(x: bv32)
    ensures Value(Next(x)) == (Value(x) + 1) % WORD_SPAN
  {
    NextFacts(x);
    hide Value, Next;
    if x == 0xFFFF_FFFF {
      AllOnesValue();
      ZeroValue();
    } else {
      Predecessor(Next(x));
      WordOfValue(Next(x));
    }
  }

  lemma {:induction false} WithValue(v: nat) returns (x: bv32)
    requires v < WORD_SPAN
    ensures Value(x) == v
  {
    hide Value, Next;
    if v == 0 {
      ZeroValue();
      x := 0;
    } else {
      var y := WithValue(v - 1);
      NextValue(y);
      x := Next(y);
    }
  }

  /** The word of an integer has its value modulo 2^32. */
  lemma ValueOfWord(v: int)
    ensures Value(WordOfInt(v)) == v % WORD_SPAN
  {
    hide Value, FromBits;
    var x := WithValue(v % WORD_SPAN);
    WordIs(x, v);
  }

  /** Words of congruent integers are equal. */
  lemma SameWordOf(v: int, w: int)
    ensures WordOfInt(v) == WordOfInt(w) <==> v % WORD_SPAN == w % WORD_SPAN
  {
    ValueOfWord(v);
    ValueOfWord(w);
  }

  /** A word is the word of its signed value too. */
  lemma WordOfSigned(x: bv32)
    ensures x == WordOfInt(SignedValue(x))
  {
    hide Value, WordOfInt;
    WordOfValue(x);
    SameWordOf(Value(x), SignedValue(x));
  }

  lemma AddNext(x: bv32, y: bv32)
    ensures Add(x, 0) == x && (y != 0 ==> Add(x, y) == Next(Add(x, y - 1)))
  {
  }

  function Modulo(v: int): nat { v % WORD_SPAN }

  lemma ModuloNext(v: int)
    ensures (Modulo(v) + 1) % WORD_SPAN == Modulo(v + 1)
  {
  }

  lemma {:induction false} AddHasValue(x: bv32, y: bv32)
    ensures Value(Add(x, y)) == Modulo(Value(x) + Value(y))
    decreases Value(y)
  {
    AddNext(x, y);
    WordOfValue(x);
    hide Value, Next, Add, WordOfInt;
    if y == 0 {
      ZeroValue();
    } else {
      hide Modulo;
      Predecessor(y);
      AddHasValue(x, y - 1);
      NextValue(Add(x, y - 1));
      ModuloNext(Value(x) + Value(y - 1));
    }
  }

  /** Addition and subtraction of words are those of their values, modulo 2^32. */
  lemma AddValue(x: bv32, y: bv32)
    ensures Add(x, y) == WordOfInt(Value(x) + Value(y))
  {
    hide Value, Add, WordOfInt;
    AddHasValue(x, y);
    WordIs(Add(x, y), Value(x) + Value(y));
  }

  lemma SubtractNext(x: bv32, y: bv32)
    ensures Subtract(x, 0) == x && (y != 0 ==> Subtract(x, y - 1) == Next(Subtract(x, y)))
  {
  }

  lemma ModuloPrevious(d: nat, v: int)
    requires d < WORD_SPAN && (d + 1) % WORD_SPAN == (v + 1) % WORD_SPAN
    ensures d == v % WORD_SPAN
  {
  }

  lemma {:induction false} SubtractHasValue(x: bv32, y: bv32)
    ensures Value(Subtract(x, y)) == (Value(x) - Value(y)) % WORD_SPAN
    decreases Value(y)
  {
    hide Value, Next, Subtract;
    SubtractNext(x, y);
    if y == 0 {
      ZeroValue();
      WordOfValue(x);
    } else {
      Predecessor(y);
      SubtractHasValue(x, y - 1);
      NextValue(Subtract(x, y));
      WordOfValue(Subtract(x, y));
      ModuloPrevious(Value(Subtract(x, y)), Value(x) - Value(y));
    }
  }

  lemma SubtractValue(x: bv32, y: bv32)
    ensures Subtract(x, y) == WordOfInt(Value(x) - Value(y))
  {
    hide Value, Subtract, WordOfInt;
    SubtractHasValue(x, y);
    WordIs(Subtract(x, y), Value(x) - Value(y));
  }

  lemma ComplementSubtracts(x: bv32)
    ensures !x == Subtract(0xFFFF_FFFF, x)
  {
  }

  /** The complement counts down from the last word. */
  lemma ComplementValue(x: bv32)
    ensures !x == WordOfInt(WORD_SPAN - 1 - Value(x))
  {
    hide Value, Subtract, WordOfInt;
    ComplementSubtracts(x);
    SubtractValue(0xFFFF_FFFF, x);
    AllOnesValue();
  }

  // -------------------------------------------------------------- shift counts

  function HalvedBy(x: bv32, k: nat): bv32 {
    if k == 0 then x else HalvedBy(Halved(x), k - 1)
  }

  lemma DoubledProduct(p: nat, b: nat)
    ensures 2 * (p * b) == (2 * p) * b
  {
  }

  /** The bits of a word above and below a place. */
  lemma {:induction false} BitsSplit(x: bv32, k: nat, n: nat)
    ensures Bits(x, k + n) == Pow2(k) * Bits(HalvedBy(x, k), n) + Bits(x, k)
    decreases k
  {
    hide Halved, LowBit;
    if k > 0 {
      BitsSplit(Halved(x), k - 1, n);
      DoubledProduct(Pow2(k - 1), Bits(HalvedBy(x, k), n));
    }
  }

  lemma Count5Facts(x: bv32)
    ensures HalvedBy(Count5(x), 5) == 0 && Agree(Count5(x), x, 0x1F)
  {
    var c := Count5(x);
    var d := Halved(Halved(c));
    assert HalvedBy(c, 5) == HalvedBy(d, 3);
    assert HalvedBy(d, 3) == HalvedBy(Halved(d), 2) == HalvedBy(Halved(Halved(d)), 1) == Halved(Halved(Halved(d)));
  }

  lemma FiveOnes()
    ensures Ones(5) == 0x1F && Pow2(5) == 32
  {
  }

  lemma FiveBits(x: bv32)
    ensures Bits(x, 5) < 32
  {
    hide LowBit, Halved;
    assert Pow2(5) == 32;
  }

  /** The low five bits are the remainder by 32. */
  lemma Count5Value(x: bv32)
    ensures Value(Count5(x)) == Value(x) % 32
  {
    Count5Facts(x);
    hide HalvedBy, Halved, LowBit, Count5, Agree, Bits, Ones, Pow2;
    BitsSplit(x, 5, 27);
    BitsSplit(Count5(x), 5, 27);
    ZeroBits(27);
    FiveOnes();
    AgreeBits(Count5(x), x, 5);
    FiveBits(x);
  }

  lemma SumModulo(a: nat, b: nat)
    ensures (a + b) % WORD_SPAN % 32 == (a + b) % 32
  {
    var s := a + b;
    assert s == 32 * (0x800_0000 * (s / WORD_SPAN)) + s % WORD_SPAN;
  }

  /** The host's count is the sum modulo 32. */
  lemma CountSumValue(a: ShiftCount, b: ShiftCount)
    ensures Value(CountSum(a, b)) == (Value(a) + Value(b)) % 32
  {
    assert CountSum(a, b) == Count5(Add(a, b));
    hide Value, Add, Count5, CountSum;
    Count5Value(Add(a, b));
    AddHasValue(a, b);
    SumModulo(Value(a), Value(b));
  }

  lemma {:induction false} PowersDiffer(m: nat, n: nat)
    requires m < n
    ensures 2 * Pow2(m) <= Pow2(n)
  {
    if m + 1 < n {
      PowersDiffer(m, n - 1);
    }
  }

  lemma SixteenPlaces()
    ensures Value(16) == 16 && Pow2(16) == 0x1_0000
  {
    assert Pow2(16) == 0x1_0000 by { SpanIsPower(); }
    assert HalvedBy(16, 5) == 0 && Bits(16, 5) == 16;
    hide Bits, HalvedBy, Pow2;
    BitsSplit(16, 5, 27);
    ZeroBits(27);
  }

  lemma OneValue()
    ensures Value(1) == 1
  {
    NextValue(0);
    ZeroValue();
  }
}
