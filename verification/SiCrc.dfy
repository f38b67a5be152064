/** The two checksums of the serial interface: si_crc32 of si/cic.c, driven by a
    table, and controller_pak_crc of si/pak.c. */
module SiCrc {

  // ------------------------------------------------------ CRC-32, RFC 1952

  const POLYNOMIAL: bv32 := 0xEDB8_8320

  function Xor(a: bv32, b: bv32): bv32 { a ^ b }

  function Half(a: bv32): bv32 { a >> 1 }

  function Odd(a: bv32): bool { a & 1 == 1 }

  /** One turn of the inner loop that fills the table. */
  function Shift(c: bv32): bv32 { if Odd(c) then Xor(POLYNOMIAL, Half(c)) else Half(c) }

  function Shifts(c: bv32, n: nat): bv32 { if n == 0 then c else Shift(Shifts(c, n - 1)) }

  /** One bit of the message: section 8 of RFC 1952, a bit at a time. */
  function TakeBit(c: bv32, bit: bool): bv32 { Shift(if bit then Xor(c, 1) else c) }

  function Wide(b: bv8): bv32 { b as bv32 }

  function BitOf(b: bv32, i: nat): bool
    requires i < 8
  {
    Odd(Drop(b, i))
  }

  /** b >> i. */
  function Drop(b: bv32, i: nat): bv32 { if i == 0 then b else Half(Drop(b, i - 1)) }

  /** The first n bits of a byte, the least significant first. */
  function TakeBits(c: bv32, b: bv8, n: nat): bv32
    requires n <= 8
  {
    if n == 0 then c else TakeBit(TakeBits(c, b, n - 1), BitOf(Wide(b), n - 1))
  }

  /** The register after the bytes of a message. */
  function Bitwise(c: bv32, data: seq<bv8>): bv32 {
    if data == [] then c else TakeBits(Bitwise(c, data[..|data| - 1]), data[|data| - 1], 8)
  }

  /** The CRC-32 of RFC 1952. */
  function Crc32(data: seq<bv8>): bv32 { Xor(Bitwise(0xFFFF_FFFF, data), 0xFFFF_FFFF) }

  // The shift is linear.
  lemma OddXor(a: bv32, b: bv32)
    ensures Odd(Xor(a, b)) == (Odd(a) != Odd(b))
  {
  }

  lemma HalfXor(a: bv32, b: bv32)
    ensures Half(Xor(a, b)) == Xor(Half(a), Half(b))
  {
  }

  lemma XorAssociates(p: bv32, a: bv32, b: bv32)
    ensures Xor(Xor(p, a), b) == Xor(p, Xor(a, b))
  {
  }

  lemma XorCommutes(a: bv32, b: bv32)
    ensures Xor(a, b) == Xor(b, a)
  {
  }

  lemma XorCancels(p: bv32, a: bv32, b: bv32)
    ensures Xor(Xor(p, a), Xor(p, b)) == Xor(a, b)
  {
    XorSelf(p);
    XorZero(a);
    hide Xor;
    XorCommutes(p, a);
    XorAssociates(a, p, p);
    XorAssociates(Xor(p, a), p, b);
  }

  lemma XorSelf(p: bv32)
    ensures Xor(p, p) == 0
  {
  }

  lemma XorRules(p: bv32, a: bv32, b: bv32)
    ensures Xor(Xor(p, a), b) == Xor(p, Xor(a, b)) && Xor(a, b) == Xor(b, a) && Xor(Xor(p, a), Xor(p, b)) == Xor(a, b)
  {
    hide Xor;
    XorAssociates(p, a, b);
    XorCommutes(a, b);
    XorCancels(p, a, b);
  }

  lemma ShiftLinear(a: bv32, b: bv32)
    ensures Shift(Xor(a, b)) == Xor(Shift(a), Shift(b))
  {
    hide Xor, Half, Odd;
    OddXor(a, b);
    HalfXor(a, b);
    XorRules(POLYNOMIAL, Half(a), Half(b));
    XorRules(POLYNOMIAL, Half(b), Half(a));
    XorRules(POLYNOMIAL, Half(a), Xor(POLYNOMIAL, Half(b)));
  }

  lemma {:induction false} ShiftsLinear(a: bv32, b: bv32, n: nat)
    ensures Shifts(Xor(a, b), n) == Xor(Shifts(a, n), Shifts(b, n))
  {
    hide Xor, Shift;
    if n > 0 {
      ShiftsLinear(a, b, n - 1);
      ShiftLinear(Shifts(a, n - 1), Shifts(b, n - 1));
    }
  }

  function LowByte(x: bv32): bv32 { x & 0xFF }

  function HighBytes(x: bv32): bv32 { x & 0xFFFF_FF00 }

  function Shift8(x: bv32): bv32 { x >> 8 }

  lemma Halves(b: bv32)
    ensures Half(b) == b >> 1 && Half(b >> 1) == b >> 2 && Half(b >> 2) == b >> 3 && Half(b >> 3) == b >> 4
    ensures Half(b >> 4) == b >> 5 && Half(b >> 5) == b >> 6 && Half(b >> 6) == b >> 7 && Half(b >> 7) == b >> 8
  {
  }

  lemma DropUnrolled(b: bv32)
    ensures Drop(b, 0) == b && Drop(b, 1) == b >> 1 && Drop(b, 2) == b >> 2 && Drop(b, 3) == b >> 3 && Drop(b, 4) == b >> 4
    ensures Drop(b, 5) == b >> 5 && Drop(b, 6) == b >> 6 && Drop(b, 7) == b >> 7 && Drop(b, 8) == b >> 8
  {
    Halves(b);
    hide Half;
    assert Drop(b, 1) == Half(Drop(b, 0));
    assert Drop(b, 2) == Half(Drop(b, 1));
    assert Drop(b, 3) == Half(Drop(b, 2));
    assert Drop(b, 4) == Half(Drop(b, 3));
    assert Drop(b, 5) == Half(Drop(b, 4));
    assert Drop(b, 6) == Half(Drop(b, 5));
    assert Drop(b, 7) == Half(Drop(b, 6));
    assert Drop(b, 8) == Half(Drop(b, 7));
  }

  lemma HighBits(x: bv32)
    ensures var h := HighBytes(x);
      && !Odd(h) && !Odd(h >> 1) && !Odd(h >> 2) && !Odd(h >> 3)
      && !Odd(h >> 4) && !Odd(h >> 5) && !Odd(h >> 6) && !Odd(h >> 7) && h >> 8 == Shift8(x)
  {
  }

  lemma HighBytesEven(x: bv32, n: nat)
    requires n <= 8
    ensures n < 8 ==> !Odd(Drop(HighBytes(x), n))
    ensures n == 8 ==> Drop(HighBytes(x), n) == Shift8(x)
  {
    HighBits(x);
    DropUnrolled(HighBytes(x));
    hide Half, Odd, HighBytes, Drop;
    if n >= 4 {
      assert n == 4 || n == 5 || n == 6 || n == 7 || n == 8;
    } else {
      assert n == 0 || n == 1 || n == 2 || n == 3;
    }
  }

  /** Eight shifts of a word without its low byte only move it. */
  lemma {:induction false} HighBytesShift(x: bv32, n: nat)
    requires n <= 8
    ensures Shifts(HighBytes(x), n) == Drop(HighBytes(x), n)
  {
    hide Xor, Half, Odd, HighBytes;
    if n > 0 {
      HighBytesShift(x, n - 1);
      HighBytesEven(x, n - 1);
    }
  }

  lemma SplitWord(x: bv32)
    ensures Xor(LowByte(x), HighBytes(x)) == x
  {
  }

  /** One table entry: eight shifts of the index. */
  function Entry(i: bv32): bv32 { Shifts(i, 8) }

  /** The table step is eight shifts of the whole register. */
  lemma TableStep(x: bv32)
    ensures Xor(Entry(LowByte(x)), Shift8(x)) == Shifts(x, 8)
  {
    hide Xor, Shifts, Drop, HighBytes, LowByte, Shift8;
    SplitWord(x);
    ShiftsLinear(LowByte(x), HighBytes(x), 8);
    HighBytesShift(x, 8);
    HighBytesEven(x, 8);
  }

  // -------------------------------------------- a byte, at once or bit by bit

  lemma TakeBitIsShift(c: bv32, rest: bv32, bit: bool)
    requires bit == Odd(rest)
    ensures Shift(Xor(c, rest)) == Xor(TakeBit(c, bit), Half(rest))
  {
    var low: bv32 := if bit then 1 else 0;
    hide Odd, Half, Xor;
    LowBit(rest);
    var even := Xor(low, rest);
    XorRules(c, low, even);
    XorRules(low, low, rest);
    XorZero(c);
    ShiftLinear(Xor(c, low), even);
  }

  lemma LowBit(rest: bv32)
    ensures var even := Xor(if Odd(rest) then 1 else 0, rest); !Odd(even) && Half(even) == Half(rest) && Xor(if Odd(rest) then 1 else 0, even) == rest
  {
  }

  lemma XorZero(c: bv32)
    ensures Xor(c, 0) == c
  {
  }

  /** After n bits, the register and the bits not yet taken make up n shifts of
      the register with the whole byte. */
  lemma {:induction false} BitsAreShifts(c: bv32, b: bv8, n: nat)
    requires n <= 8
    ensures Shifts(Xor(c, Wide(b)), n) == Xor(TakeBits(c, b, n), Drop(Wide(b), n))
  {
    hide Xor, Odd, Half, Shift, TakeBit, Wide;
    if n > 0 {
      BitsAreShifts(c, b, n - 1);
      TakeBitIsShift(TakeBits(c, b, n - 1), Drop(Wide(b), n - 1), BitOf(Wide(b), n - 1));
    }
  }

  lemma WideEnds(b: bv8)
    ensures Drop(Wide(b), 8) == 0
  {
    DropUnrolled(Wide(b));
    hide Drop;
  }

  /** The loop body of si_crc32 takes a byte as eight bits do. */
  lemma ByteStep(c: bv32, b: bv8)
    ensures var x := Xor(c, Wide(b)); Xor(Entry(LowByte(x)), Shift8(x)) == TakeBits(c, b, 8)
    ensures Shift8(Xor(c, Wide(b))) == Shift8(c)
  {
    var x := Xor(c, Wide(b));
    ShiftedAway(c, b);
    hide Xor, Wide, Drop, Shifts, LowByte, Shift8, TakeBits;
    TableStep(x);
    BitsAreShifts(c, b, 8);
    WideEnds(b);
    XorZero(TakeBits(c, b, 8));
  }

  lemma ShiftedAway(c: bv32, b: bv8)
    ensures Shift8(Xor(c, Wide(b))) == Shift8(c)
  {
  }

  // --------------------------------------------------- the checksum in loops

  lemma LowByteSmall(x: bv32)
    ensures LowByte(x) < 256
  {
  }

  /** (uint32_t) n. */
  function FromIndex(i: nat): bv32
    requires i < 256
  {
    i as bv32
  }

  /** (c ^ data[n]) & 0xFF as an index. */
  function Index(x: bv32): (i: nat)
    ensures i < 256 && FromIndex(i) == LowByte(x)
  {
    LowByteSmall(x);
    LowByte(x) as nat
  }

  /** The loop that fills the table. */
  method FillTable() returns (table: array<bv32>)
    ensures fresh(table) && table.Length == 256 && forall i: nat :: i < 256 ==> table[i] == Entry(FromIndex(i))
  {
    hide Shift, FromIndex;
    table := new bv32[256](_ => 0);
    var n: nat := 0;
    while n < 256
      invariant n <= 256
      invariant forall i: nat :: i < n ==> table[i] == Entry(FromIndex(i))
    {
      var c := FromIndex(n);
      var k: nat := 0;
      while k < 8
        invariant k <= 8 && c == Shifts(FromIndex(n), k)
      {
        c := Shift(c);
        k := k + 1;
      }
      table[n] := c;
      n := n + 1;
    }
  }

  lemma NextByte(data: seq<bv8>, n: nat)
    requires n < |data|
    ensures Bitwise(0xFFFF_FFFF, data[..n + 1]) == TakeBits(Bitwise(0xFFFF_FFFF, data[..n]), data[n], 8)
  {
    hide TakeBits;
    assert data[..n + 1][..n] == data[..n];
  }

  /** si_crc32 computes the CRC-32 of every byte string. */
  method SiCrc32(data: seq<bv8>) returns (crc: bv32)
    ensures crc == Crc32(data)
  {
    hide Entry, Xor, Shift8, TakeBits, Wide, FromIndex, LowByte;
    var table := FillTable();
    var c: bv32 := 0xFFFF_FFFF;
    var n: nat := 0;
    while n < |data|
      invariant n <= |data| && c == Bitwise(0xFFFF_FFFF, data[..n])
      invariant forall i: nat :: i < 256 ==> table[i] == Entry(FromIndex(i))
    {
      ByteStep(c, data[n]);
      NextByte(data, n);
      var x := Xor(c, Wide(data[n]));
      assert table[Index(x)] == Entry(LowByte(x));
      c := Xor(table[Index(x)], Shift8(c));
      n := n + 1;
    }
    assert data[..n] == data;
    crc := Xor(c, 0xFFFF_FFFF);
  }

  // --------------------------------------------- the pak checksum as a remainder

  /** Bits of a polynomial over GF(2), the coefficient of the highest power first. */
  type Bits = seq<bool>

  function Coefficient(m: Bits, i: int): bool { 0 <= i < |m| && m[|m| - 1 - i] }

  function Plus(a: bool, b: bool): bool { a != b }

  /** A coefficient of the product with x^8 + x^7 + x^2 + 1. */
  function Product(q: Bits, i: int): bool {
    Plus(Plus(Coefficient(q, i), Coefficient(q, i - 2)), Plus(Coefficient(q, i - 7), Coefficient(q, i - 8)))
  }

  /** m is q times the polynomial plus r, and r has a lower degree. */
  ghost predicate Divides(m: Bits, q: Bits, r: Bits) {
    |r| == 8 && forall i: int :: Coefficient(m, i) == Plus(Product(q, i), Coefficient(r, i))
  }

  /** One turn of the inner loop on the eight bits of the register: shift the bit
      in, and take the polynomial off if the top bit goes out. */
  function PakStep(r: Bits, bit: bool): (r': Bits)
    requires |r| == 8
    ensures |r'| == 8
  {
    var tap := r[0];
    [Plus(r[1], tap), r[2], r[3], r[4], r[5], Plus(r[6], tap), r[7], Plus(bit, tap)]
  }

  const CLEAR: Bits := [false, false, false, false, false, false, false, false]

  function PakRegister(m: Bits): (r: Bits)
    ensures |r| == 8
  {
    if m == [] then CLEAR else PakStep(PakRegister(m[..|m| - 1]), m[|m| - 1])
  }

  /** The bits that leave the register. */
  function Quotient(m: Bits): Bits {
    if m == [] then [] else Quotient(m[..|m| - 1]) + [PakRegister(m[..|m| - 1])[0]]
  }

  lemma CoefficientOfNext(m: Bits, b: bool, i: int)
    ensures Coefficient(m + [b], i) == if i == 0 then b else Coefficient(m, i - 1)
  {
  }

  lemma ProductOfNext(q: Bits, b: bool, i: int)
    ensures Product(q + [b], i) == Plus(Product(q, i - 1), (i == 0 || i == 2 || i == 7 || i == 8) && b)
  {
    hide Coefficient;
    CoefficientOfNext(q, b, i);
    CoefficientOfNext(q, b, i - 2);
    CoefficientOfNext(q, b, i - 7);
    CoefficientOfNext(q, b, i - 8);
    NoCoefficient(q);
  }

  lemma NoCoefficient(q: Bits)
    ensures forall i: int :: i < 0 ==> !Coefficient(q, i)
  {
  }

  lemma StepCoefficient(r: Bits, bit: bool, i: int)
    requires |r| == 8
    ensures Coefficient(PakStep(r, bit), i)
         == Plus(if i == 0 then bit else Coefficient(r, i - 1), (i == 0 || i == 2 || i == 7 || i == 8) && r[0])
  {
  }

  lemma NegativeProduct(q: Bits, i: int)
    ensures i < 0 ==> !Product(q, i)
  {
  }

  lemma NothingDivides()
    ensures Divides([], [], CLEAR)
  {
    forall i: int ensures !Coefficient([], i) && !Coefficient(CLEAR, i) {
    }
  }

  /** The register always holds the remainder of the bits so far. */
  lemma {:induction false} PakDivides(m: Bits)
    ensures Divides(m, Quotient(m), PakRegister(m))
    decreases |m|
  {
    hide Product, Coefficient, PakStep;
    if m == [] {
      NothingDivides();
    } else {
      var n, b := m[..|m| - 1], m[|m| - 1];
      PakDivides(n);
      var q, r := Quotient(n), PakRegister(n);
      forall i: int ensures Coefficient(m, i) == Plus(Product(Quotient(m), i), Coefficient(PakRegister(m), i)) {
        assert m == n + [b];
        CoefficientOfNext(n, b, i);
        ProductOfNext(q, r[0], i);
        StepCoefficient(r, b, i);
        NegativeProduct(q, i - 1);
      }
    }
  }

  /** Two divisions of the same polynomial have the same quotient from power k on. */
  lemma {:induction false} QuotientsAgree(m: Bits, q: Bits, r: Bits, q': Bits, r': Bits, k: nat)
    requires Divides(m, q, r) && Divides(m, q', r')
    ensures forall i: int :: i >= k ==> Coefficient(q, i) == Coefficient(q', i)
    decreases |q| + |q'| - k
  {
    if k < |q| + |q'| {
      QuotientsAgree(m, q, r, q', r', k + 1);
      assert Plus(Product(q, k + 8), Coefficient(r, k + 8)) == Coefficient(m, k + 8) == Plus(Product(q', k + 8), Coefficient(r', k + 8));
      assert Coefficient(q, k + 8) == Coefficient(q', k + 8) && Coefficient(q, k + 6) == Coefficient(q', k + 6);
      assert Coefficient(q, k + 1) == Coefficient(q', k + 1);
      assert Coefficient(q, k) == Coefficient(q', k);
    }
  }

  /** So the remainder is the only one there is. */
  lemma RemainderIsUnique(m: Bits, q: Bits, r: Bits, q': Bits, r': Bits)
    requires Divides(m, q, r) && Divides(m, q', r')
    ensures r == r'
  {
    QuotientsAgree(m, q, r, q', r', 0);
    NoCoefficient(q);
    NoCoefficient(q');
    forall i: int ensures Coefficient(r, i) == Coefficient(r', i) {
      SameProduct(q, q', i);
      assert Coefficient(m, i) == Plus(Product(q, i), Coefficient(r, i));
    }
    SameBits(r, r');
  }

  lemma SameBits(r: Bits, r': Bits)
    requires |r| == |r'| == 8 && forall i: int :: Coefficient(r, i) == Coefficient(r', i)
    ensures r == r'
  {
    forall j | 0 <= j < 8 ensures r[j] == r'[j] {
      assert Coefficient(r, 7 - j) == Coefficient(r', 7 - j);
    }
  }

  lemma SameProduct(q: Bits, q': Bits, i: int)
    requires forall j: int :: j >= 0 ==> Coefficient(q, j) == Coefficient(q', j)
    ensures Product(q, i) == Product(q', i)
  {
    NoCoefficient(q);
    NoCoefficient(q');
    hide Coefficient;
  }

  function PlusBits(a: Bits, b: Bits): (c: Bits)
    requires |a| == |b|
    ensures |c| == |a|
  {
    seq(|a|, i requires 0 <= i < |a| => Plus(a[i], b[i]))
  }

  /** The checksum is linear: that of a sum is the sum of the checksums. */
  lemma {:induction false} PakIsLinear(a: Bits, b: Bits)
    requires |a| == |b|
    ensures PakRegister(PlusBits(a, b)) == PlusBits(PakRegister(a), PakRegister(b))
    decreases |a|
  {
    if a == [] {
      assert PlusBits(a, b) == [];
      assert PlusBits(CLEAR, CLEAR) == CLEAR;
    } else {
      var n := |a| - 1;
      PakIsLinear(a[..n], b[..n]);
      assert PlusBits(a, b)[..n] == PlusBits(a[..n], b[..n]);
      StepIsLinear(PakRegister(a[..n]), PakRegister(b[..n]), a[n], b[n]);
    }
  }

  lemma StepAt(r: Bits, bit: bool, i: nat)
    requires |r| == 8 && i < 8
    ensures PakStep(r, bit)[i] == Plus(if i < 7 then r[i + 1] else bit, (i == 0 || i == 5 || i == 7) && r[0])
  {
  }

  lemma StepIsLinear(r: Bits, s: Bits, a: bool, b: bool)
    requires |r| == |s| == 8
    ensures PakStep(PlusBits(r, s), Plus(a, b)) == PlusBits(PakStep(r, a), PakStep(s, b))
  {
    hide PakStep;
    var p := PlusBits(r, s);
    var x, y := PakStep(p, Plus(a, b)), PlusBits(PakStep(r, a), PakStep(s, b));
    forall i | 0 <= i < 8 ensures x[i] == y[i] {
      StepAt(p, Plus(a, b), i);
      StepAt(r, a, i);
      StepAt(s, b, i);
    }
  }

  // ------------------------------------------------------- the register as a byte

  function MaskAt(k: nat): bv8 { if k >= 8 then 0 else (0x80 as bv8) >> k }

  function ByteBits(b: bv8): (s: Bits)
    ensures |s| == 8
  {
    [b & 0x80 != 0, b & 0x40 != 0, b & 0x20 != 0, b & 0x10 != 0, b & 8 != 0, b & 4 != 0, b & 2 != 0, b & 1 != 0]
  }

  /** crc <<= 1; crc |= 1 or not; crc ^= xor_tap. */
  function ByteShift(crc: bv8, bit: bool): bv8 {
    var tap: bv8 := if crc & 0x80 != 0 then 0x85 else 0;
    ((crc << 1) | (if bit then 1 else 0)) ^ tap
  }

  lemma ByteShiftIsStep(crc: bv8, bit: bool)
    ensures ByteBits(ByteShift(crc, bit)) == PakStep(ByteBits(crc), bit)
  {
  }

  function DataBits(data: seq<bv8>): Bits {
    if data == [] then [] else DataBits(data[..|data| - 1]) + ByteBits(data[|data| - 1])
  }

  /** The message that the checksum divides: the data times x^8. */
  function PakMessage(data: seq<bv8>): Bits { DataBits(data) + CLEAR }

  lemma NextBit(m: Bits, b: bool)
    ensures PakRegister(m + [b]) == PakStep(PakRegister(m), b)
  {
    assert (m + [b])[..|m|] == m;
  }

  lemma NextDataByte(data: seq<bv8>, i: nat)
    requires i < |data|
    ensures DataBits(data[..i + 1]) == DataBits(data[..i]) + ByteBits(data[i])
  {
    assert data[..i + 1][..i] == data[..i];
  }

  lemma MaskBit(b: bv8, k: nat)
    requires k < 8
    ensures ByteBits(b)[k] == (b & MaskAt(k) != 0)
  {
  }

  /** The inner loop: the eight bits of one byte, or eight zeros. */
  method TakeByte(crc: bv8, byte: bv8, last: bool, ghost m: Bits) returns (r: bv8)
    requires ByteBits(crc) == PakRegister(m)
    ensures ByteBits(r) == PakRegister(m + (if last then CLEAR else ByteBits(byte)))
  {
    hide ByteBits, MaskAt, ByteShift, PakStep;
    ghost var bits := if last then CLEAR else ByteBits(byte);
    r := crc;
    var k: nat := 0;
    assert m + bits[..0] == m;
    while k < 8
      invariant k <= 8 && ByteBits(r) == PakRegister(m + bits[..k])
    {
      MaskBit(byte, k);
      var bit := !last && byte & MaskAt(k) != 0;
      ByteShiftIsStep(r, bit);
      NextBit(m + bits[..k], bit);
      assert m + bits[..k + 1] == m + bits[..k] + [bit];
      r := ByteShift(r, bit);
      k := k + 1;
    }
    assert bits[..8] == bits;
  }

  /** controller_pak_crc: the remainder of the data times x^8. */
  method ControllerPakCrc(data: seq<bv8>) returns (crc: bv8)
    requires |data| == 0x20
    ensures ByteBits(crc) == PakRegister(PakMessage(data))
    ensures Divides(PakMessage(data), Quotient(PakMessage(data)), ByteBits(crc))
  {
    hide ByteBits, PakStep, Quotient, Divides;
    crc := 0;
    ClearByte();
    var i: nat := 0;
    while i < 0x20
      invariant i <= 0x20 && ByteBits(crc) == PakRegister(DataBits(data[..i]))
    {
      crc := TakeByte(crc, data[i], false, DataBits(data[..i]));
      NextDataByte(data, i);
      i := i + 1;
    }
    assert data[..i] == data;
    crc := TakeByte(crc, 0, true, DataBits(data));
    PakDivides(PakMessage(data));
  }

  lemma ClearByte()
    ensures ByteBits(0) == CLEAR
  {
  }
}
