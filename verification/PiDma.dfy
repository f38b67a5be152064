/** The ROM branch of pi_dma_write in pi/controller.c: blocks of 128 bytes, with
    the two hardware bugs of the first block.  The transfer has a closed form. */
module PiDma {

  type Byte = b: nat | b < 256

  const RAM_SIZE: nat := 0x80_0000
  const CART_SPAN: nat := 0x1000_0000

  /** x & 0x7FFFFE and x & 0xFFFFFFE. */
  function RamAddress(x: nat): (a: nat)
    ensures a < RAM_SIZE
  {
    x % RAM_SIZE - x % RAM_SIZE % 2
  }

  function CartAddress(x: nat): (a: nat)
    ensures a < CART_SPAN
  {
    x % CART_SPAN - x % CART_SPAN % 2
  }

  /** (n + 1) & ~1 and (n + 7) & ~7. */
  function Even(n: nat): nat { n + n % 2 }

  function Up8(n: nat): nat { (n + 7) / 8 * 8 }

  /** A byte of the ROM as pi_rom_fetch gives it. */
  function RomByte(rom: seq<Byte>, a: nat): Byte { if a < |rom| then rom[a] else 0xFF }

  /** What pi_rom_fetch puts in a buffer. */
  function RomBytes(rom: seq<Byte>, a: nat, n: nat): (s: seq<Byte>)
    ensures |s| == n && forall i :: 0 <= i < n ==> s[i] == RomByte(rom, a + i)
  {
    if n == 0 then [] else RomBytes(rom, a, n - 1) + [RomByte(rom, a + n - 1)]
  }

  // ------------------------------------------------------------------ blocks

  /** PI_DRAM_ADDR_REG, PI_CART_ADDR_REG, and what the loop keeps. */
  datatype Dma = Dma(dram: nat, cart: nat, length: nat, first: bool, ram: seq<Byte>)

  /** The bytes of the transfer that the block takes. */
  function Taken(x: Dma): nat {
    var block := 128 - RamAddress(x.dram) % 8;
    if x.length > block then block else x.length
  }

  /** The bytes that the block writes to RDRAM: in the first block one more when
      only the last byte is missing, and fewer by the misalignment. */
  function Written(x: Dma): nat {
    var misalign := RamAddress(x.dram) % 8;
    var n := Taken(x);
    if !x.first then n
    else
      var m := if n == 128 - misalign - 1 then n + 1 else n;
      if m < misalign then 0 else m - misalign
  }

  /** memcpy to RDRAM. */
  function Copied(ram: seq<Byte>, a: nat, b: seq<Byte>): (r: seq<Byte>)
    requires a + |b| <= |ram|
    ensures |r| == |ram|
  {
    ram[..a] + b + ram[a + |b|..]
  }

  /** One block of the loop. */
  function Block(x: Dma, rom: seq<Byte>): (y: Dma)
    requires x.length > 0 && RamAddress(x.dram) + Written(x) <= |x.ram|
    ensures y.length < x.length && |y.ram| == |x.ram|
  {
    var n, w := Taken(x), Written(x);
    Dma(
      Up8(x.dram + w), x.cart + Even(n), Even(x.length - n), false,
      Copied(x.ram, RamAddress(x.dram), RomBytes(rom, CartAddress(x.cart), w)))
  }

  /** Even register values, as their writes leave them, and a transfer that does
      not run past RDRAM or past the cart's addresses. */
  predicate NoWrap(x: Dma) {
    && x.dram % 2 == 0 && x.cart % 2 == 0 && |x.ram| == RAM_SIZE
    && RamAddress(x.dram) + Even(x.length) <= RAM_SIZE
    && CartAddress(x.cart) + Even(x.length) <= CART_SPAN
  }

  lemma RamParts(q: nat, r: nat)
    requires r < RAM_SIZE && r % 2 == 0
    ensures RamAddress(RAM_SIZE * q + r) == r
  {
  }

  lemma Modulo8(k: nat, r: nat)
    ensures (8 * k + r) % 8 == r % 8
  {
  }

  lemma Modulo2(k: nat, r: nat)
    ensures (2 * k + r) % 2 == r % 2
  {
  }

  lemma EvenSum(a: nat, b: nat)
    requires a % 2 == 0 && b % 2 == 0
    ensures (a + b) % 2 == 0
  {
  }

  lemma RamAdvances(x: nat, n: nat)
    requires x % 2 == 0 && n % 2 == 0
    ensures RamAddress(x) % 8 == x % 8
    ensures RamAddress(x) + n < RAM_SIZE ==> RamAddress(x + n) == RamAddress(x) + n
  {
    var q, r := x / RAM_SIZE, x % RAM_SIZE;
    assert x == RAM_SIZE * q + r;
    Modulo8(0x10_0000 * q, r);
    Modulo2(0x40_0000 * q, r);
    RamParts(q, r);
    EvenSum(r, n);
    if r + n < RAM_SIZE {
      RamParts(q, r + n);
    }
  }

  lemma CartParts(q: nat, r: nat)
    requires r < CART_SPAN && r % 2 == 0
    ensures CartAddress(CART_SPAN * q + r) == r
  {
  }

  lemma CartAdvances(x: nat, n: nat)
    requires x % 2 == 0 && n % 2 == 0
    ensures CartAddress(x) + n < CART_SPAN ==> CartAddress(x + n) == CartAddress(x) + n
  {
    var q, r := x / CART_SPAN, x % CART_SPAN;
    assert x == CART_SPAN * q + r;
    Modulo2(0x800_0000 * q, r);
    CartParts(q, r);
    EvenSum(r, n);
    if r + n < CART_SPAN {
      CartParts(q, r + n);
    }
  }

  lemma Up8Short(f: nat, m: nat)
    requires m < 8 && m <= 8 * f
    ensures Up8(8 * f - m) == 8 * f
  {
  }

  lemma EvenSplit(n: nat, k: nat)
    requires n % 2 == 0
    ensures Even(n) == n && n + Even(k) == Even(n + k) && Even(k) % 2 == 0 && k <= Even(k)
  {
  }

  /** The first block ends at a multiple of 8. */
  lemma BlockEnds(dram: nat, m: nat)
    requires dram % 2 == 0 && m == RamAddress(dram) % 8
    ensures var n := 128 - m;
      m <= 6 && n % 2 == 0 && (dram + n) % 8 == 0 && (dram + n) % 2 == 0 && Up8(dram + n) == dram + n && Up8(dram + n - m) == dram + n
  {
    RamAdvances(dram, 0);
    hide RamAddress, Up8;
    var e := dram / 8;
    assert dram == 8 * e + m;
    EvenBits(e, m);
    Modulo8(e + 16, 0);
    Modulo2(4 * e + 64, 0);
    Up8Short(e + 16, 0);
    Up8Short(e + 16, m);
  }

  lemma EvenBits(e: nat, m: nat)
    requires m < 8 && (8 * e + m) % 2 == 0
    ensures m % 2 == 0 && m <= 6 && (128 - m) % 2 == 0
  {
    Modulo2(4 * e, m);
  }

  /** A block that is not the last fills up to an aligned address, or leaves a hole before it. */
  lemma FullBlock(x: Dma, rom: seq<Byte>)
    requires NoWrap(x) && x.length > 128 - RamAddress(x.dram) % 8
    ensures Written(x) <= Even(x.length)
    ensures var y := Block(x, rom); var n := Taken(x);
      && NoWrap(y) && y.length % 2 == 0 && !y.first && y.length > 0
      && n % 2 == 0 && n + y.length == Even(x.length) && y.cart == x.cart + n
      && y.dram == x.dram + n && y.dram % 8 == 0
      && RamAddress(y.dram) == RamAddress(x.dram) + n && CartAddress(y.cart) == CartAddress(x.cart) + n
  {
    var m := RamAddress(x.dram) % 8;
    BlockEnds(x.dram, m);
    var n := Taken(x);
    EvenSplit(n, x.length - n);
    EvenSplit(0, Even(x.length - n));
    EvenSum(x.cart, n);
    RamAdvances(x.dram, n);
    CartAdvances(x.cart, n);
    hide RomBytes, Copied, Up8, RamAddress, CartAddress, Even;
    assert Block(x, rom).dram == x.dram + n;
  }

  lemma WrittenFits(x: Dma)
    requires NoWrap(x) && 0 < x.length <= 128 - RamAddress(x.dram) % 8
    ensures Taken(x) == x.length && Written(x) <= Even(x.length) && Even(0) == 0
  {
    BlockEnds(x.dram, RamAddress(x.dram) % 8);
    hide RamAddress, CartAddress;
  }

  /** The last block. */
  lemma LastBlock(x: Dma, rom: seq<Byte>)
    requires NoWrap(x) && 0 < x.length <= 128 - RamAddress(x.dram) % 8
    ensures Written(x) <= Even(x.length)
    ensures var y := Block(x, rom); y.length == 0 && NoWrap(y) && y.cart == x.cart + Even(x.length) && y.dram == Up8(x.dram + Written(x))
  {
    WrittenFits(x);
    EvenSplit(0, x.length);
    EvenSum(x.cart, Even(x.length));
    AfterLast(x.dram + Written(x), x.cart + Even(x.length));
    hide RomBytes, Copied, RamAddress, CartAddress, Up8, Even, Taken, Written;
  }

  lemma AfterLast(dram: nat, cart: nat)
    requires cart % 2 == 0
    ensures Up8(dram) % 2 == 0 && RamAddress(Up8(dram)) <= RAM_SIZE && CartAddress(cart) <= CART_SPAN
  {
  }

  lemma BlockKeepsNoWrap(x: Dma, rom: seq<Byte>)
    requires NoWrap(x) && x.length > 0
    ensures Written(x) <= Even(x.length) && NoWrap(Block(x, rom)) && Block(x, rom).length % 2 == 0 && !Block(x, rom).first
  {
    hide NoWrap, Written;
    if x.length > 128 - RamAddress(x.dram) % 8 {
      FullBlock(x, rom);
    } else {
      LastBlock(x, rom);
    }
  }

  /** The loop of pi_dma_write. */
  function Transfer(x: Dma, rom: seq<Byte>): (y: Dma)
    requires NoWrap(x)
    decreases x.length
  {
    if x.length == 0 then x
    else
      BlockKeepsNoWrap(x, rom);
      Transfer(Block(x, rom), rom)
  }

  // -------------------------------------------------------------- closed form

  lemma RomBytesSplit(rom: seq<Byte>, a: nat, n: nat, k: nat)
    ensures RomBytes(rom, a, n) + RomBytes(rom, a + n, k) == RomBytes(rom, a, n + k)
  {
    var x, y := RomBytes(rom, a, n) + RomBytes(rom, a + n, k), RomBytes(rom, a, n + k);
    forall i | 0 <= i < n + k ensures x[i] == y[i] {
    }
  }

  lemma CopiedTwice(ram: seq<Byte>, a: nat, b: seq<Byte>, c: seq<Byte>)
    requires a + |b| + |c| <= |ram|
    ensures Copied(Copied(ram, a, b), a + |b|, c) == Copied(ram, a, b + c)
  {
  }

  lemma JoinedCopies(ram: seq<Byte>, rom: seq<Byte>, a: nat, c: nat, n: nat, k: nat)
    requires a + n + k <= |ram|
    ensures Copied(Copied(ram, a, RomBytes(rom, c, n)), a + n, RomBytes(rom, c + n, k)) == Copied(ram, a, RomBytes(rom, c, n + k))
  {
    CopiedTwice(ram, a, RomBytes(rom, c, n), RomBytes(rom, c + n, k));
    RomBytesSplit(rom, c, n, k);
  }

  lemma TransferFits(x: Dma)
    requires NoWrap(x)
    ensures |x.ram| == RAM_SIZE && RamAddress(x.dram) + Even(x.length) <= RAM_SIZE
  {
  }

  /** The parts of a block that the closed form needs. */
  lemma BlockCopies(x: Dma, rom: seq<Byte>)
    requires NoWrap(x) && x.length > 0
    ensures RamAddress(x.dram) + Written(x) <= |x.ram|
    ensures Block(x, rom).ram == Copied(x.ram, RamAddress(x.dram), RomBytes(rom, CartAddress(x.cart), Written(x)))
    ensures NoWrap(Block(x, rom)) && !Block(x, rom).first && Transfer(x, rom) == Transfer(Block(x, rom), rom)
    ensures Block(x, rom).length == 0 ==> Transfer(x, rom) == Block(x, rom)
  {
    BlockKeepsNoWrap(x, rom);
    hide Copied, RomBytes, Up8, RamAddress, CartAddress, Written, Taken, Even;
  }

  /** The blocks after the first copy the rest of the transfer, whole. */
  lemma {:induction false} LaterBlocks(x: Dma, rom: seq<Byte>)
    requires NoWrap(x) && !x.first && x.length % 2 == 0 && x.length > 0 && RamAddress(x.dram) % 8 == 0
    ensures RamAddress(x.dram) + x.length <= |x.ram|
    ensures Transfer(x, rom) == Dma(Up8(x.dram + x.length), x.cart + x.length, 0, false,
      Copied(x.ram, RamAddress(x.dram), RomBytes(rom, CartAddress(x.cart), x.length)))
    decreases x.length
  {
    EvenSplit(x.length, 0);
    TransferFits(x);
    WholeBlock(x);
    hide Up8, RamAddress, CartAddress, Even, RomBytes, Copied, NoWrap, Transfer, Block, Written, Taken;
    var d, c := RamAddress(x.dram), CartAddress(x.cart);
    BlockCopies(x, rom);
    if x.length > 128 {
      FullBlock(x, rom);
      FullBlockAligned(x, rom);
      LaterBlocks(Block(x, rom), rom);
      JoinedCopies(x.ram, rom, d, c, 128, x.length - 128);
    } else {
      LastBlock(x, rom);
    }
  }

  lemma WholeBlock(x: Dma)
    requires !x.first && RamAddress(x.dram) % 8 == 0
    ensures Taken(x) == Written(x) == if x.length > 128 then 128 else x.length
  {
  }

  lemma FullBlockAligned(x: Dma, rom: seq<Byte>)
    requires NoWrap(x) && x.length > 128 - RamAddress(x.dram) % 8
    ensures var y := Block(x, rom); y.length > 0 && RamAddress(y.dram) % 8 == 0
  {
    FullBlock(x, rom);
    RamAdvances(Block(x, rom).dram, 0);
    hide Block, RamAddress;
  }

  /** Byte k of a transfer of n bytes to an address that is m past a multiple of
      8 arrives in RDRAM: all but the hole at the end of the first block. */
  predicate Arrives(n: nat, m: nat, k: nat) {
    if n >= 127 - m then k < 128 - 2 * m || 128 - m <= k < Even(n) else k + m < n
  }

  /** The bytes that the first block writes. */
  lemma FirstBlockBytes(x: Dma)
    requires NoWrap(x) && x.first && x.length > 0
    ensures var m := RamAddress(x.dram) % 8;
      && m % 2 == 0 && m <= 6
      && Written(x) == (if x.length >= 127 - m then 128 - 2 * m else if x.length < m then 0 else x.length - m)
      && (127 - m <= x.length <= 128 - m ==> Even(x.length) == 128 - m)
      && (x.length > 128 - m ==> Even(x.length) > 128 - m)
  {
    BlockEnds(x.dram, RamAddress(x.dram) % 8);
  }

  lemma CopiedAt(ram: seq<Byte>, a: nat, b: seq<Byte>, i: nat)
    requires a + |b| <= |ram| && i < |ram|
    ensures Copied(ram, a, b)[i] == if a <= i < a + |b| then b[i - a] else ram[i]
  {
  }

  /** Byte i of RDRAM after writing n bytes of ROM at a. */
  lemma RomAt(ram: seq<Byte>, rom: seq<Byte>, a: nat, c: nat, n: nat, i: nat)
    requires a + n <= |ram| && i < |ram|
    ensures Copied(ram, a, RomBytes(rom, c, n))[i] == if a <= i < a + n then RomByte(rom, c + (i - a)) else ram[i]
  {
    CopiedAt(ram, a, RomBytes(rom, c, n), i);
    hide Copied;
  }

  /** A transfer that goes on after the first block. */
  lemma TwoCopies(x: Dma, rom: seq<Byte>)
    requires NoWrap(x) && x.first && x.length > 128 - RamAddress(x.dram) % 8
    ensures var n, d, c, m, w := Even(x.length), RamAddress(x.dram), CartAddress(x.cart), RamAddress(x.dram) % 8, Written(x);
      && n >= 128 - m && d + n <= |x.ram| == RAM_SIZE && w == 128 - 2 * m
      && Transfer(x, rom) == Dma(Up8(x.dram + n), x.cart + n, 0, false,
           Copied(Copied(x.ram, d, RomBytes(rom, c, w)), d + 128 - m, RomBytes(rom, c + 128 - m, n - (128 - m))))
  {
    FirstBlockBytes(x);
    TransferFits(x);
    TakenBytes(x);
    hide RamAddress, CartAddress, Up8, Even, RomBytes, Copied, NoWrap, Transfer, Block, Written, Taken, RomByte;
    BlockCopies(x, rom);
    FirstBlockFull(x, rom);
    LaterBlocks(Block(x, rom), rom);
  }

  lemma FirstBlockFull(x: Dma, rom: seq<Byte>)
    requires NoWrap(x) && x.length > 128 - RamAddress(x.dram) % 8
    ensures RamAddress(x.dram) + Written(x) <= |x.ram|
    ensures var y := Block(x, rom); var k := 128 - RamAddress(x.dram) % 8;
      && y.length > 0 && y.length % 2 == 0 && y.length == Even(x.length) - k && RamAddress(y.dram) % 8 == 0
      && y.dram == x.dram + k && y.cart == x.cart + k
      && RamAddress(y.dram) == RamAddress(x.dram) + k && CartAddress(y.cart) == CartAddress(x.cart) + k
  {
    TakenBytes(x);
    TransferFits(x);
    hide RamAddress, CartAddress, Up8, Even, RomBytes, Copied, NoWrap, Block, Written, Taken, RomByte;
    FullBlock(x, rom);
    FullBlockAligned(x, rom);
  }

  lemma LongTransfer(x: Dma, rom: seq<Byte>, i: nat)
    requires NoWrap(x) && x.first && x.length > 128 - RamAddress(x.dram) % 8 && i < RAM_SIZE
    ensures var y := Transfer(x, rom); var d, c, m, n := RamAddress(x.dram), CartAddress(x.cart), RamAddress(x.dram) % 8, x.length;
      && y.cart == x.cart + Even(n) && y.dram == Up8(x.dram + Even(n)) && |y.ram| == RAM_SIZE
      && y.ram[i] == if d <= i < d + 128 - 2 * m || d + 128 - m <= i < d + Even(n) then RomByte(rom, c + (i - d)) else x.ram[i]
  {
    hide RamAddress, CartAddress, Up8, Even, RomBytes, Copied, NoWrap, Transfer, Block, Written, Taken, RomByte;
    TwoCopies(x, rom);
    var d, c, m := RamAddress(x.dram), CartAddress(x.cart), RamAddress(x.dram) % 8;
    RomAt(x.ram, rom, d, c, Written(x), i);
    RomAt(Copied(x.ram, d, RomBytes(rom, c, Written(x))), rom, d + 128 - m, c + 128 - m, Even(x.length) - (128 - m), i);
  }

  /** A transfer of one block. */
  lemma ShortTransfer(x: Dma, rom: seq<Byte>, i: nat)
    requires NoWrap(x) && x.first && 0 < x.length <= 128 - RamAddress(x.dram) % 8 && i < RAM_SIZE
    ensures var y := Transfer(x, rom); var d, c := RamAddress(x.dram), CartAddress(x.cart);
      && y.cart == x.cart + Even(x.length) && y.dram == Up8(x.dram + Written(x)) && |y.ram| == RAM_SIZE
      && y.ram[i] == if d <= i < d + Written(x) then RomByte(rom, c + (i - d)) else x.ram[i]
  {
    TransferFits(x);
    hide RamAddress, CartAddress, Up8, Even, RomBytes, Copied, NoWrap, Transfer, Block, Written, Taken, RomByte;
    BlockCopies(x, rom);
    LastBlock(x, rom);
    RomAt(x.ram, rom, RamAddress(x.dram), CartAddress(x.cart), Written(x), i);
  }

  /** The closed form of a ROM transfer: the cart address advances by the length
      rounded up to even, the bytes that arrive do so at a constant offset, and
      nothing else changes. */
  lemma RomTransfer(x: Dma, rom: seq<Byte>, i: nat)
    requires NoWrap(x) && x.first && x.length > 0 && i < RAM_SIZE
    ensures var y := Transfer(x, rom); var d, c, m, n := RamAddress(x.dram), CartAddress(x.cart), RamAddress(x.dram) % 8, x.length;
      && y.cart == x.cart + Even(n)
      && y.dram == Up8(x.dram + (if n >= 127 - m then Even(n) else if n < m then 0 else n - m))
      && |y.ram| == RAM_SIZE
      && y.ram[i] == if i >= d && Arrives(n, m, i - d) then RomByte(rom, c + (i - d)) else x.ram[i]
  {
    FirstBlockBytes(x);
    hide RamAddress, CartAddress, Up8, Even, NoWrap, Transfer, Written, RomByte;
    if x.length > 128 - RamAddress(x.dram) % 8 {
      LongTransfer(x, rom, i);
    } else {
      ShortTransfer(x, rom, i);
      LastAddress(x);
    }
  }

  lemma TakenBytes(x: Dma)
    ensures var m := RamAddress(x.dram) % 8; Taken(x) == if x.length > 128 - m then 128 - m else x.length
  {
  }

  /** A transfer of one block ends at the same address whether its last byte was there or not. */
  lemma LastAddress(x: Dma)
    requires NoWrap(x) && x.first && 0 < x.length <= 128 - RamAddress(x.dram) % 8
    ensures var m, n := RamAddress(x.dram) % 8, x.length;
      Up8(x.dram + Written(x)) == Up8(x.dram + (if n >= 127 - m then Even(n) else if n < m then 0 else n - m))
  {
    FirstBlockBytes(x);
    BlockEnds(x.dram, RamAddress(x.dram) % 8);
    hide RamAddress, Even, Up8, Written, NoWrap;
  }
}
