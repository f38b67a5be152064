/** The PI controller's registers and RDRAM, updated block by block by the ROM
    branch of pi_dma_write. */
module PiDmaObject {
  import opened PiDma

  /** The branches that come before the ROM: the 64DD's ROM and registers, SRAM
      and FlashRAM.  The source address has 28 bits. */
  predicate RomBranch(source: nat, ddRom: bool) {
    && !(ddRom && source / 0x200_0000 % 4 == 3)
    && !(source / 0x100_0000 % 2 == 1 && source / 0x400_0000 % 2 == 1)
    && source < 0x800_0000
  }

  class PiController {
    var dram: nat
    var cart: nat
    var wrLen: nat
    const rom: seq<Byte>
    const ram: array<Byte>

    constructor (image: seq<Byte>)
      ensures rom == image && ram.Length == RAM_SIZE && fresh(ram)
    {
      rom := image;
      ram := new Byte[RAM_SIZE](_ => 0);
      dram, cart, wrLen := 0, 0, 0;
    }

    /** The transfer that a write to PI_WR_LEN_REG starts. */
    ghost function Request(): Dma
      reads this, ram
    {
      Dma(dram, cart, wrLen % 0x100_0000 + 1, true, ram[..])
    }

    /** pi_rom_fetch: the bytes of the ROM, and 0xFF past its end. */
    method RomFetch(source: nat, length: nat) returns (dest: seq<Byte>)
      ensures dest == RomBytes(rom, source, length)
    {
      var l := length;
      if source >= |rom| {
        l := 0;
      } else if source + length > |rom| {
        l := |rom| - source;
      }
      var fill := seq(length - l, _ => 0xFF as Byte);
      dest := (if source < |rom| then rom[source..source + l] else []) + fill;
    }

    /** memcpy to RDRAM. */
    method CopyToRam(a: nat, b: seq<Byte>)
      requires a + |b| <= ram.Length
      modifies ram
      ensures ram[..] == Copied(old(ram[..]), a, b)
    {
      var i := 0;
      while i < |b|
        invariant 0 <= i <= |b|
        invariant forall k :: 0 <= k < ram.Length ==> ram[k] == if a <= k < a + i then b[k - a] else old(ram[k])
      {
        ram[a + i] := b[i];
        i := i + 1;
      }
    }

    /** One turn of the loop of pi_dma_write. */
    method RunBlock(length: nat, first: bool) returns (rest: nat)
      requires ram.Length == RAM_SIZE && NoWrap(Dma(dram, cart, length, first, ram[..])) && length > 0
      modifies this`dram, this`cart, ram
      ensures RamAddress(old(dram)) + Written(Dma(old(dram), old(cart), length, first, old(ram[..]))) <= RAM_SIZE
      ensures Dma(dram, cart, rest, false, ram[..]) == Block(Dma(old(dram), old(cart), length, first, old(ram[..])), rom)
    {
      hide RomBytes, Copied, NoWrap, RamAddress, CartAddress, Up8;
      ghost var x := Dma(dram, cart, length, first, ram[..]);
      BlockCopies(x, rom);
      WrittenFetched(x);
      var dest := RamAddress(dram);
      var misalign := dest % 8;
      var current: int := length;
      var block := 128 - misalign;
      if current > block {
        current := block;
      }
      rest := length - current;
      if rest % 2 == 1 {
        rest := rest + 1;
      }
      var source := CartAddress(cart);
      var fetched := Even(current);
      var mem := RomFetch(source, fetched);
      cart := cart + fetched;
      if first {
        if current == block - 1 {
          current := current + 1;
        }
        current := current - misalign;
        if current < 0 {
          current := 0;
        }
      }
      assert current == Written(x);
      RomPrefix(rom, source, current, fetched);
      CopyToRam(dest, mem[..current]);
      dram := Up8(dram + current);
    }

    /** pi_dma_write in its ROM branch. */
    method DmaWrite(ghost ddRom: bool)
      requires ram.Length == RAM_SIZE && NoWrap(Request()) && RomBranch(CartAddress(cart), ddRom)
      modifies this, ram
      ensures Dma(dram, cart, 0, false, ram[..]) == Transfer(old(Request()), rom)
      ensures var x := old(Request()); var d, c := RamAddress(x.dram), CartAddress(x.cart);
        && cart == x.cart + Even(x.length)
        && forall i :: 0 <= i < RAM_SIZE ==>
          ram[..][i] == if i >= d && Arrives(x.length, d % 8, i - d) then RomByte(rom, c + (i - d)) else x.ram[i]
      ensures wrLen == 0x7F - (if old(wrLen) % 0x100_0000 + 1 <= 8 then old(dram) % 8 else 0)
    {
      hide RomBytes, Copied, NoWrap, RamAddress, CartAddress, Up8, Even, RomByte, Arrives, Block, Written, Transfer;
      var length: nat := wrLen % 0x100_0000 + 1;
      ghost var x := Request();
      wrLen := 0x7F;
      if length <= 8 {
        wrLen := wrLen - dram % 8;
      }
      var first := true;
      ghost var y := x;
      while length > 0
        invariant y == Dma(dram, cart, length, first, ram[..]) && NoWrap(y)
        invariant Transfer(y, rom) == Transfer(x, rom) && (length == 0 ==> !first)
        invariant wrLen == 0x7F - (if old(wrLen) % 0x100_0000 + 1 <= 8 then old(dram) % 8 else 0)
        decreases length
      {
        BlockCopies(y, rom);
        y := Block(y, rom);
        length := RunBlock(length, first);
        first := false;
      }
      TransferEnds(y, rom);
      forall i | 0 <= i < RAM_SIZE
        ensures ram[..][i] == if i >= RamAddress(x.dram) && Arrives(x.length, RamAddress(x.dram) % 8, i - RamAddress(x.dram))
                              then RomByte(rom, CartAddress(x.cart) + (i - RamAddress(x.dram))) else x.ram[i]
      {
        RomTransfer(x, rom, i);
      }
      RomTransfer(x, rom, 0);
    }
  }

  lemma TransferEnds(x: Dma, rom: seq<Byte>)
    requires NoWrap(x) && x.length == 0
    ensures Transfer(x, rom) == x
  {
  }

  lemma WrittenFetched(x: Dma)
    requires NoWrap(x) && x.length > 0
    ensures Written(x) <= Even(Taken(x)) && Taken(x) <= x.length
  {
    BlockEnds(x.dram, RamAddress(x.dram) % 8);
    hide RamAddress, CartAddress;
  }

  lemma RomPrefix(rom: seq<Byte>, a: nat, n: nat, more: nat)
    requires n <= more
    ensures RomBytes(rom, a, more)[..n] == RomBytes(rom, a, n)
  {
    RomBytesSplit(rom, a, n, more - n);
  }
}
