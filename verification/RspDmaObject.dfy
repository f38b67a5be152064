/** SP memory, RDRAM and the DMA registers, updated word by word. */
module RspDmaObject {
  import opened RspDma
  import RspIsa

  class RspMemory {
    const mem: array<Byte>
    const opcodes: array<RspIsa.Opcode>
    const ram: array<Byte>
    var dmaDram: nat
    var dmaCache: nat

    ghost predicate Valid() { mem.Length == SP_SIZE && opcodes.Length == 0x400 && ram.Length == RAM_SIZE && mem != ram }

    ghost function Contents(): (sp: Sp)
      requires Valid()
      reads mem, opcodes
      ensures sp.Valid()
    {
      Sp(mem[..], opcodes[..])
    }

    constructor ()
      ensures Valid() && fresh(mem) && fresh(opcodes) && fresh(ram)
    {
      mem := new Byte[SP_SIZE](_ => 0);
      opcodes := new RspIsa.Opcode[0x400](_ => RspIsa.Opcode(RspIsa.INVALID, false, false, false, false));
      ram := new Byte[RAM_SIZE](_ => 0);
      dmaDram, dmaCache := 0, 0;
    }

    /** memcpy of four bytes. */
    static method Put(a: array<Byte>, at: nat, b: Word)
      requires at + 4 <= a.Length
      modifies a
      ensures a[..] == old(a[..])[..at] + b + old(a[..])[at + 4..]
    {
      a[at], a[at + 1], a[at + 2], a[at + 3] := b[0], b[1], b[2], b[3];
    }

    /** write_sp_mem, and the body of the loop of a DMA read. */
    method WriteWord(at: nat, w: Word)
      requires Valid() && at + 4 <= SP_SIZE && at % 4 == 0
      modifies mem, opcodes
      ensures Contents() == Written(old(Contents()), at, w)
    {
      hide Decoded;
      if at >= 0x1000 {
        opcodes[(at - 0x1000) / 4] := Decoded(w);
        Put(mem, at, HostBytes(w));
      } else {
        Put(mem, at, w);
      }
    }

    /** read_sp_mem, and the body of the loop of a DMA write. */
    method ReadWord(at: nat) returns (w: Word)
      requires Valid() && at + 4 <= SP_SIZE
      ensures w == Load(mem[..], at)
    {
      w := if at >= 0x1000 then [mem[at + 3], mem[at + 2], mem[at + 1], mem[at]] else [mem[at], mem[at + 1], mem[at + 2], mem[at + 3]];
    }

    /** The lengths of a transfer, and the aligned registers. */
    method Align(length: nat) returns (bytes: nat)
      modifies this
      ensures bytes == RowBytes(Request(old(dmaDram), old(dmaCache), length))
      ensures dmaDram == Align8(old(dmaDram)) && dmaCache == Align8(old(dmaCache))
    {
      bytes := length % 0x1000 + 1;
      bytes := Align8(bytes + 7);
      InPage(dmaCache / 8);
      dmaCache := Align8(dmaCache);
      dmaDram := Align8(dmaDram);
      if dmaCache % 0x1000 + bytes > 0x1000 {
        bytes := 0x1000 - dmaCache % 0x1000;
      }
    }

    /** The inner loop of a DMA read. */
    method ReadOneRow(source: nat, dest: nat, bytes: nat, ghost r: Request, ghost i: nat)
      requires Valid() && bytes == RowBytes(r)
      requires source == RamAddress(Align8(r.dram) + i * (RowBytes(r) + Skip(r)))
      requires dest == SpAddress(Align8(r.cache) + i * RowBytes(r))
      modifies mem, opcodes
      ensures Contents() == ReadRow(old(Contents()), ram[..], r, i, bytes / 4)
    {
      hide RowBytes, Rows, Skip, Align8, Written, RamAddress, SpAddress;
      RowCount(r);
      ghost var row := Contents();
      var j: nat := 0;
      ghost var n: nat := 0;
      while j < bytes
        invariant j == 4 * n && j <= bytes
        invariant Contents() == ReadRow(row, ram[..], r, i, n)
      {
        var from, to := RamAddress(source + j), SpAddress(dest + j);
        assert from == RamWord(r, i, n) && to == SpWord(r, i, n);
        assert ram[from..from + 4] == Bus(ram[..], from);
        WriteWord(to, ram[from..from + 4]);
        j, n := j + 4, n + 1;
      }
    }

    /** The inner loop of a DMA write. */
    method WriteOneRow(source: nat, dest: nat, bytes: nat, ghost r: Request, ghost i: nat)
      requires Valid() && bytes == RowBytes(r)
      requires dest == RamAddress(Align8(r.dram) + i * (RowBytes(r) + Skip(r)))
      requires source == SpAddress(Align8(r.cache) + i * RowBytes(r))
      modifies ram
      ensures ram[..] == WriteRow(old(ram[..]), Contents(), r, i, bytes / 4)
    {
      hide RowBytes, Rows, Skip, Align8, Load, RamAddress, SpAddress;
      RowCount(r);
      ghost var row := ram[..];
      ghost var sp := Contents();
      var j: nat := 0;
      ghost var n: nat := 0;
      while j < bytes
        invariant j == 4 * n && j <= bytes
        invariant ram[..] == WriteRow(row, sp, r, i, n) && Contents() == sp
      {
        var from, to := SpAddress(source + j), RamAddress(dest + j);
        assert to == RamWord(r, i, n) && from == SpWord(r, i, n);
        var w := ReadWord(from);
        Put(ram, to, w);
        j, n := j + 4, n + 1;
      }
    }

    /** rsp_dma_read. */
    method ReadDma(length: nat)
      requires Valid()
      modifies this, mem, opcodes
      ensures var r := Request(old(dmaDram), old(dmaCache), length);
        && Contents() == DmaRead(old(Contents()), ram[..], r)
        && dmaDram == Align8(r.dram) + Rows(r) * (RowBytes(r) + Skip(r)) && dmaCache == Align8(r.cache) + Rows(r) * RowBytes(r)
    {
      hide RowBytes, Rows, Skip, Align8, ReadRow, RamAddress, SpAddress;
      ghost var r := Request(dmaDram, dmaCache, length);
      ghost var sp := Contents();
      var bytes := Align(length);
      var skip := length / 0x10_0000 % 0x1000;
      var count := length / 0x1000 % 0x100;
      RowCount(r);
      var i: nat := 0;
      while i <= count
        invariant i <= Rows(r) && bytes == RowBytes(r)
        invariant dmaDram == Align8(r.dram) + i * (bytes + skip) && dmaCache == Align8(r.cache) + i * bytes
        invariant Contents() == ReadRows(sp, ram[..], r, i)
      {
        ReadOneRow(RamAddress(dmaDram), SpAddress(dmaCache), bytes, r, i);
        NextRow(i, bytes, skip);
        dmaDram := dmaDram + bytes + skip;
        dmaCache := dmaCache + bytes;
        i := i + 1;
      }
    }

    /** rsp_dma_write. */
    method WriteDma(length: nat)
      requires Valid()
      modifies this, ram
      ensures var r := Request(old(dmaDram), old(dmaCache), length);
        && ram[..] == DmaWrite(old(ram[..]), Contents(), r)
        && dmaDram == Align8(r.dram) + Rows(r) * (RowBytes(r) + Skip(r)) && dmaCache == Align8(r.cache) + Rows(r) * RowBytes(r)
    {
      hide RowBytes, Rows, Skip, Align8, WriteRow, RamAddress, SpAddress;
      ghost var r := Request(dmaDram, dmaCache, length);
      ghost var before := ram[..];
      var bytes := Align(length);
      var skip := length / 0x10_0000 % 0x1000;
      var count := length / 0x1000 % 0x100;
      RowCount(r);
      var i: nat := 0;
      while i <= count
        invariant i <= Rows(r) && bytes == RowBytes(r)
        invariant dmaDram == Align8(r.dram) + i * (bytes + skip) && dmaCache == Align8(r.cache) + i * bytes
        invariant ram[..] == WriteRows(before, Contents(), r, i)
      {
        WriteOneRow(SpAddress(dmaCache), RamAddress(dmaDram), bytes, r, i);
        NextRow(i, bytes, skip);
        dmaCache := dmaCache + bytes;
        dmaDram := dmaDram + bytes + skip;
        i := i + 1;
      }
    }
  }

  lemma InPage(x: nat)
    ensures 8 * x % 0x1000 == 8 * (x % 0x200)
  {
  }

  lemma RowCount(r: Request)
    ensures Rows(r) == r.length / 0x1000 % 0x100 + 1 && Skip(r) == r.length / 0x10_0000 % 0x1000 && RowBytes(r) % 4 == 0
  {
    hide RowBytes;
    assert RowBytes(r) % 8 == 0;
  }

  lemma NextRow(i: nat, bytes: nat, skip: nat)
    ensures (i + 1) * (bytes + skip) == i * (bytes + skip) + bytes + skip && (i + 1) * bytes == i * bytes + bytes
  {
  }
}
