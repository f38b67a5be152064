/** The data cache of the VR4300: 512 write-back lines of 16 bytes, virtually
    indexed and physically tagged (vr4300/dcache.c), with the miss handler of
    vr4300/fault.c, the hit path of vr4300/pipeline.c and the write-back CACHE
    operations of vr4300/functions.c.

    `Flat` is the memory a program sees.  Every run of cached accesses and CACHE
    operations gives the results that the uncached path gives on flat memory. */
module Vr4300DCache {
  import opened Vr4300Bus

  const SLOTS := 512

  /** struct vr4300_dcache_line: the data in host order, and the fields of the
      metadata word (the physical page in bits 12 to 31, dirty in bit 1, valid in bit 0). */
  datatype Line = Line(data: seq<Byte>, page: nat, dirty: bool, valid: bool)

  datatype Cache = Cache(lines: seq<Line>, mem: seq<Byte>)

  // ------------------------------------------------------------- line layout

  /** Where a little-endian host keeps byte b of a line: the words of each
      doubleword are swapped (WORD_ADDR_XOR) and the bytes of each word reversed. */
  function HostPos(b: nat): (p: nat)
    requires b < 16
    ensures p < 16
  {
    if b < 8 then 7 - b else 23 - b
  }

  function HostOrder(d: seq<Byte>): (h: seq<Byte>)
    requires |d| == 16
    ensures |h| == 16
  {
    seq(16, i requires 0 <= i < 16 => d[HostPos(i)])
  }

  lemma HostOrderTwice(d: seq<Byte>)
    requires |d| == 16
    ensures HostOrder(HostOrder(d)) == d
  {
  }

  /** A doubleword load from the line: half 0 or 1. */
  function LineDword(data: seq<Byte>, half: nat): Dword
    requires |data| == 16 && half < 2
  {
    seq(8, i requires 0 <= i < 8 => data[8 * half + 7 - i])
  }

  function WithLineDword(data: seq<Byte>, half: nat, d: Dword): (h: seq<Byte>)
    requires |data| == 16 && half < 2
    ensures |h| == 16
  {
    seq(16, i requires 0 <= i < 16 => if 8 * half <= i < 8 * half + 8 then d[8 * half + 7 - i] else data[i])
  }

  // ---------------------------------------------------------------- addresses

  /** The slot of a virtual address. */
  function SlotOf(va: nat): (i: nat)
    ensures i < SLOTS
  {
    va / 16 % SLOTS
  }

  /** The translation keeps the bits that select the slot: the page offset and bit 12. */
  predicate SameSlot(va: nat, pa: nat) { SlotOf(va) == pa / 16 % SLOTS }

  /** The physical line of a slot's content: vr4300_dcache_get_tag. */
  function LineOf(page: nat, slot: nat): nat { 256 * page + slot % 256 }

  lemma LineOfLine(ln: nat)
    ensures LineOf(ln / 256, ln % SLOTS) == ln
  {
    var q, r := ln / 512, ln % 512;
    assert ln == 512 * q + r;
    if r < 256 {
      assert ln / 256 == 2 * q;
    } else {
      assert ln / 256 == 2 * q + 1;
    }
  }

  // ---------------------------------------------------------------- coherence

  predicate LineInRam(mem: seq<Byte>, ln: nat) { 16 * ln + 16 <= |mem| }

  function RamLine(mem: seq<Byte>, ln: nat): (d: seq<Byte>)
    requires LineInRam(mem, ln)
    ensures |d| == 16
  {
    mem[16 * ln..16 * ln + 16]
  }

  /** What the cache keeps about one slot. */
  predicate SlotCoherent(c: Cache, i: nat)
    requires i < |c.lines|
  {
    var line := c.lines[i];
    line.valid ==>
      var ln := LineOf(line.page, i);
      && |line.data| == 16
      && ln % SLOTS == i && LineInRam(c.mem, ln)
      && (!line.dirty ==> HostOrder(line.data) == RamLine(c.mem, ln))
  }

  predicate Coherent(c: Cache) {
    && |c.lines| == SLOTS
    && |c.mem| % 16 == 0
    && forall i :: 0 <= i < SLOTS ==> SlotCoherent(c, i)
  }

  /** vr4300_dcache_probe for a line whose slot agrees. */
  predicate Hit(c: Cache, ln: nat)
    requires |c.lines| == SLOTS
  {
    var line := c.lines[ln % SLOTS];
    line.valid && line.page == ln / 256
  }

  /** Each physical line sits in at most one slot. */
  lemma HitIsUnique(c: Cache, i: nat, ln: nat)
    requires Coherent(c) && i < SLOTS && c.lines[i].valid
    ensures LineOf(c.lines[i].page, i) == ln <==> (i == ln % SLOTS && Hit(c, ln))
  {
    LineOfLine(ln);
    assert SlotCoherent(c, i);
    var p := c.lines[i].page;
    if LineOf(p, i) == ln {
      assert ln / 256 == p by { Quotient(p, i % 256); }
    }
  }

  lemma Quotient(p: nat, r: nat)
    requires r < 256
    ensures (256 * p + r) / 256 == p
  {
  }

  lemma HitData(c: Cache, ln: nat)
    requires Coherent(c) && Hit(c, ln)
    ensures var line := c.lines[ln % SLOTS];
      |line.data| == 16 && LineOf(line.page, ln % SLOTS) == ln && LineInRam(c.mem, ln)
    ensures var line := c.lines[ln % SLOTS];
      !line.dirty ==> HostOrder(line.data) == RamLine(c.mem, ln)
  {
    LineOfLine(ln);
    assert SlotCoherent(c, ln % SLOTS);
  }

  // -------------------------------------------------------------- flat memory

  /** A line as the program sees it. */
  function FlatLine(c: Cache, ln: nat): (d: seq<Byte>)
    requires Coherent(c) && LineInRam(c.mem, ln)
    ensures |d| == 16
  {
    if Hit(c, ln) then
      HitData(c, ln);
      HostOrder(c.lines[ln % SLOTS].data)
    else RamLine(c.mem, ln)
  }

  lemma LineOfByte(mem: seq<Byte>, a: nat)
    requires |mem| % 16 == 0 && a < |mem|
    ensures LineInRam(mem, a / 16)
  {
    var q, n := a / 16, |mem| / 16;
    assert |mem| == 16 * n;
    assert a == 16 * q + a % 16;
    assert q < n;
  }

  function FlatByte(c: Cache, a: nat): Byte
    requires Coherent(c) && a < |c.mem|
  {
    LineOfByte(c.mem, a);
    FlatLine(c, a / 16)[a % 16]
  }

  /** The memory that the program sees through the cache. */
  function Flat(c: Cache): (m: seq<Byte>)
    requires Coherent(c)
    ensures |m| == |c.mem|
  {
    seq(|c.mem|, a requires 0 <= a < |c.mem| => FlatByte(c, a))
  }

  // ------------------------------------------------------- write-back and fill

  /** The line's four words written to the bus. */
  function WriteLine(mem: seq<Byte>, ln: nat, data: seq<Byte>): (m: seq<Byte>)
    requires LineInRam(mem, ln) && |data| == 16
    ensures |m| == |mem|
  {
    mem[..16 * ln] + HostOrder(data) + mem[16 * ln + 16..]
  }

  /** The write-back of the dirty line in a slot, if there is one. */
  function Flushed(c: Cache, slot: nat): (m: seq<Byte>)
    requires Coherent(c) && slot < SLOTS
    ensures |m| == |c.mem|
  {
    var line := c.lines[slot];
    if line.valid && line.dirty then
      assert SlotCoherent(c, slot);
      WriteLine(c.mem, LineOf(line.page, slot), line.data)
    else c.mem
  }

  /** VR4300_DCM for a cached access: flush the victim and fill the line. */
  function Filled(c: Cache, ln: nat): (c': Cache)
    requires Coherent(c) && LineInRam(c.mem, ln)
  {
    var m := Flushed(c, ln % SLOTS);
    Cache(c.lines[ln % SLOTS := Line(HostOrder(RamLine(m, ln)), ln / 256, false, true)], m)
  }

  /** Index write-back invalidate: vr4300_cacheop_dc_wb_invalidate. */
  function IndexWbInvalidated(c: Cache, slot: nat): Cache
    requires Coherent(c) && slot < SLOTS
  {
    var line := c.lines[slot];
    if !line.valid then c else Cache(c.lines[slot := line.(valid := false, dirty := false)], Flushed(c, slot))
  }

  /** vr4300_cacheop_dc_hit_wb_invalidate: the dirty bit survives the invalidation. */
  function HitWbInvalidated(c: Cache, ln: nat): Cache
    requires Coherent(c)
  {
    var slot := ln % SLOTS;
    if !Hit(c, ln) then c else Cache(c.lines[slot := c.lines[slot].(valid := false)], Flushed(c, slot))
  }

  /** vr4300_cacheop_dc_hit_wb. */
  function HitWrittenBack(c: Cache, ln: nat): Cache
    requires Coherent(c)
  {
    var slot := ln % SLOTS;
    if !Hit(c, ln) then c else Cache(c.lines[slot := c.lines[slot].(dirty := false)], Flushed(c, slot))
  }

  // ------------------------------------------------------ flat memory is kept

  lemma WrittenLine(mem: seq<Byte>, ln: nat, data: seq<Byte>, k: nat)
    requires LineInRam(mem, ln) && |data| == 16 && LineInRam(mem, k)
    ensures RamLine(WriteLine(mem, ln, data), k) == if k == ln then HostOrder(data) else RamLine(mem, k)
  {
    hide HostOrder;
    if k < ln {
      assert 16 * k + 16 <= 16 * ln;
    } else if k > ln {
      assert 16 * k >= 16 * ln + 16;
    }
  }

  /** A flush puts the content of its slot in memory. */
  lemma FlushedLine(c: Cache, slot: nat, ln: nat)
    requires Coherent(c) && slot < SLOTS && LineInRam(c.mem, ln)
    ensures RamLine(Flushed(c, slot), ln) == if ln % SLOTS == slot then FlatLine(c, ln) else RamLine(c.mem, ln)
  {
    hide HostOrder, RamLine, WriteLine, LineOf;
    var line := c.lines[slot];
    if line.valid {
      assert SlotCoherent(c, slot);
      var own := LineOf(line.page, slot);
      HitIsUnique(c, slot, ln);
      if line.dirty {
        WrittenLine(c.mem, own, line.data, ln);
      }
    }
  }

  /** The new content of a slot is invalid, or a line with the flat memory's bytes. */
  ghost predicate Faithful(c: Cache, slot: nat, line: Line)
    requires Coherent(c) && slot < SLOTS
  {
    line.valid ==>
      var ln := LineOf(line.page, slot);
      && |line.data| == 16
      && ln % SLOTS == slot && LineInRam(c.mem, ln)
      && HostOrder(line.data) == FlatLine(c, ln)
  }

  /** Flushing a slot and giving it such a content, which is what a miss and the
      write-back operations do. */
  lemma FlushAndReplace(c: Cache, slot: nat, line: Line)
    requires Coherent(c) && slot < SLOTS && Faithful(c, slot, line)
    ensures var c' := Cache(c.lines[slot := line], Flushed(c, slot)); Coherent(c') && Flat(c') == Flat(c)
  {
    hide HostOrder, RamLine, LineOf, Flushed, Flat, FlatLine;
    var c' := Cache(c.lines[slot := line], Flushed(c, slot));
    forall i | 0 <= i < SLOTS ensures SlotCoherent(c', i) {
      assert SlotCoherent(c, i);
      if c'.lines[i].valid {
        FlushedLine(c, slot, LineOf(c'.lines[i].page, i));
      }
    }
    forall ln | 0 <= ln && LineInRam(c.mem, ln) ensures FlatLine(c', ln) == FlatLine(c, ln) {
      SameLine(c, slot, line, ln);
    }
    SameFlat(c, c');
  }

  lemma SameLine(c: Cache, slot: nat, line: Line, ln: nat)
    requires Coherent(c) && slot < SLOTS && Faithful(c, slot, line) && LineInRam(c.mem, ln)
    requires Coherent(Cache(c.lines[slot := line], Flushed(c, slot)))
    ensures FlatLine(Cache(c.lines[slot := line], Flushed(c, slot)), ln) == FlatLine(c, ln)
  {
    hide HostOrder, RamLine, LineOf, Flushed;
    var c' := Cache(c.lines[slot := line], Flushed(c, slot));
    FlushedLine(c, slot, ln);
    if Hit(c', ln) {
      HitData(c', ln);
    }
  }

  lemma SameFlat(c: Cache, c': Cache)
    requires Coherent(c) && Coherent(c') && |c.mem| == |c'.mem|
    requires forall ln :: 0 <= ln && LineInRam(c.mem, ln) ==> FlatLine(c', ln) == FlatLine(c, ln)
    ensures Flat(c') == Flat(c)
  {
    hide FlatLine;
    forall a | 0 <= a < |c.mem| ensures FlatByte(c', a) == FlatByte(c, a) {
      LineOfByte(c.mem, a);
    }
  }

  lemma FilledKeepsFlat(c: Cache, ln: nat)
    requires Coherent(c) && LineInRam(c.mem, ln)
    ensures var c' := Filled(c, ln); Coherent(c') && Hit(c', ln) && Flat(c') == Flat(c)
  {
    hide HostOrder, RamLine, LineOf, Flushed, Flat, FlatLine;
    var slot := ln % SLOTS;
    LineOfLine(ln);
    FlushedLine(c, slot, ln);
    HostOrderTwice(RamLine(Flushed(c, slot), ln));
    FlushAndReplace(c, slot, Line(HostOrder(RamLine(Flushed(c, slot), ln)), ln / 256, false, true));
  }

  lemma IndexWbInvalidatedKeepsFlat(c: Cache, slot: nat)
    requires Coherent(c) && slot < SLOTS
    ensures var c' := IndexWbInvalidated(c, slot); Coherent(c') && !c'.lines[slot].valid && Flat(c') == Flat(c)
  {
    hide Flat, Flushed;
    if c.lines[slot].valid {
      FlushAndReplace(c, slot, c.lines[slot].(valid := false, dirty := false));
    }
  }

  lemma HitWbInvalidatedKeepsFlat(c: Cache, ln: nat)
    requires Coherent(c)
    ensures var c' := HitWbInvalidated(c, ln); Coherent(c') && !Hit(c', ln) && Flat(c') == Flat(c)
  {
    hide Flat, Flushed;
    if Hit(c, ln) {
      FlushAndReplace(c, ln % SLOTS, c.lines[ln % SLOTS].(valid := false));
    }
  }

  /** After a write-back the line is in memory, and stays in the cache. */
  lemma HitWrittenBackKeepsFlat(c: Cache, ln: nat)
    requires Coherent(c)
    ensures var c' := HitWrittenBack(c, ln); Coherent(c') && Flat(c') == Flat(c) && (Hit(c, ln) <==> Hit(c', ln))
    ensures LineInRam(c.mem, ln) ==> RamLine(HitWrittenBack(c, ln).mem, ln) == FlatLine(c, ln)
  {
    hide Flat, Flushed, HostOrder, RamLine, LineOf, LineInRam;
    if Hit(c, ln) {
      HitData(c, ln);
      FlushedLine(c, ln % SLOTS, ln);
      FlushAndReplace(c, ln % SLOTS, c.lines[ln % SLOTS].(dirty := false));
    }
  }

  // ------------------------------------------------------------- cached access

  /** How far a word access moves in the doubleword of the cache: the offset of
      the low word, (s_paddr ^ (WORD_ADDR_XOR << 3)) & access_type. */
  function WordShift(r: Request, pa: nat): nat {
    if !r.dword && pa % 8 < 4 then 4 else 0
  }

  /** The half of the line that the address selects: paddr & 8. */
  function Half(pa: nat): (h: nat)
    ensures h < 2
  {
    if pa % 16 < 8 then 0 else 1
  }

  /** The hit path of the data cache stage for a load. */
  function HitRead(data: seq<Byte>, r: Request, pa: nat): Dword
    requires |data| == 16 && r.Load? && r.size <= 8
  {
    Keep(Sar(Shl(LineDword(data, Half(pa)), pa % 8), 8 - r.size), r.mask)
  }

  /** The hit path for a store. */
  function HitWrite(data: seq<Byte>, r: Request, pa: nat): (h: seq<Byte>)
    requires |data| == 16 && r.Store?
    ensures |h| == 16
  {
    var k := WordShift(r, pa);
    WithLineDword(data, Half(pa), Blend(LineDword(data, Half(pa)), Shl(r.data, k), ShlMask(r.wdqm, k)))
  }

  /** The address of the doubleword. */
  function DwordBase(pa: nat): nat { 16 * (pa / 16) + 8 * Half(pa) }

  lemma DwordOffset(pa: nat)
    ensures pa == DwordBase(pa) + pa % 8
    ensures var o := pa % 8; if o < 4 then pa % 4 == o else pa % 4 == o - 4
  {
    LineParts(pa / 16, pa % 16);
  }

  /** The line's bytes at m, and the doubleword there. */
  ghost predicate Holds(data: seq<Byte>, m: seq<Byte>, ln: nat) {
    |data| == 16 && LineInRam(m, ln) && HostOrder(data) == RamLine(m, ln)
  }

  lemma HeldDword(data: seq<Byte>, m: seq<Byte>, ln: nat, half: nat)
    requires Holds(data, m, ln) && half < 2
    ensures var p := 16 * ln + 8 * half; LineDword(data, half) == m[p..p + 8]
  {
    var p := 16 * ln + 8 * half;
    var h, d, w := HostOrder(data), LineDword(data, half), m[p..p + 8];
    forall i | 0 <= i < 8 ensures d[i] == w[i] {
      assert h[8 * half + i] == m[p + i];
    }
  }

  lemma TwoWords(m: seq<Byte>, p: nat)
    requires p + 8 <= |m|
    ensures ReadWord(m, p) + ReadWord(m, p + 4) == m[p..p + 8]
  {
  }

  /** A load on a hit reads what the uncached path reads. */
  lemma LoadOnHit(data: seq<Byte>, m: seq<Byte>, r: Request, pa: nat)
    requires r.Load? && Fits(r, Offset(r.dword, pa)) && InRam(m, pa) && Holds(data, m, pa / 16)
    ensures HitRead(data, r, pa) == UncachedRead(m, r, pa)
  {
    HeldDword(data, m, pa / 16, Half(pa));
    hide LineDword, Half, InRam, Holds, Fits, Keep, Sar;
    DwordOffset(pa);
    BaseInRam(m, r.dword, pa);
    var d, p, o := LineDword(data, Half(pa)), DwordBase(pa), pa % 8;
    if r.dword {
      TwoWords(m, p);
    } else {
      HitReadOfWord(d, m, r, p, o);
    }
  }

  lemma HitReadOfWord(d: Dword, m: seq<Byte>, r: Request, p: nat, o: nat)
    requires r.Load? && !r.dword && o < 8 && Fits(r, if o < 4 then o else o - 4)
    requires p + 8 <= |m| && d == m[p..p + 8]
    ensures Keep(Sar(Shl(d, o), 8 - r.size), r.mask) == if o < 4 then ReadAt(m, r, p, o) else ReadAt(m, r, p + 4, o - 4)
  {
    var q, o' := if o < 4 then p else p + 4, if o < 4 then o else o - 4;
    var k := 8 - r.size;
    var a: Dword := Shl(d, o);
    var b: Dword := Shl(ReadWord(m, q) + ZERO[..4], o');
    forall i | 0 <= i < 4 - o' ensures a[i] == b[i] {
      assert a[i] == d[o + i] == m[p + o + i];
      assert b[i] == m[q + o' + i];
    }
    var x, y := Sar(a, k), Sar(b, k);
    forall i | 0 <= i < 8 && r.mask[i] ensures x[i] == y[i] {
    }
    assert Keep(x, r.mask) == Keep(y, r.mask);
  }

  lemma LineDwordWritten(data: seq<Byte>, half: nat, d: Dword)
    requires |data| == 16 && half < 2
    ensures LineDword(WithLineDword(data, half, d), half) == d
    ensures var h := HostOrder(data);
      HostOrder(WithLineDword(data, half, d)) == h[..8 * half] + d + h[8 * half + 8..]
  {
  }

  lemma WriteInDword(d: Dword, m: seq<Byte>, r: Request, p: nat, s: nat, o: nat)
    requires r.Store? && o < 8 && s == (if r.dword || o < 4 then 0 else 4)
    requires Fits(r, if r.dword || o < 4 then o else o - 4)
    requires p + 8 <= |m| && d == m[p..p + 8]
    ensures var k := if !r.dword && o < 4 then 4 else 0;
      WriteAt(m, r, p + s) == m[..p] + Blend(d, Shl(r.data, k), ShlMask(r.wdqm, k)) + m[p + 8..]
  {
    hide WriteAt;
    var k := if !r.dword && o < 4 then 4 else 0;
    var x, y := WriteAt(m, r, p + s), m[..p] + Blend(d, Shl(r.data, k), ShlMask(r.wdqm, k)) + m[p + 8..];
    if r.dword {
      StoreDoubleBytes(m, r, p);
    } else {
      StoreWordBytes(m, r, p + s);
    }
    forall i | 0 <= i < |m| ensures x[i] == y[i] {
    }
  }

  /** Replacing a doubleword of a line. */
  lemma WriteLineOfDword(m: seq<Byte>, ln: nat, data: seq<Byte>, half: nat, d: Dword)
    requires Holds(data, m, ln) && half < 2
    ensures var p := 16 * ln + 8 * half; WriteLine(m, ln, WithLineDword(data, half, d)) == m[..p] + d + m[p + 8..]
  {
    LineDwordWritten(data, half, d);
    hide WithLineDword, HostOrder;
    var h := HostOrder(data);
    assert h[..8 * half] == m[16 * ln..16 * ln + 8 * half];
    assert h[8 * half + 8..] == m[16 * ln + 8 * half + 8..16 * ln + 16];
  }

  /** A store on a hit changes the bytes that the uncached write changes. */
  lemma StoreOnHit(data: seq<Byte>, m: seq<Byte>, r: Request, pa: nat)
    requires r.Store? && Fits(r, Offset(r.dword, pa)) && InRam(m, pa) && Holds(data, m, pa / 16)
    ensures WriteLine(m, pa / 16, HitWrite(data, r, pa)) == UncachedWrite(m, r, pa)
  {
    HeldDword(data, m, pa / 16, Half(pa));
    hide LineDword, Half, InRam, Holds, WriteAt, WithLineDword, WriteLine, Fits;
    DwordOffset(pa);
    BaseInRam(m, r.dword, pa);
    var d, p, o := LineDword(data, Half(pa)), DwordBase(pa), pa % 8;
    var k := WordShift(r, pa);
    WriteLineOfDword(m, pa / 16, data, Half(pa), Blend(d, Shl(r.data, k), ShlMask(r.wdqm, k)));
    WriteInDword(d, m, r, p, Base(r.dword, pa) - p, o);
  }

  /** The data cache stage: on a miss the line is filled, then the access hits. */
  function Accessed(c: Cache, r: Request, pa: nat): (res: (Cache, Dword))
    requires Coherent(c) && InRam(c.mem, pa) && (r.Load? ==> r.size <= 8)
  {
    var ln := pa / 16;
    PaInRam(c.mem, pa);
    FilledKeepsFlat(c, ln);
    var f := if Hit(c, ln) then c else Filled(c, ln);
    HitData(f, ln);
    var line := f.lines[ln % SLOTS];
    if r.Load? then (f, HitRead(line.data, r, pa))
    else (f.(lines := f.lines[ln % SLOTS := line.(data := HitWrite(line.data, r, pa), dirty := true)]), ZERO)
  }

  lemma PaInRam(mem: seq<Byte>, pa: nat)
    requires InRam(mem, pa)
    ensures LineInRam(mem, pa / 16)
  {
  }

  lemma StoredKeepsOthers(c: Cache, ln: nat, data: seq<Byte>)
    requires Coherent(c) && Hit(c, ln) && |data| == 16
    ensures var slot := ln % SLOTS; var c' := c.(lines := c.lines[slot := c.lines[slot].(data := data, dirty := true)]);
      && Coherent(c') && Hit(c', ln)
      && (forall k :: 0 <= k && LineInRam(c.mem, k) ==> FlatLine(c', k) == if k == ln then HostOrder(data) else FlatLine(c, k))
  {
    hide HostOrder, RamLine, LineOf, FlatLine;
    var slot := ln % SLOTS;
    var c' := c.(lines := c.lines[slot := c.lines[slot].(data := data, dirty := true)]);
    assert SlotCoherent(c, slot);
    forall i | 0 <= i < SLOTS ensures SlotCoherent(c', i) {
      assert SlotCoherent(c, i);
    }
    forall k | 0 <= k && LineInRam(c.mem, k)
      ensures FlatLine(c', k) == if k == ln then HostOrder(data) else FlatLine(c, k)
    {
      StoredLine(c, ln, data, k);
    }
  }

  lemma StoredLine(c: Cache, ln: nat, data: seq<Byte>, k: nat)
    requires Coherent(c) && Hit(c, ln) && |data| == 16 && LineInRam(c.mem, k)
    requires Coherent(c.(lines := c.lines[ln % SLOTS := c.lines[ln % SLOTS].(data := data, dirty := true)]))
    ensures FlatLine(c.(lines := c.lines[ln % SLOTS := c.lines[ln % SLOTS].(data := data, dirty := true)]), k)
         == if k == ln then HostOrder(data) else FlatLine(c, k)
  {
    hide HostOrder, RamLine, SlotCoherent;
    LineOfLine(ln);
    LineOfLine(k);
  }

  /** Flat memory with one line replaced. */
  lemma FlatOfStored(c: Cache, ln: nat, data: seq<Byte>)
    requires Coherent(c) && Hit(c, ln) && |data| == 16
    ensures LineInRam(c.mem, ln)
    ensures var slot := ln % SLOTS; var c' := c.(lines := c.lines[slot := c.lines[slot].(data := data, dirty := true)]);
      Coherent(c') && Flat(c') == WriteLine(Flat(c), ln, data)
  {
    hide HostOrder, FlatLine, SlotCoherent, Hit;
    HitData(c, ln);
    StoredKeepsOthers(c, ln, data);
    var slot := ln % SLOTS;
    var c' := c.(lines := c.lines[slot := c.lines[slot].(data := data, dirty := true)]);
    var x, y := Flat(c'), WriteLine(Flat(c), ln, data);
    forall a | 0 <= a < |c.mem| ensures x[a] == y[a] {
      LineOfByte(c.mem, a);
      assert x[a] == FlatLine(c', a / 16)[a % 16];
      assert a == 16 * (a / 16) + a % 16;
    }
  }

  lemma LineInFlat(c: Cache, ln: nat)
    requires Coherent(c) && LineInRam(c.mem, ln)
    ensures RamLine(Flat(c), ln) == FlatLine(c, ln)
  {
    hide FlatLine, SlotCoherent;
    var x, y := RamLine(Flat(c), ln), FlatLine(c, ln);
    forall i | 0 <= i < 16 ensures x[i] == y[i] {
      Mod16(ln, i);
      assert x[i] == FlatByte(c, 16 * ln + i);
    }
  }

  /** What a hit means for flat memory. */
  lemma HitHolds(c: Cache, ln: nat)
    requires Coherent(c) && Hit(c, ln)
    ensures LineInRam(c.mem, ln) && Holds(c.lines[ln % SLOTS].data, Flat(c), ln)
  {
    hide Flat, SlotCoherent, HostOrder;
    HitData(c, ln);
    LineInFlat(c, ln);
  }

  /** An access through the cache does to flat memory, and returns, what the uncached access does on it. */
  lemma AccessIsUncached(c: Cache, r: Request, pa: nat)
    requires Coherent(c) && InRam(c.mem, pa) && Fits(r, Offset(r.dword, pa))
    ensures var (c', v) := Accessed(c, r, pa);
      && Coherent(c') && Hit(c', pa / 16)
      && Flat(c') == (if r.Store? then UncachedWrite(Flat(c), r, pa) else Flat(c))
      && v == (if r.Load? then UncachedRead(Flat(c), r, pa) else ZERO)
  {
    hide SlotCoherent, Hit, Flat, HitRead, HitWrite, InRam, UncachedRead, UncachedWrite, Fits, FlatLine, WriteLine, Flushed, Holds;
    var ln := pa / 16;
    PaInRam(c.mem, pa);
    FilledKeepsFlat(c, ln);
    var f := if Hit(c, ln) then c else Filled(c, ln);
    InRamOfSize(c.mem, Flat(f), pa);
    HitHolds(f, ln);
    HitData(f, ln);
    var data := f.lines[ln % SLOTS].data;
    if r.Load? {
      LoadOnHit(data, Flat(f), r, pa);
    } else {
      StoreOnHit(data, Flat(f), r, pa);
      FlatOfStored(f, ln, HitWrite(data, r, pa));
      StoredKeepsOthers(f, ln, HitWrite(data, r, pa));
    }
  }

  lemma InRamOfSize(m: seq<Byte>, m': seq<Byte>, pa: nat)
    requires InRam(m, pa) && |m| == |m'|
    ensures InRam(m', pa)
  {
  }

  // ------------------------------------------------------------------- runs

  datatype Op =
    | Access(va: nat, pa: nat, r: Request)
    | IndexWbInvalidate(va: nat)
    | HitWbInvalidate(va: nat, pa: nat)
    | HitWb(va: nat, pa: nat)

  /** Cached accesses to RDRAM, translated so that the slot bits agree. */
  ghost predicate Allowed(op: Op, size: nat) {
    match op
    case Access(va, pa, r) => SameSlot(va, pa) && pa < size && Fits(r, Offset(r.dword, pa))
    case IndexWbInvalidate(_) => true
    case HitWbInvalidate(va, pa) => SameSlot(va, pa)
    case HitWb(va, pa) => SameSlot(va, pa)
  }

  lemma BelowSize(m: seq<Byte>, pa: nat)
    requires |m| % 16 == 0 && pa < |m|
    ensures InRam(m, pa)
  {
    LineOfByte(m, pa);
  }

  /** One operation: the new cache, and what the access adds to its result. */
  ghost function Step(c: Cache, op: Op): (Cache, Dword)
    requires Coherent(c) && Allowed(op, |c.mem|)
  {
    match op
    case Access(_, pa, r) => BelowSize(c.mem, pa); Accessed(c, r, pa)
    case IndexWbInvalidate(va) => (IndexWbInvalidated(c, SlotOf(va)), ZERO)
    case HitWbInvalidate(_, pa) => (HitWbInvalidated(c, pa / 16), ZERO)
    case HitWb(_, pa) => (HitWrittenBack(c, pa / 16), ZERO)
  }

  /** The same operation on a memory without a cache. */
  ghost function FlatStep(m: seq<Byte>, op: Op): (res: (seq<Byte>, Dword))
    requires |m| % 16 == 0 && Allowed(op, |m|)
    ensures |res.0| == |m|
  {
    if op.Access? then
      BelowSize(m, op.pa);
      if op.r.Store? then (UncachedWrite(m, op.r, op.pa), ZERO) else (m, UncachedRead(m, op.r, op.pa))
    else (m, ZERO)
  }

  ghost predicate AllAllowed(ops: seq<Op>, size: nat) { forall i :: 0 <= i < |ops| ==> Allowed(ops[i], size) }

  lemma StepRefines(c: Cache, op: Op)
    requires Coherent(c) && Allowed(op, |c.mem|)
    ensures var (c', v) := Step(c, op); Coherent(c') && (Flat(c'), v) == FlatStep(Flat(c), op)
  {
    hide Accessed, IndexWbInvalidated, HitWbInvalidated, HitWrittenBack, Flat, Fits, InRam, SlotCoherent;
    match op
    case Access(_, pa, r) =>
      BelowSize(c.mem, pa);
      AccessIsUncached(c, r, pa);
    case IndexWbInvalidate(va) => IndexWbInvalidatedKeepsFlat(c, SlotOf(va));
    case HitWbInvalidate(_, pa) => HitWbInvalidatedKeepsFlat(c, pa / 16);
    case HitWb(_, pa) => HitWrittenBackKeepsFlat(c, pa / 16);
  }

  lemma StepCoherent(c: Cache, op: Op)
    requires Coherent(c) && Allowed(op, |c.mem|)
    ensures Coherent(Step(c, op).0) && |Step(c, op).0.mem| == |c.mem|
  {
    hide Step, Flat, Coherent, Allowed;
    StepRefines(c, op);
    assert |Flat(Step(c, op).0)| == |Flat(c)|;
  }

  ghost function Run(c: Cache, ops: seq<Op>): (Cache, seq<Dword>)
    requires Coherent(c) && AllAllowed(ops, |c.mem|)
    decreases |ops|
  {
    if ops == [] then (c, [])
    else
      StepCoherent(c, ops[0]);
      var (c', v) := Step(c, ops[0]);
      var (c'', vs) := Run(c', ops[1..]);
      (c'', [v] + vs)
  }

  ghost function FlatRun(m: seq<Byte>, ops: seq<Op>): (seq<Byte>, seq<Dword>)
    requires |m| % 16 == 0 && AllAllowed(ops, |m|)
    decreases |ops|
  {
    if ops == [] then (m, [])
    else
      var (m', v) := FlatStep(m, ops[0]);
      var (m'', vs) := FlatRun(m', ops[1..]);
      (m'', [v] + vs)
  }

  /** Every run through the cache reads what the same run reads from flat
      memory, and leaves the flat memory that it leaves. */
  lemma {:induction false} RunRefinesFlatMemory(c: Cache, ops: seq<Op>)
    requires Coherent(c) && AllAllowed(ops, |c.mem|)
    ensures var (c', vs) := Run(c, ops); Coherent(c') && (Flat(c'), vs) == FlatRun(Flat(c), ops)
    decreases |ops|
  {
    hide Step, FlatStep, Flat, Coherent, Allowed;
    if ops != [] {
      StepCoherent(c, ops[0]);
      StepRefines(c, ops[0]);
      RunRefinesFlatMemory(Step(c, ops[0]).0, ops[1..]);
    } else {
      FlatSize(c);
    }
  }

  lemma FlatSize(c: Cache)
    requires Coherent(c)
    ensures |Flat(c)| == |c.mem| && |c.mem| % 16 == 0
  {
  }

  // ------------------------------------------------- emptying the whole cache

  /** The index operation on the first n slots. */
  ghost function FlushedUpTo(c: Cache, n: nat): (c': Cache)
    requires Coherent(c) && n <= SLOTS
    ensures Coherent(c') && Flat(c') == Flat(c)
    ensures forall i :: 0 <= i < n ==> !c'.lines[i].valid
  {
    if n == 0 then c
    else
      var b := FlushedUpTo(c, n - 1);
      IndexWbInvalidatedKeepsFlat(b, n - 1);
      IndexWbInvalidated(b, n - 1)
  }

  lemma EmptyIsFlat(c: Cache)
    requires Coherent(c) && forall i :: 0 <= i < SLOTS ==> !c.lines[i].valid
    ensures Flat(c) == c.mem
  {
    var m := Flat(c);
    forall a | 0 <= a < |c.mem| ensures m[a] == c.mem[a] {
      LineOfByte(c.mem, a);
      assert m[a] == FlatByte(c, a);
    }
  }

  /** From an empty cache, any run followed by writing back all lines leaves in
      RDRAM what the run does to RDRAM without a cache. */
  lemma WriteBackAllLeavesFlatMemory(c: Cache, ops: seq<Op>)
    requires Coherent(c) && AllAllowed(ops, |c.mem|)
    requires forall i :: 0 <= i < SLOTS ==> !c.lines[i].valid
    ensures var c' := Run(c, ops).0; Coherent(c') && FlushedUpTo(c', SLOTS).mem == FlatRun(c.mem, ops).0
  {
    hide Flat, Run, FlatRun, SlotCoherent;
    EmptyIsFlat(c);
    RunRefinesFlatMemory(c, ops);
    EmptyIsFlat(FlushedUpTo(Run(c, ops).0, SLOTS));
  }

  // ---------------------------------------------------------- debugger's view

  /** The value of a uint32_t at byte q of a line. */
  function HostWord(data: seq<Byte>, q: nat): Word
    requires q + 4 <= |data|
  {
    [data[q + 3], data[q + 2], data[q + 1], data[q]]
  }

  /** (paddr & 0xf) ^ WORD_ADDR_XOR of an aligned address. */
  function SwappedPlace(pa: nat): (q: nat)
    requires pa % 4 == 0
    ensures q <= 12
  {
    if pa % 8 < 4 then pa % 16 + 4 else pa % 16 - 4
  }

  /** vr4300_read_word_vaddr on a cached RDRAM address. */
  function ReadWordVaddr(c: Cache, pa: nat): Word
    requires Coherent(c) && pa % 4 == 0 && pa < |c.mem|
  {
    BelowSize(c.mem, pa);
    BaseInRam(c.mem, false, pa);
    if Hit(c, pa / 16) then
      HitData(c, pa / 16);
      HostWord(c.lines[pa / 16 % SLOTS].data, SwappedPlace(pa))
    else ReadWord(c.mem, pa)
  }

  /** The debugger sees flat memory. */
  lemma DebuggerReadsFlat(c: Cache, pa: nat)
    requires Coherent(c) && pa % 4 == 0 && pa < |c.mem|
    ensures pa + 4 <= |c.mem| && ReadWordVaddr(c, pa) == Flat(c)[pa..pa + 4]
  {
    hide SlotCoherent, Flat, LineOf;
    var ln, o := pa / 16, pa % 16;
    BelowSize(c.mem, pa);
    BaseInRam(c.mem, false, pa);
    LineParts(ln, o);
    LineOfByte(c.mem, pa);
    LineInFlat(c, ln);
    assert pa == 16 * ln + o;
    SliceOfLine(Flat(c), ln, o);
    SliceOfLine(c.mem, ln, o);
    if Hit(c, ln) {
      HitData(c, ln);
      WordOfLine(c.lines[ln % SLOTS].data, o, pa);
    }
  }

  lemma SliceOfLine(m: seq<Byte>, ln: nat, o: nat)
    requires LineInRam(m, ln) && o <= 12
    ensures m[16 * ln + o..16 * ln + o + 4] == RamLine(m, ln)[o..o + 4]
  {
    var x, y := m[16 * ln + o..16 * ln + o + 4], RamLine(m, ln)[o..o + 4];
    forall i | 0 <= i < 4 ensures x[i] == y[i] {
    }
  }

  lemma WordOfLine(data: seq<Byte>, o: nat, pa: nat)
    requires |data| == 16 && o in {0, 4, 8, 12} && pa % 4 == 0 && o == pa % 16
    ensures HostWord(data, SwappedPlace(pa)) == HostOrder(data)[o..o + 4]
  {
    LineParts(pa / 16, o);
  }
}
