/** The data cache as the object that the source updates in place, with the word
    loops of the write-backs and of the line fill.  Every method leaves the
    contents that its function in Vr4300DCache gives. */
module Vr4300DCacheObject {
  import opened Vr4300Bus
  import opened Vr4300DCache

  /** i ^ (WORD_ADDR_XOR >> 2): the place of word i of a line in the buffer. */
  function Place(i: nat): (j: nat)
    requires i < 4
    ensures j < 4
  {
    if i == 0 then 1 else if i == 1 then 0 else if i == 2 then 3 else 2
  }

  /** Word i of the line is at its place in the buffer. */
  ghost predicate WordPlaced(h: seq<Byte>, d: seq<Byte>, i: nat)
    requires |h| == 16 && |d| == 16 && i < 4
  {
    HostWord(h, 4 * Place(i)) == d[4 * i..4 * i + 4]
  }

  lemma HostOrderPlaces(data: seq<Byte>, i: nat)
    requires |data| == 16 && i < 4
    ensures WordPlaced(data, HostOrder(data), i)
  {
  }

  lemma PlacedByte(h: seq<Byte>, d: seq<Byte>, i: nat, b: nat)
    requires |h| == 16 && |d| == 16 && i < 4 && b < 4 && WordPlaced(h, d, i)
    ensures h[4 * Place(i) + 3 - b] == d[4 * i + b]
  {
    assert HostWord(h, 4 * Place(i))[b] == d[4 * i..4 * i + 4][b];
  }

  lemma AllPlaced(h: seq<Byte>, d: seq<Byte>)
    requires |h| == 16 && |d| == 16 && forall i :: 0 <= i < 4 ==> WordPlaced(h, d, i)
    ensures h == HostOrder(d)
  {
    hide WordPlaced;
    var w := HostOrder(d);
    forall p | 0 <= p < 16 ensures h[p] == w[p] {
      PlacedByte(h, d, HostPos(p) / 4, HostPos(p) % 4);
    }
  }

  /** The buffer with word i of a line put in its place. */
  function BufferWith(h: seq<Byte>, i: nat, w: Word): (h': seq<Byte>)
    requires |h| == 16 && i < 4
    ensures |h'| == 16
  {
    h[..4 * Place(i)] + [w[3], w[2], w[1], w[0]] + h[4 * Place(i) + 4..]
  }

  lemma NextWordPlaced(h: seq<Byte>, d: seq<Byte>, i: nat)
    requires |h| == 16 && |d| == 16 && i < 4 && forall k :: 0 <= k < i ==> WordPlaced(h, d, k)
    ensures var h' := BufferWith(h, i, d[4 * i..4 * i + 4]); forall k :: 0 <= k <= i ==> WordPlaced(h', d, k)
  {
    var h' := BufferWith(h, i, d[4 * i..4 * i + 4]);
    assert WordPlaced(h', d, i);
    forall k | 0 <= k < i ensures WordPlaced(h', d, k) {
      assert WordPlaced(h, d, k);
      assert HostWord(h', 4 * Place(k)) == HostWord(h, 4 * Place(k));
    }
  }

  /** The first n words of a line written back. */
  function WordsWritten(m: seq<Byte>, ln: nat, data: seq<Byte>, n: nat): (m': seq<Byte>)
    requires LineInRam(m, ln) && |data| == 16 && n <= 4
    ensures |m'| == |m|
  {
    m[..16 * ln] + HostOrder(data)[..4 * n] + m[16 * ln + 4 * n..]
  }

  lemma NextWordWritten(m: seq<Byte>, ln: nat, data: seq<Byte>, i: nat)
    requires LineInRam(m, ln) && |data| == 16 && i < 4
    ensures WordsWritten(m, ln, data, 0) == m && WordsWritten(m, ln, data, 4) == WriteLine(m, ln, data)
    ensures WriteWord(WordsWritten(m, ln, data, i), 16 * ln + 4 * i, HostWord(data, 4 * Place(i)), [true, true, true, true])
         == WordsWritten(m, ln, data, i + 1)
  {
    HostOrderPlaces(data, i);
    hide HostOrder, Place;
  }

  lemma PageOfLine(pa: nat)
    ensures pa / 4096 == pa / 16 / 256
  {
  }

  class DCache {
    const lines: array<Line>
    const ram: array<Byte>

    ghost function Contents(): Cache
      reads lines, ram
    {
      Cache(lines[..], ram[..])
    }

    ghost predicate Valid()
      reads lines, ram
    {
      Coherent(Contents())
    }

    /** vr4300_dcache_init on a zeroed structure. */
    constructor (memory: seq<Byte>)
      requires |memory| % 16 == 0
      ensures Valid() && fresh(lines) && fresh(ram)
      ensures Contents().mem == memory && forall i :: 0 <= i < SLOTS ==> !Contents().lines[i].valid
    {
      lines := new Line[SLOTS](_ => Line(seq(16, _ => 0), 0, false, false));
      ram := new Byte[|memory|](i requires 0 <= i < |memory| => memory[i]);
      new;
      assert ram[..] == memory;
    }

    /** vr4300_dcache_probe: the slot of the address, and whether the line is there. */
    method Probe(va: nat, pa: nat) returns (hit: bool, slot: nat)
      requires Valid() && SameSlot(va, pa)
      ensures slot == pa / 16 % SLOTS && hit == Hit(Contents(), pa / 16)
    {
      slot := SlotOf(va);
      PageOfLine(pa);
      hit := lines[slot].page == pa / 4096 && lines[slot].valid;
    }

    /** bus_read_word of RDRAM. */
    method BusReadWord(a: nat) returns (w: Word)
      requires a + 4 <= ram.Length
      ensures w == ReadWord(ram[..], a)
    {
      w := [ram[a], ram[a + 1], ram[a + 2], ram[a + 3]];
    }

    /** bus_write_word of RDRAM. */
    method BusWriteWord(a: nat, w: Word, dqm: seq<bool>)
      requires a + 4 <= ram.Length && |dqm| == 4
      modifies ram
      ensures ram[..] == WriteWord(old(ram[..]), a, w, dqm)
    {
      ghost var m := ram[..];
      var i := 0;
      while i < 4
        invariant 0 <= i <= 4
        invariant forall k :: 0 <= k < ram.Length ==> ram[k] == if a <= k < a + i && dqm[k - a] then w[k - a] else m[k]
      {
        if dqm[i] {
          ram[a + i] := w[i];
        }
        i := i + 1;
      }
    }

    /** The loop that writes a line to the bus. */
    method WriteBack(ln: nat, data: seq<Byte>)
      requires 16 * ln + 16 <= ram.Length && |data| == 16
      modifies ram
      ensures ram[..] == WriteLine(old(ram[..]), ln, data)
    {
      hide HostOrder, Place, WriteLine, WordsWritten, WriteWord, HostWord;
      ghost var m := ram[..];
      NextWordWritten(m, ln, data, 0);
      var i := 0;
      while i < 4
        invariant 0 <= i <= 4
        invariant ram[..] == WordsWritten(m, ln, data, i)
      {
        NextWordWritten(m, ln, data, i);
        BusWriteWord(16 * ln + 4 * i, HostWord(data, 4 * Place(i)), [true, true, true, true]);
        i := i + 1;
      }
    }

    /** The loop that reads a line from the bus. */
    method ReadLine(ln: nat) returns (data: seq<Byte>)
      requires 16 * ln + 16 <= ram.Length
      ensures data == HostOrder(RamLine(ram[..], ln))
    {
      hide WordPlaced, HostOrder, BufferWith;
      data := seq(16, _ => 0);
      ghost var line := RamLine(ram[..], ln);
      var i: nat := 0;
      while i < 4
        invariant 0 <= i <= 4 && |data| == 16
        invariant forall k :: 0 <= k < i ==> WordPlaced(data, line, k)
      {
        NextWordPlaced(data, line, i);
        var w := BusReadWord(16 * ln + 4 * i);
        assert w == line[4 * i..4 * i + 4];
        data := BufferWith(data, i, w);
        i := i + 1;
      }
      AllPlaced(data, line);
    }

    /** The write-back of the line in a slot, if it is valid and dirty. */
    method FlushSlot(slot: nat)
      requires Valid() && slot < SLOTS
      modifies ram
      ensures ram[..] == Flushed(old(Contents()), slot)
    {
      hide WriteLine, HostOrder, RamLine;
      var line := lines[slot];
      assert SlotCoherent(Contents(), slot);
      if line.dirty && line.valid {
        WriteBack(LineOf(line.page, slot), line.data);
      }
    }

    /** VR4300_DCM for a cached access. */
    method MissFill(va: nat, pa: nat)
      requires Valid() && SameSlot(va, pa) && pa < ram.Length
      modifies lines, ram
      ensures LineInRam(old(ram[..]), pa / 16) && Contents() == Filled(old(Contents()), pa / 16)
    {
      hide HostOrder, RamLine, Flushed;
      var slot := SlotOf(va);
      LineOfByte(ram[..], pa);
      PageOfLine(pa);
      ghost var c := Contents();
      FlushSlot(slot);
      var data := ReadLine(pa / 16);
      lines[slot] := Line(data, pa / 4096, false, true);
      assert lines[..] == c.lines[slot := Line(data, pa / 4096, false, true)];
    }

    /** vr4300_cacheop_dc_wb_invalidate. */
    method IndexWbInvalidate(va: nat)
      requires Valid()
      modifies lines, ram
      ensures Valid() && Contents() == IndexWbInvalidated(old(Contents()), SlotOf(va))
    {
      hide Flushed, Flat, SlotCoherent;
      var slot := SlotOf(va);
      ghost var c := Contents();
      IndexWbInvalidatedKeepsFlat(c, slot);
      if lines[slot].valid {
        FlushSlot(slot);
        lines[slot] := lines[slot].(valid := false, dirty := false);
        assert lines[..] == c.lines[slot := c.lines[slot].(valid := false, dirty := false)];
      }
    }

    /** vr4300_cacheop_dc_hit_wb_invalidate. */
    method HitWbInvalidate(va: nat, pa: nat)
      requires Valid() && SameSlot(va, pa)
      modifies lines, ram
      ensures Valid() && Contents() == HitWbInvalidated(old(Contents()), pa / 16)
    {
      hide Flushed, Flat, SlotCoherent;
      ghost var c := Contents();
      HitWbInvalidatedKeepsFlat(c, pa / 16);
      var hit, slot := Probe(va, pa);
      if hit {
        FlushSlot(slot);
        lines[slot] := lines[slot].(valid := false);
        assert lines[..] == c.lines[slot := c.lines[slot].(valid := false)];
      }
    }

    /** vr4300_cacheop_dc_hit_wb. */
    method HitWriteBack(va: nat, pa: nat)
      requires Valid() && SameSlot(va, pa)
      modifies lines, ram
      ensures Valid() && Contents() == HitWrittenBack(old(Contents()), pa / 16)
    {
      hide Flushed, Flat, SlotCoherent;
      ghost var c := Contents();
      HitWrittenBackKeepsFlat(c, pa / 16);
      var hit, slot := Probe(va, pa);
      if hit {
        FlushSlot(slot);
        lines[slot] := lines[slot].(dirty := false);
        assert lines[..] == c.lines[slot := c.lines[slot].(dirty := false)];
      }
    }

    /** The data cache stage for a cached access: the program sees the uncached access on flat memory. */
    method AccessData(va: nat, pa: nat, r: Request) returns (v: Dword)
      requires Valid() && SameSlot(va, pa) && pa < ram.Length && Fits(r, Offset(r.dword, pa))
      modifies lines, ram
      ensures Valid() && InRam(old(ram[..]), pa)
      ensures (Contents(), v) == Accessed(old(Contents()), r, pa)
      ensures Flat(Contents()) == if r.Store? then UncachedWrite(old(Flat(Contents())), r, pa) else old(Flat(Contents()))
      ensures v == if r.Load? then UncachedRead(old(Flat(Contents())), r, pa) else ZERO
    {
      hide Flushed, Flat, SlotCoherent, HitRead, HitWrite, UncachedRead, UncachedWrite, InRam;
      ghost var c := Contents();
      BelowSize(ram[..], pa);
      AccessIsUncached(c, r, pa);
      PaInRam(c.mem, pa);
      FilledKeepsFlat(c, pa / 16);
      var hit, slot := Probe(va, pa);
      if !hit {
        MissFill(va, pa);
      }
      HitData(Contents(), pa / 16);
      v := ZERO;
      var line := lines[slot];
      if r.Load? {
        v := HitRead(line.data, r, pa);
      } else {
        lines[slot] := line.(data := HitWrite(line.data, r, pa), dirty := true);
      }
    }
  }
}
