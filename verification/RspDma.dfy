/** SP memory, its opcode cache and the RSP's DMA engine (rsp/interface.c).

    DMEM holds its words big-endian; IMEM holds them in host order, and every
    write of an IMEM word also puts its decoding in the opcode cache.  A word is
    its four bytes, the most significant first. */
module RspDma {
  import RspIsa

  type Byte = b: nat | b < 256
  type Word = w: seq<Byte> | |w| == 4 witness [0, 0, 0, 0]

  const RAM_SIZE: nat := 0x80_0000
  const SP_SIZE: nat := 0x2000

  function Number(a: Byte, b: Byte, c: Byte, d: Byte): RspIsa.Word {
    a * 0x100_0000 + b * 0x1_0000 + c * 0x100 + d
  }

  function Value(w: Word): RspIsa.Word { Number(w[0], w[1], w[2], w[3]) }

  function Decoded(w: Word): RspIsa.Opcode { RspIsa.Decode(Value(w)) }

  /** SP memory and the opcode cache. */
  datatype Sp = Sp(mem: seq<Byte>, opcodes: seq<RspIsa.Opcode>) {
    ghost predicate Valid() { |mem| == SP_SIZE && |opcodes| == 0x400 }
  }

  /** x & 0x7FFFFC and x & 0x1FFC, for a word address. */
  function RamAddress(x: nat): (a: nat)
    ensures a + 4 <= RAM_SIZE && a % 4 == 0
  {
    4 * (x / 4 % 0x20_0000)
  }

  function SpAddress(x: nat): (a: nat)
    ensures a + 4 <= SP_SIZE && a % 4 == 0
  {
    4 * (x / 4 % 0x800)
  }

  /** The bytes of a host word: memcpy of the word. */
  function HostBytes(w: Word): Word { [w[3], w[2], w[1], w[0]] }

  /** The bytes that a word is stored as: byteswapped in DMEM, as it is in IMEM. */
  function Stored(a: nat, w: Word): Word {
    if a >= 0x1000 then HostBytes(w) else w
  }

  function Load(mem: seq<Byte>, a: nat): Word
    requires a + 4 <= |mem|
  {
    Stored(a, mem[a..a + 4])
  }

  function Store(mem: seq<Byte>, a: nat, w: Word): (m: seq<Byte>)
    requires a + 4 <= |mem|
    ensures |m| == |mem|
  {
    mem[..a] + Stored(a, w) + mem[a + 4..]
  }

  lemma LoadAfterStore(mem: seq<Byte>, a: nat, w: Word, b: nat)
    requires |mem| == SP_SIZE && a + 4 <= SP_SIZE && b + 4 <= SP_SIZE && a % 4 == 0 && b % 4 == 0
    ensures Load(Store(mem, a, w), b) == if a == b then w else Load(mem, b)
  {
    var m := Store(mem, a, w);
    if b < a {
      assert m[b..b + 4] == mem[b..b + 4];
    } else if a < b {
      assert m[b..b + 4] == mem[b..b + 4];
    } else {
      assert m[a..a + 4] == Stored(a, w);
    }
  }

  /** One word written to SP memory: write_sp_mem, and the body of the read loop. */
  function Written(sp: Sp, a: nat, w: Word): (sp': Sp)
    requires sp.Valid() && a + 4 <= SP_SIZE && a % 4 == 0
    ensures sp'.Valid()
  {
    Sp(Store(sp.mem, a, w), if a >= 0x1000 then sp.opcodes[(a - 0x1000) / 4 := Decoded(w)] else sp.opcodes)
  }

  /** The opcode cache agrees with word k of IMEM. */
  ghost predicate Agrees(sp: Sp, k: nat) {
    sp.Valid() && k < 0x400 && sp.opcodes[k] == Decoded(Load(sp.mem, 0x1000 + 4 * k))
  }

  lemma WrittenAgrees(sp: Sp, a: nat, w: Word, k: nat)
    requires sp.Valid() && a + 4 <= SP_SIZE && a % 4 == 0 && k < 0x400
    requires a != 0x1000 + 4 * k ==> Agrees(sp, k)
    ensures Agrees(Written(sp, a, w), k)
  {
    hide Decoded, Load, Store;
    LoadAfterStore(sp.mem, a, w, 0x1000 + 4 * k);
  }

  // ------------------------------------------------------------------ the DMA

  /** The registers of a transfer, with the fields of its length register. */
  datatype Request = Request(dram: nat, cache: nat, length: nat)

  function Align8(x: nat): nat { 8 * (x / 8) }

  /** The words of a row: the length rounded up to 8 bytes, cut at the end of the 4 KB memory. */
  function RowBytes(r: Request): (n: nat)
    ensures 8 <= n <= 0x1000 && n % 8 == 0
  {
    var n := (r.length % 0x1000 + 8) / 8;
    var at := r.cache / 8 % 0x200;
    8 * (if at + n > 0x200 then 0x200 - at else n)
  }

  function Skip(r: Request): nat { r.length / 0x10_0000 % 0x1000 }

  function Rows(r: Request): nat { r.length / 0x1000 % 0x100 + 1 }

  /** The addresses of word j of row i. */
  function RamWord(r: Request, i: nat, j: nat): (a: nat)
    ensures a + 4 <= RAM_SIZE && a % 4 == 0
  {
    RamAddress(RamAddress(Align8(r.dram) + i * (RowBytes(r) + Skip(r))) + 4 * j)
  }

  function SpWord(r: Request, i: nat, j: nat): (a: nat)
    ensures a + 4 <= SP_SIZE && a % 4 == 0
  {
    SpAddress(SpAddress(Align8(r.cache) + i * RowBytes(r)) + 4 * j)
  }

  function Bus(ram: seq<Byte>, a: nat): Word
    requires a + 4 <= |ram|
  {
    ram[a..a + 4]
  }

  function BusWrite(ram: seq<Byte>, a: nat, w: Word): (m: seq<Byte>)
    requires a + 4 <= |ram|
    ensures |m| == |ram|
  {
    ram[..a] + w + ram[a + 4..]
  }

  /** rsp_dma_read: the first n words of row i. */
  function ReadRow(sp: Sp, ram: seq<Byte>, r: Request, i: nat, n: nat): (sp': Sp)
    requires sp.Valid() && |ram| == RAM_SIZE
    ensures sp'.Valid()
  {
    if n == 0 then sp
    else Written(ReadRow(sp, ram, r, i, n - 1), SpWord(r, i, n - 1), Bus(ram, RamWord(r, i, n - 1)))
  }

  /** rsp_dma_read: the first n rows. */
  function ReadRows(sp: Sp, ram: seq<Byte>, r: Request, n: nat): (sp': Sp)
    requires sp.Valid() && |ram| == RAM_SIZE
    ensures sp'.Valid()
  {
    if n == 0 then sp else ReadRow(ReadRows(sp, ram, r, n - 1), ram, r, n - 1, RowBytes(r) / 4)
  }

  function DmaRead(sp: Sp, ram: seq<Byte>, r: Request): (sp': Sp)
    requires sp.Valid() && |ram| == RAM_SIZE
    ensures sp'.Valid()
  {
    ReadRows(sp, ram, r, Rows(r))
  }

  /** rsp_dma_write, in the same way. */
  function WriteRow(ram: seq<Byte>, sp: Sp, r: Request, i: nat, n: nat): (m: seq<Byte>)
    requires sp.Valid() && |ram| == RAM_SIZE
    ensures |m| == RAM_SIZE
  {
    if n == 0 then ram
    else BusWrite(WriteRow(ram, sp, r, i, n - 1), RamWord(r, i, n - 1), Load(sp.mem, SpWord(r, i, n - 1)))
  }

  function WriteRows(ram: seq<Byte>, sp: Sp, r: Request, n: nat): (m: seq<Byte>)
    requires sp.Valid() && |ram| == RAM_SIZE
    ensures |m| == RAM_SIZE
  {
    if n == 0 then ram else WriteRow(WriteRows(ram, sp, r, n - 1), sp, r, n - 1, RowBytes(r) / 4)
  }

  function DmaWrite(ram: seq<Byte>, sp: Sp, r: Request): (m: seq<Byte>)
    requires sp.Valid() && |ram| == RAM_SIZE
    ensures |m| == RAM_SIZE
  {
    WriteRows(ram, sp, r, Rows(r))
  }

  /** A word of the transfer. */
  predicate InTransfer(r: Request, i: int, j: int) { 0 <= i < Rows(r) && 0 <= 4 * j < RowBytes(r) }

  // --------------------------------------------------------- the opcode cache

  /** What the CPU and the DMA engine do to SP memory. */
  datatype Op =
    | Dma(ram: seq<Byte>, r: Request)
    | CpuWrite(address: nat, word: Word)
  {
    predicate Valid() { Dma? ==> |ram| == RAM_SIZE }
  }

  function Step(sp: Sp, op: Op): (sp': Sp)
    requires sp.Valid() && op.Valid()
    ensures sp'.Valid()
  {
    match op
    case Dma(ram, r) => DmaRead(sp, ram, r)
    case CpuWrite(address, word) => Written(sp, SpAddress(address), word)
  }

  function Run(sp: Sp, ops: seq<Op>): (sp': Sp)
    requires sp.Valid() && forall i :: 0 <= i < |ops| ==> ops[i].Valid()
    ensures sp'.Valid()
  {
    if ops == [] then sp else Step(Run(sp, ops[..|ops| - 1]), ops[|ops| - 1])
  }

  /** The first n words of row i of a transfer include word k of IMEM. */
  ghost predicate RowWrites(r: Request, i: nat, n: nat, k: nat) {
    exists j :: 0 <= j < n && SpWord(r, i, j) == 0x1000 + 4 * k
  }

  /** The operation writes word k of IMEM. */
  ghost predicate Writes(op: Op, k: nat) {
    match op
    case Dma(_, r) => exists i :: 0 <= i < Rows(r) && RowWrites(r, i, RowBytes(r) / 4, k)
    case CpuWrite(address, _) => SpAddress(address) == 0x1000 + 4 * k
  }

  lemma {:induction false} RowAgrees(sp: Sp, ram: seq<Byte>, r: Request, i: nat, n: nat, k: nat)
    requires sp.Valid() && |ram| == RAM_SIZE && k < 0x400
    requires Agrees(sp, k) || RowWrites(r, i, n, k)
    ensures Agrees(ReadRow(sp, ram, r, i, n), k)
  {
    hide Agrees, Written, SpWord, RamWord;
    if n > 0 {
      var a := SpWord(r, i, n - 1);
      if a != 0x1000 + 4 * k {
        RowAgrees(sp, ram, r, i, n - 1, k);
      }
      WrittenAgrees(ReadRow(sp, ram, r, i, n - 1), a, Bus(ram, RamWord(r, i, n - 1)), k);
    }
  }

  lemma {:induction false} RowsAgree(sp: Sp, ram: seq<Byte>, r: Request, n: nat, k: nat)
    requires sp.Valid() && |ram| == RAM_SIZE && k < 0x400
    requires Agrees(sp, k) || exists i :: 0 <= i < n && RowWrites(r, i, RowBytes(r) / 4, k)
    ensures Agrees(ReadRows(sp, ram, r, n), k)
  {
    hide Agrees, RowWrites, RowBytes, ReadRow;
    if n > 0 {
      if !RowWrites(r, n - 1, RowBytes(r) / 4, k) {
        RowsAgree(sp, ram, r, n - 1, k);
      }
      RowAgrees(ReadRows(sp, ram, r, n - 1), ram, r, n - 1, RowBytes(r) / 4, k);
    }
  }

  lemma StepAgrees(sp: Sp, op: Op, k: nat)
    requires sp.Valid() && op.Valid() && k < 0x400 && (Agrees(sp, k) || Writes(op, k))
    ensures Agrees(Step(sp, op), k)
  {
    hide Agrees, RowWrites, RowBytes, Rows;
    match op
    case Dma(ram, r) => RowsAgree(sp, ram, r, Rows(r), k);
    case CpuWrite(address, word) => WrittenAgrees(sp, SpAddress(address), word, k);
  }

  /** After any run, every word of IMEM that was ever written is decoded in the opcode cache. */
  lemma {:induction false} OpcodeCacheAgrees(sp: Sp, ops: seq<Op>, k: nat)
    requires sp.Valid() && k < 0x400
    requires forall i :: 0 <= i < |ops| ==> ops[i].Valid()
    requires Agrees(sp, k) || exists i :: 0 <= i < |ops| && Writes(ops[i], k)
    ensures Agrees(Run(sp, ops), k)
    decreases |ops|
  {
    hide Agrees, Step, Writes;
    if ops != [] {
      var last := |ops| - 1;
      if !Writes(ops[last], k) {
        assert Agrees(sp, k) || exists i :: 0 <= i < last && Writes(ops[..last][i], k);
        OpcodeCacheAgrees(sp, ops[..last], k);
      }
      StepAgrees(Run(sp, ops[..last]), ops[last], k);
    }
  }

  // ------------------------------------------------------------- the round trip

  /** The whole transfer fits in SP memory, so its rows do not overlap there. */
  predicate FitsInSp(r: Request) { RowBytes(r) * Rows(r) <= SP_SIZE }

  lemma SpAddressOfWord(x: nat)
    ensures SpAddress(4 * x) == 4 * (x % 0x800)
  {
  }

  lemma Modulo800(x: nat, j: nat)
    ensures (x % 0x800 + j) % 0x800 == (x + j) % 0x800
  {
  }

  lemma WholeWords(x: nat)
    requires x % 8 == 0
    ensures x == 4 * (x / 4)
  {
  }

  lemma AlignedWords(x: nat)
    ensures Align8(x) == 4 * (Align8(x) / 4)
  {
    WholeWords(Align8(x));
  }

  lemma RowStart(c: nat, n: nat, i: nat)
    ensures 4 * c + i * (4 * n) == 4 * (c + i * n)
  {
  }

  /** The SP address of word j of row i. */
  lemma SpWordIs(r: Request, i: nat, j: nat)
    ensures SpWord(r, i, j) == 4 * ((Align8(r.cache) / 4 + i * (RowBytes(r) / 4) + j) % 0x800)
  {
    hide SpAddress, RowBytes, Align8;
    AlignedWords(r.cache);
    WholeWords(RowBytes(r));
    var c, n := Align8(r.cache) / 4, RowBytes(r) / 4;
    RowStart(c, n, i);
    WordInRow(c + i * n, j);
  }

  lemma WordInRow(x: nat, j: nat)
    ensures SpAddress(SpAddress(4 * x) + 4 * j) == 4 * ((x + j) % 0x800)
  {
    SpAddressOfWord(x);
    SpAddressOfWord(x % 0x800 + j);
    Modulo800(x, j);
    hide SpAddress;
  }

  lemma SpWordAt(r: Request, i: nat, j: nat, o: nat)
    requires o == i * (RowBytes(r) / 4) + j
    ensures SpWord(r, i, j) == 4 * ((Align8(r.cache) / 4 + o) % 0x800)
  {
    hide SpWord, Align8, RowBytes;
    SpWordIs(r, i, j);
  }

  lemma SpWordsDiffer(r: Request, i: nat, j: nat, i': nat, j': nat)
    requires FitsInSp(r) && InTransfer(r, i, j) && InTransfer(r, i', j') && SpWord(r, i, j) == SpWord(r, i', j')
    ensures i == i' && j == j'
  {
    hide RowBytes, Rows, SpWord, Align8;
    var n := RowBytes(r) / 4;
    assert RowBytes(r) == 4 * n;
    RowInside(n, Rows(r), i, j);
    RowInside(n, Rows(r), i', j');
    SameOffset(r, n, i, j, i', j');
    SameRow(n, i, j, i', j');
  }

  lemma SameOffset(r: Request, n: nat, i: nat, j: nat, i': nat, j': nat)
    requires n == RowBytes(r) / 4 && i * n + j < 0x800 && i' * n + j' < 0x800 && SpWord(r, i, j) == SpWord(r, i', j')
    ensures i * n + j == i' * n + j'
  {
    hide SpWord, Align8, RowBytes;
    SpWordAt(r, i, j, i * n + j);
    SpWordAt(r, i', j', i' * n + j');
    SameModulo(i * n + j, i' * n + j', Align8(r.cache) / 4);
  }

  lemma Spaced(n: nat, i: nat, i': nat)
    requires i < i'
    ensures i * n + n <= i' * n
  {
    assert i' * n == i * n + (i' - i) * n;
    assert (i' - i) * n == n + (i' - i - 1) * n;
  }

  lemma RowInside(n: nat, rows: nat, i: nat, j: nat)
    requires i < rows && j < n && 4 * n * rows <= SP_SIZE
    ensures i * n + j < 0x800
  {
    Spaced(n, i, rows);
    assert 4 * n * rows == 4 * (rows * n);
  }

  lemma SameModulo(a: nat, b: nat, m: nat)
    requires a < 0x800 && b < 0x800 && (m + a) % 0x800 == (m + b) % 0x800
    ensures a == b
  {
  }

  lemma SameRow(n: nat, i: nat, j: nat, i': nat, j': nat)
    requires i * n + j == i' * n + j' && j < n && j' < n
    ensures i == i' && j == j'
  {
    if i < i' {
      Spaced(n, i, i');
    } else if i' < i {
      Spaced(n, i', i);
    }
  }

  /** Word j of row i of the transfer is in SP memory. */
  ghost predicate Holds(sp: Sp, ram: seq<Byte>, r: Request, i: nat, j: nat)
    requires |ram| == RAM_SIZE
  {
    sp.Valid() && Load(sp.mem, SpWord(r, i, j)) == Bus(ram, RamWord(r, i, j))
  }

  lemma {:induction false} RowHolds(sp: Sp, ram: seq<Byte>, r: Request, i: nat, n: nat, i': nat, j': nat)
    requires sp.Valid() && |ram| == RAM_SIZE && FitsInSp(r) && i < Rows(r) && 4 * n <= RowBytes(r) && InTransfer(r, i', j')
    requires (i == i' && j' < n) || Holds(sp, ram, r, i', j')
    ensures Holds(ReadRow(sp, ram, r, i, n), ram, r, i', j')
  {
    hide SpWord, RamWord, RowBytes, Rows, FitsInSp, Load, Store;
    if n > 0 {
      if i == i' && j' == n - 1 {
      } else {
        RowHolds(sp, ram, r, i, n - 1, i', j');
        if SpWord(r, i, n - 1) == SpWord(r, i', j') {
          SpWordsDiffer(r, i, n - 1, i', j');
        }
      }
      LoadAfterStore(ReadRow(sp, ram, r, i, n - 1).mem, SpWord(r, i, n - 1), Bus(ram, RamWord(r, i, n - 1)), SpWord(r, i', j'));
    }
  }

  lemma {:induction false} RowsHold(sp: Sp, ram: seq<Byte>, r: Request, n: nat, i: nat, j: nat)
    requires sp.Valid() && |ram| == RAM_SIZE && FitsInSp(r) && n <= Rows(r) && InTransfer(r, i, j) && i < n
    ensures Holds(ReadRows(sp, ram, r, n), ram, r, i, j)
  {
    hide Holds, RowBytes, Rows, FitsInSp, ReadRow;
    if i < n - 1 {
      RowsHold(sp, ram, r, n - 1, i, j);
    }
    RowHolds(ReadRows(sp, ram, r, n - 1), ram, r, n - 1, RowBytes(r) / 4, i, j);
  }

  /** Every word of a DMA read arrives, in DMEM and IMEM alike. */
  lemma DmaReadArrives(sp: Sp, ram: seq<Byte>, r: Request, i: nat, j: nat)
    requires sp.Valid() && |ram| == RAM_SIZE && FitsInSp(r) && InTransfer(r, i, j)
    ensures Load(DmaRead(sp, ram, r).mem, SpWord(r, i, j)) == Bus(ram, RamWord(r, i, j))
  {
    RowsHold(sp, ram, r, Rows(r), i, j);
  }

  lemma BusRewrite(ram: seq<Byte>, a: nat)
    requires a + 4 <= |ram|
    ensures BusWrite(ram, a, Bus(ram, a)) == ram
  {
  }

  lemma {:induction false} WriteRowRestores(ram: seq<Byte>, sp: Sp, r: Request, i: nat, n: nat)
    requires sp.Valid() && |ram| == RAM_SIZE && forall j :: 0 <= j < n ==> Holds(sp, ram, r, i, j)
    ensures WriteRow(ram, sp, r, i, n) == ram
  {
    hide SpWord, RamWord, Load, Bus, BusWrite;
    if n > 0 {
      WriteRowRestores(ram, sp, r, i, n - 1);
      assert Holds(sp, ram, r, i, n - 1);
      BusRewrite(ram, RamWord(r, i, n - 1));
    }
  }

  lemma {:induction false} WriteRowsRestore(ram: seq<Byte>, sp: Sp, r: Request, n: nat)
    requires sp.Valid() && |ram| == RAM_SIZE && n <= Rows(r)
    requires forall i, j :: InTransfer(r, i, j) ==> Holds(sp, ram, r, i, j)
    ensures WriteRows(ram, sp, r, n) == ram
  {
    hide Holds, RowBytes, Rows, WriteRow;
    if n > 0 {
      WriteRowsRestore(ram, sp, r, n - 1);
      var last: nat := n - 1;
      forall j | 0 <= j < RowBytes(r) / 4 ensures Holds(sp, ram, r, last, j) {
        assert InTransfer(r, last, j);
      }
      WriteRowRestores(ram, sp, r, n - 1, RowBytes(r) / 4);
    }
  }

  /** A DMA read and a DMA write with the same registers leave RDRAM as it was,
      when the rows do not overlap in SP memory. */
  lemma ReadThenWriteRestores(sp: Sp, ram: seq<Byte>, r: Request)
    requires sp.Valid() && |ram| == RAM_SIZE && FitsInSp(r)
    ensures DmaWrite(ram, DmaRead(sp, ram, r), r) == ram
  {
    hide ReadRows, SpWord, RamWord, RowBytes, Rows, Load, FitsInSp;
    var sp' := DmaRead(sp, ram, r);
    forall i, j | InTransfer(r, i, j) ensures Holds(sp', ram, r, i, j) {
      DmaReadArrives(sp, ram, r, i, j);
    }
    WriteRowsRestore(ram, sp', r, Rows(r));
  }

  // ------------------------------------------------------------- the write path

  /** No two words of the transfer have the same address in RDRAM. */
  ghost predicate ApartInRam(r: Request) {
    forall i, j, i', j' :: InTransfer(r, i, j) && InTransfer(r, i', j') && RamWord(r, i, j) == RamWord(r, i', j') ==> i == i' && j == j'
  }

  /** The word address of a row's start in RDRAM, for the stride s. */
  function RowWord(d: nat, s: nat, i: nat): nat { (d + i * s) / 4 }

  lemma ModuloRam(x: nat, j: nat)
    ensures (x % 0x20_0000 + j) % 0x20_0000 == (x + j) % 0x20_0000
  {
  }

  lemma RamWordIs(r: Request, i: nat, j: nat)
    ensures RamWord(r, i, j) == 4 * ((RowWord(Align8(r.dram), RowBytes(r) + Skip(r), i) + j) % 0x20_0000)
  {
    hide RowBytes, Skip, Align8;
    var w := RowWord(Align8(r.dram), RowBytes(r) + Skip(r), i);
    var v := w % 0x20_0000 + j;
    assert RamWord(r, i, j) == RamAddress(4 * v);
    assert 4 * v / 4 == v;
    ModuloRam(w, j);
  }

  /** Rows do not run into each other, and 256 of them do not come round to the first. */
  lemma RowsApart(d: nat, s: nat, n: nat, i: nat, i': nat)
    requires i < i' < 0x100 && 4 * n <= s <= 0x1FFF
    ensures RowWord(d, s, i) + n <= RowWord(d, s, i') < RowWord(d, s, i) + 0x8_0000
  {
    var x, k := d + i * s, i' - i;
    assert i' * s == i * s + k * s;
    Times(k, s);
    assert d + i' * s == x + k * s;
    Quarters(x, k * s, n);
  }

  lemma Times(k: nat, s: nat)
    requires 0 < k < 0x100 && s <= 0x1FFF
    ensures s <= k * s <= 255 * 0x1FFF
  {
    More(1, k, s);
    More(k, 255, s);
  }

  lemma More(k: nat, k': nat, s: nat)
    requires k <= k'
    ensures k * s <= k' * s
  {
    assert k' * s == k * s + (k' - k) * s;
  }

  lemma Quarters(x: nat, y: nat, n: nat)
    requires 4 * n <= y <= 255 * 0x1FFF
    ensures x / 4 + n <= (x + y) / 4 < x / 4 + 0x8_0000
  {
  }

  lemma DifferentModulo(a: nat, b: nat)
    requires a < b < a + 0x20_0000
    ensures a % 0x20_0000 != b % 0x20_0000
  {
  }

  lemma WordsApart(r: Request, i: nat, j: nat, i': nat, j': nat)
    requires InTransfer(r, i, j) && InTransfer(r, i', j') && (i < i' || (i == i' && j < j'))
    ensures RamWord(r, i, j) != RamWord(r, i', j')
  {
    var d, s, n := Align8(r.dram), RowBytes(r) + Skip(r), RowBytes(r) / 4;
    assert i' < 0x100 && 4 * n <= s <= 0x1FFF && n <= 0x400 && j < n && j' < n;
    hide RowBytes, Skip, Rows, Align8, RamWord, RowWord;
    RamWordIs(r, i, j);
    RamWordIs(r, i', j');
    if i < i' {
      RowsApart(d, s, n, i, i');
    }
    DifferentModulo(RowWord(d, s, i) + j, RowWord(d, s, i') + j');
  }

  /** No request writes a word of RDRAM twice: a row is at least as far from the
      next as it is long, and 256 rows cover less than RDRAM. */
  lemma AlwaysApart(r: Request)
    ensures ApartInRam(r)
  {
    hide Rows, RowBytes, RamWord;
    forall i, j, i', j' | InTransfer(r, i, j) && InTransfer(r, i', j') && RamWord(r, i, j) == RamWord(r, i', j')
      ensures i == i' && j == j'
    {
      if i < i' || (i == i' && j < j') {
        WordsApart(r, i, j, i', j');
      } else if i' < i || (i == i' && j' < j) {
        WordsApart(r, i', j', i, j);
      }
    }
  }

  lemma BusAfterWrite(ram: seq<Byte>, a: nat, w: Word, b: nat)
    requires |ram| == RAM_SIZE && a + 4 <= RAM_SIZE && b + 4 <= RAM_SIZE && a % 4 == 0 && b % 4 == 0
    ensures Bus(BusWrite(ram, a, w), b) == if a == b then w else Bus(ram, b)
  {
    var m := BusWrite(ram, a, w);
    if b < a {
      assert m[b..b + 4] == ram[b..b + 4];
    } else if a < b {
      assert m[b..b + 4] == ram[b..b + 4];
    } else {
      assert m[a..a + 4] == w;
    }
  }

  lemma {:induction false} RowWritten(ram: seq<Byte>, sp: Sp, r: Request, i: nat, n: nat, i': nat, j': nat)
    requires sp.Valid() && |ram| == RAM_SIZE && ApartInRam(r) && i < Rows(r) && 4 * n <= RowBytes(r) && InTransfer(r, i', j')
    requires (i == i' && j' < n) || Holds(sp, ram, r, i', j')
    ensures Holds(sp, WriteRow(ram, sp, r, i, n), r, i', j')
  {
    hide SpWord, RamWord, RowBytes, Rows, Load, Bus, BusWrite;
    if n > 0 {
      if i != i' || j' != n - 1 {
        RowWritten(ram, sp, r, i, n - 1, i', j');
        assert InTransfer(r, i, n - 1);
      }
      BusAfterWrite(WriteRow(ram, sp, r, i, n - 1), RamWord(r, i, n - 1), Load(sp.mem, SpWord(r, i, n - 1)), RamWord(r, i', j'));
    }
  }

  lemma {:induction false} RowsWritten(ram: seq<Byte>, sp: Sp, r: Request, n: nat, i: nat, j: nat)
    requires sp.Valid() && |ram| == RAM_SIZE && ApartInRam(r) && n <= Rows(r) && InTransfer(r, i, j) && i < n
    ensures Holds(sp, WriteRows(ram, sp, r, n), r, i, j)
  {
    hide Holds, RowBytes, Rows, ApartInRam, WriteRow;
    if i < n - 1 {
      RowsWritten(ram, sp, r, n - 1, i, j);
    }
    RowWritten(WriteRows(ram, sp, r, n - 1), sp, r, n - 1, RowBytes(r) / 4, i, j);
  }

  /** Every word of a DMA write arrives. */
  lemma DmaWriteArrives(ram: seq<Byte>, sp: Sp, r: Request, i: nat, j: nat)
    requires sp.Valid() && |ram| == RAM_SIZE && InTransfer(r, i, j)
    ensures Bus(DmaWrite(ram, sp, r), RamWord(r, i, j)) == Load(sp.mem, SpWord(r, i, j))
  {
    AlwaysApart(r);
    RowsWritten(ram, sp, r, Rows(r), i, j);
  }

  lemma {:induction false} RowOutside(ram: seq<Byte>, sp: Sp, r: Request, i: nat, n: nat, a: nat)
    requires sp.Valid() && |ram| == RAM_SIZE && a % 4 == 0 && a + 4 <= RAM_SIZE
    requires forall j :: 0 <= j < n ==> RamWord(r, i, j) != a
    ensures Bus(WriteRow(ram, sp, r, i, n), a) == Bus(ram, a)
  {
    hide SpWord, RamWord, Load, Bus, BusWrite;
    if n > 0 {
      RowOutside(ram, sp, r, i, n - 1, a);
      BusAfterWrite(WriteRow(ram, sp, r, i, n - 1), RamWord(r, i, n - 1), Load(sp.mem, SpWord(r, i, n - 1)), a);
    }
  }

  /** A word of RDRAM outside the transfer does not change. */
  lemma {:induction false} DmaWriteLeavesOthers(ram: seq<Byte>, sp: Sp, r: Request, n: nat, a: nat)
    requires sp.Valid() && |ram| == RAM_SIZE && a % 4 == 0 && a + 4 <= RAM_SIZE && n <= Rows(r)
    requires forall i, j :: InTransfer(r, i, j) ==> RamWord(r, i, j) != a
    ensures Bus(WriteRows(ram, sp, r, n), a) == Bus(ram, a)
  {
    hide RamWord, RowBytes, Rows, Bus, WriteRow;
    if n > 0 {
      DmaWriteLeavesOthers(ram, sp, r, n - 1, a);
      var last: nat := n - 1;
      forall j | 0 <= j < RowBytes(r) / 4 ensures RamWord(r, last, j) != a {
        assert InTransfer(r, last, j);
      }
      RowOutside(WriteRows(ram, sp, r, n - 1), sp, r, n - 1, RowBytes(r) / 4, a);
    }
  }

  // ----------------------------------------------- a transfer that overlaps

  const ZERO: Word := [0, 0, 0, 0]
  const ONE: Word := [0, 0, 0, 1]

  /** Every word of the transfer but the first is zero in RDRAM. */
  ghost predicate OnlyFirst(ram: seq<Byte>, r: Request) {
    |ram| == RAM_SIZE && forall i, j :: InTransfer(r, i, j) && (i != 0 || j != 0) ==> Bus(ram, RamWord(r, i, j)) == ZERO
  }

  lemma {:induction false} RowClears(sp: Sp, ram: seq<Byte>, r: Request, i: nat, n: nat, a: nat)
    requires sp.Valid() && OnlyFirst(ram, r) && 0 < i < Rows(r) && 4 * n <= RowBytes(r) && a % 4 == 0 && a + 4 <= SP_SIZE
    requires Load(sp.mem, a) == ZERO || exists j :: 0 <= j < n && SpWord(r, i, j) == a
    ensures Load(ReadRow(sp, ram, r, i, n).mem, a) == ZERO
  {
    hide SpWord, RamWord, RowBytes, Rows, Load, Bus, Store;
    if n > 0 {
      if SpWord(r, i, n - 1) != a {
        RowClears(sp, ram, r, i, n - 1, a);
      }
      assert InTransfer(r, i, n - 1);
      LoadAfterStore(ReadRow(sp, ram, r, i, n - 1).mem, SpWord(r, i, n - 1), Bus(ram, RamWord(r, i, n - 1)), a);
    }
  }

  lemma {:induction false} RowsClear(sp: Sp, ram: seq<Byte>, r: Request, n: nat, i: nat, j: nat)
    requires sp.Valid() && |ram| == RAM_SIZE && OnlyFirst(ram, r) && 0 < i < n <= Rows(r) && InTransfer(r, i, j)
    ensures Load(ReadRows(sp, ram, r, n).mem, SpWord(r, i, j)) == ZERO
  {
    hide SpWord, RamWord, RowBytes, Rows, Load, Bus, ReadRow, OnlyFirst;
    if i < n - 1 {
      RowsClear(sp, ram, r, n - 1, i, j);
    }
    RowClears(ReadRows(sp, ram, r, n - 1), ram, r, n - 1, RowBytes(r) / 4, SpWord(r, i, j));
  }

  /** A transfer that does not fit comes back to its first SP address. */
  lemma ComesBack(r: Request) returns (i: nat, j: nat)
    requires !FitsInSp(r)
    ensures i > 0 && InTransfer(r, i, j) && SpWord(r, i, j) == SpWord(r, 0, 0)
  {
    hide RowBytes, Rows, SpWord, Align8;
    var n := RowBytes(r) / 4;
    i, j := 0x800 / n, 0x800 % n;
    assert 0x800 == i * n + j;
    WholeWords(RowBytes(r));
    LastRow(n, Rows(r), i, j);
    SpWordAt(r, i, j, 0x800);
    SpWordAt(r, 0, 0, 0);
    Modulo800(0x800, Align8(r.cache) / 4);
    Modulo800(0, Align8(r.cache) / 4);
  }

  lemma LastRow(n: nat, rows: nat, i: nat, j: nat)
    requires 2 <= n <= 0x400 && 4 * n * rows > SP_SIZE && 0x800 == i * n + j && j < n
    ensures 0 < i < rows
  {
    assert 4 * n * rows == 4 * (rows * n);
    if i > rows {
      Spaced(n, rows, i);
    }
  }

  function Zeros(): (s: seq<Byte>)
    ensures |s| == RAM_SIZE && forall i :: 0 <= i < RAM_SIZE ==> s[i] == 0
  {
    seq(RAM_SIZE, _ => 0)
  }

  lemma ZeroWord(a: nat)
    requires a + 4 <= RAM_SIZE
    ensures Bus(Zeros(), a) == ZERO
  {
    hide Zeros;
  }

  /** A transfer that overlaps itself in SP memory loses some contents of RDRAM. */
  lemma RoundTripNeedsFit(sp: Sp, r: Request) returns (ram: seq<Byte>)
    requires sp.Valid() && !FitsInSp(r)
    ensures |ram| == RAM_SIZE && DmaWrite(ram, DmaRead(sp, ram, r), r) != ram
  {
    hide RowBytes, SpWord, RamWord, Load, Bus, BusWrite, ReadRows, WriteRows, FitsInSp, Zeros;
    AlwaysApart(r);
    var first := RamWord(r, 0, 0);
    ram := BusWrite(Zeros(), first, ONE);
    assert InTransfer(r, 0, 0);
    forall i, j | InTransfer(r, i, j) && (i != 0 || j != 0) ensures Bus(ram, RamWord(r, i, j)) == ZERO {
      BusAfterWrite(Zeros(), first, ONE, RamWord(r, i, j));
      ZeroWord(RamWord(r, i, j));
    }
    var i, j := ComesBack(r);
    RowsClear(sp, ram, r, Rows(r), i, j);
    DmaWriteArrives(ram, DmaRead(sp, ram, r), r, 0, 0);
    BusAfterWrite(Zeros(), first, ONE, first);
  }

  /** A read and a write with the same registers restore RDRAM, whatever it
      holds, exactly when the transfer fits in SP memory. */
  lemma RoundTripExactly(sp: Sp, r: Request)
    requires sp.Valid()
    ensures (forall ram: seq<Byte> :: |ram| == RAM_SIZE ==> DmaWrite(ram, DmaRead(sp, ram, r), r) == ram) <==> FitsInSp(r)
  {
    hide DmaRead, DmaWrite, FitsInSp;
    if FitsInSp(r) {
      forall ram: seq<Byte> | |ram| == RAM_SIZE ensures DmaWrite(ram, DmaRead(sp, ram, r), r) == ram {
        ReadThenWriteRestores(sp, ram, r);
      }
    } else {
      var ram := RoundTripNeedsFit(sp, r);
    }
  }
}
