/** The scalar instruction set of the RSP, twice.

    `Decode` and the functions named after the C execution functions follow
    rsp/decoder.c and rsp/functions.c: table escapes, masks selected by
    instruction bits, one function for several opcodes.  The functions whose
    names start with `Ref` say what each opcode means, one opcode at a time: on
    integers for sums, shifts and comparisons, byte by byte for DMEM.
    `ExecuteMeetsReference` connects the two.  `MipsWrite` is the MIPS
    instruction set, from which the source departs for three opcodes when their
    unused fields are not zero. */
module RspIsa {
  import opened RspWords

  datatype Option<+T> = None | Some(value: T)

  // ---------------------------------------------------------------- opcodes

  // The opcodes of rsp/opcodes.md, grouped by the execution function that
  // serves them.
  datatype SumOp = ADDU | SUBU
  datatype SumImmOp = ADDIU | LUI
  datatype LogicOp = AND | OR | XOR
  datatype LogicImmOp = ANDI | ORI | XORI
  datatype ShiftOp = SLL | SLLV | SRL | SRLV | SRA | SRAV
  datatype CompareOp = SLT | SLTI | SLTU | SLTIU
  datatype BranchOp = BEQ | BNE | BGEZ | BLTZ | BGTZ | BLEZ | BGEZAL | BLTZAL
  datatype JumpOp = J | JAL | JR | JALR
  datatype LoadOp = LB | LH | LW | LBU | LHU
  datatype StoreOp = SB | SH | SW

  /** BREAK, the coprocessor moves and the vector unit, by their table index. */
  datatype OtherOp = BREAK | COP0(func: nat) | COP2(func: nat) | VECTOR(func: nat) | LWC2(func: nat) | SWC2(func: nat)

  datatype OpId =
    | INVALID
    | NOR
    | Sum(sum: SumOp)
    | SumImm(sumImm: SumImmOp)
    | Logic(logic: LogicOp)
    | LogicImm(logicImm: LogicImmOp)
    | Shift(shift: ShiftOp)
    | Compare(compare: CompareOp)
    | Branch(branch: BranchOp)
    | Jump(jump: JumpOp)
    | Load(load: LoadOp)
    | Store(store: StoreOp)
    | Other(other: OtherOp)

  /** struct rsp_opcode, with the flag bits the pipeline looks at. */
  datatype Opcode = Opcode(id: OpId, vector: bool, needRs: bool, needRt: bool, isLoad: bool)

  // ---------------------------------------------------------------- decoder

  /** An instruction word, and its bit fields. */
  type Word = w: nat | w < 0x1_0000_0000

  predicate Bit(field: nat, unit: nat)
    requires unit > 0
  {
    (field / unit) % 2 == 1
  }

  /** The primary opcode (bits 26 to 31), function (bits 0 to 5) and rt (bits 16 to 20) fields. */
  function Primary(iw: Word): (op: nat) ensures op < 64 { iw / 0x400_0000 }

  function Function(iw: Word): (f: nat) ensures f < 64 { iw % 64 }

  function RtField(iw: Word): (r: nat) ensures r < 32 { (iw / 0x1_0000) % 32 }

  function SpecialOp(i: nat): OpId {
    if i == 0 then Shift(SLL) else if i == 2 then Shift(SRL) else if i == 3 then Shift(SRA)
    else if i == 4 then Shift(SLLV) else if i == 6 then Shift(SRLV) else if i == 7 then Shift(SRAV)
    else if i == 8 then Jump(JR) else if i == 9 then Jump(JALR) else if i == 13 then Other(BREAK)
    else if i == 32 || i == 33 then Sum(ADDU) else if i == 34 || i == 35 then Sum(SUBU)
    else if i == 36 then Logic(AND) else if i == 37 then Logic(OR) else if i == 38 then Logic(XOR)
    else if i == 39 then NOR else if i == 42 then Compare(SLT) else if i == 43 then Compare(SLTU)
    else INVALID
  }

  function RegImmOp(i: nat): OpId {
    if i == 0 then Branch(BLTZ) else if i == 1 then Branch(BGEZ)
    else if i == 16 then Branch(BLTZAL) else if i == 17 then Branch(BGEZAL)
    else INVALID
  }

  function PrimaryOp(i: nat): OpId {
    if i < 8 then
      (if i == 2 then Jump(J) else if i == 3 then Jump(JAL)
       else if i == 4 then Branch(BEQ) else if i == 5 then Branch(BNE)
       else if i == 6 then Branch(BLEZ) else if i == 7 then Branch(BGTZ) else INVALID)
    else if i < 16 then
      (if i <= 9 then SumImm(ADDIU)
       else if i == 10 then Compare(SLTI) else if i == 11 then Compare(SLTIU)
       else if i == 12 then LogicImm(ANDI) else if i == 13 then LogicImm(ORI)
       else if i == 14 then LogicImm(XORI) else SumImm(LUI))
    else if i == 32 then Load(LB) else if i == 33 then Load(LH) else if i == 35 then Load(LW)
    else if i == 36 then Load(LBU) else if i == 37 then Load(LHU)
    else if i == 40 then Store(SB) else if i == 41 then Store(SH) else if i == 43 then Store(SW)
    else INVALID
  }

  function Cop0Op(i: nat): OpId { if i == 0 || i == 4 then Other(COP0(i)) else INVALID }

  function Cop2Op(i: nat): OpId { if i in {0, 2, 4, 6} then Other(COP2(i)) else INVALID }

  function Lwc2Op(i: nat): OpId { if i <= 9 || i == 11 then Other(LWC2(i)) else INVALID }

  function Swc2Op(i: nat): OpId { if i <= 11 then Other(SWC2(i)) else INVALID }

  /** rsp_opcode_table through rsp_escape_table: the top seven bits select a
      group of the table, and a field of the word the entry within it. */
  function DecodeId(iw: Word): OpId {
    var top := iw / 0x200_0000;
    if top < 2 then SpecialOp(Function(iw))
    else if top < 4 then RegImmOp(RtField(iw))
    else if top == 32 || top == 33 then Cop0Op((iw / 0x20_0000) % 32)
    else if top == 36 then Cop2Op((iw / 0x20_0000) % 32)
    else if top == 37 then Other(VECTOR(Function(iw)))
    else if top == 100 || top == 101 then Lwc2Op((iw / 0x800) % 32)
    else if top == 116 || top == 117 then Swc2Op((iw / 0x800) % 32)
    else PrimaryOp(Primary(iw))
  }

  /** The vector functions that read both sources; 48 to 54 read only the second. */
  predicate VectorNeedsVs(f: nat) {
    f <= 1 || (4 <= f && f <= 9) || (12 <= f && f <= 17) || (19 <= f && f <= 21) || (32 <= f && f <= 45)
  }

  function OtherInfo(id: OpId, other: OtherOp): Opcode {
    match other
    case BREAK => Opcode(id, false, false, false, false)
    case COP0(f) => Opcode(id, false, false, f == 4, false)
    case COP2(f) => Opcode(id, false, false, f == 4 || f == 6, false)
    case VECTOR(f) => Opcode(id, true, VectorNeedsVs(f), VectorNeedsVs(f) || (48 <= f && f <= 54), false)
    case LWC2(f) => var used := f != 8 && f != 9; Opcode(id, false, used, used, used)
    case SWC2(f) => var used := f != 8 && f != 9 && f != 10; Opcode(id, false, used, used, f == 11)
  }

  /** The flag words of rsp/opcodes_priv.h. */
  function Info(id: OpId): Opcode {
    match id
    case INVALID => Opcode(id, false, false, false, false)
    case NOR | Logic(_) | Store(_) => Opcode(id, false, true, true, false)
    case Sum(op) => Opcode(id, false, true, op == ADDU, false)
    case SumImm(op) => Opcode(id, false, op == ADDIU, false, false)
    case LogicImm(_) => Opcode(id, false, true, false, false)
    case Shift(op) => Opcode(id, false, op in {SLLV, SRLV, SRAV}, true, false)
    case Compare(op) => Opcode(id, false, true, op in {SLT, SLTU}, false)
    case Branch(op) => Opcode(id, false, true, op in {BEQ, BNE}, false)
    case Jump(op) => Opcode(id, false, op in {JR, JALR}, false, false)
    case Load(_) => Opcode(id, false, true, false, true)
    case Other(other) => OtherInfo(id, other)
  }

  /** rsp_decode_instruction. */
  function Decode(iw: Word): Opcode { Info(DecodeId(iw)) }

  /** The instructions of the pipeline model.  INVALID executes as a no-operation. */
  predicate Scalar(id: OpId) { !id.Other? }

  // ------------------------------------------------------- fields and words

  type Register = r: nat | r < 32

  function Rs(iw: Word): Register { (iw / 0x20_0000) % 32 }
  function Rt(iw: Word): Register { (iw / 0x1_0000) % 32 }
  function Rd(iw: Word): Register { (iw / 0x800) % 32 }

  /** (iw >> 6) & 0x1F. */
  function Sa(iw: Word): ShiftCount { Count5(WordOfInt(iw / 64)) }

  /** (int16_t) iw. */
  function Simm(iw: Word): int {
    if iw % 0x1_0000 < 0x8000 then iw % 0x1_0000 else iw % 0x1_0000 - 0x1_0000
  }

  /** (int16_t) iw as a 32-bit value, and (uint16_t) iw. */
  function Imm(iw: Word): bv32 { WordOfInt(Simm(iw)) }
  function Uimm(iw: Word): bv32 { WordOfInt(iw % 0x1_0000) }

  /** An instruction address: x & 0xFFC for a 32-bit x. */
  type ImemAddress = a: nat | a < 0x1000 && a % 4 == 0

  function ToImem(x: int): ImemAddress { (x % 0x1000) / 4 * 4 }

  function RegisterToImem(x: bv32): ImemAddress { 4 * (((x >> 2) & 0x3FF) as nat) }

  function And(x: bv32, y: bv32): bv32 { x & y }

  function Or(x: bv32, y: bv32): bv32 { x | y }

  function Xor(x: bv32, y: bv32): bv32 { x ^ y }

  function Nor(x: bv32, y: bv32): bv32 { !(x | y) }

  /** The low 32 bits of an address. */
  function LinkValue(x: nat): bv32 { (x % 0x1_0000_0000) as bv32 }

  /** The offset of a DMEM access: request->addr & 0xFFF. */
  function DmemOffset(addr: bv32): (a: nat) ensures a < 0x1000 { (addr & 0xFFF) as nat }

  /** A big-endian word: memcpy from DMEM followed by byteswap_32. */
  function WordOf(b0: bv8, b1: bv8, b2: bv8, b3: bv8): bv32 {
    (b0 as bv32 << 24) | (b1 as bv32 << 16) | (b2 as bv32 << 8) | (b3 as bv32)
  }

  function WordAt(mem: seq<bv8>, a: nat): bv32
    requires a + 4 <= |mem|
  {
    WordOf(mem[a], mem[a + 1], mem[a + 2], mem[a + 3])
  }

  /** Byte k of a word, counted from the most significant. */
  function ByteOf(w: bv32, k: nat): bv8
    requires k < 4
  {
    if k == 0 then ((w >> 24) & 0xFF) as bv8
    else if k == 1 then ((w >> 16) & 0xFF) as bv8
    else if k == 2 then ((w >> 8) & 0xFF) as bv8
    else (w & 0xFF) as bv8
  }

  function WithWordAt(mem: seq<bv8>, a: nat, w: bv32): (m: seq<bv8>)
    requires a + 4 <= |mem|
    ensures |m| == |mem|
  {
    mem[a := ByteOf(w, 0)][a + 1 := ByteOf(w, 1)][a + 2 := ByteOf(w, 2)][a + 3 := ByteOf(w, 3)]
  }

  /** A word in the host's (little-endian) order: how IMEM holds instructions. */
  function HostWordAt(mem: seq<bv8>, a: nat): Word
    requires a + 4 <= |mem|
  {
    mem[a] as nat + 0x100 * (mem[a + 1] as nat) + 0x1_0000 * (mem[a + 2] as nat) + 0x100_0000 * (mem[a + 3] as nat)
  }

  // ------------------------------------------------ the execution functions

  /** struct rsp_mem_request, restricted to the scalar unit. */
  datatype MemRequest =
    | NoRequest
    | IntMem(addr: bv32, data: bv32, rdqm: bv32, wdqm: bv32, rshift: ShiftCount)

  /** What an execution function leaves in the latches: the result and its
      register, a memory request, and a new fetch address for a taken branch. */
  datatype Effect = Effect(dest: Register, result: bv32, request: MemRequest, target: Option<ImemAddress>)

  function Compute(dest: Register, result: bv32): Effect { Effect(dest, result, NoRequest, None) }

  function AllOnes(b: bool): bv32 { if b then 0xFFFF_FFFF else 0 }

  /** register & ~rsp_branch_mask(iw, index), the mask being all zeroes when the bit is set. */
  function IfBit(register: Register, bit: bool): Register { if bit then register else 0 }

  function AddiuLuiSubiu(iw: Word, rs: bv32): Effect {
    var immshift: ShiftCount := if Bit(Primary(iw), 4) then 16 else 0;
    Compute(Rt(iw), Add(rs, ShiftLeft(Imm(iw), immshift)))
  }

  /** (x ^ mask) - mask, where rsp_addsub_mask is all ones for a subtraction and zero otherwise. */
  function SignByMask(negate: bool, x: bv32): (r: bv32)
    ensures r == if negate then 0 - x else x
  {
    if negate then (x ^ 0xFFFF_FFFF) - 0xFFFF_FFFF else (x ^ 0) - 0
  }

  function AddOrSubtract(subtract: bool, rs: bv32, rt: bv32): bv32 { Add(rs, SignByMask(subtract, rt)) }

  function AdduSubu(iw: Word, rs: bv32, rt: bv32): Effect {
    Compute(Rd(iw), AddOrSubtract(Bit(Function(iw), 2), rs, rt))
  }

  /** The two conditional moves: the selector is two instruction bits. */
  function SelectLogic(selector: nat, rs: bv32, rt: bv32): bv32 {
    var rand := And(rs, rt);
    var rxor := Xor(rs, rt);
    if selector == 0 then rand else if selector % 2 == 0 then rxor else Add(rand, rxor)
  }

  function AndOrXor(iw: Word, rs: bv32, rt: bv32): Effect {
    Compute(Rd(iw), SelectLogic(Function(iw) % 4, rs, rt))
  }

  /** 67108864 is bit 26 of the word and 201326592 bits 26 and 27. */
  function AndiOriXori(iw: Word, rs: bv32): Effect {
    Compute(Rt(iw), SelectLogic(Primary(iw) % 4, rs, Uimm(iw)))
  }

  function BranchTo(iw: Word, pc: ImemAddress): ImemAddress { ToImem(pc + 4 * Simm(iw) + 4) }

  function BranchIf(taken: bool, iw: Word, pc: ImemAddress): Option<ImemAddress> {
    if taken then Some(BranchTo(iw, pc)) else None
  }

  function BeqBne(iw: Word, rs: bv32, rt: bv32, pc: ImemAddress): Effect {
    var is_ne := Bit(Primary(iw), 1);
    Effect(0, 0, NoRequest, BranchIf((rs == rt) != is_ne, iw, pc))
  }

  function BgezBltz(iw: Word, rs: bv32, pc: ImemAddress): Effect {
    var is_ge := Bit(RtField(iw), 1);
    Effect(0, 0, NoRequest, BranchIf(Negative(rs) != is_ge, iw, pc))
  }

  function BgezalBltzal(iw: Word, rs: bv32, pc: ImemAddress): Effect {
    var is_ge := Bit(RtField(iw), 1);
    Effect(31, LinkValue(pc + 8), NoRequest, BranchIf(Negative(rs) != is_ge, iw, pc))
  }

  function BgtzBlez(iw: Word, rs: bv32, pc: ImemAddress): Effect {
    var is_gt := Bit(Primary(iw), 1);
    var cmp := Negative(rs) || rs == 0;
    Effect(0, 0, NoRequest, BranchIf(cmp != is_gt, iw, pc))
  }

  /** rsp_load_sex_mask. */
  function LoadMask(index: nat): bv32 {
    if index == 4 then 0xFF else if index == 5 then 0xFFFF
    else if index == 2 || index == 6 then 0 else 0xFFFF_FFFF
  }

  /** (3 - size) << 3. */
  function LaneShift(size: nat): ShiftCount {
    if size == 0 then 24 else if size == 1 then 16 else if size == 2 then 8 else 0
  }

  function IntMemRequest(store: bool, index: nat, addr: bv32, rt: bv32): MemRequest {
    var lshiftamt := LaneShift(index % 4);
    IntMem(addr, ShiftLeft(rt, lshiftamt), LoadMask(index),
           And(AllOnes(store), ShiftLeft(0xFFFF_FFFF, lshiftamt)), lshiftamt)
  }

  function IntMemOp(iw: Word, rs: bv32, rt: bv32): Effect {
    var store := Bit(Primary(iw), 8);
    Effect(if store then 0 else Rt(iw), 0, IntMemRequest(store, Primary(iw) % 8, Add(rs, Imm(iw)), rt), None)
  }

  function JJal(iw: Word, pc: ImemAddress): Effect {
    Effect(IfBit(31, Bit(Primary(iw), 1)), LinkValue(ToImem(pc + 8)), NoRequest, Some(ToImem(4 * iw)))
  }

  function JalrJr(iw: Word, rs: bv32, pc: ImemAddress): Effect {
    Effect(IfBit(Rd(iw), Bit(Function(iw), 1)), LinkValue(ToImem(pc + 8)), NoRequest, Some(RegisterToImem(rs)))
  }

  /** The shift count is the sum of the register and the field; the host masks it to five bits. */
  function SllSllv(iw: Word, rs: bv32, rt: bv32): Effect {
    Compute(Rd(iw), ShiftLeft(rt, CountSum(Count5(rs), Sa(iw))))
  }

  function ExecuteShift(op: ShiftOp, iw: Word, rs: bv32, rt: bv32): Effect {
    match op
    case SLL | SLLV => SllSllv(iw, rs, rt)
    case SRL => Compute(Rd(iw), ShiftRight(rt, Sa(iw)))
    case SRLV => Compute(Rd(iw), ShiftRight(rt, Count5(rs)))
    case SRA => Compute(Rd(iw), Asr(rt, Sa(iw)))
    case SRAV => Compute(Rd(iw), Asr(rt, Count5(rs)))
  }

  function ExecuteCompare(op: CompareOp, iw: Word, rs: bv32, rt: bv32): Effect {
    match op
    case SLT => Compute(Rd(iw), SignedLess(rs, rt))
    case SLTI => Compute(Rt(iw), SignedLess(rs, Imm(iw)))
    case SLTU => Compute(Rd(iw), Less(rs, rt))
    case SLTIU => Compute(Rt(iw), Less(rs, Imm(iw)))
  }

  function ExecuteBranch(op: BranchOp, iw: Word, rs: bv32, rt: bv32, pc: ImemAddress): Effect {
    match op
    case BEQ | BNE => BeqBne(iw, rs, rt, pc)
    case BGEZ | BLTZ => BgezBltz(iw, rs, pc)
    case BGEZAL | BLTZAL => BgezalBltzal(iw, rs, pc)
    case BGTZ | BLEZ => BgtzBlez(iw, rs, pc)
  }

  function ExecuteJump(op: JumpOp, iw: Word, rs: bv32, pc: ImemAddress): Effect {
    match op
    case J | JAL => JJal(iw, pc)
    case JR | JALR => JalrJr(iw, rs, pc)
  }

  /** The dispatch through rsp_function_table. */
  function Execute(id: OpId, iw: Word, rs: bv32, rt: bv32, pc: ImemAddress): Effect {
    match id
    case INVALID | Other(_) => Compute(0, 0)
    case NOR => Compute(Rd(iw), Nor(rs, rt))
    case Sum(_) => AdduSubu(iw, rs, rt)
    case SumImm(_) => AddiuLuiSubiu(iw, rs)
    case Logic(_) => AndOrXor(iw, rs, rt)
    case LogicImm(_) => AndiOriXori(iw, rs)
    case Shift(op) => ExecuteShift(op, iw, rs, rt)
    case Compare(op) => ExecuteCompare(op, iw, rs, rt)
    case Branch(op) => ExecuteBranch(op, iw, rs, rt, pc)
    case Jump(op) => ExecuteJump(op, iw, rs, pc)
    case Load(_) | Store(_) => IntMemOp(iw, rs, rt)
  }

  // ----------------------------------------- the DMEM access of the DF stage

  /** dfwb_latch->result after a scalar access. */
  function AccessResult(r: MemRequest, mem: seq<bv8>, result: bv32): bv32
    requires |mem| == 0x2000
  {
    match r
    case NoRequest => result
    case IntMem(addr, data, rdqm, wdqm, rshift) => And(rdqm, Asr(WordAt(mem, DmemOffset(addr)), rshift))
  }

  /** (word & ~wdqm) | (data & wdqm). */
  function Merge(word: bv32, data: bv32, wdqm: bv32): bv32 { (word & !wdqm) | (data & wdqm) }

  /** rsp->mem after a scalar access: always a four-byte read-modify-write. */
  function AccessMem(r: MemRequest, mem: seq<bv8>): (m: seq<bv8>)
    requires |mem| == 0x2000
    ensures |m| == |mem|
  {
    match r
    case NoRequest => mem
    case IntMem(addr, data, rdqm, wdqm, rshift) =>
      var a := DmemOffset(addr);
      WithWordAt(mem, a, Merge(WordAt(mem, a), data, wdqm))
  }

  // -------------------------------------------------- the reference meaning

  function LoadSize(op: LoadOp): nat {
    match op
    case LB | LBU => 1
    case LH | LHU => 2
    case LW => 4
  }

  function StoreSize(op: StoreOp): nat {
    match op
    case SB => 1
    case SH => 2
    case SW => 4
  }

  function Address(iw: Word, rs: bv32): nat { DmemOffset(Add(rs, Imm(iw))) }

  /** The access, if any, stays inside DMEM. */
  predicate InsideDmem(id: OpId, iw: Word, rs: bv32) {
    match id
    case Load(op) => Address(iw, rs) + LoadSize(op) <= 0x1000
    case Store(op) => Address(iw, rs) + StoreSize(op) <= 0x1000
    case _ => true
  }

  function SignByte(b: bv8): bv32 { if b & 0x80 == 0 then b as bv32 else b as bv32 | 0xFFFF_FF00 }

  function Half(hi: bv8, lo: bv8): bv32 { (hi as bv32 << 8) | lo as bv32 }

  function SignHalf(hi: bv8, lo: bv8): bv32 { (SignByte(hi) << 8) | lo as bv32 }

  /** The value a load delivers. */
  function RefLoad(op: LoadOp, dmem: seq<bv8>, a: nat): bv32
    requires a + LoadSize(op) <= |dmem|
  {
    match op
    case LB => SignByte(dmem[a])
    case LBU => dmem[a] as bv32
    case LH => SignHalf(dmem[a], dmem[a + 1])
    case LHU => Half(dmem[a], dmem[a + 1])
    case LW => WordAt(dmem, a)
  }

  /** DMEM after a store of the low bytes of `rt` at `a`, most significant byte first. */
  function RefStore(op: StoreOp, rt: bv32, dmem: seq<bv8>, a: nat): (d: seq<bv8>)
    requires a + StoreSize(op) <= |dmem|
    ensures |d| == |dmem|
  {
    match op
    case SB => dmem[a := ByteOf(rt, 3)]
    case SH => dmem[a := ByteOf(rt, 2)][a + 1 := ByteOf(rt, 3)]
    case SW => WithWordAt(dmem, a, rt)
  }

  /** A sum of integers, modulo 2^32. */
  function RefSum(op: SumOp, rs: bv32, rt: bv32): bv32 {
    match op case ADDU => WordOfInt(Value(rs) + Value(rt)) case SUBU => WordOfInt(Value(rs) - Value(rt))
  }

  /** The immediate of LUI in the upper half. */
  function Upper(iw: Word): nat { 0x1_0000 * (iw % 0x1_0000) }

  /** LUI goes through the adder of ADDIU, so it adds the register that its rs field names. */
  function RefSumImm(op: SumImmOp, iw: Word, rs: bv32): bv32 {
    match op case ADDIU => WordOfInt(Value(rs) + Simm(iw)) case LUI => WordOfInt(Value(rs) + Upper(iw))
  }

  function RefLogic(op: LogicOp, rs: bv32, rt: bv32): bv32 {
    match op case AND => And(rs, rt) case OR => Or(rs, rt) case XOR => Xor(rs, rt)
  }

  function RefLogicImm(op: LogicImmOp, rs: bv32, imm: bv32): bv32 {
    match op case ANDI => And(rs, imm) case ORI => Or(rs, imm) case XORI => Xor(rs, imm)
  }

  function RefNor(rs: bv32, rt: bv32): bv32 { WordOfInt(WORD_SPAN - 1 - Value(Or(rs, rt))) }

  /** A shift by n places: a product, a quotient, or the floor of a signed quotient. */
  function Shifted(op: ShiftOp, n: nat, rt: bv32): bv32 {
    match op
    case SLL | SLLV => WordOfInt(Value(rt) * Pow2(n))
    case SRL | SRLV => WordOfInt(Value(rt) / Pow2(n))
    case SRA | SRAV => WordOfInt(SignedValue(rt) / Pow2(n))
  }

  function SaField(iw: Word): (n: nat) ensures n < 32 { (iw / 64) % 32 }

  /** The places of the instruction set: the field, or the register modulo 32. */
  function MipsPlaces(op: ShiftOp, iw: Word, rs: bv32): nat {
    if op in {SLL, SRL, SRA} then SaField(iw) else Value(rs) % 32
  }

  /** The places of the source: one function serves SLL and SLLV and adds the two. */
  function Places(op: ShiftOp, iw: Word, rs: bv32): nat {
    if op in {SLL, SLLV} then (Value(rs) % 32 + SaField(iw)) % 32 else MipsPlaces(op, iw, rs)
  }

  function Flag(b: bool): bv32 { if b then 1 else 0 }

  /** The comparisons compare integers. */
  function RefCompare(op: CompareOp, iw: Word, rs: bv32, rt: bv32): (Register, bv32) {
    match op
    case SLT => (Rd(iw), Flag(SignedValue(rs) < SignedValue(rt)))
    case SLTI => (Rt(iw), Flag(SignedValue(rs) < Simm(iw)))
    case SLTU => (Rd(iw), Flag(Value(rs) < Value(rt)))
    case SLTIU => (Rt(iw), Flag(Value(rs) < Simm(iw) % WORD_SPAN))
  }

  predicate RefTaken(op: BranchOp, rs: bv32, rt: bv32) {
    match op
    case BEQ => rs == rt
    case BNE => rs != rt
    case BGEZ | BGEZAL => SignedValue(rs) >= 0
    case BLTZ | BLTZAL => SignedValue(rs) < 0
    case BGTZ => SignedValue(rs) > 0
    case BLEZ => SignedValue(rs) <= 0
  }

  function RefJumpLink(op: JumpOp, iw: Word, pc: ImemAddress): Option<(Register, bv32)> {
    match op
    case JAL => Some((31, LinkValue(ToImem(pc + 8))))
    case JALR => Some((Rd(iw), LinkValue(ToImem(pc + 8))))
    case _ => None
  }

  /** The register an instruction writes and the value it writes there.  The
      conditional links keep all 32 bits of pc + 8. */
  function RefWrite(id: OpId, iw: Word, rs: bv32, rt: bv32, pc: ImemAddress, dmem: seq<bv8>): Option<(Register, bv32)>
    requires |dmem| == 0x1000 && InsideDmem(id, iw, rs)
  {
    match id
    case INVALID | Other(_) | Store(_) => None
    case NOR => Some((Rd(iw), RefNor(rs, rt)))
    case Sum(op) => Some((Rd(iw), RefSum(op, rs, rt)))
    case SumImm(op) => Some((Rt(iw), RefSumImm(op, iw, rs)))
    case Logic(op) => Some((Rd(iw), RefLogic(op, rs, rt)))
    case LogicImm(op) => Some((Rt(iw), RefLogicImm(op, rs, Uimm(iw))))
    case Shift(op) => Some((Rd(iw), Shifted(op, Places(op, iw, rs), rt)))
    case Compare(op) => Some(RefCompare(op, iw, rs, rt))
    case Branch(op) => if op in {BGEZAL, BLTZAL} then Some((31, LinkValue(pc + 8))) else None
    case Jump(op) => RefJumpLink(op, iw, pc)
    case Load(op) => Some((Rt(iw), RefLoad(op, dmem, Address(iw, rs))))
  }

  /** What the instruction set writes: LUI takes no register, and a shift counts
      either by its field or by its register. */
  function MipsWrite(id: OpId, iw: Word, rs: bv32, rt: bv32, pc: ImemAddress, dmem: seq<bv8>): Option<(Register, bv32)>
    requires |dmem| == 0x1000 && InsideDmem(id, iw, rs)
  {
    match id
    case SumImm(LUI) => Some((Rt(iw), WordOfInt(Upper(iw))))
    case Shift(op) => Some((Rd(iw), Shifted(op, MipsPlaces(op, iw, rs), rt)))
    case _ => RefWrite(id, iw, rs, rt, pc, dmem)
  }

  /** What the unused field of the three opcodes must contribute: nothing. */
  predicate Regular(id: OpId, iw: Word, rs: bv32) {
    match id
    case SumImm(LUI) => rs == 0
    case Shift(SLL) => Value(rs) % 32 == 0
    case Shift(SLLV) => SaField(iw) == 0
    case _ => true
  }

  /** DMEM after an instruction. */
  function RefDmem(id: OpId, iw: Word, rs: bv32, rt: bv32, dmem: seq<bv8>): (d: seq<bv8>)
    requires |dmem| == 0x1000 && InsideDmem(id, iw, rs)
    ensures |d| == |dmem|
  {
    if id.Store? then RefStore(id.store, rt, dmem, Address(iw, rs)) else dmem
  }

  /** Where a taken branch or jump continues after its delay slot. */
  function RefTarget(id: OpId, iw: Word, rs: bv32, rt: bv32, pc: ImemAddress): Option<ImemAddress> {
    match id
    case Branch(op) => if RefTaken(op, rs, rt) then Some(ToImem(pc + 4 + 4 * Simm(iw))) else None
    case Jump(op) => Some(if op in {J, JAL} then ToImem(4 * iw) else RegisterToImem(rs))
    case _ => None
  }

  /** A register file after a write; register 0 keeps reading zero. */
  function Commit(regs: seq<bv32>, w: Option<(Register, bv32)>): (r: seq<bv32>)
    requires |regs| == 32
    ensures |r| == 32
  {
    if w.None? then regs[0 := 0] else regs[w.value.0 := w.value.1][0 := 0]
  }

  // ------------------------------- the execution functions meet the reference

  function LogicSelector(op: LogicOp): nat { match op case AND => 0 case OR => 1 case XOR => 2 }

  function LoadIndex(op: LoadOp): nat { match op case LB => 0 case LH => 1 case LW => 3 case LBU => 4 case LHU => 5 }

  function StoreIndex(op: StoreOp): nat { match op case SB => 0 case SH => 1 case SW => 3 }

  /** The instruction bits by which an execution function tells its opcodes
      apart: f, r and p are the function, rt and primary opcode fields. */
  predicate EncodesIn(id: OpId, f: nat, r: nat, p: nat) {
    match id
    case Sum(op) => Bit(f, 2) == (op == SUBU)
    case SumImm(op) => Bit(p, 4) == (op == LUI)
    case Logic(op) => f % 4 == LogicSelector(op)
    case LogicImm(op) => p % 4 == (match op case ANDI => 0 case ORI => 1 case XORI => 2)
    case Branch(op) =>
      if op in {BEQ, BNE, BLEZ, BGTZ} then Bit(p, 1) == (op in {BNE, BGTZ}) else Bit(r, 1) == (op in {BGEZ, BGEZAL})
    case Jump(op) => if op in {J, JAL} then Bit(p, 1) == (op == JAL) else Bit(f, 1) == (op == JALR)
    case Load(op) => !Bit(p, 8) && p % 8 == LoadIndex(op)
    case Store(op) => Bit(p, 8) && p % 8 == StoreIndex(op)
    case _ => true
  }

  predicate Encodes(id: OpId, iw: Word) { EncodesIn(id, Function(iw), RtField(iw), Primary(iw)) }

  lemma SpecialEncodes(f: nat, r: nat, p: nat)
    requires f < 64
    ensures EncodesIn(SpecialOp(f), f, r, p)
  {
  }

  lemma RegImmEncodes(f: nat, r: nat, p: nat)
    requires r < 32
    ensures EncodesIn(RegImmOp(r), f, r, p)
  {
  }

  lemma PrimaryEncodes(f: nat, r: nat, p: nat)
    requires p < 64
    ensures EncodesIn(PrimaryOp(p), f, r, p)
  {
  }

  /** Decoding selects an opcode whose bits the word carries. */
  lemma DecodeEncodes(iw: Word)
    ensures Encodes(DecodeId(iw), iw)
  {
    hide EncodesIn, SpecialOp, RegImmOp, PrimaryOp;
    var f, r, p := Function(iw), RtField(iw), Primary(iw);
    SpecialEncodes(f, r, p);
    RegImmEncodes(f, r, p);
    PrimaryEncodes(f, r, p);
    if DecodeId(iw).Other? {
      OtherEncodes(DecodeId(iw), f, r, p);
    }
    OtherEncodes(INVALID, f, r, p);
  }

  lemma OtherEncodes(id: OpId, f: nat, r: nat, p: nat)
    requires id == INVALID || id.Other?
    ensures EncodesIn(id, f, r, p)
  {
  }

  // (x ^ mask) - mask negates under the all-ones mask.
  lemma AddNegated(rs: bv32, rt: bv32, negated: bv32)
    requires negated == 0 - rt
    ensures Add(rs, negated) == Subtract(rs, rt)
  {
  }

  lemma SumMeets(op: SumOp, rs: bv32, rt: bv32)
    ensures AddOrSubtract(op == SUBU, rs, rt) == RefSum(op, rs, rt)
  {
    hide SignByMask, Add, Subtract, Value, WordOfInt;
    if op == SUBU {
      AddNegated(rs, rt, SignByMask(true, rt));
      SubtractValue(rs, rt);
    } else {
      AddValue(rs, rt);
    }
  }

  lemma UpperIsShift(iw: Word)
    ensures Value(ShiftLeft(Imm(iw), 16)) == Upper(iw) && ShiftLeft(Imm(iw), 0) == Imm(iw)
  {
    hide Value, WordOfInt, ShiftLeft, Scaled;
    ShiftLeftValue(Imm(iw), 16);
    ByNothing(Imm(iw));
    SixteenPlaces();
    ValueOfWord(Simm(iw));
    UpperHalf(Simm(iw), iw % 0x1_0000);
  }

  lemma UpperHalf(v: int, u: nat)
    requires u < 0x1_0000 && (v == u || v == u - 0x1_0000)
    ensures Scaled(v % WORD_SPAN, 0x1_0000) == 0x1_0000 * u
  {
    if v < 0 {
      assert v % WORD_SPAN == u + 0xFFFF_0000;
      assert (u + 0xFFFF_0000) * 0x1_0000 == 0x1_0000 * u + WORD_SPAN * 0xFFFF;
    }
  }

  lemma SumImmMeets(op: SumImmOp, iw: Word, rs: bv32)
    ensures Add(rs, ShiftLeft(Imm(iw), if op == LUI then 16 else 0)) == RefSumImm(op, iw, rs)
  {
    hide ShiftLeft, Add, Value, WordOfInt;
    UpperIsShift(iw);
    match op {
      case LUI => AddValue(rs, ShiftLeft(Imm(iw), 16));
      case ADDIU =>
        AddValue(rs, Imm(iw));
        ValueOfWord(Simm(iw));
        SumOfValue(Value(rs), Simm(iw));
        SameWordOf(Value(rs) + Value(Imm(iw)), Value(rs) + Simm(iw));
    }
  }

  lemma SumOfValue(a: nat, v: int)
    ensures (a + v % WORD_SPAN) % WORD_SPAN == (a + v) % WORD_SPAN
  {
  }

  lemma NorMeansComplement(rs: bv32, rt: bv32)
    ensures Nor(rs, rt) == RefNor(rs, rt)
  {
    hide Value, WordOfInt, Or;
    ComplementValue(Or(rs, rt));
    NorIsComplement(rs, rt);
  }

  lemma NorIsComplement(rs: bv32, rt: bv32)
    ensures Nor(rs, rt) == !Or(rs, rt)
  {
  }

  /** The shifts of words by n < 32 places. */
  lemma ShiftedLeft(n: ShiftCount, rt: bv32)
    ensures ShiftLeft(rt, n) == Shifted(SLL, Value(n), rt) == Shifted(SLLV, Value(n), rt)
  {
    hide ShiftLeft, Value, WordOfInt, Pow2;
    ShiftLeftValue(rt, n);
    WordIs(ShiftLeft(rt, n), Value(rt) * Pow2(Value(n)));
  }

  lemma ShiftedRight(n: ShiftCount, rt: bv32)
    ensures ShiftRight(rt, n) == Shifted(SRL, Value(n), rt) == Shifted(SRLV, Value(n), rt)
  {
    hide ShiftRight, Value, WordOfInt, Pow2;
    ShiftRightValue(rt, n);
    WordOfValue(ShiftRight(rt, n));
  }

  lemma ShiftedArithmetic(n: ShiftCount, rt: bv32)
    ensures Asr(rt, n) == Shifted(SRA, Value(n), rt) == Shifted(SRAV, Value(n), rt)
  {
    hide Asr, Value, SignedValue, WordOfInt, Pow2;
    AsrValue(rt, n);
    WordOfSigned(Asr(rt, n));
  }

  lemma PlacesAre(op: ShiftOp, iw: Word, rs: bv32)
    ensures Value(Sa(iw)) == SaField(iw) && Value(Count5(rs)) == Value(rs) % 32
    ensures Value(CountSum(Count5(rs), Sa(iw))) == Places(SLL, iw, rs)
  {
    hide Value, WordOfInt, Count5, CountSum;
    Count5Value(rs);
    Count5Value(WordOfInt(iw / 64));
    ValueOfWord(iw / 64);
    CountSumValue(Count5(rs), Sa(iw));
  }

  lemma ShiftComputes(op: ShiftOp, iw: Word, rs: bv32, rt: bv32)
    ensures ExecuteShift(op, iw, rs, rt) == Compute(Rd(iw), Shifted(op, Places(op, iw, rs), rt))
  {
    hide ShiftLeft, ShiftRight, Asr, Value, WordOfInt, Count5, CountSum, Sa, Rd, Shifted;
    PlacesAre(op, iw, rs);
    match op
    case SLL | SLLV => ShiftedLeft(CountSum(Count5(rs), Sa(iw)), rt);
    case SRL => ShiftedRight(Sa(iw), rt);
    case SRLV => ShiftedRight(Count5(rs), rt);
    case SRA => ShiftedArithmetic(Sa(iw), rt);
    case SRAV => ShiftedArithmetic(Count5(rs), rt);
  }

  lemma CompareComputes(op: CompareOp, iw: Word, rs: bv32, rt: bv32)
    ensures ExecuteCompare(op, iw, rs, rt) == Compute(RefCompare(op, iw, rs, rt).0, RefCompare(op, iw, rs, rt).1)
  {
    hide Less, SignedLess, Value, WordOfInt, Rt, Rd;
    LessMeans(rs, rt);
    LessMeans(rs, Imm(iw));
    ValueOfWord(Simm(iw));
  }

  /** The sign bit and the test for zero decide the branches on one register. */
  lemma SignTests(rs: bv32)
    ensures Negative(rs) <==> SignedValue(rs) < 0
    ensures rs == 0 <==> SignedValue(rs) == 0
  {
    hide Value, Negative, WordOfInt;
    NegativeValue(rs);
    ZeroValue();
    WordOfValue(rs);
    WordOfValue(0);
  }

  // Words without a common bit add without a carry.
  lemma CarryFree(x: bv32, y: bv32)
    requires x & y == 0
    ensures Add(x, y) == x | y
  {
  }

  // The conjunction and the exclusive or never carry into one another.
  lemma OrAsSum(a: bv32, b: bv32)
    ensures Add(And(a, b), Xor(a, b)) == Or(a, b)
  {
    hide Add;
    CarryFree(a & b, a ^ b);
  }

  lemma LogicMeets(op: LogicOp, rs: bv32, rt: bv32)
    ensures SelectLogic(LogicSelector(op), rs, rt) == RefLogic(op, rs, rt)
  {
    hide And, Or, Xor, Add;
    OrAsSum(rs, rt);
  }

  lemma LogicImmMeets(op: LogicImmOp, rs: bv32, imm: bv32)
    ensures SelectLogic(match op case ANDI => 0 case ORI => 1 case XORI => 2, rs, imm) == RefLogicImm(op, rs, imm)
  {
    hide And, Or, Xor, Add;
    OrAsSum(rs, imm);
  }

  // Shifting a big-endian word right isolates its leading bytes, signed.
  lemma LoadedByte(b0: bv8, b1: bv8, b2: bv8, b3: bv8)
    ensures And(0xFF, Asr(WordOf(b0, b1, b2, b3), 24)) == b0 as bv32
  {
  }

  lemma LoadedSignedByte(b0: bv8, b1: bv8, b2: bv8, b3: bv8)
    ensures And(0xFFFF_FFFF, Asr(WordOf(b0, b1, b2, b3), 24)) == SignByte(b0)
  {
  }

  lemma LoadedHalf(b0: bv8, b1: bv8, b2: bv8, b3: bv8)
    ensures And(0xFFFF, Asr(WordOf(b0, b1, b2, b3), 16)) == Half(b0, b1)
  {
  }

  lemma LoadedSignedHalf(b0: bv8, b1: bv8, b2: bv8, b3: bv8)
    ensures And(0xFFFF_FFFF, Asr(WordOf(b0, b1, b2, b3), 16)) == SignHalf(b0, b1)
  {
  }

  lemma LoadedWord(w: bv32)
    ensures And(0xFFFF_FFFF, Asr(w, 0)) == w
  {
  }

  // A load merges under an empty mask.
  lemma LoadKeepsWord(w: bv32, data: bv32, mask: bv32)
    ensures Merge(w, data, And(0, mask)) == w
  {
  }

  lemma BytesOfWord(b0: bv8, b1: bv8, b2: bv8, b3: bv8)
    ensures var w := WordOf(b0, b1, b2, b3);
      ByteOf(w, 0) == b0 && ByteOf(w, 1) == b1 && ByteOf(w, 2) == b2 && ByteOf(w, 3) == b3
  {
  }

  function StoreWord(w: bv32, rt: bv32, n: ShiftCount): bv32 {
    Merge(w, ShiftLeft(rt, n), And(0xFFFF_FFFF, ShiftLeft(0xFFFF_FFFF, n)))
  }

  // Merging a left-shifted value under a left-shifted mask replaces the leading bytes.
  lemma StoredWord(w: bv32, rt: bv32)
    ensures StoreWord(w, rt, 0) == rt
  {
  }

  lemma StoredHalf(b0: bv8, b1: bv8, b2: bv8, b3: bv8, rt: bv32)
    ensures var m := StoreWord(WordOf(b0, b1, b2, b3), rt, 16);
      ByteOf(m, 0) == ByteOf(rt, 2) && ByteOf(m, 1) == ByteOf(rt, 3) && ByteOf(m, 2) == b2 && ByteOf(m, 3) == b3
  {
  }

  lemma StoredByte(b0: bv8, b1: bv8, b2: bv8, b3: bv8, rt: bv32)
    ensures var m := StoreWord(WordOf(b0, b1, b2, b3), rt, 24);
      ByteOf(m, 0) == ByteOf(rt, 3) && ByteOf(m, 1) == b1 && ByteOf(m, 2) == b2 && ByteOf(m, 3) == b3
  {
  }

  lemma LoadedValue(op: LoadOp, b0: bv8, b1: bv8, b2: bv8, b3: bv8)
    ensures And(LoadMask(LoadIndex(op)), Asr(WordOf(b0, b1, b2, b3), LaneShift(LoadIndex(op) % 4))) ==
      match op
      case LB => SignByte(b0)
      case LBU => b0 as bv32
      case LH => SignHalf(b0, b1)
      case LHU => Half(b0, b1)
      case LW => WordOf(b0, b1, b2, b3)
  {
    hide And, Asr, WordOf, SignByte, SignHalf, Half;
    match op
    case LB => LoadedSignedByte(b0, b1, b2, b3);
    case LBU => LoadedByte(b0, b1, b2, b3);
    case LH => LoadedSignedHalf(b0, b1, b2, b3);
    case LHU => LoadedHalf(b0, b1, b2, b3);
    case LW => LoadedWord(WordOf(b0, b1, b2, b3));
  }

  lemma RewriteKeepsMem(mem: seq<bv8>, a: nat)
    requires a + 4 <= |mem|
    ensures WithWordAt(mem, a, WordAt(mem, a)) == mem
  {
    hide WordOf, ByteOf;
    BytesOfWord(mem[a], mem[a + 1], mem[a + 2], mem[a + 3]);
  }

  /** A scalar load through the DF stage delivers the reference value and changes nothing. */
  lemma LoadMeets(op: LoadOp, mem: seq<bv8>, addr: bv32, rt: bv32)
    requires |mem| == 0x2000 && DmemOffset(addr) + LoadSize(op) <= 0x1000
    ensures var r := IntMemRequest(false, LoadIndex(op), addr, rt);
      && AccessResult(r, mem, 0) == RefLoad(op, mem[..0x1000], DmemOffset(addr))
      && AccessMem(r, mem) == mem
  {
    hide And, Asr, WordOf, SignByte, SignHalf, Half, Merge, ByteOf, DmemOffset, ShiftLeft, LaneShift, LoadMask, WithWordAt;
    var a := DmemOffset(addr);
    var n := LaneShift(LoadIndex(op) % 4);
    LoadedValue(op, mem[a], mem[a + 1], mem[a + 2], mem[a + 3]);
    LoadKeepsWord(WordAt(mem, a), ShiftLeft(rt, n), ShiftLeft(0xFFFF_FFFF, n));
    RewriteKeepsMem(mem, a);
  }

  /** The byte k of the merged word: the stored bytes come first. */
  lemma StoredBytes(op: StoreOp, b0: bv8, b1: bv8, b2: bv8, b3: bv8, rt: bv32)
    ensures var m := StoreWord(WordOf(b0, b1, b2, b3), rt, LaneShift(StoreIndex(op) % 4));
      match op
      case SB => ByteOf(m, 0) == ByteOf(rt, 3) && ByteOf(m, 1) == b1 && ByteOf(m, 2) == b2 && ByteOf(m, 3) == b3
      case SH => ByteOf(m, 0) == ByteOf(rt, 2) && ByteOf(m, 1) == ByteOf(rt, 3) && ByteOf(m, 2) == b2 && ByteOf(m, 3) == b3
      case SW => m == rt
  {
    hide StoreWord, WordOf, ByteOf;
    match op
    case SB => StoredByte(b0, b1, b2, b3, rt);
    case SH => StoredHalf(b0, b1, b2, b3, rt);
    case SW => StoredWord(WordOf(b0, b1, b2, b3), rt);
  }

  lemma StoredMem(op: StoreOp, mem: seq<bv8>, a: nat, rt: bv32)
    requires |mem| == 0x2000 && a + StoreSize(op) <= 0x1000
    ensures WithWordAt(mem, a, StoreWord(WordAt(mem, a), rt, LaneShift(StoreIndex(op) % 4))) ==
      RefStore(op, rt, mem[..0x1000], a) + mem[0x1000..]
  {
    hide StoreWord, WordOf, ByteOf, LaneShift;
    StoredBytes(op, mem[a], mem[a + 1], mem[a + 2], mem[a + 3], rt);
  }

  /** A scalar store through the DF stage is the reference store, and leaves IMEM alone. */
  lemma StoreMeets(op: StoreOp, mem: seq<bv8>, addr: bv32, rt: bv32)
    requires |mem| == 0x2000 && DmemOffset(addr) + StoreSize(op) <= 0x1000
    ensures AccessMem(IntMemRequest(true, StoreIndex(op), addr, rt), mem) ==
      RefStore(op, rt, mem[..0x1000], DmemOffset(addr)) + mem[0x1000..]
  {
    hide And, WordAt, Merge, DmemOffset, ShiftLeft, LaneShift, WithWordAt, RefStore, LoadMask;
    StoredMem(op, mem, DmemOffset(addr), rt);
  }

  /** The effect's register write is `w`; a write of register 0 is no write. */
  predicate SameWrite(d: Register, v: bv32, w: Option<(Register, bv32)>) {
    if w.None? then d == 0 else w.value == (d, v)
  }

  /** An effect, carried through the DF stage, is what the reference says: the
      write of the register file, the whole memory, and the branch target. */
  predicate Meets(e: Effect, id: OpId, iw: Word, rs: bv32, rt: bv32, pc: ImemAddress, mem: seq<bv8>)
    requires |mem| == 0x2000 && InsideDmem(id, iw, rs)
  {
    var dmem := mem[..0x1000];
    && e.target == RefTarget(id, iw, rs, rt, pc)
    && SameWrite(e.dest, AccessResult(e.request, mem, e.result), RefWrite(id, iw, rs, rt, pc, dmem))
    && AccessMem(e.request, mem) == RefDmem(id, iw, rs, rt, dmem) + mem[0x1000..]
  }

  /** An instruction that only computes a register value. */
  lemma ComputedMeets(id: OpId, iw: Word, rs: bv32, rt: bv32, pc: ImemAddress, mem: seq<bv8>, d: Register, v: bv32)
    requires |mem| == 0x2000 && !id.Store? && !id.Load? && !id.Branch? && !id.Jump?
    requires RefWrite(id, iw, rs, rt, pc, mem[..0x1000]) == Some((d, v))
    ensures Meets(Compute(d, v), id, iw, rs, rt, pc, mem)
  {
    hide RefWrite;
    assert mem == mem[..0x1000] + mem[0x1000..];
  }

  lemma SumFamilyMeets(id: OpId, iw: Word, rs: bv32, rt: bv32, pc: ImemAddress, mem: seq<bv8>)
    requires |mem| == 0x2000 && Encodes(id, iw) && (id.Sum? || id.SumImm?)
    ensures Meets(Execute(id, iw, rs, rt, pc), id, iw, rs, rt, pc, mem)
  {
    var e := Execute(id, iw, rs, rt, pc);
    match id {
      case Sum(op) => SumMeets(op, rs, rt);
      case SumImm(op) => SumImmMeets(op, iw, rs);
    }
    hide Add, ShiftLeft, Imm, Rt, Rd, AddOrSubtract, RefSum, RefSumImm, Primary, Function, RtField, Meets;
    ComputedMeets(id, iw, rs, rt, pc, mem, e.dest, e.result);
  }

  lemma LogicFamilyMeets(id: OpId, iw: Word, rs: bv32, rt: bv32, pc: ImemAddress, mem: seq<bv8>)
    requires |mem| == 0x2000 && Encodes(id, iw) && (id.Logic? || id.LogicImm?)
    ensures Meets(Execute(id, iw, rs, rt, pc), id, iw, rs, rt, pc, mem)
  {
    var e := Execute(id, iw, rs, rt, pc);
    match id {
      case Logic(op) => LogicMeets(op, rs, rt);
      case LogicImm(op) => LogicImmMeets(op, rs, Uimm(iw));
    }
    hide And, Or, Xor, Uimm, Rt, Rd, SelectLogic, RefLogic, RefLogicImm, Primary, Function, RtField, Meets;
    ComputedMeets(id, iw, rs, rt, pc, mem, e.dest, e.result);
  }

  lemma NorMeets(iw: Word, rs: bv32, rt: bv32, pc: ImemAddress, mem: seq<bv8>)
    requires |mem| == 0x2000
    ensures Meets(Execute(NOR, iw, rs, rt, pc), NOR, iw, rs, rt, pc, mem)
  {
    hide Nor, RefNor, Rd, Meets;
    NorMeansComplement(rs, rt);
    ComputedMeets(NOR, iw, rs, rt, pc, mem, Rd(iw), Nor(rs, rt));
  }

  lemma ShiftMeets(op: ShiftOp, iw: Word, rs: bv32, rt: bv32, pc: ImemAddress, mem: seq<bv8>)
    requires |mem| == 0x2000
    ensures Meets(Execute(Shift(op), iw, rs, rt, pc), Shift(op), iw, rs, rt, pc, mem)
  {
    hide ExecuteShift, Shifted, Places, Rt, Rd, Meets;
    ShiftComputes(op, iw, rs, rt);
    ComputedMeets(Shift(op), iw, rs, rt, pc, mem, Rd(iw), Shifted(op, Places(op, iw, rs), rt));
  }

  lemma CompareMeets(op: CompareOp, iw: Word, rs: bv32, rt: bv32, pc: ImemAddress, mem: seq<bv8>)
    requires |mem| == 0x2000
    ensures Meets(Execute(Compare(op), iw, rs, rt, pc), Compare(op), iw, rs, rt, pc, mem)
  {
    hide ExecuteCompare, RefCompare, Rt, Rd, Meets;
    CompareComputes(op, iw, rs, rt);
    var (d, v) := RefCompare(op, iw, rs, rt);
    ComputedMeets(Compare(op), iw, rs, rt, pc, mem, d, v);
  }

  lemma BranchMeets(op: BranchOp, iw: Word, rs: bv32, rt: bv32, pc: ImemAddress, mem: seq<bv8>)
    requires |mem| == 0x2000 && Encodes(Branch(op), iw)
    ensures Meets(Execute(Branch(op), iw, rs, rt, pc), Branch(op), iw, rs, rt, pc, mem)
  {
    hide LinkValue, Negative, SignedValue, Primary, Function, RtField;
    SignTests(rs);
    assert mem == mem[..0x1000] + mem[0x1000..];
  }

  lemma JumpMeets(op: JumpOp, iw: Word, rs: bv32, rt: bv32, pc: ImemAddress, mem: seq<bv8>)
    requires |mem| == 0x2000 && Encodes(Jump(op), iw)
    ensures Meets(Execute(Jump(op), iw, rs, rt, pc), Jump(op), iw, rs, rt, pc, mem)
  {
    hide LinkValue, RegisterToImem, Primary, Function, RtField, Rd;
    assert mem == mem[..0x1000] + mem[0x1000..];
  }

  lemma AccessMeets(id: OpId, iw: Word, rs: bv32, rt: bv32, pc: ImemAddress, mem: seq<bv8>)
    requires |mem| == 0x2000 && Encodes(id, iw) && (id.Load? || id.Store?) && InsideDmem(id, iw, rs)
    ensures Meets(Execute(id, iw, rs, rt, pc), id, iw, rs, rt, pc, mem)
  {
    hide Add, Imm, Rt, Primary, Function, RtField, DmemOffset, AccessResult, AccessMem, RefLoad, RefStore, IntMemRequest;
    assert mem == mem[..0x1000] + mem[0x1000..];
    var addr := Add(rs, Imm(iw));
    match id {
      case Load(op) => LoadMeets(op, mem, addr, rt);
      case Store(op) => StoreMeets(op, mem, addr, rt);
    }
  }

  lemma InvalidMeets(iw: Word, rs: bv32, rt: bv32, pc: ImemAddress, mem: seq<bv8>)
    requires |mem| == 0x2000
    ensures Meets(Execute(INVALID, iw, rs, rt, pc), INVALID, iw, rs, rt, pc, mem)
  {
    assert mem == mem[..0x1000] + mem[0x1000..];
  }

  /** Every scalar instruction does what the reference says. */
  lemma ExecuteMeetsReference(iw: Word, rs: bv32, rt: bv32, pc: ImemAddress, mem: seq<bv8>)
    requires |mem| == 0x2000
    requires Scalar(DecodeId(iw)) && InsideDmem(DecodeId(iw), iw, rs)
    ensures Meets(Execute(DecodeId(iw), iw, rs, rt, pc), DecodeId(iw), iw, rs, rt, pc, mem)
  {
    hide Meets, DecodeId, Encodes, Execute, InsideDmem;
    var id := DecodeId(iw);
    DecodeEncodes(iw);
    match id {
      case INVALID => InvalidMeets(iw, rs, rt, pc, mem);
      case Sum(_) | SumImm(_) => SumFamilyMeets(id, iw, rs, rt, pc, mem);
      case Logic(_) | LogicImm(_) => LogicFamilyMeets(id, iw, rs, rt, pc, mem);
      case NOR => NorMeets(iw, rs, rt, pc, mem);
      case Shift(op) => ShiftMeets(op, iw, rs, rt, pc, mem);
      case Compare(op) => CompareMeets(op, iw, rs, rt, pc, mem);
      case Branch(op) => BranchMeets(op, iw, rs, rt, pc, mem);
      case Jump(op) => JumpMeets(op, iw, rs, rt, pc, mem);
      case Load(_) | Store(_) => AccessMeets(id, iw, rs, rt, pc, mem);
    }
  }

  // ------------------------------- where the source leaves the instruction set

  lemma PlacesRegular(op: ShiftOp, iw: Word, rs: bv32)
    ensures Places(op, iw, rs) == MipsPlaces(op, iw, rs) <==> Regular(Shift(op), iw, rs)
    ensures Places(op, iw, rs) < 32 && MipsPlaces(op, iw, rs) < 32
  {
    hide Value;
  }

  /** Shifting 1 tells the places apart. */
  lemma ShiftedOne(op: ShiftOp, m: nat, n: nat)
    requires op in {SLL, SLLV} && m < n < 32
    ensures Shifted(op, m, 1) != Shifted(op, n, 1)
  {
    hide Value, WordOfInt, Pow2;
    OneValue();
    SpanIsPower();
    PowersDiffer(m, n);
    PowersDiffer(n, 32);
    SameWordOf(Pow2(m), Pow2(n));
  }

  lemma ShiftIsMips(op: ShiftOp, iw: Word, rs: bv32, rt: bv32)
    ensures Regular(Shift(op), iw, rs) ==> Shifted(op, Places(op, iw, rs), rt) == Shifted(op, MipsPlaces(op, iw, rs), rt)
    ensures !Regular(Shift(op), iw, rs) ==> Shifted(op, Places(op, iw, rs), 1) != Shifted(op, MipsPlaces(op, iw, rs), 1)
  {
    PlacesRegular(op, iw, rs);
    if !Regular(Shift(op), iw, rs) {
      var m, n := Places(op, iw, rs), MipsPlaces(op, iw, rs);
      hide Places, MipsPlaces, Shifted;
      if m < n {
        ShiftedOne(op, m, n);
      } else {
        ShiftedOne(op, n, m);
      }
    }
  }

  lemma LuiIsMips(iw: Word, rs: bv32)
    ensures RefSumImm(LUI, iw, rs) == WordOfInt(Upper(iw)) <==> rs == 0
  {
    hide Value, WordOfInt;
    ZeroValue();
    WordOfValue(rs);
    WordOfValue(0);
    SameWordOf(Value(rs) + Upper(iw), Upper(iw));
    if Value(rs) != 0 {
      NotCongruent(Value(rs), Upper(iw));
    }
  }

  lemma NotCongruent(d: nat, u: int)
    requires 0 < d < WORD_SPAN
    ensures (d + u) % WORD_SPAN != u % WORD_SPAN
  {
  }

  /** The source writes what the instruction set does, whatever rt holds, exactly
      for regular operands: SLL with a register field that counts nothing, SLLV
      with a zero field, and LUI with a zero register. */
  lemma MipsExactly(id: OpId, iw: Word, rs: bv32, pc: ImemAddress, dmem: seq<bv8>)
    requires |dmem| == 0x1000 && InsideDmem(id, iw, rs)
    ensures (forall rt :: RefWrite(id, iw, rs, rt, pc, dmem) == MipsWrite(id, iw, rs, rt, pc, dmem)) <==> Regular(id, iw, rs)
  {
    hide Shifted, Places, MipsPlaces, RefSumImm, Upper, WordOfInt, Value, Rt, Rd;
    if id.Shift? {
      forall rt: bv32
        ensures Regular(id, iw, rs) ==> RefWrite(id, iw, rs, rt, pc, dmem) == MipsWrite(id, iw, rs, rt, pc, dmem)
      {
        ShiftIsMips(id.shift, iw, rs, rt);
      }
      ShiftIsMips(id.shift, iw, rs, 1);
      assert !Regular(id, iw, rs) ==> RefWrite(id, iw, rs, 1, pc, dmem) != MipsWrite(id, iw, rs, 1, pc, dmem);
    } else if id == SumImm(LUI) {
      LuiIsMips(iw, rs);
      assert !Regular(id, iw, rs) ==> RefWrite(id, iw, rs, 1, pc, dmem) != MipsWrite(id, iw, rs, 1, pc, dmem);
    }
  }
}
