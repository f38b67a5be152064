/** The five-stage pipeline of rsp/pipeline.c over the scalar instructions.

    The class at the end updates latches, registers and memory in place, stage
    by stage; each of its methods is the stage function of the same name on the
    value `State`.  The lemmas show that a run of cycles is a run of a
    sequential machine with one branch delay slot. */
module RspPipeline {
  import opened RspIsa
  import opened RspWords

  // ----------------------------------------------------------------- latches

  datatype IfRd = IfRd(pc: ImemAddress, opcode: Opcode, iw: Word, next: ImemAddress)
  datatype RdEx = RdEx(pc: ImemAddress, opcode: Opcode, iw: Word)
  datatype ExDf = ExDf(pc: ImemAddress, result: bv32, dest: Register, request: MemRequest)
  datatype DfWb = DfWb(pc: ImemAddress, result: bv32, dest: Register)

  datatype State = State(
    regs: seq<bv32>, mem: seq<bv8>, cache: seq<Opcode>,
    dfwb: DfWb, exdf: ExDf, rdex: RdEx, ifrd: IfRd)

  predicate Sized(s: State) { |s.regs| == 32 && |s.mem| == 0x2000 && |s.cache| == 0x400 }

  const INVALID_OP := Opcode(INVALID, false, false, false, false)
  const KILL_OP := Opcode(Shift(SLL), false, false, false, false)

  // ------------------------------------------------------------------ stages

  function WriteBack(s: State): (t: State)
    requires Sized(s)
    ensures Sized(t)
  {
    s.(regs := s.regs[s.dfwb.dest := s.dfwb.result])
  }

  function DataFetch(s: State): (t: State)
    requires Sized(s)
    ensures Sized(t)
  {
    s.(dfwb := DfWb(s.exdf.pc, AccessResult(s.exdf.request, s.mem, s.exdf.result), s.exdf.dest),
       mem := AccessMem(s.exdf.request, s.mem))
  }

  function ClearExDf(s: State): (t: State)
    requires Sized(s)
    ensures Sized(t)
  {
    s.(exdf := s.exdf.(dest := 0, request := NoRequest))
  }

  /** A source register as the execution stage sees it. */
  function Operand(regs: seq<bv32>, dfwb: DfWb, r: Register): bv32
    requires |regs| == 32
  {
    if r == 0 then 0 else if r == dfwb.dest then dfwb.result else regs[r]
  }

  function EffectOf(s: State): Effect
    requires Sized(s)
  {
    if s.rdex.opcode.vector then Compute(0, s.exdf.result)
    else Execute(s.rdex.opcode.id, s.rdex.iw,
                 Operand(s.regs, s.dfwb, Rs(s.rdex.iw)), Operand(s.regs, s.dfwb, Rt(s.rdex.iw)), s.rdex.pc)
  }

  /** Register 0's storage is cleared unless the forwarded register is register 0 itself. */
  function ExecuteStage(s: State): (t: State)
    requires Sized(s)
    ensures Sized(t)
  {
    var e := EffectOf(s);
    s.(regs := if s.rdex.opcode.vector || s.dfwb.dest == 0 then s.regs else s.regs[0 := 0],
       exdf := ExDf(s.rdex.pc, e.result, e.dest, e.request),
       ifrd := if e.target.Some? then s.ifrd.(next := e.target.value) else s.ifrd)
  }

  /** The load just executed produces a register that the next instruction reads. */
  predicate LoadUse(s: State) {
    var dest := s.exdf.dest;
    && s.rdex.opcode.isLoad
    && dest != 0
    && ((dest == Rs(s.ifrd.iw) && s.ifrd.opcode.needRs) || (dest == Rt(s.ifrd.iw) && s.ifrd.opcode.needRt))
  }

  function ReadDecode(s: State): (t: State)
    requires Sized(s)
    ensures Sized(t)
  {
    Decoded(s, LoadUse(s))
  }

  /** The latch after the stage, given its decision to stall. */
  function Decoded(s: State, stall: bool): (t: State)
    requires Sized(s)
    ensures Sized(t)
  {
    s.(rdex := if stall then RdEx(s.ifrd.pc, KILL_OP, 0) else RdEx(s.ifrd.pc, s.ifrd.opcode, s.ifrd.iw))
  }

  function Fetch(s: State): (t: State)
    requires Sized(s)
    ensures Sized(t)
  {
    var pc := s.ifrd.next;
    s.(ifrd := IfRd(pc, s.cache[pc / 4], HostWordAt(s.mem, 0x1000 + pc), ToImem(pc + 4)))
  }

  /** The state when the register-fetch stage runs. */
  function BackEnd(s: State): (t: State)
    requires Sized(s)
    ensures Sized(t)
  {
    ExecuteStage(ClearExDf(DataFetch(WriteBack(s))))
  }

  /** rsp_cycle_. */
  function Cycle(s: State): (t: State)
    requires Sized(s)
    ensures Sized(t)
  {
    var b := BackEnd(s);
    if LoadUse(b) then ReadDecode(b) else Fetch(ReadDecode(b))
  }

  /** A cycle that stalls when it is told to. */
  function CycleIf(s: State, stall: bool): (t: State)
    requires Sized(s)
    ensures Sized(t)
  {
    var b := BackEnd(s);
    if stall then Decoded(b, true) else Fetch(Decoded(b, false))
  }

  lemma CycleDecides(s: State)
    requires Sized(s)
    ensures Cycle(s) == CycleIf(s, LoadUse(BackEnd(s)))
  {
    hide BackEnd, LoadUse, Fetch;
  }

  // ---------------------------------------------------- the sequential machine

  datatype Arch = Arch(regs: seq<bv32>, dmem: seq<bv8>, pc: ImemAddress, npc: ImemAddress)

  predicate ArchSized(a: Arch) { |a.regs| == 32 && |a.dmem| == 0x1000 }

  /** The machine executes one of the modelled instructions, and any access stays inside DMEM. */
  predicate Allowed(prog: seq<Word>, a: Arch)
    requires |prog| == 0x400 && ArchSized(a)
  {
    var iw := prog[a.pc / 4];
    Scalar(DecodeId(iw)) && InsideDmem(DecodeId(iw), iw, a.regs[Rs(iw)])
  }

  /** One instruction: registers, DMEM, and the delay-slot program counters. */
  function Step(prog: seq<Word>, a: Arch): (b: Arch)
    requires |prog| == 0x400 && ArchSized(a) && Allowed(prog, a)
    ensures ArchSized(b)
  {
    var iw := prog[a.pc / 4];
    var rs, rt := a.regs[Rs(iw)], a.regs[Rt(iw)];
    StepWith(prog, a, RefWrite(DecodeId(iw), iw, rs, rt, a.pc, a.dmem))
  }

  function StepWith(prog: seq<Word>, a: Arch, write: Option<(Register, bv32)>): (b: Arch)
    requires |prog| == 0x400 && ArchSized(a) && Allowed(prog, a)
    ensures ArchSized(b)
  {
    var iw := prog[a.pc / 4];
    var id := DecodeId(iw);
    var rs, rt := a.regs[Rs(iw)], a.regs[Rt(iw)];
    var target := RefTarget(id, iw, rs, rt, a.pc);
    Arch(Commit(a.regs, write),
         RefDmem(id, iw, rs, rt, a.dmem),
         a.npc,
         if target.Some? then target.value else ToImem(a.npc + 4))
  }

  /** The first n instructions are allowed. */
  predicate AllowedFor(prog: seq<Word>, a: Arch, n: nat)
    requires |prog| == 0x400 && ArchSized(a)
    decreases n
  {
    n > 0 ==> Allowed(prog, a) && AllowedFor(prog, Step(prog, a), n - 1)
  }

  function Run(prog: seq<Word>, a: Arch, n: nat): (b: Arch)
    requires |prog| == 0x400 && ArchSized(a) && AllowedFor(prog, a, n)
    ensures ArchSized(b)
    decreases n
  {
    if n == 0 then a else Run(prog, Step(prog, a), n - 1)
  }

  /** One instruction of the MIPS instruction set. */
  function MipsStep(prog: seq<Word>, a: Arch): (b: Arch)
    requires |prog| == 0x400 && ArchSized(a) && Allowed(prog, a)
    ensures ArchSized(b)
  {
    var iw := prog[a.pc / 4];
    StepWith(prog, a, MipsWrite(DecodeId(iw), iw, a.regs[Rs(iw)], a.regs[Rt(iw)], a.pc, a.dmem))
  }

  function MipsRun(prog: seq<Word>, a: Arch, n: nat): Option<Arch>
    requires |prog| == 0x400 && ArchSized(a)
    decreases n
  {
    if n == 0 then Some(a) else if Allowed(prog, a) then MipsRun(prog, MipsStep(prog, a), n - 1) else None
  }

  /** The fields that an assembler leaves zero are zero. */
  predicate Canonical(iw: Word) {
    match DecodeId(iw)
    case SumImm(LUI) | Shift(SLL) => Rs(iw) == 0
    case Shift(SLLV) => SaField(iw) == 0
    case _ => true
  }

  /** The first n instructions are in canonical form. */
  predicate CanonicalFor(prog: seq<Word>, a: Arch, n: nat)
    requires |prog| == 0x400 && ArchSized(a) && AllowedFor(prog, a, n)
    decreases n
  {
    n > 0 ==> Canonical(prog[a.pc / 4]) && CanonicalFor(prog, Step(prog, a), n - 1)
  }

  lemma StepIsMips(prog: seq<Word>, a: Arch)
    requires |prog| == 0x400 && ArchSized(a) && Allowed(prog, a) && a.regs[0] == 0 && Canonical(prog[a.pc / 4])
    ensures Step(prog, a) == MipsStep(prog, a) && Step(prog, a).regs[0] == 0
  {
    hide DecodeId, InsideDmem, RefWrite, MipsWrite, RefDmem, RefTarget, Rs, Rt, SaField, Value;
    var iw := prog[a.pc / 4];
    ZeroValue();
    MipsExactly(DecodeId(iw), iw, a.regs[Rs(iw)], a.pc, a.dmem);
  }

  /** On canonical instructions the source's machine is that of the instruction set. */
  lemma {:induction false} RunIsMips(prog: seq<Word>, a: Arch, n: nat)
    requires |prog| == 0x400 && ArchSized(a) && a.regs[0] == 0
    requires AllowedFor(prog, a, n) && CanonicalFor(prog, a, n)
    ensures MipsRun(prog, a, n) == Some(Run(prog, a, n))
    decreases n
  {
    hide Allowed, Step, MipsStep, Canonical;
    if n > 0 {
      StepIsMips(prog, a);
      RunIsMips(prog, Step(prog, a), n - 1);
    }
  }

  // --------------------------------------------------------- the abstraction

  /** What the two front latches hold: nothing yet after a reset, one
      instruction behind a bubble, or two instructions. */
  datatype Phase = Empty | Bubble | Full

  /** The registers once everything past the execution stage has retired. */
  function RetiredRegs(s: State): (r: seq<bv32>)
    requires Sized(s)
    ensures |r| == 32
  {
    Commit(Commit(s.regs, Some((s.dfwb.dest, s.dfwb.result))),
           Some((s.exdf.dest, AccessResult(s.exdf.request, s.mem, s.exdf.result))))
  }

  function View(s: State, phase: Phase): (a: Arch)
    requires Sized(s)
    ensures ArchSized(a)
  {
    var regs := RetiredRegs(s);
    var dmem := AccessMem(s.exdf.request, s.mem)[..0x1000];
    match phase
    case Empty => Arch(regs, dmem, s.ifrd.next, ToImem(s.ifrd.next + 4))
    case Bubble => Arch(regs, dmem, s.ifrd.pc, s.ifrd.next)
    case Full => Arch(regs, dmem, s.rdex.pc, s.ifrd.pc)
  }

  predicate Inert(opcode: Opcode, iw: Word) { opcode in {INVALID_OP, KILL_OP} && iw == 0 }

  predicate Fetched(prog: seq<Word>, pc: ImemAddress, opcode: Opcode, iw: Word)
    requires |prog| == 0x400
  {
    iw == prog[pc / 4] && opcode == Decode(iw)
  }

  /** IMEM holds the program and the opcode cache its decoding. */
  predicate Loaded(prog: seq<Word>, mem: seq<bv8>, cache: seq<Opcode>)
    requires |prog| == 0x400 && |mem| == 0x2000 && |cache| == 0x400
  {
    forall a: ImemAddress :: HostWordAt(mem, 0x1000 + a) == prog[a / 4] && cache[a / 4] == Decode(prog[a / 4])
  }

  predicate IfRdFetched(prog: seq<Word>, ifrd: IfRd)
    requires |prog| == 0x400
  {
    Fetched(prog, ifrd.pc, ifrd.opcode, ifrd.iw)
  }

  predicate FrontEnd(prog: seq<Word>, s: State, phase: Phase)
    requires |prog| == 0x400
  {
    match phase
    case Empty => Inert(s.rdex.opcode, s.rdex.iw) && Inert(s.ifrd.opcode, s.ifrd.iw)
    case Bubble => Inert(s.rdex.opcode, s.rdex.iw) && IfRdFetched(prog, s.ifrd)
    case Full => Fetched(prog, s.rdex.pc, s.rdex.opcode, s.rdex.iw) && IfRdFetched(prog, s.ifrd) && s.ifrd.next == ToImem(s.ifrd.pc + 4)
  }

  predicate Inv(prog: seq<Word>, s: State, phase: Phase) {
    && |prog| == 0x400
    && Sized(s)
    && Loaded(prog, s.mem, s.cache)
    && AccessMem(s.exdf.request, s.mem)[0x1000..] == s.mem[0x1000..]
    && FrontEnd(prog, s, phase)
  }

  /** The phase after a cycle that stalls or not. */
  function PhaseIf(phase: Phase, stall: bool): Phase {
    match phase
    case Empty => if stall then Empty else Bubble
    case Bubble => if stall then Bubble else Full
    case Full => if stall then Bubble else Full
  }

  /** The phase after a cycle. */
  function NextPhase(s: State, phase: Phase): Phase
    requires Sized(s)
  {
    match phase
    case Empty => Bubble
    case Bubble => Full
    case Full => if LoadUse(BackEnd(s)) then Bubble else Full
  }

  // ------------------------------------------------------------- the proofs

  /** The state when the execution stage runs. */
  function Issue(s: State): (t: State)
    requires Sized(s)
    ensures Sized(t)
  {
    ClearExDf(DataFetch(WriteBack(s)))
  }

  /** Forwarding delivers the retired value of every register, and zero for register 0. */
  lemma OperandIsRetired(s: State, r: Register)
    requires Sized(s)
    ensures Operand(Issue(s).regs, Issue(s).dfwb, r) == RetiredRegs(s)[r]
  {
    hide AccessResult, AccessMem;
  }

  /** After the back end ran, the retired registers are the old ones with the effect's write. */
  lemma BackEndRetires(s: State)
    requires Sized(s)
    ensures var e := EffectOf(Issue(s));
      RetiredRegs(BackEnd(s)) ==
      Commit(RetiredRegs(s), Some((e.dest, AccessResult(e.request, AccessMem(s.exdf.request, s.mem), e.result))))
  {
    hide AccessResult, AccessMem, EffectOf;
  }

  lemma FrontEndKeepsRetired(s: State, stall: bool)
    requires Sized(s)
    ensures var b, c := BackEnd(s), CycleIf(s, stall);
      c.regs == b.regs && c.mem == b.mem && c.exdf == b.exdf && c.dfwb == b.dfwb && c.cache == b.cache
        && RetiredRegs(c) == RetiredRegs(b)
  {
    hide BackEnd, AccessResult, Commit;
  }

  lemma LoadedSurvives(prog: seq<Word>, mem: seq<bv8>, mem': seq<bv8>, cache: seq<Opcode>)
    requires |prog| == 0x400 && |mem| == |mem'| == 0x2000 && |cache| == 0x400
    requires Loaded(prog, mem, cache) && mem'[0x1000..] == mem[0x1000..]
    ensures Loaded(prog, mem', cache)
  {
    forall a: ImemAddress
      ensures HostWordAt(mem', 0x1000 + a) == prog[a / 4] && cache[a / 4] == Decode(prog[a / 4])
    {
      assert HostWordAt(mem, 0x1000 + a) == prog[a / 4];
      assert mem'[0x1000 + a..0x1000 + a + 4] == mem'[0x1000..][a..a + 4];
      assert mem[0x1000 + a..0x1000 + a + 4] == mem[0x1000..][a..a + 4];
    }
  }

  /** An inert instruction in the execution stage has no effect. */
  lemma InertEffect(s: State)
    requires Sized(s) && Inert(s.rdex.opcode, s.rdex.iw)
    ensures var e := EffectOf(s); e.dest == 0 && e.request == NoRequest && e.target == None
  {
    hide ShiftLeft, CountSum, Count5, Sa;
  }

  /** A cycle whose execution stage holds no instruction makes no architectural
      progress, whether it stalls or not. */
  lemma BubbleCycle(prog: seq<Word>, s: State, phase: Phase, stall: bool)
    requires Inv(prog, s, phase) && phase != Full
    ensures Inv(prog, CycleIf(s, stall), PhaseIf(phase, stall))
    ensures View(CycleIf(s, stall), PhaseIf(phase, stall)) == View(s, phase)
  {
    hide AccessResult, EffectOf, Execute, DecodeId, HostWordAt, Info;
    var i, b, c := Issue(s), BackEnd(s), CycleIf(s, stall);
    InertEffect(i);
    BackEndRetires(s);
    FrontEndKeepsRetired(s, stall);
    LoadedSurvives(prog, s.mem, c.mem, s.cache);
  }

  /** A bubble or an empty stage does not make the register fetch stall. */
  lemma BubblesDoNotStall(prog: seq<Word>, s: State, phase: Phase)
    requires Inv(prog, s, phase)
    ensures NextPhase(s, phase) == PhaseIf(phase, LoadUse(BackEnd(s)))
  {
    hide AccessResult, EffectOf, Execute, DecodeId, HostWordAt, Info;
  }

  /** The effect in the execution stage is the reference effect of the instruction at pc. */
  lemma EffectMeets(prog: seq<Word>, s: State)
    requires Inv(prog, s, Full) && Allowed(prog, View(s, Full))
    ensures var a := View(s, Full); var iw := prog[a.pc / 4];
      Meets(EffectOf(Issue(s)), DecodeId(iw), iw, a.regs[Rs(iw)], a.regs[Rt(iw)], a.pc, Issue(s).mem)
  {
    hide AccessResult, AccessMem, Execute, DecodeId, HostWordAt, Meets, RetiredRegs, InsideDmem, Loaded;
    var a, i := View(s, Full), Issue(s);
    var iw := prog[a.pc / 4];
    OperandIsRetired(s, Rs(iw));
    OperandIsRetired(s, Rt(iw));
    ScalarInfo(DecodeId(iw));
    ExecuteMeetsReference(iw, a.regs[Rs(iw)], a.regs[Rt(iw)], a.pc, i.mem);
  }

  lemma ScalarInfo(id: OpId)
    requires Scalar(id)
    ensures Info(id).id == id && !Info(id).vector
  {
  }

  /** Committing an effect that meets the reference is the reference's commit. */
  lemma CommitMeets(regs: seq<bv32>, d: Register, v: bv32, w: Option<(Register, bv32)>)
    requires |regs| == 32 && SameWrite(d, v, w)
    ensures Commit(regs, Some((d, v))) == Commit(regs, w)
  {
  }

  /** The front end refills itself from IMEM, or inserts a bubble and waits. */
  lemma FrontEndRefills(prog: seq<Word>, s: State, stall: bool)
    requires Inv(prog, s, Full) && Loaded(prog, BackEnd(s).mem, s.cache)
    ensures FrontEnd(prog, CycleIf(s, stall), PhaseIf(Full, stall))
    ensures var c := CycleIf(s, stall); var e := EffectOf(Issue(s));
      var npc := if e.target.Some? then e.target.value else ToImem(s.ifrd.pc + 4);
      if stall then c.ifrd.pc == s.ifrd.pc && c.ifrd.next == npc else c.rdex.pc == s.ifrd.pc && c.ifrd.pc == npc
  {
    hide AccessResult, AccessMem, EffectOf, Execute, DecodeId, HostWordAt, Info, RetiredRegs;
    var b := BackEnd(s);
    assert b.ifrd == s.ifrd.(next := b.ifrd.next) && b.rdex == s.rdex && b.cache == s.cache;
    var a: nat := b.ifrd.next;
    assert HostWordAt(b.mem, 0x1000 + a) == prog[a / 4] && b.cache[a / 4] == Decode(prog[a / 4]);
  }

  /** A cycle with an instruction in the execution stage performs exactly one sequential step. */
  lemma FullCycle(prog: seq<Word>, s: State, stall: bool)
    requires Inv(prog, s, Full) && Allowed(prog, View(s, Full))
    ensures Inv(prog, CycleIf(s, stall), PhaseIf(Full, stall))
    ensures View(CycleIf(s, stall), PhaseIf(Full, stall)) == Step(prog, View(s, Full))
  {
    hide AccessResult, AccessMem, EffectOf, Execute, DecodeId, HostWordAt, Info, RefWrite, RefDmem, RefTarget,
      RetiredRegs, Commit, InsideDmem, Rs, Rt, SameWrite, FrontEnd, Loaded;
    var a, i, b, c := View(s, Full), Issue(s), BackEnd(s), CycleIf(s, stall);
    var iw := prog[a.pc / 4];
    var e := EffectOf(i);
    var d := RefDmem(DecodeId(iw), iw, a.regs[Rs(iw)], a.regs[Rt(iw)], a.dmem);
    EffectMeets(prog, s);
    BackEndRetires(s);
    FrontEndKeepsRetired(s, stall);
    CommitMeets(a.regs, e.dest, AccessResult(e.request, i.mem, e.result),
                RefWrite(DecodeId(iw), iw, a.regs[Rs(iw)], a.regs[Rt(iw)], a.pc, a.dmem));
    assert AccessMem(e.request, i.mem) == d + i.mem[0x1000..];
    assert AccessMem(e.request, i.mem)[..0x1000] == d;
    assert AccessMem(e.request, i.mem)[0x1000..] == i.mem[0x1000..];
    LoadedSurvives(prog, s.mem, c.mem, s.cache);
    FullFacts(prog, s);
    FrontEndRefills(prog, s, stall);
  }

  lemma FullFacts(prog: seq<Word>, s: State)
    requires Inv(prog, s, Full) && Allowed(prog, View(s, Full))
    ensures s.rdex.pc == View(s, Full).pc && s.ifrd.pc == View(s, Full).npc
  {
    hide AccessResult, AccessMem, EffectOf, Execute, DecodeId, HostWordAt, RetiredRegs, InsideDmem, Loaded;
  }

  // ------------------------------------------------------------- whole runs

  function Cycles(s: State, n: nat): (t: State)
    requires Sized(s)
    ensures Sized(t)
    decreases n
  {
    if n == 0 then s else Cycles(Cycle(s), n - 1)
  }

  function PhaseAfter(s: State, phase: Phase, n: nat): Phase
    requires Sized(s)
    decreases n
  {
    if n == 0 then phase else PhaseAfter(Cycle(s), NextPhase(s, phase), n - 1)
  }

  /** The number of instructions that leave the execution stage in n cycles. */
  function Issued(s: State, phase: Phase, n: nat): nat
    requires Sized(s)
    decreases n
  {
    if n == 0 then 0 else (if phase == Full then 1 else 0) + Issued(Cycle(s), NextPhase(s, phase), n - 1)
  }

  /** Every run of cycles is a run of the sequential machine. */
  lemma {:induction false} CyclesRefineRun(prog: seq<Word>, s: State, phase: Phase, n: nat)
    requires Inv(prog, s, phase)
    requires AllowedFor(prog, View(s, phase), Issued(s, phase, n))
    ensures Inv(prog, Cycles(s, n), PhaseAfter(s, phase, n))
    ensures View(Cycles(s, n), PhaseAfter(s, phase, n)) == Run(prog, View(s, phase), Issued(s, phase, n))
    decreases n
  {
    hide Inv, View, Cycle, CycleIf, NextPhase, PhaseIf, Allowed, Step;
    if n > 0 {
      InvSized(prog, s, phase);
      var stall := LoadUse(BackEnd(s));
      CycleDecides(s);
      BubblesDoNotStall(prog, s, phase);
      if phase == Full {
        FullCycle(prog, s, stall);
      } else {
        BubbleCycle(prog, s, phase, stall);
      }
      CyclesRefineRun(prog, Cycle(s), NextPhase(s, phase), n - 1);
    }
  }

  // A pipeline that stalls by any other rule, as a sequence of decisions.
  function CyclesIf(s: State, stalls: seq<bool>): (t: State)
    requires Sized(s)
    ensures Sized(t)
    decreases |stalls|
  {
    if stalls == [] then s else CyclesIf(CycleIf(s, stalls[0]), stalls[1..])
  }

  function PhaseAfterIf(phase: Phase, stalls: seq<bool>): Phase
    decreases |stalls|
  {
    if stalls == [] then phase else PhaseAfterIf(PhaseIf(phase, stalls[0]), stalls[1..])
  }

  function IssuedIf(phase: Phase, stalls: seq<bool>): nat
    decreases |stalls|
  {
    if stalls == [] then 0 else (if phase == Full then 1 else 0) + IssuedIf(PhaseIf(phase, stalls[0]), stalls[1..])
  }

  /** Whatever the stall decisions, what the pipeline has executed is what the
      sequential machine executes in as many steps. */
  lemma {:induction false} AnyStallsRefineRun(prog: seq<Word>, s: State, phase: Phase, stalls: seq<bool>)
    requires Inv(prog, s, phase)
    requires AllowedFor(prog, View(s, phase), IssuedIf(phase, stalls))
    ensures Inv(prog, CyclesIf(s, stalls), PhaseAfterIf(phase, stalls))
    ensures View(CyclesIf(s, stalls), PhaseAfterIf(phase, stalls)) == Run(prog, View(s, phase), IssuedIf(phase, stalls))
    decreases |stalls|
  {
    hide Inv, View, CycleIf, PhaseIf, Allowed, Step;
    if stalls != [] {
      InvSized(prog, s, phase);
      if phase == Full {
        FullCycle(prog, s, stalls[0]);
      } else {
        BubbleCycle(prog, s, phase, stalls[0]);
      }
      AnyStallsRefineRun(prog, CycleIf(s, stalls[0]), PhaseIf(phase, stalls[0]), stalls[1..]);
    }
  }

  /** So stall decisions never change results: two runs that have executed as
      many instructions agree on registers, DMEM and program counters. */
  lemma StallsDoNotChangeResults(prog: seq<Word>, s: State, phase: Phase, stalls: seq<bool>, others: seq<bool>)
    requires Inv(prog, s, phase) && IssuedIf(phase, stalls) == IssuedIf(phase, others)
    requires AllowedFor(prog, View(s, phase), IssuedIf(phase, stalls))
    ensures View(CyclesIf(s, stalls), PhaseAfterIf(phase, stalls)) == View(CyclesIf(s, others), PhaseAfterIf(phase, others))
  {
    hide Inv, View, CyclesIf, PhaseAfterIf, Run, AllowedFor;
    InvSized(prog, s, phase);
    AnyStallsRefineRun(prog, s, phase, stalls);
    AnyStallsRefineRun(prog, s, phase, others);
  }

  lemma InvSized(prog: seq<Word>, s: State, phase: Phase)
    requires Inv(prog, s, phase)
    ensures |prog| == 0x400 && Sized(s)
  {
  }

  /** No two load-use bubbles are consecutive: at least every other cycle after
      the pipeline has filled executes an instruction. */
  lemma {:induction false} IssueRate(s: State, phase: Phase, n: nat)
    requires Sized(s)
    ensures n <= 2 * Issued(s, phase, n) + (match phase case Empty => 2 case Bubble => 1 case Full => 0)
    ensures Issued(s, phase, n) <= n
    decreases n
  {
    hide Cycle, BackEnd, LoadUse;
    if n > 0 {
      IssueRate(Cycle(s), NextPhase(s, phase), n - 1);
    }
  }

  /** rsp_pipeline_init followed by a write of SP_PC. */
  function Reset(regs: seq<bv32>, mem: seq<bv8>, cache: seq<Opcode>, pc: ImemAddress): State {
    State(regs, mem, cache, DfWb(0, 0, 0), ExDf(0, 0, 0, NoRequest), RdEx(0, INVALID_OP, 0), IfRd(0, INVALID_OP, 0, pc))
  }

  /** From a reset, n cycles leave the registers, DMEM and program counters as k
      instructions of the sequential machine do, where (n - 2) / 2 <= k <= n. */
  lemma ResetRunRefines(prog: seq<Word>, regs: seq<bv32>, mem: seq<bv8>, cache: seq<Opcode>, pc: ImemAddress, n: nat)
    requires |prog| == 0x400 && |regs| == 32 && |mem| == 0x2000 && |cache| == 0x400 && Loaded(prog, mem, cache)
    requires AllowedFor(prog, Arch(regs[0 := 0], mem[..0x1000], pc, ToImem(pc + 4)), n)
    ensures var s := Reset(regs, mem, cache, pc); var k := Issued(s, Empty, n);
      && k <= n <= 2 * k + 2
      && AllowedFor(prog, Arch(regs[0 := 0], mem[..0x1000], pc, ToImem(pc + 4)), k)
      && View(Cycles(s, n), PhaseAfter(s, Empty, n)) == Run(prog, Arch(regs[0 := 0], mem[..0x1000], pc, ToImem(pc + 4)), k)
  {
    hide Run, Cycle, Step, Allowed, Cycles, PhaseAfter, Issued, AllowedFor;
    var s := Reset(regs, mem, cache, pc);
    var a := Arch(regs[0 := 0], mem[..0x1000], pc, ToImem(pc + 4));
    assert View(s, Empty) == a;
    IssueRate(s, Empty, n);
    AllowedPrefix(prog, a, Issued(s, Empty, n), n);
    CyclesRefineRun(prog, s, Empty, n);
  }

  /** From a reset, a program in canonical form runs as the instruction set says. */
  lemma ResetRunIsMips(prog: seq<Word>, regs: seq<bv32>, mem: seq<bv8>, cache: seq<Opcode>, pc: ImemAddress, n: nat)
    requires |prog| == 0x400 && |regs| == 32 && |mem| == 0x2000 && |cache| == 0x400 && Loaded(prog, mem, cache)
    requires AllowedFor(prog, Arch(regs[0 := 0], mem[..0x1000], pc, ToImem(pc + 4)), n)
    requires CanonicalFor(prog, Arch(regs[0 := 0], mem[..0x1000], pc, ToImem(pc + 4)), n)
    ensures var s := Reset(regs, mem, cache, pc);
      MipsRun(prog, Arch(regs[0 := 0], mem[..0x1000], pc, ToImem(pc + 4)), Issued(s, Empty, n)) ==
      Some(View(Cycles(s, n), PhaseAfter(s, Empty, n)))
  {
    hide Run, MipsRun, Cycle, Step, Allowed, Cycles, PhaseAfter, Issued, AllowedFor, CanonicalFor, View, Loaded;
    var a := Arch(regs[0 := 0], mem[..0x1000], pc, ToImem(pc + 4));
    var k := Issued(Reset(regs, mem, cache, pc), Empty, n);
    ResetRunRefines(prog, regs, mem, cache, pc, n);
    CanonicalPrefix(prog, a, k, n);
    RunIsMips(prog, a, k);
  }

  lemma {:induction false} CanonicalPrefix(prog: seq<Word>, a: Arch, k: nat, n: nat)
    requires |prog| == 0x400 && ArchSized(a) && k <= n && AllowedFor(prog, a, n) && CanonicalFor(prog, a, n)
    ensures AllowedFor(prog, a, k) && CanonicalFor(prog, a, k)
    decreases n
  {
    hide Step, Allowed, Canonical;
    if k > 0 {
      CanonicalPrefix(prog, Step(prog, a), k - 1, n - 1);
    }
  }

  lemma {:induction false} AllowedPrefix(prog: seq<Word>, a: Arch, k: nat, n: nat)
    requires |prog| == 0x400 && ArchSized(a) && k <= n && AllowedFor(prog, a, n)
    ensures AllowedFor(prog, a, k)
    decreases n
  {
    hide Step, Allowed;
    if k > 0 {
      AllowedPrefix(prog, Step(prog, a), k - 1, n - 1);
    }
  }

  // ------------------------------------------------------------- register 0

  /** Two states that differ at most in register 0's storage and in results on
      their way to register 0. */
  predicate SameButZero(s: State, t: State) {
    && Sized(s) && Sized(t)
    && s.regs[0 := 0] == t.regs[0 := 0]
    && s.mem == t.mem && s.cache == t.cache && s.rdex == t.rdex && s.ifrd == t.ifrd
    && t.dfwb == (if s.dfwb.dest == 0 then s.dfwb.(result := t.dfwb.result) else s.dfwb)
    && t.exdf == (if s.exdf.dest == 0 then s.exdf.(result := t.exdf.result) else s.exdf)
  }

  lemma SameOffZero(x: seq<bv32>, y: seq<bv32>, r: Register)
    requires |x| == |y| == 32 && x[0 := 0] == y[0 := 0]
    ensures r != 0 ==> x[r] == y[r]
  {
    assert x[0 := 0][r] == y[0 := 0][r];
  }

  lemma SameWithWrite(x: seq<bv32>, y: seq<bv32>, r: Register, v: bv32, w: bv32)
    requires |x| == |y| == 32 && x[0 := 0] == y[0 := 0] && (r != 0 ==> v == w)
    ensures x[r := v][0 := 0] == y[r := w][0 := 0]
  {
    var p, q := x[r := v][0 := 0], y[r := w][0 := 0];
    forall k: nat | k < 32
      ensures p[k] == q[k]
    {
      SameOffZero(x, y, k);
    }
  }

  lemma SameIssue(s: State, t: State)
    requires SameButZero(s, t)
    ensures SameButZero(Issue(s), Issue(t))
  {
    hide AccessResult, AccessMem;
    SameWithWrite(s.regs, t.regs, s.dfwb.dest, s.dfwb.result, t.dfwb.result);
  }

  lemma SameOperand(s: State, t: State, r: Register)
    requires SameButZero(s, t)
    ensures Operand(s.regs, s.dfwb, r) == Operand(t.regs, t.dfwb, r)
  {
    SameOffZero(s.regs, t.regs, r);
  }

  lemma SameExecuted(s: State, t: State)
    requires SameButZero(s, t)
    ensures SameButZero(ExecuteStage(s), ExecuteStage(t))
  {
    hide Execute, Operand;
    SameOperand(s, t, Rs(s.rdex.iw));
    SameOperand(s, t, Rt(s.rdex.iw));
    assert s.regs[0 := 0][0 := 0] == t.regs[0 := 0][0 := 0];
  }

  lemma SameFrontEnd(b: State, c: State, stall: bool)
    requires SameButZero(b, c)
    ensures LoadUse(b) == LoadUse(c)
    ensures SameButZero(Decoded(b, stall), Decoded(c, stall)) && SameButZero(Fetch(b), Fetch(c))
  {
    hide HostWordAt, ToImem, Rs, Rt;
  }

  lemma SameCycle(s: State, t: State, phase: Phase)
    requires SameButZero(s, t)
    ensures SameButZero(Cycle(s), Cycle(t)) && NextPhase(s, phase) == NextPhase(t, phase)
  {
    var b, c := BackEnd(s), BackEnd(t);
    assert b == ExecuteStage(Issue(s)) && c == ExecuteStage(Issue(t));
    hide BackEnd, ExecuteStage, Issue, Fetch, Decoded, LoadUse, SameButZero;
    SameSized(s, t);
    SameIssue(s, t);
    SameSized(Issue(s), Issue(t));
    SameExecuted(Issue(s), Issue(t));
    SameFrontEnd(b, c, LoadUse(b));
    SameSized(Decoded(b, false), Decoded(c, false));
    SameFrontEnd(Decoded(b, false), Decoded(c, false), false);
  }

  lemma SameView(s: State, t: State, phase: Phase)
    requires SameButZero(s, t)
    ensures View(s, phase) == View(t, phase) && View(s, phase).regs[0] == 0
  {
    hide AccessResult, AccessMem;
    SameWithWrite(s.regs, t.regs, s.dfwb.dest, s.dfwb.result, t.dfwb.result);
    SameWithWrite(Commit(s.regs, Some((s.dfwb.dest, s.dfwb.result))), Commit(t.regs, Some((t.dfwb.dest, t.dfwb.result))), s.exdf.dest,
                  AccessResult(s.exdf.request, s.mem, s.exdf.result), AccessResult(t.exdf.request, t.mem, t.exdf.result));
  }

  /** Register 0 is the constant zero: whatever its storage holds, and whatever
      is computed into it on the way, every run executes the same. */
  lemma {:induction false} RegisterZero(s: State, t: State, phase: Phase, n: nat)
    requires SameButZero(s, t)
    ensures SameButZero(Cycles(s, n), Cycles(t, n)) && PhaseAfter(s, phase, n) == PhaseAfter(t, phase, n)
    ensures View(Cycles(s, n), PhaseAfter(s, phase, n)) == View(Cycles(t, n), PhaseAfter(t, phase, n))
    ensures View(Cycles(s, n), PhaseAfter(s, phase, n)).regs[0] == 0
    decreases n
  {
    hide Cycle, View, NextPhase, SameButZero;
    SameSized(s, t);
    if n == 0 {
      SameView(s, t, phase);
    } else {
      SameCycle(s, t, phase);
      RegisterZero(Cycle(s), Cycle(t), NextPhase(s, phase), n - 1);
    }
  }

  lemma SameSized(s: State, t: State)
    requires SameButZero(s, t)
    ensures Sized(s) && Sized(t)
  {
  }

  // ------------------------------------------------- the in-place processor

  class Rsp {
    const regs: array<bv32>
    const mem: array<bv8>
    const cache: array<Opcode>
    var dfwb: DfWb
    var exdf: ExDf
    var rdex: RdEx
    var ifrd: IfRd

    ghost predicate Valid()
      reads this
    {
      regs.Length == 32 && mem.Length == 0x2000 && cache.Length == 0x400
    }

    ghost function Value(): (s: State)
      reads this, regs, mem, cache
      requires Valid()
      ensures Sized(s)
    {
      State(regs[..], mem[..], cache[..], dfwb, exdf, rdex, ifrd)
    }

    constructor (regs: array<bv32>, mem: array<bv8>, cache: array<Opcode>, pc: ImemAddress)
      requires regs.Length == 32 && mem.Length == 0x2000 && cache.Length == 0x400
      ensures Valid() && this.regs == regs && this.mem == mem && this.cache == cache
      ensures Value() == Reset(regs[..], mem[..], cache[..], pc)
    {
      this.regs, this.mem, this.cache := regs, mem, cache;
      dfwb := DfWb(0, 0, 0);
      exdf := ExDf(0, 0, 0, NoRequest);
      rdex := RdEx(0, INVALID_OP, 0);
      ifrd := IfRd(0, INVALID_OP, 0, pc);
    }

    /** rsp_wb_stage. */
    method WbStage()
      requires Valid()
      modifies regs
      ensures Valid() && Value() == WriteBack(old(Value()))
    {
      regs[dfwb.dest] := dfwb.result;
    }

    /** rsp_df_stage: a big-endian read-modify-write of four bytes. */
    method DfStage()
      requires Valid()
      modifies this, mem
      ensures Valid() && Value() == DataFetch(old(Value()))
    {
      hide Asr, And, Merge, WordOf, ByteOf, DmemOffset;
      dfwb := DfWb(exdf.pc, exdf.result, exdf.dest);
      match exdf.request {
        case NoRequest =>
        case IntMem(addr, data, rdqm, wdqm, rshift) =>
          var a := DmemOffset(addr);
          assert a < 0x1000 by { DmemOffsetBound(addr); }
          var word := WordOf(mem[a], mem[a + 1], mem[a + 2], mem[a + 3]);
          dfwb := dfwb.(result := And(rdqm, Asr(word, rshift)));
          word := Merge(word, data, wdqm);
          mem[a], mem[a + 1], mem[a + 2], mem[a + 3] := ByteOf(word, 0), ByteOf(word, 1), ByteOf(word, 2), ByteOf(word, 3);
      }
    }

    /** The operand reads of rsp_ex_stage: patch the register file with the pending
        result, read both sources, and restore it. */
    method ForwardAndRead(rs: Register, rt: Register) returns (rsReg: bv32, rtReg: bv32)
      requires Valid()
      modifies regs
      ensures rsReg == Operand(old(regs[..]), dfwb, rs) && rtReg == Operand(old(regs[..]), dfwb, rt)
      ensures regs[..] == if dfwb.dest == 0 then old(regs[..]) else old(regs[..])[0 := 0]
    {
      var temp := regs[dfwb.dest];
      regs[dfwb.dest] := dfwb.result;
      assert regs[..] == old(regs[..])[dfwb.dest := dfwb.result];
      regs[0] := 0;
      assert regs[..] == old(regs[..])[dfwb.dest := dfwb.result][0 := 0];
      rsReg, rtReg := regs[rs], regs[rt];
      regs[dfwb.dest] := temp;
      assert regs[..] == old(regs[..])[dfwb.dest := dfwb.result][0 := 0][dfwb.dest := temp];
    }

    /** rsp_ex_stage. */
    method ExStage()
      requires Valid()
      requires exdf.dest == 0 && exdf.request == NoRequest
      modifies this, regs
      ensures Valid() && Value() == ExecuteStage(old(Value()))
    {
      hide Execute, Rs, Rt;
      exdf := exdf.(pc := rdex.pc);
      if rdex.opcode.vector {
        return;
      }
      var rsReg, rtReg := ForwardAndRead(Rs(rdex.iw), Rt(rdex.iw));
      var e := Execute(rdex.opcode.id, rdex.iw, rsReg, rtReg, rdex.pc);
      exdf := exdf.(result := e.result, dest := e.dest, request := e.request);
      if e.target.Some? {
        ifrd := ifrd.(next := e.target.value);
      }
    }

    /** rsp_rd_stage. */
    method RdStage() returns (stall: bool)
      requires Valid()
      modifies this
      ensures Valid() && Value() == ReadDecode(old(Value()))
      ensures stall == LoadUse(old(Value()))
    {
      var previous := rdex.opcode;
      var iw := ifrd.iw;
      rdex := RdEx(ifrd.pc, ifrd.opcode, iw);
      if previous.isLoad {
        var dest := exdf.dest;
        if dest != 0 && ((dest == Rs(iw) && rdex.opcode.needRs) || (dest == Rt(iw) && rdex.opcode.needRt)) {
          rdex := rdex.(opcode := KILL_OP, iw := 0);
          return true;
        }
      }
      return false;
    }

    /** rsp_if_stage. */
    method IfStage()
      requires Valid()
      modifies this
      ensures Valid() && Value() == Fetch(old(Value()))
    {
      hide HostWordAt;
      var pc: nat := ifrd.next;
      var iw := HostWordAt(mem[..], 0x1000 + pc);
      ifrd := IfRd(ifrd.next, cache[pc / 4], iw, ToImem(pc + 4));
    }

    /** rsp_cycle_. */
    method CycleOnce()
      requires Valid()
      modifies this, regs, mem
      ensures Valid() && Value() == Cycle(old(Value()))
    {
      WbStage();
      DfStage();
      exdf := exdf.(dest := 0, request := NoRequest);
      ExStage();
      var stall := RdStage();
      if !stall {
        IfStage();
      }
    }

    /** A run of n cycles executes the program as the sequential machine does. */
    method RunCycles(ghost prog: seq<Word>, ghost phase: Phase, n: nat)
      requires Valid() && Inv(prog, Value(), phase)
      requires AllowedFor(prog, View(Value(), phase), Issued(Value(), phase, n))
      modifies this, regs, mem
      ensures Valid() && Value() == Cycles(old(Value()), n)
      ensures View(Value(), PhaseAfter(old(Value()), phase, n)) ==
        Run(prog, View(old(Value()), phase), Issued(old(Value()), phase, n))
    {
      hide Cycle, Run, AllowedFor, View, Inv, Issued, PhaseAfter;
      InvSized(prog, Value(), phase);
      CyclesRefineRun(prog, Value(), phase, n);
      for i := 0 to n
        invariant Valid() && Cycles(Value(), n - i) == Cycles(old(Value()), n)
      {
        CycleOnce();
      }
    }
  }

  lemma DmemOffsetBound(addr: bv32)
    ensures DmemOffset(addr) < 0x1000
  {
  }
}
