/** The two emulation threads of device/device.c, which meet after every quantum
    of work, as a state machine over their steps.

    cv_wait returns with the mutex released (os/posix/thread.h), there are no
    spurious wake-ups, and both threads keep running. */
module Rendezvous {

  datatype Option<T> = None | Some(value: T)

  datatype Who = Rcp | Cpu

  function Other(w: Who): Who { if w == Rcp then Cpu else Rcp }

  /** Where a thread is: in its work loop, before and inside the critical
      section, and in the two ways out of it. */
  datatype Pc =
    | Work(done: nat)
    | Lock
    | Test
    | EnterWait
    | Asleep
    | Reacquire
    | Release
    | Unlock
    | Signal

  /** `quanta` counts finished work loops and `turns` their turns. */
  datatype Thread = Thread(pc: Pc, quanta: nat, turns: nat)

  /** `waiting` is other_thread_is_waiting; `meetings` counts the times that a
      thread found it set. */
  datatype State = State(rcp: Thread, cpu: Thread, mutex: Option<Who>, waiting: bool, meetings: nat)

  /** The turns of a work loop: 6250 for the RCP, 6250 / 2 for the VR4300. */
  function Quantum(w: Who): nat { if w == Rcp then 6250 else 3125 }

  function Get(s: State, w: Who): Thread { if w == Rcp then s.rcp else s.cpu }

  function Set(s: State, w: Who, t: Thread): State { if w == Rcp then s.(rcp := t) else s.(cpu := t) }

  function At(s: State, w: Who, pc: Pc): State { Set(s, w, Get(s, w).(pc := pc)) }

  const START := State(Thread(Work(0), 0, 0), Thread(Work(0), 0, 0), None, false, 0)

  /** A thread blocks on a held mutex and in its sleep. */
  predicate Enabled(s: State, w: Who) {
    var pc := Get(s, w).pc;
    !pc.Asleep? && (pc.Lock? || pc.Reacquire? ==> s.mutex == None)
  }

  /** One step of a thread. */
  function Step(s: State, w: Who): State
    requires Enabled(s, w)
  {
    var t := Get(s, w);
    match t.pc
    case Work(done) =>
      if done < Quantum(w) then Set(s, w, t.(pc := Work(done + 1), turns := t.turns + 1))
      else Set(s, w, t.(pc := Lock, quanta := t.quanta + 1))
    case Lock => At(s, w, Test).(mutex := Some(w))
    case Test =>
      if !s.waiting then At(s, w, EnterWait).(waiting := true)
      else At(s, w, Unlock).(waiting := false, meetings := s.meetings + 1)
    case EnterWait => At(s, w, Asleep).(mutex := None)
    case Reacquire => At(s, w, Release).(mutex := Some(w))
    case Release => At(s, w, Work(0)).(mutex := None)
    case Unlock => At(s, w, Signal).(mutex := None)
    case Signal =>
      var s' := At(s, w, Work(0));
      if Get(s', Other(w)).pc.Asleep? then At(s', Other(w), Reacquire) else s'
  }

  /** A run: each entry is a thread that takes a step if it can. */
  function Run(s: State, schedule: seq<Who>): State {
    if schedule == [] then s
    else
      var t := Run(s, schedule[..|schedule| - 1]);
      var w := schedule[|schedule| - 1];
      if Enabled(t, w) then Step(t, w) else t
  }

  // --------------------------------------------------------------- invariant

  predicate Holds(pc: Pc) { pc.Test? || pc.EnterWait? || pc.Unlock? || pc.Release? }

  predicate Waits(pc: Pc) { pc.EnterWait? || pc.Asleep? }

  predicate Leaves(pc: Pc) { pc.Unlock? || pc.Signal? }

  /** The thread has finished its quantum and not met the other since. */
  predicate Ahead(s: State, w: Who) {
    var pc := Get(s, w).pc;
    pc.Lock? || pc.Test? || pc.EnterWait? || (pc.Asleep? && s.waiting)
  }

  ghost predicate ThreadInv(s: State, w: Who) {
    var t, o := Get(s, w), Get(s, Other(w));
    && (s.mutex == Some(w) <==> Holds(t.pc))
    && t.quanta == s.meetings + (if Ahead(s, w) then 1 else 0)
    && t.turns == Quantum(w) * t.quanta + (if t.pc.Work? then t.pc.done else 0)
    && (t.pc.Work? ==> t.pc.done <= Quantum(w))
    && (Leaves(t.pc) ==> o.pc.Asleep? && !s.waiting)
    && (t.pc.EnterWait? ==> s.waiting)
    && (t.pc.Asleep? && !s.waiting ==> Leaves(o.pc))
    && (Waits(t.pc) && s.waiting ==> !Waits(o.pc))
  }

  ghost predicate Inv(s: State) {
    && ThreadInv(s, Rcp) && ThreadInv(s, Cpu)
    && (s.waiting ==> Waits(s.rcp.pc) || Waits(s.cpu.pc))
  }

  lemma WorkKeepsInv(s: State, w: Who)
    requires Inv(s) && Get(s, w).pc.Work?
    ensures Inv(Step(s, w))
  {
    var o := Other(w);
    assert Get(Step(s, w), o) == Get(s, o);
  }

  lemma EntryKeepsInv(s: State, w: Who)
    requires Inv(s) && Enabled(s, w)
    requires var pc := Get(s, w).pc; pc.Lock? || pc.Test? || pc.EnterWait?
    ensures Inv(Step(s, w))
  {
    hide Quantum;
    assert Get(Step(s, w), Other(w)) == Get(s, Other(w));
  }

  lemma ExitKeepsInv(s: State, w: Who)
    requires Inv(s) && Enabled(s, w)
    requires var pc := Get(s, w).pc; pc.Reacquire? || pc.Release? || pc.Unlock?
    ensures Inv(Step(s, w))
  {
    hide Quantum;
    assert Get(Step(s, w), Other(w)) == Get(s, Other(w));
  }

  lemma SignalKeepsInv(s: State, w: Who)
    requires Inv(s) && Get(s, w).pc.Signal?
    ensures Inv(Step(s, w))
  {
    hide Quantum;
  }

  lemma StepKeepsInv(s: State, w: Who)
    requires Inv(s) && Enabled(s, w)
    ensures Inv(Step(s, w))
  {
    hide Inv, Step;
    match Get(s, w).pc
    case Work(_) => WorkKeepsInv(s, w);
    case Lock | Test | EnterWait => EntryKeepsInv(s, w);
    case Reacquire | Release | Unlock => ExitKeepsInv(s, w);
    case Signal => SignalKeepsInv(s, w);
  }

  lemma {:induction false} RunKeepsInv(schedule: seq<Who>)
    ensures Inv(Run(START, schedule))
    decreases |schedule|
  {
    hide Inv, Step, Enabled;
    if schedule == [] {
      StartInv();
    } else {
      var prefix, w := schedule[..|schedule| - 1], schedule[|schedule| - 1];
      RunKeepsInv(prefix);
      if Enabled(Run(START, prefix), w) {
        StepKeepsInv(Run(START, prefix), w);
      }
    }
  }

  lemma StartInv()
    ensures Inv(START)
  {
  }

  // ---------------------------------------------------------- what it means

  /** In every interleaving the finished quanta differ by at most one. */
  lemma QuantaStayTogether(schedule: seq<Who>)
    ensures var s := Run(START, schedule);
      s.meetings <= s.rcp.quanta <= s.meetings + 1 && s.meetings <= s.cpu.quanta <= s.meetings + 1
  {
    hide Run;
    RunKeepsInv(schedule);
  }

  /** In every reachable state a thread can step: the two never block each other. */
  lemma NeverBothBlocked(schedule: seq<Who>)
    ensures var s := Run(START, schedule); Enabled(s, Rcp) || Enabled(s, Cpu)
  {
    hide Run, Quantum;
    RunKeepsInv(schedule);
    var m := Run(START, schedule).mutex;
    assert m.None? || m.value.Rcp? || m.value.Cpu?;
  }

  /** A signal always finds the other thread asleep: no wake-up is lost. */
  lemma NoWakeUpIsLost(schedule: seq<Who>, w: Who)
    requires Get(Run(START, schedule), w).pc.Signal?
    ensures Get(Run(START, schedule), Other(w)).pc.Asleep?
    ensures Get(Step(Run(START, schedule), w), Other(w)).pc == Reacquire
  {
    hide Run, Quantum;
    RunKeepsInv(schedule);
  }

  /** The steps that a thread has left until it signals, while the other sleeps. */
  function StepsToSignal(s: State, w: Who): nat {
    match Get(s, w).pc
    case Reacquire => 10_007
    case Release => 10_006
    case Work(done) => if done <= 6250 then 10_005 - done else 0
    case Lock => 4
    case Test => 3
    case Unlock => 2
    case Signal => 1
    case _ => 0
  }

  /** While a thread sleeps the other is never blocked, and every step of it
      either wakes the sleeper or brings it nearer to doing so. */
  lemma SleeperIsWoken(schedule: seq<Who>, w: Who)
    requires Get(Run(START, schedule), w).pc.Asleep?
    ensures var s := Run(START, schedule); var o := Other(w);
      && Enabled(s, o)
      && var s' := Step(s, o); Get(s', w).pc == Reacquire || (Get(s', w).pc.Asleep? && StepsToSignal(s', o) < StepsToSignal(s, o))
  {
    hide Run;
    RunKeepsInv(schedule);
    var m := Run(START, schedule).mutex;
    assert m.None? || m.value.Rcp? || m.value.Cpu?;
  }

  // --------------------------------------------------------- the cycle budget

  /** How many cycles each device has run. */
  datatype Cycles = Cycles(vr4300: nat, rsp: nat, ai: nat, pi: nat, vi: nat)

  /** After the turns of the two work loops. */
  function Threaded(s: State): Cycles {
    Cycles(3 * s.cpu.turns, s.rcp.turns, 2 * s.cpu.turns, 2 * s.cpu.turns, s.rcp.turns)
  }

  /** One turn of device_spin, and n turns. */
  function SpinTurn(c: Cycles): Cycles {
    Cycles(c.vr4300 + 3, c.rsp + 2, c.ai + 2, c.pi + 2, c.vi + 2)
  }

  function Spin(n: nat): Cycles {
    if n == 0 then Cycles(0, 0, 0, 0, 0) else SpinTurn(Spin(n - 1))
  }

  lemma {:induction false} SpinCycles(n: nat)
    ensures Spin(n) == Cycles(3 * n, 2 * n, 2 * n, 2 * n, 2 * n)
  {
    if n > 0 {
      SpinCycles(n - 1);
    }
  }

  /** Whenever the threads meet, every device has run as many cycles as after
      3125 turns of the single-threaded loop for each meeting: 6250 RCP cycles
      to 9375 VR4300 cycles. */
  lemma MeetingMatchesSpin(schedule: seq<Who>, w: Who)
    requires Enabled(Run(START, schedule), w)
    requires var s := Run(START, schedule); Step(s, w).meetings == s.meetings + 1
    ensures var s' := Step(Run(START, schedule), w);
      && Threaded(s') == Spin(3125 * s'.meetings)
      && s'.rcp.turns == 6250 * s'.meetings && 3 * s'.cpu.turns == 9375 * s'.meetings
  {
    hide Run;
    RunKeepsInv(schedule);
    var s := Run(START, schedule);
    var s' := Step(s, w);
    assert Get(s, w).pc.Test? && s.waiting;
    SpinCycles(3125 * s'.meetings);
    hide Spin;
  }

  /** Between meetings neither thread runs more than a quantum ahead. */
  lemma DriftIsBounded(schedule: seq<Who>, w: Who)
    ensures var s := Run(START, schedule);
      Quantum(w) * s.meetings <= Get(s, w).turns <= Quantum(w) * s.meetings + Quantum(w)
  {
    hide Run;
    RunKeepsInv(schedule);
  }
}
