/**
 * The execution loop of the emulator (cpu-exec.c): the instruction ring
 * buffer of the last 16 trace lines, one instruction with its trace and
 * watchpoint hook, execute(n) and the RUNNING/STOP/END/ABORT/QUIT state
 * machine of cpu_exec.
 */
module CpuExec {
  import opened Bits
  import opened Memory
  import opened Unsigned
  import Execute
  import Registers
  import Evaluator
  import opened Watchpoints

  const IringbufSize: int := 16
  const LogEntrySize: int := 128

  // ---------------------------------------------------------------------
  // The instruction ring buffer

  /** The position of the first newline in t, or |t| when there is none (strchr). */
  function FirstNewline(t: string): (k: nat)
    ensures k <= |t| && '\n' !in t[..k]
    ensures k < |t| ==> t[k] == '\n'
  {
    if t == [] then 0
    else if t[0] == '\n' then 0
    else
      var k := FirstNewline(t[1..]);
      assert t[..k + 1] == [t[0]] + t[1..][..k];
      k + 1
  }

  /**
   * What iringbuf_write keeps of a log line: snprintf into 128 bytes keeps at
   * most 127 characters, then the first newline ends the string.
   */
  function Entry(log: string): (r: string)
    ensures |r| <= |log| && r == log[..|r|] && |r| < LogEntrySize && '\n' !in r
    ensures |r| == |log| || |r| == LogEntrySize - 1 || log[|r|] == '\n'
  {
    var t := if |log| < LogEntrySize then log else log[..LogEntrySize - 1];
    var k := FirstNewline(t);
    assert t[..k] == log[..k];
    t[..k]
  }

  /** A line of the dump: its text and whether the arrow marks it as the newest. */
  datatype Line = Line(newest: bool, text: string)

  function Min(a: int, b: int): int
  {
    if a < b then a else b
  }

  class IRingBuf {
    /** iringbuf: 16 entries */
    var buf: array<string>
    /** p_head: where the next entry goes */
    var head: int
    /** is_full: the buffer has wrapped at least once */
    var isFull: bool
    /** Every entry ever written, oldest first. */
    ghost var Log: seq<string>

    /** Slots before head hold the newest entries; once full, the slots from head on hold the 16 before them. */
    ghost predicate Valid()
      reads this, buf
    {
      buf.Length == IringbufSize && 0 <= head < IringbufSize &&
      (isFull <==> |Log| >= IringbufSize) &&
      (!isFull ==> head == |Log|) &&
      (isFull ==> |Log| >= head + IringbufSize) &&
      (forall j :: 0 <= j < head ==> buf[j] == Log[|Log| - head + j]) &&
      (isFull ==> forall j :: head <= j < IringbufSize ==> buf[j] == Log[|Log| - head - IringbufSize + j])
    }

    /** The zero-initialised static buffer. */
    constructor ()
      ensures Valid() && Log == [] && fresh(buf)
    {
      buf := new string[IringbufSize](_ => "");
      head := 0;
      isFull := false;
      Log := [];
    }

    /** iringbuf_write: store the entry at p_head and advance p_head modulo 16; wrapping to 0 sets is_full for good. */
    method Write(log: string)
      requires Valid()
      modifies this, buf
      ensures Valid() && buf == old(buf)
      ensures Log == old(Log) + [Entry(log)]
      ensures head == (old(head) + 1) % IringbufSize
      ensures isFull <==> old(isFull) || head == 0
    {
      buf[head] := Entry(log);
      head := (head + 1) % IringbufSize;
      if head == 0 {
        isFull := true;
      }
      Log := Log + [Entry(log)];
    }

    /**
     * iringbuf_display: nothing when empty, otherwise the last
     * min(|Log|, 16) entries, oldest first, with the arrow on the newest.
     */
    method Display() returns (lines: seq<Line>)
      requires Valid()
      ensures |lines| == Min(|Log|, IringbufSize)
      ensures forall i :: 0 <= i < |lines| ==>
        lines[i] == Line(i == |lines| - 1, Log[|Log| - |lines| + i])
    {
      if !isFull && head == 0 {
        return [];
      }
      var start := if isFull then head else 0;
      var count := if isFull then IringbufSize else head;
      var newest := (head - 1 + IringbufSize) % IringbufSize;
      assert newest == if head == 0 then IringbufSize - 1 else head - 1;
      lines := [];
      var i := 0;
      while i < count
        invariant 0 <= i <= count && |lines| == i
        invariant forall t :: 0 <= t < i ==> lines[t] == Line(t == count - 1, Log[|Log| - count + t])
      {
        var index := (start + i) % IringbufSize;
        assert index == if start + i < IringbufSize then start + i else start + i - IringbufSize;
        lines := lines + [Line(index == newest, buf[index])];
        i := i + 1;
      }
    }
  }

  // ---------------------------------------------------------------------
  // The emulator state and one instruction

  /** nemu_state.state */
  datatype RunState = Running | Stop | End | Abort | Quit

  /**
   * Everything execute(n) reads or changes: the CPU, memory, nemu_state, the
   * instruction count, every trace entry written and the watchpoint records.
   */
  datatype Core = Core(pc: Word, gpr: seq<Word>, mem: Mem, state: RunState, haltPc: Word, haltRet: Word,
                       count: nat, log: seq<string>, watch: seq<Slot>)

  /** The CPU and memory as the expression evaluator of the watchpoints sees them. */
  function View(pc: Word, gpr: seq<Word>, mem: Mem): (m: Evaluator.Machine)
    ensures |m.cpu.gpr| == |gpr| && m.cpu.pc == pc as int && m.mem == mem
  {
    Evaluator.Machine(Registers.CpuView(pc as int, seq(|gpr|, i requires 0 <= i < |gpr| => gpr[i] as int)), mem)
  }

  /** The well-formed cores of a pool whose records in use are `used`. */
  predicate Ready(c: Core, used: seq<int>)
  {
    |c.gpr| == Execute.NumRegs && forall k :: 0 <= k < |used| ==> 0 <= used[k] < |c.watch|
  }

  /** What the instruction s asks of nemu_state: NEMUTRAP ends with the code in a0, INV aborts with -1. */
  function Retire(c: Core, s: Execute.Step): (r: Core)
  {
    match s.outcome
    case Running => c.(pc := s.dnpc, gpr := s.gpr, mem := s.mem)
    case Trap(p, code) => c.(pc := s.dnpc, gpr := s.gpr, mem := s.mem, state := End, haltPc := p, haltRet := code)
    case Invalid(p) => c.(pc := s.dnpc, gpr := s.gpr, mem := s.mem, state := Abort, haltPc := p, haltRet := 0xFFFF_FFFF)
  }

  /** The rest of the round once isa_exec_once has produced s: the count, the trace line, and the watchpoint hook on the new state. */
  function After(c: Core, s: Execute.Step, used: seq<int>, trace: (Word, Word) -> string): (r: Core)
    requires Ready(c, used) && |s.gpr| == Execute.NumRegs
    ensures Ready(r, used)
  {
    var m := View(s.dnpc, s.gpr, s.mem);
    var r := Retire(c, s);
    r.(state := if AnyFires(c.watch, used, m) then Stop else r.state,
       count := c.count + 1,
       log := c.log + [Entry(trace(c.pc, Read(c.mem, c.pc, 4)))],
       watch := PollAll(c.watch, used, m))
  }

  /** After, once the watchpoint sweep's report and records are known. */
  lemma AfterIs(c: Core, s: Execute.Step, used: seq<int>, trace: (Word, Word) -> string, fired: bool, w: seq<Slot>)
    requires Ready(c, used) && |s.gpr| == Execute.NumRegs
    requires fired == AnyFires(c.watch, used, View(s.dnpc, s.gpr, s.mem))
    requires w == PollAll(c.watch, used, View(s.dnpc, s.gpr, s.mem))
    ensures After(c, s, used, trace) ==
      Retire(c, s).(state := if fired then Stop else Retire(c, s).state,
                    count := c.count + 1,
                    log := c.log + [Entry(trace(c.pc, Read(c.mem, c.pc, 4)))],
                    watch := w)
  {
  }

  /**
   * One round of the loop of execute: exec_once (isa_exec_once, then
   * cpu.pc = dnpc), the instruction count, the trace line of the instruction
   * in the ring buffer, then check_watchpoints on the new state, which sets
   * STOP when one fires. `trace` stands for the log line the disassembler
   * builds from the pc and the instruction word.
   */
  function Step(c: Core, used: seq<int>, trace: (Word, Word) -> string): (r: Core)
    requires Ready(c, used)
    ensures Ready(r, used)
    ensures var s := Execute.ExecOnce(c.pc, c.gpr, c.mem);
      r.pc == s.dnpc && r.gpr[0] == 0 && r.count == c.count + 1 &&
      r.log == c.log + [Entry(trace(c.pc, Read(c.mem, c.pc, 4)))] &&
      r.state == if AnyFires(c.watch, used, View(s.dnpc, s.gpr, s.mem)) then Stop
                 else match s.outcome
                   case Running => c.state
                   case Trap(_, _) => End
                   case Invalid(_) => Abort
  {
    After(c, Execute.ExecOnce(c.pc, c.gpr, c.mem), used, trace)
  }

  /** execute(n): up to n rounds, stopping after the first round that leaves the state other than RUNNING. */
  function Steps(c: Core, n: nat, used: seq<int>, trace: (Word, Word) -> string): (r: Core)
    requires Ready(c, used)
    ensures Ready(r, used)
    decreases n
  {
    if n == 0 then c
    else
      var c1 := Step(c, used, trace);
      if c1.state != Running then c1 else Steps(c1, n - 1, used, trace)
  }

  /** One more round of execute(k): stop after it when it leaves the state other than RUNNING. */
  lemma StepsUnfold(c: Core, k: nat, left: nat, used: seq<int>, trace: (Word, Word) -> string)
    requires Ready(c, used) && k == left + 1
    ensures var c1 := Step(c, used, trace);
      Steps(c, k, used, trace) == if c1.state != Running then c1 else Steps(c1, left, used, trace)
  {
    var c1 := Step(c, used, trace);
    assert Steps(c, left + 1, used, trace) == if c1.state != Running then c1 else Steps(c1, left, used, trace);
  }

  /**
   * execute(n) runs at most n instructions, one trace line each, and runs
   * fewer only when an instruction left the state other than RUNNING.
   */
  lemma {:induction false} StepsCount(c: Core, n: nat, used: seq<int>, trace: (Word, Word) -> string)
    requires Ready(c, used)
    ensures var r := Steps(c, n, used, trace);
      c.count <= r.count <= c.count + n &&
      |r.log| == |c.log| + (r.count - c.count) &&
      (r.count < c.count + n ==> r.state != Running)
    decreases n
  {
    if n > 0 {
      var left := n - 1;
      StepsUnfold(c, n, left, used, trace);
      var c1 := Step(c, used, trace);
      if c1.state == Running {
        StepsCount(c1, left, used, trace);
      }
    }
  }

  /** execute(k) from c ends in goal. */
  ghost predicate Leads(goal: Core, c: Core, k: nat, used: seq<int>, trace: (Word, Word) -> string)
  {
    Ready(c, used) && goal == Steps(c, k, used, trace)
  }

  /** cpu_exec(n): refuse after END, ABORT or QUIT; otherwise run as RUNNING and turn a RUNNING that is left into STOP. */
  function CpuExecSpec(c: Core, n: nat, used: seq<int>, trace: (Word, Word) -> string): (r: Core)
    requires Ready(c, used)
    ensures Ready(r, used)
  {
    if c.state == End || c.state == Abort || c.state == Quit then c
    else
      var r := Steps(c.(state := Running), n, used, trace);
      if r.state == Running then r.(state := Stop) else r
  }

  /**
   * cpu_exec(n) never leaves the state RUNNING, leaves an ended emulator
   * exactly as it was, and otherwise runs at most n instructions with one
   * trace line each.
   */
  lemma CpuExecSettles(c: Core, n: nat, used: seq<int>, trace: (Word, Word) -> string)
    requires Ready(c, used)
    ensures var r := CpuExecSpec(c, n, used, trace);
      r.state != Running &&
      (c.state == End || c.state == Abort || c.state == Quit ==> r == c) &&
      c.count <= r.count <= c.count + n &&
      |r.log| == |c.log| + (r.count - c.count)
  {
    StepsCount(c.(state := Running), n, used, trace);
  }

  class Emulator {
    /** cpu.pc */
    var pc: Word
    /** cpu.gpr */
    var gpr: seq<Word>
    /** the guest memory */
    var mem: Mem
    /** nemu_state: state, halt_pc, halt_ret */
    var state: RunState
    var haltPc: Word
    var haltRet: Word
    /** g_nr_guest_inst */
    var count: nat
    const iring: IRingBuf
    const pool: Pool

    ghost predicate Valid()
      reads this, iring, iring.buf, pool, pool.wp
    {
      |gpr| == Execute.NumRegs && iring.Valid() && pool.Valid()
    }

    /** The emulator as the monitor leaves it: pc at the entry point, registers zero, state STOP, no trace yet, and the watchpoint pool of the debugger. */
    constructor (entry: Word, image: Mem, pool: Pool)
      requires pool.Valid()
      ensures Valid() && this.pool == pool && fresh(iring) && fresh(iring.buf)
      ensures pc == entry && gpr == seq(Execute.NumRegs, _ => 0) && mem == image
      ensures state == Stop && count == 0 && iring.Log == []
    {
      pc := entry;
      gpr := seq(Execute.NumRegs, _ => 0);
      mem := image;
      state := Stop;
      haltPc, haltRet := 0, 0;
      count := 0;
      iring := new IRingBuf();
      this.pool := pool;
    }

    ghost function Snapshot(): Core
      reads this, iring, pool, pool.wp
    {
      Core(pc, gpr, mem, state, haltPc, haltRet, count, iring.Log, pool.wp[..])
    }

    /** One round of the loop of execute: exec_once, g_nr_guest_inst++, trace_and_difftest. */
    method ExecOnce(trace: (Word, Word) -> string)
      requires Valid()
      modifies this, iring, iring.buf, pool.wp
      ensures Valid() && iring.buf == old(iring.buf)
      ensures Snapshot() == Step(old(Snapshot()), pool.used, trace)
    {
      ghost var c0 := Snapshot();
      var s := Execute.ExecOnce(pc, gpr, mem);
      var m := View(s.dnpc, s.gpr, s.mem);
      var triggered := Finish(s, m, trace);
      AfterIs(c0, s, pool.used, trace, triggered, pool.wp[..]);
    }

    /** Everything exec_once and trace_and_difftest do once isa_exec_once has produced s; m is the machine after it. */
    method Finish(s: Execute.Step, m: Evaluator.Machine, trace: (Word, Word) -> string) returns (triggered: bool)
      requires Valid() && |s.gpr| == Execute.NumRegs && m == View(s.dnpc, s.gpr, s.mem)
      modifies this, iring, iring.buf, pool.wp
      ensures Valid() && iring.buf == old(iring.buf)
      ensures iring.Log == old(iring.Log) + [Entry(trace(old(pc), Read(old(mem), old(pc), 4)))]
      ensures pool.wp[..] == PollAll(old(pool.wp[..]), pool.used, m)
      ensures triggered == AnyFires(old(pool.wp[..]), pool.used, m)
      ensures var r := Retire(old(Snapshot()), s);
        pc == r.pc && gpr == r.gpr && mem == r.mem && haltPc == r.haltPc && haltRet == r.haltRet &&
        count == old(count) + 1 && state == if triggered then Stop else r.state
    {
      iring.Write(trace(pc, Read(mem, pc, 4)));
      Commit(s);
      triggered := Hook(m);
    }

    /** The watchpoint hook of trace_and_difftest: check_watchpoints, and STOP when one fired. */
    method Hook(m: Evaluator.Machine) returns (triggered: bool)
      requires pool.Valid() && m.cpu.Valid()
      modifies this, pool.wp
      ensures pool.Valid()
      ensures pool.wp[..] == PollAll(old(pool.wp[..]), pool.used, m)
      ensures triggered == AnyFires(old(pool.wp[..]), pool.used, m)
      ensures state == if triggered then Stop else old(state)
      ensures pc == old(pc) && gpr == old(gpr) && mem == old(mem) && haltPc == old(haltPc) && haltRet == old(haltRet) && count == old(count)
    {
      triggered := pool.CheckWatchpoints(m);
      if triggered {
        state := Stop;
      }
    }

    /** cpu.pc = dnpc, the register file and memory the instruction left, nemu_state as it set it, and g_nr_guest_inst++. */
    method Commit(s: Execute.Step)
      modifies this
      ensures pc == s.dnpc && gpr == s.gpr && mem == s.mem && count == old(count) + 1
      ensures s.outcome.Running? ==> state == old(state) && haltPc == old(haltPc) && haltRet == old(haltRet)
      ensures s.outcome.Trap? ==> state == End && haltPc == s.outcome.haltPc && haltRet == s.outcome.code
      ensures s.outcome.Invalid? ==> state == Abort && haltPc == s.outcome.haltPc && haltRet == 0xFFFF_FFFF
    {
      pc, gpr, mem := s.dnpc, s.gpr, s.mem;
      match s.outcome {
        case Running =>
        case Trap(p, code) =>
          state, haltPc, haltRet := End, p, code;
        case Invalid(p) =>
          state, haltPc, haltRet := Abort, p, 0xFFFF_FFFF;
      }
      count := count + 1;
    }

    /** execute(n) */
    method Run(n: nat, trace: (Word, Word) -> string)
      requires Valid()
      modifies this, iring, iring.buf, pool.wp
      ensures Valid() && iring.buf == old(iring.buf)
      ensures Snapshot() == Steps(old(Snapshot()), n, pool.used, trace)
    {
      ghost var goal := Steps(Snapshot(), n, pool.used, trace);
      var k := n;
      while k > 0
        invariant Valid() && pool.used == old(pool.used) && iring.buf == old(iring.buf)
        invariant Leads(goal, Snapshot(), k, pool.used, trace)
      {
        var going;
        going, k := Round(goal, k, trace);
        if !going {
          return;
        }
      }
    }

    /** One pass of the loop of execute(k): one round, whether the state is still RUNNING, and the rounds left. */
    method Round(ghost goal: Core, k: nat, trace: (Word, Word) -> string) returns (going: bool, left: nat)
      requires Valid() && k > 0 && Leads(goal, Snapshot(), k, pool.used, trace)
      modifies this, iring, iring.buf, pool.wp
      ensures Valid() && iring.buf == old(iring.buf)
      ensures going <==> state == Running
      ensures left == k - 1
      ensures going ==> Leads(goal, Snapshot(), left, pool.used, trace)
      ensures !going ==> goal == Snapshot()
    {
      ghost var c := Snapshot();
      ExecOnce(trace);
      left := k - 1;
      StepsUnfold(c, k, left, pool.used, trace);
      going := state == Running;
    }

    /** cpu_exec(n) */
    method CpuExec(n: nat, trace: (Word, Word) -> string)
      requires Valid()
      modifies this, iring, iring.buf, pool.wp
      ensures Valid() && iring.buf == old(iring.buf)
      ensures Snapshot() == CpuExecSpec(old(Snapshot()), n, pool.used, trace)
    {
      if state == End || state == Abort || state == Quit {
        return;
      }
      ghost var c := Snapshot();
      state := Running;
      assert Snapshot() == c.(state := Running);
      Run(n, trace);
      ghost var r := Snapshot();
      if state == Running {
        state := Stop;
        assert Snapshot() == r.(state := Stop);
      }
    }
  }
}
