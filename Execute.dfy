/**
 * The per-instruction semantics of the RV32IM core (decode_exec and
 * isa_exec_once in inst.c): operands are read by format, the decoded
 * instruction computes a register value, a store, or a new next pc, and x0 is
 * forced back to zero at the end. The step is a function from the instruction
 * word, pc, register file and memory to the new register file, memory, next pc
 * and what the instruction asked of the emulator (END by NEMUTRAP, ABORT by INV).
 */
module Execute {
  import opened Bits
  import opened Memory
  import opened Decoder
  import opened Wrappers

  const NumRegs: nat := 32

  /** What an instruction asks of the emulator besides its register and memory effects. */
  datatype Outcome =
    | Running                          // nothing: the state stays RUNNING
    | Trap(haltPc: Word, code: Word)   // NEMUTRAP(pc, a0): END, with a0 as the exit code
    | Invalid(haltPc: Word)            // INV(pc): ABORT

  /** Register numbers rd, rs1 and rs2 of decode_operand. */
  function Rd(inst: Word): (r: nat)
    ensures r < NumRegs
  {
    Field(inst, 11, 7) as nat
  }

  function Rs1(inst: Word): (r: nat)
    ensures r < NumRegs
  {
    Field(inst, 19, 15) as nat
  }

  function Rs2(inst: Word): (r: nat)
    ensures r < NumRegs
  {
    Field(inst, 24, 20) as nat
  }

  /** R(i): general-purpose register i. Every register number decoded is below 32; the read is total so that it owes no bound. */
  function Reg(gpr: seq<Word>, i: int): (r: Word)
    ensures 0 <= i < |gpr| ==> r == gpr[i]
  {
    if 0 <= i < |gpr| then gpr[i] else 0
  }

  /** src1: R(rs1) for the formats that read it, 0 otherwise. */
  function Src1(inst: Word, fmt: Format, gpr: seq<Word>): Word
  {
    if fmt.TypeI? || fmt.TypeS? || fmt.TypeR? || fmt.TypeB? then Reg(gpr, Rs1(inst)) else 0
  }

  /** src2: R(rs2) for the formats that read it, 0 otherwise. */
  function Src2(inst: Word, fmt: Format, gpr: seq<Word>): Word
  {
    if fmt.TypeS? || fmt.TypeR? || fmt.TypeB? then Reg(gpr, Rs2(inst)) else 0
  }

  /** imm: the format's immediate, 0 for the formats without one. */
  function Imm(inst: Word, fmt: Format): Word
  {
    match fmt
    case TypeI => ImmI(inst)
    case TypeU => ImmU(inst)
    case TypeS => ImmS(inst)
    case TypeJ => ImmJ(inst)
    case TypeB => ImmB(inst)
    case TypeR | TypeN => 0
  }

  /** The 32-bit two's-complement value of the sign of `x`, widened to 64 bits. */
  function WideSigned(x: Word): bv64
  {
    (x as bv64) | ((SignMask(x) as bv64) << 32)
  }

  function WideUnsigned(x: Word): bv64
  {
    x as bv64
  }

  /** Bits 63:32 of a 64-bit product, truncated to word_t. */
  function HighWord(p: bv64): Word
  {
    (p >> 32) as Word
  }

  /** mulh: the high word of the 64-bit product of two signed words. */
  function MulHighSigned(a: Word, b: Word): Word
  {
    HighWord(WideSigned(a) * WideSigned(b))
  }

  /** mulhsu: the high word of the product of a signed and an unsigned word. */
  function MulHighSignedUnsigned(a: Word, b: Word): Word
  {
    HighWord(WideSigned(a) * WideUnsigned(b))
  }

  /** mulhu: the high word of the product of two unsigned words. */
  function MulHighUnsigned(a: Word, b: Word): Word
  {
    HighWord(WideUnsigned(a) * WideUnsigned(b))
  }

  /** x when w is non-negative, -x when it is negative, chosen with w's sign mask instead of a branch. */
  function ApplySign(x: Word, w: Word): Word
  {
    (x ^ SignMask(w)) - SignMask(w)
  }

  /** (sword_t)a / (sword_t)b rounded toward zero, as C divides, for b != 0 and no overflow. */
  function SignedQuotient(a: Word, b: Word): Word
    requires b != 0
  {
    ApplySign(Magnitude(a) / Magnitude(b), a ^ b)
  }

  /** (sword_t)a % (sword_t)b as C computes it: the remainder takes the sign of the dividend. */
  function SignedRemainder(a: Word, b: Word): Word
    requires b != 0
  {
    ApplySign(Magnitude(a) % Magnitude(b), a)
  }

  /** div: -1 on division by zero, the dividend on signed overflow. */
  function SignedDiv(a: Word, b: Word): (r: Word)
    ensures b == 0 ==> r == 0xFFFF_FFFF
    ensures a == 0x8000_0000 && b == 0xFFFF_FFFF ==> r == 0x8000_0000
  {
    if b == 0 then 0xFFFF_FFFF
    else if a == 0x8000_0000 && b == 0xFFFF_FFFF then 0x8000_0000
    else SignedQuotient(a, b)
  }

  /** divu: all ones on division by zero, the unsigned quotient otherwise. */
  function UnsignedDiv(a: Word, b: Word): (r: Word)
    ensures b == 0 ==> r == 0xFFFF_FFFF
  {
    if b == 0 then 0xFFFF_FFFF else a / b
  }

  /** rem: the dividend on division by zero, 0 on signed overflow. */
  function SignedRem(a: Word, b: Word): (r: Word)
    ensures b == 0 ==> r == a
    ensures a == 0x8000_0000 && b == 0xFFFF_FFFF ==> r == 0
  {
    if b == 0 then a
    else if a == 0x8000_0000 && b == 0xFFFF_FFFF then 0
    else SignedRemainder(a, b)
  }

  /** remu: the dividend on division by zero, the unsigned remainder otherwise. */
  function UnsignedRem(a: Word, b: Word): (r: Word)
    ensures b == 0 ==> r == a
  {
    if b == 0 then a else a % b
  }

  function SetIf(c: bool): Word
  {
    if c then 1 else 0
  }

  /** How an instruction affects the machine, which decides the shape of its INSTPAT body. */
  datatype Kind = Computing | Loading | Storing | Branching | JumpAndLink | JumpAndLinkRegister | Halting | Undecodable

  function KindOf(op: Op): Kind
  {
    match op
    case Lb | Lh | Lw | Lbu | Lhu => Loading
    case Sb | Sh | Sw => Storing
    case Beq | Bne | Blt | Bge | Bltu | Bgeu => Branching
    case Jal => JumpAndLink
    case Jalr => JumpAndLinkRegister
    case Ebreak => Halting
    case Inv => Undecodable
    case _ => Computing
  }

  predicate Computes(op: Op) { KindOf(op) == Computing }
  predicate IsLoad(op: Op) { KindOf(op) == Loading }
  predicate IsStore(op: Op) { KindOf(op) == Storing }
  predicate IsBranch(op: Op) { KindOf(op) == Branching }

  /** The value such an instruction writes to rd. */
  function Compute(op: Op, pc: Word, src1: Word, src2: Word, imm: Word): Word
    requires Computes(op)
  {
    match op
    case Auipc => pc + imm
    case Lui => imm
    case Addi => src1 + imm
    case Slti => SetIf(SignedLess(src1, imm))
    case Sltiu => SetIf(src1 < imm)
    case Xori => src1 ^ imm
    case Ori => src1 | imm
    case Andi => src1 & imm
    case Slli => src1 << ShiftAmount(imm)
    case Srli => src1 >> ShiftAmount(imm)
    case Srai => ShiftRightArith(src1, ShiftAmount(imm))
    case Add => src1 + src2
    case Sub => src1 - src2
    case Sll => src1 << ShiftAmount(src2)
    case Slt => SetIf(SignedLess(src1, src2))
    case Sltu => SetIf(src1 < src2)
    case Xor => src1 ^ src2
    case Srl => src1 >> ShiftAmount(src2)
    case Sra => ShiftRightArith(src1, ShiftAmount(src2))
    case Or => src1 | src2
    case And => src1 & src2
    case Mul => src1 * src2
    case Mulh => MulHighSigned(src1, src2)
    case Mulhsu => MulHighSignedUnsigned(src1, src2)
    case Mulhu => MulHighUnsigned(src1, src2)
    case Div => SignedDiv(src1, src2)
    case Divu => UnsignedDiv(src1, src2)
    case Rem => SignedRem(src1, src2)
    case Remu => UnsignedRem(src1, src2)
  }

  /** The value a load writes to rd: lb and lh sign-extend, lbu and lhu zero-extend. */
  function Load(op: Op, m: Mem, addr: Word): Word
    requires IsLoad(op)
  {
    match op
    case Lb => Sext(Read(m, addr, 1), 8)
    case Lh => Sext(Read(m, addr, 2), 16)
    case Lw => Read(m, addr, 4)
    case Lbu => Read(m, addr, 1)
    case Lhu => Read(m, addr, 2)
  }

  /** The number of bytes a store writes. */
  function StoreLen(op: Op): (len: Word)
    requires IsStore(op)
    ensures ValidLen(len)
  {
    match op
    case Sb => 1
    case Sh => 2
    case Sw => 4
  }

  /** The condition under which a branch is taken. */
  predicate Taken(op: Op, src1: Word, src2: Word)
  {
    match op
    case Beq => src1 == src2
    case Bne => src1 != src2
    case Blt => SignedLess(src1, src2)
    case Bge => !SignedLess(src1, src2)
    case Bltu => src1 < src2
    case Bgeu => src1 >= src2
    case _ => false
  }

  /** What the body of an INSTPAT line does, before x0 is reset. */
  datatype Effect = Effect(write: Option<Word>, store: Option<MemWrite>, dnpc: Word, outcome: Outcome)

  function Exec(op: Op, rd: nat, pc: Word, snpc: Word, src1: Word, src2: Word, imm: Word,
                a0: Word, m: Mem): Effect
  {
    match KindOf(op)
    case Computing => Effect(Some(Compute(op, pc, src1, src2, imm)), None, snpc, Running)
    case Loading => Effect(Some(Load(op, m, src1 + imm)), None, snpc, Running)
    case Storing => Effect(None, Some(MemWrite(src1 + imm, StoreLen(op), src2)), snpc, Running)
    case Branching => Effect(None, None, if Taken(op, src1, src2) then pc + imm else snpc, Running)
    case JumpAndLink => Effect(if rd != 0 then Some(pc + 4) else None, None, pc + imm, Running)
    case JumpAndLinkRegister => Effect(if rd != 0 then Some(pc + 4) else None, None, (src1 + imm) & !1, Running)
    case Halting => Effect(None, None, snpc, Trap(pc, a0))
    case Undecodable => Effect(None, None, snpc, Invalid(pc))
  }

  /** The machine after one instruction: registers, memory, next pc, outcome. */
  datatype Step = Step(gpr: seq<Word>, mem: Mem, dnpc: Word, outcome: Outcome)

  function Commit(gpr: seq<Word>, rd: nat, write: Option<Word>): (r: seq<Word>)
    requires |gpr| == NumRegs && rd < NumRegs
    ensures |r| == NumRegs && r[0] == 0
    ensures forall i :: 0 < i < NumRegs && i != rd ==> r[i] == gpr[i]
    ensures rd != 0 && write.Some? ==> r[rd] == write.value
    ensures write.None? ==> forall i :: 0 < i < NumRegs ==> r[i] == gpr[i]
  {
    var written := if write.Some? then gpr[rd := write.value] else gpr;
    written[0 := 0]
  }

  function Apply(m: Mem, store: Option<MemWrite>): Mem
  {
    if store.Some? && ValidLen(store.value.len) then Write(m, store.value) else m
  }

  /**
   * The body of the INSTPAT line of `op`, run on the operands decode_operand
   * reads from `inst` in op's format.
   */
  function OpEffect(op: Op, inst: Word, pc: Word, snpc: Word, gpr: seq<Word>, m: Mem): Effect
  {
    var fmt := FormatOf(op);
    Exec(op, Rd(inst), pc, snpc, Src1(inst, fmt, gpr), Src2(inst, fmt, gpr), Imm(inst, fmt), Reg(gpr, 10), m)
  }

  /** That body followed by R(0) = 0: the machine after `inst` once it is known to be `op`. */
  function RunOp(op: Op, inst: Word, pc: Word, snpc: Word, gpr: seq<Word>, m: Mem): (s: Step)
    requires |gpr| == NumRegs
    ensures |s.gpr| == NumRegs
    ensures s.gpr[0] == 0
    ensures forall i :: 0 < i < NumRegs && i != Rd(inst) ==> s.gpr[i] == gpr[i]
  {
    var e := OpEffect(op, inst, pc, snpc, gpr, m);
    Step(Commit(gpr, Rd(inst), e.write), Apply(m, e.store), e.dnpc, e.outcome)
  }

  /**
   * decode_exec: dnpc starts as snpc, the first matching pattern's operands are
   * read and its body run, then R(0) = 0.
   */
  function DecodeExec(inst: Word, pc: Word, snpc: Word, gpr: seq<Word>, m: Mem): (s: Step)
    requires |gpr| == NumRegs
    ensures |s.gpr| == NumRegs
    ensures s.gpr[0] == 0
    ensures forall i :: 0 < i < NumRegs && i != Rd(inst) ==> s.gpr[i] == gpr[i]
  {
    RunOp(Decode(inst), inst, pc, snpc, gpr, m)
  }

  /** isa_exec_once: fetch four bytes at pc, advance snpc past them, decode and run. */
  function ExecOnce(pc: Word, gpr: seq<Word>, m: Mem): (s: Step)
    requires |gpr| == NumRegs
    ensures |s.gpr| == NumRegs && s.gpr[0] == 0
  {
    DecodeExec(Read(m, pc, 4), pc, pc + 4, gpr, m)
  }
  // ---------------------------------------------------------------------------
  // What each kind of instruction reads and does (helpers for the step lemmas)
  // ---------------------------------------------------------------------------

  lemma BranchFormat(op: Op)
    requires IsBranch(op)
    ensures FormatOf(op) == TypeB
  {
  }

  lemma StoreFormat(op: Op)
    requires IsStore(op)
    ensures FormatOf(op) == TypeS
  {
  }

  /** A store reads rs1, rs2 and the S immediate. */
  lemma StoreOperands(inst: Word, op: Op, gpr: seq<Word>)
    requires IsStore(op)
    ensures Src1(inst, FormatOf(op), gpr) == Reg(gpr, Rs1(inst))
    ensures Src2(inst, FormatOf(op), gpr) == Reg(gpr, Rs2(inst))
    ensures Imm(inst, FormatOf(op)) == ImmS(inst)
  {
    StoreFormat(op);
  }

  lemma JumpFormats()
    ensures FormatOf(Jal) == TypeJ && FormatOf(Jalr) == TypeI
    ensures FormatOf(Ebreak) == TypeN && FormatOf(Inv) == TypeN
  {
  }

  lemma KindOfJumps(op: Op)
    ensures KindOf(op) == JumpAndLink <==> op == Jal
    ensures KindOf(op) == JumpAndLinkRegister <==> op == Jalr
    ensures KindOf(op) == Halting <==> op == Ebreak
    ensures KindOf(op) == Undecodable <==> op == Inv
  {
  }

  lemma ExecNoStore(op: Op, rd: nat, pc: Word, snpc: Word, src1: Word, src2: Word, imm: Word, a0: Word, m: Mem)
    ensures !IsStore(op) ==> Exec(op, rd, pc, snpc, src1, src2, imm, a0, m).store == None
  {
  }

  lemma ExecStore(op: Op, rd: nat, pc: Word, snpc: Word, src1: Word, src2: Word, imm: Word, a0: Word, m: Mem)
    ensures IsStore(op) ==> Exec(op, rd, pc, snpc, src1, src2, imm, a0, m).store == Some(MemWrite(src1 + imm, StoreLen(op), src2))
  {
  }

  lemma ExecSequential(op: Op, rd: nat, pc: Word, snpc: Word, src1: Word, src2: Word, imm: Word, a0: Word, m: Mem)
    ensures KindOf(op) != Branching && KindOf(op) != JumpAndLink && KindOf(op) != JumpAndLinkRegister ==> Exec(op, rd, pc, snpc, src1, src2, imm, a0, m).dnpc == snpc
  {
  }

  lemma ExecRunning(op: Op, rd: nat, pc: Word, snpc: Word, src1: Word, src2: Word, imm: Word, a0: Word, m: Mem)
    ensures KindOf(op) != Halting && KindOf(op) != Undecodable ==> Exec(op, rd, pc, snpc, src1, src2, imm, a0, m).outcome == Running
  {
  }

  lemma ExecBranch(op: Op, rd: nat, pc: Word, snpc: Word, src1: Word, src2: Word, imm: Word, a0: Word, m: Mem)
    ensures IsBranch(op) ==> (Exec(op, rd, pc, snpc, src1, src2, imm, a0, m)
            == Effect(None, None, if Taken(op, src1, src2) then pc + imm else snpc, Running))
  {
  }

  lemma ExecJal(op: Op, rd: nat, pc: Word, snpc: Word, src1: Word, src2: Word, imm: Word, a0: Word, m: Mem)
    ensures KindOf(op) == JumpAndLink ==> (Exec(op, rd, pc, snpc, src1, src2, imm, a0, m)
            == Effect(if rd != 0 then Some(pc + 4) else None, None, pc + imm, Running))
  {
  }

  lemma ExecJalr(op: Op, rd: nat, pc: Word, snpc: Word, src1: Word, src2: Word, imm: Word, a0: Word, m: Mem)
    ensures KindOf(op) == JumpAndLinkRegister ==> (Exec(op, rd, pc, snpc, src1, src2, imm, a0, m)
            == Effect(if rd != 0 then Some(pc + 4) else None, None, (src1 + imm) & !1, Running))
  {
  }

  lemma ExecEbreak(op: Op, rd: nat, pc: Word, snpc: Word, src1: Word, src2: Word, imm: Word, a0: Word, m: Mem)
    ensures KindOf(op) == Halting ==> Exec(op, rd, pc, snpc, src1, src2, imm, a0, m) == Effect(None, None, snpc, Trap(pc, a0))
  {
  }

  lemma ExecInv(op: Op, rd: nat, pc: Word, snpc: Word, src1: Word, src2: Word, imm: Word, a0: Word, m: Mem)
    ensures KindOf(op) == Undecodable ==> Exec(op, rd, pc, snpc, src1, src2, imm, a0, m) == Effect(None, None, snpc, Invalid(pc))
  {
  }

  lemma ExecComputes(op: Op, rd: nat, pc: Word, snpc: Word, src1: Word, src2: Word, imm: Word, a0: Word, m: Mem)
    ensures Computes(op) ==> Exec(op, rd, pc, snpc, src1, src2, imm, a0, m).write == Some(Compute(op, pc, src1, src2, imm))
  {
  }

  /** The step with its effect spelled out. */
  lemma StepOfEffect(op: Op, inst: Word, pc: Word, snpc: Word, gpr: seq<Word>, m: Mem, e: Effect)
    requires |gpr| == NumRegs && e == OpEffect(op, inst, pc, snpc, gpr, m)
    ensures RunOp(op, inst, pc, snpc, gpr, m)
            == Step(Commit(gpr, Rd(inst), e.write), Apply(m, e.store), e.dnpc, e.outcome)
  {
  }

  /** A branch reads rs1, rs2 and the B immediate. */
  lemma BranchOperands(inst: Word, op: Op, gpr: seq<Word>)
    requires IsBranch(op)
    ensures Src1(inst, FormatOf(op), gpr) == Reg(gpr, Rs1(inst))
    ensures Src2(inst, FormatOf(op), gpr) == Reg(gpr, Rs2(inst))
    ensures Imm(inst, FormatOf(op)) == ImmB(inst)
  {
    BranchFormat(op);
  }

  /** A branch's effect with its operands named. */
  lemma BranchExec(op: Op, inst: Word, pc: Word, snpc: Word, gpr: seq<Word>, m: Mem)
    ensures IsBranch(op) ==> (OpEffect(op, inst, pc, snpc, gpr, m)
            == Exec(op, Rd(inst), pc, snpc, Reg(gpr, Rs1(inst)), Reg(gpr, Rs2(inst)), ImmB(inst), Reg(gpr, 10), m))
  {
    if IsBranch(op) {
      BranchOperands(inst, op, gpr);
    }
  }

  lemma BranchEffect(op: Op, inst: Word, pc: Word, snpc: Word, gpr: seq<Word>, m: Mem)
    requires IsBranch(op)
    ensures OpEffect(op, inst, pc, snpc, gpr, m)
            == Effect(None, None, if Taken(op, Reg(gpr, Rs1(inst)), Reg(gpr, Rs2(inst))) then pc + ImmB(inst) else snpc, Running)
  {
    BranchExec(op, inst, pc, snpc, gpr, m);
    ExecBranch(op, Rd(inst), pc, snpc, Reg(gpr, Rs1(inst)), Reg(gpr, Rs2(inst)), ImmB(inst), Reg(gpr, 10), m);
  }

  /** jal reads only the J immediate. */
  lemma JalOperands(inst: Word, op: Op)
    requires KindOf(op) == JumpAndLink
    ensures Imm(inst, FormatOf(op)) == ImmJ(inst)
  {
    assert FormatOf(op) == TypeJ;
  }

  /** jalr reads rs1 and the I immediate. */
  lemma JalrOperands(inst: Word, op: Op, gpr: seq<Word>)
    requires KindOf(op) == JumpAndLinkRegister
    ensures Src1(inst, FormatOf(op), gpr) == Reg(gpr, Rs1(inst))
    ensures Imm(inst, FormatOf(op)) == ImmI(inst)
  {
    assert FormatOf(op) == TypeI;
  }

  /** jal's effect with its immediate named. */
  lemma JalExec(op: Op, inst: Word, pc: Word, snpc: Word, gpr: seq<Word>, m: Mem)
    ensures KindOf(op) == JumpAndLink ==> (OpEffect(op, inst, pc, snpc, gpr, m)
            == Exec(op, Rd(inst), pc, snpc, Src1(inst, FormatOf(op), gpr), Src2(inst, FormatOf(op), gpr), ImmJ(inst), Reg(gpr, 10), m))
  {
    if KindOf(op) == JumpAndLink {
      JalOperands(inst, op);
    }
  }

  lemma JalEffect(op: Op, inst: Word, pc: Word, snpc: Word, gpr: seq<Word>, m: Mem)
    requires KindOf(op) == JumpAndLink
    ensures OpEffect(op, inst, pc, snpc, gpr, m)
            == Effect(if Rd(inst) != 0 then Some(pc + 4) else None, None, pc + ImmJ(inst), Running)
  {
    JalExec(op, inst, pc, snpc, gpr, m);
    ExecJal(op, Rd(inst), pc, snpc, Src1(inst, FormatOf(op), gpr), Src2(inst, FormatOf(op), gpr), ImmJ(inst), Reg(gpr, 10), m);
  }


  /** jalr's effect with its operands named. */
  lemma JalrExec(op: Op, inst: Word, pc: Word, snpc: Word, gpr: seq<Word>, m: Mem)
    ensures KindOf(op) == JumpAndLinkRegister ==> (OpEffect(op, inst, pc, snpc, gpr, m)
            == Exec(op, Rd(inst), pc, snpc, Reg(gpr, Rs1(inst)), Src2(inst, FormatOf(op), gpr), ImmI(inst), Reg(gpr, 10), m))
  {
    if KindOf(op) == JumpAndLinkRegister {
      JalrOperands(inst, op, gpr);
    }
  }

  lemma JalrEffect(op: Op, inst: Word, pc: Word, snpc: Word, gpr: seq<Word>, m: Mem)
    requires KindOf(op) == JumpAndLinkRegister
    ensures OpEffect(op, inst, pc, snpc, gpr, m)
            == Effect(if Rd(inst) != 0 then Some(pc + 4) else None, None, (Reg(gpr, Rs1(inst)) + ImmI(inst)) & !1, Running)
  {
    JalrExec(op, inst, pc, snpc, gpr, m);
    ExecJalr(op, Rd(inst), pc, snpc, Reg(gpr, Rs1(inst)), Src2(inst, FormatOf(op), gpr), ImmI(inst), Reg(gpr, 10), m);
  }


  /** A step whose effect writes neither a register nor memory. */
  lemma QuietStep(op: Op, inst: Word, pc: Word, snpc: Word, gpr: seq<Word>, m: Mem)
    requires |gpr| == NumRegs
    requires OpEffect(op, inst, pc, snpc, gpr, m).write.None? && OpEffect(op, inst, pc, snpc, gpr, m).store.None?
    ensures var s := RunOp(op, inst, pc, snpc, gpr, m);
            var e := OpEffect(op, inst, pc, snpc, gpr, m);
            s.gpr == gpr[0 := 0] && s.mem == m && s.dnpc == e.dnpc && s.outcome == e.outcome
  {
    CommitNothing(gpr, Rd(inst));
  }

  /** A step's registers and next pc, read off its effect. */
  lemma LinkStep(op: Op, inst: Word, pc: Word, snpc: Word, gpr: seq<Word>, m: Mem)
    requires |gpr| == NumRegs
    ensures var s := RunOp(op, inst, pc, snpc, gpr, m);
            var e := OpEffect(op, inst, pc, snpc, gpr, m);
            s.dnpc == e.dnpc && (Rd(inst) != 0 && e.write.Some? ==> s.gpr[Rd(inst)] == e.write.value)
  {
  }


  // ---------------------------------------------------------------------------
  // Properties of one instruction
  // ---------------------------------------------------------------------------

  /** Only jumps and taken branches leave the sequential next pc. */
  lemma SequentialNextPc(op: Op, inst: Word, pc: Word, snpc: Word, gpr: seq<Word>, m: Mem)
    requires |gpr| == NumRegs
    requires !IsBranch(op) && op != Jal && op != Jalr
    ensures RunOp(op, inst, pc, snpc, gpr, m).dnpc == snpc
  {
    var fmt := FormatOf(op);
    KindOfJumps(op);
    ExecSequential(op, Rd(inst), pc, snpc, Src1(inst, fmt, gpr), Src2(inst, fmt, gpr), Imm(inst, fmt), Reg(gpr, 10), m);
  }

  /** A branch goes to pc + the B immediate exactly when its condition holds on rs1 and rs2. */
  lemma BranchNextPc(op: Op, inst: Word, pc: Word, snpc: Word, gpr: seq<Word>, m: Mem)
    requires |gpr| == NumRegs && IsBranch(op)
    ensures var s := RunOp(op, inst, pc, snpc, gpr, m);
            s.dnpc == (if Taken(op, Reg(gpr, Rs1(inst)), Reg(gpr, Rs2(inst))) then pc + ImmB(inst) else snpc)
            && s.gpr == gpr[0 := 0] && s.mem == m && s.outcome == Running
  {
    BranchEffect(op, inst, pc, snpc, gpr, m);
    QuietStep(op, inst, pc, snpc, gpr, m);
  }

  /** jal jumps pc-relative and links pc + 4 into rd unless rd is x0. */
  lemma JalLinks(inst: Word, pc: Word, snpc: Word, gpr: seq<Word>, m: Mem)
    requires |gpr| == NumRegs
    ensures var s := RunOp(Jal, inst, pc, snpc, gpr, m);
            s.dnpc == pc + ImmJ(inst)
            && (Rd(inst) != 0 ==> s.gpr[Rd(inst)] == pc + 4)
            && (Rd(inst) == 0 ==> s.gpr == gpr[0 := 0])
  {
    KindOfJumps(Jal);
    JalEffect(Jal, inst, pc, snpc, gpr, m);
    if Rd(inst) != 0 {
      LinkStep(Jal, inst, pc, snpc, gpr, m);
    } else {
      QuietStep(Jal, inst, pc, snpc, gpr, m);
    }
  }

  /**
   * jalr jumps to rs1 + imm with bit 0 cleared, using rs1 as it was before the
   * link is written (rd may equal rs1), and links pc + 4 unless rd is x0.
   */
  lemma JalrLinks(inst: Word, pc: Word, snpc: Word, gpr: seq<Word>, m: Mem)
    requires |gpr| == NumRegs
    ensures var s := RunOp(Jalr, inst, pc, snpc, gpr, m);
            s.dnpc == (Reg(gpr, Rs1(inst)) + ImmI(inst)) & !1
            && (Rd(inst) != 0 ==> s.gpr[Rd(inst)] == pc + 4)
  {
    KindOfJumps(Jalr);
    JalrEffect(Jalr, inst, pc, snpc, gpr, m);
    LinkStep(Jalr, inst, pc, snpc, gpr, m);
  }

  /** The target of jalr is always even. */
  lemma JalrAligned(inst: Word, pc: Word, snpc: Word, gpr: seq<Word>, m: Mem)
    requires |gpr| == NumRegs
    ensures RunOp(Jalr, inst, pc, snpc, gpr, m).dnpc & 1 == 0
  {
    JalrLinks(inst, pc, snpc, gpr, m);
    ClearedLowBit(Reg(gpr, Rs1(inst)) + ImmI(inst));
  }

  lemma ClearedLowBit(x: Word)
    ensures (x & !1) & 1 == 0
  {
  }

  /** Commit without a write only resets x0. */
  lemma CommitNothing(gpr: seq<Word>, rd: nat)
    requires |gpr| == NumRegs && rd < NumRegs
    ensures Commit(gpr, rd, None) == gpr[0 := 0]
  {
  }

  /** ebreak's and an undecodable word's effect: format N reads no operand. */
  lemma HaltingExec(op: Op, inst: Word, pc: Word, snpc: Word, gpr: seq<Word>, m: Mem)
    ensures op == Ebreak || op == Inv ==> (OpEffect(op, inst, pc, snpc, gpr, m)
            == Exec(op, Rd(inst), pc, snpc, 0, 0, 0, Reg(gpr, 10), m))
  {
    JumpFormats();
  }

  lemma HaltingEffect(op: Op, inst: Word, pc: Word, snpc: Word, gpr: seq<Word>, m: Mem)
    requires op == Ebreak || op == Inv
    ensures OpEffect(op, inst, pc, snpc, gpr, m)
            == Effect(None, None, snpc, if op == Ebreak then Trap(pc, Reg(gpr, 10)) else Invalid(pc))
  {
    KindOfJumps(op);
    HaltingExec(op, inst, pc, snpc, gpr, m);
    ExecEbreak(op, Rd(inst), pc, snpc, 0, 0, 0, Reg(gpr, 10), m);
    ExecInv(op, Rd(inst), pc, snpc, 0, 0, 0, Reg(gpr, 10), m);
  }

  /** ebreak and an undecodable word stop the run at their pc and change nothing but x0. */
  lemma HaltingStep(op: Op, inst: Word, pc: Word, snpc: Word, gpr: seq<Word>, m: Mem)
    requires |gpr| == NumRegs && (op == Ebreak || op == Inv)
    ensures var s := RunOp(op, inst, pc, snpc, gpr, m);
            s.outcome == (if op == Ebreak then Trap(pc, Reg(gpr, 10)) else Invalid(pc))
            && s.gpr == gpr[0 := 0] && s.mem == m && s.dnpc == snpc
  {
    HaltingEffect(op, inst, pc, snpc, gpr, m);
    CommitNothing(gpr, Rd(inst));
    StepOfEffect(op, inst, pc, snpc, gpr, m, OpEffect(op, inst, pc, snpc, gpr, m));
  }

  /** ebreak ends the run with a0 as the exit code (NEMUTRAP) and changes nothing else. */
  lemma EbreakTraps(pc: Word, snpc: Word, gpr: seq<Word>, m: Mem)
    requires |gpr| == NumRegs
    ensures var s := DecodeExec(0x0010_0073, pc, snpc, gpr, m);
            s.outcome == Trap(pc, Reg(gpr, 10)) && s.gpr == gpr[0 := 0] && s.mem == m && s.dnpc == snpc
  {
    DecodeEbreak();
    HaltingStep(Ebreak, 0x0010_0073, pc, snpc, gpr, m);
  }

  /** A word no pattern accepts aborts at its pc (INV) and changes nothing else. */
  lemma InvalidAborts(inst: Word, pc: Word, snpc: Word, gpr: seq<Word>, m: Mem)
    requires |gpr| == NumRegs && Decode(inst) == Inv
    ensures var s := DecodeExec(inst, pc, snpc, gpr, m);
            s.outcome == Invalid(pc) && s.gpr == gpr[0 := 0] && s.mem == m && s.dnpc == snpc
  {
    HaltingStep(Inv, inst, pc, snpc, gpr, m);
  }

  /** Every other instruction keeps running. */
  lemma OnlyTrapsStop(op: Op, inst: Word, pc: Word, snpc: Word, gpr: seq<Word>, m: Mem)
    requires |gpr| == NumRegs && op != Ebreak && op != Inv
    ensures RunOp(op, inst, pc, snpc, gpr, m).outcome == Running
  {
    var fmt := FormatOf(op);
    KindOfJumps(op);
    ExecRunning(op, Rd(inst), pc, snpc, Src1(inst, fmt, gpr), Src2(inst, fmt, gpr), Imm(inst, fmt), Reg(gpr, 10), m);
  }

  /** Only stores change memory. */
  lemma NonStoreKeepsMemory(op: Op, inst: Word, pc: Word, snpc: Word, gpr: seq<Word>, m: Mem)
    requires |gpr| == NumRegs && !IsStore(op)
    ensures RunOp(op, inst, pc, snpc, gpr, m).mem == m
  {
    var fmt := FormatOf(op);
    ExecNoStore(op, Rd(inst), pc, snpc, Src1(inst, fmt, gpr), Src2(inst, fmt, gpr), Imm(inst, fmt), Reg(gpr, 10), m);
  }

  /** A store's effect with its operands named. */
  lemma StoreExec(op: Op, inst: Word, pc: Word, snpc: Word, gpr: seq<Word>, m: Mem)
    ensures IsStore(op) ==> (OpEffect(op, inst, pc, snpc, gpr, m)
            == Exec(op, Rd(inst), pc, snpc, Reg(gpr, Rs1(inst)), Reg(gpr, Rs2(inst)), ImmS(inst), Reg(gpr, 10), m))
  {
    if IsStore(op) {
      StoreOperands(inst, op, gpr);
    }
  }

  lemma StoreEffect(op: Op, inst: Word, pc: Word, snpc: Word, gpr: seq<Word>, m: Mem)
    requires IsStore(op)
    ensures OpEffect(op, inst, pc, snpc, gpr, m).store
            == Some(MemWrite(Reg(gpr, Rs1(inst)) + ImmS(inst), StoreLen(op), Reg(gpr, Rs2(inst))))
  {
    StoreExec(op, inst, pc, snpc, gpr, m);
    ExecStore(op, Rd(inst), pc, snpc, Reg(gpr, Rs1(inst)), Reg(gpr, Rs2(inst)), ImmS(inst), Reg(gpr, 10), m);
  }

  /** A store's memory is Mw(rs1 + the S immediate, width, rs2) applied to the old memory. */
  lemma StoreWrites(op: Op, inst: Word, pc: Word, snpc: Word, gpr: seq<Word>, m: Mem)
    requires |gpr| == NumRegs && IsStore(op)
    ensures RunOp(op, inst, pc, snpc, gpr, m).mem
            == Store(m, Reg(gpr, Rs1(inst)) + ImmS(inst), StoreLen(op), Reg(gpr, Rs2(inst)))
  {
    StoreEffect(op, inst, pc, snpc, gpr, m);
    StepOfEffect(op, inst, pc, snpc, gpr, m, OpEffect(op, inst, pc, snpc, gpr, m));
  }

  /** Reading back the window of a store gives the low bytes of rs2. */
  lemma StoreReadsBack(op: Op, inst: Word, pc: Word, snpc: Word, gpr: seq<Word>, m: Mem)
    requires |gpr| == NumRegs && IsStore(op)
    ensures Read(RunOp(op, inst, pc, snpc, gpr, m).mem, Reg(gpr, Rs1(inst)) + ImmS(inst), StoreLen(op))
            == Truncate(Reg(gpr, Rs2(inst)), StoreLen(op))
  {
    StoreWrites(op, inst, pc, snpc, gpr, m);
    ReadAfterStore(m, Reg(gpr, Rs1(inst)) + ImmS(inst), StoreLen(op), Reg(gpr, Rs2(inst)));
  }

  /** A store leaves every byte outside its window as it was. */
  lemma StoreKeepsOthers(op: Op, inst: Word, pc: Word, snpc: Word, gpr: seq<Word>, m: Mem, a: Word)
    requires |gpr| == NumRegs && IsStore(op)
    requires !Covers(Reg(gpr, Rs1(inst)) + ImmS(inst), StoreLen(op), a)
    ensures At(RunOp(op, inst, pc, snpc, gpr, m).mem, a) == At(m, a)
  {
    StoreWrites(op, inst, pc, snpc, gpr, m);
    StoreFrame(m, Reg(gpr, Rs1(inst)) + ImmS(inst), StoreLen(op), Reg(gpr, Rs2(inst)), a);
  }

  /** A register-writing instruction puts its computed value in rd unless rd is x0. */
  lemma ComputeWritesRd(op: Op, inst: Word, pc: Word, snpc: Word, gpr: seq<Word>, m: Mem)
    requires |gpr| == NumRegs && Computes(op) && Rd(inst) != 0
    ensures var fmt := FormatOf(op);
            RunOp(op, inst, pc, snpc, gpr, m).gpr[Rd(inst)]
              == Compute(op, pc, Src1(inst, fmt, gpr), Src2(inst, fmt, gpr), Imm(inst, fmt))
  {
    var fmt := FormatOf(op);
    ExecComputes(op, Rd(inst), pc, snpc, Src1(inst, fmt, gpr), Src2(inst, fmt, gpr), Imm(inst, fmt), Reg(gpr, 10), m);
  }

  // ---------------------------------------------------------------------------
  // Arithmetic of the register-writing instructions
  // ---------------------------------------------------------------------------

  /** Sign-extending a non-negative word to 64 bits is zero-extending it (mulh, mulhsu). */
  lemma WideSignedNonNegative(x: Word)
    requires !IsNegative(x)
    ensures WideSigned(x) == WideUnsigned(x)
  {
    SignMaskNonNegative(x);
    WidenWithoutSign(x);
  }

  lemma WidenWithoutSign(x: Word)
    requires SignMask(x) == 0
    ensures WideSigned(x) == WideUnsigned(x)
  {
  }

  /** Division rounds toward zero and the remainder takes the dividend's sign, as in C: -7 / 2 and -7 % 2. */
  lemma SignedDivisionTruncates()
    ensures SignedDiv(0xFFFF_FFF9, 2) == 0xFFFF_FFFD
    ensures SignedRem(0xFFFF_FFF9, 2) == 0xFFFF_FFFF
  {
    MagnitudeNegative(0xFFFF_FFF9);
    MagnitudeNonNegative(2);
  }

  /**
   * The mask trick of ApplySign negates x exactly when w is negative: div is the
   * magnitudes' quotient negated when the operands' signs differ (a ^ b is negative),
   * rem the magnitudes' remainder negated when the dividend is negative.
   */
  lemma ApplySignNegates(x: Word, w: Word)
    ensures ApplySign(x, w) == if IsNegative(w) then -x else x
  {
    SignMaskCases(w);
    if IsNegative(w) {
      NegateByMask(x);
    }
  }

  /** The 64-bit operand of mulh is the word sign-extended: its low word is the word, its high word the sign mask. */
  lemma WideSignedExtends(x: Word)
    ensures (WideSigned(x) & 0xFFFF_FFFF) as Word == x && HighWord(WideSigned(x)) == SignMask(x)
    ensures HighWord(WideUnsigned(x)) == 0
  {
  }

  lemma NegateByMask(q: Word)
    ensures (q ^ 0xFFFF_FFFF) - 0xFFFF_FFFF == -q
  {
  }

  // ---------------------------------------------------------------------------
  // Loads
  // ---------------------------------------------------------------------------

  /** lbu zero-extends the byte at the address. */
  lemma LoadUnsignedByte(m: Mem, a: Word)
    ensures Load(Lbu, m, a) == At(m, a) as Word
  {
    ReadByte(m, a);
  }

  lemma LoadSignedByteIs(m: Mem, a: Word)
    ensures Load(Lb, m, a) == Sext(At(m, a) as Word, 8)
  {
    ReadByte(m, a);
  }

  /** lb keeps the byte at the address and copies its bit 7 into the upper 24 bits. */
  lemma LoadSignedByte(m: Mem, a: Word)
    ensures Load(Lb, m, a) & 0xFF == At(m, a) as Word
    ensures Load(Lb, m, a) >> 8 == (if At(m, a) as Word & 0x80 != 0 then 0xFF_FFFF else 0)
  {
    LoadSignedByteIs(m, a);
    Sext8Low(At(m, a) as Word);
    Sext8High(At(m, a) as Word);
    ByteMask(At(m, a));
  }

  lemma ByteMask(b: Byte)
    ensures (b as Word) & 0xFF == b as Word
  {
  }

  /** lw after sw at the same address reads back the stored word; lhu after sh the stored half. */
  lemma LoadAfterStore(m: Mem, a: Word, d: Word)
    ensures Load(Lw, Store(m, a, 4, d), a) == d
    ensures Load(Lhu, Store(m, a, 2, d), a) == d & 0xFFFF
    ensures Load(Lbu, Store(m, a, 1, d), a) == d & 0xFF
  {
    ReadAfterStore(m, a, 4, d);
    ReadAfterStore(m, a, 2, d);
    ReadAfterStore(m, a, 1, d);
  }
}
