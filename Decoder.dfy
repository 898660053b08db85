/**
 * The instruction decoder of the RV32IM core (inst.c): the INSTPAT pattern table,
 * tried in order with the first match winning, the operand formats, and the
 * immediate extractors. An independent decision tree over the opcode, funct3
 * and funct7 fields states which instruction each word is; the table is proved
 * to agree with it on every word, which also makes the patterns other than the
 * final catch-all pairwise disjoint.
 */
module Decoder {
  import opened Bits

  /** Operand formats (TYPE_I ... TYPE_N). */
  datatype Format = TypeI | TypeU | TypeS | TypeJ | TypeB | TypeR | TypeN

  /** The instructions of the table, in the order the table lists them. */
  datatype Op =
    | Auipc | Lbu | Sb | Addi | Slti | Xori | Ori | Andi | Slli | Srli | Srai
    | Sub | Sll | Slt | Srl | Sra | And | Lui | Blt | Bge | Bgeu | Bltu
    | Lb | Lh | Lhu | Sh | Jal | Jalr | Sw | Lw | Add | Sltu | Xor | Or
    | Sltiu | Beq | Bne | Mul | Mulh | Mulhsu | Mulhu | Div | Divu | Rem | Remu
    | Ebreak | Inv

  /** The entries of the pattern table before the catch-all, in source order. */
  const Instructions: seq<Op> :=
    [Auipc, Lbu, Sb, Addi, Slti, Xori, Ori, Andi]
    + [Slli, Srli, Srai, Sub, Sll, Slt, Srl, Sra]
    + [And, Lui, Blt, Bge, Bgeu, Bltu, Lb, Lh]
    + [Lhu, Sh, Jal, Jalr, Sw, Lw, Add, Sltu]
    + [Xor, Or, Sltiu, Beq, Bne, Mul, Mulh, Mulhsu]
    + [Mulhu, Div, Divu, Rem, Remu, Ebreak]

  /** The pattern table: `inv` comes last and matches everything. */
  const Table: seq<Op> := Instructions + [Inv]

  /** One field of an INSTPAT string: all `?`, or fixed to a value. */
  datatype FieldPattern = Free | Fixed(v: nat)

  /**
   * An INSTPAT string. Every string of the table fixes whole fields: the opcode
   * (bits 6:0), possibly funct3 (bits 14:12) and funct7 (bits 31:25), leaving the
   * register and immediate positions `?`; `ebreak` fixes all 32 bits and `inv`
   * none. The 30-character strings leave bits 31:30 unfixed, which is `Free`.
   */
  datatype Pattern =
    | Fields(funct7: FieldPattern, funct3: FieldPattern, opcode: nat)
    | Exact(word: Word)
    | Any

  /** The pattern of each table entry, read off its INSTPAT string. */
  function PatternOf(op: Op): Pattern
  {
    match op
    case Auipc => Fields(Free, Free, 0x17)
    case Lbu => Fields(Free, Fixed(4), 0x03)
    case Sb => Fields(Free, Fixed(0), 0x23)
    case Addi => Fields(Free, Fixed(0), 0x13)
    case Slti => Fields(Free, Fixed(2), 0x13)
    case Xori => Fields(Free, Fixed(4), 0x13)
    case Ori => Fields(Free, Fixed(6), 0x13)
    case Andi => Fields(Free, Fixed(7), 0x13)
    case Slli => Fields(Fixed(0), Fixed(1), 0x13)
    case Srli => Fields(Fixed(0), Fixed(5), 0x13)
    case Srai => Fields(Fixed(0x20), Fixed(5), 0x13)
    case Sub => Fields(Fixed(0x20), Fixed(0), 0x33)
    case Sll => Fields(Fixed(0), Fixed(1), 0x33)
    case Slt => Fields(Fixed(0), Fixed(2), 0x33)
    case Srl => Fields(Fixed(0), Fixed(5), 0x33)
    case Sra => Fields(Fixed(0x20), Fixed(5), 0x33)
    case And => Fields(Fixed(0), Fixed(7), 0x33)
    case Lui => Fields(Free, Free, 0x37)
    case Blt => Fields(Free, Fixed(4), 0x63)
    case Bge => Fields(Free, Fixed(5), 0x63)
    case Bgeu => Fields(Free, Fixed(7), 0x63)
    case Bltu => Fields(Free, Fixed(6), 0x63)
    case Lb => Fields(Free, Fixed(0), 0x03)
    case Lh => Fields(Free, Fixed(1), 0x03)
    case Lhu => Fields(Free, Fixed(5), 0x03)
    case Sh => Fields(Free, Fixed(1), 0x23)
    case Jal => Fields(Free, Free, 0x6F)
    case Jalr => Fields(Free, Fixed(0), 0x67)
    case Sw => Fields(Free, Fixed(2), 0x23)
    case Lw => Fields(Free, Fixed(2), 0x03)
    case Add => Fields(Fixed(0), Fixed(0), 0x33)
    case Sltu => Fields(Fixed(0), Fixed(3), 0x33)
    case Xor => Fields(Fixed(0), Fixed(4), 0x33)
    case Or => Fields(Fixed(0), Fixed(6), 0x33)
    case Sltiu => Fields(Free, Fixed(3), 0x13)
    case Beq => Fields(Free, Fixed(0), 0x63)
    case Bne => Fields(Free, Fixed(1), 0x63)
    case Mul => Fields(Fixed(1), Fixed(0), 0x33)
    case Mulh => Fields(Fixed(1), Fixed(1), 0x33)
    case Mulhsu => Fields(Fixed(1), Fixed(2), 0x33)
    case Mulhu => Fields(Fixed(1), Fixed(3), 0x33)
    case Div => Fields(Fixed(1), Fixed(4), 0x33)
    case Divu => Fields(Fixed(1), Fixed(5), 0x33)
    case Rem => Fields(Fixed(1), Fixed(6), 0x33)
    case Remu => Fields(Fixed(1), Fixed(7), 0x33)
    case Ebreak => Exact(0x0010_0073)
    case Inv => Any
  }

  /** The operand format named in each INSTPAT line. */
  function FormatOf(op: Op): Format
  {
    match op
    case Auipc | Lui => TypeU
    case Sb | Sh | Sw => TypeS
    case Jal => TypeJ
    case Blt | Bge | Bgeu | Bltu | Beq | Bne => TypeB
    case Sub | Sll | Slt | Srl | Sra | And | Add | Sltu | Xor | Or
       | Mul | Mulh | Mulhsu | Mulhu | Div | Divu | Rem | Remu => TypeR
    case Ebreak | Inv => TypeN
    case _ => TypeI
  }

  /** inst[6:0], inst[14:12] and inst[31:25] as numbers. */
  function Opcode(inst: Word): (r: nat)
    ensures r < 0x80
  {
    (inst & 0x7F) as nat
  }

  function Funct3(inst: Word): (r: nat)
    ensures r < 8
  {
    ((inst >> 12) & 0x7) as nat
  }

  function Funct7(inst: Word): (r: nat)
    ensures r < 0x80
  {
    (inst >> 25) as nat
  }

  predicate FieldFits(f: FieldPattern, v: nat)
  {
    f.Free? || f.v == v
  }

  /** Does a word with these fields agree with the pattern on every position it fixes? */
  predicate FitsPattern(p: Pattern, f7: nat, f3: nat, opc: nat, inst: Word)
  {
    match p
    case Fields(p7, p3, popc) => FieldFits(p7, f7) && FieldFits(p3, f3) && opc == popc
    case Exact(w) => inst == w
    case Any => true
  }

  predicate Matches(op: Op, inst: Word)
  {
    FitsPattern(PatternOf(op), Funct7(inst), Funct3(inst), Opcode(inst), inst)
  }

  /** INSTPAT_START ... INSTPAT_END: the first entry of `t` whose pattern matches. */
  function FirstMatch(t: seq<Op>, inst: Word): Op
  {
    if |t| == 0 then Inv
    else if Matches(t[0], inst) then t[0]
    else FirstMatch(t[1..], inst)
  }

  /** The instruction the table decodes `inst` as. */
  function Decode(inst: Word): Op
  {
    FirstMatch(Table, inst)
  }

  /**
   * Reference classification, independent of the table: RV32I and RV32M as the
   * base ISA lays them out by opcode, funct3 and funct7, restricted to the
   * instructions this core implements; anything else is invalid.
   */
  function Classify(inst: Word): Op
  {
    ClassifyFields(Funct7(inst), Funct3(inst), Opcode(inst), inst)
  }

  function ClassifyFields(f7: nat, f3: nat, opc: nat, inst: Word): Op
  {
    if opc == 0x37 then Lui
    else if opc == 0x17 then Auipc
    else if opc == 0x6F then Jal
    else if opc == 0x67 then (if f3 == 0 then Jalr else Inv)
    else if opc == 0x63 then
      (if f3 == 0 then Beq else if f3 == 1 then Bne else if f3 == 4 then Blt
       else if f3 == 5 then Bge else if f3 == 6 then Bltu else if f3 == 7 then Bgeu else Inv)
    else if opc == 0x03 then
      (if f3 == 0 then Lb else if f3 == 1 then Lh else if f3 == 2 then Lw
       else if f3 == 4 then Lbu else if f3 == 5 then Lhu else Inv)
    else if opc == 0x23 then
      (if f3 == 0 then Sb else if f3 == 1 then Sh else if f3 == 2 then Sw else Inv)
    else if opc == 0x13 then
      (if f3 == 0 then Addi else if f3 == 2 then Slti else if f3 == 3 then Sltiu
       else if f3 == 4 then Xori else if f3 == 6 then Ori else if f3 == 7 then Andi
       else if f3 == 1 then (if f7 == 0 then Slli else Inv)
       else if f7 == 0 then Srli else if f7 == 0x20 then Srai else Inv)
    else if opc == 0x33 then
      (if f7 == 0 then
         (if f3 == 0 then Add else if f3 == 1 then Sll else if f3 == 2 then Slt
          else if f3 == 3 then Sltu else if f3 == 4 then Xor else if f3 == 5 then Srl
          else if f3 == 6 then Or else And)
       else if f7 == 0x20 then (if f3 == 0 then Sub else if f3 == 5 then Sra else Inv)
       else if f7 == 1 then
         (if f3 == 0 then Mul else if f3 == 1 then Mulh else if f3 == 2 then Mulhsu
          else if f3 == 3 then Mulhu else if f3 == 4 then Div else if f3 == 5 then Divu
          else if f3 == 6 then Rem else Remu)
       else Inv)
    else if inst == 0x0010_0073 then Ebreak
    else Inv
  }

  /** The ebreak word has the SYSTEM opcode, which no other pattern uses. */
  lemma EbreakOpcode(inst: Word)
    ensures inst == 0x0010_0073 ==> Opcode(inst) == 0x73
  {
  }

  /**
   * The pattern of an I-format instruction (loads, immediate arithmetic and
   * shifts, jalr) fits exactly the fields the base ISA gives it.
   */
  lemma FieldsIffImm(op: Op, f7: nat, f3: nat, opc: nat, inst: Word)
    requires FormatOf(op) == TypeI
    requires f3 < 8
    ensures FitsPattern(PatternOf(op), f7, f3, opc, inst) <==> ClassifyFields(f7, f3, opc, inst) == op
  {
    if op in {Lb, Lh, Lw, Lbu, Lhu, Jalr} {
      FieldsIffLoad(op, f7, f3, opc, inst);
    } else {
      FieldsIffArith(op, f7, f3, opc, inst);
    }
  }

  /** FieldsIffImm for the loads and jalr. */
  lemma FieldsIffLoad(op: Op, f7: nat, f3: nat, opc: nat, inst: Word)
    requires op in {Lb, Lh, Lw, Lbu, Lhu, Jalr}
    requires f3 < 8
    ensures FitsPattern(PatternOf(op), f7, f3, opc, inst) <==> ClassifyFields(f7, f3, opc, inst) == op
  {
  }

  /** FieldsIffImm for the immediate arithmetic and shifts. */
  lemma FieldsIffArith(op: Op, f7: nat, f3: nat, opc: nat, inst: Word)
    requires op in {Addi, Slti, Sltiu, Xori, Ori, Andi, Slli, Srli, Srai}
    requires f3 < 8
    ensures FitsPattern(PatternOf(op), f7, f3, opc, inst) <==> ClassifyFields(f7, f3, opc, inst) == op
  {
  }

  lemma PatternIffImm(op: Op, inst: Word)
    requires FormatOf(op) == TypeI
    ensures Matches(op, inst) <==> Classify(inst) == op
  {
    FieldsIffImm(op, Funct7(inst), Funct3(inst), Opcode(inst), inst);
  }

  /** The same for the branches. */
  lemma FieldsIffBranch(op: Op, f7: nat, f3: nat, opc: nat, inst: Word)
    requires FormatOf(op) == TypeB
    requires f3 < 8
    ensures FitsPattern(PatternOf(op), f7, f3, opc, inst) <==> ClassifyFields(f7, f3, opc, inst) == op
  {
  }

  lemma PatternIffBranch(op: Op, inst: Word)
    requires FormatOf(op) == TypeB
    ensures Matches(op, inst) <==> Classify(inst) == op
  {
    FieldsIffBranch(op, Funct7(inst), Funct3(inst), Opcode(inst), inst);
  }

  /** The same for the U, J and S formats and ebreak. */
  lemma FieldsIffOther(op: Op, f7: nat, f3: nat, opc: nat, inst: Word)
    requires op != Inv && FormatOf(op) in {TypeU, TypeJ, TypeS, TypeN}
    requires f3 < 8
    requires inst == 0x0010_0073 ==> opc == 0x73
    ensures FitsPattern(PatternOf(op), f7, f3, opc, inst) <==> ClassifyFields(f7, f3, opc, inst) == op
  {
  }

  lemma PatternIffOther(op: Op, inst: Word)
    requires op != Inv && FormatOf(op) in {TypeU, TypeJ, TypeS, TypeN}
    ensures Matches(op, inst) <==> Classify(inst) == op
  {
    EbreakOpcode(inst);
    FieldsIffOther(op, Funct7(inst), Funct3(inst), Opcode(inst), inst);
  }

  /** The same for the R-format instructions of RV32I. */
  lemma FieldsIffReg(op: Op, f7: nat, f3: nat, opc: nat, inst: Word)
    requires FormatOf(op) == TypeR && PatternOf(op).funct7 != Fixed(1)
    requires f3 < 8
    ensures FitsPattern(PatternOf(op), f7, f3, opc, inst) <==> ClassifyFields(f7, f3, opc, inst) == op
  {
    if op in {Add, Sll, Slt, Sltu} {
      FieldsIffRegLow(op, f7, f3, opc, inst);
    } else {
      FieldsIffRegHigh(op, f7, f3, opc, inst);
    }
  }

  /** FieldsIffReg for add, sll, slt and sltu. */
  lemma FieldsIffRegLow(op: Op, f7: nat, f3: nat, opc: nat, inst: Word)
    requires op in {Add, Sll, Slt, Sltu}
    requires f3 < 8
    ensures FitsPattern(PatternOf(op), f7, f3, opc, inst) <==> ClassifyFields(f7, f3, opc, inst) == op
  {
  }

  /** FieldsIffReg for xor, srl, or, and, sub and sra. */
  lemma FieldsIffRegHigh(op: Op, f7: nat, f3: nat, opc: nat, inst: Word)
    requires op in {Xor, Srl, Or, And, Sub, Sra}
    requires f3 < 8
    ensures FitsPattern(PatternOf(op), f7, f3, opc, inst) <==> ClassifyFields(f7, f3, opc, inst) == op
  {
  }

  lemma PatternIffReg(op: Op, inst: Word)
    requires FormatOf(op) == TypeR && PatternOf(op).funct7 != Fixed(1)
    ensures Matches(op, inst) <==> Classify(inst) == op
  {
    FieldsIffReg(op, Funct7(inst), Funct3(inst), Opcode(inst), inst);
  }

  /** The same for the M extension. */
  lemma FieldsIffMul(op: Op, f7: nat, f3: nat, opc: nat, inst: Word)
    requires FormatOf(op) == TypeR && PatternOf(op).funct7 == Fixed(1)
    requires f3 < 8
    ensures FitsPattern(PatternOf(op), f7, f3, opc, inst) <==> ClassifyFields(f7, f3, opc, inst) == op
  {
  }

  lemma PatternIffMul(op: Op, inst: Word)
    requires FormatOf(op) == TypeR && PatternOf(op).funct7 == Fixed(1)
    ensures Matches(op, inst) <==> Classify(inst) == op
  {
    FieldsIffMul(op, Funct7(inst), Funct3(inst), Opcode(inst), inst);
  }

  /** Each pattern other than the catch-all matches exactly the words classified as its instruction. */
  lemma PatternIff(op: Op, inst: Word)
    requires op != Inv
    ensures Matches(op, inst) <==> Classify(inst) == op
  {
    if FormatOf(op) == TypeI {
      PatternIffImm(op, inst);
    } else if FormatOf(op) == TypeB {
      PatternIffBranch(op, inst);
    } else if FormatOf(op) != TypeR {
      PatternIffOther(op, inst);
    } else if PatternOf(op).funct7 == Fixed(1) {
      PatternIffMul(op, inst);
    } else {
      PatternIffReg(op, inst);
    }
  }

  /** The catch-all pattern matches every word. */
  lemma InvMatchesAll(inst: Word)
    ensures Matches(Inv, inst)
  {
  }

  /** Two different patterns other than the catch-all never match the same word. */
  lemma PatternsDisjoint(a: Op, b: Op, inst: Word)
    requires a != Inv && b != Inv && a != b
    ensures !(Matches(a, inst) && Matches(b, inst))
  {
    PatternIff(a, inst);
    PatternIff(b, inst);
  }

  /** Every instruction but the catch-all has an entry before it. */
  lemma InstructionsComplete(op: Op)
    requires op != Inv
    ensures op in Instructions
  {
  }

  /** The catch-all is not among them. */
  lemma InvNotListed()
    ensures Inv !in Instructions
  {
  }

  /**
   * First-match search over entries of which only `op` matches, followed by the
   * catch-all: the search finds `op`, or the catch-all when `op` is not listed.
   */
  lemma {:induction false} FirstMatchUnique(body: seq<Op>, inst: Word, op: Op)
    requires op in body || op == Inv
    requires Inv !in body
    requires forall i :: 0 <= i < |body| ==> (Matches(body[i], inst) <==> body[i] == op)
    ensures FirstMatch(body + [Inv], inst) == op
  {
    var t := body + [Inv];
    if |body| == 0 {
      InvMatchesAll(inst);
    } else if !Matches(body[0], inst) {
      assert t[1..] == body[1..] + [Inv];
      FirstMatchUnique(body[1..], inst, op);
    }
  }

  /**
   * Decoding is total and follows the base ISA: the table's first-match search
   * yields the instruction the reference classification names, `inv` for every
   * word outside the implemented instructions.
   */
  lemma DecodeIsClassify(inst: Word)
    ensures Decode(inst) == Classify(inst)
  {
    var op := Classify(inst);
    forall i | 0 <= i < |Instructions|
      ensures Matches(Instructions[i], inst) <==> Instructions[i] == op
    {
      PatternIff(Instructions[i], inst);
    }
    if op != Inv {
      InstructionsComplete(op);
    }
    InvNotListed();
    FirstMatchUnique(Instructions, inst, op);
  }

  /** immI: the sign-extended 12-bit field inst[31:20]. */
  function ImmI(inst: Word): Word
  {
    Sext(Field(inst, 31, 20), 12)
  }

  /** immU: the 20-bit field inst[31:12], sign-extended, then moved up 12 bits. */
  function ImmU(inst: Word): Word
  {
    Sext(Field(inst, 31, 12), 20) << 12
  }

  /** immS: inst[31:25] sign-extended above inst[11:7]. */
  function ImmS(inst: Word): Word
  {
    (Sext(Field(inst, 31, 25), 7) << 5) | Field(inst, 11, 7)
  }

  /** immB: the scattered branch offset inst[31|7|30:25|11:8], times two, sign-extended from 13 bits. */
  function ImmB(inst: Word): Word
  {
    Sext((Field(inst, 31, 31) << 12) | (Field(inst, 7, 7) << 11)
         | (Field(inst, 30, 25) << 5) | (Field(inst, 11, 8) << 1), 13)
  }

  /** immJ: the scattered jump offset inst[31|19:12|20|30:21], times two, sign-extended from 21 bits. */
  function ImmJ(inst: Word): Word
  {
    Sext((Field(inst, 31, 31) << 20) | (Field(inst, 19, 12) << 12)
         | (Field(inst, 20, 20) << 11) | (Field(inst, 30, 21) << 1), 21)
  }

  /** immI keeps inst[31:20] as its low twelve bits ... */
  lemma ImmIField(inst: Word)
    ensures ImmI(inst) & 0xFFF == inst >> 20
  {
  }

  /** ... and copies inst[31] into every bit above them: a signed 12-bit value. */
  lemma ImmISigned(inst: Word)
    ensures ImmI(inst) >> 11 == (if IsNegative(inst) then 0x1F_FFFF else 0)
  {
  }

  /** immU is the instruction with its low 12 bits cleared. */
  lemma ImmUUpper(inst: Word)
    ensures ImmU(inst) == inst & 0xFFFF_F000
  {
  }

  /** immS reassembles inst[31:25] and inst[11:7] as its low twelve bits ... */
  lemma ImmSField(inst: Word)
    ensures ImmS(inst) & 0xFFF == ((inst >> 25) << 5) | ((inst >> 7) & 0x1F)
  {
  }

  /** ... sign-extended from inst[31]. */
  lemma ImmSSigned(inst: Word)
    ensures ImmS(inst) >> 11 == (if IsNegative(inst) then 0x1F_FFFF else 0)
  {
  }

  /** Branch offsets are even ... */
  lemma ImmBEven(inst: Word)
    ensures ImmB(inst) & 1 == 0
  {
  }

  /** ... and signed 13-bit values, with the sign taken from inst[31]. */
  lemma ImmBSigned(inst: Word)
    ensures ImmB(inst) >> 12 == (if IsNegative(inst) then 0xF_FFFF else 0)
  {
  }

  /** Jump offsets are even ... */
  lemma ImmJEven(inst: Word)
    ensures ImmJ(inst) & 1 == 0
  {
  }

  /** ... and signed 21-bit values, with the sign taken from inst[31]. */
  lemma ImmJSigned(inst: Word)
    ensures ImmJ(inst) >> 20 == (if IsNegative(inst) then 0xFFF else 0)
  {
  }

  /** The one word the ebreak pattern accepts decodes to Ebreak. */
  lemma DecodeEbreak()
    ensures Decode(0x0010_0073) == Ebreak
  {
    DecodeIsClassify(0x0010_0073);
    EbreakFields();
  }

  lemma EbreakFields()
    ensures Funct7(0x0010_0073) == 0 && Funct3(0x0010_0073) == 0 && Opcode(0x0010_0073) == 0x73
  {
  }
}
