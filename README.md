# NEMU core, modelled in Dafny

This project models the core of NEMU, an RV32IM instruction-set emulator with a
built-in debugger, and the bare-metal C library (klib) it ships for guest
programs. It covers the following pieces:

- **Instructions** (`inst.c`). The operand extractors and immediates of
  `decode_operand`, and the `INSTPAT` table with first-match decoding. Each
  instruction's semantics is modelled, covering RV32I, the M extension
  (with the division-by-zero and overflow results of section 7.2 of the RISC-V
  Unprivileged ISA), `ebreak` and the catch-all `inv`. `isa_exec_once` is modelled
  as a pure step function from (pc, register file, memory) to (registers,
  memory, dnpc, outcome). After every step `x0` is 0.
- **Register names** (`reg.c`): the `regs[]` table and `isa_reg_str2val`.
- **Debugger expressions** (`expr.c`):
  - the ordered tokenizer `make_token`, with its 13 rules written as prefix
    matchers and the dereference/multiplication choice for `*`;
  - `check_parentheses` and `find_main_op`;
  - the recursive `eval`, with its shared success flag, and `expr`.
- **Watchpoint pool** (`watchpoint.c`): 32 records in an array, linked into a
  free list and a list in use. Modelled as a class with `init_wp_pool`,
  `new_wp`, `free_wp` and `check_watchpoints`, and proved to keep the two
  lists a partition of the pool.
- **Execution loop** (`cpu-exec.c`): the 16-entry instruction ring buffer, and
  `exec_once`, `execute`, `cpu_exec` and the watchpoint hook of
  `trace_and_difftest`, as an `Emulator` class whose state is specified by pure
  functions.
- **Difftest** (`dut.c`): `isa_difftest_regcpy` and `isa_difftest_checkregs`.
- **Function-call trace** (`ftrace.c`): `find_func_name`, and the classification
  of JAL/JALR into call, indirect call and return with the indent counter.
- **klib** (`string.c`, `stdio.c`): the string and memory routines on byte arrays,
  `itoa` and `sprintf` (`%s`, `%d`, `%%` and unknown directives).
- **Expression generator** (`gen-expr.c`): `gen_final`, with the text it appends
  to `buf` and the value it returns, and the retry loop of `main`.

Its central cross-component result (`GenCheck`) is that every line the generator
prints passes the debugger's `test` command. The printed expression tokenizes,
and `expr` evaluates it with success to the printed value. This holds for the
corrected evaluator and for the evaluator as written.

Words of the decoder, executor and memory are `bv32`. Words of the debugger,
generator and trace tools are integers in `[0, 2^32)`, reduced explicitly
wherever C's unsigned arithmetic wraps. The signed `int` of klib is an integer
in `[-2^31, 2^31)`, and the code as written is shown to wrap where the
negation of `INT_MIN` overflows.

## Model

| member | source | states |
|---|---|---|
| Decoder.PatternIff | nemu/src/isa/riscv32/inst.c:68-279 | each pattern other than the catch-all matches exactly the words the reference classification (opcode/funct3/funct7 decision tree of the base ISA) assigns to its instruction |
| Decoder.PatternIffImm | nemu/src/isa/riscv32/inst.c:69-175 | the I-format patterns (loads, immediate arithmetic and shifts, jalr) match a word exactly when the reference classification names their instruction |
| Decoder.PatternIffBranch | nemu/src/isa/riscv32/inst.c:101-219 | the branch patterns match a word exactly when the reference classification names their instruction |
| Decoder.PatternIffOther | nemu/src/isa/riscv32/inst.c:68-280 | the U, J and S patterns and ebreak match a word exactly when the reference classification names their instruction |
| Decoder.PatternIffReg | nemu/src/isa/riscv32/inst.c:87-194 | the R-format RV32I patterns match a word exactly when the reference classification names their instruction |
| Decoder.PatternIffMul | nemu/src/isa/riscv32/inst.c:221-279 | the M-extension patterns match a word exactly when the reference classification names their instruction |
| Decoder.FieldsIffImm | nemu/src/isa/riscv32/inst.c:69-175 | an I-format pattern fits a word's funct7/funct3/opcode fields exactly when the field-level reference classification names its instruction |
| Decoder.InvNotListed | nemu/src/isa/riscv32/inst.c:281 | the catch-all is not among the listed instructions |
| Decoder.InvMatchesAll | nemu/src/isa/riscv32/inst.c:281 | the catch-all `inv` pattern matches every word |
| Decoder.PatternsDisjoint | nemu/src/isa/riscv32/inst.c:68-280 | two different non-catch-all patterns never match the same word, so only `inv` depends on table order |
| Decoder.InstructionsComplete | nemu/src/isa/riscv32/inst.c:68-281 | every instruction other than `inv` has an entry before the catch-all |
| Decoder.FirstMatchUnique | nemu/src/isa/riscv32/inst.c:67-283 | first-match search over entries of which only one matches, followed by the catch-all, finds that one, or the catch-all when none matches |
| Decoder.DecodeIsClassify | nemu/src/isa/riscv32/inst.c:54-283 | decoding is total and equals the reference classification of the word |
| Decoder.EbreakOpcode | nemu/src/isa/riscv32/inst.c:280 | the ebreak word has the SYSTEM opcode, which no other pattern uses |
| Decoder.DecodeEbreak | nemu/src/isa/riscv32/inst.c:280 | the one word of the ebreak pattern decodes to ebreak |
| Decoder.ImmIField | nemu/src/isa/riscv32/inst.c:32 | immI keeps inst[31:20] as its low twelve bits |
| Decoder.ImmISigned | nemu/src/isa/riscv32/inst.c:32 | immI copies inst[31] into bits 31:12 (a sign-extended 12-bit field) |
| Decoder.ImmUUpper | nemu/src/isa/riscv32/inst.c:33 | immU is the instruction with its low 12 bits cleared |
| Decoder.ImmSField | nemu/src/isa/riscv32/inst.c:34 | immS reassembles inst[31:25] and inst[11:7] as its low twelve bits |
| Decoder.ImmSSigned | nemu/src/isa/riscv32/inst.c:34 | immS is sign-extended from inst[31] |
| Decoder.ImmBEven | nemu/src/isa/riscv32/inst.c:35 | branch offsets are even |
| Decoder.ImmBSigned | nemu/src/isa/riscv32/inst.c:35 | branch offsets are signed 13-bit values with sign inst[31] |
| Decoder.ImmJEven | nemu/src/isa/riscv32/inst.c:36 | jump offsets are even |
| Decoder.ImmJSigned | nemu/src/isa/riscv32/inst.c:36 | jump offsets are signed 21-bit values with sign inst[31] |
| Decoder.Opcode | nemu/src/monitor/sdb/ftrace.c:73 | inst[6:0] as a number below 128 |
| Execute.Rd | nemu/src/isa/riscv32/inst.c:41 | rd = inst[11:7], a register number below 32 |
| Execute.Rs1 | nemu/src/isa/riscv32/inst.c:39 | rs1 = inst[19:15], below 32 |
| Execute.Rs2 | nemu/src/isa/riscv32/inst.c:40 | rs2 = inst[24:20], below 32 |
| Execute.StoreOperands | nemu/src/isa/riscv32/inst.c:45 | a store reads rs1, rs2 and the S immediate |
| Execute.BranchOperands | nemu/src/isa/riscv32/inst.c:49 | a branch reads rs1, rs2 and the B immediate |
| Execute.JalOperands | nemu/src/isa/riscv32/inst.c:47 | jal reads only the J immediate |
| Execute.JalrOperands | nemu/src/isa/riscv32/inst.c:43 | jalr reads rs1 and the I immediate |
| Execute.SignedDiv | nemu/src/isa/riscv32/inst.c:229-242 | div gives all ones for a zero divisor and the dividend for 0x80000000 / -1 |
| Execute.UnsignedDiv | nemu/src/isa/riscv32/inst.c:244-253 | divu gives all ones for a zero divisor, the unsigned quotient otherwise |
| Execute.SignedRem | nemu/src/isa/riscv32/inst.c:255-268 | rem gives the dividend for a zero divisor and 0 for 0x80000000 % -1 |
| Execute.UnsignedRem | nemu/src/isa/riscv32/inst.c:270-279 | remu gives the dividend for a zero divisor, the unsigned remainder otherwise |
| Execute.ApplySignNegates | nemu/src/isa/riscv32/inst.c:229-268 | the sign-mask step of div/rem negates the magnitude result exactly when the sign word (a ^ b for div, a for rem) is negative |
| Execute.WideSignedExtends | nemu/src/isa/riscv32/inst.c:221-227 | the 64-bit operand of mulh/mulhsu is the word sign-extended (low word the word, high word its sign mask); the unsigned one has high word 0 |
| Execute.WideSignedNonNegative | nemu/src/isa/riscv32/inst.c:223-225 | sign-extending a non-negative word to 64 bits is zero-extending it |
| Execute.SignedDivisionTruncates | nemu/src/isa/riscv32/inst.c:229-268 | division rounds toward zero and the remainder takes the dividend's sign (-7 / 2 = -3, -7 % 2 = -1) |
| Execute.StoreLen | nemu/src/isa/riscv32/inst.c:70 | a store writes 1, 2 or 4 bytes (sb, sh, sw) |
| Execute.Commit | nemu/src/isa/riscv32/inst.c:285 | after the write of rd, register x0 is 0 and every other register is the written one or unchanged |
| Execute.CommitNothing | nemu/src/isa/riscv32/inst.c:285 | without a write only x0 is reset |
| Execute.RunOp | nemu/src/isa/riscv32/inst.c:59-65 | the instruction's body followed by R(0) = 0 leaves x0 zero |
| Execute.DecodeExec | nemu/src/isa/riscv32/inst.c:54-288 | decode_exec leaves a 32-entry register file with x0 zero and every register other than rd unchanged |
| Execute.ExecOnce | nemu/src/isa/riscv32/inst.c:290-294 | isa_exec_once fetches four bytes at pc, sets snpc to pc + 4 and runs decode_exec |
| Execute.StepOfEffect | nemu/src/isa/riscv32/inst.c:54-288 | the step of an instruction is its effect committed: registers, memory, dnpc, outcome |
| Execute.StoreExec | nemu/src/isa/riscv32/inst.c:45-170 | a store runs with src1 = R(rs1), src2 = R(rs2) and the S immediate |
| Execute.BranchExec | nemu/src/isa/riscv32/inst.c:49-219 | a branch runs with src1 = R(rs1), src2 = R(rs2) and the B immediate |
| Execute.JalExec | nemu/src/isa/riscv32/inst.c:47-151 | jal runs with the J immediate |
| Execute.JalrExec | nemu/src/isa/riscv32/inst.c:43-168 | jalr runs with src1 = R(rs1) and the I immediate |
| Execute.HaltingExec | nemu/src/isa/riscv32/inst.c:280-281 | ebreak and inv read no operand; only a0 is passed on |
| Execute.ExecBranch | nemu/src/isa/riscv32/inst.c:101-219 | a branch writes no register and no memory, keeps running, and its dnpc is pc + imm when taken, snpc otherwise |
| Execute.ExecComputes | nemu/src/isa/riscv32/inst.c:68-279 | a register-writing instruction writes the value Compute gives for it |
| Execute.ExecRunning | nemu/src/isa/riscv32/inst.c:68-279 | every instruction but ebreak and inv keeps the run going |
| Execute.QuietStep | nemu/src/isa/riscv32/inst.c:56-285 | an instruction that writes neither a register nor memory leaves both as they were, with x0 reset |
| Execute.LinkStep | nemu/src/isa/riscv32/inst.c:56-285 | the step's dnpc is the instruction's, and rd holds what it wrote unless rd is x0 |
| Execute.Reg | nemu/src/isa/riscv32/inst.c:21 | R(i) is gpr[i] for every register number in range |
| Execute.SequentialNextPc | nemu/src/isa/riscv32/inst.c:56 | only jumps and branches leave dnpc other than snpc |
| Execute.BranchNextPc | nemu/src/isa/riscv32/inst.c:101-127 | a branch goes to pc + immB exactly when its condition holds on rs1, rs2, and to snpc otherwise; it writes no register and no memory |
| Execute.JalLinks | nemu/src/isa/riscv32/inst.c:143-151 | jal jumps to pc + immJ and links pc + 4 into rd unless rd is x0 |
| Execute.JalrLinks | nemu/src/isa/riscv32/inst.c:153-168 | jalr jumps to (rs1 + immI) with bit 0 cleared, using rs1 read before the link write, and links pc + 4 unless rd is x0 |
| Execute.JalrAligned | nemu/src/isa/riscv32/inst.c:153-168 | the jalr target is even |
| Execute.EbreakTraps | nemu/src/isa/riscv32/inst.c:280 | ebreak ends the run at pc with a0 as exit code and changes nothing else |
| Execute.InvalidAborts | nemu/src/isa/riscv32/inst.c:281 | an undecodable word aborts at pc and changes nothing else |
| Execute.HaltingStep | nemu/src/isa/riscv32/inst.c:280-281 | ebreak and inv stop at their pc and change nothing but x0 |
| Execute.OnlyTrapsStop | nemu/src/isa/riscv32/inst.c:68-279 | every other instruction keeps the run going |
| Execute.NonStoreKeepsMemory | nemu/src/isa/riscv32/inst.c:68-281 | only stores change memory |
| Execute.StoreWrites | nemu/src/isa/riscv32/inst.c:70-170 | a store's memory is Mw(rs1 + immS, width, rs2) applied to the old memory |
| Execute.StoreReadsBack | nemu/src/isa/riscv32/inst.c:70-170 | reading back the window of a store gives the low bytes of rs2 |
| Execute.StoreKeepsOthers | nemu/src/isa/riscv32/inst.c:70-170 | a store leaves every byte outside its window unchanged |
| Execute.ComputeWritesRd | nemu/src/isa/riscv32/inst.c:68-279 | a register-writing instruction puts its computed value in rd unless rd is x0, and leaves other registers unchanged |
| Execute.LoadUnsignedByte | nemu/src/isa/riscv32/inst.c:69 | lbu zero-extends the byte at the address |
| Execute.LoadSignedByte | nemu/src/isa/riscv32/inst.c:129-131 | lb keeps the byte and copies its bit 7 into bits 31:8 |
| Execute.LoadAfterStore | nemu/src/isa/riscv32/inst.c:137-175 | lw after sw at the same address reads back the stored word; lhu after sh the stored half |
| Bits.SignedLessCases | nemu/src/isa/riscv32/inst.c:73-113 | the signed order: negatives first, then the unsigned order within one sign |
| Bits.ShiftAmountLow | nemu/src/isa/riscv32/inst.c:81-95 | the shift amount is the low five bits of the operand |
| Bits.ShiftAmountMasked | nemu/src/isa/riscv32/inst.c:89-95 | only the low five bits of a shift operand count |
| Bits.ShiftRightArithNonNegative | nemu/src/isa/riscv32/inst.c:85-95 | on a non-negative word sra/srai equal srl/srli |
| Bits.ShiftRightArithSign | nemu/src/isa/riscv32/inst.c:85-95 | the arithmetic shift keeps the sign |
| Bits.SignMaskCases | nemu/src/isa/riscv32/inst.c:229-268 | the sign mask is all ones exactly for a negative word |
| Bits.MagnitudeNonNegative | nemu/src/isa/riscv32/inst.c:229-268 | the magnitude of a non-negative word is itself |
| Bits.MagnitudeNegative | nemu/src/isa/riscv32/inst.c:229-268 | the magnitude of a negative word is its two's-complement negation |
| Bits.Sext8Low | nemu/src/isa/riscv32/inst.c:129-131 | sign-extending a byte keeps the byte |
| Bits.Sext8High | nemu/src/isa/riscv32/inst.c:129-131 | sign-extending a byte copies bit 7 into bits 31:8 |
| Bits.Sext16Low | nemu/src/isa/riscv32/inst.c:133-135 | sign-extending a half keeps the half |
| Bits.Sext16High | nemu/src/isa/riscv32/inst.c:133-135 | sign-extending a half copies bit 15 into bits 31:16 |
| Memory.ReadByte | nemu/src/isa/riscv32/inst.c:22-69 | a one-byte read is the byte at the address, zero-extended |
| Memory.Assemble | nemu/src/isa/riscv32/inst.c:22 | a read of len bytes assembles them least significant first and ignores bytes past len |
| Memory.Reassemble | nemu/src/isa/riscv32/inst.c:22-23 | reassembling the low len bytes of a word gives its low len bytes |
| Memory.DistinctOffsets | nemu/src/isa/riscv32/inst.c:170-175 | the four addresses of a word access are distinct |
| Memory.PokeHit | nemu/src/isa/riscv32/inst.c:23 | a byte just stored reads back |
| Memory.PokeMiss | nemu/src/isa/riscv32/inst.c:23 | a byte stored elsewhere does not change what is read |
| Memory.StoredWindow | nemu/src/isa/riscv32/inst.c:23 | after a store its window holds the data bytes, least significant first |
| Memory.ReadAfterStore | nemu/src/isa/riscv32/inst.c:22-23 | a read at a store's address and width returns the stored low bytes |
| Memory.StoreFrame | nemu/src/isa/riscv32/inst.c:23 | a store changes no byte outside [addr, addr + len), addresses wrapping at 2^32 |
| Memory.StoredWord | nemu/src/isa/riscv32/inst.c:170 | a word store puts the data's four bytes at addr .. addr + 3, least significant first |
| Memory.StoredHalf | nemu/src/isa/riscv32/inst.c:141 | a half store puts the data's low two bytes at addr, addr + 1 |
| Memory.ReadAfterWrite | nemu/src/isa/riscv32/inst.c:22-23 | reading back a write of 1, 2 or 4 bytes gives the data truncated to that width |
| Memory.WriteFrame | nemu/src/isa/riscv32/inst.c:23 | a write leaves every byte outside its window as it was |
| Registers.Str2Val | nemu/src/isa/riscv32/reg.c:42-65 | "pc" reads the pc, a name of regs[] reads that register, anything else fails with 0; the flag is set afresh on every call |
| Registers.IsaRegStr2Val | nemu/src/isa/riscv32/reg.c:42-65 | the loop comparing the name against regs[0..31] in order returns Str2Val's value and flag |
| Registers.FirstNamed | nemu/src/isa/riscv32/reg.c:53-59 | the index found is the first name equal to the text, or 32 |
| Registers.FirstNamedIs | nemu/src/isa/riscv32/reg.c:53-59 | the search finds register i when it is the first named s |
| Registers.NamesDistinct | nemu/src/isa/riscv32/reg.c:19-24 | the 32 names are pairwise distinct and none is "pc" |
| Registers.ReadsPc | nemu/src/isa/riscv32/reg.c:47-49 | "pc" reads cpu.pc with success |
| Registers.ReadsNamedRegister | nemu/src/isa/riscv32/reg.c:53-59 | the name of register i reads gpr[i] with success |
| Registers.ZeroRegisterUnreadable | nemu/src/isa/riscv32/reg.c:20 | "$0" looks up "0", which fails: x0 cannot be named in an expression |
| Numerals.DigitValue | nemu/src/monitor/sdb/expr.c:214-217 | a decimal or hexadecimal digit of either case has a value below 16 |
| Numerals.ValueOfText | nemu/tools/gen-expr/gen-expr.c:273 | reading back the text of a number in a base up to 16 gives the number |
| Numerals.DecimalText | nemu/tools/gen-expr/gen-expr.c:273 | the decimal text of a number is all digits, without a leading 0 unless it is "0" |
| Numerals.ValueSnoc | nemu/src/monitor/sdb/expr.c:214-217 | appending a digit multiplies the value by the base and adds the digit |
| Numerals.DigitRoundTrip | nemu/src/monitor/sdb/expr.c:214-217 | reading back the character of a digit below 16 gives the digit |
| Lexer.Run | nemu/src/monitor/sdb/expr.c:34-46 | the length of the longest run of a character class at the start, at most the text's length |
| Lexer.MatchLen | nemu/src/monitor/sdb/expr.c:33-47 | the length of a rule's match at the start of the text, at most the text's length |
| Lexer.FirstRule | nemu/src/monitor/sdb/expr.c:89-90 | the first rule from i on that matches at the start, or 13 when none does |
| Lexer.FirstRuleIs | nemu/src/monitor/sdb/expr.c:89-90 | the first matching rule is rule i when i matches and no earlier rule does |
| Lexer.FindRule | nemu/src/monitor/sdb/expr.c:89-137 | the rule loop of make_token returns the first rule that matches at the position |
| Lexer.Push | nemu/src/monitor/sdb/expr.c:100-134 | blanks add nothing; a pattern appends one token with the matched text, and fails exactly when the array is full, except for '*' as written |
| Lexer.LexStuck | nemu/src/monitor/sdb/expr.c:139-142 | no rule matching means failure |
| Lexer.LexSkipsBlank | nemu/src/monitor/sdb/expr.c:101 | a blank run emits no token |
| Lexer.LexFull | nemu/src/monitor/sdb/expr.c:126-129 | a checked token when the array holds 1024 fails the scan |
| Lexer.LexPattern | nemu/src/monitor/sdb/expr.c:103-133 | a token with room is appended, a '*' with the kind its predecessor gives it |
| Lexer.MakeToken | nemu/src/monitor/sdb/expr.c:80-146 | the make_token loop returns exactly the tokens the rule-by-rule scan gives (corrected capacity check on '*') |
| Lexer.LexStar | nemu/src/monitor/sdb/expr.c:103-123 | a '*' is appended with the kind (dereference or product) its predecessor gives it; with the capacity check it fails when the array is full |
| Lexer.NoDerefRule | nemu/src/monitor/sdb/expr.c:33-47 | no rule produces a dereference directly |
| Lexer.RuleFacts | nemu/src/monitor/sdb/expr.c:33-47 | the blank rule matches blanks only; other rules match a well-formed token text without blanks |
| Lexer.LexSpellsInput | nemu/src/monitor/sdb/expr.c:87-143 | the token texts spell out the input with its blanks removed |
| Lexer.LexInvariants | nemu/src/monitor/sdb/expr.c:87-143 | lexing keeps the tokens read so far, and every added token is well formed and has its '*' resolved |
| Lexer.LexFacts | nemu/src/monitor/sdb/expr.c:80-146 | a text that tokenizes gives tokens that spell it without blanks, are well formed, resolve '*' and number at most 1024 |
| Lexer.BoundedStarsAgree | nemu/src/monitor/sdb/expr.c:103-133 | checking the capacity on '*' changes nothing for a text whose tokens fit the array |
| Lexer.CheckedLexAgrees | nemu/src/monitor/sdb/expr.c:103-133 | a text that tokenizes with every token checked tokenizes the same way as make_token is written |
| Lexer.NumberRule | nemu/src/monitor/sdb/expr.c:45-46 | only the number rule matches a digit run not followed by a letter or digit, and it takes the whole run |
| Lexer.RegisterRule | nemu/src/monitor/sdb/expr.c:34-44 | no earlier rule matches at '$'; the register rule takes the whole name |
| Lexer.LexNumber | nemu/src/monitor/sdb/expr.c:46 | a decimal number tokenizes to one number token |
| Lexer.LexRegister | nemu/src/monitor/sdb/expr.c:44 | '$' and a name tokenize to one register token |
| Lexer.LexDigit | nemu/src/monitor/sdb/expr.c:46 | a one-digit number not followed by a letter or digit becomes one number token |
| Lexer.DigitRule | nemu/src/monitor/sdb/expr.c:45-46 | at a lone digit the first matching rule is the number rule, and it matches that digit only |
| Lexer.LexUnfold | nemu/src/monitor/sdb/expr.c:87-137 | a scan that succeeds pushes the first matching rule's token and goes on after the matched text |
| Lexer.PatternNoBlank | nemu/src/monitor/sdb/expr.c:33-47 | what a token rule matches holds no blank |
| Lexer.PatternWellFormed | nemu/src/monitor/sdb/expr.c:33-47 | what a token rule matches is a well-formed token of its kind |
| Lexer.StarOverflowsTokenArray | nemu/src/monitor/sdb/expr.c:103-123 | 512 copies of "1+" then "*": as written the 1025th token is stored; with the check the text is refused |
| Evaluator.CheckParentheses | nemu/src/monitor/sdb/expr.c:284-295 | the loop returns Wrapped: ends are '(' and ')', the balance inside never goes negative and ends at 0 |
| Evaluator.NeverBelowMeans | nemu/src/monitor/sdb/expr.c:289-293 | the balance check inspects every prefix, and only those |
| Evaluator.BalanceFront | nemu/src/monitor/sdb/expr.c:289-294 | the balance count can be taken from either end |
| Evaluator.Precedence | nemu/src/monitor/sdb/expr.c:308-316 | the binding strength find_main_op compares, at most 5; 0 for a token that is not an operator |
| Evaluator.MainOp | nemu/src/monitor/sdb/expr.c:297-325 | the main operator is -1 or a position in the range |
| Evaluator.MainOpIsLowestLeftmost | nemu/src/monitor/sdb/expr.c:297-325 | the main operator is outside every parenthesis, none binds more loosely, and none to its left as loosely |
| Evaluator.FindMainOp | nemu/src/monitor/sdb/expr.c:297-325 | the right-to-left scan returns MainOp |
| Evaluator.Operand | nemu/src/monitor/sdb/expr.c:210-226 | a literal keeps the flag; a non-operand token fails with 0; a register sets the flag afresh |
| Evaluator.Apply | nemu/src/monitor/sdb/expr.c:248-266 | the binary operators with unsigned 32-bit wrap; == != && give 0 or 1; division by zero fails with 0; other tokens have no result |
| Evaluator.Combine | nemu/src/monitor/sdb/expr.c:243-266 | 0 and failure unless the flag is set after both operands, else the operator's result |
| Evaluator.Evaluate | nemu/src/monitor/sdb/expr.c:271-280 | expr: tokenize, then eval over all tokens with the flag set; a text that does not tokenize fails |
| Evaluator.FailureYieldsZero | nemu/src/monitor/sdb/expr.c:205-268 | eval returns 0 whenever it clears the flag |
| Evaluator.EvalWrappedStep | nemu/src/monitor/sdb/expr.c:227-229 | a wrapped range evaluates as its inside |
| Evaluator.EvalBinaryStep | nemu/src/monitor/sdb/expr.c:243-266 | a range whose main operator is binary combines its two sides, the right one evaluated with the left one's flag |
| Evaluator.EvalSplitsAt | nemu/src/monitor/sdb/expr.c:231-266 | a range split at its binary main operator o evaluates as the combination of both sides |
| Evaluator.EvalDerefStep | nemu/src/monitor/sdb/expr.c:234-240 | a leading dereference reads the 4-byte word at its operand's value, and fails if its operand fails |
| Evaluator.BinaryStep | nemu/src/monitor/sdb/expr.c:243-266 | a binary step of eval as written that returns combines what both operands returned |
| Evaluator.DerefStep | nemu/src/monitor/sdb/expr.c:234-240 | a dereference of eval as written that returns reads memory at the address returned |
| Evaluator.NoOperatorStep | nemu/src/monitor/sdb/expr.c:231-246 | with no main operator, eval as written returns only with a clear flag and 0 |
| Evaluator.AsWrittenAgrees | nemu/src/monitor/sdb/expr.c:205-268 | wherever eval as written returns, the corrected eval returns the same |
| Evaluator.BinaryAgrees | nemu/src/monitor/sdb/expr.c:243-266 | where a binary step of eval as written returns, it returns what the corrected eval gives |
| Evaluator.DerefAgrees | nemu/src/monitor/sdb/expr.c:234-240 | where a dereference step of eval as written returns, it returns what the corrected eval gives |
| Evaluator.JuxtaposedNeverReturns | nemu/src/monitor/sdb/expr.c:231-244 | on "1 2" eval as written recurses on eval(0, 1) forever |
| Evaluator.JuxtaposedLexes | nemu/src/monitor/sdb/expr.c:80-146 | "1 2" tokenizes to two number tokens, with or without the capacity check |
| Evaluator.JuxtaposedFails | nemu/src/monitor/sdb/expr.c:231-246 | the corrected eval fails on "1 2" |
| Evaluator.JuxtaposedText | nemu/src/monitor/sdb/expr.c:271-280 | expr as written never returns on "d d"; the corrected expr fails |
| Evaluator.DerefAfterParenCrashes | nemu/src/monitor/sdb/expr.c:231-265 | on "( *$name" the main operator is the dereference, not at p, and eval as written reaches assert(0) |
| Evaluator.DerefAfterParenLexes | nemu/src/monitor/sdb/expr.c:103-123 | "( *$name" tokenizes to '(', a dereference and a register |
| Evaluator.DerefAfterParenText | nemu/src/monitor/sdb/expr.c:271-280 | expr as written aborts on "( *$name"; the corrected expr fails |
| Evaluator.LeadingMinus | nemu/src/monitor/sdb/expr.c:243-246 | "-1" fails, but "-$name" succeeds with the register negated, because the register lookup resets the flag |
| Evaluator.ProductBindsTighter | nemu/src/monitor/sdb/expr.c:297-325 | "a + b * c" is a + (b * c) |
| Evaluator.DigitOperand | nemu/src/monitor/sdb/expr.c:214 | a one-digit literal evaluates to its digit and keeps the flag |
| Evaluator.WrapAdd | nemu/src/monitor/sdb/expr.c:249 | wrapping an operand first does not change a wrapped sum |
| Evaluator.ParenthesesGroup | nemu/src/monitor/sdb/expr.c:227-229 | "(a + b) * c" multiplies the parenthesised sum |
| Evaluator.DivisionByZeroFails | nemu/src/monitor/sdb/expr.c:252-257 | "a / 0" fails with 0 |
| Evaluator.ComparisonsThenAnd | nemu/src/monitor/sdb/expr.c:259-263 | "a == b && c != d" compares first and yields 0 or 1 |
| Watchpoints.PollKeepsOnFailure | nemu/src/monitor/sdb/watchpoint.c:146 | a record whose text fails keeps its old value and does not fire |
| Watchpoints.PollTwiceQuiet | nemu/src/monitor/sdb/watchpoint.c:139-156 | polling twice in the same state reports nothing the second time |
| Watchpoints.PollMeans | nemu/src/monitor/sdb/watchpoint.c:143-152 | a poll changes only old_val, and afterwards it is the current value whenever the text evaluates |
| Watchpoints.PollAllMeans | nemu/src/monitor/sdb/watchpoint.c:139-156 | a sweep over the distinct records in use polls each once from its old state and leaves every other record alone |
| Watchpoints.AnyFiresMeans | nemu/src/monitor/sdb/watchpoint.c:139-156 | the sweep reports a change exactly when one of the records, as it was before, fires |
| Watchpoints.InitialPool | nemu/src/monitor/sdb/watchpoint.c:55-64 | records numbered by position and linked in order form one free list 0..31, and with no list in use they partition the pool |
| Watchpoints.PartitionMove | nemu/src/monitor/sdb/watchpoint.c:73-81 | moving the free head to the front of the list in use keeps the partition |
| Watchpoints.PartitionRelease | nemu/src/monitor/sdb/watchpoint.c:95-118 | returning a record in use to the free head keeps the partition |
| Watchpoints.PartitionSize | nemu/src/monitor/sdb/watchpoint.c:52-53 | the two lists hold 32 records between them; the free list is empty exactly when all 32 are in use |
| Watchpoints.RemoveMeans | nemu/src/monitor/sdb/watchpoint.c:95-107 | unlinking a record that occurs once drops exactly it and keeps the others in order |
| Watchpoints.RemoveAt | nemu/src/monitor/sdb/watchpoint.c:95-107 | removing the first occurrence, at k, leaves the records before and after it in order |
| Watchpoints.LinkedPush | nemu/src/monitor/sdb/watchpoint.c:76-118 | a record linked to the old head becomes the head of the list |
| Watchpoints.LinkedPop | nemu/src/monitor/sdb/watchpoint.c:75-96 | dropping the head leaves the list starting at its successor |
| Watchpoints.LinkedUnlink | nemu/src/monitor/sdb/watchpoint.c:105-107 | linking a predecessor to its successor's successor drops exactly that successor |
| Watchpoints.LinkedUpdate | nemu/src/monitor/sdb/watchpoint.c:116-148 | rewriting a record without touching the links on a list keeps the list |
| Watchpoints.SweepStep | nemu/src/monitor/sdb/watchpoint.c:141-154 | one more turn of the sweep polls the next record in the state the sweep left it, and reports whether any fired |
| Watchpoints.Upto | nemu/src/monitor/sdb/watchpoint.c:57-60 | the record numbers 0 .. n - 1 in order |
| Watchpoints.Pool.InitPool | nemu/src/monitor/sdb/watchpoint.c:55-64 | after init the free list is records 0..31 in order, each numbered by its index, and the list in use is empty |
| Watchpoints.Pool.constructor | nemu/src/monitor/sdb/watchpoint.c:52-53 | the static pool: 32 zero-filled records, head and free_ NULL |
| Watchpoints.Pool.ChainAll | nemu/src/monitor/sdb/watchpoint.c:57-60 | the loop numbers record i as i and links it to i + 1, the last to NULL |
| Watchpoints.Pool.NewWp | nemu/src/monitor/sdb/watchpoint.c:67-82 | NULL and no change when no record is free; otherwise the free head moves to the front of the list in use |
| Watchpoints.Pool.FindPredecessor | nemu/src/monitor/sdb/watchpoint.c:99-102 | the search stops at the node before the one numbered no, or at the last node |
| Watchpoints.Pool.UnlinkHead | nemu/src/monitor/sdb/watchpoint.c:95-97 | the head is the record to free: head moves to its successor, the free list unchanged |
| Watchpoints.Pool.UnlinkAfter | nemu/src/monitor/sdb/watchpoint.c:104-107 | the record after prev is the one to free: prev takes over its link, the rest of the list in use in order |
| Watchpoints.Pool.Unlink | nemu/src/monitor/sdb/watchpoint.c:86-112 | the record numbered no, now off the list in use with the others in order, or NULL and no change |
| Watchpoints.Pool.Release | nemu/src/monitor/sdb/watchpoint.c:115-118 | the released record's text and old value are cleared and it is the new free head |
| Watchpoints.Pool.FreeWp | nemu/src/monitor/sdb/watchpoint.c:85-121 | a record in use numbered no is unlinked, cleared and pushed on the free list; otherwise nothing changes |
| Watchpoints.Pool.PollOne | nemu/src/monitor/sdb/watchpoint.c:143-152 | one record is polled and the method reports whether it fired |
| Watchpoints.Pool.CheckWatchpoints | nemu/src/monitor/sdb/watchpoint.c:139-156 | every record in use is polled in list order; the result is true iff one fired; the lists stay a partition |
| CpuExec.Entry | nemu/src/cpu/cpu-exec.c:42-48 | a stored entry is the log line cut to 127 characters and then at its first newline |
| CpuExec.FirstNewline | nemu/src/cpu/cpu-exec.c:45 | the position of the first newline, or the length when there is none |
| CpuExec.IRingBuf.Write | nemu/src/cpu/cpu-exec.c:39-55 | the entry is stored at p_head, p_head advances modulo 16, is_full is set on the first wrap and never cleared |
| CpuExec.IRingBuf.constructor | nemu/src/cpu/cpu-exec.c:33-35 | the zero-initialised static ring buffer: empty log |
| CpuExec.IRingBuf.Display | nemu/src/cpu/cpu-exec.c:59-81 | nothing when empty; otherwise the last min(n, 16) entries, oldest first, with the arrow only on the newest |
| CpuExec.Step | nemu/src/cpu/cpu-exec.c:115-152 | one round: pc = dnpc, x0 zero, one more instruction counted, one trace entry, END/ABORT on trap/inv, and STOP when a watchpoint fires |
| CpuExec.AfterIs | nemu/src/cpu/cpu-exec.c:91-150 | after isa_exec_once: pc = dnpc, registers and memory as left, count + 1, the trace entry appended, the records as the sweep left them, and STOP when one fired |
| CpuExec.StepsUnfold | nemu/src/cpu/cpu-exec.c:148-154 | execute(k + 1) is one round and then, unless it left RUNNING, execute(k) |
| CpuExec.View | nemu/src/monitor/sdb/watchpoint.c:146 | the watchpoint sweep sees the new pc, registers and memory |
| CpuExec.StepsCount | nemu/src/cpu/cpu-exec.c:146-155 | execute(n) runs at most n instructions with one trace entry each, and fewer only when one left the state other than RUNNING |
| CpuExec.CpuExecSettles | nemu/src/cpu/cpu-exec.c:172-190 | cpu_exec never leaves RUNNING, leaves an ended emulator unchanged, and otherwise runs at most n instructions |
| CpuExec.Emulator.ExecOnce | nemu/src/cpu/cpu-exec.c:115-151 | one round of execute leaves the emulator in the state Step gives |
| CpuExec.Emulator.constructor | nemu/src/cpu/cpu-exec.c:172-178 | the emulator cpu_exec is first called on: pc at the entry point, registers zero, STOP, no instruction counted, empty trace |
| CpuExec.Emulator.Finish | nemu/src/cpu/cpu-exec.c:91-150 | the trace entry, cpu.pc = dnpc, the count, and STOP when a watchpoint fires |
| CpuExec.Emulator.Hook | nemu/src/cpu/cpu-exec.c:109-112 | check_watchpoints, then STOP exactly when one fired, overriding END or ABORT |
| CpuExec.Emulator.Commit | nemu/src/cpu/cpu-exec.c:119-150 | pc, registers and memory as the instruction left them, END/ABORT on a trap, and one more instruction counted |
| CpuExec.Emulator.Run | nemu/src/cpu/cpu-exec.c:146-155 | execute(n) leaves the emulator in the state Steps gives |
| CpuExec.Emulator.Round | nemu/src/cpu/cpu-exec.c:148-152 | one round, whether the state is still RUNNING, and one round fewer left |
| CpuExec.Emulator.CpuExec | nemu/src/cpu/cpu-exec.c:172-190 | cpu_exec: no change after END, ABORT or QUIT; otherwise RUNNING, execute(n), and RUNNING turned into STOP |
| Difftest.RegCpy | nemu/src/isa/riscv32/difftest/dut.c:21-33 | to the DUT: gpr[i] from slot i and pc from slot 32, truncated to 32 bits; to the REF: slots written, cpu unchanged |
| Difftest.SlotsRoundTrip | nemu/src/isa/riscv32/difftest/dut.c:21-33 | copying out and back in restores every register and the pc |
| Difftest.Low32Fits | nemu/src/isa/riscv32/difftest/dut.c:24-25 | truncating a 64-bit slot to 32 bits loses nothing exactly when its high half is clear |
| Difftest.Low32Widen | nemu/src/isa/riscv32/difftest/dut.c:24-31 | widening a register to a slot and truncating it back gives the register |
| Difftest.NarrowRoundTrip | nemu/src/isa/riscv32/difftest/dut.c:21-33 | copying in and back out restores the slots exactly when none has its high half set |
| Difftest.CheckRegs | nemu/src/isa/riscv32/difftest/dut.c:34-53 | true iff all 32 registers and the pc agree; otherwise the report names the lowest differing register, and the pc only when all registers agree; nothing changes |
| Ftrace.FirstCovering | nemu/src/monitor/sdb/ftrace.c:21-25 | the first symbol whose range holds the address, or the table length |
| Ftrace.FuncNameMeans | nemu/src/monitor/sdb/ftrace.c:20-27 | "???" when no symbol covers the address, else the name of the first that does |
| Ftrace.Tracer.FindFuncName | nemu/src/monitor/sdb/ftrace.c:20-27 | the loop returns FuncName |
| Ftrace.Classify | nemu/src/monitor/sdb/ftrace.c:73-115 | JALR link to non-link is a return, JALR non-link to link an indirect call, JAL into a link register a call, anything else nothing |
| Ftrace.IndentBounds | nemu/src/monitor/sdb/ftrace.c:86-108 | the indent never goes negative and is at least the start plus calls minus returns |
| Ftrace.CallThenReturn | nemu/src/monitor/sdb/ftrace.c:86-108 | a call followed by a return restores the indent |
| Ftrace.Indentation | nemu/src/monitor/sdb/ftrace.c:88-106 | the strcat loop yields two spaces per level |
| Ftrace.Spaces | nemu/src/monitor/sdb/ftrace.c:88-106 | indent_buf holds two spaces per level and nothing else |
| Ftrace.Tracer.Log | nemu/src/monitor/sdb/ftrace.c:70-116 | no symbols: nothing and the indent unchanged; else the line of a return at the decremented clamped indent, or of a call at the old indent followed by the increment |
| Ftrace.Tracer.constructor | nemu/src/monitor/sdb/ftrace.c:29-67 | the tracer with the loaded symbol table and indent 0 |
| KlibString.Strlen | abstract-machine/klib/src/string.c:7-14 | the index of the first NUL |
| KlibString.StrLen | abstract-machine/klib/src/string.c:7-14 | the index of the first NUL: a NUL there and none before |
| KlibString.NLen | abstract-machine/klib/src/string.c:32-35 | the bytes strncpy copies: at most n non-NUL bytes, fewer only when a NUL stops the copy |
| KlibString.StrLenAppend | abstract-machine/klib/src/string.c:7-14 | NUL-free bytes before a C string add their length |
| KlibString.Strcpy | abstract-machine/klib/src/string.c:16-25 | dst starts with src's contents and terminator; the bytes after stay |
| KlibString.StrcpyString | abstract-machine/klib/src/string.c:16-25 | dst holds the same C string as src |
| KlibString.CopyString | abstract-machine/klib/src/string.c:18-57 | the copy loop writes src's contents and a terminator at dst[at..], the bytes around them unchanged |
| KlibString.Strncpy | abstract-machine/klib/src/string.c:27-42 | exactly n bytes written: the first min(n, len) from src, the rest NUL |
| KlibString.StrncpyTerminates | abstract-machine/klib/src/string.c:27-42 | the n bytes hold a terminator exactly when src is shorter than n |
| KlibString.NLenOfString | abstract-machine/klib/src/string.c:32 | the number of bytes copied is min(n, strlen(src)) |
| KlibString.Strcat | abstract-machine/klib/src/string.c:44-60 | src's contents and a terminator replace dst's terminator; the earlier bytes stay |
| KlibString.StrcatString | abstract-machine/klib/src/string.c:44-60 | dst holds its old contents followed by src's |
| KlibString.Strcmp | abstract-machine/klib/src/string.c:62-69 | the difference of the first differing unsigned bytes of the terminated strings |
| KlibString.CmpStrings | abstract-machine/klib/src/string.c:62-69 | strcmp is 0 iff the strings are equal and negative iff the first comes first lexicographically |
| KlibString.CmpZeroIff | abstract-machine/klib/src/string.c:62-136 | equal-length sequences compare 0 iff they are equal |
| KlibString.ScanEqual | abstract-machine/klib/src/string.c:75-78 | the strncmp loop stops at the first differing or NUL byte, or at n - 1 |
| KlibString.Strncmp | abstract-machine/klib/src/string.c:71-80 | strcmp on the windows of at most n bytes; 0 when n is 0 |
| KlibString.CmpAt | abstract-machine/klib/src/string.c:66-78 | equal bytes pass the comparison on; a differing or last byte decides it by its difference |
| KlibString.StrncmpZeroIff | abstract-machine/klib/src/string.c:71-80 | strncmp returns 0 iff the two windows of at most n bytes up to the first NUL are equal |
| KlibString.CmpZeroPrefix | abstract-machine/klib/src/string.c:62-80 | the comparison is 0 iff one sequence is a prefix of the other |
| KlibString.WindowNotProperPrefix | abstract-machine/klib/src/string.c:75 | no window is a proper prefix of another of the same bound |
| KlibString.StrncmpWhole | abstract-machine/klib/src/string.c:62-80 | on strings long enough for n, strncmp compares as strcmp |
| KlibString.Memset | abstract-machine/klib/src/string.c:82-89 | bytes [0, n) become (unsigned char)c; the rest stay |
| KlibString.Memcpy | abstract-machine/klib/src/string.c:114-121 | dst[0, n) becomes src[0, n); the rest stay |
| KlibString.CopyForward | abstract-machine/klib/src/string.c:100-104 | the front-to-back copy is correct when the destination does not start inside the source |
| KlibString.CopyBackward | abstract-machine/klib/src/string.c:105-110 | the back-to-front copy is correct for a destination inside the source |
| KlibString.Memmove | abstract-machine/klib/src/string.c:91-112 | the n destination bytes become the source bytes as they were, even when the ranges overlap |
| KlibString.Memcmp | abstract-machine/klib/src/string.c:123-136 | the difference at the first differing byte, or 0 iff the n bytes are equal |
| KlibStdio.CDiv | abstract-machine/klib/src/stdio.c:40 | C's `/` truncates toward zero |
| KlibStdio.CRem | abstract-machine/klib/src/stdio.c:38 | C's `%` takes the dividend's sign |
| KlibStdio.DigitChar | abstract-machine/klib/src/stdio.c:39 | '0' + d below 10, 'a' + d - 10 above |
| KlibStdio.ItoaNonNegative | abstract-machine/klib/src/stdio.c:29-58 | itoa of a non-negative value is its digits in the base, most significant first; "0" for 0 |
| KlibStdio.ItoaNegative | abstract-machine/klib/src/stdio.c:23-46 | signed itoa of a negative value is '-' and the digits of its magnitude |
| KlibStdio.ReverseDigits | abstract-machine/klib/src/stdio.c:37-58 | reversing the characters the digit loop writes gives the digits, most significant first |
| KlibStdio.DigitsLength | abstract-machine/klib/src/stdio.c:37-41 | values below base^k have at most k digits |
| KlibStdio.Wrap32 | abstract-machine/klib/src/stdio.c:26 | the 32-bit two's complement result of an int operation |
| KlibStdio.AsWrittenWraps | abstract-machine/klib/src/stdio.c:24-46 | when the negation wraps back to the value itself, the digit loop runs on the negative value |
| KlibStdio.DigitsRoundTrip | abstract-machine/klib/src/stdio.c:36-41 | reading the digits back gives the value |
| KlibStdio.DecimalFits | abstract-machine/klib/src/stdio.c:65-82 | every int32 has at most 10 decimal digits, so %d fits temp_str |
| KlibStdio.IntMinAsWritten | abstract-machine/klib/src/stdio.c:24-27 | as written, itoa(INT_MIN) prints punctuation instead of "-2147483648" |
| KlibStdio.IntMinText | abstract-machine/klib/src/stdio.c:18-59 | the corrected itoa prints INT_MIN as "-2147483648" |
| KlibStdio.AsWrittenAgrees | abstract-machine/klib/src/stdio.c:18-59 | off INT_MIN the code as written and the corrected itoa agree |
| KlibStdio.ReverseInPlace | abstract-machine/klib/src/stdio.c:51-58 | the two-pointer loop reverses buf[0, len) in place and leaves the rest |
| KlibStdio.WriteDigits | abstract-machine/klib/src/stdio.c:37-41 | the digit loop writes the digits least significant first |
| KlibStdio.Itoa | abstract-machine/klib/src/stdio.c:18-59 | the text of the value in the base and a terminator at the start of str |
| KlibStdio.WriteBackwards | abstract-machine/klib/src/stdio.c:30-46 | before the reversal str holds the digits least significant first, then '-' for a negative value |
| KlibStdio.WriteReversed | abstract-machine/klib/src/stdio.c:30-58 | the characters written backwards, the terminator, then their reversal in place |
| KlibStdio.ItoaNoNul | abstract-machine/klib/src/stdio.c:18-59 | itoa's text holds no NUL |
| KlibStdio.FormatPlain | abstract-machine/klib/src/stdio.c:99-101 | a format without '%' is copied verbatim |
| KlibStdio.Directives | abstract-machine/klib/src/stdio.c:72-98 | %d writes itoa's text, %s the string, %% one '%', an unknown %c writes '%' then c |
| KlibStdio.FormatNoNul | abstract-machine/klib/src/stdio.c:105-108 | the output of a NUL-free format has no NUL, so the count returned is its strlen |
| KlibStdio.CopyOut | abstract-machine/klib/src/stdio.c:75-86 | the `while (*s)` copy writes the C string's contents at out[o..] |
| KlibStdio.Step | abstract-machine/klib/src/stdio.c:69-103 | one turn of the loop writes a plain character or one directive and moves both pointers past it |
| KlibStdio.PlainStep | abstract-machine/klib/src/stdio.c:99-101 | a plain format character is written as it is |
| KlibStdio.DirectiveStep | abstract-machine/klib/src/stdio.c:70-98 | a directive: %s takes a string argument, %d an int, %% and unknown ones none, and each writes its text |
| KlibStdio.NulAt | abstract-machine/klib/src/stdio.c:69 | the loop stops at the terminator of fmt and nowhere before it |
| KlibStdio.Advance | abstract-machine/klib/src/stdio.c:69-103 | writing the next piece keeps the loop invariant: the output so far, and room left in out |
| KlibStdio.FormatDone | abstract-machine/klib/src/stdio.c:105-108 | at the terminator what was written is the whole formatted text, with room for the terminator |
| KlibStdio.EmitDecimal | abstract-machine/klib/src/stdio.c:80-88 | %d: itoa into temp_str and the copy to out |
| KlibStdio.Sprintf | abstract-machine/klib/src/stdio.c:62-109 | the formatted text and a terminator at the start of out; the result is the number of characters before the terminator |
| GenExpr.Compute | nemu/tools/gen-expr/gen-expr.c:300-310 | uint32 +, -, *, / mod 2^32; None for division by zero |
| GenExpr.LiteralText | nemu/tools/gen-expr/gen-expr.c:272-273 | a literal's text is its decimal numeral |
| GenExpr.GenMeans | nemu/tools/gen-expr/gen-expr.c:270-311 | what gen_final writes and returns is the chosen tree's text and value, unless it returns the flag |
| GenExpr.FlaggedStands | nemu/tools/gen-expr/gen-expr.c:279-296 | an operand returning the flag makes the operator return it |
| GenExpr.ChosenShape | nemu/tools/gen-expr/gen-expr.c:271-298 | from level 0 the choices describe a full tree of depth 5 with literals in 1..100 |
| GenExpr.PerfectCounts | nemu/tools/gen-expr/gen-expr.c:277-298 | a full tree of depth d has 2^d literals, one operator fewer, and 4 * 2^d - 3 tokens |
| GenExpr.FullTree | nemu/tools/gen-expr/gen-expr.c:277-298 | gen_final(0) describes 32 literals, 31 operators and 125 tokens, which fit the token array |
| GenExpr.PrintLength | nemu/tools/gen-expr/gen-expr.c:273-298 | a full tree of depth d prints in at most 8 * 2^d - 5 characters |
| GenExpr.TextFits | nemu/tools/gen-expr/gen-expr.c:270-298 | what gen_final(0) writes fits buf |
| GenExpr.FlagCollision | nemu/tools/gen-expr/gen-expr.c:269-327 | "(1 - 2)" divides by nothing yet has the flag's value, so main discards it |
| GenExpr.GenParens | nemu/tools/gen-expr/gen-expr.c:277-298 | gen_final's text is nested, and balanced unless it returned the flag |
| GenExpr.UnfinishedText | nemu/tools/gen-expr/gen-expr.c:279-298 | the text is balanced exactly when gen_final reached its ")" |
| GenExpr.JoinNet | nemu/tools/gen-expr/gen-expr.c:281-298 | after a balanced left operand the text is balanced exactly when the right operand returned no flag |
| GenExpr.MeansNode | nemu/tools/gen-expr/gen-expr.c:277-310 | below an operator both operands mean what they should, so the operator does |
| GenExpr.ShortLiteral | nemu/tools/gen-expr/gen-expr.c:272-273 | a literal in 1..100 prints in at most three characters |
| GenExpr.Tokens | nemu/tools/gen-expr/gen-expr.c:277-298 | the tokens of a printed tree number its size |
| GenExpr.Generator.Final | nemu/tools/gen-expr/gen-expr.c:270-311 | gen_final appends to buf what GenFinal writes and returns its value |
| GenExpr.Generator.constructor | nemu/tools/gen-expr/gen-expr.c:313-320 | empty buf, no rand() call yet, nothing printed |
| GenExpr.Generator.Operator | nemu/tools/gen-expr/gen-expr.c:277-279 | '(' and the left operand, then the rest unless the left operand returned the flag |
| GenExpr.Generator.Rest | nemu/tools/gen-expr/gen-expr.c:281-310 | the operator, the right operand, and ')' unless it returned the flag |
| GenExpr.Generator.NextCase | nemu/tools/gen-expr/gen-expr.c:324-332 | clear buf and call gen_final(0) until it does not return the flag |
| GenExpr.Generator.Run | nemu/tools/gen-expr/gen-expr.c:313-337 | main adds one line "value text" per case it keeps, in order, and completes all `loop` iterations exactly when no case ran out of retries |
| GenCheck.LexPrinted | nemu/src/monitor/sdb/expr.c:80-146 | make_token reads a printed expression into exactly its tokens |
| GenCheck.LexTree | nemu/src/monitor/sdb/expr.c:80-146 | tokenizing the text of an expression, followed by anything that cannot extend its last token, appends its tokens |
| GenCheck.LexOperator | nemu/src/monitor/sdb/expr.c:103-123 | after an operand, an operator symbol tokenizes as the binary operator |
| GenCheck.FirstChar | nemu/tools/gen-expr/gen-expr.c:271-277 | a printed expression starts with '(' or a digit |
| GenCheck.LastToken | nemu/src/monitor/sdb/expr.c:105-114 | a printed expression ends in a number or ')', so a '*' after it multiplies |
| GenCheck.LexPrintedAsWritten | nemu/src/monitor/sdb/expr.c:80-146 | make_token as written does the same |
| GenCheck.OperationWrapped | nemu/src/monitor/sdb/expr.c:284-295 | check_parentheses holds for a printed operation |
| GenCheck.InnerNotWrapped | nemu/src/monitor/sdb/expr.c:284-295 | check_parentheses fails between an operation's parentheses |
| GenCheck.InnerMainOp | nemu/src/monitor/sdb/expr.c:297-325 | find_main_op inside an operation's parentheses picks its operator |
| GenCheck.OperationUnwraps | nemu/src/monitor/sdb/expr.c:227-229 | eval strips the parentheses of a printed operation |
| GenCheck.InnerSplits | nemu/src/monitor/sdb/expr.c:231-266 | between the parentheses eval splits at the operation's operator |
| GenCheck.EvalOperationTo | nemu/src/monitor/sdb/expr.c:227-266 | eval of an operation combines what its operands evaluate to |
| GenCheck.EvalTree | nemu/src/monitor/sdb/expr.c:205-268 | eval over the tokens of an expression computes what the expression gives, whatever the flag |
| GenCheck.TreeEvalAgrees | nemu/tools/gen-expr/gen-expr.c:300-310 | the evaluation read off a tree agrees with its value and flag-freedom |
| GenCheck.TokensEvaluate | nemu/src/monitor/sdb/expr.c:279 | eval over all the tokens of an expression, with the flag set, agrees with it |
| GenCheck.PrintedEvaluates | nemu/src/monitor/sdb/expr.c:271-280 | expr on a printed expression succeeds iff it divides by zero nowhere, with its value |
| GenCheck.ExprOfTokens | nemu/src/monitor/sdb/expr.c:271-280 | expr on a text that tokenizes is eval over all of its tokens with the flag set |
| GenCheck.ExprAgrees | nemu/src/monitor/sdb/expr.c:271-280 | expr on a text that tokenizes into an expression's tokens agrees with the expression |
| GenCheck.LaidEvaluates | nemu/src/monitor/sdb/expr.c:205-268 | eval over tokens that lay out an expression, with the flag set, agrees with it |
| GenCheck.AsWrittenTree | nemu/src/monitor/sdb/expr.c:205-268 | on the tokens of an expression, eval as written, with as much fuel as tokens, returns what the corrected eval gives |
| GenCheck.PrintedEvaluatesAsWritten | nemu/src/monitor/sdb/expr.c:271-280 | expr as written on a printed expression returns, with the expression's value |
| GenCheck.PrintedRunsAsWritten | nemu/src/monitor/sdb/expr.c:271-280 | expr as written on a printed expression returns what the corrected expr gives |
| GenCheck.TokensRunAsWritten | nemu/src/monitor/sdb/expr.c:205-268 | eval as written over all the tokens of an expression returns what the corrected eval gives |
| GenCheck.ExprAsWrittenOfTokens | nemu/src/monitor/sdb/expr.c:271-280 | expr as written on a text that tokenizes is eval as written over its tokens with the flag set |
| GenCheck.SameTokensSameResult | nemu/src/monitor/sdb/expr.c:271-280 | when both tokenizers agree and eval as written returns, expr as written returns what expr gives |
| GenCheck.GeneratedCaseHolds | nemu/src/monitor/sdb/sdb.c:219-233 | every case gen-expr keeps evaluates with success to the value printed before it |
| GenCheck.RetryPasses | nemu/tools/gen-expr/gen-expr.c:324-332 | a retried case that does not return the flag evaluates with success to its value |
| GenCheck.CasesPass | nemu/tools/gen-expr/gen-expr.c:320-336 | every case main keeps is flag-free and evaluates with success to its value |
| GenCheck.RetryPassing | nemu/tools/gen-expr/gen-expr.c:324-336 | a case main keeps passes the test command's check |
| GenCheck.AllPass | nemu/src/monitor/sdb/sdb.c:219-233 | every line main prints passes the test command's check |
| Unsigned.Wrap | nemu/src/monitor/sdb/expr.c:249-251 | reduction modulo 2^32: unchanged in range, congruent always |
| Unsigned.QuotientIsQuotient | nemu/tools/gen-expr/gen-expr.c:308 | the repeated-subtraction quotient is a / b |
| Unsigned.ProductIsProduct | nemu/tools/gen-expr/gen-expr.c:307 | the repeated-addition product is a * b |
| Unsigned.DivisionUnique | nemu/tools/gen-expr/gen-expr.c:308 | the only k with a == b * k + r and 0 <= r < b is a / b |

## Left out

- Lexer.MakeToken: uses the corrected capacity check, which also refuses a '*' as the 1025th token. The code as written stores it past the array (Lexer.LexAsWritten, Lexer.StarOverflowsTokenArray).
- Evaluator.Evaluate: runs the corrected eval, which fails where eval as written recurses forever ("1 2") or reaches `assert(0)` ("( *$ra"). Evaluator.AsWrittenAgrees shows that the two agree wherever the code as written returns.
- Watchpoints.Pool.CheckWatchpoints: evaluates each text with the corrected expr (Evaluator.Expr), not expr as written. For a watched text on which expr as written hangs or aborts, the model fails the poll and keeps the old value.
- CpuExec.Emulator.Hook: polls through Watchpoints.Pool.CheckWatchpoints and so uses the corrected expr as well.
- Lexer.Token: the text of a token is unbounded. expr.c copies it into `char str[32]` with no length check (expr.c:131-132), which overflows from 32 characters on. The model keeps the whole text.
- Evaluator.Operand: a literal that does not fit in 32 bits, which is undefined behaviour for `sscanf("%u")`/`"%x"` (expr.c:214-217), is taken modulo 2^32.
- KlibStdio.Itoa: prints a signed INT_MIN as "-2147483648", the corrected result. The wrapping negation of the code as written is modelled by KlibStdio.ItoaAsWritten and shown by KlibStdio.IntMinAsWritten.
- KlibStdio.Format: uses the corrected itoa text for `%d`, so INT_MIN formats as "-2147483648".
- KlibStdio.Sprintf: requires a defined call. It excludes a lone '%' at the end of the format (reading past the terminator), a missing or mistyped argument, and an output buffer too small for the text.
- Execute.SignedDiv: the ordinary quotient has no lemma against integer division truncated toward zero. Only the zero-divisor and overflow results, the sign step (Execute.ApplySignNegates) and a concrete example (Execute.SignedDivisionTruncates) are proved. Symbolic 32-bit bit-vector division does not verify within the resource limit.
- Execute.SignedRem: the same for the remainder; no all-inputs lemma `a == b * q + r` at the integer level, for the same reason.
- Execute.MulHighSigned: no lemma that the result is the high word of the exact product of the signed operands. Only the sign extension of the operands is proved (Execute.WideSignedExtends), because symbolic 64-bit bit-vector multiplication does not verify within the resource limit.
- Execute.MulHighSignedUnsigned: as MulHighSigned.
- Execute.MulHighUnsigned: as MulHighSigned.
- CpuExec.Step: appends every instruction's trace line to the ring buffer. The source does so only when built with `CONFIG_ITRACE_COND` and when `ITRACE_COND` holds (cpu-exec.c:92-93); the model assumes both.
- CpuExec.After: as CpuExec.Step.
- CpuExec.Step: the ftrace call and `difftest_step` inside `trace_and_difftest`, the `g_print_step` echo and `device_update` are not part of the round. Ftrace.Tracer.Log models `ftrace_log` on its own.
- CpuExec.Emulator.CpuExec: does not call `iringbuf_display` on END or ABORT (cpu-exec.c:188-192), and does not model `Log`, `statistic` or the host timer. The display itself is CpuExec.IRingBuf.Display.
- CpuExec.Emulator.constructor: the monitor's start-up (ISA initialisation, loading the image) is not part of this model; the entry point and the memory image are parameters.
- CpuExec.IRingBuf.Display: returns the lines as `Line` values (text, arrow flag) instead of printing them.
- Memory.Read: memory is a total map over the 32-bit address space. Out-of-range physical addresses, on which NEMU panics, and devices are not modelled.
- Memory.Store: as Memory.Read.
- GenExpr.GenFinal: `rand()` is a parameter, a function from the call index to the value drawn; the seeding with `time`/`srand` is left out.
- GenExpr.Retry: main's `while (1)` is cut off after `attempts` calls. A case whose attempts all return the flag ends the run, where main would go on drawing.
- GenExpr.Cases: as GenExpr.Retry.
- GenExpr.Generator.NextCase: as GenExpr.Retry.
- GenExpr.Generator.Run: appends each line `printf` would write, as text (GenExpr.Line), to the field `lines` instead of standard output.
- Ftrace.Tracer.Log: returns the trace line as an `Entry` value, not as `snprintf` text. It requires the printed indent to fit the 128-byte `indent_buf`, which overflows from 64 levels on.
- Difftest.CheckRegs: returns the mismatch as a `Report` value instead of logging it.
- Registers.Str2Val: the "Unknown register name" message is not modelled.
- The `INSTPAT` matcher (`cpu/decode.h`), `inst_fetch`, `vaddr_read`/`vaddr_write`, `NEMUTRAP` and `INV` are not part of this model. Patterns are field constraints on opcode/funct3/funct7, memory is Memory.Mem, and traps are Execute.Outcome values.
- `isa_reg_display`, `display_watchpoints`, the sdb command loop and every `printf`/`Log` message are output only and are not modelled.
- The POSIX regex compilation in `init_regex` is replaced by hand-written prefix matchers for the same 13 rules in the same order.
- The ITRACE log-line formatting and the disassembler call in `exec_once` are a parameter (`trace`) from pc and instruction word to the line.
- `init_ftrace` (ELF reading) is replaced by a symbol table given to the Ftrace.Tracer constructor.
- `printf`, `vsprintf`, `snprintf` and `vsnprintf` of klib only panic and are not modelled.
- gen-expr.c's commented-out code and the unused `gen_recursive_with_calc` and `gen_expr_no_div_zero` are not modelled.
- Concurrency and timing play no part in the core; `get_time` and the statistics are left out.

## Findings

| source | as written | input that shows it | evidently intended | confidence | as-written member | corrected member |
|---|---|---|---|---|---|---|
| nemu/src/monitor/sdb/expr.c:231-244 | with no operator outside parentheses, find_main_op answers -1; eval then calls eval(p, -2) and eval(0, q), which for p = 0 is the same call again | the text "1 2" | the range fails, as an empty range does | high, not executed | Evaluator.JuxtaposedNeverReturns | Evaluator.JuxtaposedFails |
| nemu/src/monitor/sdb/expr.c:231-265 | a dereference that is the main operator but not the first token of its range is taken for a binary operator, and the switch reaches assert(0) | the text "( *$ra" | the range fails, because it is not a valid expression | high, not executed | Evaluator.DerefAfterParenCrashes | Evaluator.DerefAfterParenText |
| nemu/src/monitor/sdb/expr.c:103-123 | the '*' case stores its token without the 1024-token check the other tokens get (expr.c:126-129) | 512 copies of "1+" followed by "*": the '*' is the 1025th token | the text is refused, as for any other token past 1024 | high, not executed | Lexer.StarOverflowsTokenArray | Lexer.LexFacts |
| abstract-machine/klib/src/stdio.c:24-27 | `value = -value` overflows for INT_MIN, and the digit loop then runs on a negative value | itoa(INT_MIN, buf, 10, true), as `%d` of -2147483648 | "-2147483648" | high, not executed | KlibStdio.IntMinAsWritten | KlibStdio.IntMinText |
