/**
 * The register names of riscv32 and the lookup the debugger uses to read a
 * register by name (regs[] and isa_reg_str2val in reg.c).
 */
module Registers {
  import opened Unsigned

  const NumRegs: nat := 32

  /** regs[]: the ABI names of x0..x31; x0 is spelled "$0". */
  const Names: seq<string> :=
    ["$0", "ra", "sp", "gp", "tp", "t0", "t1", "t2"]
    + ["s0", "s1", "a0", "a1", "a2", "a3", "a4", "a5"]
    + ["a6", "a7", "s2", "s3", "s4", "s5", "s6", "s7"]
    + ["s8", "s9", "s10", "s11", "t3", "t4", "t5", "t6"]

  /** The registers the debugger can read: pc and the 32 general-purpose registers. */
  datatype CpuView = CpuView(pc: U32, gpr: seq<U32>)
  {
    predicate Valid() { |gpr| == NumRegs }
  }

  /** What isa_reg_str2val hands back: the value and the success flag it sets. */
  datatype Lookup = Lookup(value: U32, success: bool)

  /** The index of the first name equal to `s`, searching from `i`; NumRegs when there is none. */
  function FirstNamed(s: string, i: nat): (r: nat)
    requires i <= NumRegs
    ensures i <= r <= NumRegs
    ensures r < NumRegs ==> Names[r] == s
    ensures forall j :: i <= j < r ==> Names[j] != s
    decreases NumRegs - i
  {
    if i == NumRegs then NumRegs
    else if Names[i] == s then i
    else FirstNamed(s, i + 1)
  }

  /**
   * isa_reg_str2val: "pc" reads the pc, a name of regs[] reads that register,
   * anything else fails with 0. The flag is set afresh on every call.
   */
  function Str2Val(s: string, cpu: CpuView): (r: Lookup)
    requires cpu.Valid()
    ensures r.success <==> s == "pc" || s in Names
    ensures !r.success ==> r.value == 0
  {
    if s == "pc" then Lookup(cpu.pc, true)
    else
      var i := FirstNamed(s, 0);
      if i < NumRegs then Lookup(cpu.gpr[i], true) else Lookup(0, false)
  }

  /** The loop of isa_reg_str2val, comparing the name against regs[0..31] in order. */
  method IsaRegStr2Val(s: string, cpu: CpuView) returns (value: U32, success: bool)
    requires cpu.Valid()
    ensures Lookup(value, success) == Str2Val(s, cpu)
  {
    success := true;
    if s == "pc" {
      return cpu.pc, success;
    }
    var i := 0;
    while i < NumRegs
      invariant 0 <= i <= NumRegs
      invariant FirstNamed(s, 0) == FirstNamed(s, i)
    {
      if s == Names[i] {
        return cpu.gpr[i], success;
      }
      i := i + 1;
    }
    success := false;
    return 0, success;
  }

  /** No two registers share a name, and none is called "pc": a name picks out one register. */
  lemma NamesDistinct()
    ensures forall i, j :: 0 <= i < j < NumRegs ==> Names[i] != Names[j]
    ensures "pc" !in Names
  {
  }

  /** The pc reads back with success. */
  lemma ReadsPc(cpu: CpuView)
    requires cpu.Valid()
    ensures Str2Val("pc", cpu) == Lookup(cpu.pc, true)
  {
  }

  /** The name of register i reads register i with success. */
  lemma ReadsNamedRegister(cpu: CpuView, i: nat)
    requires cpu.Valid() && i < NumRegs
    ensures Str2Val(Names[i], cpu) == Lookup(cpu.gpr[i], true)
  {
    NamesDistinct();
    FirstNamedIs(Names[i], i);
  }

  lemma {:induction false} FirstNamedIs(s: string, i: nat)
    requires i < NumRegs && Names[i] == s
    requires forall j :: 0 <= j < i ==> Names[j] != s
    ensures FirstNamed(s, 0) == i
  {
    FirstNamedFrom(s, 0, i);
  }

  lemma {:induction false} FirstNamedFrom(s: string, k: nat, i: nat)
    requires k <= i < NumRegs && Names[i] == s
    requires forall j :: k <= j < i ==> Names[j] != s
    ensures FirstNamed(s, k) == i
    decreases i - k
  {
    if k < i {
      FirstNamedFrom(s, k + 1, i);
    }
  }

  /**
   * An expression register token is "$" followed by the name, and the "$" is
   * dropped before the lookup: "$0" looks up "0", which no register is called,
   * so x0 cannot be read by name.
   */
  lemma ZeroRegisterUnreadable(cpu: CpuView)
    requires cpu.Valid()
    ensures !Str2Val("0", cpu).success
  {
    assert "0" !in Names;
  }
}
