/**
 * The register side of differential testing (difftest/dut.c): copying the
 * CPU registers to and from the reference's 33-slot uint64_t buffer, and
 * comparing the emulator's registers with the reference's.
 */
module Difftest {
  import opened Bits
  import CpuExec
  import Execute

  type Slot64 = bv64

  /** Which way isa_difftest_regcpy copies. */
  datatype Direction = ToDut | ToRef

  /** The register file and pc of the reference (CPU_state). */
  datatype RefRegs = RefRegs(gpr: seq<Word>, pc: Word)

  /** What the log of isa_difftest_checkregs reports; `at` is the pc of the instruction just executed. */
  datatype Report =
    | Match
    | GprDiffers(index: nat, refValue: Word, dutValue: Word, at: Word)
    | PcDiffers(refValue: Word, dutValue: Word, at: Word)

  /** A uint64_t slot stored into a 32-bit register: the high half is dropped. */
  function Low32(x: Slot64): (w: Word)
  {
    (x & 0xFFFF_FFFF) as Word
  }

  /** A 32-bit register stored into a uint64_t slot: zero-extended. */
  function Widen(w: Word): (x: Slot64)
  {
    w as Slot64
  }

  /** Truncation loses nothing exactly when the high half of the slot is clear. */
  lemma Low32Fits(x: Slot64)
    ensures Widen(Low32(x)) == x <==> x < 0x1_0000_0000
  {
  }

  /** Zero-extending then truncating gives the register back. */
  lemma Low32Widen(w: Word)
    ensures Low32(Widen(w)) == w
  {
  }

  /** The 33 slots written for a register file and pc: gpr[i] in slot i, pc in slot 32. */
  function Slots(gpr: seq<Word>, pc: Word): (s: seq<Slot64>)
    ensures |s| == |gpr| + 1
  {
    seq(|gpr|, i requires 0 <= i < |gpr| => Widen(gpr[i])) + [Widen(pc)]
  }

  /** The registers read back from the first n slots. */
  function Narrow(s: seq<Slot64>, n: nat): (gpr: seq<Word>)
    requires n <= |s|
    ensures |gpr| == n
  {
    seq(n, i requires 0 <= i < n => Low32(s[i]))
  }

  /** Copying out with ToRef and back in with ToDut restores every register and the pc. */
  lemma {:induction false} SlotsRoundTrip(gpr: seq<Word>, pc: Word)
    ensures Narrow(Slots(gpr, pc), |gpr|) == gpr
    ensures Low32(Slots(gpr, pc)[|gpr|]) == pc
  {
    var s := Slots(gpr, pc);
    forall i | 0 <= i < |gpr|
      ensures Narrow(s, |gpr|)[i] == gpr[i]
    {
      Low32Widen(gpr[i]);
    }
    Low32Widen(pc);
  }

  /**
   * Loading 33 slots with ToDut and storing them back with ToRef gives the
   * same slots exactly when none of them has its high half set.
   */
  lemma {:induction false} NarrowRoundTrip(s: seq<Slot64>)
    requires |s| == Execute.NumRegs + 1
    ensures Slots(Narrow(s, Execute.NumRegs), Low32(s[Execute.NumRegs])) == s <==>
      forall i :: 0 <= i < |s| ==> s[i] < 0x1_0000_0000
  {
    var back := Slots(Narrow(s, Execute.NumRegs), Low32(s[Execute.NumRegs]));
    forall i | 0 <= i < |s|
      ensures back[i] == s[i] <==> s[i] < 0x1_0000_0000
    {
      assert back[i] == Widen(Low32(s[i]));
      Low32Fits(s[i]);
    }
    if forall i :: 0 <= i < |s| ==> s[i] < 0x1_0000_0000 {
      assert back == s;
    }
  }

  /**
   * isa_difftest_regcpy: ToDut loads gpr[i] from slot i and pc from slot 32,
   * each truncated to 32 bits; ToRef stores gpr[i] into slot i and pc into
   * slot 32, zero-extended, and leaves the CPU alone.
   */
  method RegCpy(emu: CpuExec.Emulator, dut: array<Slot64>, direction: Direction)
    requires |emu.gpr| == Execute.NumRegs && dut.Length > Execute.NumRegs
    modifies emu, dut
    ensures direction == ToDut ==>
      emu.gpr == Narrow(old(dut[..]), Execute.NumRegs) && emu.pc == Low32(old(dut[Execute.NumRegs])) &&
      dut[..] == old(dut[..])
    ensures direction == ToRef ==>
      emu.gpr == old(emu.gpr) && emu.pc == old(emu.pc) &&
      dut[..] == Slots(old(emu.gpr), old(emu.pc)) + old(dut[Execute.NumRegs + 1..])
    ensures emu.mem == old(emu.mem) && emu.state == old(emu.state) && emu.haltPc == old(emu.haltPc) &&
      emu.haltRet == old(emu.haltRet) && emu.count == old(emu.count)
  {
    if direction == ToDut {
      var i := 0;
      while i < Execute.NumRegs
        modifies emu
        invariant 0 <= i <= Execute.NumRegs && |emu.gpr| == Execute.NumRegs
        invariant forall j :: 0 <= j < i ==> emu.gpr[j] == Low32(dut[j])
        invariant emu.pc == old(emu.pc)
        invariant emu.mem == old(emu.mem) && emu.state == old(emu.state) && emu.haltPc == old(emu.haltPc) &&
          emu.haltRet == old(emu.haltRet) && emu.count == old(emu.count)
      {
        emu.gpr := emu.gpr[i := Low32(dut[i])];
        i := i + 1;
      }
      assert emu.gpr == Narrow(dut[..], Execute.NumRegs);
      emu.pc := Low32(dut[Execute.NumRegs]);
    } else {
      var i := 0;
      while i < Execute.NumRegs
        modifies dut
        invariant 0 <= i <= Execute.NumRegs
        invariant forall j :: 0 <= j < i ==> dut[j] == Widen(emu.gpr[j])
        invariant forall j :: i <= j < dut.Length ==> dut[j] == old(dut[j])
        invariant emu.gpr == old(emu.gpr) && emu.pc == old(emu.pc)
      {
        dut[i] := Widen(emu.gpr[i]);
        i := i + 1;
      }
      dut[Execute.NumRegs] := Widen(emu.pc);
      assert dut[..Execute.NumRegs + 1] == Slots(emu.gpr, emu.pc);
      assert dut[Execute.NumRegs + 1..] == old(dut[Execute.NumRegs + 1..]);
      assert dut[..] == dut[..Execute.NumRegs + 1] + dut[Execute.NumRegs + 1..];
    }
  }

  /**
   * isa_difftest_checkregs: true exactly when all 32 registers and the pc
   * agree with the reference; otherwise the report names the lowest
   * differing register, and the pc only when every register agrees.
   */
  method CheckRegs(emu: CpuExec.Emulator, ref: RefRegs, at: Word) returns (ok: bool, report: Report)
    requires |emu.gpr| == Execute.NumRegs && |ref.gpr| == Execute.NumRegs
    ensures ok <==> ref.gpr == emu.gpr && ref.pc == emu.pc
    ensures ok <==> report == Match
    ensures report.GprDiffers? ==>
      report.index < Execute.NumRegs && ref.gpr[report.index] != emu.gpr[report.index] &&
      (forall j :: 0 <= j < report.index ==> ref.gpr[j] == emu.gpr[j]) &&
      report == GprDiffers(report.index, ref.gpr[report.index], emu.gpr[report.index], at)
    ensures report.PcDiffers? ==> ref.gpr == emu.gpr && report == PcDiffers(ref.pc, emu.pc, at)
  {
    var i := 0;
    while i < Execute.NumRegs
      invariant 0 <= i <= Execute.NumRegs
      invariant forall j :: 0 <= j < i ==> ref.gpr[j] == emu.gpr[j]
    {
      if ref.gpr[i] != emu.gpr[i] {
        return false, GprDiffers(i, ref.gpr[i], emu.gpr[i], at);
      }
      i := i + 1;
    }
    if ref.pc != emu.pc {
      return false, PcDiffers(ref.pc, emu.pc, at);
    }
    return true, Match;
  }
}
