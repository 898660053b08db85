/**
 * The function-call trace (ftrace.c): the symbol lookup by address and the
 * classification of JAL/JALR as call, indirect call or return by the
 * link-register convention, with the nesting indent it keeps.
 */
module Ftrace {
  import opened Bits
  import Decoder
  import Execute

  /** x1 (ra) and x5 (t0), the two link registers. */
  const LinkRa: nat := 1
  const LinkAlt: nat := 5

  const OpJalr: nat := 0x67
  const OpJal: nat := 0x6F

  /** indent_buf holds 128 bytes, two spaces per level and the terminator. */
  const IndentBufSize: nat := 128

  const UnknownName: string := "???"

  /** A function symbol of the loaded ELF file: its name and its address range [addr, addr + size). */
  datatype Symbol = Symbol(name: string, addr: Word, size: Word)

  /** What a traced instruction is. */
  datatype Kind = Return | IndirectCall | DirectCall | Quiet

  /** The content of a printed line, without its exact text. */
  datatype Event =
    | Ret(from: string, to: string)
    | CallVia(via: nat, to: string, target: Word)
    | Call(to: string, target: Word)

  /** What ftrace_log produces: nothing, or a line at pc with its indentation and event. */
  datatype Entry = Silent | Line(pc: Word, indentation: string, event: Event)

  /** The range test of find_func_name; addr + size is unsigned 32-bit arithmetic, so it wraps. */
  predicate Covers(sym: Symbol, a: Word)
  {
    sym.addr <= a && a < sym.addr + sym.size
  }

  /** The index of the first symbol from i on whose range holds a, or |symbols| when none does. */
  function FirstCovering(symbols: seq<Symbol>, a: Word, i: nat): (k: nat)
    requires i <= |symbols|
    ensures i <= k <= |symbols|
    ensures k < |symbols| ==> Covers(symbols[k], a)
    ensures forall j :: i <= j < k ==> !Covers(symbols[j], a)
    decreases |symbols| - i
  {
    if i == |symbols| then i
    else if Covers(symbols[i], a) then i
    else FirstCovering(symbols, a, i + 1)
  }

  /** The name of the first symbol in table order whose range holds a, or "???". */
  function FuncName(symbols: seq<Symbol>, a: Word): (name: string)
  {
    var k := FirstCovering(symbols, a, 0);
    if k < |symbols| then symbols[k].name else UnknownName
  }

  /** The name lookup means: "???" when no symbol covers a, otherwise the name of the first symbol that does. */
  lemma FuncNameMeans(symbols: seq<Symbol>, a: Word)
    ensures (forall j :: 0 <= j < |symbols| ==> !Covers(symbols[j], a)) ==> FuncName(symbols, a) == UnknownName
    ensures forall k :: 0 <= k < |symbols| && Covers(symbols[k], a) && (forall j :: 0 <= j < k ==> !Covers(symbols[j], a)) ==>
      FuncName(symbols, a) == symbols[k].name
  {
  }

  predicate IsLink(r: nat)
  {
    r == LinkRa || r == LinkAlt
  }

  /**
   * The classification of ftrace_log: a JALR from a link register to a
   * non-link register is a return, a JALR into a link register from a
   * non-link register is an indirect call, a JAL into a link register is a
   * call, and everything else is not traced.
   */
  function Classify(inst: Word): (k: Kind)
    ensures k == Return <==> Decoder.Opcode(inst) == OpJalr && IsLink(Execute.Rs1(inst)) && !IsLink(Execute.Rd(inst))
    ensures k == IndirectCall <==> Decoder.Opcode(inst) == OpJalr && IsLink(Execute.Rd(inst)) && !IsLink(Execute.Rs1(inst))
    ensures k == DirectCall <==> Decoder.Opcode(inst) == OpJal && IsLink(Execute.Rd(inst))
  {
    var rd := Execute.Rd(inst);
    var rs1 := Execute.Rs1(inst);
    if Decoder.Opcode(inst) == OpJalr then
      if IsLink(rs1) && !IsLink(rd) then Return
      else if IsLink(rd) && !IsLink(rs1) then IndirectCall
      else Quiet
    else if Decoder.Opcode(inst) == OpJal then
      if IsLink(rd) then DirectCall else Quiet
    else Quiet
  }

  /** The indent after an instruction of kind k: a return decrements it and clamps at 0, a call increments it. */
  function NextIndent(k: Kind, indent: int): (r: int)
  {
    match k
    case Return => if indent - 1 < 0 then 0 else indent - 1
    case IndirectCall | DirectCall => indent + 1
    case Quiet => indent
  }

  /** The indent the line of an instruction of kind k is printed at: after the decrement of a return, before the increment of a call. */
  function PrintedIndent(k: Kind, indent: int): int
  {
    if k == Return then NextIndent(k, indent) else if k == Quiet then 0 else indent
  }

  /** The indent after a run of traced instructions. */
  function IndentAfter(ks: seq<Kind>, indent: int): int
    decreases |ks|
  {
    if ks == [] then indent else IndentAfter(ks[1..], NextIndent(ks[0], indent))
  }

  function CountOf(ks: seq<Kind>, k: Kind): (r: nat)
    ensures r <= |ks|
    decreases |ks|
  {
    if ks == [] then 0 else (if ks[0] == k then 1 else 0) + CountOf(ks[1..], k)
  }

  /**
   * Over a run of instructions the indent never goes negative, is at least
   * the start plus the calls minus the returns (the clamp only ever raises
   * it), and at most the start plus the calls.
   */
  lemma {:induction false} IndentBounds(ks: seq<Kind>, indent: int)
    requires indent >= 0
    ensures var r := IndentAfter(ks, indent);
      r >= 0 &&
      r >= indent + CountOf(ks, IndirectCall) + CountOf(ks, DirectCall) - CountOf(ks, Return) &&
      r <= indent + CountOf(ks, IndirectCall) + CountOf(ks, DirectCall)
    decreases |ks|
  {
    if ks != [] {
      IndentBounds(ks[1..], NextIndent(ks[0], indent));
    }
  }

  /** A call followed by a return restores the indent, whatever the indent was. */
  lemma {:induction false} CallThenReturn(k: Kind, ks: seq<Kind>, indent: int)
    requires indent >= 0 && (k == IndirectCall || k == DirectCall)
    ensures IndentAfter([k, Return] + ks, indent) == IndentAfter(ks, indent)
  {
    var both := [k, Return] + ks;
    assert both[1..] == [Return] + ks;
    assert both[1..][1..] == ks;
  }

  /** The spaces of indent_buf: two per level. */
  function Spaces(n: nat): (s: string)
    ensures |s| == 2 * n && forall i :: 0 <= i < |s| ==> s[i] == ' '
  {
    seq(2 * n, _ => ' ')
  }

  /** The strcat loop that fills indent_buf; it overflows the 128 bytes from 64 levels on. */
  method Indentation(n: nat) returns (s: string)
    requires 2 * n < IndentBufSize
    ensures s == Spaces(n)
  {
    s := "";
    var i := 0;
    while i < n
      invariant 0 <= i <= n && s == Spaces(i)
    {
      s := s + "  ";
      i := i + 1;
    }
  }

  class Tracer {
    /** func_symbols[0 .. nr_func_symbol), as init_ftrace loaded them */
    const symbols: seq<Symbol>
    /** ftrace_indent */
    var indent: int

    ghost predicate Valid()
      reads this
    {
      indent >= 0
    }

    /** The tracer once the symbol table is loaded, at indent 0. */
    constructor (symbols: seq<Symbol>)
      ensures Valid() && this.symbols == symbols && indent == 0
    {
      this.symbols := symbols;
      indent := 0;
    }

    /** find_func_name */
    method FindFuncName(a: Word) returns (name: string)
      ensures name == FuncName(symbols, a)
    {
      var i := 0;
      while i < |symbols|
        invariant 0 <= i <= |symbols|
        invariant FirstCovering(symbols, a, 0) == FirstCovering(symbols, a, i)
      {
        if Covers(symbols[i], a) {
          return symbols[i].name;
        }
        i := i + 1;
      }
      return UnknownName;
    }

    /**
     * ftrace_log: with no symbols, nothing; otherwise the line of a return,
     * an indirect call or a call, with the indent updated as NextIndent says.
     * The printed indent must fit indent_buf.
     */
    method Log(pc: Word, dnpc: Word, inst: Word) returns (logged: bool, entry: Entry)
      requires Valid()
      requires symbols != [] ==> 2 * PrintedIndent(Classify(inst), indent) < IndentBufSize
      modifies this
      ensures Valid()
      ensures logged <==> entry != Silent
      ensures symbols == [] ==> !logged && indent == old(indent)
      ensures symbols != [] ==> indent == NextIndent(Classify(inst), old(indent))
      ensures symbols != [] ==> match Classify(inst)
        case Return => entry == Line(pc, Spaces(indent), Ret(FuncName(symbols, pc), FuncName(symbols, dnpc)))
        case IndirectCall => entry == Line(pc, Spaces(old(indent)), CallVia(Execute.Rs1(inst), FuncName(symbols, dnpc), dnpc))
        case DirectCall => entry == Line(pc, Spaces(old(indent)), Call(FuncName(symbols, dnpc), dnpc))
        case Quiet => entry == Silent
    {
      if symbols == [] {
        return false, Silent;
      }
      var opcode := Decoder.Opcode(inst);
      var rd := Execute.Rd(inst);
      var rs1 := Execute.Rs1(inst);
      if opcode == OpJalr {
        var rs1IsLink := rs1 == LinkRa || rs1 == LinkAlt;
        var rdIsLink := rd == LinkRa || rd == LinkAlt;
        if rs1IsLink && !rdIsLink {
          indent := indent - 1;
          if indent < 0 {
            indent := 0;
          }
          var spaces := Indentation(indent);
          var from := FindFuncName(pc);
          var to := FindFuncName(dnpc);
          return true, Line(pc, spaces, Ret(from, to));
        } else if rdIsLink && !rs1IsLink {
          var spaces := Indentation(indent);
          var to := FindFuncName(dnpc);
          indent := indent + 1;
          return true, Line(pc, spaces, CallVia(rs1, to, dnpc));
        }
      } else if opcode == OpJal {
        var rdIsLink := rd == LinkRa || rd == LinkAlt;
        if rdIsLink {
          var spaces := Indentation(indent);
          var to := FindFuncName(dnpc);
          indent := indent + 1;
          return true, Line(pc, spaces, Call(to, dnpc));
        }
      }
      return false, Silent;
    }
  }
}
