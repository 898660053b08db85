/**
 * The debugger's expression evaluator (check_parentheses, find_main_op, eval
 * and expr in expr.c): a recursive descent over the token range [p, q] that
 * threads one success flag through the whole evaluation.
 */
module Evaluator {
  import opened Unsigned
  import opened Numerals
  import opened Lexer
  import opened Wrappers
  import opened Registers
  import Bits
  import Memory

  /** What an expression can read: the registers by name and guest memory through paddr_read. */
  datatype Machine = Machine(cpu: CpuView, mem: Memory.Mem)

  /** paddr_read(addr, 4): the little-endian word at the address. */
  function PaddrRead(mem: Memory.Mem, addr: U32): U32
  {
    Memory.Read(mem, addr as Bits.Word, 4) as int
  }

  /** The value eval returns together with the success flag as it leaves it. */
  datatype Evaluation = Evaluation(value: U32, success: bool)

  // ---------------------------------------------------------------------------
  // Parentheses

  function Delta(k: Kind): int
  {
    if k == LParen then 1 else if k == RParen then -1 else 0
  }

  /** Opening minus closing parentheses among toks[a..b]. */
  function Balance(toks: seq<Token>, a: int, b: int): int
    requires 0 <= a <= b <= |toks|
    decreases b - a
  {
    if a == b then 0 else Balance(toks, a, b - 1) + Delta(toks[b - 1].kind)
  }

  /** The net count of the tokens after the one at p, up to k. */
  function Opened(toks: seq<Token>, p: int, k: int): int
    requires 0 <= p < k <= |toks|
  {
    Balance(toks, p + 1, k)
  }

  /** The count can also be taken from the front. */
  lemma {:induction false} BalanceFront(toks: seq<Token>, a: int, b: int)
    requires 0 <= a < b <= |toks|
    ensures Balance(toks, a, b) == Delta(toks[a].kind) + Balance(toks, a + 1, b)
    decreases b - a
  {
    if a + 1 < b {
      BalanceFront(toks, a, b - 1);
    }
  }

  /** No prefix of the tokens after the one at p, up to k, closes more than it opens. */
  predicate NeverBelow(toks: seq<Token>, p: int, k: int)
    requires 0 <= p < k <= |toks|
    decreases k
  {
    Opened(toks, p, k) >= 0 && (k == p + 1 || NeverBelow(toks, p, k - 1))
  }

  /**
   * check_parentheses(p, q): the range is one parenthesised expression. It
   * starts with '(' and ends with ')', and between them no prefix closes more
   * than it opens, and the whole closes all it opens.
   */
  predicate Wrapped(toks: seq<Token>, p: int, q: int)
    requires 0 <= p < q < |toks|
  {
    toks[p].kind == LParen && toks[q].kind == RParen
    && NeverBelow(toks, p, q) && Opened(toks, p, q) == 0
  }

  /** NeverBelow checks every prefix, and only those. */
  lemma {:induction false} NeverBelowMeans(toks: seq<Token>, p: int, k: int)
    requires 0 <= p < k <= |toks|
    ensures NeverBelow(toks, p, k) <==> forall j :: p < j <= k ==> Opened(toks, p, j) >= 0
    decreases k
  {
    if k > p + 1 {
      NeverBelowMeans(toks, p, k - 1);
    }
  }

  /** check_parentheses: the left-to-right scan with a balance counter. */
  method CheckParentheses(toks: seq<Token>, p: int, q: int) returns (b: bool)
    requires 0 <= p < q < |toks|
    ensures b == Wrapped(toks, p, q)
  {
    if toks[p].kind != LParen || toks[q].kind != RParen {
      return false;
    }
    var balance := 0;
    var i := p + 1;
    while i < q
      invariant p + 1 <= i <= q
      invariant balance == Opened(toks, p, i)
      invariant NeverBelow(toks, p, i)
    {
      if toks[i].kind == LParen {
        balance := balance + 1;
      }
      if toks[i].kind == RParen {
        balance := balance - 1;
      }
      if balance < 0 {
        assert Opened(toks, p, i + 1) < 0;
        NeverBelowMeans(toks, p, q);
        return false;
      }
      i := i + 1;
    }
    return balance == 0;
  }

  // ---------------------------------------------------------------------------
  // The main operator

  /** The binding strength find_main_op gives an operator; 0 for tokens that are not operators. */
  function Precedence(k: Kind): (r: nat)
    ensures r <= 5
  {
    match k
    case And => 1
    case Eq => 2
    case Neq => 2
    case Plus => 3
    case Minus => 3
    case Mul => 4
    case Div => 4
    case Deref => 5
    case _ => 0
  }

  /** Token i is an operator outside every parenthesis of the range [.., q]: the tokens after it balance. */
  predicate Candidate(toks: seq<Token>, i: int, q: int)
    requires 0 <= i <= q < |toks|
  {
    Precedence(toks[i].kind) > 0 && Balance(toks, i + 1, q + 1) == 0
  }

  /**
   * The main operator of toks[i..q]: among the operators outside every
   * parenthesis the one with the lowest precedence, the leftmost of those
   * when several share it (MainOpIsLowestLeftmost); -1 when there is none.
   */
  function MainOp(toks: seq<Token>, i: int, q: int): (r: int)
    requires 0 <= i <= q + 1 <= |toks|
    ensures r == -1 || i <= r <= q
    decreases q - i
  {
    if i > q then -1
    else
      var r := MainOp(toks, i + 1, q);
      if Candidate(toks, i, q) && (r == -1 || Precedence(toks[i].kind) <= Precedence(toks[r].kind)) then i
      else r
  }

  /** The main operator is an operator outside the parentheses, none binds more loosely, and none to its left as loosely. */
  lemma {:induction false} MainOpIsLowestLeftmost(toks: seq<Token>, i: int, q: int)
    requires 0 <= i <= q + 1 <= |toks|
    ensures var r := MainOp(toks, i, q);
      (r == -1 || Candidate(toks, r, q))
      && forall j :: i <= j <= q && Candidate(toks, j, q) ==>
           r != -1 && Precedence(toks[r].kind) <= Precedence(toks[j].kind)
           && (j < r ==> Precedence(toks[r].kind) < Precedence(toks[j].kind))
    decreases q - i
  {
    if i <= q {
      MainOpIsLowestLeftmost(toks, i + 1, q);
    }
  }

  /** find_main_op: the right-to-left scan with a balance counter, keeping the last operator of lowest precedence. */
  method FindMainOp(toks: seq<Token>, p: int, q: int) returns (op: int)
    requires 0 <= p <= q < |toks|
    ensures op == MainOp(toks, p, q)
  {
    op := -1;
    var balance := 0;
    var precedence := 10;
    var i := q;
    while i >= p
      invariant p - 1 <= i <= q
      invariant balance == -Balance(toks, i + 1, q + 1)
      invariant op == MainOp(toks, i + 1, q)
      invariant precedence == if op == -1 then 10 else Precedence(toks[op].kind)
      decreases i
    {
      BalanceFront(toks, i, q + 1);
      if toks[i].kind == RParen {
        balance := balance + 1;
      } else if toks[i].kind == LParen {
        balance := balance - 1;
      } else if balance == 0 {
        var current := Precedence(toks[i].kind);
        if current > 0 && current <= precedence {
          precedence := current;
          op := i;
        }
      }
      i := i - 1;
    }
  }

  // ---------------------------------------------------------------------------
  // Evaluation

  /**
   * A single token: a decimal literal (scanf %u), a hexadecimal one (%x), or
   * a register, whose lookup without its '$' sets the flag afresh. Literals
   * leave the flag as it was; any other token fails.
   */
  function Operand(t: Token, success: bool, cpu: CpuView): (r: Evaluation)
    requires TokenWellFormed(t) && cpu.Valid()
    ensures t.kind == Num || t.kind == Hex ==> r.success == success
    ensures t.kind != Num && t.kind != Hex && t.kind != Reg ==> r == Evaluation(0, false)
  {
    match t.kind
    case Num => Evaluation(Wrap(Value(t.text, 10)), success)
    case Hex => Evaluation(Wrap(Value(t.text[2..], 16)), success)
    case Reg =>
      var lookup := Str2Val(t.text[1..], cpu);
      Evaluation(lookup.value, lookup.success)
    case _ => Evaluation(0, false)
  }

  function Bool(b: bool): U32 { if b then 1 else 0 }

  /**
   * A binary operator on two words, with C's unsigned arithmetic; division by
   * zero fails. None for a token that is not a binary operator, where eval
   * reaches assert(0).
   */
  function Apply(k: Kind, a: U32, b: U32): (r: Option<Evaluation>)
    ensures r.Some? <==> k in {Plus, Minus, Mul, Div, Eq, Neq, And}
    ensures r.Some? ==> (r.value.success <==> !(k == Div && b == 0))
    ensures r.Some? && !r.value.success ==> r.value.value == 0
  {
    match k
    case Plus => Some(Evaluation(Wrap(a + b), true))
    case Minus => Some(Evaluation(Wrap(a - b), true))
    case Mul => Some(Evaluation(Wrap(Product(a, b)), true))
    case Div => if b == 0 then Some(Evaluation(0, false)) else Some(Evaluation(Quotient(a, b), true))
    case Eq => Some(Evaluation(Bool(a == b), true))
    case Neq => Some(Evaluation(Bool(a != b), true))
    case And => Some(Evaluation(Bool(a != 0 && b != 0), true))
    case _ => None
  }

  predicate Ready(toks: seq<Token>, m: Machine)
  {
    WellFormed(toks) && m.cpu.Valid()
  }

  /**
   * eval(p, q, success) with its two defects corrected: a range with no main
   * operator fails instead of recursing on itself, and a main operator that
   * is not binary fails instead of reaching assert(0). Both operands of a
   * binary operator are evaluated, the right one with the flag the left one
   * left, and the result stands only if the flag is then set.
   */
  function Eval(toks: seq<Token>, p: int, q: int, success: bool, m: Machine): Evaluation
    requires Ready(toks, m) && 0 <= p <= q + 1 <= |toks|
    decreases q - p + 1
  {
    if p > q then Evaluation(0, false)
    else if p == q then Operand(toks[p], success, m.cpu)
    else if Wrapped(toks, p, q) then Eval(toks, p + 1, q - 1, success, m)
    else
      var op := MainOp(toks, p, q);
      if op == -1 then Evaluation(0, false)
      else if op == p && toks[op].kind == Deref then
        var address := Eval(toks, p + 1, q, success, m);
        if !address.success then Evaluation(0, false)
        else Evaluation(PaddrRead(m.mem, address.value), true)
      else
        var left := Eval(toks, p, op - 1, success, m);
        Combine(toks[op].kind, left, Eval(toks, op + 1, q, left.success, m))
  }

  /** The end of a binary step: 0 and failure unless the flag is set after both operands, else the operator's result. */
  function Combine(k: Kind, left: Evaluation, right: Evaluation): (r: Evaluation)
    ensures !right.success ==> r == Evaluation(0, false)
  {
    if !right.success then Evaluation(0, false)
    else
      match Apply(k, left.value, right.value)
      case Some(r) => r
      case None => Evaluation(0, false)
  }

  /** How a call of eval as written ends: it returns, it aborts, or it has not returned within the fuel. */
  datatype Outcome = Returns(result: Evaluation) | Crashes | OutOfFuel

  /**
   * eval(p, q, success) as written, given `fuel` nested calls. With no main
   * operator, find_main_op answers -1, so eval goes on to eval(p, -2) and
   * eval(0, q) and then reads tokens[-1]; a main operator that is not binary
   * reaches assert(0). Both of those end in Crashes.
   */
  function EvalAsWritten(toks: seq<Token>, p: int, q: int, success: bool, m: Machine, fuel: nat): Outcome
    requires Ready(toks, m) && 0 <= p && q < |toks|
    decreases fuel
  {
    if fuel == 0 then OutOfFuel
    else if p > q then Returns(Evaluation(0, false))
    else if p == q then Returns(Operand(toks[p], success, m.cpu))
    else if Wrapped(toks, p, q) then EvalAsWritten(toks, p + 1, q - 1, success, m, fuel - 1)
    else
      var op := MainOp(toks, p, q);
      if op == p && toks[op].kind == Deref then
        match EvalAsWritten(toks, p + 1, q, success, m, fuel - 1)
        case Returns(address) =>
          if !address.success then Returns(Evaluation(0, false))
          else Returns(Evaluation(PaddrRead(m.mem, address.value), true))
        case other => other
      else
        match EvalAsWritten(toks, p, op - 1, success, m, fuel - 1)
        case Returns(left) =>
          (match EvalAsWritten(toks, op + 1, q, left.success, m, fuel - 1)
           case Returns(right) =>
             if !right.success then Returns(Evaluation(0, false))
             else if op < 0 then Crashes
             else
               (match Apply(toks[op].kind, left.value, right.value)
                case Some(r) => Returns(r)
                case None => Crashes)
           case other => other)
        case other => other
  }

  /** expr(e, success): tokenize, then evaluate all the tokens with the flag set; a text that does not tokenize fails. */
  function Expr(e: string, m: Machine): Evaluation
    requires m.cpu.Valid()
  {
    match Lex(e)
    case None => Evaluation(0, false)
    case Some(toks) =>
      LexFacts(e);
      Eval(toks, 0, |toks| - 1, true, m)
  }

  /** expr as written, with make_token and eval as written. */
  function ExprAsWritten(e: string, m: Machine, fuel: nat): Outcome
    requires m.cpu.Valid()
  {
    match LexAsWritten(e)
    case None => Returns(Evaluation(0, false))
    case Some(toks) =>
      LexInvariants(e, [], false);
      EvalAsWritten(toks, 0, |toks| - 1, true, m, fuel)
  }

  /** expr: make_token, then eval over the tokens read. */
  method Evaluate(e: string, m: Machine) returns (value: U32, success: bool)
    requires m.cpu.Valid()
    ensures Evaluation(value, success) == Expr(e, m)
  {
    var ok, toks := MakeToken(e);
    if !ok {
      return 0, false;
    }
    LexFacts(e);
    var r := Eval(toks, 0, |toks| - 1, true, m);
    return r.value, r.success;
  }

  // ---------------------------------------------------------------------------
  // Properties

  /** Started with the flag set, eval returns 0 whenever it clears the flag. */
  lemma {:induction false} FailureYieldsZero(toks: seq<Token>, p: int, q: int, m: Machine)
    requires Ready(toks, m) && 0 <= p <= q + 1 <= |toks|
    ensures !Eval(toks, p, q, true, m).success ==> Eval(toks, p, q, true, m).value == 0
    decreases q - p + 1
  {
    if p < q && Wrapped(toks, p, q) {
      FailureYieldsZero(toks, p + 1, q - 1, m);
    }
  }

  /** One binary step of eval as written that returns: both operands returned, and the step combines them. */
  lemma BinaryStep(toks: seq<Token>, p: int, q: int, success: bool, m: Machine, fuel: nat)
    returns (op: int, left: Evaluation, right: Evaluation)
    requires Ready(toks, m) && 0 <= p < q < |toks| && fuel > 0 && !Wrapped(toks, p, q)
    requires MainOp(toks, p, q) != -1
    requires !(MainOp(toks, p, q) == p && toks[p].kind == Deref)
    requires EvalAsWritten(toks, p, q, success, m, fuel).Returns?
    ensures op == MainOp(toks, p, q) && p <= op <= q
    ensures EvalAsWritten(toks, p, op - 1, success, m, fuel - 1) == Returns(left)
    ensures EvalAsWritten(toks, op + 1, q, left.success, m, fuel - 1) == Returns(right)
    ensures EvalAsWritten(toks, p, q, success, m, fuel) == Returns(Combine(toks[op].kind, left, right))
  {
    op := MainOp(toks, p, q);
    left := EvalAsWritten(toks, p, op - 1, success, m, fuel - 1).result;
    right := EvalAsWritten(toks, op + 1, q, left.success, m, fuel - 1).result;
  }

  /** One binary step of eval as written at an operator o past p, given what its operands return. */
  lemma AsWrittenSplitsAt(toks: seq<Token>, p: int, o: int, q: int, success: bool, m: Machine, fuel: nat,
                          left: Evaluation, right: Evaluation)
    requires Ready(toks, m) && 0 <= p < o < q < |toks| && fuel > 0 && !Wrapped(toks, p, q)
    requires MainOp(toks, p, q) == o && toks[o].kind in {Plus, Minus, Mul, Div, Eq, Neq, And}
    requires EvalAsWritten(toks, p, o - 1, success, m, fuel - 1) == Returns(left)
    requires EvalAsWritten(toks, o + 1, q, left.success, m, fuel - 1) == Returns(right)
    ensures EvalAsWritten(toks, p, q, success, m, fuel) == Returns(Combine(toks[o].kind, left, right))
  {
    assert Apply(toks[o].kind, left.value, right.value).Some?;
  }

  /** The corrected evaluator on a range wrapped in a matching pair of parentheses. */
  lemma EvalWrappedStep(toks: seq<Token>, p: int, q: int, success: bool, m: Machine)
    requires Ready(toks, m) && 0 <= p < q < |toks| && Wrapped(toks, p, q)
    ensures Eval(toks, p, q, success, m) == Eval(toks, p + 1, q - 1, success, m)
  {
  }

  /** The corrected evaluator on a range whose main operator is binary. */
  lemma EvalBinaryStep(toks: seq<Token>, p: int, q: int, success: bool, m: Machine)
    requires Ready(toks, m) && 0 <= p < q < |toks| && !Wrapped(toks, p, q)
    requires MainOp(toks, p, q) != -1
    requires !(MainOp(toks, p, q) == p && toks[p].kind == Deref)
    ensures var op := MainOp(toks, p, q);
      var left := Eval(toks, p, op - 1, success, m);
      Eval(toks, p, q, success, m) == Combine(toks[op].kind, left, Eval(toks, op + 1, q, left.success, m))
  {
  }

  /** The corrected evaluator on a range whose main operator is the binary one at o. */
  lemma EvalSplitsAt(toks: seq<Token>, p: int, o: int, q: int, success: bool, m: Machine)
    requires Ready(toks, m) && 0 <= p < q < |toks| && !Wrapped(toks, p, q)
    requires MainOp(toks, p, q) == o && o != -1 && !(o == p && toks[p].kind == Deref)
    ensures var left := Eval(toks, p, o - 1, success, m);
      Eval(toks, p, q, success, m) == Combine(toks[o].kind, left, Eval(toks, o + 1, q, left.success, m))
  {
  }

  /** With no main operator, eval as written returns only when the flag ends up clear, and then with 0. */
  lemma NoOperatorStep(toks: seq<Token>, p: int, q: int, success: bool, m: Machine, fuel: nat)
    requires Ready(toks, m) && 0 <= p < q < |toks| && fuel > 0 && !Wrapped(toks, p, q)
    requires MainOp(toks, p, q) == -1
    requires EvalAsWritten(toks, p, q, success, m, fuel).Returns?
    ensures EvalAsWritten(toks, p, q, success, m, fuel).result == Evaluation(0, false)
  {
    assert EvalAsWritten(toks, p, -2, success, m, fuel - 1) == Returns(Evaluation(0, false));
  }

  /** A leading dereference of eval as written that returns: the address returned, and the step reads memory at it. */
  lemma DerefStep(toks: seq<Token>, p: int, q: int, success: bool, m: Machine, fuel: nat)
    returns (address: Evaluation)
    requires Ready(toks, m) && 0 <= p < q < |toks| && fuel > 0 && !Wrapped(toks, p, q)
    requires MainOp(toks, p, q) == p && toks[p].kind == Deref
    requires EvalAsWritten(toks, p, q, success, m, fuel).Returns?
    ensures EvalAsWritten(toks, p + 1, q, success, m, fuel - 1) == Returns(address)
    ensures EvalAsWritten(toks, p, q, success, m, fuel).result
            == if !address.success then Evaluation(0, false)
               else Evaluation(PaddrRead(m.mem, address.value), true)
  {
    address := EvalAsWritten(toks, p + 1, q, success, m, fuel - 1).result;
  }

  /** The corrected evaluator on a range that starts with its main operator, a dereference. */
  lemma EvalDerefStep(toks: seq<Token>, p: int, q: int, success: bool, m: Machine)
    requires Ready(toks, m) && 0 <= p < q < |toks| && !Wrapped(toks, p, q)
    requires MainOp(toks, p, q) == p && toks[p].kind == Deref
    ensures var address := Eval(toks, p + 1, q, success, m);
      Eval(toks, p, q, success, m)
      == if !address.success then Evaluation(0, false)
         else Evaluation(PaddrRead(m.mem, address.value), true)
  {
  }

  /**
   * Wherever eval as written returns, the corrected evaluator returns the
   * same: the corrections only change runs that abort or never return.
   */
  lemma {:induction false} AsWrittenAgrees(toks: seq<Token>, p: int, q: int, success: bool, m: Machine, fuel: nat)
    requires Ready(toks, m) && 0 <= p <= q + 1 <= |toks|
    requires EvalAsWritten(toks, p, q, success, m, fuel).Returns?
    ensures EvalAsWritten(toks, p, q, success, m, fuel).result == Eval(toks, p, q, success, m)
    decreases fuel, 1
  {
    if p < q {
      if Wrapped(toks, p, q) {
        AsWrittenAgrees(toks, p + 1, q - 1, success, m, fuel - 1);
      } else {
        var op := MainOp(toks, p, q);
        if op == -1 {
          NoOperatorStep(toks, p, q, success, m, fuel);
        } else if op == p && toks[op].kind == Deref {
          DerefAgrees(toks, p, q, success, m, fuel);
        } else {
          BinaryAgrees(toks, p, q, success, m, fuel);
        }
      }
    }
  }

  lemma {:induction false} BinaryAgrees(toks: seq<Token>, p: int, q: int, success: bool, m: Machine, fuel: nat)
    requires Ready(toks, m) && 0 <= p < q < |toks| && fuel > 0 && !Wrapped(toks, p, q)
    requires MainOp(toks, p, q) != -1
    requires !(MainOp(toks, p, q) == p && toks[p].kind == Deref)
    requires EvalAsWritten(toks, p, q, success, m, fuel).Returns?
    ensures EvalAsWritten(toks, p, q, success, m, fuel).result == Eval(toks, p, q, success, m)
    decreases fuel, 0
  {
    var op, left, right := BinaryStep(toks, p, q, success, m, fuel);
    AsWrittenAgrees(toks, p, op - 1, success, m, fuel - 1);
    AsWrittenAgrees(toks, op + 1, q, left.success, m, fuel - 1);
    EvalCombines(toks, p, op, q, success, m, left, right);
  }

  /** EvalSplitsAt with the operands' evaluations given. */
  lemma EvalCombines(toks: seq<Token>, p: int, o: int, q: int, success: bool, m: Machine, left: Evaluation, right: Evaluation)
    requires Ready(toks, m) && 0 <= p <= o <= q < |toks| && p < q && !Wrapped(toks, p, q)
    requires MainOp(toks, p, q) == o && !(o == p && toks[p].kind == Deref)
    requires Eval(toks, p, o - 1, success, m) == left && Eval(toks, o + 1, q, left.success, m) == right
    ensures Eval(toks, p, q, success, m) == Combine(toks[o].kind, left, right)
  {
    EvalSplitsAt(toks, p, o, q, success, m);
  }

  lemma {:induction false} DerefAgrees(toks: seq<Token>, p: int, q: int, success: bool, m: Machine, fuel: nat)
    requires Ready(toks, m) && 0 <= p < q < |toks| && fuel > 0 && !Wrapped(toks, p, q)
    requires MainOp(toks, p, q) == p && toks[p].kind == Deref
    requires EvalAsWritten(toks, p, q, success, m, fuel).Returns?
    ensures EvalAsWritten(toks, p, q, success, m, fuel).result == Eval(toks, p, q, success, m)
    decreases fuel, 0
  {
    var address := DerefStep(toks, p, q, success, m, fuel);
    AsWrittenAgrees(toks, p + 1, q, success, m, fuel - 1);
    EvalDerefStep(toks, p, q, success, m);
  }

  // ---------------------------------------------------------------------------
  // What eval as written does on two inputs the corrected evaluator rejects

  /** The tokens of two one-digit numbers side by side, such as "1 2": two operands and no operator. */
  function Juxtaposed(a: char, b: char): seq<Token>
  {
    [Token(Num, [a]), Token(Num, [b])]
  }

  /** Two digits with a blank between lex to those tokens, with or without the capacity check on '*'. */
  lemma JuxtaposedLexes(a: char, b: char, boundStars: bool)
    requires IsDigit(a) && IsDigit(b)
    ensures LexWith([a] + (" " + [b]), [], boundStars) == Some(Juxtaposed(a, b))
  {
    var none: seq<Token> := [];
    var one := [Token(Num, [a])];
    assert none + [Token(Num, [a])] == one;
    assert one + [Token(Num, [b])] == Juxtaposed(a, b);
    LexDigit(a, " " + [b], none, boundStars);
    LexBlank([b], one, boundStars);
    LexLastDigit(b, one, boundStars);
  }

  /**
   * On "1 2" find_main_op finds no operator and answers -1; eval then calls
   * eval(0, -2), which fails, and eval(0, 1) again: eval as written never
   * returns, however deep the stack.
   */
  lemma {:induction false} JuxtaposedNeverReturns(a: char, b: char, success: bool, m: Machine, fuel: nat)
    requires IsDigit(a) && IsDigit(b) && m.cpu.Valid()
    ensures Ready(Juxtaposed(a, b), m)
    ensures EvalAsWritten(Juxtaposed(a, b), 0, 1, success, m, fuel) == OutOfFuel
    decreases fuel
  {
    var toks := Juxtaposed(a, b);
    assert TokenWellFormed(toks[0]) && TokenWellFormed(toks[1]);
    assert !Wrapped(toks, 0, 1);
    assert MainOp(toks, 0, 1) == -1;
    if fuel > 0 {
      JuxtaposedNeverReturns(a, b, false, m, fuel - 1);
    }
  }

  /** The corrected evaluator fails on them instead. */
  lemma JuxtaposedFails(a: char, b: char, success: bool, m: Machine)
    requires IsDigit(a) && IsDigit(b) && m.cpu.Valid()
    ensures Ready(Juxtaposed(a, b), m)
    ensures Eval(Juxtaposed(a, b), 0, 1, success, m) == Evaluation(0, false)
  {
    var toks := Juxtaposed(a, b);
    assert TokenWellFormed(toks[0]) && TokenWellFormed(toks[1]);
    assert !Wrapped(toks, 0, 1);
    assert MainOp(toks, 0, 1) == -1;
  }

  /** expr as written on a text such as "1 2" never returns; the corrected expr fails on it. */
  lemma JuxtaposedText(a: char, b: char, m: Machine, fuel: nat)
    requires IsDigit(a) && IsDigit(b) && m.cpu.Valid()
    ensures ExprAsWritten([a] + (" " + [b]), m, fuel) == OutOfFuel
    ensures Expr([a] + (" " + [b]), m) == Evaluation(0, false)
  {
    JuxtaposedLexes(a, b, false);
    JuxtaposedLexes(a, b, true);
    JuxtaposedNeverReturns(a, b, true, m, fuel);
    JuxtaposedFails(a, b, true, m);
  }

  /** The tokens of "( *$name": an opening parenthesis, a dereference, a register. */
  function DerefAfterParen(name: string): seq<Token>
  {
    [Token(LParen, "("), Token(Deref, "*"), Token(Reg, "$" + name)]
  }

  /** A name of letters and digits. */
  predicate IsName(name: string)
  {
    |name| >= 1 && forall i :: 0 <= i < |name| ==> IsAlnum(name[i])
  }

  /** "( *$name" lexes to those tokens: after '(' the '*' is a dereference. */
  lemma DerefAfterParenLexes(name: string, boundStars: bool)
    requires IsName(name)
    ensures LexWith("(" + (" " + ("*" + ("$" + name + []))), [], boundStars) == Some(DerefAfterParen(name))
  {
    var none: seq<Token> := [];
    var open := [Token(LParen, "(")];
    var star := open + [Token(Deref, "*")];
    assert none + [Token(LParen, "(")] == open;
    assert StarKind(open) == Deref;
    assert star + [Token(Reg, "$" + name)] == DerefAfterParen(name);
    LexOpen(" " + ("*" + ("$" + name + [])), none, boundStars);
    LexBlank("*" + ("$" + name + []), open, boundStars);
    LexStar("$" + name + [], open, boundStars);
    LexRegister(name, [], star, boundStars);
  }

  /**
   * On "( *$name" with a register name, find_main_op picks the '*', which is
   * not at p; eval then takes it for a binary operator: the '(' alone fails,
   * the register lookup sets the flag again, and the switch reaches assert(0).
   */
  lemma DerefAfterParenCrashes(name: string, success: bool, m: Machine, fuel: nat)
    requires IsName(name) && m.cpu.Valid() && Str2Val(name, m.cpu).success
    ensures Ready(DerefAfterParen(name), m)
    ensures fuel >= 2 ==> EvalAsWritten(DerefAfterParen(name), 0, 2, success, m, fuel) == Crashes
    ensures Eval(DerefAfterParen(name), 0, 2, success, m) == Evaluation(0, false)
  {
    var toks := DerefAfterParen(name);
    assert ("$" + name)[1..] == name;
    assert TokenWellFormed(toks[0]) && TokenWellFormed(toks[1]) && TokenWellFormed(toks[2]);
    assert !Wrapped(toks, 0, 2);
    assert Balance(toks, 2, 3) == 0;
    assert MainOp(toks, 2, 2) == -1;
    assert MainOp(toks, 1, 2) == 1;
    assert MainOp(toks, 0, 2) == 1;
  }

  /** expr as written aborts on "( *$name" for a register name; the corrected expr fails on it. */
  lemma DerefAfterParenText(name: string, m: Machine, fuel: nat)
    requires IsName(name) && m.cpu.Valid() && Str2Val(name, m.cpu).success
    ensures fuel >= 2 ==> ExprAsWritten("(" + (" " + ("*" + ("$" + name + []))), m, fuel) == Crashes
    ensures Expr("(" + (" " + ("*" + ("$" + name + []))), m) == Evaluation(0, false)
  {
    DerefAfterParenLexes(name, false);
    DerefAfterParenLexes(name, true);
    DerefAfterParenCrashes(name, true, m, fuel);
  }

  /**
   * A leading '-' is binary minus with nothing on its left. Its left operand
   * fails, so "-1" fails; a register on its right sets the flag again, so
   * "-$name" succeeds with the register negated modulo 2^32.
   */
  lemma LeadingMinus(t: Token, m: Machine)
    requires m.cpu.Valid() && TokenWellFormed(t) && (t.kind == Num || t.kind == Hex || t.kind == Reg)
    ensures Ready([Token(Minus, "-"), t], m)
    ensures var r := Eval([Token(Minus, "-"), t], 0, 1, true, m);
      var v := Operand(t, false, m.cpu);
      r == if v.success then Evaluation(Wrap(0 - v.value), true) else Evaluation(0, false)
  {
    LeadingMinusStep(t, m);
    var v := Operand(t, false, m.cpu);
    if v.success {
      assert Apply(Minus, 0, v.value) == Some(Evaluation(Wrap(0 - v.value), true));
    }
  }

  lemma LeadingMinusStep(t: Token, m: Machine)
    requires m.cpu.Valid() && TokenWellFormed(t) && (t.kind == Num || t.kind == Hex || t.kind == Reg)
    ensures Ready([Token(Minus, "-"), t], m)
    ensures Eval([Token(Minus, "-"), t], 0, 1, true, m)
            == Combine(Minus, Evaluation(0, false), Operand(t, false, m.cpu))
  {
    var toks := [Token(Minus, "-"), t];
    assert toks[1] == t;
    assert !Wrapped(toks, 0, 1);
    assert Balance(toks, 1, 2) == 0;
    assert MainOp(toks, 1, 1) == -1;
    assert MainOp(toks, 0, 1) == 0;
  }

  /** The tokens of "a + b * c" for digits a, b and c. */
  function SumOfProduct(a: char, b: char, c: char): seq<Token>
  {
    [Token(Num, [a]), Token(Plus, "+"), Token(Num, [b]), Token(Mul, "*"), Token(Num, [c])]
  }

  lemma SumOfProductShape(a: char, b: char, c: char)
    ensures !Wrapped(SumOfProduct(a, b, c), 0, 4) && MainOp(SumOfProduct(a, b, c), 0, 4) == 1
    ensures !Wrapped(SumOfProduct(a, b, c), 2, 4) && MainOp(SumOfProduct(a, b, c), 2, 4) == 3
  {
    var toks := SumOfProduct(a, b, c);
    assert MainOp(toks, 2, 4) == 3;
    assert MainOp(toks, 1, 4) == 1;
  }

  lemma ProductSide(a: char, b: char, c: char, m: Machine)
    requires IsDigit(a) && IsDigit(b) && IsDigit(c) && m.cpu.Valid()
    ensures Ready(SumOfProduct(a, b, c), m)
    ensures Eval(SumOfProduct(a, b, c), 0, 0, true, m) == Evaluation(DigitValue(a), true)
    ensures Eval(SumOfProduct(a, b, c), 2, 4, true, m) == Evaluation(Wrap(DigitValue(b) * DigitValue(c)), true)
  {
    var toks := SumOfProduct(a, b, c);
    DigitOperand(a, true, m.cpu);
    DigitOperand(b, true, m.cpu);
    DigitOperand(c, true, m.cpu);
    assert WellFormed(toks);
    SumOfProductShape(a, b, c);
    EvalBinaryStep(toks, 2, 4, true, m);
    ProductIsProduct(DigitValue(b), DigitValue(c));
  }

  /** "a + b * c": multiplication binds tighter than addition. */
  lemma ProductBindsTighter(a: char, b: char, c: char, m: Machine)
    requires IsDigit(a) && IsDigit(b) && IsDigit(c) && m.cpu.Valid()
    ensures Ready(SumOfProduct(a, b, c), m)
    ensures Eval(SumOfProduct(a, b, c), 0, 4, true, m)
            == Evaluation(Wrap(DigitValue(a) + DigitValue(b) * DigitValue(c)), true)
  {
    ProductSide(a, b, c, m);
    SumOfProductShape(a, b, c);
    EvalBinaryStep(SumOfProduct(a, b, c), 0, 4, true, m);
    WrapAdd(DigitValue(a), DigitValue(b) * DigitValue(c));
  }

  /** Wrapping the right operand first does not change a wrapped sum. */
  lemma WrapAdd(x: int, y: int)
    ensures Wrap(x + Wrap(y)) == Wrap(x + y)
  {
  }

  /** A one-digit decimal literal evaluates to its digit and keeps the flag. */
  lemma DigitOperand(a: char, success: bool, cpu: CpuView)
    requires IsDigit(a) && cpu.Valid()
    ensures TokenWellFormed(Token(Num, [a]))
    ensures Operand(Token(Num, [a]), success, cpu) == Evaluation(DigitValue(a), success)
  {
    assert [a][..0] == [];
    assert Value([a], 10) == DigitValue(a);
  }

  /** The tokens of "(a + b) * c" for digits a, b and c. */
  function GroupedSum(a: char, b: char, c: char): seq<Token>
  {
    [Token(LParen, "("), Token(Num, [a]), Token(Plus, "+"), Token(Num, [b]),
     Token(RParen, ")"), Token(Mul, "*"), Token(Num, [c])]
  }

  lemma GroupedSumShape(a: char, b: char, c: char)
    requires IsDigit(a) && IsDigit(b) && IsDigit(c)
    ensures !Wrapped(GroupedSum(a, b, c), 0, 6) && MainOp(GroupedSum(a, b, c), 0, 6) == 5
    ensures Wrapped(GroupedSum(a, b, c), 0, 4)
    ensures !Wrapped(GroupedSum(a, b, c), 1, 3) && MainOp(GroupedSum(a, b, c), 1, 3) == 2
  {
    var toks := GroupedSum(a, b, c);
    assert Balance(toks, 1, 2) == 0;
    assert Balance(toks, 1, 3) == 0;
    assert Balance(toks, 1, 4) == 0;
    assert NeverBelow(toks, 0, 2);
    assert NeverBelow(toks, 0, 3);
    assert NeverBelow(toks, 0, 4);
    assert MainOp(toks, 5, 6) == 5;
    assert MainOp(toks, 4, 6) == 5;
    assert MainOp(toks, 3, 6) == 5;
    assert Balance(toks, 3, 5) == -1;
    assert Balance(toks, 3, 6) == -1;
    assert Balance(toks, 3, 7) == -1;
    assert MainOp(toks, 2, 6) == 5;
    assert MainOp(toks, 1, 6) == 5;
  }

  lemma GroupedSumInside(a: char, b: char, c: char, m: Machine)
    requires IsDigit(a) && IsDigit(b) && IsDigit(c) && m.cpu.Valid()
    ensures Ready(GroupedSum(a, b, c), m)
    ensures Eval(GroupedSum(a, b, c), 0, 4, true, m) == Evaluation(DigitValue(a) + DigitValue(b), true)
  {
    var toks := GroupedSum(a, b, c);
    DigitOperand(a, true, m.cpu);
    DigitOperand(b, true, m.cpu);
    DigitOperand(c, true, m.cpu);
    assert WellFormed(toks);
    GroupedSumShape(a, b, c);
    EvalBinaryStep(toks, 1, 3, true, m);
  }

  /** "(a + b) * c": a parenthesised sum is an operand of the product. */
  lemma ParenthesesGroup(a: char, b: char, c: char, m: Machine)
    requires IsDigit(a) && IsDigit(b) && IsDigit(c) && m.cpu.Valid()
    ensures Ready(GroupedSum(a, b, c), m)
    ensures Eval(GroupedSum(a, b, c), 0, 6, true, m)
            == Evaluation(Wrap((DigitValue(a) + DigitValue(b)) * DigitValue(c)), true)
  {
    var toks := GroupedSum(a, b, c);
    GroupedSumShape(a, b, c);
    GroupedSumInside(a, b, c, m);
    assert Eval(toks, 6, 6, true, m) == Evaluation(DigitValue(c), true) by {
      DigitOperand(c, true, m.cpu);
      assert toks[6] == Token(Num, [c]);
    }
    EvalSplitsAt(toks, 0, 5, 6, true, m);
    assert toks[5].kind == Mul;
    MulCombines(DigitValue(a) + DigitValue(b), DigitValue(c));
  }

  /** A product step on two successful operands gives their product, wrapped. */
  lemma MulCombines(x: U32, y: U32)
    ensures Combine(Mul, Evaluation(x, true), Evaluation(y, true)) == Evaluation(Wrap(x * y), true)
  {
    ProductIsProduct(x, y);
  }

  /** "a / 0": division by zero fails. */
  lemma DivisionByZeroFails(a: char, m: Machine)
    requires IsDigit(a) && m.cpu.Valid()
    ensures var toks := [Token(Num, [a]), Token(Div, "/"), Token(Num, "0")];
      Ready(toks, m) && Eval(toks, 0, 2, true, m) == Evaluation(0, false)
  {
    var toks := [Token(Num, [a]), Token(Div, "/"), Token(Num, "0")];
    DigitOperand(a, true, m.cpu);
    DigitOperand('0', true, m.cpu);
    assert toks[2] == Token(Num, ['0']);
    assert WellFormed(toks);
    assert MainOp(toks, 0, 2) == 1;
  }

  /** The tokens of "a == b && c != d" for digits a, b, c and d. */
  function Conjunction(a: char, b: char, c: char, d: char): seq<Token>
  {
    [Token(Num, [a]), Token(Eq, "=="), Token(Num, [b]), Token(And, "&&"),
     Token(Num, [c]), Token(Neq, "!="), Token(Num, [d])]
  }

  lemma ConjunctionShape(a: char, b: char, c: char, d: char)
    ensures !Wrapped(Conjunction(a, b, c, d), 0, 6) && MainOp(Conjunction(a, b, c, d), 0, 6) == 3
    ensures !Wrapped(Conjunction(a, b, c, d), 0, 2) && MainOp(Conjunction(a, b, c, d), 0, 2) == 1
    ensures !Wrapped(Conjunction(a, b, c, d), 4, 6) && MainOp(Conjunction(a, b, c, d), 4, 6) == 5
  {
  }

  lemma ConjunctionSides(a: char, b: char, c: char, d: char, m: Machine)
    requires IsDigit(a) && IsDigit(b) && IsDigit(c) && IsDigit(d) && m.cpu.Valid()
    ensures Ready(Conjunction(a, b, c, d), m)
    ensures Eval(Conjunction(a, b, c, d), 0, 2, true, m) == Evaluation(Bool(DigitValue(a) == DigitValue(b)), true)
    ensures Eval(Conjunction(a, b, c, d), 4, 6, true, m) == Evaluation(Bool(DigitValue(c) != DigitValue(d)), true)
  {
    var toks := Conjunction(a, b, c, d);
    DigitOperand(a, true, m.cpu);
    DigitOperand(b, true, m.cpu);
    DigitOperand(c, true, m.cpu);
    DigitOperand(d, true, m.cpu);
    assert WellFormed(toks);
    ConjunctionShape(a, b, c, d);
    EvalBinaryStep(toks, 0, 2, true, m);
    EvalBinaryStep(toks, 4, 6, true, m);
  }

  /** "a == b && c != d": comparisons bind tighter than the logical and, and true is 1. */
  lemma ComparisonsThenAnd(a: char, b: char, c: char, d: char, m: Machine)
    requires IsDigit(a) && IsDigit(b) && IsDigit(c) && IsDigit(d) && m.cpu.Valid()
    ensures Ready(Conjunction(a, b, c, d), m)
    ensures Eval(Conjunction(a, b, c, d), 0, 6, true, m)
            == Evaluation(Bool(DigitValue(a) == DigitValue(b) && DigitValue(c) != DigitValue(d)), true)
  {
    ConjunctionShape(a, b, c, d);
    ConjunctionSides(a, b, c, d, m);
    EvalBinaryStep(Conjunction(a, b, c, d), 0, 6, true, m);
  }
}
