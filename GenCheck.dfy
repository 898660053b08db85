/**
 * What the debugger's expression evaluator makes of the text gen-expr
 * writes: a printed expression tokenizes to Tokens(t), and evaluating those
 * tokens gives Value(t). Together with GenMeans this is the contract the
 * test command of sdb.c relies on: for every line gen-expr prints, expr()
 * on the expression succeeds with the value printed beside it.
 */
module GenCheck {
  import Numerals
  import Unsigned
  import opened Wrappers
  import Lexer
  import Evaluator
  import opened GenExpr

  // ---------------------------------------------------------------------------
  // Tokenizing a printed expression

  /** A printed expression starts with '(' or a digit, never a blank. */
  lemma FirstChar(t: Tree)
    ensures |Print(t)| >= 1 && Print(t)[0] != ' '
  {
    match t
    case Leaf(n) => Numerals.DecimalText(n);
    case Node(_, _, _) =>
  }

  /** The last token of an expression is a number or ')', so a '*' after it multiplies. */
  lemma LastToken(t: Tree)
    ensures Lexer.EndsOperand(Tokens(t)[Size(t) - 1].kind)
  {
  }

  lemma Regroup<T>(u: seq<T>, a: T, x: seq<T>, b: T, y: seq<T>, c: T)
    ensures u + [a] + x + [b] + y + [c] == u + ([a] + x + [b] + y + [c])
  {
  }

  lemma NothingAppended<T>(s: seq<T>)
    ensures s + [] == s && [] + s == s
  {
  }

  /** make_token on an operator symbol after the tokens of an operand. */
  lemma LexOperator(op: Op, x: string, acc: seq<Lexer.Token>, bs: bool)
    requires 0 < |acc| < Lexer.MaxTokens && Lexer.EndsOperand(acc[|acc| - 1].kind)
    ensures Lexer.LexWith([Symbol(op)] + x, acc, bs)
            == Lexer.LexWith(x, acc + [OpToken(op)], bs)
  {
    match op
    case Add => Lexer.LexPlusSign(x, acc, bs);
    case Sub => Lexer.LexMinusSign(x, acc, bs);
    case Times => Lexer.LexStar(x, acc, bs);
    case Quot => Lexer.LexSlash(x, acc, bs);
  }

  /** The text after the left operand of an operation, and after its operator. */
  function AfterLeft(op: Op, r: Tree, x: string): string
  {
    " " + ([Symbol(op)] + AfterOperator(r, x))
  }

  function AfterOperator(r: Tree, x: string): string
  {
    " " + (Print(r) + (")" + x))
  }

  /** The token of an operator symbol. */
  function OpToken(op: Op): Lexer.Token
  {
    Lexer.Token(OpKind(op), [Symbol(op)])
  }

  /** The tokens before the right operand of an operation. */
  function BeforeRight(acc: seq<Lexer.Token>, op: Op, l: Tree): seq<Lexer.Token>
  {
    acc + [Lexer.Token(Lexer.LParen, "(")] + Tokens(l) + [OpToken(op)]
  }

  /** Tokenizing the text of an expression, followed by anything that cannot extend its last token, appends Tokens(t). */
  lemma {:induction false} LexTree(t: Tree, x: string, acc: seq<Lexer.Token>, bs: bool)
    requires |acc| + Size(t) <= Lexer.MaxTokens
    requires x == [] || !Lexer.IsAlnum(x[0])
    ensures Lexer.LexWith(Print(t) + x, acc, bs) == Lexer.LexWith(x, acc + Tokens(t), bs)
    decreases t
  {
    match t
    case Leaf(n) =>
      Numerals.DecimalText(n);
      Lexer.LexNumber(Numerals.Text(n, 10), x, acc, bs);
    case Node(op, l, r) =>
      LexTree(l, AfterLeft(op, r, x), acc + [Lexer.Token(Lexer.LParen, "(")], bs);
      LexTree(r, ")" + x, BeforeRight(acc, op, l), bs);
      LexLeftHalf(op, l, r, x, acc, bs);
      LexRightHalf(op, l, r, x, acc, bs);
  }

  /** Tokenizing an operation up to its right operand: '(', the left operand, the operator. */
  lemma LexLeftHalf(op: Op, l: Tree, r: Tree, x: string, acc: seq<Lexer.Token>, bs: bool)
    requires |acc| + Size(Node(op, l, r)) <= Lexer.MaxTokens
    requires var a1 := acc + [Lexer.Token(Lexer.LParen, "(")];
      Lexer.LexWith(Print(l) + AfterLeft(op, r, x), a1, bs) == Lexer.LexWith(AfterLeft(op, r, x), a1 + Tokens(l), bs)
    ensures Lexer.LexWith(Print(Node(op, l, r)) + x, acc, bs)
            == Lexer.LexWith(AfterOperator(r, x), BeforeRight(acc, op, l), bs)
  {
    PrintedThen(op, l, r, x);
    Lexer.LexOpen(Print(l) + AfterLeft(op, r, x), acc, bs);
    LexAfterLeft(op, l, r, x, acc, bs);
  }

  /** The text of an operation followed by x, split after its '(' and after its left operand. */
  lemma PrintedThen(op: Op, l: Tree, r: Tree, x: string)
    ensures Print(Node(op, l, r)) + x == "(" + (Print(l) + AfterLeft(op, r, x))
  {
    Nest("(", Print(l), " ", [Symbol(op)], " ", Print(r), ")", x);
  }

  lemma Nest<T>(a: seq<T>, b: seq<T>, c: seq<T>, d: seq<T>, e: seq<T>, f: seq<T>, g: seq<T>, x: seq<T>)
    ensures a + b + c + d + e + f + g + x == a + (b + (c + (d + (e + (f + (g + x))))))
  {
  }

  /** Tokenizing the blank and the operator after the left operand of an operation. */
  lemma LexAfterLeft(op: Op, l: Tree, r: Tree, x: string, acc: seq<Lexer.Token>, bs: bool)
    requires |acc| + Size(Node(op, l, r)) <= Lexer.MaxTokens
    ensures var a2 := acc + [Lexer.Token(Lexer.LParen, "(")] + Tokens(l);
      Lexer.LexWith(AfterLeft(op, r, x), a2, bs) == Lexer.LexWith(AfterOperator(r, x), BeforeRight(acc, op, l), bs)
  {
    var a2 := acc + [Lexer.Token(Lexer.LParen, "(")] + Tokens(l);
    Lexer.LexBlank([Symbol(op)] + AfterOperator(r, x), a2, bs);
    LastToken(l);
    assert a2[|a2| - 1] == Tokens(l)[Size(l) - 1];
    LexOperator(op, AfterOperator(r, x), a2, bs);
  }

  /** Tokenizing an operation from its right operand on: the right operand and ')'. */
  lemma LexRightHalf(op: Op, l: Tree, r: Tree, x: string, acc: seq<Lexer.Token>, bs: bool)
    requires |acc| + Size(Node(op, l, r)) <= Lexer.MaxTokens
    requires Lexer.LexWith(Print(r) + (")" + x), BeforeRight(acc, op, l), bs)
             == Lexer.LexWith(")" + x, BeforeRight(acc, op, l) + Tokens(r), bs)
    ensures Lexer.LexWith(AfterOperator(r, x), BeforeRight(acc, op, l), bs)
            == Lexer.LexWith(x, acc + Tokens(Node(op, l, r)), bs)
  {
    var a3 := BeforeRight(acc, op, l);
    FirstChar(r);
    Lexer.LexBlank(Print(r) + (")" + x), a3, bs);
    Lexer.LexClose(x, a3 + Tokens(r), bs);
    Regroup(acc, Lexer.Token(Lexer.LParen, "("), Tokens(l), OpToken(op), Tokens(r), Lexer.Token(Lexer.RParen, ")"));
  }

  /** So expr.c tokenizes a printed expression of at most 1024 tokens into exactly its tokens. */
  lemma LexPrinted(t: Tree)
    requires Size(t) <= Lexer.MaxTokens
    ensures Lexer.Lex(Print(t)) == Some(Tokens(t))
  {
    LexTree(t, [], [], true);
    NothingAppended(Print(t));
    NothingAppended(Tokens(t));
  }

  // ---------------------------------------------------------------------------
  // The parentheses of a range of tokens

  /** The count of a range is the sum of the counts of its two parts. */
  lemma {:induction false} BalanceSplit(toks: seq<Lexer.Token>, a: nat, b: nat, c: nat)
    requires a <= b <= c <= |toks|
    ensures Evaluator.Balance(toks, a, c) == Evaluator.Balance(toks, a, b) + Evaluator.Balance(toks, b, c)
    decreases c
  {
    if b < c {
      BalanceSplit(toks, a, b, c - 1);
    }
  }

  /** toks[a..q] closes every parenthesis it opens, and every proper prefix past the first token leaves one open. */
  ghost predicate Group(toks: seq<Lexer.Token>, a: nat, q: nat)
    requires a <= q < |toks|
  {
    Evaluator.Balance(toks, a, q + 1) == 0 && forall j :: a < j <= q ==> Evaluator.Balance(toks, a, j) >= 1
  }

  /** The kinds of the four binary operators gen-expr writes. */
  predicate IsBinary(k: Lexer.Kind)
  {
    k == Lexer.Plus || k == Lexer.Minus || k == Lexer.Mul || k == Lexer.Div
  }

  /**
   * toks[p..q] is laid out as an operation: '(' at p, a binary operator at
   * o, ')' at q, and each operand between them a group ending in a number
   * or ')'.
   */
  ghost predicate Operation(toks: seq<Lexer.Token>, p: nat, o: nat, q: nat)
  {
    p + 2 <= o && o + 2 <= q < |toks|
    && toks[p].kind == Lexer.LParen && toks[q].kind == Lexer.RParen && IsBinary(toks[o].kind)
    && Group(toks, p + 1, o - 1) && Group(toks, o + 1, q - 1)
    && Lexer.EndsOperand(toks[o - 1].kind) && Lexer.EndsOperand(toks[q - 1].kind)
  }

  /** An operation is a group. */
  lemma OperationGroup(toks: seq<Lexer.Token>, p: nat, o: nat, q: nat)
    requires Operation(toks, p, o, q)
    ensures Group(toks, p, q)
  {
    forall j | p < j <= q
      ensures Evaluator.Balance(toks, p, j) >= 1
    {
      Evaluator.BalanceFront(toks, p, j);
      if j > o {
        BalanceSplit(toks, p + 1, o, j);
        Evaluator.BalanceFront(toks, o, j);
      }
    }
    Evaluator.BalanceFront(toks, p, q + 1);
    BalanceSplit(toks, p + 1, o, q + 1);
    Evaluator.BalanceFront(toks, o, q + 1);
  }

  /** check_parentheses holds for an operation. */
  lemma OperationWrapped(toks: seq<Lexer.Token>, p: nat, o: nat, q: nat)
    requires Operation(toks, p, o, q)
    ensures Evaluator.Wrapped(toks, p, q)
  {
    OperationGroup(toks, p, o, q);
    forall j | p < j <= q
      ensures Evaluator.Opened(toks, p, j) >= 0
    {
      Evaluator.BalanceFront(toks, p, j);
    }
    Evaluator.BalanceFront(toks, p, q + 1);
    Evaluator.NeverBelowMeans(toks, p, q);
  }

  /** A range that starts with a parenthesised group followed by more tokens fails check_parentheses. */
  lemma LeadingGroupNotWrapped(toks: seq<Lexer.Token>, a: nat, b: nat, q: nat)
    requires a < b < q < |toks| && Group(toks, a, b) && toks[a].kind == Lexer.LParen
    ensures !Evaluator.Wrapped(toks, a, q)
  {
    Evaluator.BalanceFront(toks, a, b + 1);
    assert Evaluator.Opened(toks, a, b + 1) < 0;
    Evaluator.NeverBelowMeans(toks, a, q);
  }

  /** Between the parentheses of an operation check_parentheses fails: the left operand is a number or closes its own. */
  lemma InnerNotWrapped(toks: seq<Lexer.Token>, p: nat, o: nat, q: nat)
    requires Operation(toks, p, o, q)
    ensures !Evaluator.Wrapped(toks, p + 1, q - 1)
  {
    if toks[p + 1].kind == Lexer.LParen {
      assert Evaluator.Balance(toks, p + 1, p + 2) == 1;
      LeadingGroupNotWrapped(toks, p + 1, o - 1, q - 1);
    }
  }

  /** A token strictly inside a group, with only balanced tokens after the group, is not outside every parenthesis. */
  lemma InsideGroup(toks: seq<Lexer.Token>, a: nat, b: nat, j: nat, q: nat)
    requires a <= j < b <= q < |toks| && Group(toks, a, b)
    requires Evaluator.Balance(toks, b + 1, q + 1) == 0
    ensures Evaluator.Balance(toks, j + 1, q + 1) < 0
  {
    BalanceSplit(toks, a, j + 1, b + 1);
    BalanceSplit(toks, j + 1, b + 1, q + 1);
  }

  /** No token of the left operand of an operation is an operator outside every parenthesis. */
  lemma LeftNotCandidate(toks: seq<Lexer.Token>, p: nat, o: nat, q: nat, j: nat)
    requires Operation(toks, p, o, q) && p + 1 <= j < o
    ensures !Evaluator.Candidate(toks, j, q - 1)
  {
    if j < o - 1 {
      Evaluator.BalanceFront(toks, o, q);
      InsideGroup(toks, p + 1, o - 1, j, q - 1);
    }
  }

  /** No token of the right operand of an operation is an operator outside every parenthesis. */
  lemma RightNotCandidate(toks: seq<Lexer.Token>, p: nat, o: nat, q: nat, j: nat)
    requires Operation(toks, p, o, q) && o < j <= q - 1
    ensures !Evaluator.Candidate(toks, j, q - 1)
  {
    if j < q - 1 {
      InsideGroup(toks, o + 1, q - 1, j, q - 1);
    }
  }

  /** find_main_op between the parentheses of an operation picks its operator. */
  lemma InnerMainOp(toks: seq<Lexer.Token>, p: nat, o: nat, q: nat)
    requires Operation(toks, p, o, q)
    ensures Evaluator.MainOp(toks, p + 1, q - 1) == o
  {
    assert Evaluator.Candidate(toks, o, q - 1);
    Evaluator.MainOpIsLowestLeftmost(toks, p + 1, q - 1);
    var r := Evaluator.MainOp(toks, p + 1, q - 1);
    if r < o {
      LeftNotCandidate(toks, p, o, q, r);
    } else if r > o {
      RightNotCandidate(toks, p, o, q, r);
    }
  }

  /** The tokens of an operation are laid out from p to q with its operator at o. Stated through a quantifier, as EvaluatesTo is. */
  ghost predicate Operating(toks: seq<Lexer.Token>, p: nat, o: nat, q: nat)
  {
    p + 2 <= o && o + 2 <= q < |toks| && forall k :: k == o ==> Operation(toks, p, k, q)
  }

  /** eval strips the parentheses of an operation. */
  lemma OperationUnwraps(toks: seq<Lexer.Token>, p: nat, o: nat, q: nat, success: bool, m: Evaluator.Machine)
    ensures Evaluator.Ready(toks, m) && Operating(toks, p, o, q) ==>
      Evaluator.Eval(toks, p, q, success, m) == Evaluator.Eval(toks, p + 1, q - 1, success, m)
  {
    if Evaluator.Ready(toks, m) && Operating(toks, p, o, q) {
      assert Operation(toks, p, o, q);
      OperationWrapped(toks, p, o, q);
      Evaluator.EvalWrappedStep(toks, p, q, success, m);
    }
  }

  /** Inside the parentheses of an operation, eval splits at its operator. */
  lemma InnerSplits(toks: seq<Lexer.Token>, p: nat, o: nat, q: nat, success: bool, m: Evaluator.Machine)
    ensures Evaluator.Ready(toks, m) && Operating(toks, p, o, q) ==>
      (var left := Evaluator.Eval(toks, p + 1, o - 1, success, m);
       Evaluator.Eval(toks, p + 1, q - 1, success, m)
       == Evaluator.Combine(toks[o].kind, left, Evaluator.Eval(toks, o + 1, q - 1, left.success, m)))
  {
    if Evaluator.Ready(toks, m) && Operating(toks, p, o, q) {
      assert Operation(toks, p, o, q);
      InnerNotWrapped(toks, p, o, q);
      InnerMainOp(toks, p, o, q);
      Evaluator.EvalSplitsAt(toks, p + 1, o, q - 1, success, m);
    }
  }

  // ---------------------------------------------------------------------------
  // Where the tokens of an expression sit

  /** The tokens of t sit in toks from index p on: its literals, and the kinds of its parentheses and operators. */
  ghost predicate Placed(toks: seq<Lexer.Token>, p: nat, t: Tree)
    decreases t
  {
    match t
    case Leaf(n) => p < |toks| && toks[p] == Lexer.Token(Lexer.Num, Numerals.Text(n, 10))
    case Node(op, l, r) =>
      var o := p + 1 + Size(l);
      p + Size(t) <= |toks| && toks[p].kind == Lexer.LParen
      && toks[o].kind == OpKind(op) && toks[p + Size(t) - 1].kind == Lexer.RParen
      && Placed(toks, p + 1, l) && Placed(toks, o + 1, r)
  }

  /** The tokens of an expression, which end at q, form a group ending in a number or ')', and those of an operation are laid out as one. */
  lemma {:induction false} PlacedOperation(toks: seq<Lexer.Token>, p: nat, q: nat, t: Tree)
    requires Placed(toks, p, t) && q == p + Size(t) - 1
    ensures q < |toks| && Group(toks, p, q) && Lexer.EndsOperand(toks[q].kind)
    ensures t.Node? ==>
      Operation(toks, p, p + 1 + Size(t.left), q) && toks[p + 1 + Size(t.left)].kind == OpKind(t.op)
    decreases t
  {
    if t.Node? {
      var o := p + 1 + Size(t.left);
      PlacedOperation(toks, p + 1, o - 1, t.left);
      PlacedOperation(toks, o + 1, q - 1, t.right);
      OperationGroup(toks, p, o, q);
    }
  }

  /** Where the parts of a sequence laid out as [a] + x + [b] + y + [c] sit. */
  lemma FiveParts<T>(a: T, x: seq<T>, b: T, y: seq<T>, c: T)
    ensures var s := [a] + x + [b] + y + [c];
      |s| == |x| + |y| + 3 && s[0] == a && s[|x| + 1] == b && s[|s| - 1] == c
      && (forall i :: 0 <= i < |x| ==> s[1 + i] == x[i])
      && (forall i :: 0 <= i < |y| ==> s[|x| + 2 + i] == y[i])
  {
  }

  /** Where the parentheses and the operator of an operation sit among its tokens. */
  lemma TokensEnds(op: Op, l: Tree, r: Tree)
    ensures var ts := Tokens(Node(op, l, r));
      ts[0] == Lexer.Token(Lexer.LParen, "(") && ts[Size(l) + 1] == OpToken(op)
      && ts[Size(l) + Size(r) + 2] == Lexer.Token(Lexer.RParen, ")")
  {
    FiveParts(Lexer.Token(Lexer.LParen, "("), Tokens(l), OpToken(op), Tokens(r), Lexer.Token(Lexer.RParen, ")"));
  }

  /** Where the tokens of the left operand of an operation sit among its tokens. */
  lemma TokensLeft(op: Op, l: Tree, r: Tree)
    ensures Size(l) + 1 <= Size(Node(op, l, r))
    ensures forall i :: 0 <= i < Size(l) ==> Tokens(Node(op, l, r))[1 + i] == Tokens(l)[i]
  {
    FiveParts(Lexer.Token(Lexer.LParen, "("), Tokens(l), OpToken(op), Tokens(r), Lexer.Token(Lexer.RParen, ")"));
  }

  /** Where the tokens of the right operand of an operation sit among its tokens. */
  lemma TokensRight(op: Op, l: Tree, r: Tree)
    ensures Size(l) + 2 + Size(r) <= Size(Node(op, l, r))
    ensures forall i :: 0 <= i < Size(r) ==> Tokens(Node(op, l, r))[Size(l) + 2 + i] == Tokens(r)[i]
  {
    var front := [Lexer.Token(Lexer.LParen, "(")] + Tokens(l) + [OpToken(op)];
    var ts := front + Tokens(r) + [Lexer.Token(Lexer.RParen, ")")];
    assert Tokens(Node(op, l, r)) == ts;
    assert |front| == Size(l) + 2;
    forall i | 0 <= i < Size(r)
      ensures ts[|front| + i] == Tokens(r)[i]
    {
    }
  }

  /** The tokens from p on agree one by one with Tokens(t). */
  ghost predicate Pointwise(toks: seq<Lexer.Token>, p: nat, t: Tree)
  {
    p + Size(t) <= |toks| && forall i :: 0 <= i < Size(t) ==> toks[p + i] == Tokens(t)[i]
  }

  /** Tokens that agree with Tokens(t) one by one from p on hold t placed at p. */
  lemma {:induction false} PlacedPointwise(toks: seq<Lexer.Token>, p: nat, t: Tree)
    requires Pointwise(toks, p, t)
    ensures Placed(toks, p, t)
    decreases t
  {
    match t
    case Leaf(n) =>
      assert toks[p + 0] == Tokens(t)[0];
    case Node(op, l, r) =>
      PointwiseEnds(toks, p, op, l, r);
      PointwiseLeft(toks, p, op, l, r);
      PointwiseRight(toks, p, op, l, r);
      PlacedPointwise(toks, p + 1, l);
      PlacedPointwise(toks, p + 1 + Size(l) + 1, r);
  }

  /** Agreeing with the tokens of an operation is agreeing with its parentheses and its operator. */
  lemma PointwiseEnds(toks: seq<Lexer.Token>, p: nat, op: Op, l: Tree, r: Tree)
    requires Pointwise(toks, p, Node(op, l, r))
    ensures toks[p].kind == Lexer.LParen && toks[p + 1 + Size(l)].kind == OpKind(op)
    ensures toks[p + Size(Node(op, l, r)) - 1].kind == Lexer.RParen
  {
    var t := Node(op, l, r);
    TokensEnds(op, l, r);
    PointwiseAt(toks, p, t, 0);
    PointwiseAt(toks, p, t, Size(l) + 1);
    PointwiseAt(toks, p, t, Size(l) + Size(r) + 2);
  }

  /** Agreeing with Tokens(t) from p on, at one place. */
  lemma PointwiseAt(toks: seq<Lexer.Token>, p: nat, t: Tree, i: nat)
    ensures Pointwise(toks, p, t) && i < Size(t) ==> toks[p + i] == Tokens(t)[i]
  {
  }

  /** Agreeing with the tokens of an operation is agreeing with those of its left operand. */
  lemma PointwiseLeft(toks: seq<Lexer.Token>, p: nat, op: Op, l: Tree, r: Tree)
    requires Pointwise(toks, p, Node(op, l, r))
    ensures Pointwise(toks, p + 1, l)
  {
    TokensLeft(op, l, r);
    Shifted(toks, Tokens(Node(op, l, r)), p, 1, p + 1, Tokens(l));
  }

  /** Agreeing with the tokens of an operation is agreeing with those of its right operand. */
  lemma PointwiseRight(toks: seq<Lexer.Token>, p: nat, op: Op, l: Tree, r: Tree)
    requires Pointwise(toks, p, Node(op, l, r))
    ensures Pointwise(toks, p + 1 + Size(l) + 1, r)
  {
    TokensRight(op, l, r);
    Shifted(toks, Tokens(Node(op, l, r)), p, Size(l) + 2, p + 1 + Size(l) + 1, Tokens(r));
  }

  /** If s agrees with ts from p on and ts with us from k on, then s agrees with us from p + k on. */
  lemma Shifted<T>(s: seq<T>, ts: seq<T>, p: nat, k: nat, q: nat, us: seq<T>)
    requires p + |ts| <= |s| && forall i :: 0 <= i < |ts| ==> s[p + i] == ts[i]
    requires k + |us| <= |ts| && forall i :: 0 <= i < |us| ==> ts[k + i] == us[i]
    requires q == p + k
    ensures q + |us| <= |s| && forall i :: 0 <= i < |us| ==> s[q + i] == us[i]
  {
    forall i | 0 <= i < |us|
      ensures s[q + i] == us[i]
    {
      assert s[p + (k + i)] == ts[k + i];
    }
  }

  // ---------------------------------------------------------------------------
  // Evaluating the tokens of an expression

  /** An evaluation agrees with an expression: it succeeds exactly when the flag was set and the expression has a value, and then returns that value. */
  predicate Agrees(r: Evaluator.Evaluation, t: Tree, success: bool)
  {
    (r.success <==> success && Value(t).Some?) && (r.success ==> r.value == Value(t).value)
  }

  /** What eval computes on the tokens of an expression, read off the expression itself. */
  function TreeEval(t: Tree, success: bool): Evaluator.Evaluation
  {
    match t
    case Leaf(n) => Evaluator.Evaluation(Unsigned.Wrap(n), success)
    case Node(op, l, r) =>
      var left := TreeEval(l, success);
      Evaluator.Combine(OpKind(op), left, TreeEval(r, left.success))
  }

  /** Combining evaluations that agree with the operands agrees with the operation. */
  lemma CombineAgrees(op: Op, l: Tree, r: Tree, success: bool, left: Evaluator.Evaluation, right: Evaluator.Evaluation)
    ensures Agrees(left, l, success) && Agrees(right, r, left.success) ==>
      Agrees(Evaluator.Combine(OpKind(op), left, right), Node(op, l, r), success)
  {
  }

  /** The evaluation read off an expression agrees with it. */
  lemma {:induction false} TreeEvalAgrees(t: Tree, success: bool)
    ensures Agrees(TreeEval(t, success), t, success)
  {
    match t
    case Leaf(n) =>
    case Node(op, l, r) =>
      var left := TreeEval(l, success);
      TreeEvalAgrees(l, success);
      TreeEvalAgrees(r, left.success);
      CombineAgrees(op, l, r, success, left, TreeEval(r, left.success));
  }

  /**
   * eval(p, q, success) is e. Stated through a quantifier so that the
   * evaluation is examined only where a proof names it.
   */
  ghost predicate EvaluatesTo(toks: seq<Lexer.Token>, p: nat, q: nat, success: bool, m: Evaluator.Machine, e: Evaluator.Evaluation)
  {
    forall k :: k == p ==>
      Evaluator.Ready(toks, m) && 0 <= k <= q + 1 <= |toks| && Evaluator.Eval(toks, k, q, success, m) == e
  }

  /** A literal token evaluates to the literal, with the flag as it was. */
  lemma EvalLeaf(toks: seq<Lexer.Token>, p: nat, n: nat, success: bool, m: Evaluator.Machine)
    requires Evaluator.Ready(toks, m) && Placed(toks, p, Leaf(n))
    ensures EvaluatesTo(toks, p, p, success, m, TreeEval(Leaf(n), success))
  {
    Numerals.ValueOfText(n, 10);
  }

  /** eval of an operation combines what its operands evaluate to. */
  lemma EvalOperationTo(toks: seq<Lexer.Token>, p: nat, o: nat, q: nat, success: bool, m: Evaluator.Machine,
                        left: Evaluator.Evaluation, right: Evaluator.Evaluation)
    ensures Evaluator.Ready(toks, m) && Operating(toks, p, o, q) &&
            EvaluatesTo(toks, p + 1, o - 1, success, m, left) && EvaluatesTo(toks, o + 1, q - 1, left.success, m, right) ==>
            EvaluatesTo(toks, p, q, success, m, Evaluator.Combine(toks[o].kind, left, right))
  {
    if Evaluator.Ready(toks, m) && Operating(toks, p, o, q) &&
       EvaluatesTo(toks, p + 1, o - 1, success, m, left) && EvaluatesTo(toks, o + 1, q - 1, left.success, m, right) {
      InnerSplitsTo(toks, p, o, q, success, m, left, right);
      UnwrapsTo(toks, p, o, q, success, m, Evaluator.Combine(toks[o].kind, left, right));
    }
  }

  /** What eval gives inside the parentheses of an operation, it gives on the whole operation. */
  lemma UnwrapsTo(toks: seq<Lexer.Token>, p: nat, o: nat, q: nat, success: bool, m: Evaluator.Machine, e: Evaluator.Evaluation)
    ensures Evaluator.Ready(toks, m) && Operating(toks, p, o, q) && EvaluatesTo(toks, p + 1, q - 1, success, m, e) ==>
            EvaluatesTo(toks, p, q, success, m, e)
  {
    if Evaluator.Ready(toks, m) && Operating(toks, p, o, q) && EvaluatesTo(toks, p + 1, q - 1, success, m, e) {
      OperationUnwraps(toks, p, o, q, success, m);
      assert Evaluator.Eval(toks, p + 1, q - 1, success, m) == e;
    }
  }

  /** Inside the parentheses of an operation, eval combines what its operands evaluate to. */
  lemma InnerSplitsTo(toks: seq<Lexer.Token>, p: nat, o: nat, q: nat, success: bool, m: Evaluator.Machine,
                      left: Evaluator.Evaluation, right: Evaluator.Evaluation)
    ensures Evaluator.Ready(toks, m) && Operating(toks, p, o, q) &&
            EvaluatesTo(toks, p + 1, o - 1, success, m, left) && EvaluatesTo(toks, o + 1, q - 1, left.success, m, right) ==>
            EvaluatesTo(toks, p + 1, q - 1, success, m, Evaluator.Combine(toks[o].kind, left, right))
  {
    if Evaluator.Ready(toks, m) && Operating(toks, p, o, q) &&
       EvaluatesTo(toks, p + 1, o - 1, success, m, left) && EvaluatesTo(toks, o + 1, q - 1, left.success, m, right) {
      Unpack(toks, p + 1, o - 1, success, m, left);
      Unpack(toks, o + 1, q - 1, left.success, m, right);
      InnerCombines(toks, p, o, q, success, m, left, right);
      Pack(toks, p + 1, q - 1, success, m, Evaluator.Combine(toks[o].kind, left, right));
    }
  }

  lemma Unpack(toks: seq<Lexer.Token>, p: nat, q: nat, success: bool, m: Evaluator.Machine, e: Evaluator.Evaluation)
    ensures Evaluator.Ready(toks, m) && p <= q + 1 <= |toks| && EvaluatesTo(toks, p, q, success, m, e) ==>
            Evaluator.Eval(toks, p, q, success, m) == e
  {
    if Evaluator.Ready(toks, m) && p <= q + 1 <= |toks| && EvaluatesTo(toks, p, q, success, m, e) {
      assert Evaluator.Eval(toks, p, q, success, m) == e;
    }
  }

  lemma Pack(toks: seq<Lexer.Token>, p: nat, q: nat, success: bool, m: Evaluator.Machine, e: Evaluator.Evaluation)
    requires Evaluator.Ready(toks, m) && p <= q + 1 <= |toks| && Evaluator.Eval(toks, p, q, success, m) == e
    ensures EvaluatesTo(toks, p, q, success, m, e)
  {
  }

  /** InnerSplits with the operands' evaluations given. */
  lemma InnerCombines(toks: seq<Lexer.Token>, p: nat, o: nat, q: nat, success: bool, m: Evaluator.Machine,
                      left: Evaluator.Evaluation, right: Evaluator.Evaluation)
    requires Evaluator.Ready(toks, m) && Operating(toks, p, o, q)
    requires Evaluator.Eval(toks, p + 1, o - 1, success, m) == left
    requires Evaluator.Eval(toks, o + 1, q - 1, left.success, m) == right
    ensures Evaluator.Eval(toks, p + 1, q - 1, success, m) == Evaluator.Combine(toks[o].kind, left, right)
  {
    InnerSplits(toks, p, o, q, success, m);
  }

  /**
   * eval(p, q, success) computes what t gives, read off t. Stated through a
   * quantifier, as EvaluatesTo is.
   */
  ghost predicate Computes(toks: seq<Lexer.Token>, p: nat, q: nat, success: bool, m: Evaluator.Machine, t: Tree)
  {
    forall e :: e == TreeEval(t, success) ==> EvaluatesTo(toks, p, q, success, m, e)
  }

  /** The tokens of t sit from p on. Stated through a quantifier, as EvaluatesTo is. */
  ghost predicate Laid(toks: seq<Lexer.Token>, p: nat, t: Tree)
  {
    forall k :: k == p ==> Placed(toks, k, t)
  }

  /** The operands of a laid out operation are laid out after its '(' and after its operator. */
  lemma LaidOperands(toks: seq<Lexer.Token>, p: nat, op: Op, l: Tree, r: Tree)
    ensures Laid(toks, p, Node(op, l, r)) ==> Laid(toks, p + 1, l) && Laid(toks, p + Size(l) + 2, r)
  {
    if Laid(toks, p, Node(op, l, r)) {
      assert Placed(toks, p, Node(op, l, r));
    }
  }

  /** A laid out operation is an operation of the tokens, with its own operator. */
  lemma LaidOperation(toks: seq<Lexer.Token>, p: nat, q: nat, op: Op, l: Tree, r: Tree)
    ensures Laid(toks, p, Node(op, l, r)) && q == p + Size(Node(op, l, r)) - 1 ==>
      Operating(toks, p, p + 1 + Size(l), q) && p + 1 + Size(l) < |toks| && toks[p + 1 + Size(l)].kind == OpKind(op)
  {
    if Laid(toks, p, Node(op, l, r)) && q == p + Size(Node(op, l, r)) - 1 {
      assert Placed(toks, p, Node(op, l, r));
      PlacedOperation(toks, p, q, Node(op, l, r));
    }
  }

  /** A laid out literal computes its value, with the flag as it was. */
  lemma LeafComputes(toks: seq<Lexer.Token>, p: nat, n: nat, success: bool, m: Evaluator.Machine)
    ensures Evaluator.Ready(toks, m) && Laid(toks, p, Leaf(n)) ==> Computes(toks, p, p, success, m, Leaf(n))
  {
    if Evaluator.Ready(toks, m) && Laid(toks, p, Leaf(n)) {
      assert Placed(toks, p, Leaf(n));
      EvalLeaf(toks, p, n, success, m);
    }
  }

  /**
   * eval over the tokens of an expression, which end at q, computes what the
   * expression gives, whatever the flag.
   */
  lemma {:induction false} EvalTree(toks: seq<Lexer.Token>, p: nat, q: nat, t: Tree, success: bool, m: Evaluator.Machine)
    requires Evaluator.Ready(toks, m) && Laid(toks, p, t) && q == p + Size(t) - 1
    ensures Computes(toks, p, q, success, m, t)
    decreases t
  {
    EvalTreeIf(toks, p, q, t, success, m);
  }

  /** EvalTree, by induction on t, with its premises as a hypothesis. */
  lemma {:induction false} EvalTreeIf(toks: seq<Lexer.Token>, p: nat, q: nat, t: Tree, success: bool, m: Evaluator.Machine)
    ensures Evaluator.Ready(toks, m) && Laid(toks, p, t) && q == p + Size(t) - 1 ==> Computes(toks, p, q, success, m, t)
    decreases t
  {
    if Evaluator.Ready(toks, m) && Laid(toks, p, t) && q == p + Size(t) - 1 {
      match t
      case Leaf(n) =>
        LeafComputes(toks, p, n, success, m);
      case Node(op, l, r) =>
        LaidOperands(toks, p, op, l, r);
        EvalTreeIf(toks, p + 1, p + Size(l), l, success, m);
        EvalTreeIf(toks, p + Size(l) + 2, q - 1, r, true, m);
        EvalTreeIf(toks, p + Size(l) + 2, q - 1, r, false, m);
        LaidOperation(toks, p, q, op, l, r);
        EvalNode(toks, p, p + 1 + Size(l), q, op, l, r, success, m);
    }
  }

  /** The step of EvalTree at an operation, from what its operands compute. */
  lemma EvalNode(toks: seq<Lexer.Token>, p: nat, o: nat, q: nat, op: Op, l: Tree, r: Tree, success: bool, m: Evaluator.Machine)
    ensures Evaluator.Ready(toks, m) && o == p + 1 + Size(l) && o < q && Operating(toks, p, o, q) && o < |toks| && toks[o].kind == OpKind(op) &&
            Computes(toks, p + 1, o - 1, success, m, l) &&
            Computes(toks, o + 1, q - 1, true, m, r) && Computes(toks, o + 1, q - 1, false, m, r) ==>
            Computes(toks, p, q, success, m, Node(op, l, r))
  {
    if Evaluator.Ready(toks, m) && o == p + 1 + Size(l) && o < q && Operating(toks, p, o, q) && o < |toks| && toks[o].kind == OpKind(op) &&
       Computes(toks, p + 1, o - 1, success, m, l) &&
       Computes(toks, o + 1, q - 1, true, m, r) && Computes(toks, o + 1, q - 1, false, m, r) {
      var left := TreeEval(l, success);
      var right := TreeEval(r, left.success);
      assert EvaluatesTo(toks, p + 1, o - 1, success, m, left);
      assert EvaluatesTo(toks, o + 1, q - 1, left.success, m, right) by {
        if left.success {
          assert EvaluatesTo(toks, o + 1, q - 1, true, m, TreeEval(r, true));
        } else {
          assert EvaluatesTo(toks, o + 1, q - 1, false, m, TreeEval(r, false));
        }
      }
      EvalOperationTo(toks, p, o, q, success, m, left, right);
      NodeEvaluates(toks, p, o, q, op, l, r, success, m);
    }
  }

  /** The evaluation of an operation's tokens, as EvalOperationTo gives it, is the one read off the operation. */
  lemma NodeEvaluates(toks: seq<Lexer.Token>, p: nat, o: nat, q: nat, op: Op, l: Tree, r: Tree, success: bool, m: Evaluator.Machine)
    ensures o < |toks| && toks[o].kind == OpKind(op) &&
            EvaluatesTo(toks, p, q, success, m,
              Evaluator.Combine(toks[o].kind, TreeEval(l, success), TreeEval(r, TreeEval(l, success).success))) ==>
            Computes(toks, p, q, success, m, Node(op, l, r))
  {
  }

  /** expr() on a text that tokenizes evaluates all of its tokens with the flag set. */
  lemma ExprOfTokens(e: string, toks: seq<Lexer.Token>, m: Evaluator.Machine)
    requires Lexer.Lex(e) == Some(toks) && m.cpu.Valid()
    ensures Evaluator.Ready(toks, m)
    ensures Evaluator.Expr(e, m) == Evaluator.Eval(toks, 0, |toks| - 1, true, m)
  {
    Lexer.LexFacts(e);
  }

  /**
   * The whole of expr() on a printed expression of at most 1024 tokens: it
   * succeeds exactly when the expression divides by zero nowhere, and then
   * returns its uint32 value.
   */
  lemma PrintedEvaluates(t: Tree, m: Evaluator.Machine)
    requires Size(t) <= Lexer.MaxTokens && m.cpu.Valid()
    ensures Agrees(Evaluator.Expr(Print(t), m), t, true)
  {
    LexPrinted(t);
    ExprAgrees(Print(t), t, m);
  }

  /** expr() on a text that tokenizes into the tokens of an expression agrees with the expression. */
  lemma ExprAgrees(e: string, t: Tree, m: Evaluator.Machine)
    requires Lexer.Lex(e) == Some(Tokens(t)) && m.cpu.Valid()
    ensures Agrees(Evaluator.Expr(e, m), t, true)
  {
    ExprOfTokens(e, Tokens(t), m);
    TokensEvaluate(t, m);
  }

  /** eval over all the tokens of an expression with the flag set agrees with it. */
  lemma TokensEvaluate(t: Tree, m: Evaluator.Machine)
    requires Evaluator.Ready(Tokens(t), m)
    ensures Agrees(Evaluator.Eval(Tokens(t), 0, |Tokens(t)| - 1, true, m), t, true)
  {
    TokensLaid(t);
    LaidEvaluates(Tokens(t), t, m);
  }

  /** The tokens of an expression are laid out from 0 on. */
  lemma TokensLaid(t: Tree)
    ensures Laid(Tokens(t), 0, t)
  {
    assert Pointwise(Tokens(t), 0, t);
    PlacedPointwise(Tokens(t), 0, t);
  }

  /** eval over tokens that lay out an expression, and nothing else, with the flag set agrees with it. */
  lemma LaidEvaluates(toks: seq<Lexer.Token>, t: Tree, m: Evaluator.Machine)
    requires Evaluator.Ready(toks, m) && Laid(toks, 0, t) && |toks| == Size(t)
    ensures Agrees(Evaluator.Eval(toks, 0, |toks| - 1, true, m), t, true)
  {
    EvalTree(toks, 0, |toks| - 1, t, true, m);
    assert EvaluatesTo(toks, 0, |toks| - 1, true, m, TreeEval(t, true));
    assert Evaluator.Eval(toks, 0, |toks| - 1, true, m) == TreeEval(t, true);
    TreeEvalAgrees(t, true);
  }

  // ---------------------------------------------------------------------------
  // eval as written on the tokens of an expression

  /**
   * eval(p, q, success) as written, given `fuel` nested calls, returns what the
   * corrected eval gives. Stated through a quantifier, as EvaluatesTo is.
   */
  ghost predicate RunsAsWritten(toks: seq<Lexer.Token>, p: nat, q: nat, success: bool, m: Evaluator.Machine, fuel: nat)
  {
    forall k :: k == p ==>
      Evaluator.Ready(toks, m) && 0 <= k && q < |toks| && 0 <= k <= q + 1
      && Evaluator.EvalAsWritten(toks, k, q, success, m, fuel) == Evaluator.Returns(Evaluator.Eval(toks, k, q, success, m))
  }

  /**
   * On the tokens of an expression, eval as written neither recurses on a range
   * without a main operator nor reaches assert(0): with as many nested calls as
   * the expression has tokens it returns what the corrected eval gives.
   */
  lemma {:induction false} AsWrittenTree(toks: seq<Lexer.Token>, p: nat, q: nat, t: Tree, success: bool, m: Evaluator.Machine, fuel: nat)
    requires Evaluator.Ready(toks, m) && Laid(toks, p, t) && q == p + Size(t) - 1 && fuel >= Size(t)
    ensures RunsAsWritten(toks, p, q, success, m, fuel)
    decreases t
  {
    match t
    case Leaf(n) =>
      LeafRunsAsWritten(toks, p, n, success, m, fuel);
    case Node(op, l, r) =>
      LaidOperands(toks, p, op, l, r);
      AsWrittenTree(toks, p + 1, p + Size(l), l, success, m, fuel - 2);
      AsWrittenTree(toks, p + Size(l) + 2, q - 1, r, true, m, fuel - 2);
      AsWrittenTree(toks, p + Size(l) + 2, q - 1, r, false, m, fuel - 2);
      LaidRunsAsWritten(toks, p, q, op, l, r, success, m, fuel);
  }

  /** The step of AsWrittenTree at a laid out operation. */
  lemma LaidRunsAsWritten(toks: seq<Lexer.Token>, p: nat, q: nat, op: Op, l: Tree, r: Tree, success: bool, m: Evaluator.Machine, fuel: nat)
    requires Evaluator.Ready(toks, m) && Laid(toks, p, Node(op, l, r)) && q == p + Size(Node(op, l, r)) - 1 && fuel >= 2
    requires RunsAsWritten(toks, p + 1, p + Size(l), success, m, fuel - 2)
    requires RunsAsWritten(toks, p + Size(l) + 2, q - 1, true, m, fuel - 2)
    requires RunsAsWritten(toks, p + Size(l) + 2, q - 1, false, m, fuel - 2)
    ensures RunsAsWritten(toks, p, q, success, m, fuel)
  {
    LaidOperation(toks, p, q, op, l, r);
    NodeRunsAsWritten(toks, p, p + 1 + Size(l), q, success, m, fuel);
  }

  /** The step of AsWrittenTree at an operation: two calls deeper its operands return what the corrected eval gives. */
  lemma NodeRunsAsWritten(toks: seq<Lexer.Token>, p: nat, o: nat, q: nat, success: bool, m: Evaluator.Machine, fuel: nat)
    ensures Evaluator.Ready(toks, m) && Operating(toks, p, o, q) && fuel >= 2 &&
            RunsAsWritten(toks, p + 1, o - 1, success, m, fuel - 2) &&
            RunsAsWritten(toks, o + 1, q - 1, true, m, fuel - 2) && RunsAsWritten(toks, o + 1, q - 1, false, m, fuel - 2) ==>
            RunsAsWritten(toks, p, q, success, m, fuel)
  {
    if Evaluator.Ready(toks, m) && Operating(toks, p, o, q) && fuel >= 2 &&
       RunsAsWritten(toks, p + 1, o - 1, success, m, fuel - 2) &&
       RunsAsWritten(toks, o + 1, q - 1, true, m, fuel - 2) && RunsAsWritten(toks, o + 1, q - 1, false, m, fuel - 2) {
      var left := Evaluator.Eval(toks, p + 1, o - 1, success, m);
      Runs(toks, p + 1, o - 1, success, m, fuel - 2);
      RunsEither(toks, o + 1, q - 1, left.success, m, fuel - 2);
      NodeReturns(toks, p, o, q, success, m, fuel);
      PackRuns(toks, p, q, success, m, fuel);
    }
  }

  /** A laid out literal: eval as written reads it as the corrected eval does. */
  lemma LeafRunsAsWritten(toks: seq<Lexer.Token>, p: nat, n: nat, success: bool, m: Evaluator.Machine, fuel: nat)
    ensures Evaluator.Ready(toks, m) && Laid(toks, p, Leaf(n)) && fuel >= 1 ==> RunsAsWritten(toks, p, p, success, m, fuel)
  {
    if Evaluator.Ready(toks, m) && Laid(toks, p, Leaf(n)) && fuel >= 1 {
      assert Placed(toks, p, Leaf(n));
    }
  }

  /** The step of AsWrittenTree at an operation, with the operands' runs given: two calls deeper they return what the corrected eval gives. */
  lemma NodeReturns(toks: seq<Lexer.Token>, p: nat, o: nat, q: nat, success: bool, m: Evaluator.Machine, fuel: nat)
    requires Evaluator.Ready(toks, m) && Operating(toks, p, o, q) && fuel >= 2
    requires Evaluator.EvalAsWritten(toks, p + 1, o - 1, success, m, fuel - 2)
          == Evaluator.Returns(Evaluator.Eval(toks, p + 1, o - 1, success, m))
    requires var left := Evaluator.Eval(toks, p + 1, o - 1, success, m);
      Evaluator.EvalAsWritten(toks, o + 1, q - 1, left.success, m, fuel - 2)
      == Evaluator.Returns(Evaluator.Eval(toks, o + 1, q - 1, left.success, m))
    ensures Evaluator.EvalAsWritten(toks, p, q, success, m, fuel) == Evaluator.Returns(Evaluator.Eval(toks, p, q, success, m))
  {
    InnerReturns(toks, p, o, q, success, m, fuel - 1);
    OuterReturns(toks, p, o, q, success, m, fuel);
  }

  /** Eval as written strips the parentheses of an operation, as the corrected eval does. */
  lemma OuterReturns(toks: seq<Lexer.Token>, p: nat, o: nat, q: nat, success: bool, m: Evaluator.Machine, fuel: nat)
    requires Evaluator.Ready(toks, m) && Operating(toks, p, o, q) && fuel >= 2
    requires Evaluator.EvalAsWritten(toks, p + 1, q - 1, success, m, fuel - 1)
          == Evaluator.Returns(Evaluator.Eval(toks, p + 1, q - 1, success, m))
    ensures Evaluator.EvalAsWritten(toks, p, q, success, m, fuel) == Evaluator.Returns(Evaluator.Eval(toks, p, q, success, m))
  {
    OperationUnwraps(toks, p, o, q, success, m);
    assert Operation(toks, p, o, q);
    OperationWrapped(toks, p, o, q);
    assert Evaluator.EvalAsWritten(toks, p, q, success, m, fuel) == Evaluator.EvalAsWritten(toks, p + 1, q - 1, success, m, fuel - 1);
  }

  lemma PackRuns(toks: seq<Lexer.Token>, p: nat, q: nat, success: bool, m: Evaluator.Machine, fuel: nat)
    requires Evaluator.Ready(toks, m) && p <= q + 1 && q < |toks|
    requires Evaluator.EvalAsWritten(toks, p, q, success, m, fuel) == Evaluator.Returns(Evaluator.Eval(toks, p, q, success, m))
    ensures RunsAsWritten(toks, p, q, success, m, fuel)
  {
  }

  /** Runs with the flag chosen among the two runs given. */
  lemma RunsEither(toks: seq<Lexer.Token>, p: nat, q: nat, success: bool, m: Evaluator.Machine, fuel: nat)
    ensures Evaluator.Ready(toks, m) && p <= q + 1 && q < |toks| &&
            RunsAsWritten(toks, p, q, true, m, fuel) && RunsAsWritten(toks, p, q, false, m, fuel) ==>
            Evaluator.EvalAsWritten(toks, p, q, success, m, fuel) == Evaluator.Returns(Evaluator.Eval(toks, p, q, success, m))
  {
    Runs(toks, p, q, success, m, fuel);
  }

  /** Inside the parentheses of an operation, o is the main operator of a range that is not wrapped. */
  lemma OperatingInner(toks: seq<Lexer.Token>, p: nat, o: nat, q: nat)
    requires Operating(toks, p, o, q)
    ensures !Evaluator.Wrapped(toks, p + 1, q - 1) && Evaluator.MainOp(toks, p + 1, q - 1) == o
    ensures toks[o].kind in {Lexer.Plus, Lexer.Minus, Lexer.Mul, Lexer.Div}
  {
    assert Operation(toks, p, o, q);
    InnerNotWrapped(toks, p, o, q);
    InnerMainOp(toks, p, o, q);
  }

  lemma Runs(toks: seq<Lexer.Token>, p: nat, q: nat, success: bool, m: Evaluator.Machine, fuel: nat)
    ensures Evaluator.Ready(toks, m) && p <= q + 1 && q < |toks| && RunsAsWritten(toks, p, q, success, m, fuel) ==>
            Evaluator.EvalAsWritten(toks, p, q, success, m, fuel) == Evaluator.Returns(Evaluator.Eval(toks, p, q, success, m))
  {
    if Evaluator.Ready(toks, m) && p <= q + 1 && q < |toks| && RunsAsWritten(toks, p, q, success, m, fuel) {
      assert Evaluator.EvalAsWritten(toks, p, q, success, m, fuel) == Evaluator.Returns(Evaluator.Eval(toks, p, q, success, m));
    }
  }

  /** Inside the parentheses of an operation, eval as written returns what the corrected eval gives once its operands do. */
  lemma InnerReturns(toks: seq<Lexer.Token>, p: nat, o: nat, q: nat, success: bool, m: Evaluator.Machine, fuel: nat)
    requires Evaluator.Ready(toks, m) && Operating(toks, p, o, q) && fuel >= 1
    requires Evaluator.EvalAsWritten(toks, p + 1, o - 1, success, m, fuel - 1)
          == Evaluator.Returns(Evaluator.Eval(toks, p + 1, o - 1, success, m))
    requires var left := Evaluator.Eval(toks, p + 1, o - 1, success, m);
      Evaluator.EvalAsWritten(toks, o + 1, q - 1, left.success, m, fuel - 1)
      == Evaluator.Returns(Evaluator.Eval(toks, o + 1, q - 1, left.success, m))
    ensures Evaluator.EvalAsWritten(toks, p + 1, q - 1, success, m, fuel) == Evaluator.Returns(Evaluator.Eval(toks, p + 1, q - 1, success, m))
  {
    var left := Evaluator.Eval(toks, p + 1, o - 1, success, m);
    var right := Evaluator.Eval(toks, o + 1, q - 1, left.success, m);
    InnerCombines(toks, p, o, q, success, m, left, right);
    OperatingInner(toks, p, o, q);
    Evaluator.AsWrittenSplitsAt(toks, p + 1, o, q - 1, success, m, fuel, left, right);
  }

  /**
   * expr() as written, on a printed expression of at most 1024 tokens and with
   * as many nested calls of eval as it has tokens, returns, and agrees with the
   * expression as the corrected expr() does.
   */
  lemma PrintedEvaluatesAsWritten(t: Tree, m: Evaluator.Machine, fuel: nat)
    requires Size(t) <= Lexer.MaxTokens && m.cpu.Valid() && fuel >= Size(t)
    ensures Evaluator.ExprAsWritten(Print(t), m, fuel) == Evaluator.Returns(Evaluator.Expr(Print(t), m))
    ensures Agrees(Evaluator.ExprAsWritten(Print(t), m, fuel).result, t, true)
  {
    PrintedRunsAsWritten(t, m, fuel);
    PrintedEvaluates(t, m);
  }

  /** expr() as written on a printed expression returns what expr() gives. */
  lemma PrintedRunsAsWritten(t: Tree, m: Evaluator.Machine, fuel: nat)
    requires Size(t) <= Lexer.MaxTokens && m.cpu.Valid() && fuel >= Size(t)
    ensures Evaluator.ExprAsWritten(Print(t), m, fuel) == Evaluator.Returns(Evaluator.Expr(Print(t), m))
  {
    PrintedLexes(t, m);
    TokensLaid(t);
    LaidTextRuns(Print(t), Tokens(t), t, m, fuel);
  }

  /** LexPrinted, LexPrintedAsWritten and PrintedReady together. */
  lemma PrintedLexes(t: Tree, m: Evaluator.Machine)
    ensures Size(t) <= Lexer.MaxTokens && m.cpu.Valid() ==>
            Lexer.Lex(Print(t)) == Some(Tokens(t)) && Lexer.LexAsWritten(Print(t)) == Some(Tokens(t)) &&
            Evaluator.Ready(Tokens(t), m)
  {
    if Size(t) <= Lexer.MaxTokens && m.cpu.Valid() {
      LexPrinted(t);
      LexPrintedAsWritten(t);
      PrintedReady(t, m);
    }
  }

  lemma PrintedReady(t: Tree, m: Evaluator.Machine)
    requires Size(t) <= Lexer.MaxTokens && m.cpu.Valid()
    ensures Evaluator.Ready(Tokens(t), m)
  {
    LexPrinted(t);
    Lexer.LexFacts(Print(t));
  }

  /** A text whose tokens, read alike by both tokenizers, are laid out as t: expr() as written returns what expr() gives. */
  lemma LaidTextRuns(e: string, toks: seq<Lexer.Token>, t: Tree, m: Evaluator.Machine, fuel: nat)
    ensures Lexer.Lex(e) == Some(toks) && Lexer.LexAsWritten(e) == Some(toks) && Evaluator.Ready(toks, m) &&
            Laid(toks, 0, t) && |toks| == Size(t) && fuel >= Size(t) ==>
            Evaluator.ExprAsWritten(e, m, fuel) == Evaluator.Returns(Evaluator.Expr(e, m))
  {
    if Lexer.Lex(e) == Some(toks) && Lexer.LexAsWritten(e) == Some(toks) && Evaluator.Ready(toks, m) &&
       Laid(toks, 0, t) && |toks| == Size(t) && fuel >= Size(t) {
      LaidReturns(toks, t, m, fuel);
      SameTokensSameResult(e, toks, m, fuel);
    }
  }

  /** Eval as written over tokens that lay out t, and nothing else, returns what the corrected eval gives. */
  lemma LaidReturns(toks: seq<Lexer.Token>, t: Tree, m: Evaluator.Machine, fuel: nat)
    ensures Evaluator.Ready(toks, m) && Laid(toks, 0, t) && |toks| == Size(t) && fuel >= Size(t) ==>
            Evaluator.EvalAsWritten(toks, 0, |toks| - 1, true, m, fuel) == Evaluator.Returns(Evaluator.Eval(toks, 0, |toks| - 1, true, m))
  {
    if Evaluator.Ready(toks, m) && Laid(toks, 0, t) && |toks| == Size(t) && fuel >= Size(t) {
      AsWrittenTree(toks, 0, |toks| - 1, t, true, m, fuel);
      Runs(toks, 0, |toks| - 1, true, m, fuel);
    }
  }

  /** When both tokenizers agree on a text and eval as written returns on its tokens, expr() as written returns what expr() gives. */
  lemma SameTokensSameResult(e: string, toks: seq<Lexer.Token>, m: Evaluator.Machine, fuel: nat)
    requires Lexer.Lex(e) == Some(toks) && Lexer.LexAsWritten(e) == Some(toks) && Evaluator.Ready(toks, m)
    requires Evaluator.EvalAsWritten(toks, 0, |toks| - 1, true, m, fuel) == Evaluator.Returns(Evaluator.Eval(toks, 0, |toks| - 1, true, m))
    ensures Evaluator.ExprAsWritten(e, m, fuel) == Evaluator.Returns(Evaluator.Expr(e, m))
  {
    ExprOfTokens(e, toks, m);
    ExprAsWrittenOfTokens(e, toks, m, fuel);
  }

  /** expr() as written on a text that tokenizes evaluates all of its tokens with the flag set, eval as written. */
  lemma ExprAsWrittenOfTokens(e: string, toks: seq<Lexer.Token>, m: Evaluator.Machine, fuel: nat)
    requires Lexer.LexAsWritten(e) == Some(toks) && m.cpu.Valid()
    ensures Evaluator.Ready(toks, m)
    ensures Evaluator.ExprAsWritten(e, m, fuel) == Evaluator.EvalAsWritten(toks, 0, |toks| - 1, true, m, fuel)
  {
    Lexer.LexInvariants(e, [], false);
  }

  /** make_token as written also tokenizes a printed expression of at most 1024 tokens into its tokens. */
  lemma LexPrintedAsWritten(t: Tree)
    requires Size(t) <= Lexer.MaxTokens
    ensures Lexer.LexAsWritten(Print(t)) == Some(Tokens(t))
  {
    LexTree(t, [], [], false);
    NothingAppended(Print(t));
    NothingAppended(Tokens(t));
  }

  /** eval as written over all the tokens of an expression returns what the corrected eval gives. */
  lemma TokensRunAsWritten(t: Tree, m: Evaluator.Machine, fuel: nat)
    requires Evaluator.Ready(Tokens(t), m) && fuel >= Size(t)
    ensures Evaluator.EvalAsWritten(Tokens(t), 0, |Tokens(t)| - 1, true, m, fuel)
         == Evaluator.Returns(Evaluator.Eval(Tokens(t), 0, |Tokens(t)| - 1, true, m))
  {
    TokensLaid(t);
    AsWrittenTree(Tokens(t), 0, |Tokens(t)| - 1, t, true, m, fuel);
    assert RunsAsWritten(Tokens(t), 0, |Tokens(t)| - 1, true, m, fuel);
  }

  /**
   * Every line gen-expr keeps passes the debugger's test: the expression it
   * writes evaluates, with success, to the value it writes beside it.
   */
  lemma GeneratedCaseHolds(rand: int -> int, k: nat, m: Evaluator.Machine)
    requires m.cpu.Valid()
    ensures var g := GenFinal(0, rand, k);
      g.value != Flag ==> Evaluator.Expr(g.text, m) == Evaluator.Evaluation(g.value, true)
  {
    GenMeans(0, rand, k);
    FullTree(rand, k);
    PrintedEvaluates(Chosen(0, rand, k).tree, m);
  }

  /** Every case the retry loop of main settles on, unless it gave up, is a
      line the debugger reproduces. */
  lemma {:induction false} RetryPasses(rand: int -> int, k: nat, attempts: nat, m: Evaluator.Machine)
    requires attempts >= 1 && m.cpu.Valid()
    ensures var g := Retry(rand, k, attempts);
      g.value != Flag ==> Evaluator.Expr(g.text, m) == Evaluator.Evaluation(g.value, true)
    decreases attempts
  {
    var first := GenFinal(0, rand, k);
    if first.value != Flag || attempts == 1 {
      GeneratedCaseHolds(rand, k, m);
    } else {
      RetryPasses(rand, first.next, attempts - 1, m);
    }
  }

  /** Every line main prints pairs an expression with the value the debugger
      computes for it. */
  lemma CasesPass(rand: int -> int, k: nat, loop: int, attempts: nat, m: Evaluator.Machine)
    requires attempts >= 1 && m.cpu.Valid()
    ensures forall g <- Cases(rand, k, loop, attempts) ::
      g.value != Flag && Evaluator.Expr(g.text, m) == Evaluator.Evaluation(g.value, true)
  {
    AllPass(rand, k, loop, attempts, m);
    forall g <- Cases(rand, k, loop, attempts)
      ensures g.value != Flag && Evaluator.Expr(g.text, m) == Evaluator.Evaluation(g.value, true)
    {
      assert Passes(g, m);
    }
  }

  /**
   * expr() on the text of g gives g's value with success. Stated through a
   * quantifier so that the evaluation is examined only where a proof names it.
   */
  ghost predicate Passes(g: Gen, m: Evaluator.Machine)
  {
    forall e :: e == g.text && m.cpu.Valid() ==> Evaluator.Expr(e, m) == Evaluator.Evaluation(g.value, true)
  }

  /** RetryPasses, through Passes. */
  lemma RetryPassing(rand: int -> int, k: nat, attempts: nat, m: Evaluator.Machine)
    requires attempts >= 1 && m.cpu.Valid()
    ensures Retry(rand, k, attempts).value != Flag ==> Passes(Retry(rand, k, attempts), m)
  {
    RetryPasses(rand, k, attempts, m);
  }

  /** CasesPass, through Passes. */
  lemma {:induction false} AllPass(rand: int -> int, k: nat, loop: int, attempts: nat, m: Evaluator.Machine)
    requires attempts >= 1 && m.cpu.Valid()
    ensures forall g <- Cases(rand, k, loop, attempts) :: g.value != Flag && Passes(g, m)
    decreases if loop < 0 then 0 else loop
  {
    if loop > 0 {
      var g := Retry(rand, k, attempts);
      if g.value != Flag {
        RetryPassing(rand, k, attempts, m);
        AllPass(rand, g.next, loop - 1, attempts, m);
        assert Cases(rand, k, loop, attempts) == [g] + Cases(rand, g.next, loop - 1, attempts);
      }
    }
  }

}
